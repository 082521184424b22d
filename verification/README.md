# GuardSarm: a verified model of its protocols, formats and loops

Each module models one part of GuardSarm that keeps state, loops or recurses in a way that is easy to
get wrong, and proves what that part is for. Objects that change become classes with `modifies`
clauses, loops become methods with invariants against a specification function, pure recursion
becomes functions, and everything that runs concurrently becomes a state machine whose runs are all
interleavings of its steps. `dafny verify dfyconfig.toml` checks the whole project.

| module | what it models |
|---|---|
| `KeypairProtocol` | the JWT key pair: two files, `flock`, a memo in every process, a file watcher |
| `PoolScheduler` | the select loop of the concurrent query tool and its connection pool |
| `WpkArchive`, `WpkContainer` | the WPK package, from the packer's sources through the agent's C code to its disk |
| `RateLimit`, `LoginBlocking` | the API's request limiter and its blocking of hosts after failed logins |
| `Configuration` | normalising, merging and prefixing the API configuration in place |
| `ConfUpdate` | replacing the manager configuration, with a failure possible at any step |
| `DaemonStats` | chunked and paged retrieval of agent statistics |
| `RoleOrder` | linking roles to a user, and policies to a role, at a position |
| `EventFilter` | the nested-field filter of the AWS wodle |
| `ServiceRestart`, `StopHandler` | restarting the Windows service with a 32-bit tick counter, and its control handler |
| `Common` | `Option`, `Least`, and places in a list |

## Where the code does not do what it is meant to

The model follows the code. Each of these is a lemma with a concrete input or run, next to a lemma
that says exactly when the promise does hold.

- A call of `generate_keypair` on a thread of its own can leave its process a stale pair for good:
  `functools.cache` stores after the lock is gone, and the watcher may have handled the events of a
  rotation by then (`KeypairProtocol.StaleMemo`, `FreshUnlessLateStore`), or may store right after a
  rotation of its own process cleared the memo (`RotationSticksExactly`). The callers in this
  repository are on the watcher's event loop, where every memo stays fresh (`FreshOnOneLoop`).
- A minute of the rate limit admits one request more than the maximum unless it is the first
  (`RateLimit.MinuteKeepsLimit`), and sixty seconds can see 2 * max + 1 (`SpanBound`, `BoundReached`).
- A header that is one byte too long for the agent's line buffer is still unpacked correctly exactly
  when the content is nothing but newlines (`WpkArchive.RoundTrip`).
- The `finally` clause of the configuration update moves an old or half-made backup over the
  configuration (`ConfUpdate.OldBackupRestored`, `HalfCopyRestored`, `AllOrNothingExactly`).
- A key dropped from the API configuration file keeps its value, because the defaults are merged into
  in place (`Configuration.DroppedKeyStays`, `SecondFile`).
- With a position, an item that is linked already is counted as linked and can split the block of
  new ones (`RoleOrder.LinkAt`, `RelinkSplitsExactly`); without one, a gap in the levels puts a new
  item before or beside an old one (`LastExactly`). Policies whose position is too far off can land
  in the middle of the list or in another order than requested, where roles would come last
  (`PolicyExactly`, `PolicyLandsExactly`, `PolicyInTheMiddle`).
- The event filter drops the rest of its path at the first list (`EventFilter.ListDropsPath`,
  `ListHidesString`, `SafePaths`).
- The restart wait is meant to last until the service is stopped; it ends at the first answer other
  than running, be it that the stop is pending or that the query failed
  (`ServiceRestart.StartsStoppedExactly`, `StartsUnstopped`, `RestartBlind`).

## Model

| member | source | states |
|---|---|---|
| `KeypairProtocol.StepInv` | api/api/authentication.py:113-240 | every single step of any caller (lookup, unlocked check, lock, truncate, write, read, close, store, clear) and of any watcher keeps the invariant on locks, files, callers, generations and memos |
| `KeypairProtocol.RunInv` | api/api/authentication.py:113-240 | the invariant holds after every legal interleaving of any number of callers in any number of processes |
| `KeypairProtocol.CoherentResults` | api/api/authentication.py:146-203 | every pair returned in any run is one generation, made by exactly one write, although the first check is unlocked and converting the lock is not atomic |
| `KeypairProtocol.SingleCreation` | api/api/authentication.py:122-136 | if a file is missing at the start and nobody rotates, however many callers race, at most one makes a key and every one returns that key |
| `KeypairProtocol.OneKeyDiskStep` | api/api/authentication.py:122-136 | each step keeps the disk on its way to the one key |
| `KeypairProtocol.FreshStep` | api/api/signals.py:45-51 | with fresh memos a step leaves them fresh if and only if it is not a late store |
| `KeypairProtocol.FreshUnlessLateStore` | api/api/authentication.py:100-143 | over every run: processes with no unhandled event always have an empty memo or the pair on disk, if and only if no step stores a pair after a key file changed and the events were handled |
| `KeypairProtocol.FreshOnOneLoop` | api/api/signals.py:42-51 | over every run in which no watcher acts inside a call of its process that is about to store, as on one event loop, every memo is always fresh, whoever rotates the keys |
| `KeypairProtocol.AnnouncedStep` | api/api/authentication.py:100-143 | each step of such a run keeps: if a file has changed since a caller's pair was complete, its watcher has an event to handle, although unread events may be merged |
| `KeypairProtocol.StaleMemo` | api/api/authentication.py:100-111 | with a call off that loop, a run after which all calls have returned, all events are handled, and a process still holds a replaced pair |
| `KeypairProtocol.RotationSticks` | api/api/authentication.py:206-240 | in every run, once a process has rotated to a generation and no call of its was just about to store, its memo is never again older, and no call of generate_keypair in it that had not returned by then returns an older pair, whatever the watchers do |
| `KeypairProtocol.RotationSticksExactly` | api/api/authentication.py:231-233 | however the run goes on the memo stays at least that new if and only if no call of the process was about to store when the memo was cleared |
| `KeypairProtocol.RotationReturns` | api/api/authentication.py:206-240 | a rotation returns the key it made, which no other call made |
| `KeypairProtocol.CachedUntilCleared` | api/api/authentication.py:100-101 | until its memo is cleared by its watcher or its own rotation, every further call of a process returns in one step what an earlier one returned |
| `KeypairProtocol.KeysKept` | api/api/authentication.py:122-143 | if both files are there and nobody rotates, no run makes a key, changes a file or takes the exclusive lock, and every call returns the key that was there |
| `KeypairProtocol.CallsEnd` | api/api/authentication.py:113-240 | no call takes more than fifteen steps in any run |
| `KeypairProtocol.NoDeadlock` | api/api/authentication.py:113-168 | in every reachable state with an unfinished call some call can step |
| `PoolScheduler.Pool.constructor` | tools/debug/wdb-query.py:50-54 | all connections idle, all of them and standard input watched |
| `PoolScheduler.Pool.PollIdle` | tools/debug/wdb-query.py:63-67 | takes some idle connection out, None exactly when there is none |
| `PoolScheduler.Pool.Release` | tools/debug/wdb-query.py:58-61 | a connection becomes idle once its consumer is done with it, standard input never |
| `PoolScheduler.World.Select` | tools/debug/wdb-query.py:57 | some non-empty choice of ready watched descriptors, each once, and only if one can be ready |
| `PoolScheduler.SendKeeps` | tools/debug/wdb-query.py:107-110 | sending the next line on an idle connection keeps: one query at most per connection, every line read printed or owed exactly once |
| `PoolScheduler.ReceiveKeeps` | tools/debug/wdb-query.py:115-117 | printing a reply and releasing its connection keeps the same |
| `PoolScheduler.ServeInput` | tools/debug/wdb-query.py:106-113 | an idle connection is found for every line; at the end of the input standard input is locked |
| `PoolScheduler.ServeReply` | tools/debug/wdb-query.py:114-117 | the connection was busy and is idle after |
| `PoolScheduler.Batch` | tools/debug/wdb-query.py:105-117 | the whole batch keeps the balance, and each descriptor in it is one unit of work done |
| `PoolScheduler.SomethingReady` | tools/debug/wdb-query.py:102-105 | select is never called when nothing watched can become ready |
| `PoolScheduler.Turn` | tools/debug/wdb-query.py:99-120 | one turn keeps the loop-head facts and always makes progress; it watches all connections, and standard input if and only if that has not ended and some connection is idle |
| `PoolScheduler.RunQueries` | tools/debug/wdb-query.py:94-120 | with at least one worker the loop ends and every input line has exactly one printed reply |
| `WpkArchive.MergedFile.constructor` | packages/wpk/wpkpack.py:26-29 | the file starts with the tag line, empty without a tag |
| `WpkArchive.MergedFile.AppendNode` | packages/wpk/wpkpack.py:37-49 | appends the encoding of exactly the files found below a path, up to the first entry that is neither file nor directory |
| `WpkArchive.MergedFile.Append` | packages/wpk/wpkpack.py:32-35 | the same for the list of sources, stopping where a source raises |
| `WpkArchive.WalkFinds` | packages/wpk/wpkpack.py:37-49 | a walk finds exactly the files below a source, each once, in the order of the listings, with its content and the path that joins source and names by "/", up to the first entry that is neither file nor directory; it completes if and only if there is none |
| `WpkArchive.SourcesFind` | packages/wpk/wpkpack.py:32-35 | the same for the list of sources |
| `WpkArchive.EncodeConcat` | packages/wpk/wpkpack.py:32-49 | appending archives is appending their records |
| `WpkArchive.EncodeLength` | packages/wpk/wpkpack.py:37-44 | the length is the sum of headers and sizes |
| `WpkArchive.AtolOfDecimal` | src/shared/src/file_op.c:769-770 | the size field comes back through `atol`, saturated at the largest long, for a long of 32 or of 64 bits |
| `WpkArchive.AtolOf` | src/shared/src/file_op.c:769-770 | white space is skipped, a sign is taken, and values out of range saturate |
| `WpkArchive.HeaderRead` | src/shared/src/file_op.c:758-783 | what `fgets`, `atol` and `strchr` read off any header, also one cut by the buffer or with a newline in its path |
| `WpkArchive.HeadRestored` | src/shared/src/file_op.c:758-868 | a restorable record comes back, and the rest is read as if it came first |
| `WpkArchive.HeadNeeds` | src/shared/src/file_op.c:758-868 | only a restorable record comes back |
| `WpkArchive.RoundTrip` | packages/wpk/wpkpack.py:26-49 | unpacking gives back every path and content in order without an error if and only if every record is restorable |
| `WpkArchive.TagIgnoredExactly` | packages/wpk/wpkpack.py:26-29 | the tag line changes nothing, whatever follows, if and only if no piece in which `fgets` takes it starts with "!" |
| `WpkArchive.ShortTagHarmless` | packages/wpk/wpkpack.py:26-29 | a newline-free tag that fits the line buffer is such a one |
| `WpkArchive.EncodeInjective` | packages/wpk/wpkpack.py:32-49 | different archives with newline-free paths have different encodings, whatever their paths, sizes and contents |
| `WpkArchive.FindSlashDots` | src/shared/src/file_op.c:2257 | the first "/.." from an index on |
| `WpkArchive.RefParentFolder` | src/shared/src/file_op.c:2226-2265 | the test of the start and the search that jumps three bytes after each find answer true exactly when some component of the path is "..": none is skipped |
| `WpkArchive.ParentIsComponent` | src/shared/src/file_op.c:2226-2265 | that is, when ".." is among the parts between the slashes |
| `WpkArchive.ReadContent` | src/shared/src/file_op.c:831-857 | the chunked loop takes exactly the stated number of bytes, or what is left |
| `WpkArchive.UnmergeRound` | src/shared/src/file_op.c:758-868 | one round of the loop is one step of the specification |
| `WpkArchive.UnmergeFiles` | src/shared/src/file_op.c:727-897 | the loop computes the specified files and return value for every stream |
| `WpkArchive.UnmergeConfined` | src/shared/src/file_op.c:785-793 | whatever the stream, every file is written to a path below the directory, cut at 2047 bytes, and none with ".." on its way gets any content or goes unreported |
| `WpkArchive.NamelessFails` | src/shared/src/file_op.c:777-781 | a "!" line without a name is an error that does not stop the loop |
| `WpkContainer.Sign` | packages/wpk/wpkpack.py:58-82 | the read loop hashes exactly the file's bytes in order, and the output is magic, certificate, NUL, signature, payload |
| `WpkContainer.ContainerRoundTrip` | packages/wpk/wpkpack.py:74-82 | the agent recovers the four parts if and only if the certificate has no NUL and the signature has 256 bytes |
| `WpkContainer.TakenIsContainer` | src/shared/os_crypto/signature/signature.c:42-77 | any file the agent takes apart is the container of the parts, magic number included, and any other is refused |
| `WpkContainer.ReadCertificate` | src/shared/os_crypto/signature/signature.c:198-231 | the bytes up to the first NUL, an error when there is none, never past the buffer |
| `WpkContainer.Unsign` | src/shared/os_crypto/signature/signature.c:21-194 | the payload, exactly when the layout holds and the signature is that of the payload |
| `WpkContainer.UpgradeOnlyVerified` | src/guardsarm_modules/src/agent_upgrade/agent/wm_agent_upgrade_com.c:322-357 | files are written if and only if the package is a container whose signature verifies for the payload and unpacks, and then they stay below the directory |
| `WpkContainer.PackageRoundTrip` | src/guardsarm_modules/src/agent_upgrade/agent/wm_agent_upgrade_com.c:322-357 | from sources to agent disk, for every harmless tag: merge, compress, sign, then unsign, uncompress, unmerge restores every file of the sources, as `SourcesFind` tells them, if and only if every record is restorable |
| `RateLimit.Limiter.CheckRateLimit` | api/api/middlewares.py:155-195 | the globals and the code after a check, with the three clock readings apart |
| `RateLimit.StartOk` | api/api/middlewares.py:183-190 | the start of the minute is the last clock reading of the request that opened it |
| `RateLimit.OpensExactly` | api/api/middlewares.py:183-190 | a request opens a new minute if and only if it comes more than sixty seconds after the last reading of the opener before, or the first reading of all |
| `RateLimit.ZeroAdmitsAll` | api/api/middlewares.py:180-181 | with a maximum of zero every request of every run is admitted |
| `RateLimit.OpenersApart` | api/api/middlewares.py:186-190 | in every run two requests that open a minute are more than sixty seconds apart |
| `RateLimit.MinuteAdmits` | api/api/middlewares.py:186-195 | in every run the first minute admits min(n, max) of its n requests, each later one min(n, max + 1) |
| `RateLimit.MinuteKeepsLimit` | api/api/middlewares.py:161-162 | a minute keeps to the maximum if and only if it is the first or has at most max requests |
| `RateLimit.SpanBound` | api/api/middlewares.py:155-195 | no sixty seconds of any run admit more than 2 * max + 1 |
| `RateLimit.BoundReached` | api/api/middlewares.py:155-195 | for every max some run reaches that bound |
| `LoginBlocking.LoginGuard.CheckBlockedIp` | api/api/middlewares.py:122-152 | the state after the check and whether it refuses |
| `LoginBlocking.LoginGuard.PreventBruteforce` | api/api/error_handler.py:27-40 | the state after a failed login |
| `LoginBlocking.StateIsWindows` | api/api/middlewares.py:138-152 | after any run the entry of a host is the number and first time of the failures in its window, and the block list is the hosts that reached the limit |
| `LoginBlocking.WindowExactly` | api/api/middlewares.py:138-144 | a window is all the failures since the last check that came a block time or more after the first of those before it, and no check since did |
| `LoginBlocking.RefusedExactly` | api/api/middlewares.py:139-147 | a check is refused if and only if the limit is reached and the block time since the first failure of the window has not passed |
| `LoginBlocking.StaysRefused` | api/api/middlewares.py:138-152 | a blocked host stays refused until then whatever happens in between |
| `LoginBlocking.AttemptsBound` | api/api/error_handler.py:31-40 | with at most k logins of a host in flight no more than limit - 1 + k failures are ever recorded |
| `LoginBlocking.AttemptsReached` | api/api/error_handler.py:31-40 | for every limit and k some run records that many |
| `Configuration.UpdateDefaultConfig` | api/api/configuration.py:141-168 | the loop yields the merge, and raises exactly when the user has a non-empty dictionary over a default that is not one; then each key is as it was, merged, or half merged below |
| `Configuration.MergeNode` | api/api/configuration.py:141-168 | at every path: the user's leaf if set there or above, else the default, else what the user's dictionaries add |
| `Configuration.MergeableExactly` | api/api/configuration.py:156-162 | merging raises if and only if the user has something below a leaf of the defaults |
| `Configuration.DictToLowercase` | api/api/configuration.py:81-102 | the loop computes the recursive specification |
| `Configuration.LowercasedNode` | api/api/configuration.py:81-102 | at every path: lower case exactly for string leaves whose dotted path is not skipped, nothing else changed |
| `Configuration.LowercasedTwice` | api/api/configuration.py:81-102 | lowering twice is lowering once |
| `Configuration.BooleansNode` | api/api/configuration.py:265-281 | at every path: true and false exactly for string leaves that read yes and no in any case, nothing else changed |
| `Configuration.ReplaceBools` | api/api/configuration.py:265-281 | the loop computes the recursive specification |
| `Configuration.NormaliseCommutes` | api/api/configuration.py:291-301 | replacing yes and no and lowering the case commute on every tree |
| `Configuration.AppendPrefixes` | api/api/configuration.py:105-121 | the loop prefixes each field, and raises exactly when a section is not a dictionary or a field not a string; then the fields before the first such one are done |
| `Configuration.PrefixAllNode` | api/api/configuration.py:105-121 | at every path: the leaf joined to the prefix exactly for the listed fields |
| `Configuration.JoinedPath` | api/api/configuration.py:119 | an absolute path stays, any other follows the prefix after exactly one slash |
| `Configuration.Reader.ReadYamlConfig` | api/api/configuration.py:286-309 | without a file the defaults stay; with a valid one they become the merged and prefixed configuration, which holds at every path what `ReadFile` says; an invalid one changes nothing; one that raises leaves them half merged or half prefixed |
| `Configuration.ReadFile` | api/api/configuration.py:265-309 | told from the raw file, path by path: what it sets, with yes and no as booleans, other strings in lower case but for the three path fields, and those seen from the prefix; else the default |
| `Configuration.ReadsAccumulate` | api/api/configuration.py:297-309 | after n reads the shared defaults hold at every path the last word on it, path fields prefixed once |
| `Configuration.RereadSame` | api/api/configuration.py:297-309 | reading the same file again is possible and gives the same configuration |
| `Configuration.SecondFile` | api/api/configuration.py:297-309 | a second file gives what it would on its own if and only if, wherever it sets nothing, the first left the defaults |
| `Configuration.DroppedKeyStays` | api/api/configuration.py:304 | a file without a key that an earlier one set does not bring the default back |
| `ConfUpdate.Disk.TryUpdate` | framework/guardsarm/manager.py:379-402 | files and result of the try and except clauses for every combination of failing steps |
| `ConfUpdate.Disk.UpdateOssecConf` | framework/guardsarm/manager.py:378-407 | the same with the finally clause |
| `ConfUpdate.AllOrNothingExactly` | framework/guardsarm/manager.py:378-407 | the call is all or nothing and leaves no backup if and only if what the finally clause finds is harmless; it reports the node exactly when every step succeeded |
| `ConfUpdate.ResultExactly` | framework/guardsarm/manager.py:379-404 | the result is that of the first step that goes wrong, 1125, 1019, 1126, the step's own code or an exception let through, unless a backup is left that cannot be moved back |
| `ConfUpdate.OldTextKept` | framework/guardsarm/manager.py:387-404 | once the backup is made the old text is in place again or still in the backup file unless the new one is accepted |
| `ConfUpdate.OldBackupRestored` | framework/guardsarm/manager.py:381-404 | an empty request puts an old backup file in place of the configuration |
| `ConfUpdate.HalfCopyRestored` | framework/guardsarm/manager.py:388-404 | a copy that stops half way ends up as the configuration |
| `ConfUpdate.RefinesRegister` | framework/guardsarm/manager.py:378-407 | for every sequence of calls, with atomic copies and working moves and no backup at first, the file is the last accepted text and no backup remains |
| `DaemonStats.Chunks` | framework/guardsarm/stats.py:71-72 | the chunks concatenate to the list, each has 1 to 74 agents, and all but the last have 74 |
| `DaemonStats.Absorb` | framework/guardsarm/stats.py:78-86 | the search-or-append loop adds one reply to the merged entries |
| `DaemonStats.AskInChunks` | framework/guardsarm/stats.py:74-89 | the entries of a daemon are those of its answered chunks, and each failed chunk is reported once |
| `DaemonStats.NoAgentLost` | framework/guardsarm/stats.py:78-86 | whatever names the replies carry, every agent of every reply is in some entry, in order |
| `DaemonStats.OneEntry` | framework/guardsarm/stats.py:78-86 | one entry if and only if there is one reply or the first carries the daemon's name |
| `DaemonStats.SortedKeeps` | framework/guardsarm/stats.py:92-93 | sorting by id keeps the agents of each id in their order, so it is a stable permutation |
| `DaemonStats.StatsOfListed` | framework/guardsarm/stats.py:71-93 | all daemons in turn, each asked for all chunks, then every entry sorted |
| `DaemonStats.ChunkedIsOneQuestion` | framework/guardsarm/stats.py:71-89 | with an honest socket a daemon's one entry holds the agents of the answered chunks, and is the answer to a single question when none failed |
| `DaemonStats.AnsweredExactly` | framework/guardsarm/stats.py:76-89 | an agent is in the entry if and only if it is of a chunk that was answered |
| `DaemonStats.ErrorsExactly` | framework/guardsarm/stats.py:87-88 | one error with its code for each chunk that failed, in order |
| `DaemonStats.RequestExactly` | framework/guardsarm/stats.py:74-93 | the whole request whatever fails: one entry, in order, for each daemon that answered anything, with the agents of the chunks it answered by id, and one error for each question that failed |
| `DaemonStats.RequestIsOneQuestionEach` | framework/guardsarm/stats.py:71-93 | the whole request, with honest sockets and no failure: one entry for each daemon in order, with the statistics of all the agents sorted by id |
| `DaemonStats.AskInPages` | framework/guardsarm/stats.py:96-117 | if no page fails the entry holds every agent once in id order; if one fails the entry holds those of the pages before it, the failed page is the one after the last of them, and there is no entry if and only if it was the first |
| `DaemonStats.EndsExactly` | framework/guardsarm/stats.py:100-113 | for pages that ascend, paging ends if and only if no page is due and empty, after at most as many requests as the greatest id plus one |
| `RoleOrder.SomeOrder` | framework/guardsarm/rbac/orm.py:1618-1620 | whatever the levels, shared or with gaps, there is an order in which the database can return them |
| `RoleOrder.Links.MakeRoom` | framework/guardsarm/rbac/orm.py:1618-1624 | the links from the position on get the next levels in the order returned, the others keep theirs |
| `RoleOrder.Links.BringIn` | framework/guardsarm/rbac/orm.py:1629-1639 | the level of the new link: the position, or if that is too far off one above the greatest level for a role and the number of links for a policy |
| `RoleOrder.Links.AddAt` | framework/guardsarm/rbac/orm.py:1610-1640 | the new levels for every list: in some order the database may return, room is made on the position if it is taken, and the item gets the level it lands on |
| `RoleOrder.Links.AddItemAt` | framework/guardsarm/rbac/orm.py:1601-1649 | the answer for each case; an item that is linked already changes nothing and is INVALID |
| `RoleOrder.Links.AddItemLast` | framework/guardsarm/rbac/orm.py:1601-1646 | the answer for each case; the level is the number of links before |
| `RoleOrder.AddedGives` | framework/guardsarm/rbac/orm.py:1610-1640 | whatever order was returned: the links below the position stay, those on it and behind get behind the new one, and what was strictly before another link still is |
| `RoleOrder.RoomGapless` | framework/guardsarm/rbac/orm.py:1618-1624 | after room was made no two links from the position on share a level, and they take as many levels as they are |
| `RoleOrder.RankedExactly` | framework/guardsarm/security.py:876-893 | where the loop stands after any number of rounds decides it: the new links are one block in every order if and only if no old link was on a level from the first new link's position up to that of the last one that followed a relink |
| `RoleOrder.PositionsExactly` | framework/guardsarm/security.py:889-893 | told from the ids, the existing items and the old links: which places make links, and that the positions of the first, the last and the last after a relink are the request's moved on by one for each existing item asked for before |
| `RoleOrder.RunRanked` | framework/guardsarm/security.py:876-893 | every run of the loop, for roles always and for policies without a relink from a position in reach, keeps the new links in request order behind the earlier links, and before the later ones unless an old link got in between |
| `RoleOrder.RelinkSplitsExactly` | framework/guardsarm/security.py:889-893 | for every request for roles and every list: the new links are one block, in request order, in every order the database may return, if and only if no old link was on a level from the first one's position up to that of the last one that followed a relink |
| `RoleOrder.NoRelinkTogether` | framework/guardsarm/security.py:889-893 | so if no requested role was linked already they are one block at the position |
| `RoleOrder.PolicyExactly` | framework/guardsarm/rbac/orm.py:1763-1805 | for every request for policies of which none was linked, with m new ones: they are one block at the position, in request order, in every order the database may return, if and only if m is 0, or the position is at most one above the greatest level, or every level is below the number of links and m is 1 or the position is not below that number |
| `RoleOrder.PolicyLandsExactly` | framework/guardsarm/rbac/orm.py:1763-1805 | one policy is at the index of its position in every order the database may return if and only if the position is at most one above the greatest level or the greatest level is below the number of links |
| `RoleOrder.PolicyInTheMiddle` | framework/guardsarm/rbac/orm.py:1793-1794 | levels 0 and 5 and position 9: the policy comes between the two; with 0 and 2 it comes beside the second, on either side |
| `RoleOrder.CompactRun` | framework/guardsarm/security.py:876-893 | with levels 0, 1, 2, ... and any requests, relinks or not, roles or policies: no gap arises, and each new link is at the position reached or at the end |
| `RoleOrder.RelinkSplitsBlock` | framework/guardsarm/security.py:889-893 | in a list without gaps any linked item between two new ones is counted and pulls them apart |
| `RoleOrder.NewLinksExactly` | framework/guardsarm/rbac/orm.py:1607-1612 | exactly the requested items that exist and were not linked are linked, each at the first place that asks for it |
| `RoleOrder.FailuresExactly` | framework/guardsarm/security.py:880-883 | one error, in order, for each place that asks for an item that does not exist (4002 or 4007), and without a position for each that asks for one linked by then (4017 or 4011); no other |
| `RoleOrder.ReportedMembers` | framework/guardsarm/security.py:880-883 | so an error is reported if and only if some place gives cause for it |
| `RoleOrder.AllAccounted` | framework/guardsarm/security.py:876-893 | every requested item is linked, counted as linked, or reported |
| `RoleOrder.LinkNext` | framework/guardsarm/security.py:876-893 | one round of the loop: the levels, the result with the error code of an unknown item, and which items are linked |
| `RoleOrder.LinkAt` | framework/guardsarm/security.py:876-893 | for every request with a position, roles or policies, and every list: count and failures add up to the request, with the failures of `FailuresExactly`; the count is that of the links made if and only if no requested item was linked; old links keep their order; and the exact conditions of `RelinkSplitsExactly` and `PolicyExactly` and the list of `CompactRun` for the levels left |
| `RoleOrder.LinkLast` | framework/guardsarm/security.py:876-893 | without a position the new links get the next levels, linked and unknown items are reported as `FailuresExactly` says, and count and failures add up to the request |
| `RoleOrder.LastExactly` | framework/guardsarm/rbac/orm.py:1629-1631 | the links made without a position come last in request order in every order the database may return if and only if the greatest level was below the number of links |
| `RoleOrder.Refuse` | framework/guardsarm/security.py:884-888 | a reserved holder is refused once for each item, a missing role too, a missing user once |
| `RoleOrder.RefusalsExactly` | framework/guardsarm/security.py:884-888 | the same error, 4008, 4002 or 5001, as often as that, on the holder |
| `RoleOrder.SetLinks` | framework/guardsarm/security.py:869-893 | the whole request of either kind, with its count, its exact errors and codes, the negative position and holders that cannot be changed |
| `EventFilter.FilterMeaning` | wodles/aws/guardsarm_integration.py:268-290 | on every event and path the filter is true if and only if some string matches that the path leads to, the path being cut at the first segment looked up in a list |
| `EventFilter.SkippedMeaning` | wodles/aws/guardsarm_integration.py:289-290 | the same for the whole decision, off when the field or expression is empty |
| `EventFilter.RegexMeaning` | wodles/aws/guardsarm_integration.py:280-286 | the inner check looks through nested lists for a matching string |
| `EventFilter.CutExactly` | wodles/aws/guardsarm_integration.py:271-276 | nothing is cut if and only if no list is met before the last segment |
| `EventFilter.CutAtFirstList` | wodles/aws/guardsarm_integration.py:271-276 | otherwise the path is cut right after the segment that is looked up in the first list |
| `EventFilter.SegmentsExactly` | wodles/aws/guardsarm_integration.py:270 | the segments put together with dots are the path, and none has a dot |
| `EventFilter.WholePath` | wodles/aws/guardsarm_integration.py:268-290 | on such events the filter is true if and only if the whole path leads to a matching string |
| `EventFilter.ListDropsPath` | wodles/aws/guardsarm_integration.py:273-275 | for every path of three or more segments an event is discarded for a string its path does not lead to |
| `EventFilter.ListHidesString` | wodles/aws/guardsarm_integration.py:273-275 | and an event is kept although its path leads to a matching string |
| `EventFilter.SafePaths` | wodles/aws/guardsarm_integration.py:268-290 | the filter means the whole path on every object if and only if the path has at most two segments |
| `ServiceRestart.WrappedElapsed` | src/win32/win_agent.c:104 | the unsigned 32-bit difference is never more than the real time, and equal below one turn of the counter |
| `ServiceRestart.Wait` | src/win32/win_agent.c:102-109 | the loop ends at the first check that finds the service not running or the real time up, after at most 62 checks |
| `ServiceRestart.Restart` | src/win32/win_agent.c:89-114 | the exact calls and outcome; the wait starts if and only if the stop was taken or the service is stopped or stopping already; a start is attempted only after a check that did not report running, and succeeds if taken or running already; a time-out only after more than 30000 ms |
| `ServiceRestart.NeverTimesOut` | src/win32/win_agent.c:104 | with rounds of one whole turn of the counter the loop goes on at every check although the real time is long up |
| `ServiceRestart.StartsStoppedExactly` | src/win32/win_agent.c:101-110 | the start is attempted on a service reported stopped if and only if some check reports that and all before it report running, in time |
| `ServiceRestart.StartsUnstopped` | src/win32/win_service.c:110-136 | if the first answer other than running is another state or a failed query, the start is attempted on that |
| `ServiceRestart.RestartBlind` | src/win32/win_service.c:110-136 | a run that restarts the service on one failed query |
| `StopHandler.OneWinnerStep` | src/win32/win_service.c:265-272 | in every interleaving at most one call gets past the flag, and none before the handler is registered |
| `StopHandler.StepInv` | src/win32/win_service.c:260-349 | every step of the starting thread and of any call keeps the invariant |
| `StopHandler.TearsDownOnce` | src/win32/win_service.c:267-298 | in every run the teardown happens at most once, in order, strictly between the handler's two reports, and wholly once the call that does it is through |
| `StopHandler.CallEnds` | src/win32/win_service.c:260-305 | whatever else goes on, a call is through after ten steps of its own |
| `StopHandler.StopNotLost` | src/win32/win_service.c:260-305 | if every call is made after the handler was registered, a call that has had ten steps has torn the service down completely, or another call has taken the stop |
| `StopHandler.UnregisteredSilent` | src/win32/win_service.c:333-340 | if the handler cannot be registered, nothing is ever reported and no call does anything |
| `StopHandler.OrderlyCourse` | src/win32/win_service.c:260-349 | unless the stop was too early, all that is seen is a prefix of: running, stop pending, the teardown, stopped |
| `StopHandler.LateCallsOnly` | src/win32/win_service.c:323-349 | if every call is made after running was announced, no stop is too early |
| `StopHandler.RightStatusesExactly` | src/win32/win_service.c:260-349 | of every run in which both threads are through, the statuses are running, stop pending, stopped if and only if the pending status was written after running was announced |
| `StopHandler.RunningAfterStopped` | src/win32/win_service.c:333-349 | why that hypothesis is needed: a call before the announcement could make the last status running |

## Left out

- JWT encoding, key generation, file modes and owners: key material is a generation number.
- KeypairProtocol: `flock` always succeeds and no process dies in the middle of a write; the events of both files are one queue per process, in which any two unread ones may become one.
- PoolScheduler.RunQueries: with no worker at all the tool waits on an empty select for ever.
- PoolScheduler.World.Select: messages arrive whole, and each query has one reply. Standard input is ready while it has lines or is at its end, as a file or a closed pipe is; lines that `readline` has already buffered from an open pipe, which `select` does not report, are not modelled.
- WpkArchive.UnmergeFiles: directories, temporary files and renames succeed, a refused path still leaves the empty temporary file under its name as the code does, and the list of unmerged names is not modelled; backslash separators of the Windows build are not either.
- WpkContainer.Unsign: parsing and verifying the certificate, hashing and the RSA check are one parameter; compression is a pair of functions.
- RateLimit.Limiter.CheckRateLimit: the two pairs of globals it is used with are two objects; concurrency inside one check is not modelled, the function has no await.
- LoginBlocking.LoginGuard.PreventBruteforce: only the login endpoints reach it; the check on path and method is not modelled.
- Configuration.UpdateDefaultConfig: nested dictionaries are values, so an alias to an inner dictionary is not captured.
- Configuration.Reader.ReadYamlConfig: the file is a dictionary with string keys, and the JSON schema is a parameter.
- Configuration.LowercasedTwice: lower case is any function that changes nothing the second time.
- ConfUpdate.Disk.TryUpdate: XML validation, copying, writing and validating are steps that succeed or raise.
- DaemonStats.StatsOfListed: the sets of missing and inactive agents and their errors; eligible agents are a list in any order.
- DaemonStats.AskInPages: the daemon's agents do not change during the request, and its pages are those of a daemon that has them in id order; the outer loop over daemons is that of the other branch.
- RoleOrder.SetLinks: error entries are listed in order rather than grouped by error; the affected record and the invalidation of tokens are not modelled. For policies a negative position is refused by the API (api/api/spec/spec.yaml:3532-3539).
- RoleOrder.LinkAt: of a request for policies some of which are linked already, in a list with gaps or shared levels, the result, the links and the order of the old ones are stated, not when the new ones are a block.
- EventFilter.FilterMeaning: the regular expression is a predicate on strings; an invalid one raises.
- ServiceRestart.Restart: the service manager's answers are parameters.
- StopHandler: the build without OSSECHIDS, and failures of SetServiceStatus within the handler, which ignores them. That the service manager refuses a stop while the service is start pending is not part of the model; LateCallsOnly takes it as a hypothesis.
- API controllers and models, RBAC preprocessing, cluster, the other wodles, installers and database scripts: they forward to code modelled here or to libraries, or only do I/O.
