/**
  Statistics of agents, asked for daemon by daemon: in chunks when the agents are listed, page by
  page when all of them are wanted.
*/
module DaemonStats {
  import opened Common

  type Daemon = string
  type AgentId = int

  datatype Agent = Agent(id: AgentId, data: int)
  datatype Entry = Entry(name: Daemon, agents: seq<Agent>)
  datatype Answer = Reply(entry: Entry) | Failed(code: int)

  function Joined<T>(parts: seq<seq<T>>): seq<T> {
    if parts == [] then [] else parts[0] + Joined(parts[1..])
  }

  lemma {:induction false} JoinedAppend<T>(parts: seq<seq<T>>, last: seq<T>)
    ensures Joined(parts + [last]) == Joined(parts) + last
  {
    if parts == [] {
      assert [last][1..] == [];
    } else {
      JoinedAppend(parts[1..], last);
      assert (parts + [last])[1..] == parts[1..] + [last];
    }
  }

  // ---------------------------------------------------------------- chunks

  const CHUNK := 74

  /** Cuts the list into chunks: none empty, all full but perhaps the last, nothing lost. */
  method Chunks(ids: seq<AgentId>) returns (chunks: seq<seq<AgentId>>)
    ensures Joined(chunks) == ids
    ensures forall i | 0 <= i < |chunks| :: 1 <= |chunks[i]| <= 74
    ensures forall i | 0 <= i < |chunks| - 1 :: |chunks[i]| == 74
  {
    chunks := [];
    var x := 0;
    while x < |ids|
      invariant Joined(chunks) == ids[..if x < |ids| then x else |ids|]
      invariant forall i | 0 <= i < |chunks| :: 1 <= |chunks[i]| <= CHUNK
      invariant forall i | 0 <= i < |chunks| && (i < |chunks| - 1 || x < |ids|) :: |chunks[i]| == CHUNK
    {
      var end := if x + CHUNK < |ids| then x + CHUNK else |ids|;
      JoinedAppend(chunks, ids[x..end]);
      assert ids[..end] == ids[..x] + ids[x..end];
      chunks := chunks + [ids[x..end]];
      x := x + CHUNK;
    }
    assert ids[..|ids|] == ids;
  }

  // ---------------------------------------------------------------- one entry per daemon

  function AgentsOf(replies: seq<Entry>): (r: seq<seq<Agent>>)
    ensures |r| == |replies|
  {
    if replies == [] then [] else [replies[0].agents] + AgentsOf(replies[1..])
  }

  lemma {:induction false} AgentsOfAppend(replies: seq<Entry>, reply: Entry)
    ensures AgentsOf(replies + [reply]) == AgentsOf(replies) + [reply.agents]
  {
    if replies != [] {
      AgentsOfAppend(replies[1..], reply);
      assert (replies + [reply])[1..] == replies[1..] + [reply];
    }
  }

  /** What becomes of the replies: those before the first that carries the daemon's name stay
      entries of their own, and the first that does collects the agents of all that follow. */
  function Merged(daemon: Daemon, replies: seq<Entry>): seq<Entry> {
    if replies == [] then []
    else if replies[0].name == daemon then [Entry(daemon, Joined(AgentsOf(replies)))]
    else [replies[0]] + Merged(daemon, replies[1..])
  }

  /** Whatever names the replies carry, every agent of every reply is in some entry, in order. */
  lemma {:induction false} NoAgentLost(daemon: Daemon, replies: seq<Entry>)
    ensures Joined(AgentsOf(Merged(daemon, replies))) == Joined(AgentsOf(replies))
  {
    if replies != [] && replies[0].name != daemon {
      NoAgentLost(daemon, replies[1..]);
      assert ([replies[0]] + Merged(daemon, replies[1..]))[1..] == Merged(daemon, replies[1..]);
    } else if replies != [] {
      var entry := Entry(daemon, Joined(AgentsOf(replies)));
      assert [entry][1..] == [];
      assert AgentsOf([entry]) == [entry.agents] && [entry.agents][1..] == [];
    }
  }

  /** There is one entry for the daemon exactly when there is one reply, or the first of them carries
      the daemon's name. */
  lemma OneEntry(daemon: Daemon, replies: seq<Entry>)
    ensures |Merged(daemon, replies)| == 1 <==> |replies| == 1 || (replies != [] && replies[0].name == daemon)
  {
    if replies != [] && replies[0].name != daemon {
      assert replies[1..] != [] ==> |Merged(daemon, replies[1..])| >= 1;
    }
  }

  /** Looks for the daemon's entry and extends it, or appends the reply as an entry of its own. */
  method Absorb(daemon: Daemon, entries: seq<Entry>, reply: Entry, ghost replies: seq<Entry>) returns (r: seq<Entry>)
    requires entries == Merged(daemon, replies)
    ensures r == Merged(daemon, replies + [reply])
  {
    var i := 0;
    while i < |entries| && entries[i].name != daemon
      invariant i <= |entries| && forall j | 0 <= j < i :: entries[j].name != daemon
    {
      i := i + 1;
    }
    if i < |entries| {
      r := entries[i := entries[i].(agents := entries[i].agents + reply.agents)];
    } else {
      r := entries + [reply];
    }
    MergedAppend(daemon, replies, reply, i);
  }

  lemma {:induction false} MergedAppend(daemon: Daemon, replies: seq<Entry>, reply: Entry, i: nat)
    requires var entries := Merged(daemon, replies);
             && i <= |entries| && (i < |entries| ==> entries[i].name == daemon)
             && forall j | 0 <= j < i :: entries[j].name != daemon
    ensures var entries := Merged(daemon, replies);
            Merged(daemon, replies + [reply])
            == if i < |entries| then entries[i := entries[i].(agents := entries[i].agents + reply.agents)]
               else entries + [reply]
  {
    var entries := Merged(daemon, replies);
    if replies == [] {
      assert replies + [reply] == [reply] && [reply][1..] == [];
      assert AgentsOf([reply]) == [reply.agents] && [reply.agents][1..] == [];
      assert Joined([reply.agents]) == reply.agents;
    } else if replies[0].name == daemon {
      assert entries[0].name == daemon;
      AgentsOfAppend(replies, reply);
      JoinedAppend(AgentsOf(replies), reply.agents);
    } else {
      assert entries[0] == replies[0] && entries[1..] == Merged(daemon, replies[1..]);
      assert i > 0;
      MergedAppend(daemon, replies[1..], reply, i - 1);
      assert (replies + [reply])[1..] == replies[1..] + [reply];
    }
  }

  // ---------------------------------------------------------------- asking chunk by chunk

  function Replies(answers: seq<Answer>): seq<Entry> {
    if answers == [] then []
    else
      var before, a := Replies(answers[..|answers| - 1]), answers[|answers| - 1];
      if a.Reply? then before + [a.entry] else before
  }

  function Errors(daemon: Daemon, answers: seq<Answer>): seq<(Daemon, int)> {
    if answers == [] then []
    else
      var before, a := Errors(daemon, answers[..|answers| - 1]), answers[|answers| - 1];
      if a.Failed? then before + [(daemon, a.code)] else before
  }

  /** What the socket answers to a question about these agents. */
  type Socket = (Daemon, seq<AgentId>) -> Answer

  function Answers(ask: Socket, daemon: Daemon, chunks: seq<seq<AgentId>>): (r: seq<Answer>)
    ensures |r| == |chunks|
  {
    seq(|chunks|, i requires 0 <= i < |chunks| => ask(daemon, chunks[i]))
  }

  /** One daemon: a chunk that fails is reported and the others are collected. */
  method AskInChunks(ask: Socket, daemon: Daemon, chunks: seq<seq<AgentId>>)
    returns (entries: seq<Entry>, failed: seq<(Daemon, int)>)
    ensures entries == Merged(daemon, Replies(Answers(ask, daemon, chunks)))
    ensures failed == Errors(daemon, Answers(ask, daemon, chunks))
  {
    entries, failed := [], [];
    ghost var answers := Answers(ask, daemon, chunks);
    for k := 0 to |chunks|
      invariant entries == Merged(daemon, Replies(answers[..k]))
      invariant failed == Errors(daemon, answers[..k])
    {
      assert answers[..k + 1][..k] == answers[..k] && answers[..k + 1][k] == answers[k];
      var answer := ask(daemon, chunks[k]);
      match answer
      case Reply(entry) => entries := Absorb(daemon, entries, entry, Replies(answers[..k]));
      case Failed(code) => failed := failed + [(daemon, code)];
    }
    assert answers[..|answers|] == answers;
  }

  // ---------------------------------------------------------------- sorting

  ghost predicate SortedById(s: seq<Agent>) {
    forall i, j | 0 <= i < j < |s| :: s[i].id <= s[j].id
  }

  /** The agents with one id, in order. */
  function WithId(s: seq<Agent>, id: AgentId): seq<Agent> {
    if s == [] then [] else (if s[0].id == id then [s[0]] else []) + WithId(s[1..], id)
  }

  /** Puts an agent before the first with an id not less. */
  function Inserted(a: Agent, s: seq<Agent>): (r: seq<Agent>)
    requires SortedById(s)
    ensures SortedById(r) && |r| == |s| + 1
    ensures r[0] == a || (s != [] && r[0] == s[0])
  {
    if s == [] || a.id <= s[0].id then [a] + s
    else
      var rest := Inserted(a, s[1..]);
      assert forall i | 0 <= i < |rest| :: rest[0].id <= rest[i].id;
      [s[0]] + rest
  }

  /** What the list's own sort yields: ascending ids, ties in their first order. */
  function Sorted(s: seq<Agent>): (r: seq<Agent>)
    ensures SortedById(r) && |r| == |s|
  {
    if s == [] then [] else Inserted(s[0], Sorted(s[1..]))
  }

  lemma WithIdFirst(a: Agent, s: seq<Agent>, id: AgentId)
    ensures WithId([a] + s, id) == (if a.id == id then [a] else []) + WithId(s, id)
  {
    assert ([a] + s)[1..] == s;
  }

  lemma {:induction false} InsertedKeeps(a: Agent, s: seq<Agent>, id: AgentId)
    requires SortedById(s)
    ensures WithId(Inserted(a, s), id) == (if a.id == id then [a] else []) + WithId(s, id)
  {
    WithIdFirst(a, s, id);
    if s != [] && a.id > s[0].id {
      InsertedKeeps(a, s[1..], id);
      WithIdFirst(s[0], Inserted(a, s[1..]), id);
    }
  }

  lemma {:induction false} SortedKeeps(s: seq<Agent>, id: AgentId)
    ensures WithId(Sorted(s), id) == WithId(s, id)
  {
    if s != [] {
      SortedKeeps(s[1..], id);
      InsertedKeeps(s[0], Sorted(s[1..]), id);
    }
  }

  function SortedEntries(entries: seq<Entry>): (r: seq<Entry>)
    ensures |r| == |entries|
  {
    seq(|entries|, i requires 0 <= i < |entries| => entries[i].(agents := Sorted(entries[i].agents)))
  }

  // ---------------------------------------------------------------- listed agents

  datatype Result = Result(affected: seq<Entry>, failed: seq<(Daemon, int)>)

  /** What asking each daemon in turn amounts to. */
  function Collected(ask: Socket, daemons: seq<Daemon>, chunks: seq<seq<AgentId>>): Result {
    if daemons == [] then Result([], [])
    else
      var before, daemon := Collected(ask, daemons[..|daemons| - 1], chunks), daemons[|daemons| - 1];
      var answers := Answers(ask, daemon, chunks);
      Result(before.affected + Merged(daemon, Replies(answers)), before.failed + Errors(daemon, answers))
  }

  /** The request with a list of agents: ask every daemon in chunks, then sort each entry. */
  method StatsOfListed(ask: Socket, daemons: seq<Daemon>, eligible: seq<AgentId>)
    returns (result: Result, chunks: seq<seq<AgentId>>)
    ensures Joined(chunks) == eligible && forall i | 0 <= i < |chunks| :: 1 <= |chunks[i]| <= 74
    ensures var all := Collected(ask, daemons, chunks);
            result == Result(SortedEntries(all.affected), all.failed)
  {
    chunks := Chunks(eligible);
    result := Result([], []);
    for k := 0 to |daemons|
      invariant result == Collected(ask, daemons[..k], chunks)
    {
      assert daemons[..k + 1][..k] == daemons[..k] && daemons[..k + 1][k] == daemons[k];
      var entries, failed := AskInChunks(ask, daemons[k], chunks);
      result := Result(result.affected + entries, result.failed + failed);
    }
    assert daemons[..|daemons|] == daemons;
    ghost var all := result;
    for k := 0 to |result.affected|
      invariant |result.affected| == |all.affected| && result.failed == all.failed
      invariant forall i | 0 <= i < |all.affected| ::
                  result.affected[i] == if i < k then SortedEntries(all.affected)[i] else all.affected[i]
    {
      var entry := result.affected[k];
      result := result.(affected := result.affected[k := entry.(agents := Sorted(entry.agents))]);
    }
    assert result.affected == SortedEntries(all.affected);
  }

  /** The statistics of each of these agents. */
  function StatsOf(stat: AgentId -> int, ids: seq<AgentId>): (r: seq<Agent>)
    ensures |r| == |ids| && forall i | 0 <= i < |ids| :: r[i] == Agent(ids[i], stat(ids[i]))
  {
    seq(|ids|, i requires 0 <= i < |ids| => Agent(ids[i], stat(ids[i])))
  }

  /** The socket answers every question it does not fail with the statistics of just the agents
      asked for, under the daemon's name. */
  ghost predicate Honest(ask: Socket, daemon: Daemon, stat: AgentId -> int) {
    forall ids :: ask(daemon, ids).Reply? ==> ask(daemon, ids).entry == Entry(daemon, StatsOf(stat, ids))
  }

  /** The chunks that were answered, put together. */
  function Answered(ask: Socket, daemon: Daemon, chunks: seq<seq<AgentId>>): seq<AgentId> {
    if chunks == [] then []
    else
      var n := |chunks| - 1;
      Answered(ask, daemon, chunks[..n]) + if ask(daemon, chunks[n]).Reply? then chunks[n] else []
  }

  lemma {:induction false} HonestReplies(ask: Socket, daemon: Daemon, stat: AgentId -> int, chunks: seq<seq<AgentId>>)
    requires Honest(ask, daemon, stat)
    ensures var replies := Replies(Answers(ask, daemon, chunks));
            && Joined(AgentsOf(replies)) == StatsOf(stat, Answered(ask, daemon, chunks))
            && forall i | 0 <= i < |replies| :: replies[i].name == daemon
  {
    if chunks != [] {
      var n, answers := |chunks| - 1, Answers(ask, daemon, chunks);
      HonestReplies(ask, daemon, stat, chunks[..n]);
      assert answers[..n] == Answers(ask, daemon, chunks[..n]) && answers[n] == ask(daemon, chunks[n]);
      if answers[n].Reply? {
        var before := Replies(answers[..n]);
        AgentsOfAppend(before, answers[n].entry);
        JoinedAppend(AgentsOf(before), answers[n].entry.agents);
      }
    }
  }

  lemma {:induction false} AllAnswered(ask: Socket, daemon: Daemon, chunks: seq<seq<AgentId>>)
    ensures (forall i | 0 <= i < |chunks| :: ask(daemon, chunks[i]).Reply?) ==>
              Answered(ask, daemon, chunks) == Joined(chunks)
  {
    if chunks != [] {
      var n := |chunks| - 1;
      AllAnswered(ask, daemon, chunks[..n]);
      assert chunks == chunks[..n] + [chunks[n]];
      JoinedAppend(chunks[..n], chunks[n]);
    }
  }

  /** Chunking is invisible: a daemon gets one entry with the agents of the chunks that were
      answered, none if there are none, and when all are answered the entry is that of one question
      about all the agents. */
  lemma ChunkedIsOneQuestion(ask: Socket, daemon: Daemon, stat: AgentId -> int, eligible: seq<AgentId>,
                             chunks: seq<seq<AgentId>>)
    requires Honest(ask, daemon, stat) && Joined(chunks) == eligible
    ensures var answers := Answers(ask, daemon, chunks);
            && Merged(daemon, Replies(answers))
               == (if Replies(answers) == [] then [] else [Entry(daemon, StatsOf(stat, Answered(ask, daemon, chunks)))])
            && (Errors(daemon, answers) == [] ==> Answered(ask, daemon, chunks) == eligible)
  {
    var answers := Answers(ask, daemon, chunks);
    HonestReplies(ask, daemon, stat, chunks);
    if Replies(answers) != [] {
      assert Replies(answers)[0].name == daemon;
    }
    if Errors(daemon, answers) == [] {
      forall i | 0 <= i < |chunks| ensures ask(daemon, chunks[i]).Reply? {
        NoErrors(daemon, answers, i);
      }
      AllAnswered(ask, daemon, chunks);
    }
  }

  lemma {:induction false} NoErrors(daemon: Daemon, answers: seq<Answer>, i: nat)
    requires Errors(daemon, answers) == [] && i < |answers|
    ensures answers[i].Reply?
  {
    if i < |answers| - 1 {
      NoErrors(daemon, answers[..|answers| - 1], i);
    }
  }

  /** An agent is in the entry exactly if it is of a chunk that was answered. */
  lemma {:induction false} AnsweredExactly(ask: Socket, daemon: Daemon, chunks: seq<seq<AgentId>>, id: AgentId)
    ensures id in Answered(ask, daemon, chunks)
            <==> exists k | 0 <= k < |chunks| :: id in chunks[k] && ask(daemon, chunks[k]).Reply?
  {
    if chunks != [] {
      var n := |chunks| - 1;
      AnsweredExactly(ask, daemon, chunks[..n], id);
      if k :| 0 <= k < |chunks| && id in chunks[k] && ask(daemon, chunks[k]).Reply? {
        assert k < n ==> chunks[..n][k] == chunks[k];
      }
      if k :| 0 <= k < n && id in chunks[..n][k] && ask(daemon, chunks[..n][k]).Reply? {
        assert chunks[k] == chunks[..n][k];
      }
    }
  }

  /** One error with its code for each answer that failed, in order. */
  ghost predicate ErrorsAt(daemon: Daemon, answers: seq<Answer>, errors: seq<(Daemon, int)>, at: seq<nat>) {
    && Places(at, |answers|) && |errors| == |at|
    && (forall j | 0 <= j < |at| :: answers[at[j]] == Failed(errors[j].1) && errors[j].0 == daemon)
    && (forall i | 0 <= i < |answers| :: i in at <==> answers[i].Failed?)
  }

  lemma {:induction false} ErrorsExactly(daemon: Daemon, answers: seq<Answer>) returns (at: seq<nat>)
    ensures ErrorsAt(daemon, answers, Errors(daemon, answers), at)
  {
    at := [];
    if answers != [] {
      var n := |answers| - 1;
      at := ErrorsExactly(daemon, answers[..n]);
      ErrorsNext(daemon, answers, Errors(daemon, answers[..n]), at);
      if answers[n].Failed? {
        at := at + [n];
      }
    }
  }

  lemma ErrorsNext(daemon: Daemon, answers: seq<Answer>, errors: seq<(Daemon, int)>, at: seq<nat>)
    requires answers != [] && ErrorsAt(daemon, answers[..|answers| - 1], errors, at)
    ensures var n := |answers| - 1;
            if answers[n].Failed? then ErrorsAt(daemon, answers, errors + [(daemon, answers[n].code)], at + [n])
            else ErrorsAt(daemon, answers, errors, at)
  {
    var n := |answers| - 1;
    PlacesNext(at, n);
    forall i | 0 <= i < n ensures answers[..n][i] == answers[i] && (i in at <==> answers[i].Failed?) {
    }
  }

  /** Every daemon's socket is honest about its own statistics. */
  ghost predicate AllHonest(ask: Socket, daemons: seq<Daemon>, stat: Daemon -> AgentId -> int) {
    forall i | 0 <= i < |daemons| :: Honest(ask, daemons[i], stat(daemons[i]))
  }

  lemma SomeReply(answers: seq<Answer>, daemon: Daemon)
    requires answers != [] && Errors(daemon, answers) == []
    ensures Replies(answers) != []
  {
    NoErrors(daemon, answers, |answers| - 1);
  }

  /** One daemon without a failure: the one entry of one question. */
  lemma OneQuestion(ask: Socket, daemon: Daemon, stat: AgentId -> int, eligible: seq<AgentId>,
                    chunks: seq<seq<AgentId>>)
    requires Honest(ask, daemon, stat) && Joined(chunks) == eligible && eligible != []
    requires Errors(daemon, Answers(ask, daemon, chunks)) == []
    ensures Merged(daemon, Replies(Answers(ask, daemon, chunks))) == [Entry(daemon, StatsOf(stat, eligible))]
  {
    assert chunks != [];
    SomeReply(Answers(ask, daemon, chunks), daemon);
    ChunkedIsOneQuestion(ask, daemon, stat, eligible, chunks);
  }

  lemma {:induction false} CollectedEntries(ask: Socket, daemons: seq<Daemon>, stat: Daemon -> AgentId -> int,
                                            eligible: seq<AgentId>, chunks: seq<seq<AgentId>>)
    requires AllHonest(ask, daemons, stat) && Joined(chunks) == eligible && eligible != []
    requires Collected(ask, daemons, chunks).failed == []
    ensures var entries := Collected(ask, daemons, chunks).affected;
            |entries| == |daemons|
            && forall i | 0 <= i < |daemons| :: entries[i] == Entry(daemons[i], StatsOf(stat(daemons[i]), eligible))
  {
    if daemons != [] {
      var n := |daemons| - 1;
      CollectedEntries(ask, daemons[..n], stat, eligible, chunks);
      OneQuestion(ask, daemons[n], stat(daemons[n]), eligible, chunks);
    }
  }

  /** The whole request refines one question to each daemon: with honest sockets and no failure, the
      result is one entry for each daemon, in order, with the statistics of all the agents by id. */
  lemma RequestIsOneQuestionEach(ask: Socket, daemons: seq<Daemon>, stat: Daemon -> AgentId -> int,
                                 eligible: seq<AgentId>,
                                 chunks: seq<seq<AgentId>>, result: Result)
    requires AllHonest(ask, daemons, stat) && Joined(chunks) == eligible && eligible != []
    requires var all := Collected(ask, daemons, chunks);
             result == Result(SortedEntries(all.affected), all.failed)
    requires result.failed == []
    ensures |result.affected| == |daemons|
    ensures forall i | 0 <= i < |daemons| ::
              result.affected[i] == Entry(daemons[i], Sorted(StatsOf(stat(daemons[i]), eligible)))
  {
    CollectedEntries(ask, daemons, stat, eligible, chunks);
  }

  // ---------------------------------------------------------------- with failures

  ghost predicate SomeAnswer(ask: Socket, daemon: Daemon, chunks: seq<seq<AgentId>>) {
    exists k | 0 <= k < |chunks| :: ask(daemon, chunks[k]).Reply?
  }

  lemma {:induction false} RepliesExactly(answers: seq<Answer>)
    ensures Replies(answers) != [] <==> exists k | 0 <= k < |answers| :: answers[k].Reply?
  {
    if answers != [] {
      var n := |answers| - 1;
      RepliesExactly(answers[..n]);
      if k :| 0 <= k < |answers| && answers[k].Reply? {
        assert k < n ==> answers[..n][k] == answers[k];
      }
      if k :| 0 <= k < n && answers[..n][k].Reply? {
        assert answers[k] == answers[..n][k];
      }
    }
  }

  /** What one daemon adds: its entry if some chunk was answered. */
  lemma DaemonAdds(ask: Socket, daemon: Daemon, stat: AgentId -> int, chunks: seq<seq<AgentId>>)
    requires Honest(ask, daemon, stat)
    ensures Merged(daemon, Replies(Answers(ask, daemon, chunks)))
            == if SomeAnswer(ask, daemon, chunks) then [Entry(daemon, StatsOf(stat, Answered(ask, daemon, chunks)))]
               else []
  {
    var answers := Answers(ask, daemon, chunks);
    ChunkedIsOneQuestion(ask, daemon, stat, Joined(chunks), chunks);
    RepliesExactly(answers);
    if k :| 0 <= k < |answers| && answers[k].Reply? {
      assert ask(daemon, chunks[k]).Reply?;
    }
    if k :| 0 <= k < |chunks| && ask(daemon, chunks[k]).Reply? {
      assert answers[k].Reply?;
    }
  }

  /** One entry for each of these daemons, with the agents of the chunks it answered. */
  ghost predicate EntriesAt(ask: Socket, daemons: seq<Daemon>, stat: Daemon -> AgentId -> int,
                            chunks: seq<seq<AgentId>>, entries: seq<Entry>, at: seq<nat>)
  {
    && Places(at, |daemons|) && |entries| == |at|
    && (forall j | 0 <= j < |at| ::
          var d := daemons[at[j]];
          entries[j] == Entry(d, StatsOf(stat(d), Answered(ask, d, chunks))))
    && (forall i | 0 <= i < |daemons| :: i in at <==> SomeAnswer(ask, daemons[i], chunks))
  }

  lemma {:induction false} CollectedAt(ask: Socket, daemons: seq<Daemon>, stat: Daemon -> AgentId -> int,
                                       chunks: seq<seq<AgentId>>)
    returns (at: seq<nat>)
    requires AllHonest(ask, daemons, stat)
    ensures EntriesAt(ask, daemons, stat, chunks, Collected(ask, daemons, chunks).affected, at)
  {
    at := [];
    if daemons != [] {
      var n := |daemons| - 1;
      at := CollectedAt(ask, daemons[..n], stat, chunks);
      DaemonAdds(ask, daemons[n], stat(daemons[n]), chunks);
      EntriesNext(ask, daemons, stat, chunks, Collected(ask, daemons[..n], chunks).affected, at);
      if SomeAnswer(ask, daemons[n], chunks) {
        at := at + [n];
      }
    }
  }

  lemma EntriesNext(ask: Socket, daemons: seq<Daemon>, stat: Daemon -> AgentId -> int,
                    chunks: seq<seq<AgentId>>, before: seq<Entry>, at: seq<nat>)
    requires daemons != [] && EntriesAt(ask, daemons[..|daemons| - 1], stat, chunks, before, at)
    ensures var n := |daemons| - 1;
            var d := daemons[n];
            if SomeAnswer(ask, d, chunks)
            then EntriesAt(ask, daemons, stat, chunks,
                           before + [Entry(d, StatsOf(stat(d), Answered(ask, d, chunks)))], at + [n])
            else EntriesAt(ask, daemons, stat, chunks, before, at)
  {
    var n := |daemons| - 1;
    PlacesNext(at, n);
    forall i | 0 <= i < n
      ensures daemons[..n][i] == daemons[i] && (i in at <==> SomeAnswer(ask, daemons[i], chunks))
    {
    }
  }

  /** Which question failed: of which daemon, about which chunk. */
  datatype Question = Question(daemon: nat, chunk: nat)

  predicate AskedBefore(a: Question, b: Question) {
    a.daemon < b.daemon || (a.daemon == b.daemon && a.chunk < b.chunk)
  }

  ghost predicate InTurn(at: seq<Question>) {
    forall i, j | 0 <= i < j < |at| :: AskedBefore(at[i], at[j])
  }

  predicate FailedWith(ask: Socket, daemons: seq<Daemon>, chunks: seq<seq<AgentId>>, q: Question, error: (Daemon,
                       int)) {
    && q.daemon < |daemons| && q.chunk < |chunks| && error.0 == daemons[q.daemon]
    && ask(error.0, chunks[q.chunk]) == Failed(error.1)
  }

  /** One error with its code for each question that failed, in the order they were asked. */
  ghost predicate FailuresAt(ask: Socket, daemons: seq<Daemon>, chunks: seq<seq<AgentId>>, failed: seq<(Daemon, int)>,
                             at: seq<Question>)
  {
    && |failed| == |at|
    && (forall j | 0 <= j < |at| :: FailedWith(ask, daemons, chunks, at[j], failed[j]))
    && InTurn(at)
    && (forall i, k | 0 <= i < |daemons| && 0 <= k < |chunks| ::
          Question(i, k) in at <==> ask(daemons[i], chunks[k]).Failed?)
  }

  function Questions(daemon: nat, at: seq<nat>): (r: seq<Question>)
    ensures |r| == |at| && forall i | 0 <= i < |at| :: r[i] == Question(daemon, at[i])
  {
    seq(|at|, i requires 0 <= i < |at| => Question(daemon, at[i]))
  }

  lemma {:induction false} FailedAt(ask: Socket, daemons: seq<Daemon>, chunks: seq<seq<AgentId>>)
    returns (at: seq<Question>)
    ensures FailuresAt(ask, daemons, chunks, Collected(ask, daemons, chunks).failed, at)
  {
    at := [];
    if daemons != [] {
      var n := |daemons| - 1;
      var answers := Answers(ask, daemons[n], chunks);
      at := FailedAt(ask, daemons[..n], chunks);
      var more := ErrorsExactly(daemons[n], answers);
      var before := Collected(ask, daemons[..n], chunks).failed;
      FailedNext(ask, daemons, chunks, before, at, Errors(daemons[n], answers), more);
      at := at + Questions(n, more);
    }
  }

  lemma FailedNext(ask: Socket, daemons: seq<Daemon>, chunks: seq<seq<AgentId>>, before: seq<(Daemon, int)>,
                   at: seq<Question>, errors: seq<(Daemon, int)>, more: seq<nat>)
    requires daemons != [] && FailuresAt(ask, daemons[..|daemons| - 1], chunks, before, at)
    requires ErrorsAt(daemons[|daemons| - 1], Answers(ask, daemons[|daemons| - 1], chunks), errors, more)
    ensures FailuresAt(ask, daemons, chunks, before + errors, at + Questions(|daemons| - 1, more))
  {
    var n := |daemons| - 1;
    var all, failed := at + Questions(n, more), before + errors;
    var answers := Answers(ask, daemons[n], chunks);
    forall j | 0 <= j < |all| ensures FailedWith(ask, daemons, chunks, all[j], failed[j]) {
      if j < |at| {
        assert FailedWith(ask, daemons[..n], chunks, at[j], before[j]);
      } else {
        assert answers[more[j - |at|]] == ask(daemons[n], chunks[more[j - |at|]]);
      }
    }
    assert forall j | 0 <= j < |at| :: FailedWith(ask, daemons[..n], chunks, at[j], before[j]);
    TurnNext(at, n, more);
    forall i, k | 0 <= i < |daemons| && 0 <= k < |chunks|
      ensures Question(i, k) in all <==> ask(daemons[i], chunks[k]).Failed?
    {
      FailedIn(ask, daemons, chunks, before, at, more, i, k);
    }
  }

  lemma TurnNext(at: seq<Question>, n: nat, more: seq<nat>)
    requires InTurn(at) && (forall j | 0 <= j < |at| :: at[j].daemon < n)
    requires forall i, j | 0 <= i < j < |more| :: more[i] < more[j]
    ensures InTurn(at + Questions(n, more))
  {
  }

  lemma FailedIn(ask: Socket, daemons: seq<Daemon>, chunks: seq<seq<AgentId>>, before: seq<(Daemon, int)>,
                 at: seq<Question>, more: seq<nat>, i: nat, k: nat)
    requires daemons != [] && FailuresAt(ask, daemons[..|daemons| - 1], chunks, before, at)
    requires forall k | 0 <= k < |chunks| :: k in more <==> Answers(ask, daemons[|daemons| - 1], chunks)[k].Failed?
    requires i < |daemons| && k < |chunks|
    ensures Question(i, k) in at + Questions(|daemons| - 1, more) <==> ask(daemons[i], chunks[k]).Failed?
  {
    var n := |daemons| - 1;
    QuestionIn(n, more, i, k);
    if i < n {
      assert daemons[..n][i] == daemons[i];
      assert Question(i, k) in at <==> ask(daemons[..n][i], chunks[k]).Failed?;
    }
  }

  lemma QuestionIn(n: nat, more: seq<nat>, i: nat, k: nat)
    ensures Question(i, k) in Questions(n, more) <==> i == n && k in more
  {
    if i == n && k in more {
      var j :| 0 <= j < |more| && more[j] == k;
      assert Questions(n, more)[j] == Question(i, k);
    }
  }

  /** The whole request, whatever fails: with honest sockets the result is one entry for each daemon that
      answered anything, in order, with the statistics by id of just the agents of the chunks it
      answered; and one error for each question that failed, with its code. */
  lemma RequestExactly(ask: Socket, daemons: seq<Daemon>, stat: Daemon -> AgentId -> int,
                       chunks: seq<seq<AgentId>>, result: Result)
    returns (at: seq<nat>, failedAt: seq<Question>)
    requires AllHonest(ask, daemons, stat)
    requires var all := Collected(ask, daemons, chunks);
             result == Result(SortedEntries(all.affected), all.failed)
    ensures Places(at, |daemons|) && |result.affected| == |at|
    ensures forall i | 0 <= i < |daemons| :: i in at <==> SomeAnswer(ask, daemons[i], chunks)
    ensures forall j | 0 <= j < |at| ::
              var d := daemons[at[j]];
              result.affected[j] == Entry(d, Sorted(StatsOf(stat(d), Answered(ask, d, chunks))))
    ensures FailuresAt(ask, daemons, chunks, result.failed, failedAt)
  {
    at := CollectedAt(ask, daemons, stat, chunks);
    failedAt := FailedAt(ask, daemons, chunks);
  }

  // ---------------------------------------------------------------- all agents, page by page

  /** One page: its data and whether more is due. */
  datatype Page = Page(data: Entry, due: bool) | NoPage(code: int)

  /** What the daemon answers to a request for the agents after an id. */
  type Server = AgentId -> Page

  ghost predicate Ascending(agents: seq<Agent>, above: AgentId) {
    && (forall i | 0 <= i < |agents| :: agents[i].id > above)
    && (forall i, j | 0 <= i < j < |agents| :: agents[i].id < agents[j].id)
  }

  /** The agents of a list with an id above this one. */
  function Above(all: seq<Agent>, last: AgentId): (r: seq<Agent>)
    ensures |r| <= |all|
  {
    if all == [] || all[0].id > last then all else Above(all[1..], last)
  }

  /** A daemon that has these agents: each page is a first part of those that are left, not empty if
      more is due, and all of them if not. */
  ghost predicate Serves(server: Server, daemon: Daemon, all: seq<Agent>) {
    forall last :: server(last).Page? ==>
      && server(last).data.name == daemon
      && server(last).data.agents <= Above(all, last)
      && (if server(last).due then server(last).data.agents != [] else server(last).data.agents == Above(all, last))
  }

  lemma {:induction false} AboveAbove(all: seq<Agent>, low: AgentId, last: AgentId, n: nat)
    requires Ascending(all, low) && 0 < n <= |Above(all, last)|
    ensures Above(all, Above(all, last)[n - 1].id) == Above(all, last)[n..]
    decreases |all|
  {
    if all[0].id > last {
      AfterFirst(all, low, n);
    } else {
      assert Ascending(all[1..], all[0].id);
      AboveAbove(all[1..], all[0].id, last, n);
      AboveIsIn(all[1..], all[0].id, last);
    }
  }

  lemma {:induction false} AfterFirst(all: seq<Agent>, low: AgentId, n: nat)
    requires Ascending(all, low) && 0 < n <= |all|
    ensures Above(all, all[n - 1].id) == all[n..]
  {
    if n > 1 {
      AfterFirst(all[1..], all[0].id, n - 1);
      assert all[1..][n - 1..] == all[n..];
    } else if |all| > 1 {
      assert all[1].id > all[0].id;
    }
  }

  lemma {:induction false} AboveIsIn(all: seq<Agent>, low: AgentId, last: AgentId)
    requires Ascending(all, low)
    ensures forall i | 0 <= i < |Above(all, last)| :: Above(all, last)[i].id > low
  {
    if all != [] && all[0].id <= last {
      AboveIsIn(all[1..], all[0].id, last);
    }
  }

  lemma PageMerged(daemon: Daemon, pages: seq<Entry>, page: Entry, got: seq<Agent>)
    requires page.name == daemon
    requires Merged(daemon, pages) == (if pages == [] then [] else [Entry(daemon, got)]) && (pages == [] ==> got == [])
    ensures Merged(daemon, pages + [page]) == [Entry(daemon, got + page.agents)]
  {
    MergedAppend(daemon, pages, page, 0);
    assert got == [] ==> got + page.agents == page.agents;
  }

  lemma PageTaken(all: seq<Agent>, low: AgentId, last: AgentId, agents: seq<Agent>, got: seq<Agent>)
    requires Ascending(all, low) && got + Above(all, last) == all && agents <= Above(all, last)
    ensures var next := if agents == [] then last else agents[|agents| - 1].id;
            && got + agents + Above(all, next) == all
            && |Above(all, next)| == |Above(all, last)| - |agents|
  {
    var left := Above(all, last);
    if agents != [] {
      AboveAbove(all, low, last, |agents|);
      assert agents[|agents| - 1] == left[|agents| - 1];
    }
    assert left == agents + left[|agents|..];
    assert got + agents + left[|agents|..] == got + (agents + left[|agents|..]);
  }

  /** Where paging stands: the agents handed out, and the id to go on after. */
  ghost predicate Paged(daemon: Daemon, all: seq<Agent>, pages: seq<Entry>, got: seq<Agent>, last: AgentId) {
    && Merged(daemon, pages) == (if pages == [] then [] else [Entry(daemon, got)])
    && (pages == [] ==> got == [])
    && last == (if got == [] then 0 else got[|got| - 1].id)
    && got + Above(all, last) == all
  }

  lemma PageNext(daemon: Daemon, all: seq<Agent>, pages: seq<Entry>, got: seq<Agent>, last: AgentId, page: Entry)
    requires Ascending(all, 0) && Paged(daemon, all, pages, got, last)
    requires page.name == daemon && page.agents <= Above(all, last)
    ensures var next := if page.agents == [] then last else page.agents[|page.agents| - 1].id;
            && Paged(daemon, all, pages + [page], got + page.agents, next)
            && |Above(all, next)| == |Above(all, last)| - |page.agents|
  {
    PageMerged(daemon, pages, page, got);
    PageTaken(all, 0, last, page.agents, got);
  }

  /** A page failed with this code: the entry holds a first part of the agents, the failed page is the
      one after them, and there is no entry exactly if it was the first. */
  ghost predicate FailedAfter(server: Server, daemon: Daemon, all: seq<Agent>, entries: seq<Entry>, code: int) {
    if entries == [] then server(0) == NoPage(code)
    else
      && server(0).Page? && |entries| == 1 && entries[0].name == daemon
      && var got := entries[0].agents;
         got != [] && got <= all && server(got[|got| - 1].id) == NoPage(code)
  }

  lemma PagesFailed(server: Server, daemon: Daemon, all: seq<Agent>, pages: seq<Entry>, got: seq<Agent>, last: AgentId)
    requires Paged(daemon, all, pages, got, last) && server(last).NoPage?
    requires pages != [] ==> got != [] && server(0).Page?
    ensures FailedAfter(server, daemon, all, Merged(daemon, pages), server(last).code)
  {
  }

  /** One page goes to the daemon's entry, and the last id on it is the next to ask after. */
  method TakePage(daemon: Daemon, ghost all: seq<Agent>, entries: seq<Entry>, last: AgentId, page: Entry,
                  ghost pages: seq<Entry>, ghost got: seq<Agent>)
    returns (r: seq<Entry>, next: AgentId)
    requires Ascending(all, 0) && entries == Merged(daemon, pages) && Paged(daemon, all, pages, got, last)
    requires page.name == daemon && page.agents <= Above(all, last)
    ensures r == Merged(daemon, pages + [page]) && Paged(daemon, all, pages + [page], got + page.agents, next)
    ensures |Above(all, next)| == |Above(all, last)| - |page.agents|
  {
    PageNext(daemon, all, pages, got, last, page);
    r := Absorb(daemon, entries, page, pages);
    next := last;
    if |page.agents| > 0 {
      next := page.agents[|page.agents| - 1].id;
    }
  }

  /** The request for all agents, one daemon: if no page fails, the entry holds every agent of the
      daemon once, in id order; if one fails, it holds those of the pages before, up to the agent
      after which the failed page was asked for. */
  method AskInPages(server: Server, daemon: Daemon, ghost all: seq<Agent>)
    returns (entries: seq<Entry>, failed: seq<(Daemon, int)>)
    requires Ascending(all, 0) && Serves(server, daemon, all)
    ensures failed == [] ==> entries == [Entry(daemon, all)] && server(0).Page?
    ensures failed != [] ==> |failed| == 1 && failed[0].0 == daemon
                             && FailedAfter(server, daemon, all, entries, failed[0].1)
  {
    entries, failed := [], [];
    var last := 0;
    ghost var pages: seq<Entry> := [];
    ghost var got: seq<Agent> := [];
    assert Paged(daemon, all, pages, got, last);
    while true
      invariant entries == Merged(daemon, pages) && Paged(daemon, all, pages, got, last)
      invariant pages != [] ==> got != [] && server(0).Page?
      decreases |Above(all, last)|
    {
      var page := server(last);
      if page.NoPage? {
        failed := [(daemon, page.code)];
        PagesFailed(server, daemon, all, pages, got, last);
        break;
      }
      entries, last := TakePage(daemon, all, entries, last, page.data, pages, got);
      pages, got := pages + [page.data], got + page.data.agents;
      if !page.due {
        break;
      }
    }
  }

  // ---------------------------------------------------------------- when paging ends

  /** The id the next request asks after, or the end of the loop. */
  datatype Asking = At(last: AgentId) | Ended

  function Next(server: Server, asking: Asking): Asking {
    if asking.Ended? then Ended
    else
      var page := server(asking.last);
      if page.NoPage? || !page.due then Ended
      else if page.data.agents == [] then asking
      else At(page.data.agents[|page.data.agents| - 1].id)
  }

  function After(server: Server, n: nat): Asking {
    if n == 0 then At(0) else Next(server, After(server, n - 1))
  }

  /** More is due after n requests and the page holds nothing. */
  predicate Starved(server: Server, n: nat) {
    var asking := After(server, n);
    asking.At? && var page := server(asking.last); page.Page? && page.due && page.data.agents == []
  }

  /** Every page is in ascending order after the id asked for, and there is a greatest id. */
  ghost predicate Climbs(server: Server, top: nat) {
    forall last :: server(last).Page? ==>
      && Ascending(server(last).data.agents, last)
      && forall i | 0 <= i < |server(last).data.agents| :: server(last).data.agents[i].id <= top
  }

  lemma {:induction false} StarvedForGood(server: Server, n: nat, k: nat)
    requires Starved(server, n)
    ensures After(server, n + k) == After(server, n)
  {
    if k > 0 {
      StarvedForGood(server, n, k - 1);
      assert n + k - 1 == n + (k - 1);
    }
  }

  lemma {:induction false} EndedForGood(server: Server, n: nat, k: nat)
    requires After(server, n).Ended?
    ensures After(server, n + k).Ended?
  {
    if k > 0 {
      EndedForGood(server, n, k - 1);
    }
  }

  lemma {:induction false} Climbed(server: Server, top: nat, n: nat)
    requires Climbs(server, top)
    requires forall m: nat | m < n :: !Starved(server, m)
    ensures After(server, n).Ended? || n <= After(server, n).last <= top || n == 0
  {
    if n > 0 {
      Climbed(server, top, n - 1);
      var asking := After(server, n - 1);
      assert !Starved(server, n - 1);
      if After(server, n).At? {
        var agents := server(asking.last).data.agents;
        assert agents[|agents| - 1].id > asking.last;
      }
    }
  }

  /** Paging ends exactly when no page is both due and empty; then the number of requests is at most
      the greatest id plus one. */
  lemma EndsExactly(server: Server, top: nat)
    requires Climbs(server, top)
    ensures After(server, top + 1).Ended? <==> forall n: nat :: !Starved(server, n)
    ensures (exists n: nat :: After(server, n).Ended?) ==> After(server, top + 1).Ended?
  {
    if n: nat :| Starved(server, n) {
      forall m: nat ensures !After(server, m).Ended? {
        NeverEnds(server, n, m);
      }
    } else {
      Climbed(server, top, top + 1);
    }
  }

  lemma NeverEnds(server: Server, n: nat, m: nat)
    requires Starved(server, n)
    ensures After(server, m).At?
  {
    if m >= n {
      StarvedForGood(server, n, m - n);
    } else if After(server, m).Ended? {
      EndedForGood(server, m, n - m);
    }
  }
}
