/**
  The concurrent query tool: a select loop that spreads the lines of standard input over a pool of
  database connections. Connections are numbered, queries are named by their line number, and a
  connection holds the queries sent on it whose replies have not been read, oldest first.
*/
module PoolScheduler {
  import opened Common

  datatype Fd = Stdin | Conn(id: nat)

  class Pool {
    const length: nat
    var idle: set<nat>
    var files: set<Fd>

    constructor (length: nat)
      ensures this.length == length
      ensures idle == Numbers(length)
      ensures files == {Stdin} + Conns(length)
    {
      this.length := length;
      idle := Numbers(length);
      files := {Stdin} + Conns(length);
    }

    method PollIdle() returns (sock: Option<nat>)
      modifies this`idle
      ensures sock == None <==> old(idle) == {}
      ensures sock.Some? ==> sock.value in old(idle) && idle == old(idle) - {sock.value}
      ensures sock.None? ==> idle == old(idle)
    {
      if idle == {} {
        return None;
      }
      var x :| x in idle;
      idle := idle - {x};
      return Some(x);
    }

    /** The generator's second half, run when its consumer asks for the next descriptor. */
    method Release(fd: Fd)
      modifies this`idle
      ensures idle == if fd.Conn? then old(idle) + {fd.id} else old(idle)
    {
      if fd != Stdin {
        idle := idle + {fd.id};
      }
    }

    function Pending(): int
      reads this
    {
      length - |idle|
    }

    method LockStdin()
      modifies this`files
      ensures files == old(files) - {Stdin}
    {
      files := files - {Stdin};
    }

    method UnlockStdin()
      modifies this`files
      ensures files == old(files) + {Stdin}
    {
      files := files + {Stdin};
    }
  }

  function Numbers(n: nat): (r: set<nat>)
    ensures forall i: nat :: i in r <==> i < n
    ensures |r| == n
  {
    if n == 0 then {} else Numbers(n - 1) + {n - 1}
  }

  function Conns(n: nat): set<Fd> {
    set i | i in Numbers(n) :: Conn(i)
  }

  /** Standard input and the database, as the tool sees them. */
  class World {
    const lines: nat
    var read: nat
    var queues: seq<seq<nat>>
    var printed: seq<nat>

    constructor (lines: nat, workers: nat)
      ensures this.lines == lines && read == 0 && printed == []
      ensures queues == seq(workers, i => [])
    {
      this.lines := lines;
      read, printed := 0, [];
      queues := seq(workers, i => []);
    }

    /** A line, or None at the end of the input. */
    method ReadLine() returns (line: Option<nat>)
      requires read <= lines
      modifies this`read
      ensures line == if old(read) < lines then Some(old(read)) else None
      ensures read == if old(read) < lines then old(read) + 1 else old(read)
    {
      if read < lines {
        line, read := Some(read), read + 1;
      } else {
        line := None;
      }
    }

    method Send(sock: nat, line: nat)
      requires sock < |queues|
      modifies this`queues
      ensures queues == old(queues)[sock := old(queues)[sock] + [line]]
    {
      queues := queues[sock := queues[sock] + [line]];
    }

    /** Reading from a connection that owes no reply would block for good. */
    method ReceiveAndPrint(sock: nat)
      requires sock < |queues| && queues[sock] != []
      modifies this`queues, this`printed
      ensures queues == old(queues)[sock := old(queues)[sock][1..]]
      ensures printed == old(printed) + [old(queues)[sock][0]]
    {
      printed := printed + [queues[sock][0]];
      queues := queues[sock := queues[sock][1..]];
    }

    ghost predicate Ready(fd: Fd)
      reads this
    {
      fd.Conn? ==> fd.id < |queues| && queues[fd.id] != []
    }

    /** select reports some non-empty choice of ready descriptors, each once, in any order. It
        returns only if a watched descriptor becomes ready, so the caller must guarantee one. */
    method Select(files: set<Fd>) returns (readers: seq<Fd>)
      requires exists fd :: fd in files && Ready(fd)
      ensures readers != []
      ensures forall i | 0 <= i < |readers| :: readers[i] in files && Ready(readers[i])
      ensures forall i, j | 0 <= i < j < |readers| :: readers[i] != readers[j]
    {
      if Stdin in files {
        return [Stdin];
      }
      var fd :| fd in files && fd.Conn? && fd.id < |queues| && queues[fd.id] != [];
      return [fd];
    }
  }

  // ---------------------------------------------------------------- bookkeeping

  ghost function Count(s: seq<nat>, x: nat): nat {
    if s == [] then 0 else (if s[|s| - 1] == x then 1 else 0) + Count(s[..|s| - 1], x)
  }

  /** How often line x is among the queries still owed a reply. */
  ghost function Owed(queues: seq<seq<nat>>, x: nat): nat {
    if queues == [] then 0 else Count(queues[0], x) + Owed(queues[1..], x)
  }

  lemma CountOne(s: seq<nat>, y: nat, x: nat)
    ensures Count(s + [y], x) == Count(s, x) + if x == y then 1 else 0
  {
    assert (s + [y])[..|s|] == s;
  }

  lemma {:induction false} OwedUpdate(queues: seq<seq<nat>>, i: nat, q: seq<nat>, x: nat)
    requires i < |queues|
    ensures Owed(queues[i := q], x) + Count(queues[i], x) == Owed(queues, x) + Count(q, x)
  {
    if i == 0 {
      assert queues[i := q][1..] == queues[1..];
    } else {
      OwedUpdate(queues[1..], i - 1, q, x);
      assert queues[i := q][1..] == queues[1..][i - 1 := q];
    }
  }

  lemma {:induction false} NothingOwed(queues: seq<seq<nat>>, x: nat)
    requires forall i | 0 <= i < |queues| :: queues[i] == []
    ensures Owed(queues, x) == 0
  {
    if queues != [] {
      NothingOwed(queues[1..], x);
    }
  }

  // ---------------------------------------------------------------- the loop

  /** Each connection is idle with nothing owed, or busy with one query; every line read so far is
      either printed or owed, exactly once; and printed and busy add up to what was read. */
  ghost predicate Balanced(length: nat, idle: set<nat>, queues: seq<seq<nat>>, printed: seq<nat>, read: nat) {
    && |queues| == length
    && idle <= Numbers(length)
    && (forall i | 0 <= i < length :: |queues[i]| == if i in idle then 0 else 1)
    && (forall x: nat :: Count(printed, x) + Owed(queues, x) == if x < read then 1 else 0)
    && |printed| + (length - |idle|) == read
  }

  lemma SendKeeps(length: nat, idle: set<nat>, queues: seq<seq<nat>>, printed: seq<nat>, read: nat, sock: nat)
    requires Balanced(length, idle, queues, printed, read) && sock in idle
    ensures Balanced(length, idle - {sock}, queues[sock := queues[sock] + [read]], printed, read + 1)
  {
    var after := queues[sock := queues[sock] + [read]];
    forall x: nat ensures Count(printed, x) + Owed(after, x) == if x < read + 1 then 1 else 0 {
      OwedUpdate(queues, sock, queues[sock] + [read], x);
      CountOne(queues[sock], read, x);
    }
  }

  lemma ReceiveKeeps(length: nat, idle: set<nat>, queues: seq<seq<nat>>, printed: seq<nat>, read: nat, sock: nat)
    requires Balanced(length, idle, queues, printed, read) && sock < length && queues[sock] != []
    ensures Balanced(length, idle + {sock}, queues[sock := queues[sock][1..]], printed + [queues[sock][0]], read)
  {
    var line, after := queues[sock][0], queues[sock := queues[sock][1..]];
    assert queues[sock] == [] + [line] && queues[sock][1..] == [];
    forall x: nat ensures Count(printed + [line], x) + Owed(after, x) == if x < read then 1 else 0 {
      OwedUpdate(queues, sock, queues[sock][1..], x);
      CountOne(printed, line, x);
      CountOne([], line, x);
    }
  }

  ghost predicate InBalance(pool: Pool, world: World)
    reads pool, world
  {
    Balanced(pool.length, pool.idle, world.queues, world.printed, world.read) && world.read <= world.lines
  }

  /** What holds each time the while condition is evaluated. */
  ghost predicate LoopHead(pool: Pool, world: World, active: bool)
    reads pool, world
  {
    && InBalance(pool, world)
    && world.read - |world.printed| == pool.Pending()
    && pool.files + {Stdin} == Conns(pool.length) + {Stdin}
    && (active && pool.idle != {} ==> Stdin in pool.files)
    && (!active ==> Stdin !in pool.files && world.read == world.lines)
  }

  /** A line read from standard input goes out on an idle connection: poll_idle finds one. */
  method ServeInput(pool: Pool, world: World) returns (active: bool)
    requires InBalance(pool, world) && pool.idle != {}
    modifies pool`idle, pool`files, world`read, world`queues
    ensures InBalance(pool, world)
    ensures pool.files == if active then old(pool.files) else old(pool.files) - {Stdin}
    ensures active <==> old(world.read) < world.lines
    ensures world.read == if active then old(world.read) + 1 else old(world.read)
    ensures pool.idle <= old(pool.idle)
    ensures |pool.idle| == if active then |old(pool.idle)| - 1 else |old(pool.idle)|
    ensures forall i | 0 <= i < pool.length && i !in old(pool.idle) :: world.queues[i] == old(world.queues)[i]
  {
    var line := world.ReadLine();
    active := line.Some?;
    if active {
      var sock := pool.PollIdle();
      assert sock.Some?;
      SendKeeps(pool.length, old(pool.idle), world.queues, world.printed, line.value, sock.value);
      world.Send(sock.value, line.value);
    } else {
      pool.LockStdin();
    }
  }

  /** A reply is printed and its connection becomes idle. */
  method ServeReply(pool: Pool, world: World, sock: nat)
    requires InBalance(pool, world) && world.Ready(Conn(sock))
    modifies pool`idle, world`queues, world`printed
    ensures InBalance(pool, world)
    ensures sock !in old(pool.idle) && pool.idle == old(pool.idle) + {sock}
    ensures forall i | 0 <= i < pool.length && i != sock :: world.queues[i] == old(world.queues)[i]
  {
    ReceiveKeeps(pool.length, pool.idle, world.queues, world.printed, world.read, sock);
    world.ReceiveAndPrint(sock);
    pool.Release(Conn(sock));
  }

  ghost function Work(pool: Pool, world: World, active: bool): int
    reads pool, world
  {
    2 * (world.lines - world.read) + pool.Pending() + if active then 1 else 0
  }

  /** The for loop over what select reported. */
  method Batch(pool: Pool, world: World, readers: seq<Fd>) returns (active: bool, anySocket: bool)
    requires InBalance(pool, world)
    requires forall i | 0 <= i < |readers| :: world.Ready(readers[i])
    requires forall i, j | 0 <= i < j < |readers| :: readers[i] != readers[j]
    requires Stdin in readers ==> pool.idle != {}
    modifies pool`idle, pool`files, world`read, world`queues, world`printed
    ensures InBalance(pool, world)
    ensures active || (Stdin in readers && world.read == world.lines)
    ensures Stdin !in readers ==> world.read == old(world.read)
    ensures pool.files == if active then old(pool.files) else old(pool.files) - {Stdin}
    ensures !anySocket ==> pool.idle <= old(pool.idle)
    ensures Work(pool, world, active) + |readers| == old(Work(pool, world, true))
  {
    active, anySocket := true, false;
    for k := 0 to |readers|
      invariant InBalance(pool, world)
      invariant forall i | k <= i < |readers| && readers[i].Conn? :: world.Ready(readers[i])
      invariant active || (Stdin in readers && Stdin !in readers[k..] && world.read == world.lines)
      invariant Stdin in readers[k..] ==> pool.idle != {}
      invariant Stdin !in readers ==> world.read == old(world.read)
      invariant pool.files == if active then old(pool.files) else old(pool.files) - {Stdin}
      invariant !anySocket ==> pool.idle <= old(pool.idle)
      invariant Work(pool, world, active) + k == old(Work(pool, world, true))
    {
      assert readers[k..] == [readers[k]] + readers[k + 1..];
      if readers[k] == Stdin {
        active := ServeInput(pool, world);
      } else {
        ServeReply(pool, world, readers[k].id);
        anySocket := true;
      }
    }
  }

  /** Standard input is not watched while all connections are busy. */
  method Watch(pool: Pool, ghost active: bool)
    requires pool.files + {Stdin} == Conns(pool.length) + {Stdin}
    requires if active then pool.idle != {} ==> Stdin in pool.files else Stdin !in pool.files
    modifies pool`files
    ensures pool.files == if active && pool.idle != {} then Conns(pool.length) + {Stdin} else Conns(pool.length)
  {
    if pool.Pending() == pool.length {
      pool.LockStdin();
    }
    assert Stdin !in Conns(pool.length);
    assert (pool.files + {Stdin}) - {Stdin} == Conns(pool.length);
    assert pool.files == if Stdin in pool.files then Conns(pool.length) + {Stdin} else Conns(pool.length);
  }

  /** One turn of the loop keeps the loop-head facts and always gets something done. All connections are
      watched, and standard input as long as it has not ended and some connection is idle. */
  method Turn(pool: Pool, world: World, active: bool) returns (stillActive: bool, ghost watched: set<Fd>)
    requires pool.length >= 1 && LoopHead(pool, world, active)
    requires active || pool.Pending() > 0
    modifies pool`idle, pool`files, world`read, world`queues, world`printed
    ensures LoopHead(pool, world, stillActive)
    ensures Work(pool, world, stillActive) < old(Work(pool, world, active))
    ensures watched == if active && old(pool.idle) != {} then Conns(pool.length) + {Stdin} else Conns(pool.length)
  {
    Watch(pool, active);
    watched := pool.files;
    WatchedFits(pool.files, pool.length);
    assert Stdin in pool.files || |pool.idle| < pool.length;
    SomethingReady(pool, world);
    var readers := world.Select(pool.files);
    var more, anySocket := Batch(pool, world, readers);
    stillActive := active && more;
    if stillActive && anySocket {
      pool.UnlockStdin();
    }
  }

  lemma WatchedFits(files: set<Fd>, n: nat)
    requires files == Conns(n) || files == Conns(n) + {Stdin}
    ensures files + {Stdin} == Conns(n) + {Stdin}
  {
  }

  /** select is never left waiting for good. */
  lemma SomethingReady(pool: Pool, world: World)
    requires InBalance(pool, world)
    requires pool.files + {Stdin} == Conns(pool.length) + {Stdin}
    requires Stdin in pool.files || |pool.idle| < pool.length
    ensures exists fd :: fd in pool.files && world.Ready(fd)
  {
    if Stdin in pool.files {
      assert world.Ready(Stdin);
    } else {
      var i := Busy(pool.idle, pool.length);
      assert Conn(i) in Conns(pool.length) && world.Ready(Conn(i));
    }
  }

  lemma Busy(idle: set<nat>, n: nat) returns (i: nat)
    requires idle <= Numbers(n) && |idle| < n
    ensures i < n && i !in idle
  {
    var rest := Numbers(n) - idle;
    assert Numbers(n) == idle + rest;
    assert rest != {};
    i :| i in rest;
  }

  lemma IdleFits(idle: set<nat>, n: nat)
    requires idle <= Numbers(n)
    ensures |idle| <= n
  {
    assert Numbers(n) == idle + (Numbers(n) - idle);
  }

  lemma AllIdle(idle: set<nat>, n: nat)
    requires idle <= Numbers(n) && |idle| >= n
    ensures idle == Numbers(n)
  {
    var rest := Numbers(n) - idle;
    assert Numbers(n) == idle + rest && |rest| == n - |idle|;
  }

  method Connect(workers: nat, lines: nat) returns (pool: Pool, world: World)
    ensures fresh(pool) && fresh(world) && pool.length == workers && world.lines == lines
    ensures LoopHead(pool, world, true)
  {
    pool := new Pool(workers);
    world := new World(lines, workers);
    forall x: nat ensures Owed(world.queues, x) == 0 { NothingOwed(world.queues, x); }
  }

  lemma Done(length: nat, idle: set<nat>, queues: seq<seq<nat>>, printed: seq<nat>, read: nat)
    requires Balanced(length, idle, queues, printed, read) && |idle| >= length
    ensures |printed| == read
    ensures forall line: nat :: Count(printed, line) == if line < read then 1 else 0
  {
    AllIdle(idle, length);
    forall i | 0 <= i < length ensures queues[i] == [] { assert i in idle; }
    forall x: nat ensures Owed(queues, x) == 0 { NothingOwed(queues, x); }
  }

  /** The whole run ends, and every line of the input has had exactly one reply printed. */
  method RunQueries(workers: nat, lines: nat) returns (printed: seq<nat>)
    requires workers >= 1
    ensures |printed| == lines
    ensures forall line: nat :: Count(printed, line) == if line < lines then 1 else 0
  {
    var pool, world := Connect(workers, lines);
    var active := true;
    while active || pool.Pending() > 0
      invariant LoopHead(pool, world, active)
      decreases Work(pool, world, active)
    {
      ghost var watched;
      active, watched := Turn(pool, world, active);
      IdleFits(pool.idle, workers);
    }
    printed := world.printed;
    Done(workers, pool.idle, world.queues, printed, lines);
  }
}
