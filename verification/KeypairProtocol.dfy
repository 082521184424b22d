/**
  The JWT key pair shared by the API processes: two key files guarded by flock on a third
  file, a memoised reader in every process, and a file watcher that clears the memo.

  Every call of generate_keypair or change_keypair is a caller with a program counter. A run is
  any interleaving of single caller steps and single watcher steps, so each lock, each open for
  writing (which truncates), each write, each read and each memo access is its own step.
*/
module KeypairProtocol {
  import opened Common

  type Id = nat
  type Process = nat

  /** Content of a key file: key material is named by the generation it came from. */
  datatype File = Missing | Empty | Holds(gen: nat)

  datatype Pair = Pair(private: File, public: File)

  datatype Call = Generate | Change

  /** What a caller does next. */
  datatype Pc =
    | Lookup                        // ask the memo
    | CheckPrivate | CheckPublic    // first, unlocked existence check
    | LockExclusive
    | RecheckPrivate | RecheckPublic
    | DropExclusive                 // converting to a shared lock drops the exclusive one first
    | LockShared
    | ReadPrivate | ReadPublic
    | MakeKey
    | TruncatePrivate | WritePrivate
    | TruncatePublic | WritePublic
    | ClearMemo
    | CloseAfterWrite | CloseAfterRead
    | StoreMemo
    | Finished

  /** gen is the generation this caller made, 0 when it made none; pair is what it read or wrote;
      seen is the number of file changes there had been when pair was complete on disk. */
  datatype Caller = Caller(call: Call, process: Process, pc: Pc, pair: Pair, gen: nat, seen: nat)

  /** memo has a key for each process whose cache is filled; unhandled has a key for each process
      that runs the watcher. Generation 0 is the key material found on disk at the start. */
  datatype State = State(
    callers: map<Id, Caller>,
    disk: Pair,
    exclusive: Option<Id>,
    shared: set<Id>,
    memo: map<Process, Pair>,
    unhandled: map<Process, nat>,
    nextGen: nat,
    changes: nat)

  /** A caller's next step; a watcher takes an event and clears the memo; two unread events of a
      process that are the same become one. */
  datatype Step = Advance(caller: Id) | Handle(process: Process) | Merge(process: Process)

  const NOTHING := Pair(Missing, Missing)

  function FirstPc(call: Call): Pc {
    match call
    case Generate => Lookup
    case Change => LockExclusive
  }

  ghost predicate Init(s: State) {
    && (forall c <- s.callers ::
          s.callers[c] == Caller(s.callers[c].call, s.callers[c].process, FirstPc(s.callers[c].call), NOTHING, 0, 0))
    && s.disk.private in {Missing, Holds(0)}
    && s.disk.public in {Missing, Holds(0)}
    && s.exclusive == None
    && s.shared == {}
    && s.memo == map[]
    && (forall p <- s.unhandled :: s.unhandled[p] == 0)
    && s.nextGen == 1
    && s.changes == 0
  }

  predicate Enabled(s: State, step: Step) {
    match step
    case Advance(c) =>
      && c in s.callers
      && (match s.callers[c].pc
          case Finished => false
          case LockExclusive => s.exclusive == None && s.shared == {}
          case LockShared => s.exclusive == None
          case _ => true)
    case Handle(p) => p in s.unhandled && s.unhandled[p] > 0
    case Merge(p) => p in s.unhandled && s.unhandled[p] > 1
  }

  function Apply(s: State, step: Step): State
    requires Enabled(s, step)
  {
    match step
    case Advance(c) =>
      var k := s.callers[c];
      State(s.callers[c := k.(pc := NextPc(s, k), pair := NextPair(s, k),
                              gen := if k.pc.MakeKey? then s.nextGen else k.gen, seen := NextSeen(s, k))],
            NextDisk(s, k),
            NextExclusive(s, c, k.pc),
            NextShared(s, c, k.pc),
            NextMemo(s, k),
            if ChangesFile(k.pc) then map p | p in s.unhandled :: s.unhandled[p] + 1 else s.unhandled,
            if k.pc.MakeKey? then s.nextGen + 1 else s.nextGen,
            if ChangesFile(k.pc) then s.changes + 1 else s.changes)
    case Handle(p) => s.(unhandled := s.unhandled[p := s.unhandled[p] - 1], memo := s.memo - {p})
    case Merge(p) => s.(unhandled := s.unhandled[p := s.unhandled[p] - 1])
  }

  /** The control flow of generate_keypair, _read_keypair_locked, _write_new_keypair and change_keypair. */
  function NextPc(s: State, k: Caller): Pc {
    match k.pc
    case Lookup => if k.process in s.memo then Finished else CheckPrivate
    case CheckPrivate => if s.disk.private.Missing? then LockExclusive else CheckPublic
    case CheckPublic => if s.disk.public.Missing? then LockExclusive else LockShared
    case LockExclusive => if k.call.Change? then MakeKey else RecheckPrivate
    case RecheckPrivate => if s.disk.private.Missing? then MakeKey else RecheckPublic
    case RecheckPublic => if s.disk.public.Missing? then MakeKey else DropExclusive
    case DropExclusive => LockShared
    case LockShared => ReadPrivate
    case ReadPrivate => ReadPublic
    case ReadPublic => CloseAfterRead
    case MakeKey => TruncatePrivate
    case TruncatePrivate => WritePrivate
    case WritePrivate => TruncatePublic
    case TruncatePublic => WritePublic
    case WritePublic => if k.call.Change? then ClearMemo else CloseAfterWrite
    case ClearMemo => CloseAfterWrite
    case CloseAfterWrite => if k.call.Change? then Finished else StoreMemo
    case CloseAfterRead => StoreMemo
    case StoreMemo => Finished
    case Finished => Finished
  }

  function NextPair(s: State, k: Caller): Pair {
    match k.pc
    case Lookup => if k.process in s.memo then s.memo[k.process] else k.pair
    case ReadPrivate => k.pair.(private := s.disk.private)
    case ReadPublic => k.pair.(public := s.disk.public)
    case WritePublic => Pair(Holds(k.gen), Holds(k.gen))
    case _ => k.pair
  }

  function NextSeen(s: State, k: Caller): nat {
    if k.pc.ReadPublic? then s.changes else if k.pc.WritePublic? then s.changes + 1 else k.seen
  }

  /** Opening for writing truncates; the text arrives with the write. */
  function NextDisk(s: State, k: Caller): Pair {
    match k.pc
    case TruncatePrivate => s.disk.(private := Empty)
    case WritePrivate => s.disk.(private := Holds(k.gen))
    case TruncatePublic => s.disk.(public := Empty)
    case WritePublic => s.disk.(public := Holds(k.gen))
    case _ => s.disk
  }

  /** These steps post an event to every watcher. */
  predicate ChangesFile(pc: Pc) {
    pc.TruncatePrivate? || pc.WritePrivate? || pc.TruncatePublic? || pc.WritePublic?
  }

  function NextExclusive(s: State, c: Id, pc: Pc): Option<Id> {
    match pc
    case LockExclusive => Some(c)
    case DropExclusive => None
    case CloseAfterWrite => None
    case _ => s.exclusive
  }

  function NextShared(s: State, c: Id, pc: Pc): set<Id> {
    match pc
    case LockShared => s.shared + {c}
    case CloseAfterRead => s.shared - {c}
    case _ => s.shared
  }

  /** functools.cache stores only after the function has returned, hence after the lock is gone. */
  function NextMemo(s: State, k: Caller): map<Process, Pair> {
    match k.pc
    case ClearMemo => s.memo - {k.process}
    case StoreMemo => s.memo[k.process := k.pair]
    case _ => s.memo
  }

  // ---------------------------------------------------------------- runs

  /** Every step of the run is enabled when it is taken. */
  ghost predicate Legal(s: State, steps: seq<Step>)
    decreases |steps|
  {
    steps == [] || (Enabled(s, steps[0]) && Legal(Apply(s, steps[0]), steps[1..]))
  }

  ghost function After(s: State, steps: seq<Step>): State
    requires Legal(s, steps)
    decreases |steps|
  {
    if steps == [] then s else After(Apply(s, steps[0]), steps[1..])
  }

  // ---------------------------------------------------------------- the invariant

  predicate InExclusive(pc: Pc) {
    || pc.RecheckPrivate? || pc.RecheckPublic? || pc.DropExclusive? || pc.MakeKey?
    || pc.TruncatePrivate? || pc.WritePrivate? || pc.TruncatePublic? || pc.WritePublic?
    || pc.ClearMemo? || pc.CloseAfterWrite?
  }

  predicate InShared(pc: Pc) {
    pc.ReadPrivate? || pc.ReadPublic? || pc.CloseAfterRead?
  }

  /** The pair is complete and waits to be returned. */
  predicate Complete(pc: Pc) {
    pc.ClearMemo? || pc.CloseAfterWrite? || pc.CloseAfterRead? || pc.StoreMemo? || pc.Finished?
  }

  /** Complete, but not yet returned. */
  predicate InGap(pc: Pc) {
    Complete(pc) && pc != Finished
  }

  /** From the first change of a file until the lock of the write is gone. */
  predicate Writing(pc: Pc) {
    ChangesFile(pc) || pc.ClearMemo? || pc.CloseAfterWrite?
  }

  predicate SawBoth(pc: Pc) {
    pc.DropExclusive? || pc.LockShared? || pc.ReadPrivate? || pc.ReadPublic? || pc.CloseAfterRead?
  }

  /** Both files of one generation. */
  function KeyOf(gen: nat): Pair {
    Pair(Holds(gen), Holds(gen))
  }

  predicate Coherent(pair: Pair, bound: nat) {
    pair.private.Holds? && pair.public == pair.private && pair.private.gen < bound
  }

  /** No write is under way. */
  predicate Settled(disk: Pair, bound: nat) {
    && disk.private != Empty
    && disk.public != Empty
    && (disk.private.Holds? ==> disk.private.gen < bound)
    && (disk.public.Holds? ==> disk.public.gen < bound)
    && (disk.private.Holds? && disk.public.Holds? ==> disk.private == disk.public)
  }

  ghost predicate LocksOk(s: State) {
    && (s.exclusive.Some? ==> s.exclusive.value in s.callers && s.shared == {})
    && s.shared <= s.callers.Keys
    && (forall c <- s.callers :: InExclusive(s.callers[c].pc) <==> s.exclusive == Some(c))
    && (forall c <- s.callers :: InShared(s.callers[c].pc) <==> c in s.shared)
  }

  /** What the exclusive holder, at the given point of its write, has made of the disk. */
  predicate WriteOk(disk: Pair, k: Caller, bound: nat) {
    match k.pc
    case WritePrivate => disk.private == Empty
    case TruncatePublic => disk.private == Holds(k.gen)
    case WritePublic => disk.private == Holds(k.gen) && disk.public == Empty
    case _ => Settled(disk, bound)
  }

  ghost predicate DiskOk(s: State) {
    match s.exclusive
    case None => Settled(s.disk, s.nextGen)
    case Some(c) => c in s.callers && WriteOk(s.disk, s.callers[c], s.nextGen)
  }

  /** Which points of the program a call of either kind can be at, and which with a key of its own. */
  predicate CallerShape(k: Caller, nextGen: nat) {
    && k.gen < nextGen
    && (k.gen != 0 ==>
          ChangesFile(k.pc) || k.pc.ClearMemo? || k.pc.CloseAfterWrite? || k.pc.StoreMemo? || k.pc.Finished?)
    && (k.call == Change ==>
          && !SawBoth(k.pc) && !k.pc.Lookup? && !k.pc.CheckPrivate? && !k.pc.CheckPublic?
          && !k.pc.RecheckPrivate? && !k.pc.RecheckPublic? && !k.pc.StoreMemo?)
    && (k.call == Generate ==> k.pc != ClearMemo)
    && (Writing(k.pc) ==> k.gen != 0 && k.gen == nextGen - 1)
    && (k.call == Change && k.pc.Finished? ==> k.gen != 0)
  }

  /** What a caller has found out about the disk and still holds. */
  predicate CallerSees(disk: Pair, k: Caller) {
    && ((k.pc.CheckPublic? || k.pc.RecheckPublic?) ==> disk.private != Missing)
    && (SawBoth(k.pc) ==> disk.private != Missing && disk.public != Missing)
    && (k.pc == ReadPublic ==> k.pair.private == disk.private)
    && ((k.pc.CloseAfterRead? || k.pc.ClearMemo? || k.pc.CloseAfterWrite?) ==> k.pair == disk)
  }

  predicate CallerPair(s: State, k: Caller) {
    && (Complete(k.pc) ==> Coherent(k.pair, s.nextGen))
    && (Complete(k.pc) && k.gen != 0 ==> k.pair == KeyOf(k.gen))
    && (InGap(k.pc) ==> GapOk(s, k))
  }

  ghost predicate CallerOk(s: State, k: Caller) {
    CallerShape(k, s.nextGen) && CallerSees(s.disk, k) && CallerPair(s, k)
  }

  /** Before its pair is stored: nothing changed since, or the private file has moved on for good. */
  predicate GapOk(s: State, k: Caller) {
    && k.seen <= s.changes
    && (k.seen == s.changes ==> k.pair == s.disk)
    && (k.seen != s.changes ==> k.pair.private != s.disk.private)
  }

  /** While a caller writes, nobody else has anything of its generation. */
  ghost predicate WriterFresh(s: State) {
    forall w <- s.callers, c <- s.callers ::
      w != c && Writing(s.callers[w].pc) && InGap(s.callers[c].pc) ==>
        s.callers[c].pair.private != Holds(s.callers[w].gen)
  }

  ghost predicate GenerationsOk(s: State) {
    && s.nextGen >= 1
    && (forall c <- s.callers, d <- s.callers ::
          c != d && s.callers[c].gen != 0 ==> s.callers[c].gen != s.callers[d].gen)
    && (forall g :: 1 <= g < s.nextGen ==> MadeBySomeone(s, g))
  }

  ghost predicate MadeBySomeone(s: State, g: nat) {
    exists w :: w in s.callers && s.callers[w].gen == g
  }

  ghost predicate MemoOk(s: State) {
    forall p <- s.memo :: Coherent(s.memo[p], s.nextGen)
  }

  ghost predicate Inv(s: State) {
    && LocksOk(s)
    && DiskOk(s)
    && (forall c <- s.callers :: CallerOk(s, s.callers[c]))
    && WriterFresh(s)
    && GenerationsOk(s)
    && MemoOk(s)
  }

  lemma InitInv(s: State)
    requires Init(s)
    ensures Inv(s)
  {
  }

  lemma HandleInv(s: State, p: Process)
    requires Inv(s) && Enabled(s, Handle(p))
    ensures Inv(Apply(s, Handle(p)))
  {
    var t := Apply(s, Handle(p));
    forall c <- t.callers ensures CallerOk(t, t.callers[c]) { assert CallerOk(s, s.callers[c]); }
    forall g | 1 <= g < t.nextGen ensures MadeBySomeone(t, g) { assert MadeBySomeone(s, g); }
  }

  lemma MergeInv(s: State, p: Process)
    requires Inv(s) && Enabled(s, Merge(p))
    ensures Inv(Apply(s, Merge(p)))
  {
    var t := Apply(s, Merge(p));
    forall c <- t.callers ensures CallerOk(t, t.callers[c]) { assert CallerOk(s, s.callers[c]); }
    forall g | 1 <= g < t.nextGen ensures MadeBySomeone(t, g) { assert MadeBySomeone(s, g); }
  }

  lemma AdvanceFrame(s: State, c: Id)
    requires Enabled(s, Advance(c))
    ensures Apply(s, Advance(c)).callers == s.callers[c := Apply(s, Advance(c)).callers[c]]
  {
  }

  lemma AdvanceLockHolders(s: State, c: Id)
    requires LocksOk(s) && Enabled(s, Advance(c))
    ensures var t := Apply(s, Advance(c));
            && (t.exclusive.Some? ==> t.exclusive.value in t.callers && t.shared == {})
            && t.shared <= t.callers.Keys
  {
  }

  lemma AdvanceLockOf(s: State, c: Id, d: Id)
    requires LocksOk(s) && Enabled(s, Advance(c)) && d in s.callers && CallerShape(s.callers[c], s.nextGen)
    ensures var t := Apply(s, Advance(c));
            && (InExclusive(t.callers[d].pc) <==> t.exclusive == Some(d))
            && (InShared(t.callers[d].pc) <==> d in t.shared)
  {
  }

  lemma AdvanceLocks(s: State, c: Id)
    requires LocksOk(s) && Enabled(s, Advance(c)) && CallerShape(s.callers[c], s.nextGen)
    ensures LocksOk(Apply(s, Advance(c)))
  {
    var t := Apply(s, Advance(c));
    AdvanceLockHolders(s, c);
    forall d <- t.callers
      ensures InExclusive(t.callers[d].pc) <==> t.exclusive == Some(d)
      ensures InShared(t.callers[d].pc) <==> d in t.shared
    {
      AdvanceLockOf(s, c, d);
    }
  }

  lemma AdvanceDisk(s: State, c: Id)
    requires LocksOk(s) && DiskOk(s) && Enabled(s, Advance(c))
    requires CallerOk(s, s.callers[c])
    ensures DiskOk(Apply(s, Advance(c)))
  {
  }

  /** What the step leaves of the caller that takes it. */
  lemma AdvanceSelf(s: State, c: Id)
    requires LocksOk(s) && DiskOk(s) && MemoOk(s) && Enabled(s, Advance(c))
    requires CallerOk(s, s.callers[c])
    ensures CallerOk(Apply(s, Advance(c)), Apply(s, Advance(c)).callers[c])
  {
    AdvanceSelfShape(s, c);
    AdvanceSelfSees(s, c);
    AdvanceSelfPair(s, c);
  }

  lemma AdvanceSelfShape(s: State, c: Id)
    requires Enabled(s, Advance(c)) && CallerShape(s.callers[c], s.nextGen)
    ensures CallerShape(Apply(s, Advance(c)).callers[c], Apply(s, Advance(c)).nextGen)
  {
  }

  lemma AdvanceSelfSees(s: State, c: Id)
    requires LocksOk(s) && DiskOk(s) && Enabled(s, Advance(c))
    requires CallerShape(s.callers[c], s.nextGen) && CallerSees(s.disk, s.callers[c])
    ensures CallerSees(Apply(s, Advance(c)).disk, Apply(s, Advance(c)).callers[c])
  {
  }

  lemma AdvanceSelfPair(s: State, c: Id)
    requires LocksOk(s) && DiskOk(s) && MemoOk(s) && Enabled(s, Advance(c))
    requires CallerOk(s, s.callers[c])
    ensures CallerPair(Apply(s, Advance(c)), Apply(s, Advance(c)).callers[c])
  {
  }

  /** What the step leaves of every other caller. */
  lemma AdvanceOther(s: State, c: Id, d: Id)
    requires LocksOk(s) && DiskOk(s) && WriterFresh(s) && Enabled(s, Advance(c))
    requires d in s.callers && d != c
    requires CallerOk(s, s.callers[c]) && CallerOk(s, s.callers[d])
    ensures CallerOk(Apply(s, Advance(c)), s.callers[d])
  {
  }

  lemma AdvanceWriterFresh(s: State, c: Id, w: Id, d: Id)
    requires LocksOk(s) && WriterFresh(s) && Enabled(s, Advance(c))
    requires w in s.callers && d in s.callers
    requires CallerOk(s, s.callers[c]) && CallerOk(s, s.callers[w]) && CallerOk(s, s.callers[d])
    ensures var t := Apply(s, Advance(c)).callers;
            w != d && Writing(t[w].pc) && InGap(t[d].pc) ==> t[d].pair.private != Holds(t[w].gen)
  {
    AdvanceFrame(s, c);
  }

  lemma AdvanceGenerations(s: State, c: Id)
    requires GenerationsOk(s) && MemoOk(s) && Enabled(s, Advance(c))
    requires CallerOk(s, s.callers[c])
    requires forall d <- s.callers :: s.callers[d].gen < s.nextGen
    ensures GenerationsOk(Apply(s, Advance(c)))
  {
    var k := s.callers[c];
    var t := Apply(s, Advance(c));
    AdvanceFrame(s, c);
    forall g | 1 <= g < t.nextGen ensures MadeBySomeone(t, g) {
      if g == s.nextGen {
        assert t.callers[c].gen == g;
      } else {
        assert MadeBySomeone(s, g);
        var w :| w in s.callers && s.callers[w].gen == g;
        assert t.callers[w].gen == g;
      }
    }
  }

  lemma AdvanceMemo(s: State, c: Id)
    requires MemoOk(s) && Enabled(s, Advance(c))
    requires CallerOk(s, s.callers[c])
    ensures MemoOk(Apply(s, Advance(c)))
  {
  }

  lemma StepInv(s: State, step: Step)
    requires Inv(s) && Enabled(s, step)
    ensures Inv(Apply(s, step))
  {
    match step
    case Handle(p) => HandleInv(s, p);
    case Merge(p) => MergeInv(s, p);
    case Advance(c) =>
      var t := Apply(s, Advance(c));
      assert CallerOk(s, s.callers[c]);
      AdvanceFrame(s, c);
      AdvanceLocks(s, c);
      AdvanceDisk(s, c);
      AdvanceGenerations(s, c);
      AdvanceMemo(s, c);
      AdvanceSelf(s, c);
      forall d <- t.callers ensures CallerOk(t, t.callers[d]) {
        if d != c { AdvanceOther(s, c, d); }
      }
      forall w <- t.callers, d <- t.callers | w != d && Writing(t.callers[w].pc) && InGap(t.callers[d].pc)
        ensures t.callers[d].pair.private != Holds(t.callers[w].gen)
      {
        AdvanceWriterFresh(s, c, w, d);
      }
  }

  lemma {:induction false} RunInv(s: State, steps: seq<Step>)
    requires Inv(s) && Legal(s, steps)
    ensures Inv(After(s, steps))
    decreases |steps|
  {
    if steps != [] {
      StepInv(s, steps[0]);
      RunInv(Apply(s, steps[0]), steps[1..]);
    }
  }

  // ---------------------------------------------------------------- coherence

  /** The pair is one generation, and exactly one call made it (none, when it was there at the start). */
  ghost predicate FromOneWrite(s: State, pair: Pair) {
    && pair.private.Holds?
    && pair.public == pair.private
    && (pair.private.gen == 0
        || exists w :: w in s.callers && s.callers[w].gen == pair.private.gen
                       && forall v <- s.callers :: s.callers[v].gen == pair.private.gen ==> v == w)
  }

  /** Whatever the interleaving, a returned pair is never half old and half new. */
  lemma CoherentResults(s: State, steps: seq<Step>, c: Id)
    requires Init(s) && Legal(s, steps)
    requires c in After(s, steps).callers && After(s, steps).callers[c].pc == Finished
    ensures FromOneWrite(After(s, steps), After(s, steps).callers[c].pair)
  {
    InitInv(s);
    RunInv(s, steps);
    var t := After(s, steps);
    assert CallerOk(t, t.callers[c]);
    var g := t.callers[c].pair.private.gen;
    if g != 0 {
      assert MadeBySomeone(t, g);
    }
  }

  // ---------------------------------------------------------------- double-checked creation

  const FIRST := Pair(Holds(1), Holds(1))

  /** Rotation is excluded and a file was missing at the start: the disk is on its way to one key. */
  ghost predicate OneKeyDisk(s: State) {
    && (forall c <- s.callers :: s.callers[c].call == Generate)
    && (forall c <- s.callers :: s.callers[c].pc.MakeKey? ==> s.disk.private.Missing? || s.disk.public.Missing?)
    && (if s.nextGen == 1 then s.disk.private.Missing? || s.disk.public.Missing?
        else s.nextGen == 2 && (WriteUnderWay(s) || s.disk == FIRST))
  }

  ghost predicate OneKeyPairs(s: State) {
    && (forall c <- s.callers :: Complete(s.callers[c].pc) ==> s.callers[c].pair == FIRST)
    && (forall p <- s.memo :: s.memo[p] == FIRST)
  }

  ghost predicate WriteUnderWay(s: State) {
    s.exclusive.Some? && s.exclusive.value in s.callers && ChangesFile(s.callers[s.exclusive.value].pc)
  }

  lemma OneKeyDiskStep(s: State, c: Id)
    requires LocksOk(s) && DiskOk(s) && OneKeyDisk(s) && Enabled(s, Advance(c))
    requires CallerOk(s, s.callers[c])
    ensures OneKeyDisk(Apply(s, Advance(c)))
  {
    var t := Apply(s, Advance(c));
    AdvanceFrame(s, c);
    if s.exclusive.Some? && s.exclusive.value != c {
      assert !InExclusive(s.callers[c].pc);
      assert t.disk == s.disk && t.exclusive == s.exclusive;
    }
  }

  lemma OneKeyPairsStep(s: State, c: Id)
    requires LocksOk(s) && OneKeyDisk(s) && OneKeyPairs(s) && Enabled(s, Advance(c))
    requires CallerOk(s, s.callers[c])
    ensures OneKeyPairs(Apply(s, Advance(c)))
  {
    AdvanceFrame(s, c);
  }

  lemma {:induction false} OneKeyRun(s: State, steps: seq<Step>)
    requires Inv(s) && OneKeyDisk(s) && OneKeyPairs(s) && Legal(s, steps)
    ensures OneKeyDisk(After(s, steps)) && OneKeyPairs(After(s, steps))
    decreases |steps|
  {
    if steps != [] {
      StepInv(s, steps[0]);
      if steps[0].Advance? {
        assert CallerOk(s, s.callers[steps[0].caller]);
        OneKeyDiskStep(s, steps[0].caller);
        OneKeyPairsStep(s, steps[0].caller);
      }
      OneKeyRun(Apply(s, steps[0]), steps[1..]);
    }
  }

  /** However many processes race, at most one call makes a key and every caller returns that one. */
  lemma SingleCreation(s: State, steps: seq<Step>)
    requires Init(s) && Legal(s, steps)
    requires s.disk.private == Missing || s.disk.public == Missing
    requires forall c <- s.callers :: s.callers[c].call == Generate
    ensures forall c <- After(s, steps).callers, d <- After(s, steps).callers ::
              After(s, steps).callers[c].gen != 0 && After(s, steps).callers[d].gen != 0 ==> c == d
    ensures forall c <- After(s, steps).callers ::
              After(s, steps).callers[c].pc == Finished ==> After(s, steps).callers[c].pair == FIRST
  {
    InitInv(s);
    RunInv(s, steps);
    OneKeyRun(s, steps);
    var t := After(s, steps);
    forall c <- t.callers ensures t.callers[c].gen <= 1 { assert CallerOk(t, t.callers[c]); }
  }

  // ---------------------------------------------------------------- memo freshness

  /** A process whose watcher has nothing left to handle has an empty memo or the pair on disk. */
  ghost predicate Fresh(s: State) {
    forall p <- s.memo :: p in s.unhandled && s.unhandled[p] == 0 ==> s.memo[p] == s.disk
  }

  /** The step stores a pair although a key file has changed since the pair was complete on disk
      and the watcher of that process has already handled every event. */
  ghost predicate LateStore(s: State, step: Step) {
    && step.Advance?
    && step.caller in s.callers
    && var k := s.callers[step.caller];
       k.pc == StoreMemo && k.seen != s.changes && k.process in s.unhandled && s.unhandled[k.process] == 0
  }

  /** Fresh at the start of the run and after each of its steps. */
  ghost predicate AlwaysFresh(s: State, steps: seq<Step>)
    requires Legal(s, steps)
    decreases |steps|
  {
    Fresh(s) && (steps == [] || AlwaysFresh(Apply(s, steps[0]), steps[1..]))
  }

  /** No step of the run is a late store. */
  ghost predicate NoLateStore(s: State, steps: seq<Step>)
    requires Legal(s, steps)
    decreases |steps|
  {
    steps == [] || (!LateStore(s, steps[0]) && NoLateStore(Apply(s, steps[0]), steps[1..]))
  }

  lemma FreshStep(s: State, step: Step)
    requires Inv(s) && Fresh(s) && Enabled(s, step)
    ensures Fresh(Apply(s, step)) <==> !LateStore(s, step)
  {
    var t := Apply(s, step);
    if step.Advance? {
      var k := s.callers[step.caller];
      assert CallerOk(s, k);
      if k.pc.StoreMemo? {
        assert t.memo[k.process] == k.pair;
      }
    }
  }

  lemma {:induction false} FreshRun(s: State, steps: seq<Step>)
    requires Inv(s) && Fresh(s) && Legal(s, steps)
    ensures AlwaysFresh(s, steps) <==> NoLateStore(s, steps)
    decreases |steps|
  {
    if steps != [] {
      StepInv(s, steps[0]);
      FreshStep(s, steps[0]);
      if Fresh(Apply(s, steps[0])) {
        FreshRun(Apply(s, steps[0]), steps[1..]);
      }
    }
  }

  /** Exactly the runs without a late store keep every memo fresh. */
  lemma FreshUnlessLateStore(s: State, steps: seq<Step>)
    requires Init(s) && Legal(s, steps)
    ensures AlwaysFresh(s, steps) <==> NoLateStore(s, steps)
  {
    InitInv(s);
    FreshRun(s, steps);
  }

  // ---------------------------------------------------------------- one event loop

  /** The caller has a pair that it is going to store. */
  predicate WillStore(k: Caller) {
    k.call.Generate? && InGap(k.pc)
  }

  /** The watcher does not act inside a call of its own process that is about to store: so it is when
      both are on one event loop, as generate_keypair does not give way. */
  ghost predicate OffTheGap(s: State, step: Step) {
    step.Handle? ==> forall c | c in s.callers && s.callers[c].process == step.process :: !WillStore(s.callers[c])
  }

  ghost predicate OneLoop(s: State, steps: seq<Step>)
    requires Legal(s, steps)
    decreases |steps|
  {
    steps == [] || (OffTheGap(s, steps[0]) && OneLoop(Apply(s, steps[0]), steps[1..]))
  }

  /** If a file has changed since the pair of a caller was complete, its watcher has an event to handle. */
  predicate Announced(s: State, k: Caller) {
    WillStore(k) && k.process in s.unhandled && s.changes != k.seen ==> s.unhandled[k.process] > 0
  }

  ghost predicate AllAnnounced(s: State) {
    forall c <- s.callers :: Announced(s, s.callers[c])
  }

  lemma AnnouncedSelf(s: State, c: Id)
    requires Enabled(s, Advance(c)) && CallerOk(s, s.callers[c]) && Announced(s, s.callers[c])
    ensures Announced(Apply(s, Advance(c)), Apply(s, Advance(c)).callers[c])
  {
  }

  lemma AnnouncedOther(s: State, c: Id, k: Caller)
    requires Enabled(s, Advance(c)) && Announced(s, k)
    ensures Announced(Apply(s, Advance(c)), k)
  {
  }

  lemma AnnouncedStep(s: State, step: Step)
    requires Inv(s) && Enabled(s, step) && AllAnnounced(s) && OffTheGap(s, step)
    ensures AllAnnounced(Apply(s, step)) && !LateStore(s, step)
  {
    var t := Apply(s, step);
    if step.Advance? {
      assert CallerOk(s, s.callers[step.caller]) && Announced(s, s.callers[step.caller]);
      AdvanceFrame(s, step.caller);
      AnnouncedSelf(s, step.caller);
      forall d <- t.callers ensures Announced(t, t.callers[d]) {
        if d != step.caller { AnnouncedOther(s, step.caller, s.callers[d]); }
      }
    } else {
      forall d <- t.callers ensures Announced(t, t.callers[d]) {
        assert Announced(s, s.callers[d]);
      }
    }
  }

  lemma {:induction false} AnnouncedRun(s: State, steps: seq<Step>)
    requires Inv(s) && AllAnnounced(s) && Legal(s, steps) && OneLoop(s, steps)
    ensures NoLateStore(s, steps)
    decreases |steps|
  {
    if steps != [] {
      StepInv(s, steps[0]);
      AnnouncedStep(s, steps[0]);
      AnnouncedRun(Apply(s, steps[0]), steps[1..]);
    }
  }

  /** With the calls and the watcher of each process on one event loop, every memo is always fresh,
      whoever rotates the keys and whenever. */
  lemma FreshOnOneLoop(s: State, steps: seq<Step>)
    requires Init(s) && Legal(s, steps) && OneLoop(s, steps)
    ensures AlwaysFresh(s, steps)
  {
    InitInv(s);
    AnnouncedRun(s, steps);
    FreshUnlessLateStore(s, steps);
  }

  // ---------------------------------------------------------------- a stale memo

  const STALE := Pair(Holds(0), Holds(0))

  function ReaderPc(i: nat): Pc {
    match i
    case 0 => Lookup
    case 1 => CheckPrivate
    case 2 => CheckPublic
    case 3 => LockShared
    case 4 => ReadPrivate
    case 5 => ReadPublic
    case 6 => CloseAfterRead
    case _ => StoreMemo
  }

  function WriterPc(i: nat): Pc {
    match i
    case 0 => LockExclusive
    case 1 => MakeKey
    case 2 => TruncatePrivate
    case 3 => WritePrivate
    case 4 => TruncatePublic
    case 5 => WritePublic
    case 6 => ClearMemo
    case 7 => CloseAfterWrite
    case _ => Finished
  }

  /** Caller 0 in process 0, which runs the watcher, reads as far as the point before its store ... */
  ghost function Reading(i: nat): State
    requires i <= 7
  {
    var pair := if i >= 6 then STALE else if i == 5 then Pair(Holds(0), Missing) else NOTHING;
    State(map[0 := Caller(Generate, 0, ReaderPc(i), pair, 0, 0), 1 := Caller(Change, 1, LockExclusive, NOTHING, 0, 0)],
          STALE, None, if 4 <= i <= 6 then {0} else {}, map[], map[0 := 0], 1, 0)
  }

  function RotatingDisk(i: nat): Pair {
    match i
    case 3 => Pair(Empty, Holds(0))
    case 4 => Pair(Holds(1), Holds(0))
    case 5 => Pair(Holds(1), Empty)
    case _ => if i < 3 then STALE else FIRST
  }

  /** ... then caller 1 in process 1 rotates the keys ... */
  ghost function Rotating(i: nat): State
    requires i <= 8
  {
    var changes := if i < 3 then 0 else if i < 6 then i - 2 else 4;
    State(map[0 := Caller(Generate, 0, StoreMemo, STALE, 0, 0),
              1 := Caller(Change, 1, WriterPc(i), if i >= 6 then FIRST else NOTHING, if i >= 2 then 1 else 0,
                          if i >= 6 then 4 else 0)],
          RotatingDisk(i), if 1 <= i <= 7 then Some(1) else None, {}, map[], map[0 := changes],
          if i >= 2 then 2 else 1, changes)
  }

  /** ... and the watcher handles the four events. */
  ghost function Handling(i: nat): State
    requires i <= 4
  {
    Rotating(8).(unhandled := map[0 := 4 - i])
  }

  ghost function RaceState(i: nat): State
    requires i <= 19
  {
    if i <= 7 then Reading(i) else if i <= 15 then Rotating(i - 7) else Handling(i - 15)
  }

  lemma ReadingStep(i: nat)
    requires i < 7
    ensures Enabled(Reading(i), Advance(0)) && Apply(Reading(i), Advance(0)) == Reading(i + 1)
  {
  }

  lemma RotatingStep(i: nat)
    requires i < 8
    ensures Enabled(Rotating(i), Advance(1)) && Apply(Rotating(i), Advance(1)) == Rotating(i + 1)
  {
  }

  lemma HandlingStep(i: nat)
    requires i < 4
    ensures Enabled(Handling(i), Handle(0)) && Apply(Handling(i), Handle(0)) == Handling(i + 1)
  {
  }

  lemma RaceStep(i: nat) returns (step: Step)
    requires i < 19
    ensures Enabled(RaceState(i), step) && Apply(RaceState(i), step) == RaceState(i + 1)
  {
    if i < 7 {
      step := Advance(0);
      ReadingStep(i);
    } else if i < 15 {
      step := Advance(1);
      RotatingStep(i - 7);
    } else {
      step := Handle(0);
      HandlingStep(i - 15);
    }
  }

  lemma Prepend(s: State, step: Step, rest: seq<Step>)
    requires Enabled(s, step) && Legal(Apply(s, step), rest)
    ensures Legal(s, [step] + rest) && After(s, [step] + rest) == After(Apply(s, step), rest)
  {
    assert ([step] + rest)[1..] == rest;
  }

  /** With every call returned and every event handled, process 0 has a pair that is not on disk. */
  ghost predicate StaleForGood(s: State) {
    && (forall c <- s.callers :: s.callers[c].pc == Finished)
    && s.unhandled == map[0 := 0]
    && 0 in s.memo && s.memo[0] != s.disk
  }

  lemma RaceEnd()
    ensures Enabled(RaceState(19), Advance(0)) && StaleForGood(Apply(RaceState(19), Advance(0)))
  {
  }

  lemma {:induction false} RaceTail(i: nat) returns (steps: seq<Step>)
    requires i <= 19
    ensures Legal(RaceState(i), steps) && StaleForGood(After(RaceState(i), steps))
    decreases 19 - i
  {
    if i == 19 {
      RaceEnd();
      Prepend(RaceState(i), Advance(0), []);
      steps := [Advance(0)] + [];
    } else {
      var step := RaceStep(i);
      var rest := RaceTail(i + 1);
      Prepend(RaceState(i), step, rest);
      steps := [step] + rest;
    }
  }

  lemma RaceInit()
    ensures Init(RaceState(0))
  {
  }

  /** Off the watcher's loop, on a thread of its own, the call can keep a pair for its process that
      another process has replaced. */
  lemma StaleMemo() returns (s: State, steps: seq<Step>)
    ensures Init(s) && Legal(s, steps) && StaleForGood(After(s, steps))
  {
    RaceInit();
    s := RaceState(0);
    steps := RaceTail(0);
  }

  // ---------------------------------------------------------------- after a rotation

  predicate NotOlder(file: File, g: nat) {
    file.Holds? ==> file.gen >= g
  }

  predicate AtLeast(pair: Pair, g: nat) {
    pair.private.Holds? && pair.private.gen >= g && pair.public == pair.private
  }

  predicate ReadsFor(k: Caller, p: Process) {
    k.call.Generate? && k.process == p
  }

  /** Since process p rotated to generation g, its memo, the disk and every call of its that was still
      under way then, or has begun since, have nothing older; done are the calls that had returned. */
  ghost predicate Rotated(s: State, p: Process, g: nat, done: set<Id>) {
    && g < s.nextGen && NotOlder(s.disk.private, g) && NotOlder(s.disk.public, g)
    && (p in s.memo ==> AtLeast(s.memo[p], g))
    && forall c <- s.callers :: RotatedCaller(s.callers[c], p, g, c in done)
  }

  predicate RotatedCaller(k: Caller, p: Process, g: nat, done: bool) {
    && (done ==> k.pc.Finished?)
    && (!done && ReadsFor(k, p) && Complete(k.pc) ==> AtLeast(k.pair, g))
  }

  lemma RotatedSelf(s: State, c: Id, p: Process, g: nat, done: set<Id>)
    requires Rotated(s, p, g, done) && Enabled(s, Advance(c)) && CallerOk(s, s.callers[c])
    requires var t := Apply(s, Advance(c)); CallerOk(t, t.callers[c])
    ensures RotatedCaller(Apply(s, Advance(c)).callers[c], p, g, c in done)
  {
    assert RotatedCaller(s.callers[c], p, g, c in done);
  }

  lemma RotatedShared(s: State, c: Id, p: Process, g: nat, done: set<Id>)
    requires Rotated(s, p, g, done) && Enabled(s, Advance(c)) && CallerOk(s, s.callers[c])
    ensures var t := Apply(s, Advance(c));
            && g < t.nextGen && NotOlder(t.disk.private, g) && NotOlder(t.disk.public, g)
            && (p in t.memo ==> AtLeast(t.memo[p], g))
  {
    assert RotatedCaller(s.callers[c], p, g, c in done);
  }

  lemma RotatedAdvance(s: State, c: Id, p: Process, g: nat, done: set<Id>)
    requires Rotated(s, p, g, done) && Enabled(s, Advance(c)) && CallerOk(s, s.callers[c])
    requires var t := Apply(s, Advance(c)); CallerOk(t, t.callers[c])
    ensures Rotated(Apply(s, Advance(c)), p, g, done)
  {
    var t := Apply(s, Advance(c));
    RotatedSelf(s, c, p, g, done);
    RotatedShared(s, c, p, g, done);
    AdvanceFrame(s, c);
    forall d <- t.callers ensures RotatedCaller(t.callers[d], p, g, d in done) {
      if d != c { assert RotatedCaller(s.callers[d], p, g, d in done); }
    }
  }

  lemma RotatedStep(s: State, step: Step, p: Process, g: nat, done: set<Id>)
    requires Inv(s) && Enabled(s, step) && Rotated(s, p, g, done)
    ensures Rotated(Apply(s, step), p, g, done)
  {
    if step.Advance? {
      StepInv(s, step);
      BothOk(s, step.caller);
      RotatedAdvance(s, step.caller, p, g, done);
    }
  }

  lemma BothOk(s: State, c: Id)
    requires Inv(s) && Enabled(s, Advance(c)) && Inv(Apply(s, Advance(c)))
    ensures CallerOk(s, s.callers[c]) && CallerOk(Apply(s, Advance(c)), Apply(s, Advance(c)).callers[c])
  {
  }

  lemma {:induction false} RotatedRun(s: State, steps: seq<Step>, p: Process, g: nat, done: set<Id>)
    requires Inv(s) && Legal(s, steps) && Rotated(s, p, g, done)
    ensures Rotated(After(s, steps), p, g, done)
    decreases |steps|
  {
    if steps != [] {
      StepInv(s, steps[0]);
      RotatedStep(s, steps[0], p, g, done);
      RotatedRun(Apply(s, steps[0]), steps[1..], p, g, done);
    }
  }

  /** The caller is about to clear the memo of its process after a rotation. */
  predicate AtClear(s: State, w: Id) {
    w in s.callers && s.callers[w].pc.ClearMemo?
  }

  /** No call of the process has a pair from before that it is just about to store. */
  ghost predicate NobodyStoring(s: State, p: Process) {
    forall c <- s.callers :: ReadsFor(s.callers[c], p) ==> !s.callers[c].pc.StoreMemo?
  }

  ghost function Returned(s: State): set<Id> {
    set c | c in s.callers && s.callers[c].pc.Finished?
  }

  /** The key that the rotation made is on disk. */
  lemma RotationKey(s: State, w: Id)
    requires Inv(s) && AtClear(s, w)
    ensures s.callers[w].gen >= 1 && s.callers[w].gen == s.nextGen - 1 && s.disk == KeyOf(s.callers[w].gen)
  {
    assert CallerOk(s, s.callers[w]);
  }

  lemma ClearedRotated(s: State, w: Id)
    requires Inv(s) && AtClear(s, w) && NobodyStoring(s, s.callers[w].process)
    ensures Rotated(Apply(s, Advance(w)), s.callers[w].process, s.callers[w].gen, Returned(s))
  {
    RotationKey(s, w);
    var t, p, g := Apply(s, Advance(w)), s.callers[w].process, s.callers[w].gen;
    AdvanceFrame(s, w);
    forall c <- t.callers ensures RotatedCaller(t.callers[c], p, g, c in Returned(s)) {
      assert CallerOk(s, s.callers[c]);
    }
  }

  /** In every run: once process p has rotated to generation g, its memo is never again older than g,
      and no call of generate_keypair in p that had not returned by then returns an older pair,
      whatever the watchers do or do not. */
  lemma RotationSticks(s: State, steps: seq<Step>, w: Id, more: seq<Step>)
    requires Init(s) && Legal(s, steps) && AtClear(After(s, steps), w)
    requires NobodyStoring(After(s, steps), After(s, steps).callers[w].process)
    requires Legal(Apply(After(s, steps), Advance(w)), more)
    ensures var cleared := After(s, steps);
            var k, t := cleared.callers[w], After(Apply(cleared, Advance(w)), more);
            && k.gen >= 1
            && (k.process in t.memo ==> AtLeast(t.memo[k.process], k.gen))
            && forall c <- t.callers | ReadsFor(t.callers[c], k.process) && c !in Returned(cleared) ::
                 t.callers[c].pc.Finished? ==> AtLeast(t.callers[c].pair, k.gen)
  {
    InitInv(s);
    RunInv(s, steps);
    var cleared := After(s, steps);
    var k := cleared.callers[w];
    RotationKey(cleared, w);
    ClearedRotated(cleared, w);
    StepInv(cleared, Advance(w));
    RotatedRun(Apply(cleared, Advance(w)), more, k.process, k.gen, Returned(cleared));
    var t := After(Apply(cleared, Advance(w)), more);
    forall c <- t.callers | ReadsFor(t.callers[c], k.process) && c !in Returned(cleared)
      ensures t.callers[c].pc.Finished? ==> AtLeast(t.callers[c].pair, k.gen)
    {
      assert RotatedCaller(t.callers[c], k.process, k.gen, c in Returned(cleared));
    }
  }

  /** A call that was about to store when the memo was cleared puts the old pair back. */
  lemma OldPairStored(s: State, w: Id, c: Id)
    requires Inv(s) && AtClear(s, w) && c in s.callers && ReadsFor(s.callers[c], s.callers[w].process)
    requires s.callers[c].pc.StoreMemo?
    ensures var t, p, g := Apply(s, Advance(w)), s.callers[w].process, s.callers[w].gen;
            && Enabled(t, Advance(c)) && p in Apply(t, Advance(c)).memo && !AtLeast(Apply(t, Advance(c)).memo[p], g)
  {
    RotationKey(s, w);
    assert c != w && CallerOk(s, s.callers[c]);
    assert s.callers[c].pair.private != Holds(s.callers[w].gen);
    AdvanceFrame(s, w);
  }

  /** However the run goes on, the memo stays at least as new as the rotation if and only if no call of
      the process was about to store when the memo was cleared. */
  lemma RotationSticksExactly(s: State, steps: seq<Step>, w: Id)
    requires Init(s) && Legal(s, steps) && AtClear(After(s, steps), w)
    ensures var cleared := After(s, steps);
            var k, t := cleared.callers[w], Apply(cleared, Advance(w));
            (forall more | Legal(t, more) ::
               k.process in After(t, more).memo ==> AtLeast(After(t, more).memo[k.process], k.gen))
            <==> NobodyStoring(cleared, k.process)
  {
    var cleared := After(s, steps);
    var k, t := cleared.callers[w], Apply(cleared, Advance(w));
    if NobodyStoring(cleared, k.process) {
      forall more | Legal(t, more)
        ensures k.process in After(t, more).memo ==> AtLeast(After(t, more).memo[k.process], k.gen)
      {
        RotationSticks(s, steps, w, more);
      }
    } else {
      InitInv(s);
      RunInv(s, steps);
      var step := OldPairBack(cleared, w);
      OneStep(t, step);
    }
  }

  lemma OldPairBack(s: State, w: Id) returns (step: Step)
    requires Inv(s) && AtClear(s, w) && !NobodyStoring(s, s.callers[w].process)
    ensures var t, p, g := Apply(s, Advance(w)), s.callers[w].process, s.callers[w].gen;
            && Enabled(t, step) && p in Apply(t, step).memo && !AtLeast(Apply(t, step).memo[p], g)
  {
    var c :| c in s.callers && ReadsFor(s.callers[c], s.callers[w].process) && s.callers[c].pc.StoreMemo?;
    OldPairStored(s, w, c);
    step := Advance(c);
  }

  lemma OneStep(s: State, step: Step)
    requires Enabled(s, step)
    ensures Legal(s, [step]) && After(s, [step]) == Apply(s, step)
  {
    assert [step][1..] == [];
  }

  // ---------------------------------------------------------------- what the memo is for

  /** The memo of the process is cleared, by its watcher or by a rotation of its own. */
  predicate Clears(s: State, step: Step, p: Process) {
    || step == Handle(p)
    || (step.Advance? && AtClear(s, step.caller) && s.callers[step.caller].process == p)
  }

  ghost predicate NeverCleared(s: State, steps: seq<Step>, p: Process)
    requires Legal(s, steps)
    decreases |steps|
  {
    steps == [] || (!Clears(s, steps[0], p) && NeverCleared(Apply(s, steps[0]), steps[1..], p))
  }

  /** The call has returned this pair. */
  predicate Gave(s: State, c: Id, p: Process, pair: Pair) {
    c in s.callers && ReadsFor(s.callers[c], p) && s.callers[c].pc.Finished? && s.callers[c].pair == pair
  }

  /** A call of the process has returned exactly if the memo is filled, and with what one returned. */
  ghost predicate Cached(s: State, p: Process) {
    && (forall c <- s.callers :: ReadsFor(s.callers[c], p) && s.callers[c].pc.Finished? ==> p in s.memo)
    && (p in s.memo ==> exists c :: Gave(s, c, p, s.memo[p]))
  }

  lemma CachedStep(s: State, step: Step, p: Process)
    requires Enabled(s, step) && Cached(s, p) && !Clears(s, step, p)
    requires step.Advance? ==> CallerShape(s.callers[step.caller], s.nextGen)
    ensures Cached(Apply(s, step), p)
  {
    var t := Apply(s, step);
    if step.Advance? {
      AdvanceFrame(s, step.caller);
      var k := s.callers[step.caller];
      if k.pc.StoreMemo? && k.process == p {
        assert Gave(t, step.caller, p, t.memo[p]);
      } else if p in t.memo {
        var c :| Gave(s, c, p, s.memo[p]);
        assert Gave(t, c, p, t.memo[p]);
      }
    } else if p in t.memo {
      var c :| Gave(s, c, p, s.memo[p]);
      assert Gave(t, c, p, t.memo[p]);
    }
  }

  lemma {:induction false} CachedRun(s: State, steps: seq<Step>, p: Process)
    requires Inv(s) && Legal(s, steps) && Cached(s, p) && NeverCleared(s, steps, p)
    ensures Cached(After(s, steps), p)
    decreases |steps|
  {
    if steps != [] {
      if steps[0].Advance? {
        assert CallerOk(s, s.callers[steps[0].caller]);
      }
      StepInv(s, steps[0]);
      CachedStep(s, steps[0], p);
      CachedRun(Apply(s, steps[0]), steps[1..], p);
    }
  }

  /** Until the memo of a process is cleared, once one of its calls has returned every further one
      returns in a single step what one of them returned, without a look at the disk. */
  lemma CachedUntilCleared(s: State, steps: seq<Step>, p: Process, c: Id, d: Id) returns (e: Id)
    requires Init(s) && Legal(s, steps) && NeverCleared(s, steps, p)
    requires var t := After(s, steps);
             && c in t.callers && ReadsFor(t.callers[c], p) && t.callers[c].pc.Finished?
             && d in t.callers && ReadsFor(t.callers[d], p) && t.callers[d].pc.Lookup?
    ensures var t := After(s, steps);
            && e in t.callers && Gave(t, e, p, t.callers[e].pair)
            && Apply(t, Advance(d)).callers[d] == t.callers[d].(pc := Finished, pair := t.callers[e].pair)
  {
    InitInv(s);
    CachedRun(s, steps, p);
    var t := After(s, steps);
    assert p in t.memo;
    e :| Gave(t, e, p, t.memo[p]);
  }

  // ---------------------------------------------------------------- keys that are there are kept

  /** The points a call can be at that finds both files. */
  predicate OnlyReads(pc: Pc) {
    || pc.Lookup? || pc.CheckPrivate? || pc.CheckPublic? || InShared(pc) || pc.LockShared?
    || pc.StoreMemo? || pc.Finished?
  }

  ghost predicate Quiet(s: State) {
    && s.disk == KeyOf(0) && s.nextGen == 1 && s.changes == 0 && s.exclusive == None
    && (forall c <- s.callers :: s.callers[c].call.Generate? && OnlyReads(s.callers[c].pc))
  }

  lemma {:induction false} QuietRun(s: State, steps: seq<Step>)
    requires Inv(s) && Quiet(s) && Legal(s, steps)
    ensures Inv(After(s, steps)) && Quiet(After(s, steps))
    decreases |steps|
  {
    if steps != [] {
      StepInv(s, steps[0]);
      QuietStep(s, steps[0]);
      QuietRun(Apply(s, steps[0]), steps[1..]);
    }
  }

  lemma QuietStep(s: State, step: Step)
    requires Quiet(s) && Enabled(s, step)
    ensures Quiet(Apply(s, step))
  {
  }

  /** If both files are there and nobody rotates, no run changes them, makes a key or takes the
      exclusive lock, and every call returns the key that was there. */
  lemma KeysKept(s: State, steps: seq<Step>)
    requires Init(s) && Legal(s, steps) && s.disk == KeyOf(0)
    requires forall c <- s.callers :: s.callers[c].call == Generate
    ensures var t := After(s, steps);
            && t.disk == KeyOf(0) && t.nextGen == 1 && t.changes == 0 && t.exclusive == None
            && forall c <- t.callers :: t.callers[c].pc.Finished? ==> t.callers[c].pair == KeyOf(0)
  {
    InitInv(s);
    QuietRun(s, steps);
    var t := After(s, steps);
    forall c <- t.callers ensures t.callers[c].pc.Finished? ==> t.callers[c].pair == KeyOf(0) {
      assert CallerOk(t, t.callers[c]);
    }
  }

  /** A rotation returns the key it made, which is no other call's. */
  lemma RotationReturns(s: State, steps: seq<Step>, c: Id)
    requires Init(s) && Legal(s, steps)
    requires var t := After(s, steps); c in t.callers && t.callers[c].call.Change? && t.callers[c].pc.Finished?
    ensures var t := After(s, steps);
            && t.callers[c].gen >= 1 && t.callers[c].pair == KeyOf(t.callers[c].gen)
            && forall d <- t.callers :: t.callers[d].gen == t.callers[c].gen ==> d == c
  {
    InitInv(s);
    RunInv(s, steps);
    assert CallerOk(After(s, steps), After(s, steps).callers[c]);
  }

  // ---------------------------------------------------------------- progress

  /** Steps a caller still has ahead of it, at most. */
  function Remaining(pc: Pc): nat {
    match pc
    case Lookup => 15
    case CheckPrivate => 14
    case CheckPublic => 13
    case LockExclusive => 12
    case RecheckPrivate => 11
    case RecheckPublic => 10
    case DropExclusive => 7
    case LockShared => 6
    case ReadPrivate => 5
    case ReadPublic => 4
    case MakeKey => 9
    case TruncatePrivate => 8
    case WritePrivate => 7
    case TruncatePublic => 6
    case WritePublic => 5
    case ClearMemo => 3
    case CloseAfterWrite => 2
    case CloseAfterRead => 2
    case StoreMemo => 1
    case Finished => 0
  }

  lemma StepsRunOut(s: State, k: Caller)
    requires k.pc != Finished
    ensures Remaining(NextPc(s, k)) < Remaining(k.pc)
  {
  }

  /** How many steps of one caller are in a run. */
  function StepsOf(steps: seq<Step>, c: Id): nat {
    if steps == [] then 0 else (if steps[0] == Advance(c) then 1 else 0) + StepsOf(steps[1..], c)
  }

  /** In any run, however long it waits for the others, a call takes no more than fifteen steps. */
  lemma {:induction false} CallsEnd(s: State, steps: seq<Step>, c: Id)
    requires Legal(s, steps) && c in s.callers
    ensures c in After(s, steps).callers
    ensures StepsOf(steps, c) <= Remaining(s.callers[c].pc) - Remaining(After(s, steps).callers[c].pc) <= 15
    decreases |steps|
  {
    if steps != [] {
      if steps[0] == Advance(c) {
        StepsRunOut(s, s.callers[c]);
      }
      CallsEnd(Apply(s, steps[0]), steps[1..], c);
    }
  }

  lemma Unblocked(s: State, c: Id)
    requires LocksOk(s)
    requires c in s.callers && s.callers[c].pc != Finished
    requires s.exclusive == Some(c) || c in s.shared || (s.exclusive == None && s.shared == {})
    ensures Enabled(s, Advance(c))
  {
  }

  lemma SomeoneUnblocked(s: State, c: Id) returns (d: Id)
    requires LocksOk(s) && c in s.callers && s.callers[c].pc != Finished
    ensures Enabled(s, Advance(d))
  {
    d := c;
    if s.exclusive.Some? {
      d := s.exclusive.value;
    } else if s.shared != {} {
      d :| d in s.shared;
    }
    Unblocked(s, d);
  }

  /** The locks never deadlock: while a call is unfinished some call can take a step. As no call
      takes more than fifteen, going on stepping the calls returns them all. */
  lemma NoDeadlock(s: State, steps: seq<Step>, c: Id) returns (d: Id)
    requires Init(s) && Legal(s, steps)
    requires c in After(s, steps).callers && After(s, steps).callers[c].pc != Finished
    ensures Enabled(After(s, steps), Advance(d))
  {
    InitInv(s);
    RunInv(s, steps);
    d := SomeoneUnblocked(After(s, steps), c);
  }
}
