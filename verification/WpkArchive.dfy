/**
  The merged archive inside a WPK package: the packer writes "!size path" headers and raw contents
  for every file under its sources, and the agent splits the stream again with fgets, atol, strchr
  and fread. Paths are the bytes the packer writes, so they hold no NUL.
*/
module WpkArchive {
  import opened Common

  type byte = x: int | 0 <= x < 256 witness 0
  type bytes = seq<byte>

  const NUL: byte := 0
  const NEWLINE: byte := 10
  const SPACE: byte := 32
  const BANG: byte := 33
  const HASH: byte := 35
  const DOT: byte := 46
  const SLASH: byte := 47

  /** The greatest long and the number of values of size_t: Windows agents have a long of 32 bits. */
  datatype Abi = Abi(longMax: nat, sizes: nat)
  type Platform = p: Abi |
    || p == Abi(0x7FFF_FFFF, 0x1_0000_0000)
    || p == Abi(0x7FFF_FFFF, 0x1_0000_0000_0000_0000)
    || p == Abi(0x7FFF_FFFF_FFFF_FFFF, 0x1_0000_0000_0000_0000)
    witness Abi(0x7FFF_FFFF, 0x1_0000_0000)

  /** Whichever the agent runs on. */
  const PLATFORM: Platform
  const LONG_MAX := PLATFORM.longMax

  /** fgets(buf, 2048, f) and snprintf(name, 2048, ...) leave room for the NUL. */
  const LINE: nat := 2047
  const CHUNK: nat := 2048

  datatype Record = Record(path: bytes, content: bytes)

  // ---------------------------------------------------------------- packing

  /** What stands at a path: a file, a directory as listdir orders it, or something else. */
  datatype Node = File(content: bytes) | Dir(entries: seq<Entry>) | Special
  datatype Entry = Entry(name: bytes, node: Node)

  function Decimal(n: nat): (r: bytes)
    ensures |r| > 0 && (r[0] == 48 ==> r == [48])
    ensures forall i | 0 <= i < |r| :: 48 <= r[i] <= 57
  {
    if n < 10 then [48 + n] else Decimal(n / 10) + [48 + n % 10]
  }

  function Header(size: nat, path: bytes): bytes {
    [BANG] + Decimal(size) + [SPACE] + path + [NEWLINE]
  }

  function Frame(r: Record): bytes {
    Header(|r.content|, r.path) + r.content
  }

  function Encode(records: seq<Record>): bytes {
    if records == [] then [] else Frame(records[0]) + Encode(records[1..])
  }

  /** The files found below a path, up to the first entry that is neither file nor directory. */
  datatype Walk = Walk(found: seq<Record>, complete: bool)

  function WalkNode(path: bytes, node: Node): Walk
    decreases node, 0
  {
    match node
    case File(content) => Walk([Record(path, content)], true)
    case Dir(entries) => WalkEntries(path, entries)
    case Special => Walk([], false)
  }

  function WalkEntries(path: bytes, entries: seq<Entry>): Walk
    decreases entries, 1
  {
    if entries == [] then Walk([], true)
    else
      var first := WalkNode(path + [SLASH] + entries[0].name, entries[0].node);
      if !first.complete then first
      else
        var rest := WalkEntries(path, entries[1..]);
        Walk(first.found + rest.found, rest.complete)
  }

  function WalkSources(sources: seq<Entry>): Walk {
    if sources == [] then Walk([], true)
    else
      var before, last := WalkSources(sources[..|sources| - 1]), sources[|sources| - 1];
      if !before.complete then before
      else
        var w := WalkNode(last.name, last.node);
        Walk(before.found + w.found, w.complete)
  }

  lemma {:induction false} WalkStops(sources: seq<Entry>, i: nat)
    requires i <= |sources| && !WalkSources(sources[..i]).complete
    ensures WalkSources(sources) == WalkSources(sources[..i])
  {
    if i < |sources| {
      assert sources[..|sources| - 1][..i] == sources[..i];
      WalkStops(sources[..|sources| - 1], i);
    } else {
      assert sources[..i] == sources;
    }
  }

  // ---------------------------------------------------------------- what a walk finds

  /** A place below a node: which entry of the directory, which entry of that one, and so on. */
  type Place = seq<nat>

  function NodeAt(node: Node, at: Place): Option<Node> {
    if at == [] then Some(node)
    else if node.Dir? && at[0] < |node.entries| then NodeAt(node.entries[at[0]].node, at[1..])
    else None
  }

  /** The names on the way to a place. */
  function NamesAt(node: Node, at: Place): seq<bytes>
    requires NodeAt(node, at).Some?
    decreases |at|
  {
    if at == [] then [] else [node.entries[at[0]].name] + NamesAt(node.entries[at[0]].node, at[1..])
  }

  function Slashed(path: bytes, names: seq<bytes>): bytes {
    if names == [] then path else Slashed(path, names[..|names| - 1]) + [SLASH] + names[|names| - 1]
  }

  predicate IsFile(node: Node, at: Place) {
    NodeAt(node, at).Some? && NodeAt(node, at).value.File?
  }

  predicate IsSpecial(node: Node, at: Place) {
    NodeAt(node, at) == Some(Special)
  }

  /** The record of the file at a place: the path is the source and the names, joined by "/". */
  predicate Records(path: bytes, node: Node, at: Place, r: Record) {
    && IsFile(node, at)
    && r == Record(Slashed(path, NamesAt(node, at)), NodeAt(node, at).value.content)
  }

  /** One place comes before another in the order of the listings. */
  predicate Earlier(a: Place, b: Place) {
    a != [] && b != [] && (a[0] < b[0] || (a[0] == b[0] && Earlier(a[1..], b[1..])))
  }

  /** Nothing that is neither file nor directory comes before. */
  ghost predicate NothingSpecialBefore(node: Node, at: Place) {
    forall sp | IsSpecial(node, sp) :: Earlier(at, sp)
  }

  /** These are the records of the files below the node, each once and in the order of the listings,
      up to the first entry that is neither file nor directory. */
  ghost predicate Finds(path: bytes, node: Node, found: seq<Record>, places: seq<Place>) {
    && |found| == |places|
    && (forall i | 0 <= i < |places| :: Records(path, node, places[i], found[i]))
    && (forall i, j | 0 <= i < j < |places| :: Earlier(places[i], places[j]))
    && (forall at :: at in places <==> IsFile(node, at) && NothingSpecialBefore(node, at))
  }

  ghost predicate AllPlain(node: Node) {
    forall at :: !IsSpecial(node, at)
  }

  lemma {:induction false} SlashedFirst(path: bytes, name: bytes, names: seq<bytes>)
    ensures Slashed(path, [name] + names) == Slashed(path + [SLASH] + name, names)
  {
    var all := [name] + names;
    if names == [] {
      assert all[..0] == [] && all[0] == name;
    } else {
      var n := |names| - 1;
      assert all[..|all| - 1] == [name] + names[..n] && all[|all| - 1] == names[n];
      SlashedFirst(path, name, names[..n]);
    }
  }

  /** The places below the first entry, and those below the others, as places of the directory. */
  function Below(places: seq<Place>): (r: seq<Place>)
    ensures |r| == |places| && forall i | 0 <= i < |places| :: r[i] == [0] + places[i]
  {
    seq(|places|, i requires 0 <= i < |places| => [0] + places[i])
  }

  predicate Further(places: seq<Place>) {
    forall i | 0 <= i < |places| :: places[i] != []
  }

  function Shifted(places: seq<Place>): (r: seq<Place>)
    requires Further(places)
    ensures |r| == |places| && forall i | 0 <= i < |places| :: r[i] == [places[i][0] + 1] + places[i][1..]
  {
    seq(|places|, i requires 0 <= i < |places| => [places[i][0] + 1] + places[i][1..])
  }

  lemma FirstEntry(entries: seq<Entry>, at: Place)
    requires entries != []
    ensures NodeAt(Dir(entries), [0] + at) == NodeAt(entries[0].node, at)
  {
    assert ([0] + at)[1..] == at;
  }

  lemma OtherEntry(entries: seq<Entry>, at: Place)
    requires entries != [] && at != []
    ensures NodeAt(Dir(entries), [at[0] + 1] + at[1..]) == NodeAt(Dir(entries[1..]), at)
    ensures NodeAt(Dir(entries[1..]), at).Some? ==>
              NamesAt(Dir(entries), [at[0] + 1] + at[1..]) == NamesAt(Dir(entries[1..]), at)
  {
    var b := [at[0] + 1] + at[1..];
    assert b[1..] == at[1..];
    if at[0] < |entries| - 1 {
      assert entries[1..][at[0]] == entries[at[0] + 1];
    }
  }

  lemma FirstRecords(path: bytes, entries: seq<Entry>, at: Place, r: Record)
    requires entries != [] && Records(path + [SLASH] + entries[0].name, entries[0].node, at, r)
    ensures Records(path, Dir(entries), [0] + at, r)
  {
    FirstEntry(entries, at);
    var names := NamesAt(entries[0].node, at);
    assert ([0] + at)[1..] == at;
    assert NamesAt(Dir(entries), [0] + at) == [entries[0].name] + names;
    SlashedFirst(path, entries[0].name, names);
  }

  lemma OtherRecords(path: bytes, entries: seq<Entry>, at: Place, r: Record)
    requires entries != [] && at != [] && Records(path, Dir(entries[1..]), at, r)
    ensures Records(path, Dir(entries), [at[0] + 1] + at[1..], r)
  {
    OtherEntry(entries, at);
  }

  /** A file to be found at this place. */
  ghost predicate Due(node: Node, at: Place) {
    IsFile(node, at) && NothingSpecialBefore(node, at)
  }

  lemma DueInFirst(entries: seq<Entry>, at: Place)
    requires entries != []
    ensures Due(Dir(entries), [0] + at) <==> Due(entries[0].node, at)
  {
    var dir, first := Dir(entries), entries[0].node;
    FirstEntry(entries, at);
    assert ([0] + at)[1..] == at;
    if Due(first, at) {
      forall sp | IsSpecial(dir, sp) ensures Earlier([0] + at, sp) {
        if sp[0] == 0 {
          assert sp == [0] + sp[1..];
          FirstEntry(entries, sp[1..]);
        }
      }
    }
    if Due(dir, [0] + at) {
      forall sp | IsSpecial(first, sp) ensures Earlier(at, sp) {
        FirstEntry(entries, sp);
        assert IsSpecial(dir, [0] + sp);
        assert ([0] + sp)[1..] == sp;
      }
    }
  }

  function Shift(at: Place): Place
    requires at != []
  {
    [at[0] + 1] + at[1..]
  }

  lemma ShiftEarlier(a: Place, b: Place)
    requires a != [] && b != []
    ensures Earlier(Shift(a), Shift(b)) <==> Earlier(a, b)
  {
    assert Shift(a)[1..] == a[1..] && Shift(b)[1..] == b[1..];
  }

  lemma ShiftBack(at: Place) returns (b: Place)
    requires at != [] && at[0] > 0
    ensures b != [] && Shift(b) == at
  {
    b := [at[0] - 1] + at[1..];
    assert b[1..] == at[1..];
  }

  lemma DueInOther(entries: seq<Entry>, at: Place)
    requires entries != [] && at != []
    ensures Due(Dir(entries), Shift(at)) <==> AllPlain(entries[0].node) && Due(Dir(entries[1..]), at)
  {
    var dir, rest := Dir(entries), Dir(entries[1..]);
    OtherEntry(entries, at);
    if AllPlain(entries[0].node) && Due(rest, at) {
      forall sp | IsSpecial(dir, sp) ensures Earlier(Shift(at), sp) {
        SpecialBelow(entries, sp);
        var b := ShiftBack(sp);
        OtherEntry(entries, b);
        ShiftEarlier(at, b);
      }
    }
    if Due(dir, Shift(at)) {
      forall sp ensures !IsSpecial(entries[0].node, sp) {
        FirstEntry(entries, sp);
        assert !Earlier(Shift(at), [0] + sp);
      }
      forall sp | IsSpecial(rest, sp) ensures Earlier(at, sp) {
        OtherEntry(entries, sp);
        assert IsSpecial(dir, Shift(sp));
        ShiftEarlier(at, sp);
      }
    }
  }

  lemma SpecialBelow(entries: seq<Entry>, sp: Place)
    requires entries != [] && IsSpecial(Dir(entries), sp)
    ensures sp != [] && (sp[0] == 0 ==> IsSpecial(entries[0].node, sp[1..]))
  {
    if sp[0] == 0 {
      assert sp == [0] + sp[1..];
      FirstEntry(entries, sp[1..]);
    }
  }

  lemma PlainEntries(entries: seq<Entry>)
    requires entries != []
    ensures AllPlain(Dir(entries)) <==> AllPlain(entries[0].node) && AllPlain(Dir(entries[1..]))
  {
    if AllPlain(Dir(entries)) {
      forall at ensures !IsSpecial(entries[0].node, at) {
        FirstEntry(entries, at);
        assert !IsSpecial(Dir(entries), [0] + at);
      }
      forall at ensures !IsSpecial(Dir(entries[1..]), at) {
        if at != [] {
          OtherEntry(entries, at);
          assert !IsSpecial(Dir(entries), Shift(at));
        }
      }
    } else if AllPlain(entries[0].node) {
      var sp :| IsSpecial(Dir(entries), sp);
      SpecialBelow(entries, sp);
      var b := ShiftBack(sp);
      OtherEntry(entries, b);
      assert IsSpecial(Dir(entries[1..]), b);
    }
  }

  /** The places of a directory: those below its first entry, then the others. */
  lemma FindsEntries(path: bytes, entries: seq<Entry>, first: seq<Record>, ps: seq<Place>, rest: seq<Record>,
                     rs: seq<Place>)
    requires entries != []
    requires Finds(path + [SLASH] + entries[0].name, entries[0].node, first, ps)
    requires if AllPlain(entries[0].node) then Finds(path, Dir(entries[1..]), rest, rs) else rest == [] && rs == []
    ensures Further(rs) && Finds(path, Dir(entries), first + rest, Below(ps) + Shifted(rs))
  {
    forall i | 0 <= i < |rs| ensures rs[i] != [] { assert Records(path, Dir(entries[1..]), rs[i], rest[i]); }
    var found, places := first + rest, Below(ps) + Shifted(rs);
    forall i | 0 <= i < |places| ensures Records(path, Dir(entries), places[i], found[i]) {
      if i < |ps| {
        FirstRecords(path, entries, ps[i], first[i]);
      } else {
        OtherRecords(path, entries, rs[i - |ps|], rest[i - |ps|]);
      }
    }
    forall i, j | 0 <= i < j < |places| ensures Earlier(places[i], places[j]) {
      PlacesEarlier(ps, rs, i, j);
    }
    forall at ensures at in places <==> Due(Dir(entries), at) {
      PlacesDue(entries, ps, rs, at);
    }
  }

  lemma PlacesEarlier(ps: seq<Place>, rs: seq<Place>, i: nat, j: nat)
    requires Further(rs) && i < j < |ps| + |rs|
    requires forall i, j | 0 <= i < j < |ps| :: Earlier(ps[i], ps[j])
    requires forall i, j | 0 <= i < j < |rs| :: Earlier(rs[i], rs[j])
    ensures var places := Below(ps) + Shifted(rs); Earlier(places[i], places[j])
  {
    if j < |ps| {
      assert ([0] + ps[i])[1..] == ps[i] && ([0] + ps[j])[1..] == ps[j];
    } else if i >= |ps| {
      ShiftEarlier(rs[i - |ps|], rs[j - |ps|]);
    }
  }

  lemma PlacesDue(entries: seq<Entry>, ps: seq<Place>, rs: seq<Place>, at: Place)
    requires entries != [] && Further(rs)
    requires forall at :: at in ps <==> Due(entries[0].node, at)
    requires forall at :: at in rs <==> AllPlain(entries[0].node) && Due(Dir(entries[1..]), at)
    ensures at in Below(ps) + Shifted(rs) <==> Due(Dir(entries), at)
  {
    if at == [] {
    } else if at[0] == 0 {
      var b := at[1..];
      assert at == [0] + b;
      DueInFirst(entries, b);
      InBelow(ps, b);
    } else {
      var b := ShiftBack(at);
      DueInOther(entries, b);
      InShifted(rs, b);
    }
  }

  lemma InBelow(ps: seq<Place>, b: Place)
    ensures [0] + b in Below(ps) <==> b in ps
  {
    if [0] + b in Below(ps) {
      var i :| 0 <= i < |ps| && Below(ps)[i] == [0] + b;
      assert ps[i] == ([0] + ps[i])[1..] == ([0] + b)[1..] == b;
    }
    if b in ps {
      var i :| 0 <= i < |ps| && ps[i] == b;
      assert Below(ps)[i] == [0] + b;
    }
  }

  lemma InShifted(rs: seq<Place>, b: Place)
    requires Further(rs) && b != []
    ensures Shift(b) in Shifted(rs) <==> b in rs
  {
    if Shift(b) in Shifted(rs) {
      var i :| 0 <= i < |rs| && Shifted(rs)[i] == Shift(b);
      SameShift(rs[i], b);
    }
    if b in rs {
      var i :| 0 <= i < |rs| && rs[i] == b;
      assert Shifted(rs)[i] == Shift(b);
    }
  }

  lemma SameShift(a: Place, b: Place)
    requires a != [] && b != [] && Shift(a) == Shift(b)
    ensures a == b
  {
    assert a[1..] == Shift(a)[1..] == Shift(b)[1..] == b[1..];
    assert a == [a[0]] + a[1..] && b == [b[0]] + b[1..];
  }

  /** A walk finds exactly the files, each at its own path, in the order of the listings, up to the
      first entry that is neither file nor directory; it completes if and only if there is none. */
  lemma {:induction false} WalkFinds(path: bytes, node: Node) returns (places: seq<Place>)
    ensures Finds(path, node, WalkNode(path, node).found, places)
    ensures WalkNode(path, node).complete <==> AllPlain(node)
    decreases node, 0
  {
    match node
    case File(content) =>
      places := [[]];
    case Dir(entries) =>
      places := EntriesFind(path, entries);
    case Special =>
      places := [];
      assert IsSpecial(node, []);
  }

  lemma {:induction false} EntriesFind(path: bytes, entries: seq<Entry>) returns (places: seq<Place>)
    ensures Finds(path, Dir(entries), WalkEntries(path, entries).found, places)
    ensures WalkEntries(path, entries).complete <==> AllPlain(Dir(entries))
    decreases entries, 1
  {
    if entries == [] {
      places := [];
    } else {
      var below := path + [SLASH] + entries[0].name;
      var first := WalkNode(below, entries[0].node);
      var ps := WalkFinds(below, entries[0].node);
      PlainEntries(entries);
      if first.complete {
        var rs := EntriesFind(path, entries[1..]);
        FindsEntries(path, entries, first.found, ps, WalkEntries(path, entries[1..]).found, rs);
        places := Below(ps) + Shifted(rs);
      } else {
        FindsEntries(path, entries, first.found, ps, [], []);
        places := Below(ps) + Shifted([]);
        assert first.found + [] == first.found;
      }
    }
  }

  /** The places of a list of sources: which source, and the place below it. */
  ghost predicate SourceDue(sources: seq<Entry>, at: Place) {
    && at != [] && at[0] < |sources| && Due(sources[at[0]].node, at[1..])
    && forall i | 0 <= i < at[0] :: AllPlain(sources[i].node)
  }

  /** These are the records of the files below the sources, each once and in order, up to the first
      entry that is neither file nor directory; a path starts with its source. */
  ghost predicate FindsAll(sources: seq<Entry>, found: seq<Record>, places: seq<Place>) {
    && |found| == |places|
    && (forall i | 0 <= i < |places| ::
          var at := places[i];
          at != [] && at[0] < |sources| && Records(sources[at[0]].name, sources[at[0]].node, at[1..], found[i]))
    && (forall i, j | 0 <= i < j < |places| :: Earlier(places[i], places[j]))
    && (forall at :: at in places <==> SourceDue(sources, at))
  }

  function Under(n: nat, places: seq<Place>): (r: seq<Place>)
    ensures |r| == |places| && forall i | 0 <= i < |places| :: r[i] == [n] + places[i]
  {
    seq(|places|, i requires 0 <= i < |places| => [n] + places[i])
  }

  lemma InUnder(n: nat, ps: seq<Place>, at: Place)
    ensures at in Under(n, ps) <==> at != [] && at[0] == n && at[1..] in ps
  {
    if at in Under(n, ps) {
      var i :| 0 <= i < |ps| && Under(n, ps)[i] == at;
      assert ps[i] == ([n] + ps[i])[1..];
    }
    if at != [] && at[0] == n && at[1..] in ps {
      var i :| 0 <= i < |ps| && ps[i] == at[1..];
      assert Under(n, ps)[i] == [n] + at[1..] == at;
    }
  }

  lemma DueInLast(sources: seq<Entry>, at: Place)
    requires sources != []
    ensures var n := |sources| - 1;
            SourceDue(sources, at) <==>
            || SourceDue(sources[..n], at)
            || (at != [] && at[0] == n && Due(sources[n].node, at[1..])
                && forall i | 0 <= i < n :: AllPlain(sources[..n][i].node))
  {
  }

  lemma FindsLast(sources: seq<Entry>, before: seq<Record>, bs: seq<Place>, found: seq<Record>, ps: seq<Place>)
    requires sources != [] && FindsAll(sources[..|sources| - 1], before, bs)
    requires var last := sources[|sources| - 1];
             Finds(last.name, last.node, found, ps)
    requires forall i | 0 <= i < |sources| - 1 :: AllPlain(sources[i].node)
    ensures FindsAll(sources, before + found, bs + Under(|sources| - 1, ps))
  {
    var n := |sources| - 1;
    var all, places := before + found, bs + Under(n, ps);
    forall i | 0 <= i < |places|
      ensures var at := places[i];
              at != [] && at[0] < |sources| && Records(sources[at[0]].name, sources[at[0]].node, at[1..], all[i])
    {
      if i >= |bs| {
        assert ([n] + ps[i - |bs|])[1..] == ps[i - |bs|];
      }
    }
    forall i, j | 0 <= i < j < |places| ensures Earlier(places[i], places[j]) {
      if i >= |bs| {
        assert ([n] + ps[i - |bs|])[1..] == ps[i - |bs|] && ([n] + ps[j - |bs|])[1..] == ps[j - |bs|];
      }
    }
    forall at ensures at in places <==> SourceDue(sources, at) {
      DueInLast(sources, at);
      InUnder(n, ps, at);
      assert at in bs <==> SourceDue(sources[..n], at);
    }
  }

  lemma FindsStopped(sources: seq<Entry>, before: seq<Record>, bs: seq<Place>)
    requires sources != [] && FindsAll(sources[..|sources| - 1], before, bs)
    requires exists i | 0 <= i < |sources| - 1 :: !AllPlain(sources[i].node)
    ensures FindsAll(sources, before, bs)
  {
    var n := |sources| - 1;
    var k :| 0 <= k < n && !AllPlain(sources[k].node);
    assert !AllPlain(sources[..n][k].node);
    forall at ensures at in bs <==> SourceDue(sources, at) {
      DueInLast(sources, at);
    }
  }

  /** The same for all the sources together. */
  lemma {:induction false} SourcesFind(sources: seq<Entry>) returns (places: seq<Place>)
    ensures FindsAll(sources, WalkSources(sources).found, places)
    ensures WalkSources(sources).complete <==> forall i | 0 <= i < |sources| :: AllPlain(sources[i].node)
  {
    places := [];
    if sources != [] {
      var n := |sources| - 1;
      var before, last := WalkSources(sources[..n]), sources[n];
      places := SourcesFind(sources[..n]);
      assert forall i | 0 <= i < n :: sources[..n][i] == sources[i];
      if before.complete {
        var ps := WalkFinds(last.name, last.node);
        FindsLast(sources, before.found, places, WalkNode(last.name, last.node).found, ps);
        places := places + Under(n, ps);
      } else {
        FindsStopped(sources, before.found, places);
      }
    }
  }

  function TagLine(tag: bytes): bytes {
    if tag == [] then [] else [HASH] + tag + [NEWLINE]
  }

  lemma {:induction false} EncodeConcat(a: seq<Record>, b: seq<Record>)
    ensures Encode(a + b) == Encode(a) + Encode(b)
  {
    if a == [] {
      assert a + b == b;
    } else {
      EncodeConcat(a[1..], b);
      assert (a + b)[0] == a[0] && (a + b)[1..] == a[1..] + b;
      Associate(Frame(a[0]), Encode(a[1..]), Encode(b));
    }
  }

  lemma Associate(a: bytes, b: bytes, c: bytes)
    ensures a + (b + c) == (a + b) + c
  {
  }

  /** For each record the size field, three separators, the path and the content. */
  function EncodedLength(records: seq<Record>): nat {
    if records == [] then 0
    else
      var n, size := |records| - 1, |records[|records| - 1].content|;
      EncodedLength(records[..n]) + |Decimal(size)| + |records[n].path| + 3 + size
  }

  lemma {:induction false} EncodeLength(records: seq<Record>)
    ensures |Encode(records)| == EncodedLength(records)
  {
    if records != [] {
      var n := |records| - 1;
      EncodeLength(records[..n]);
      assert records == records[..n] + [records[n]];
      EncodeConcat(records[..n], [records[n]]);
      EncodeOne(records[n]);
    }
  }

  lemma EncodeOne(r: Record)
    ensures Encode([r]) == Frame(r)
  {
    assert Encode([r]) == Frame(r) + Encode([]);
  }

  class MergedFile {
    var bytes: bytes

    constructor (tag: bytes)
      ensures bytes == TagLine(tag)
    {
      bytes := if tag == [] then [] else [HASH] + tag + [NEWLINE];
    }

    /** False when an exception cut the walk short; what was written until then stays written. */
    method AppendNode(path: bytes, node: Node) returns (ok: bool)
      modifies this
      ensures ok == WalkNode(path, node).complete
      ensures bytes == old(bytes) + Encode(WalkNode(path, node).found)
      decreases node, 0
    {
      match node
      case File(content) =>
        bytes := bytes + Header(|content|, path);
        bytes := bytes + content;
        EncodeOne(Record(path, content));
        ok := true;
      case Dir(entries) =>
        ok := AppendEntries(path, entries);
      case Special =>
        ok := false;
    }

    method AppendEntries(path: bytes, entries: seq<Entry>) returns (ok: bool)
      modifies this
      ensures ok == WalkEntries(path, entries).complete
      ensures bytes == old(bytes) + Encode(WalkEntries(path, entries).found)
      decreases entries, 1
    {
      if entries == [] {
        return true;
      }
      ok := AppendNode(path + [SLASH] + entries[0].name, entries[0].node);
      if ok {
        EncodeConcat(WalkNode(path + [SLASH] + entries[0].name, entries[0].node).found,
                     WalkEntries(path, entries[1..]).found);
        ok := AppendEntries(path, entries[1..]);
      }
    }

    method Append(sources: seq<Entry>) returns (ok: bool)
      modifies this
      ensures ok == WalkSources(sources).complete
      ensures bytes == old(bytes) + Encode(WalkSources(sources).found)
    {
      ok := true;
      for i := 0 to |sources|
        invariant ok && WalkSources(sources[..i]).complete
        invariant bytes == old(bytes) + Encode(WalkSources(sources[..i]).found)
      {
        ok := AppendNode(sources[i].name, sources[i].node);
        assert sources[..i + 1][..i] == sources[..i];
        ghost var before, found := WalkSources(sources[..i]).found, WalkNode(sources[i].name, sources[i].node).found;
        assert WalkSources(sources[..i + 1]).found == before + found;
        EncodeConcat(before, found);
        Associate(old(bytes), Encode(before), Encode(found));
        if !ok {
          WalkStops(sources, i + 1);
          return;
        }
      }
      assert sources[..|sources|] == sources;
    }
  }

  // ---------------------------------------------------------------- unpacking

  /** How many bytes fgets takes: through the first newline, at most limit. */
  function LineLength(input: bytes, limit: nat): (n: nat)
    ensures n <= |input| && n <= limit
    ensures forall i | 0 <= i < n - 1 :: input[i] != NEWLINE
    ensures n == |input| || n == limit || (n > 0 && input[n - 1] == NEWLINE)
  {
    if input == [] || limit == 0 then 0
    else if input[0] == NEWLINE then 1
    else 1 + LineLength(input[1..], limit - 1)
  }

  /** The part before the first b, all of it when there is none. */
  function Before(s: bytes, b: byte): (r: bytes)
    ensures |r| <= |s| && r == s[..|r|]
    ensures b !in r
    ensures |r| < |s| ==> s[|r|] == b
  {
    if s == [] || s[0] == b then [] else [s[0]] + Before(s[1..], b)
  }

  predicate IsSpace(b: byte) {
    b == SPACE || 9 <= b <= 13
  }

  function DigitsValue(s: bytes, sofar: nat): nat {
    if s == [] || !(48 <= s[0] <= 57) then sofar else DigitsValue(s[1..], 10 * sofar + (s[0] - 48))
  }

  /** atol: white space, a sign, digits; out of range values saturate. */
  function Atol(s: bytes): int {
    if s == [] then 0
    else if IsSpace(s[0]) then Atol(s[1..])
    else if s[0] == 45 then
      var v: int := DigitsValue(s[1..], 0);
      if v > LONG_MAX + 1 then -(LONG_MAX + 1) else -v
    else
      var v := DigitsValue(if s[0] == 43 then s[1..] else s, 0);
      if v > LONG_MAX then LONG_MAX else v
  }

  /** (size_t) of a long. */
  function SizeT(v: int): nat {
    v % PLATFORM.sizes
  }

  function Joined(dir: bytes, name: bytes): bytes {
    dir + [SLASH] + name
  }

  /** snprintf truncates without a word. */
  function Destination(dir: bytes, name: bytes): bytes {
    var full := Joined(dir, name);
    if |full| <= LINE then full else full[..LINE]
  }

  /** w_ref_parent_folder: some component of the path is "..". */
  ghost predicate RefersToParent(path: bytes) {
    exists i :: ParentAt(path, i)
  }

  predicate ParentAt(path: bytes, i: nat) {
    && i + 2 <= |path|
    && path[i] == DOT && path[i + 1] == DOT
    && (i == 0 || path[i - 1] == SLASH)
    && (i + 2 == |path| || path[i + 2] == SLASH)
  }

  /** The parts of a path between its slashes. */
  function Components(path: bytes): seq<bytes>
    decreases |path|
  {
    var first := Before(path, SLASH);
    if |first| == |path| then [path] else [first] + Components(path[|first| + 1..])
  }

  /** A component further on is one of what follows the first slash. */
  lemma ParentLater(path: bytes, n: nat, i: nat)
    requires n < |path| && SLASH !in path[..n] && path[n] == SLASH
    ensures ParentAt(path[n + 1..], i) <==> ParentAt(path, n + 1 + i)
    ensures 0 < i <= n ==> !ParentAt(path, i)
  {
    if 0 < i <= n {
      assert path[i - 1] == path[..n][i - 1];
    }
  }

  lemma ParentFirst(path: bytes, n: nat)
    requires n <= |path| && SLASH !in path[..n] && (n == |path| || path[n] == SLASH)
    ensures ParentAt(path, 0) <==> path[..n] == [DOT, DOT]
  {
    if n >= 2 {
      assert path[..n][0] == path[0] && path[..n][1] == path[1];
      assert n > 2 ==> path[..n][2] == path[2];
    }
    assert n > 0 ==> path[..n][0] == path[0];
    assert n > 1 ==> path[..n][1] == path[1];
  }

  lemma ParentInRest(path: bytes, n: nat)
    requires n < |path| && SLASH !in path[..n] && path[n] == SLASH
    ensures RefersToParent(path) <==> ParentAt(path, 0) || RefersToParent(path[n + 1..])
  {
    if i: nat :| ParentAt(path, i) {
      if i > 0 {
        ParentLater(path, n, i);
        ParentLater(path, n, i - n - 1);
      }
    }
    var rest := path[n + 1..];
    if i: nat :| ParentAt(rest, i) {
      ParentLater(path, n, i);
    }
  }

  lemma {:induction false} ParentIsComponent(path: bytes)
    ensures RefersToParent(path) <==> [DOT, DOT] in Components(path)
    decreases |path|
  {
    var n := |Before(path, SLASH)|;
    ParentFirst(path, n);
    if n < |path| {
      ParentInRest(path, n);
      ParentIsComponent(path[n + 1..]);
    } else {
      assert path[..n] == path;
      forall i: nat | 0 < i <= |path| ensures !ParentAt(path, i) {
        assert path[i - 1] == path[..n][i - 1];
      }
    }
  }

  /** What one line of the stream asks for. */
  datatype Line = Ignored | NoName | FileLine(name: bytes, size: nat)

  function ParseLine(line: bytes): Line
    requires line != []
  {
    if line[0] != BANG then Ignored
    else
      var text := Before(Before(line, NUL), NEWLINE);
      if SPACE !in text then NoName
      else FileLine(text[|Before(text, SPACE)| + 1..], SizeT(Atol(Before(line, NUL)[1..])))
  }

  datatype Unmerged = Unmerged(files: seq<Record>, ok: bool)

  /** What the agent makes of a merged stream, when its file system calls succeed: the files it
      writes below dir, in order, and its return value. */
  ghost function Unmerge(dir: bytes, input: bytes): Unmerged
    decreases |input|
  {
    if input == [] then Unmerged([], true)
    else
      var n := LineLength(input, LINE);
      var rest := input[n..];
      match ParseLine(input[..n])
      case Ignored => Unmerge(dir, rest)
      case NoName => Unmerged(Unmerge(dir, rest).files, false)
      case FileLine(name, size) =>
        var path := Destination(dir, name);
        var taken := if size <= |rest| then size else |rest|;
        var inside := !RefersToParent(path);
        var more := Unmerge(dir, rest[taken..]);
        Unmerged([Record(path, if inside then rest[..taken] else [])] + more.files, inside && more.ok)
  }

  // ---------------------------------------------------------------- one header line

  lemma BeforeIs(s: bytes, b: byte, k: nat)
    requires k <= |s| && b !in s[..k] && (k == |s| || s[k] == b)
    ensures Before(s, b) == s[..k]
  {
  }

  lemma {:induction false} LineLengthIs(s: bytes, limit: nat, k: nat)
    requires k < |s| && NEWLINE !in s[..k] && s[k] == NEWLINE
    ensures LineLength(s, limit) == if k < limit then k + 1 else limit
    decreases k
  {
    if limit > 0 && k > 0 {
      assert s[0] == s[..k][0];
      assert s[1..][..k - 1] == s[..k][1..];
      LineLengthIs(s[1..], limit - 1, k - 1);
    }
  }

  lemma {:induction false} DigitsThen(n: nat, tail: bytes)
    ensures DigitsValue(Decimal(n) + tail, 0) == DigitsValue(tail, n)
    decreases n
  {
    if n < 10 {
      assert (Decimal(n) + tail)[1..] == tail;
    } else {
      var digit: bytes := [48 + n % 10];
      assert Decimal(n) + tail == Decimal(n / 10) + (digit + tail);
      DigitsThen(n / 10, digit + tail);
      assert (digit + tail)[1..] == tail;
      assert 10 * (n / 10) + n % 10 == n;
    }
  }

  /** The size field of a header survives atol up to the largest long. */
  lemma AtolOfDecimal(n: nat, tail: bytes)
    requires tail != [] && tail[0] == SPACE
    ensures Atol(Decimal(n) + tail) == if n > LONG_MAX then LONG_MAX else n
  {
    DigitsThen(n, tail);
    assert (Decimal(n) + tail)[0] == Decimal(n)[0];
  }

  /** White space before the number is skipped, a sign is taken, and what does not fit saturates. */
  lemma {:induction false} AtolOf(spaces: bytes, negative: bool, plus: bool, n: nat, tail: bytes)
    requires forall i | 0 <= i < |spaces| :: spaces[i] in {9, 10, 11, 12, 13, 32}
    requires tail == [] || !(48 <= tail[0] <= 57)
    ensures var sign: bytes := if negative then [45] else if plus then [43] else [];
            Atol(spaces + (sign + (Decimal(n) + tail)))
            == if negative then -Least(n, LONG_MAX + 1) else Least(n, LONG_MAX)
  {
    var sign: bytes := if negative then [45] else if plus then [43] else [];
    var number := Decimal(n) + tail;
    if spaces == [] {
      assert spaces + (sign + number) == sign + number;
      DigitsThen(n, tail);
      assert number[0] == Decimal(n)[0];
      if sign != [] {
        assert (sign + number)[1..] == number;
      } else {
        assert sign + number == number;
      }
    } else {
      assert (spaces + (sign + number))[1..] == spaces[1..] + (sign + number);
      AtolOf(spaces[1..], negative, plus, n, tail);
    }
  }

  /** A text that starts with anything else, or is empty, counts as zero. */
  lemma AtolNone(s: bytes)
    requires s == [] || (s[0] !in {9, 10, 11, 12, 13, 32, 43, 45} && !(48 <= s[0] <= 57))
    ensures Atol(s) == 0
  {
  }

  /** How much of a path is left of its first newline. */
  function Plain(path: bytes): nat {
    |Before(path, NEWLINE)|
  }

  predicate Digits(d: bytes) {
    forall i | 0 <= i < |d| :: 48 <= d[i] <= 57
  }

  /** h is a header with size field d, told byte by byte. */
  predicate Shape(h: bytes, d: bytes, path: bytes) {
    && |h| == |d| + |path| + 3
    && Digits(d)
    && h[0] == BANG
    && (forall i | 0 <= i < |d| :: h[i + 1] == d[i])
    && h[|d| + 1] == SPACE
    && (forall i | |d| + 2 <= i < |d| + 2 + |path| :: h[i] == path[i - |d| - 2])
    && h[|d| + 2 + |path|] == NEWLINE
  }

  lemma HeaderShape(size: nat, path: bytes)
    ensures Shape(Header(size, path), Decimal(size), path)
  {
  }

  lemma FirstNewline(h: bytes, d: bytes, path: bytes)
    requires Shape(h, d, path)
    ensures var k := |d| + 2 + Plain(path);
            k < |h| && NEWLINE !in h[..k] && h[k] == NEWLINE
  {
    var k := |d| + 2 + Plain(path);
    forall i | 0 <= i < k ensures h[i] != NEWLINE {
      if 0 < i <= |d| {
        assert h[i] == d[i - 1];
      } else if i > |d| + 1 {
        assert h[i] == Before(path, NEWLINE)[i - |d| - 2];
      }
    }
  }

  /** fgets takes a header up to its first newline, cut at the end of the buffer. */
  lemma HeaderLine(h: bytes, d: bytes, path: bytes, tail: bytes)
    requires Shape(h, d, path)
    ensures LineLength(h + tail, LINE) == Least(|d| + Plain(path) + 3, LINE) <= |h|
  {
    var k := |d| + 2 + Plain(path);
    FirstNewline(h, d, path);
    assert (h + tail)[..k] == h[..k];
    LineLengthIs(h + tail, LINE, k);
  }

  /** What the C string functions see of that line. */
  lemma HeaderText(h: bytes, d: bytes, path: bytes, n: nat, m: nat)
    requires Shape(h, d, path) && NUL !in path
    requires n == Least(|d| + Plain(path) + 3, LINE) && m == Least(|d| + Plain(path) + 2, LINE)
    ensures m <= n <= |h|
    ensures Before(h[..n], NUL) == h[..n] && Before(h[..n], NEWLINE) == h[..m]
  {
    var k := |d| + 2 + Plain(path);
    FirstNewline(h, d, path);
    forall i | 0 <= i < n ensures h[i] != NUL {
      if 0 < i <= |d| {
        assert h[i] == d[i - 1];
      } else if |d| + 1 < i < |d| + 2 + |path| {
        assert h[i] == path[i - |d| - 2];
      }
    }
    BeforeIs(h[..n], NUL, n);
    assert h[..n][..m] == h[..m] == h[..k][..m];
    BeforeIs(h[..n], NEWLINE, m);
  }

  /** Splitting the text at its first space gives the size field and as much of the path as fits. */
  lemma HeaderFields(h: bytes, d: bytes, path: bytes, m: nat)
    requires Shape(h, d, path) && m <= |d| + 2 + |path|
    ensures if m >= |d| + 2 then
              SPACE in h[..m] && Before(h[..m], SPACE) == h[..|d| + 1] && h[|d| + 2..m] == path[..m - |d| - 2]
            else SPACE !in h[..m]
  {
    var text := h[..m];
    forall i | 0 <= i < m && i <= |d| ensures text[i] != SPACE {
      if i > 0 {
        assert h[i] == d[i - 1];
      }
    }
    if m >= |d| + 2 {
      assert text[|d| + 1] == SPACE;
      BeforeIs(text, SPACE, |d| + 1);
      assert text[..|d| + 1] == h[..|d| + 1];
    }
  }

  lemma SizeTSame(v: nat)
    requires v <= LONG_MAX
    ensures SizeT(v) == v
  {
  }

  lemma SizeField(h: bytes, d: bytes, path: bytes, n: nat)
    requires Shape(h, d, path) && |d| + 2 <= n <= |h|
    ensures h[..n][1..] == d + h[|d| + 1..n] && h[|d| + 1..n][0] == SPACE
  {
    forall i | 0 <= i < |d| ensures h[..n][1..][i] == d[i] {
      assert h[i + 1] == d[i];
    }
  }

  /** The size field, read from a line that holds at least the space after it. */
  lemma HeaderSize(h: bytes, d: bytes, path: bytes, size: nat, n: nat)
    requires Shape(h, d, path) && d == Decimal(size) && |d| + 2 <= n <= |h|
    ensures SizeT(Atol(h[..n][1..])) == Least(size, LONG_MAX)
  {
    SizeField(h, d, path, n);
    AtolOfDecimal(size, h[|d| + 1..n]);
    SizeTSame(Least(size, LONG_MAX));
  }

  lemma ParseFields(line: bytes, text: bytes, d: nat)
    requires line != [] && line[0] == BANG
    requires Before(line, NUL) == line && Before(line, NEWLINE) == text
    requires if d + 2 <= |text| then SPACE in text && |Before(text, SPACE)| == d + 1 else SPACE !in text
    ensures ParseLine(line) == if d + 2 <= |text| then FileLine(text[d + 2..], SizeT(Atol(line[1..]))) else NoName
  {
  }

  lemma HeaderParsed(h: bytes, d: bytes, path: bytes, n: nat, m: nat)
    requires Shape(h, d, path) && NUL !in path
    requires n == Least(|d| + Plain(path) + 3, LINE) && m == Least(|d| + Plain(path) + 2, LINE)
    ensures 0 < n <= |h|
    ensures ParseLine(h[..n])
            == if m >= |d| + 2 then FileLine(path[..m - |d| - 2], SizeT(Atol(h[..n][1..]))) else NoName
  {
    HeaderText(h, d, path, n, m);
    HeaderFields(h, d, path, m);
    ParseFields(h[..n], h[..m], |d|);
    if m >= |d| + 2 {
      assert h[..m][|d| + 2..] == h[|d| + 2..m];
    }
  }

  /** Everything the agent reads off one header: the path, as far as it got, and the size. */
  lemma HeaderRead(h: bytes, d: bytes, size: nat, path: bytes, n: nat)
    requires Shape(h, d, path) && d == Decimal(size) && NUL !in path
    requires n == Least(|d| + Plain(path) + 3, LINE)
    ensures 0 < n <= |h|
    ensures ParseLine(h[..n]) == if |d| + 2 > LINE then NoName
                                 else FileLine(path[..Least(Plain(path), LINE - |d| - 2)], Least(size, LONG_MAX))
  {
    HeaderParsed(h, d, path, n, Least(|d| + Plain(path) + 2, LINE));
    if |d| + 2 <= LINE {
      HeaderSize(h, d, path, size, n);
    }
  }

  // ---------------------------------------------------------------- the round trip

  /** A record the agent restores: the path has no newline and no ".." below dir, the joined path
      and the size fit, and the header fits the line buffer. A header one byte too long loses only
      its newline, which shifts the content by one newline and so goes unnoticed exactly when the
      content is nothing but newlines. */
  ghost predicate Restorable(dir: bytes, r: Record) {
    && NEWLINE !in r.path
    && |dir + [SLASH] + r.path| <= LINE
    && !RefersToParent(dir + [SLASH] + r.path)
    && |r.content| <= LONG_MAX
    && (|Header(|r.content|, r.path)| <= LINE
        || (|Header(|r.content|, r.path)| == LINE + 1 && forall i | 0 <= i < |r.content| :: r.content[i] == NEWLINE))
  }

  function Restored(dir: bytes, records: seq<Record>): (files: seq<Record>)
    ensures |files| == |records|
  {
    if records == [] then []
    else [Record(dir + [SLASH] + records[0].path, records[0].content)] + Restored(dir, records[1..])
  }

  lemma PlainIs(path: bytes)
    ensures Plain(path) == |path| <==> NEWLINE !in path
  {
    if NEWLINE !in path {
      BeforeIs(path, NEWLINE, |path|);
    }
  }

  /** One round of the agent's loop on a line that names a file, the stream being cut where the
      line ends and where the content ends. */
  lemma UnmergeFile(dir: bytes, line: bytes, body: bytes, rest: bytes, name: bytes, size: nat)
    requires line != [] && LineLength(line + (body + rest), LINE) == |line|
    requires ParseLine(line) == FileLine(name, size)
    requires |body| == size || (|body| < size && rest == [])
    ensures var path, more := Destination(dir, name), Unmerge(dir, rest);
            var inside := !RefersToParent(path);
            Unmerge(dir, line + (body + rest))
            == Unmerged([Record(path, if inside then body else [])] + more.files, inside && more.ok)
  {
    var input := line + (body + rest);
    assert input[..|line|] == line && input[|line|..] == body + rest;
    assert (body + rest)[..|body|] == body && (body + rest)[|body|..] == rest;
  }

  /** A line that starts with anything but "!" is skipped. */
  lemma SkipLine(dir: bytes, line: bytes, rest: bytes)
    requires line != [] && line[0] != BANG && LineLength(line + rest, LINE) == |line|
    ensures Unmerge(dir, line + rest) == Unmerge(dir, rest)
  {
    assert (line + rest)[..|line|] == line && (line + rest)[|line|..] == rest;
  }

  /** Where the agent's first line ends, what it reads off it and what is left over of the header. */
  lemma HeadSplit(size: nat, path: bytes, tail: bytes) returns (line: bytes, over: bytes, d: nat)
    requires NUL !in path
    ensures d == |Decimal(size)| && |Header(size, path)| == d + |path| + 3
    ensures line != [] && Header(size, path) + tail == line + (over + tail)
    ensures LineLength(Header(size, path) + tail, LINE) == |line|
    ensures ParseLine(line) == if d + 2 > LINE then NoName
                               else FileLine(path[..Least(Plain(path), LINE - d - 2)], Least(size, LONG_MAX))
    ensures NEWLINE !in path && d + |path| + 3 <= LINE ==> over == []
    ensures NEWLINE !in path && d + |path| + 3 == LINE + 1 ==> over == [NEWLINE]
  {
    var h, digits := Header(size, path), Decimal(size);
    d := |digits|;
    HeaderShape(size, path);
    var n := Least(d + Plain(path) + 3, LINE);
    HeaderLine(h, digits, path, tail);
    HeaderRead(h, digits, size, path, n);
    Cut(h, n, tail);
    PlainIs(path);
    line, over := h[..n], h[n..];
  }

  lemma Cut(h: bytes, n: nat, tail: bytes)
    requires n <= |h|
    ensures h + tail == h[..n] + (h[n..] + tail)
  {
  }

  lemma NewlinesShift(content: bytes, rest: bytes)
    requires forall i | 0 <= i < |content| :: content[i] == NEWLINE
    ensures [NEWLINE] + (content + rest) == content + ([NEWLINE] + rest)
  {
    assert [NEWLINE] + content == content + [NEWLINE];
    Associate([NEWLINE], content, rest);
    Associate(content, [NEWLINE], rest);
  }

  /** The header fits, so the content follows right after it; or it is one byte over, and the content
      cannot tell. */
  lemma HeadRestored(dir: bytes, r: Record, rest: bytes)
    requires NUL !in r.path && Restorable(dir, r)
    ensures var more := Unmerge(dir, rest);
            Unmerge(dir, Frame(r) + rest) == Unmerged([Record(Joined(dir, r.path), r.content)] + more.files, more.ok)
  {
    var line, over, d := HeadSplit(|r.content|, r.path, r.content + rest);
    Associate(Header(|r.content|, r.path), r.content, rest);
    PlainIs(r.path);
    assert r.path[..|r.path|] == r.path;
    FileRestored(dir, line, over, r.content, rest, r.path);
  }

  lemma FileRestored(dir: bytes, line: bytes, over: bytes, content: bytes, rest: bytes, path: bytes)
    requires line != [] && LineLength(line + (over + (content + rest)), LINE) == |line|
    requires ParseLine(line) == FileLine(path, |content|)
    requires over == [] || (over == [NEWLINE] && forall i | 0 <= i < |content| :: content[i] == NEWLINE)
    requires |Joined(dir, path)| <= LINE && !RefersToParent(Joined(dir, path))
    ensures var more := Unmerge(dir, rest);
            Unmerge(dir, line + (over + (content + rest)))
            == Unmerged([Record(Joined(dir, path), content)] + more.files, more.ok)
  {
    if over == [] {
      assert over + (content + rest) == content + rest;
      UnmergeFile(dir, line, content, rest, path, |content|);
    } else {
      NewlinesShift(content, rest);
      UnmergeFile(dir, line, content, [NEWLINE] + rest, path, |content|);
      SkipLine(dir, [NEWLINE], rest);
    }
  }

  /** When all went well, the first line that is not skipped named a file and was followed by its content. */
  lemma UnmergeOk(dir: bytes, input: bytes, line: bytes, stream: bytes, first: Record)
    requires input == line + stream && line != [] && LineLength(input, LINE) == |line|
    requires ParseLine(line) != Ignored
    requires Unmerge(dir, input).ok && Unmerge(dir, input).files != [] && Unmerge(dir, input).files[0] == first
    ensures ParseLine(line).FileLine? && !RefersToParent(first.path)
    ensures first == Record(Destination(dir, ParseLine(line).name), stream[..Least(ParseLine(line).size, |stream|)])
  {
    assert input[..|line|] == line && input[|line|..] == stream;
  }

  lemma {:induction false} NewlineShift(s: bytes, tail: bytes)
    requires s == ([NEWLINE] + s + tail)[..|s|]
    ensures forall i | 0 <= i < |s| :: s[i] == NEWLINE
  {
    var t := [NEWLINE] + s + tail;
    var i := 0;
    while i < |s|
      invariant 0 <= i <= |s|
      invariant forall j | 0 <= j < i :: s[j] == NEWLINE
    {
      assert s[i] == t[i];
      i := i + 1;
    }
  }

  lemma DestinationWhole(dir: bytes, path: bytes, q: nat)
    requires q <= |path| && Destination(dir, path[..q]) == Joined(dir, path)
    ensures q == |path| && |Joined(dir, path)| <= LINE
  {
  }

  /** The path and the content agree with what was packed only if the header was short enough. */
  lemma FieldsNeed(dir: bytes, d: nat, path: bytes, content: bytes, rest: bytes, over: bytes)
    requires d + 2 <= LINE && Joined(dir, path) == Destination(dir, path[..Least(Plain(path), LINE - d - 2)])
    requires NEWLINE !in path && d + |path| + 3 == LINE + 1 ==> over == [NEWLINE]
    requires |content| <= |over + (content + rest)| && content == (over + (content + rest))[..|content|]
    ensures NEWLINE !in path && |Joined(dir, path)| <= LINE
    ensures d + |path| + 3 <= LINE
            || (d + |path| + 3 == LINE + 1 && forall i | 0 <= i < |content| :: content[i] == NEWLINE)
  {
    DestinationWhole(dir, path, Least(Plain(path), LINE - d - 2));
    PlainIs(path);
    if d + |path| + 3 > LINE {
      Associate([NEWLINE], content, rest);
      NewlineShift(content, rest);
    }
  }

  lemma ContentKept(content: bytes, stream: bytes)
    requires content == stream[..Least(Least(|content|, LONG_MAX), |stream|)]
    ensures |content| <= LONG_MAX && |content| <= |stream| && content == stream[..|content|]
  {
  }

  /** Only a restorable record comes back as it went in. */
  lemma HeadNeeds(dir: bytes, r: Record, rest: bytes, input: bytes)
    requires NUL !in r.path && input == Header(|r.content|, r.path) + (r.content + rest)
    requires Unmerge(dir, input).ok && Unmerge(dir, input).files != []
    requires Unmerge(dir, input).files[0] == Record(Joined(dir, r.path), r.content)
    ensures Restorable(dir, r)
  {
    var line, over, d := HeadSplit(|r.content|, r.path, r.content + rest);
    UnmergeOk(dir, input, line, over + (r.content + rest), Record(Joined(dir, r.path), r.content));
    ContentKept(r.content, over + (r.content + rest));
    FieldsNeed(dir, d, r.path, r.content, rest, over);
  }

  /** Unpacking gives back exactly what was packed, path by path and byte by byte, if and only if
      every record is restorable. */
  lemma {:induction false} RoundTrip(dir: bytes, records: seq<Record>)
    requires forall i | 0 <= i < |records| :: NUL !in records[i].path
    ensures Unmerge(dir, Encode(records)) == Unmerged(Restored(dir, records), true)
            <==> forall i | 0 <= i < |records| :: Restorable(dir, records[i])
  {
    if records != [] {
      var r, rest := records[0], records[1..];
      RoundTrip(dir, rest);
      if Restorable(dir, r) {
        HeadRestored(dir, r, Encode(rest));
        ConsEqual(Record(Joined(dir, r.path), r.content), Unmerge(dir, Encode(rest)).files, Restored(dir, rest));
        assert forall i | 1 <= i < |records| :: records[i] == rest[i - 1];
      } else if Unmerge(dir, Encode(records)) == Unmerged(Restored(dir, records), true) {
        Associate(Header(|r.content|, r.path), r.content, Encode(rest));
        HeadNeeds(dir, r, Encode(rest), Encode(records));
      }
    }
  }

  /** Whatever the stream, every file is written to the first bytes of a path below dir, and none with
      a ".." on its way gets any content; if all went well there is none. */
  ghost predicate Confined(dir: bytes, u: Unmerged) {
    forall i | 0 <= i < |u.files| ::
      && (exists name :: u.files[i].path == (dir + [SLASH] + name)[..Least(|dir + [SLASH] + name|, 2047)])
      && (RefersToParent(u.files[i].path) ==> u.files[i].content == [] && !u.ok)
  }

  lemma {:induction false} UnmergeConfined(dir: bytes, input: bytes)
    ensures Confined(dir, Unmerge(dir, input))
    decreases |input|
  {
    if input != [] {
      var n := LineLength(input, LINE);
      var rest, line := input[n..], ParseLine(input[..n]);
      if line.FileLine? {
        var taken := if line.size <= |rest| then line.size else |rest|;
        UnmergeConfined(dir, rest[taken..]);
        var name := line.name;
        assert Destination(dir, name) == (dir + [SLASH] + name)[..Least(|dir + [SLASH] + name|, 2047)];
      } else {
        UnmergeConfined(dir, rest);
      }
    }
  }

  /** A line that starts with "!" and has no space is an error; the files after it are still written. */
  lemma NamelessFails(dir: bytes, text: bytes, rest: bytes)
    requires NEWLINE !in text && NUL !in text && SPACE !in text && |text| + 2 <= LINE
    ensures Unmerge(dir, [BANG] + text + [NEWLINE] + rest) == Unmerged(Unmerge(dir, rest).files, false)
  {
    var line := [BANG] + text + [NEWLINE];
    assert line[..|text| + 1] == [BANG] + text;
    assert (line + rest)[..|text| + 1] == line[..|text| + 1];
    LineLengthIs(line + rest, LINE, |text| + 1);
    assert (line + rest)[..|line|] == line && (line + rest)[|line|..] == rest;
    BeforeIs(line, NUL, |line|);
    assert line[..|line|] == line;
    BeforeIs(line, NEWLINE, |text| + 1);
  }

  lemma ConsEqual(r: Record, a: seq<Record>, b: seq<Record>)
    ensures [r] + a == [r] + b <==> a == b
  {
    if [r] + a == [r] + b {
      assert a == ([r] + a)[1..] == ([r] + b)[1..] == b;
    }
  }

  /** No piece in which fgets takes these bytes starts with "!". */
  predicate Harmless(input: bytes)
    decreases |input|
  {
    input == [] || (input[0] != BANG && Harmless(input[LineLength(input, LINE)..]))
  }

  lemma {:induction false} SameLine(x: bytes, rest: bytes, limit: nat)
    requires NEWLINE in x
    ensures LineLength(x + rest, limit) == LineLength(x, limit)
  {
    assert (x + rest)[0] == x[0];
    if limit > 0 && x[0] != NEWLINE {
      assert (x + rest)[1..] == x[1..] + rest;
      assert x == [x[0]] + x[1..];
      SameLine(x[1..], rest, limit - 1);
    }
  }

  lemma {:induction false} HarmlessSkipped(dir: bytes, x: bytes, rest: bytes)
    requires Harmless(x) && (x != [] ==> x[|x| - 1] == NEWLINE)
    ensures Unmerge(dir, x + rest) == Unmerge(dir, rest)
    decreases |x|
  {
    if x == [] {
      assert x + rest == rest;
    } else {
      var n := LineLength(x, LINE);
      SameLine(x, rest, LINE);
      assert x + rest == x[..n] + (x[n..] + rest);
      SkipLine(dir, x[..n], x[n..] + rest);
      HarmlessSkipped(dir, x[n..], rest);
    }
  }

  lemma {:induction false} NothingMeansHarmless(dir: bytes, x: bytes)
    requires Unmerge(dir, x) == Unmerged([], true)
    ensures Harmless(x)
    decreases |x|
  {
    if x != [] {
      NothingMeansHarmless(dir, x[LineLength(x, LINE)..]);
    }
  }

  /** The line with the package name changes nothing, whatever follows it, if and only if no piece in
      which fgets takes it starts with "!". */
  lemma TagIgnoredExactly(dir: bytes, tag: bytes)
    ensures (forall rest :: Unmerge(dir, TagLine(tag) + rest) == Unmerge(dir, rest)) <==> Harmless(TagLine(tag))
  {
    if Harmless(TagLine(tag)) {
      forall rest ensures Unmerge(dir, TagLine(tag) + rest) == Unmerge(dir, rest) {
        HarmlessSkipped(dir, TagLine(tag), rest);
      }
    } else if forall rest :: Unmerge(dir, TagLine(tag) + rest) == Unmerge(dir, rest) {
      assert TagLine(tag) + [] == TagLine(tag);
      NothingMeansHarmless(dir, TagLine(tag));
    }
  }

  /** One that fits the line buffer is one piece. */
  lemma ShortTagHarmless(tag: bytes)
    requires NEWLINE !in tag && |tag| + 2 <= LINE
    ensures Harmless(TagLine(tag))
  {
    var line := TagLine(tag);
    if tag != [] {
      assert line[..|tag| + 1] == [HASH] + tag;
      LineLengthIs(line, LINE, |tag| + 1);
      assert line[|line|..] == [];
    }
  }

  lemma DecimalInjective(m: nat, n: nat)
    requires Decimal(m) == Decimal(n)
    ensures m == n
  {
    DigitsThen(m, []);
    DigitsThen(n, []);
  }

  /** The first line of a stream tells the header off. */
  lemma HeaderOfStream(h: bytes, d: bytes, path: bytes, tail: bytes)
    requires Shape(h, d, path) && NEWLINE !in path
    ensures Before(h + tail, NEWLINE) == h[..|h| - 1] && Before(h, SPACE) == h[..|d| + 1]
  {
    PlainIs(path);
    FirstNewline(h, d, path);
    assert (h + tail)[..|h| - 1] == h[..|h| - 1];
    BeforeIs(h + tail, NEWLINE, |h| - 1);
    assert h[..|h|] == h;
    HeaderFields(h, d, path, |h| - 1);
    forall i | 0 <= i <= |d| ensures h[i] != SPACE {
      if i > 0 {
        assert h[i] == d[i - 1];
      }
    }
    BeforeIs(h, SPACE, |d| + 1);
  }

  lemma ShapeInjective(h: bytes, d: bytes, path: bytes, d': bytes, path': bytes)
    requires Shape(h, d, path) && Shape(h, d', path') && |d| == |d'|
    ensures d == d' && path == path'
  {
    forall i | 0 <= i < |d| ensures d[i] == d'[i] {
      assert h[i + 1] == d[i];
    }
    forall i | 0 <= i < |path| ensures path[i] == path'[i] {
      assert h[i + |d| + 2] == path[i];
    }
  }

  lemma SameHeader(h: bytes, d: bytes, path: bytes, tail: bytes, h': bytes, d': bytes, path': bytes, tail': bytes)
    requires Shape(h, d, path) && Shape(h', d', path') && NEWLINE !in path && NEWLINE !in path'
    requires h + tail == h' + tail'
    ensures h == h' && d == d' && path == path' && tail == tail'
  {
    HeaderOfStream(h, d, path, tail);
    HeaderOfStream(h', d', path', tail');
    assert |h| == |h'|;
    assert h == (h + tail)[..|h|] == (h' + tail')[..|h|] == h';
    assert tail == (h + tail)[|h|..] == (h' + tail')[|h|..] == tail';
    ShapeInjective(h, d, path, d', path');
  }

  lemma SameFrame(a: Record, x: bytes, b: Record, y: bytes)
    requires NEWLINE !in a.path && NEWLINE !in b.path && Frame(a) + x == Frame(b) + y
    ensures a == b && x == y
  {
    var h, h' := Header(|a.content|, a.path), Header(|b.content|, b.path);
    HeaderShape(|a.content|, a.path);
    HeaderShape(|b.content|, b.path);
    Associate(h, a.content, x);
    Associate(h', b.content, y);
    SameHeader(h, Decimal(|a.content|), a.path, a.content + x, h', Decimal(|b.content|), b.path, b.content + y);
    DecimalInjective(|a.content|, |b.content|);
    var n := |a.content|;
    assert a.content == (a.content + x)[..n] == (b.content + y)[..n] == b.content;
    assert x == (a.content + x)[n..] == (b.content + y)[n..] == y;
  }

  /** Different archives never share an encoding, as long as no path holds a newline. */
  lemma {:induction false} EncodeInjective(a: seq<Record>, b: seq<Record>)
    requires forall i | 0 <= i < |a| :: NEWLINE !in a[i].path
    requires forall i | 0 <= i < |b| :: NEWLINE !in b[i].path
    requires Encode(a) == Encode(b)
    ensures a == b
  {
    if a != [] && b != [] {
      SameFrame(a[0], Encode(a[1..]), b[0], Encode(b[1..]));
      EncodeInjective(a[1..], b[1..]);
      assert a == [a[0]] + a[1..] && b == [b[0]] + b[1..];
    }
  }

  // ---------------------------------------------------------------- the agent's loops

  /** "/.." stands at this index. */
  predicate SlashDots(path: bytes, i: nat) {
    i + 3 <= |path| && path[i] == SLASH && path[i + 1] == DOT && path[i + 2] == DOT
  }

  /** strstr from an index on: the first "/..", None when there is none. */
  method FindSlashDots(path: bytes, start: nat) returns (found: Option<nat>)
    ensures found.Some? ==> start <= found.value && SlashDots(path, found.value)
    ensures forall i: nat | start <= i && (found.Some? ==> i < found.value) :: !SlashDots(path, i)
  {
    var i := start;
    while i + 3 <= |path|
      invariant start <= i && forall j: nat | start <= j < i :: !SlashDots(path, j)
    {
      if path[i] == SLASH && path[i + 1] == DOT && path[i + 2] == DOT {
        return Some(i);
      }
      i := i + 1;
    }
    return None;
  }

  /** Looks at the start of the path, then searches for "/.." and goes on three bytes after each one
      found. No component is skipped: there is no slash in the two dots jumped over. */
  method RefParentFolder(path: bytes) returns (refers: bool)
    ensures refers <==> RefersToParent(path)
  {
    if path == [] {
      return false;
    }
    if path[0] == DOT {
      if |path| == 1 {
        return false;
      }
      if path[1] == DOT && (|path| == 2 || path[2] == SLASH) {
        assert ParentAt(path, 0);
        return true;
      }
    }
    var str := 0;
    while true
      invariant !ParentAt(path, 0) && forall i: nat | 0 < i <= str :: !ParentAt(path, i)
      decreases |path| - str
    {
      var ptr := FindSlashDots(path, str);
      if ptr.None? {
        NoneLeft(path, str, |path|);
        return false;
      }
      var i := ptr.value;
      NoneLeft(path, str, i);
      if i + 3 == |path| || path[i + 3] == SLASH {
        assert ParentAt(path, i + 1);
        return true;
      }
      str := i + 3;
    }
  }

  /** Between two finds there is no component "..". */
  lemma NoneLeft(path: bytes, str: nat, end: nat)
    requires !ParentAt(path, 0) && forall i: nat | 0 < i <= str :: !ParentAt(path, i)
    requires forall i: nat | str <= i < end :: !SlashDots(path, i)
    ensures forall i: nat | i <= end :: !ParentAt(path, i)
  {
    forall i: nat | str < i <= end ensures !ParentAt(path, i) {
      assert !SlashDots(path, i - 1);
    }
  }

  /** Reads size bytes of the stream in pieces of at most CHUNK, or what there is. */
  method ReadContent(stream: bytes, size: nat) returns (content: bytes, rest: bytes)
    ensures var taken := if size <= |stream| then size else |stream|;
            content == stream[..taken] && rest == stream[taken..]
  {
    var pos := 0;
    var left := size;
    var want := if left < CHUNK then left else CHUNK;
    left := left - want;
    while true
      invariant 0 <= pos <= |stream| && pos <= size
      invariant left >= 0 && want == if want + left < CHUNK then want + left else CHUNK
      invariant pos == |stream| || want + left == size - pos
      invariant want >= 0
      decreases |stream| - pos
    {
      var n := if want <= |stream| - pos then want else |stream| - pos;
      if n == 0 {
        break;
      }
      pos := pos + n;
      if left == 0 {
        break;
      }
      want := if left < CHUNK then left else CHUNK;
      left := left - want;
    }
    content, rest := stream[..pos], stream[pos..];
  }

  /** What the first round of the loop contributes. */
  lemma OneRound(dir: bytes, input: bytes, line: Line, rest: bytes)
    requires input != [] && line == ParseLine(input[..LineLength(input, LINE)])
             && rest == input[LineLength(input, LINE)..]
    ensures line.Ignored? ==> Unmerge(dir, input) == Unmerge(dir, rest)
    ensures line.NoName? ==> Unmerge(dir, input) == Unmerged(Unmerge(dir, rest).files, false)
    ensures line.FileLine? ==>
              var path, taken := Destination(dir, line.name), if line.size <= |rest| then line.size else |rest|;
              var inside, more := !RefersToParent(path), Unmerge(dir, rest[taken..]);
              Unmerge(dir, input)
              == Unmerged([Record(path, if inside then rest[..taken] else [])] + more.files, inside && more.ok)
  {
  }

  /** One round of the agent's loop: the files it writes, whether all went well, what is left. */
  method UnmergeRound(dir: bytes, stream: bytes) returns (files: seq<Record>, ok: bool, after: bytes)
    requires stream != []
    ensures |after| < |stream|
    ensures Unmerge(dir, stream) == Unmerged(files + Unmerge(dir, after).files, ok && Unmerge(dir, after).ok)
  {
    var n := LineLength(stream, LINE);
    var line, rest := ParseLine(stream[..n]), stream[n..];
    OneRound(dir, stream, line, rest);
    files, ok, after := [], true, rest;
    if line.NoName? {
      ok := false;
    } else if line.FileLine? {
      var path := Destination(dir, line.name);
      var refers := RefParentFolder(path);
      var content;
      content, after := ReadContent(rest, line.size);
      files, ok := [Record(path, if refers then [] else content)], !refers;
    }
  }

  /** The agent's loop over the stream computes Unmerge. */
  method UnmergeFiles(dir: bytes, input: bytes) returns (files: seq<Record>, ret: bool)
    ensures Unmerged(files, ret) == Unmerge(dir, input)
  {
    files, ret := [], true;
    var stream := input;
    while stream != []
      invariant Unmerge(dir, input).files == files + Unmerge(dir, stream).files
      invariant Unmerge(dir, input).ok == (ret && Unmerge(dir, stream).ok)
      decreases |stream|
    {
      var more, ok, after := UnmergeRound(dir, stream);
      files, ret, stream := files + more, ret && ok, after;
    }
  }
}
