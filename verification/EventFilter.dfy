/**
  The filter that discards an event when a nested field matches a regular expression. Objects,
  lists and strings are told apart; every other value behaves alike.
*/
module EventFilter {

  datatype Json = Str(text: string) | Arr(items: seq<Json>) | Obj(fields: map<string, Json>) | Other

  /** Whether a string matches the configured expression. */
  type Regex = string -> bool

  // ---------------------------------------------------------------- paths

  /** Where the first dot is, or the length. */
  function Dot(path: string): (n: nat)
    ensures n <= |path| && (n < |path| ==> path[n] == '.') && '.' !in path[..n]
  {
    if path == [] || path[0] == '.' then 0
    else
      var n := Dot(path[1..]);
      assert path[..n + 1] == [path[0]] + path[1..][..n];
      n + 1
  }

  function Head(path: string): string {
    path[..Dot(path)]
  }

  /** All segments of a dotted path. */
  function Segments(path: string): (r: seq<string>)
    ensures |r| >= 1
    decreases |path|
  {
    if Dot(path) == |path| then [path] else [Head(path)] + Segments(path[Dot(path) + 1..])
  }

  lemma NoDot(path: string)
    requires '.' !in path
    ensures Dot(path) == |path| && Segments(path) == [path] && Head(path) == path
  {
    assert path[..|path|] == path;
  }

  lemma FirstSegment(path: string)
    ensures Segments(path)[0] == Head(path)
    ensures Dot(path) < |path| ==> Segments(path)[1..] == Segments(path[Dot(path) + 1..])
    ensures Dot(path) == |path| ==> Segments(path) == [Head(path)]
  {
    assert path[..|path|] == path;
  }

  /** The segments with a dot between any two. */
  function Dotted(segments: seq<string>): string
    requires segments != []
  {
    if |segments| == 1 then segments[0] else segments[0] + "." + Dotted(segments[1..])
  }

  /** The path is its segments put together again, and no segment has a dot. */
  lemma {:induction false} SegmentsExactly(path: string)
    ensures Dotted(Segments(path)) == path
    ensures forall i | 0 <= i < |Segments(path)| :: '.' !in Segments(path)[i]
    decreases |path|
  {
    FirstSegment(path);
    if Dot(path) < |path| {
      var rest := path[Dot(path) + 1..];
      SegmentsExactly(rest);
      assert path == Head(path) + "." + rest;
      forall i | 0 <= i < |Segments(path)| ensures '.' !in Segments(path)[i] {
        assert i > 0 ==> Segments(path)[i] == Segments(rest)[i - 1];
      }
    } else {
      NoDot(path);
    }
  }

  // ---------------------------------------------------------------- the filter

  predicate CheckRegex(v: Json, regex: Regex) {
    match v
    case Str(text) => regex(text)
    case Arr(items) => exists i | 0 <= i < |items| :: CheckRegex(items[i], regex)
    case _ => false
  }

  /** Indexing a list with a string fails, and so each item is checked for the first segment alone;
      indexing anything else but an object fails for good. */
  predicate Check(v: Json, path: string, regex: Regex)
    decreases v
  {
    match v
    case Arr(items) => exists i | 0 <= i < |items| :: Check(items[i], Head(path), regex)
    case Obj(fields) =>
      if Head(path) !in fields then false
      else if Dot(path) == |path| then CheckRegex(fields[Head(path)], regex)
      else Check(fields[Head(path)], path[Dot(path) + 1..], regex)
    case _ => false
  }

  /** An empty field or expression switches the filter off. */
  predicate Skipped(event: Json, field: string, pattern: string, regex: Regex) {
    field != "" && pattern != "" && Check(event, field, regex)
  }

  // ---------------------------------------------------------------- what it means

  /** The strings a path leads to, going through lists wherever there are any. */
  function Strings(v: Json, segments: seq<string>): set<string>
    decreases v
  {
    match v
    case Arr(items) => set i, s | 0 <= i < |items| && s in Strings(items[i], segments) :: s
    case Str(text) => if segments == [] then {text} else {}
    case Obj(fields) =>
      if segments == [] || segments[0] !in fields then {} else Strings(fields[segments[0]], segments[1..])
    case Other => {}
  }

  ghost predicate Leads(v: Json, segments: seq<string>, regex: Regex) {
    exists s :: s in Strings(v, segments) && regex(s)
  }

  /** The path up to the first segment that is looked up in a list. */
  function Cut(v: Json, segments: seq<string>): (r: seq<string>)
    requires segments != []
    ensures 1 <= |r| <= |segments| && r == segments[..|r|]
    decreases v
  {
    if |segments| == 1 then segments
    else if v.Arr? then [segments[0]]
    else if v.Obj? && segments[0] in v.fields then [segments[0]] + Cut(v.fields[segments[0]], segments[1..])
    else segments
  }

  lemma {:induction false} RegexMeaning(v: Json, regex: Regex)
    ensures CheckRegex(v, regex) <==> Leads(v, [], regex)
  {
    if v.Arr? {
      forall i | 0 <= i < |v.items| ensures CheckRegex(v.items[i], regex) <==> Leads(v.items[i], [], regex) {
        RegexMeaning(v.items[i], regex);
      }
      ListLeads(v, [], regex);
    }
  }

  lemma ListLeads(v: Json, segments: seq<string>, regex: Regex)
    requires v.Arr?
    ensures Leads(v, segments, regex) <==> exists i | 0 <= i < |v.items| :: Leads(v.items[i], segments, regex)
  {
    if i :| 0 <= i < |v.items| && Leads(v.items[i], segments, regex) {
      var s :| s in Strings(v.items[i], segments) && regex(s);
      assert s in Strings(v, segments);
    }
  }

  /** On every event and path: the filter looks for the strings the path leads to, except that the
      path ends at the first segment it looks up in a list. */
  lemma {:induction false} FilterMeaning(v: Json, path: string, regex: Regex)
    ensures Check(v, path, regex) <==> Leads(v, Cut(v, Segments(path)), regex)
    decreases v
  {
    var head, segments := Head(path), Segments(path);
    FirstSegment(path);
    if v.Arr? {
      NoDot(head);
      forall i | 0 <= i < |v.items| ensures Check(v.items[i], head, regex) <==> Leads(v.items[i], [head], regex) {
        FilterMeaning(v.items[i], head, regex);
      }
      ListLeads(v, [head], regex);
    } else if v.Obj? && head in v.fields {
      CutObject(v, segments);
      if Dot(path) == |path| {
        RegexMeaning(v.fields[head], regex);
      } else {
        FilterMeaning(v.fields[head], path[Dot(path) + 1..], regex);
      }
    }
  }

  lemma CutObject(v: Json, segments: seq<string>)
    requires v.Obj? && segments != [] && segments[0] in v.fields
    ensures var w := v.fields[segments[0]];
            Strings(v, Cut(v, segments))
            == if |segments| == 1 then Strings(w, []) else Strings(w, Cut(w, segments[1..]))
  {
    var w := v.fields[segments[0]];
    if |segments| > 1 {
      var rest := Cut(w, segments[1..]);
      assert ([segments[0]] + rest)[1..] == rest;
    } else {
      assert segments[1..] == [];
    }
  }

  lemma SkippedMeaning(event: Json, field: string, pattern: string, regex: Regex)
    ensures Skipped(event, field, pattern, regex)
            <==> field != "" && pattern != "" && Leads(event, Cut(event, Segments(field)), regex)
  {
    FilterMeaning(event, field, regex);
  }

  // ---------------------------------------------------------------- when that is the whole path

  /** What is found on following the path through objects only. */
  function Follow(v: Json, segments: seq<string>): seq<Json>
    decreases v
  {
    if segments == [] then [v]
    else if v.Obj? && segments[0] in v.fields then Follow(v.fields[segments[0]], segments[1..])
    else []
  }

  /** The first k segments lead to a list. */
  predicate ListAt(v: Json, segments: seq<string>, k: nat)
    requires k <= |segments|
  {
    var found := Follow(v, segments[..k]);
    found != [] && found[0].Arr?
  }

  /** No list is met before the last segment. */
  ghost predicate NoListBefore(v: Json, segments: seq<string>) {
    forall k | 0 <= k < |segments| - 1 :: !ListAt(v, segments, k)
  }

  lemma ListLater(v: Json, segments: seq<string>, k: nat)
    requires 0 < k < |segments|
    ensures ListAt(v, segments, k)
            <==> v.Obj? && segments[0] in v.fields && ListAt(v.fields[segments[0]], segments[1..], k - 1)
  {
    assert segments[..k][1..] == segments[1..][..k - 1];
  }

  lemma {:induction false} CutExactly(v: Json, segments: seq<string>)
    requires segments != []
    ensures Cut(v, segments) == segments <==> NoListBefore(v, segments)
    decreases v
  {
    if |segments| > 1 {
      assert ListAt(v, segments, 0) <==> v.Arr?;
      forall k | 0 < k < |segments| - 1
        ensures ListAt(v, segments, k)
                <==> v.Obj? && segments[0] in v.fields && ListAt(v.fields[segments[0]], segments[1..], k - 1)
      {
        ListLater(v, segments, k);
      }
      if v.Obj? && segments[0] in v.fields {
        var w, rest := v.fields[segments[0]], segments[1..];
        CutExactly(w, rest);
        forall k | 0 <= k < |rest| - 1 ensures ListAt(w, rest, k) <==> ListAt(v, segments, k + 1) {
        }
        if NoListBefore(v, segments) {
          assert NoListBefore(w, rest);
        } else {
          var k :| 0 <= k < |segments| - 1 && ListAt(v, segments, k);
          assert ListAt(w, rest, k - 1);
        }
      }
    }
  }

  /** Otherwise the path ends at the segment that is looked up in the first list. */
  lemma {:induction false} CutAtFirstList(v: Json, segments: seq<string>, k: nat)
    requires k < |segments| - 1 && ListAt(v, segments, k) && forall j | 0 <= j < k :: !ListAt(v, segments, j)
    ensures Cut(v, segments) == segments[..k + 1]
    decreases v
  {
    assert ListAt(v, segments, 0) <==> v.Arr?;
    if k > 0 {
      ListLater(v, segments, k);
      var w, rest := v.fields[segments[0]], segments[1..];
      forall j | 0 <= j < k - 1 ensures !ListAt(w, rest, j) {
        ListLater(v, segments, j + 1);
      }
      CutAtFirstList(w, rest, k - 1);
      assert segments[..k + 1] == [segments[0]] + rest[..k];
    }
  }

  /** On every event where no list is met before the last segment, the filter is true exactly when
      the whole path leads to a matching string. */
  lemma WholePath(v: Json, path: string, regex: Regex)
    requires NoListBefore(v, Segments(path))
    ensures Check(v, path, regex) <==> Leads(v, Segments(path), regex)
  {
    FilterMeaning(v, path, regex);
    CutExactly(v, Segments(path));
  }

  // ---------------------------------------------------------------- which paths are safe

  /** An object with a list of one object under the first segment, and a text under the second. */
  function ListUnder(first: string, second: string, text: string): Json {
    Obj(map[first := Arr([Obj(map[second := Str(text)])])])
  }

  /** A third segment and what follows are dropped: the text matches although no path leads to it. */
  lemma ListDropsPath(path: string, text: string, regex: Regex)
    requires |Segments(path)| >= 3 && regex(text)
    ensures var event := ListUnder(Segments(path)[0], Segments(path)[1], text);
            Check(event, path, regex) && !Leads(event, Segments(path), regex)
  {
    var segments := Segments(path);
    var inner := Obj(map[segments[1] := Str(text)]);
    var list := Arr([inner]);
    var event := ListUnder(segments[0], segments[1], text);
    assert Strings(inner, [segments[1]]) == {text} by {
      assert [segments[1]][1..] == [];
    }
    assert list.items[0] == inner;
    assert text in Strings(list, [segments[1]]);
    assert Cut(event, segments) == [segments[0], segments[1]];
    assert [segments[0], segments[1]][1..] == [segments[1]];
    assert text in Strings(event, [segments[0], segments[1]]);
    FilterMeaning(event, path, regex);
    assert Strings(inner, segments[1..]) == {};
    assert Strings(list, segments[1..]) == {};
  }

  /** The other way round: a string the whole path leads to can be missed. */
  lemma ListHidesString(text: string, regex: Regex)
    requires regex(text)
    ensures var event := Obj(map["a" := Arr([Obj(map["b" := Obj(map["c" := Str(text)])])])]);
            !Check(event, "a.b.c", regex) && Leads(event, ["a", "b", "c"], regex)
  {
    var deep := Obj(map["c" := Str(text)]);
    var inner := Obj(map["b" := deep]);
    var list := Arr([inner]);
    var event := Obj(map["a" := list]);
    assert Dot("a.b.c") == 1 && "a.b.c"[2..] == "b.c" && Head("a.b.c") == "a";
    assert Dot("b.c") == 1 && Head("b.c") == "b";
    NoDot("b");
    assert !Check(inner, "b", regex);
    assert ["a", "b", "c"][1..] == ["b", "c"] && ["b", "c"][1..] == ["c"] && ["c"][1..] == [];
    assert text in Strings(deep, ["c"]);
    assert text in Strings(inner, ["b", "c"]);
    assert list.items[0] == inner;
    assert text in Strings(list, ["b", "c"]);
    assert text in Strings(event, ["a", "b", "c"]);
  }

  /** An expression that matches anything at all is applied to the whole path on every event that is
      an object exactly when the path has at most two segments. */
  lemma SafePaths(path: string, text: string, regex: Regex)
    requires regex(text)
    ensures (forall fields :: Check(Obj(fields), path, regex) <==> Leads(Obj(fields), Segments(path), regex))
            <==> |Segments(path)| <= 2
  {
    var segments := Segments(path);
    if |segments| <= 2 {
      forall fields ensures Check(Obj(fields), path, regex) <==> Leads(Obj(fields), segments, regex) {
        forall k | 0 <= k < |segments| - 1 ensures !ListAt(Obj(fields), segments, k) {
          assert segments[..0] == [];
        }
        WholePath(Obj(fields), path, regex);
      }
    } else {
      ListDropsPath(path, text, regex);
      var event := ListUnder(segments[0], segments[1], text);
      assert event == Obj(event.fields);
    }
  }
}
