/**
  The API configuration: the user's YAML file is normalised, merged into the shared default
  configuration in place, and its path fields are prefixed. A configuration is a tree whose inner
  nodes are dictionaries; its meaning is what stands at each path of keys.
*/
module Configuration {
  import opened Common

  datatype Value =
    | Null
    | Bool(b: bool)
    | Num(n: int)
    | Str(s: string)
    | List(items: seq<Value>)
    | Dict(entries: map<string, Value>)

  const EMPTY := Dict(map[])

  type Path = seq<string>

  // ---------------------------------------------------------------- what stands at a path

  datatype Node = Leaf(value: Value) | Branch

  function NodeAt(v: Value, path: Path): Option<Node> {
    if path == [] then Some(if v.Dict? then Branch else Leaf(v))
    else if v.Dict? && path[0] in v.entries then NodeAt(v.entries[path[0]], path[1..])
    else None
  }

  /** Walking the path ends in a leaf, at its last key or before. */
  predicate Sets(v: Value, path: Path) {
    !v.Dict? || (path != [] && path[0] in v.entries && Sets(v.entries[path[0]], path[1..]))
  }

  lemma KeyNode(v: Value, k: string)
    requires v.Dict?
    ensures NodeAt(v, [k]) == None <==> k !in v.entries
  {
    assert [k][1..] == [];
  }

  /** Trees with the same node at every path are the same tree. */
  lemma {:induction false} SameNodes(a: Value, b: Value)
    requires forall path: Path :: NodeAt(a, path) == NodeAt(b, path)
    ensures a == b
    decreases a
  {
    assert NodeAt(a, []) == NodeAt(b, []);
    if a.Dict? {
      forall k ensures k in a.entries <==> k in b.entries {
        KeyNode(a, k);
        KeyNode(b, k);
        assert NodeAt(a, [k]) == NodeAt(b, [k]);
      }
      forall k | k in a.entries ensures a.entries[k] == b.entries[k] {
        forall path: Path ensures NodeAt(a.entries[k], path) == NodeAt(b.entries[k], path) {
          assert ([k] + path)[1..] == path;
          assert NodeAt(a, [k] + path) == NodeAt(b, [k] + path);
        }
        SameNodes(a.entries[k], b.entries[k]);
      }
      assert a.entries == b.entries;
    }
  }

  // ---------------------------------------------------------------- merging

  /** default_config.get(key, {}) */
  function Under(d: Value, k: string): Value
    requires d.Dict?
  {
    if k in d.entries then d.entries[k] else EMPTY
  }

  /** The merge raises when the user has a non-empty dictionary where the default has a leaf. */
  predicate Mergeable(d: Value, u: Value)
    decreases u
  {
    u.Dict? ==>
      if d.Dict? then forall k | k in u.entries :: Mergeable(Under(d, k), u.entries[k]) else u.entries == map[]
  }

  function Merge(d: Value, u: Value): Value
    requires Mergeable(d, u)
    decreases u
  {
    if !u.Dict? then u
    else if !d.Dict? then d
    else Dict(map k | k in d.entries.Keys + u.entries.Keys ::
                if k in u.entries then Merge(Under(d, k), u.entries[k]) else d.entries[k])
  }

  /** The user has something below a leaf of the default. */
  ghost predicate Clashes(d: Value, u: Value) {
    exists path: Path, k: string :: ClashAt(d, u, path, k)
  }

  predicate ClashAt(d: Value, u: Value, path: Path, k: string) {
    NodeAt(d, path).Some? && NodeAt(d, path).value.Leaf? && NodeAt(u, path + [k]).Some?
  }

  lemma ClashBelow(d: Value, u: Value, key: string, path: Path, k: string)
    requires d.Dict? && u.Dict? && key in u.entries && key in d.entries
    ensures ClashAt(d, u, [key] + path, k) <==> ClashAt(d.entries[key], u.entries[key], path, k)
  {
    assert ([key] + path)[1..] == path && ([key] + path + [k])[1..] == path + [k];
  }

  /** Merging raises if and only if that is so somewhere. */
  lemma {:induction false} MergeableExactly(d: Value, u: Value)
    ensures Mergeable(d, u) <==> !Clashes(d, u)
    decreases u
  {
    if !u.Dict? {
      forall path: Path, k: string ensures !ClashAt(d, u, path, k) {
        assert path + [k] != [];
      }
    } else if !d.Dict? {
      if k :| k in u.entries {
        KeyNode(u, k);
        assert [] + [k] == [k];
        assert ClashAt(d, u, [], k);
      } else {
        assert u.entries == map[];
        forall path: Path, k: string ensures !ClashAt(d, u, path, k) {
          assert path + [k] != [];
        }
      }
    } else {
      MergeableBelow(d, u);
    }
  }

  lemma {:induction false} MergeableBelow(d: Value, u: Value)
    requires d.Dict? && u.Dict?
    ensures Mergeable(d, u) <==> !Clashes(d, u)
    decreases u, 0
  {
    forall key | key in u.entries
      ensures Mergeable(Under(d, key), u.entries[key]) <==> !Clashes(Under(d, key), u.entries[key])
    {
      MergeableExactly(Under(d, key), u.entries[key]);
    }
    if path: Path, k: string :| ClashAt(d, u, path, k) {
      assert path != [] && path == [path[0]] + path[1..];
      assert (path + [k])[0] == path[0];
      ClashBelow(d, u, path[0], path[1..], k);
    }
    if key :| key in u.entries && Clashes(Under(d, key), u.entries[key]) {
      var path: Path, k: string :| ClashAt(Under(d, key), u.entries[key], path, k);
      if key in d.entries {
        ClashBelow(d, u, key, path, k);
      } else {
        NothingInEmpty(path);
      }
    }
  }

  lemma NothingInEmpty(path: Path)
    ensures NodeAt(EMPTY, path) == if path == [] then Some(Branch) else None
  {
  }

  /** The default with only some of the user's items merged in. */
  ghost function MergedSome(d: Value, u: Value, done: set<string>): Value
    requires d.Dict? && u.Dict? && done <= u.entries.Keys
    requires forall k | k in done :: Mergeable(Under(d, k), u.entries[k])
  {
    Dict(map k | k in d.entries.Keys + done :: if k in done then Merge(Under(d, k), u.entries[k]) else d.entries[k])
  }

  lemma MergedOneMore(d: Value, u: Value, done: set<string>, key: string)
    requires d.Dict? && u.Dict? && done <= u.entries.Keys && key in u.entries && key !in done
    requires forall k | k in done + {key} :: Mergeable(Under(d, k), u.entries[k])
    ensures Under(MergedSome(d, u, done), key) == Under(d, key)
    ensures Dict(MergedSome(d, u, done).entries[key := Merge(Under(d, key), u.entries[key])])
            == MergedSome(d, u, done + {key})
  {
  }

  /** What a merge that raised may leave of the default configuration: each key as it was, or merged
      already, or its dictionary in turn half merged; no key lost, none from nowhere. */
  ghost predicate HalfMerged(d: Value, u: Value, m: Value)
    decreases u
  {
    if !d.Dict? || !u.Dict? then m == d
    else
      && m.Dict? && d.entries.Keys <= m.entries.Keys <= d.entries.Keys + u.entries.Keys
      && forall k | k in m.entries ::
           || (k in d.entries && m.entries[k] == d.entries[k])
           || (k in u.entries && Mergeable(Under(d, k), u.entries[k])
               && m.entries[k] == Merge(Under(d, k), u.entries[k]))
           || (k in d.entries && k in u.entries && HalfMerged(d.entries[k], u.entries[k], m.entries[k]))
  }

  lemma SomeIsHalf(d: Value, u: Value, done: set<string>)
    requires d.Dict? && u.Dict? && done <= u.entries.Keys
    requires forall k | k in done :: Mergeable(Under(d, k), u.entries[k])
    ensures HalfMerged(d, u, MergedSome(d, u, done))
  {
  }

  lemma HalfBelow(d: Value, u: Value, done: set<string>, key: string, half: Value)
    requires d.Dict? && u.Dict? && done <= u.entries.Keys && key in u.entries && key in d.entries
    requires forall k | k in done :: Mergeable(Under(d, k), u.entries[k])
    requires HalfMerged(d.entries[key], u.entries[key], half)
    ensures HalfMerged(d, u, Dict(MergedSome(d, u, done).entries[key := half]))
  {
    SomeIsHalf(d, u, done);
  }

  /** The loop over the user's items, updating the default configuration as it goes; a dictionary
      below is updated in place, so that a failure there leaves it half merged. */
  method UpdateDefaultConfig(d: Value, u: Value) returns (ok: bool, merged: Value)
    requires u.Dict?
    ensures ok == Mergeable(d, u)
    ensures ok ==> merged == Merge(d, u)
    ensures !ok ==> HalfMerged(d, u, merged)
    decreases u
  {
    if !d.Dict? {
      return u.entries == map[], d;
    }
    merged := d;
    var left, done: set<string> := u.entries.Keys, {};
    while left != {}
      invariant left + done == u.entries.Keys && left !! done
      invariant forall k | k in done :: Mergeable(Under(d, k), u.entries[k])
      invariant merged == MergedSome(d, u, done)
    {
      var key :| key in left;
      var value := u.entries[key];
      if value.Dict? {
        var base := if key in merged.entries then merged.entries[key] else EMPTY;
        assert base == Under(d, key);
        ok, value := UpdateDefaultConfig(base, value);
        if !ok {
          if key in d.entries {
            HalfBelow(d, u, done, key, value);
            merged := Dict(merged.entries[key := value]);
          } else {
            SomeIsHalf(d, u, done);
          }
          return;
        }
      }
      MergedOneMore(d, u, done, key);
      merged := Dict(merged.entries[key := value]);
      left, done := left - {key}, done + {key};
    }
    ok := true;
  }

  /** At every path: the user's leaf if the user set one there or above, else the default, else
      what the user's empty dictionaries add. */
  lemma {:induction false} MergeNode(d: Value, u: Value, path: Path)
    requires Mergeable(d, u)
    ensures NodeAt(Merge(d, u), path)
            == if Sets(u, path) || NodeAt(d, path) == None then NodeAt(u, path) else NodeAt(d, path)
    decreases u
  {
    if u.Dict? && d.Dict? && path != [] && path[0] in u.entries {
      MergeNode(Under(d, path[0]), u.entries[path[0]], path[1..]);
    }
  }

  // ---------------------------------------------------------------- normalising

  /** Any way of lowering the case that has nothing left to do the second time. */
  type Lowering = f: string -> string | forall s :: f(f(s)) == f(s) witness s => s

  /** The one of the Python strings. */
  const LOWER: Lowering

  function Lower(s: string): string {
    LOWER(s)
  }

  lemma LowerTwice(s: string)
    ensures Lower(Lower(s)) == Lower(s)
  {
  }

  function FullKey(prefix: string, k: string): string {
    if prefix == "" then k else prefix + "." + k
  }

  /** dict_to_lowercase, on a dictionary found under the dotted prefix. */
  function Lowercased(v: Value, skip: set<string>, prefix: string): Value {
    match v
    case Str(s) => if prefix in skip then v else Str(Lower(s))
    case Dict(entries) => Dict(map k | k in entries :: Lowercased(entries[k], skip, FullKey(prefix, k)))
    case _ => v
  }

  function Booleans(v: Value): Value {
    match v
    case Str(s) => if Lower(s) == "yes" then Bool(true) else if Lower(s) == "no" then Bool(false) else v
    case Dict(entries) => Dict(map k | k in entries :: Booleans(entries[k]))
    case _ => v
  }

  /** The dotted name under which dict_to_lowercase looks a path up. */
  function Dotted(prefix: string, path: Path): string
    decreases |path|
  {
    if path == [] then prefix else Dotted(FullKey(prefix, path[0]), path[1..])
  }

  function LowerLeaf(v: Value, skipped: bool): Value {
    if v.Str? && !skipped then Str(Lower(v.s)) else v
  }

  /** Exactly the string leaves whose dotted path is not skipped change, to their lower case. */
  lemma {:induction false} LowercasedNode(v: Value, skip: set<string>, prefix: string, path: Path)
    ensures NodeAt(Lowercased(v, skip, prefix), path)
            == match NodeAt(v, path)
               case Some(Leaf(x)) => Some(Leaf(LowerLeaf(x, Dotted(prefix, path) in skip)))
               case other => other
    decreases v
  {
    if v.Dict? && path != [] && path[0] in v.entries {
      LowercasedNode(v.entries[path[0]], skip, FullKey(prefix, path[0]), path[1..]);
    }
  }

  function BoolLeaf(v: Value): Value {
    if v.Str? && Lower(v.s) == "yes" then Bool(true) else if v.Str? && Lower(v.s) == "no" then Bool(false) else v
  }

  /** Exactly the string leaves that read yes or no in some case change, to true and false. */
  lemma {:induction false} BooleansNode(v: Value, path: Path)
    ensures NodeAt(Booleans(v), path)
            == match NodeAt(v, path)
               case Some(Leaf(x)) => Some(Leaf(BoolLeaf(x)))
               case other => other
    decreases v
  {
    if v.Dict? && path != [] && path[0] in v.entries {
      BooleansNode(v.entries[path[0]], path[1..]);
    }
  }

  lemma {:induction false} LowercasedTwice(v: Value, skip: set<string>, prefix: string)
    ensures Lowercased(Lowercased(v, skip, prefix), skip, prefix) == Lowercased(v, skip, prefix)
    decreases v
  {
    match v
    case Str(s) => LowerTwice(s);
    case Dict(entries) =>
      forall k | k in entries { LowercasedTwice(entries[k], skip, FullKey(prefix, k)); }
    case _ =>
  }

  /** Replacing yes and no by booleans and lowering the case can be done in either order. */
  lemma {:induction false} NormaliseCommutes(v: Value, skip: set<string>, prefix: string)
    ensures Lowercased(Booleans(v), skip, prefix) == Booleans(Lowercased(v, skip, prefix))
    decreases v
  {
    match v
    case Str(s) => LowerTwice(s);
    case Dict(entries) =>
      forall k | k in entries { NormaliseCommutes(entries[k], skip, FullKey(prefix, k)); }
    case _ =>
  }

  /** The loop of dict_to_lowercase over string and dictionary values. */
  method DictToLowercase(v: Value, skip: set<string>, prefix: string) returns (r: Value)
    requires v.Dict?
    ensures r == Lowercased(v, skip, prefix)
    decreases v
  {
    var m := v.entries;
    var left := v.entries.Keys;
    while left != {}
      invariant left <= v.entries.Keys == m.Keys
      invariant forall k | k in m ::
                  m[k] == if k in left then v.entries[k] else Lowercased(v.entries[k], skip, FullKey(prefix, k))
    {
      var k :| k in left;
      var fullKey := FullKey(prefix, k);
      if v.entries[k].Dict? {
        var sub := DictToLowercase(v.entries[k], skip, fullKey);
        m := m[k := sub];
      } else if v.entries[k].Str? && fullKey !in skip {
        m := m[k := Str(Lower(v.entries[k].s))];
      }
      left := left - {k};
    }
    r := Dict(m);
  }

  /** The loop of replace_bools over the keys. */
  method ReplaceBools(v: Value) returns (r: Value)
    requires v.Dict?
    ensures r == Booleans(v)
    decreases v
  {
    var m := v.entries;
    var left := v.entries.Keys;
    while left != {}
      invariant left <= v.entries.Keys == m.Keys
      invariant forall k | k in m :: m[k] == if k in left then v.entries[k] else Booleans(v.entries[k])
    {
      var k :| k in left;
      if v.entries[k].Dict? {
        var sub := ReplaceBools(v.entries[k]);
        m := m[k := sub];
      } else if v.entries[k].Str? {
        if Lower(v.entries[k].s) == "yes" {
          m := m[k := Bool(true)];
        } else if Lower(v.entries[k].s) == "no" {
          m := m[k := Bool(false)];
        }
      }
      left := left - {k};
    }
    r := Dict(m);
  }

  // ---------------------------------------------------------------- path prefixes

  /** os.path.join of two parts. */
  function JoinPath(prefix: string, s: string): string {
    if s != "" && s[0] == '/' then s
    else if prefix == "" || prefix[|prefix| - 1] == '/' then prefix + s
    else prefix + "/" + s
  }

  predicate Absolute(s: string) {
    s != "" && s[0] == '/'
  }

  /** Prefixing raises when the section is not a dictionary or the field is not a string. */
  predicate Prefixable(v: Value, field: (string, string)) {
    v.Dict? && (field.0 in v.entries ==>
                  v.entries[field.0].Dict? && (field.1 in v.entries[field.0].entries ==>
                                                 v.entries[field.0].entries[field.1].Str?))
  }

  function Prefixed(v: Value, prefix: string, field: (string, string)): Value
    requires Prefixable(v, field)
  {
    if field.0 in v.entries && field.1 in v.entries[field.0].entries then
      var section := v.entries[field.0].entries;
      Dict(v.entries[field.0 := Dict(section[field.1 := Str(JoinPath(prefix, section[field.1].s))])])
    else v
  }

  function PrefixLeaf(v: Value, prefix: string): Value {
    if v.Str? then Str(JoinPath(prefix, v.s)) else v
  }

  lemma PrefixTwice(v: Value, prefix: string)
    requires Absolute(prefix)
    ensures PrefixLeaf(PrefixLeaf(v, prefix), prefix) == PrefixLeaf(v, prefix)
  {
  }

  /** Only the field's own path changes. */
  lemma PrefixedNode(v: Value, prefix: string, field: (string, string), path: Path)
    requires Prefixable(v, field)
    ensures NodeAt(Prefixed(v, prefix, field), path) == PrefixNode(path == [field.0, field.1], prefix, NodeAt(v, path))
  {
    var (a, b) := field;
    if |path| >= 2 && path[0] == a && path[1] == b && a in v.entries && b in v.entries[a].entries {
      assert NodeAt(v, path) == NodeAt(v.entries[a].entries[b], path[1..][1..]);
      var w := Prefixed(v, prefix, field);
      assert NodeAt(w, path) == NodeAt(w.entries[a].entries[b], path[1..][1..]);
      assert |path| == 2 <==> path == [a, b];
    } else {
      assert path == [a, b] ==> path[1..] == [b];
    }
  }

  function PrefixNode(isField: bool, prefix: string, node: Option<Node>): Option<Node> {
    match node
    case Some(Leaf(x)) => Some(Leaf(if isField then PrefixLeaf(x, prefix) else x))
    case _ => node
  }

  type Fields = seq<(string, string)>

  predicate IsField(fields: Fields, path: Path) {
    |path| == 2 && (path[0], path[1]) in fields
  }

  predicate AllPrefixable(v: Value, fields: Fields) {
    v.Dict? && forall f | f in fields :: Prefixable(v, f)
  }

  lemma PrefixedStays(v: Value, prefix: string, field: (string, string), other: (string, string))
    requires Prefixable(v, field) && Prefixable(v, other)
    ensures Prefixable(Prefixed(v, prefix, field), other)
  {
  }

  function PrefixAll(v: Value, prefix: string, fields: Fields): Value
    requires AllPrefixable(v, fields)
    decreases |fields|
  {
    if fields == [] then v
    else
      assert forall f | f in fields[1..] :: Prefixable(Prefixed(v, prefix, fields[0]), f) by {
        forall f | f in fields[1..] { PrefixedStays(v, prefix, fields[0], f); }
      }
      PrefixAll(Prefixed(v, prefix, fields[0]), prefix, fields[1..])
  }

  lemma {:induction false} PrefixMore(v: Value, prefix: string, fields: Fields, i: nat)
    requires i < |fields| && AllPrefixable(v, fields[..i + 1])
    ensures AllPrefixable(v, fields[..i])
    ensures Prefixable(PrefixAll(v, prefix, fields[..i]), fields[i])
    ensures PrefixAll(v, prefix, fields[..i + 1]) == Prefixed(PrefixAll(v, prefix, fields[..i]), prefix, fields[i])
    decreases i
  {
    var some := fields[..i + 1];
    forall f | f in fields[..i] ensures Prefixable(v, f) { assert f in some; }
    assert fields[i] in some;
    if i > 0 {
      var w := Prefixed(v, prefix, fields[0]);
      var rest := fields[1..];
      assert some[0] == fields[0] && some[1..] == rest[..i] && fields[..i][1..] == rest[..i - 1]
             && fields[..i][0] == fields[0];
      forall f | f in rest[..i] ensures Prefixable(w, f) {
        assert f in some;
        PrefixedStays(v, prefix, fields[0], f);
      }
      PrefixMore(w, prefix, rest, i - 1);
    } else {
      assert some == [fields[0]] && some[1..] == [] && fields[..0] == [];
    }
  }

  /** What prefixing that raised leaves: the fields before the first that cannot be prefixed are done. */
  ghost predicate HalfPrefixed(v: Value, prefix: string, fields: Fields, r: Value) {
    exists i | 0 <= i < |fields| ::
      !Prefixable(v, fields[i]) && AllPrefixable(v, fields[..i]) && r == PrefixAll(v, prefix, fields[..i])
  }

  /** append_guardsarm_prefixes for one prefix: false when it raises. */
  method AppendPrefixes(v: Value, prefix: string, fields: Fields) returns (ok: bool, r: Value)
    requires v.Dict?
    ensures ok == AllPrefixable(v, fields)
    ensures if ok then r == PrefixAll(v, prefix, fields) else HalfPrefixed(v, prefix, fields, r)
  {
    r := v;
    for i := 0 to |fields|
      invariant r.Dict? && AllPrefixable(v, fields[..i]) && r == PrefixAll(v, prefix, fields[..i])
      invariant forall f: (string, string) :: Prefixable(v, f) <==> Prefixable(r, f)
    {
      var (section, subsection) := fields[i];
      assert Prefixable(v, fields[i]) <==> Prefixable(r, fields[i]);
      ghost var before := r;
      if section in r.entries {
        if !r.entries[section].Dict? {
          return false, r;
        }
        var sub := r.entries[section].entries;
        if subsection in sub {
          if !sub[subsection].Str? {
            return false, r;
          }
          r := Dict(r.entries[section := Dict(sub[subsection := Str(JoinPath(prefix, sub[subsection].s))])]);
        }
      }
      assert r == Prefixed(before, prefix, fields[i]);
      assert fields[..i + 1] == fields[..i] + [fields[i]];
      PrefixMore(v, prefix, fields, i);
    }
    assert fields[..|fields|] == fields;
    ok := true;
  }

  lemma {:induction false} PrefixAllNode(v: Value, prefix: string, fields: Fields, path: Path)
    requires AllPrefixable(v, fields) && Absolute(prefix)
    ensures NodeAt(PrefixAll(v, prefix, fields), path) == PrefixNode(IsField(fields, path), prefix, NodeAt(v, path))
    decreases |fields|
  {
    if fields != [] {
      var w := Prefixed(v, prefix, fields[0]);
      forall f | f in fields[1..] ensures Prefixable(w, f) { PrefixedStays(v, prefix, fields[0], f); }
      PrefixAllNode(w, prefix, fields[1..], path);
      PrefixedNode(v, prefix, fields[0], path);
      assert IsField(fields, path) <==> path == [fields[0].0, fields[0].1] || IsField(fields[1..], path);
    }
  }

  // ---------------------------------------------------------------- reading the file

  const PRESERVE_CASE: set<string> := {"https.key", "https.cert", "https.ca"}
  const PATH_FIELDS: Fields := [("https", "key"), ("https", "cert"), ("https", "ca")]

  function Normalised(c: Value): Value {
    Lowercased(Booleans(c), PRESERVE_CASE, "")
  }

  /** Nothing raises while u, normalised and valid, is read over the defaults d. */
  predicate Readable(d: Value, u: Value) {
    d.Dict? && u.Dict? && Mergeable(d, u) && AllPrefixable(Merge(d, u), PATH_FIELDS)
  }

  function ReadOver(d: Value, u: Value, prefix: string): Value
    requires Readable(d, u)
  {
    PrefixAll(Merge(d, u), prefix, PATH_FIELDS)
  }

  // ---------------------------------------------------------------- what a read makes of the file

  /** The three fields that hold paths. */
  predicate IsPathField(path: Path) {
    path == ["https", "key"] || path == ["https", "cert"] || path == ["https", "ca"]
  }

  /** r is the path s seen from the prefix: s itself if it is absolute, else the prefix and s with a
      slash between them, the prefix's own if it ends in one. */
  predicate SeenFrom(prefix: string, s: string, r: string)
    requires prefix != ""
  {
    if s != "" && s[0] == '/' then r == s
    else
      var slash := if prefix[|prefix| - 1] == '/' then 0 else 1;
      && |r| == |prefix| + slash + |s|
      && r[..|prefix|] == prefix && r[|prefix| + slash..] == s
      && (slash == 1 ==> r[|prefix|] == '/')
  }

  lemma JoinedPath(prefix: string, s: string)
    requires prefix != ""
    ensures SeenFrom(prefix, s, JoinPath(prefix, s))
  {
  }

  /** What becomes of a leaf: a path is seen from the prefix; yes and no become booleans; any other
      string of the file is lowered, unless its dotted name is that of a path. */
  ghost predicate LeafRead(path: Path, inFile: bool, prefix: string, x: Value, r: Value)
    requires prefix != ""
  {
    if IsPathField(path) then x.Str? && r.Str? && SeenFrom(prefix, x.s, r.s)
    else if !inFile || !x.Str? then r == x
    else if Lower(x.s) == "yes" then r == Bool(true)
    else if Lower(x.s) == "no" then r == Bool(false)
    else if Dotted("", path) in {"https.key", "https.cert", "https.ca"} then r == x
    else r == Str(Lower(x.s))
  }

  /** What stands at a path after a file was read over the defaults d: what the file sets, else the
      default, else what the file's empty dictionaries add. */
  ghost predicate NodeRead(d: Value, file: Value, prefix: string, path: Path, r: Option<Node>)
    requires prefix != ""
  {
    var inFile := Sets(file, path) || NodeAt(d, path) == None;
    var node := if inFile then NodeAt(file, path) else NodeAt(d, path);
    if node.Some? && node.value.Leaf?
    then r.Some? && r.value.Leaf? && LeafRead(path, inFile, prefix, node.value.value, r.value.value)
    else r == node
  }

  /** The same at every path. */
  ghost predicate Reads(d: Value, file: Value, prefix: string, r: Value)
    requires prefix != ""
  {
    forall path: Path :: NodeRead(d, file, prefix, path, NodeAt(r, path))
  }

  lemma {:induction false} BooleansSets(v: Value, path: Path)
    ensures Sets(Booleans(v), path) <==> Sets(v, path)
    decreases v
  {
    if v.Dict? && path != [] && path[0] in v.entries {
      BooleansSets(v.entries[path[0]], path[1..]);
    }
  }

  lemma {:induction false} LowercasedSets(v: Value, skip: set<string>, prefix: string, path: Path)
    ensures Sets(Lowercased(v, skip, prefix), path) <==> Sets(v, path)
    decreases v
  {
    if v.Dict? && path != [] && path[0] in v.entries {
      LowercasedSets(v.entries[path[0]], skip, FullKey(prefix, path[0]), path[1..]);
    }
  }

  /** What normalising leaves of a leaf. */
  function NormalLeaf(path: Path, x: Value): Value {
    LowerLeaf(BoolLeaf(x), Dotted("", path) in PRESERVE_CASE)
  }

  lemma NormalisedNode(file: Value, path: Path)
    ensures Sets(Normalised(file), path) <==> Sets(file, path)
    ensures var node := NodeAt(file, path);
            NodeAt(Normalised(file), path)
            == if node.Some? && node.value.Leaf? then Some(Leaf(NormalLeaf(path, node.value.value))) else node
  {
    BooleansSets(file, path);
    LowercasedSets(Booleans(file), PRESERVE_CASE, "", path);
    BooleansNode(file, path);
    LowercasedNode(Booleans(file), PRESERVE_CASE, "", path);
  }

  lemma PathFields(path: Path)
    ensures IsField(PATH_FIELDS, path) <==> IsPathField(path)
    ensures IsPathField(path) ==> Dotted("", path) in {"https.key", "https.cert", "https.ca"}
  {
    assert PATH_FIELDS == [("https", "key"), ("https", "cert"), ("https", "ca")];
    if |path| == 2 {
      assert path == [path[0], path[1]];
      DottedTwo(path[0], path[1]);
    }
    assert "https" + "." + "key" == "https.key" && "https" + "." + "cert" == "https.cert"
           && "https" + "." + "ca" == "https.ca";
  }

  lemma {:induction false} DottedTwo(a: string, b: string)
    ensures Dotted("", [a, b]) == FullKey(a, b)
  {
    assert [a, b][1..] == [b] && [b][1..] == [];
    assert Dotted(FullKey(a, b), []) == FullKey(a, b);
    assert Dotted(a, [b]) == Dotted(FullKey(a, b), [b][1..]);
    assert Dotted("", [a, b]) == Dotted(a, [a, b][1..]);
  }

  /** A string that is kept as it is or lowered, seen from the prefix if it is a path. */
  lemma LeafIsRead(path: Path, inFile: bool, prefix: string, x: Value)
    requires prefix != ""
    requires IsPathField(path) ==> (if inFile then NormalLeaf(path, x) else x).Str?
    ensures var y := if inFile then NormalLeaf(path, x) else x;
            LeafRead(path, inFile, prefix, x, if IsField(PATH_FIELDS, path) then PrefixLeaf(y, prefix) else y)
  {
    PathFields(path);
    if x.Str? {
      JoinedPath(prefix, x.s);
    }
  }

  lemma PathFieldIsText(v: Value, path: Path)
    requires AllPrefixable(v, PATH_FIELDS) && IsPathField(path)
    ensures NodeAt(v, path) == None || (NodeAt(v, path).value.Leaf? && NodeAt(v, path).value.value.Str?)
  {
    PathFields(path);
    PrefixableNodes(v, (path[0], path[1]));
    assert path == [path[0], path[1]];
  }

  /** Reading a file, told from the raw file and the defaults, path by path. */
  lemma ReadFile(d: Value, file: Value, prefix: string)
    requires Readable(d, Normalised(file)) && Absolute(prefix)
    ensures Reads(d, file, prefix, ReadOver(d, Normalised(file), prefix))
  {
    forall path: Path ensures NodeRead(d, file, prefix, path, NodeAt(ReadOver(d, Normalised(file), prefix), path)) {
      ReadFileNode(d, file, prefix, path);
    }
  }

  lemma ReadFileNode(d: Value, file: Value, prefix: string, path: Path)
    requires Readable(d, Normalised(file)) && Absolute(prefix)
    ensures NodeRead(d, file, prefix, path, NodeAt(ReadOver(d, Normalised(file), prefix), path))
  {
    var u := Normalised(file);
    var merged := Merge(d, u);
    MergeNode(d, u, path);
    PrefixAllNode(merged, prefix, PATH_FIELDS, path);
    NormalisedNode(file, path);
    if IsPathField(path) {
      PathFieldIsText(merged, path);
    }
    var inFile := Sets(file, path) || NodeAt(d, path) == None;
    var node := if inFile then NodeAt(file, path) else NodeAt(d, path);
    if node.Some? && node.value.Leaf? {
      LeafIsRead(path, inFile, prefix, node.value.value);
    }
  }

  /** Without a file the configuration is the defaults, with the paths seen from the prefix. */
  lemma ReadNoFile(d: Value, prefix: string)
    requires AllPrefixable(d, PATH_FIELDS) && Absolute(prefix)
    ensures Reads(d, EMPTY, prefix, PrefixAll(d, prefix, PATH_FIELDS))
  {
    forall path: Path ensures NodeRead(d, EMPTY, prefix, path, NodeAt(PrefixAll(d, prefix, PATH_FIELDS), path)) {
      PrefixAllNode(d, prefix, PATH_FIELDS, path);
      NothingInEmpty(path);
      if IsPathField(path) {
        PathFieldIsText(d, path);
      }
      var node := NodeAt(d, path);
      if node.Some? && node.value.Leaf? {
        LeafIsRead(path, false, prefix, node.value.value);
      }
    }
  }

  // ---------------------------------------------------------------- the reader

  /** What a read that raised leaves of the shared defaults. */
  ghost predicate HalfRead(d: Value, u: Value, prefix: string, m: Value) {
    if Mergeable(d, u) then HalfPrefixed(Merge(d, u), prefix, PATH_FIELDS, m) else HalfMerged(d, u, m)
  }

  datatype Result = Config(v: Value) | Invalid | TypeError

  /** The module's shared default configuration; with a file to read, the configuration returned is
      that same object, merged and prefixed in place. */
  class Reader {
    var defaults: Value

    constructor (defaults: Value)
      requires defaults.Dict?
      ensures this.defaults == defaults
    {
      this.defaults := defaults;
    }

    method ReadYamlConfig(file: Option<Value>, prefix: string, valid: Value -> bool) returns (result: Result)
      requires defaults.Dict? && (file.Some? ==> file.value.Dict?)
      modifies this
      ensures file.None? ==> defaults == old(defaults)
      ensures file.None? ==>
                result == if AllPrefixable(defaults, PATH_FIELDS)
                          then Config(PrefixAll(defaults, prefix, PATH_FIELDS)) else TypeError
      ensures file.Some? && !valid(Normalised(file.value)) ==> result == Invalid && defaults == old(defaults)
      ensures file.Some? && valid(Normalised(file.value)) ==>
                if Readable(old(defaults), Normalised(file.value))
                then defaults == ReadOver(old(defaults), Normalised(file.value), prefix) && result == Config(defaults)
                else result == TypeError && HalfRead(old(defaults), Normalised(file.value), prefix, defaults)
      ensures result.Config? && Absolute(prefix) ==>
                Reads(old(defaults), if file.Some? then file.value else EMPTY, prefix, result.v)
    {
      var configuration := defaults;
      var ok := true;
      if file.Some? {
        var user := ReplaceBools(file.value);
        user := DictToLowercase(user, PRESERVE_CASE, "");
        if !valid(user) {
          return Invalid;
        }
        ok, configuration := UpdateDefaultConfig(defaults, user);
        defaults := configuration;
        if !ok {
          return TypeError;
        }
      }
      ok, configuration := AppendPrefixes(configuration, prefix, PATH_FIELDS);
      if file.Some? {
        defaults := configuration;
      }
      if ok && Absolute(prefix) {
        if file.Some? {
          ReadFile(old(defaults), file.value, prefix);
        } else {
          ReadNoFile(old(defaults), prefix);
        }
      }
      return if ok then Config(configuration) else TypeError;
    }
  }

  lemma ReadNode(d: Value, u: Value, prefix: string, path: Path)
    requires Readable(d, u) && Absolute(prefix)
    ensures NodeAt(ReadOver(d, u, prefix), path)
            == PrefixNode(IsField(PATH_FIELDS, path), prefix, Over(u, path, NodeAt(d, path)))
  {
    MergeNode(d, u, path);
    PrefixAllNode(Merge(d, u), prefix, PATH_FIELDS, path);
  }

  /** The node that u leaves at a path where there was another one before. */
  function Over(u: Value, path: Path, before: Option<Node>): Option<Node> {
    if Sets(u, path) || before == None then NodeAt(u, path) else before
  }

  lemma PrefixNodeTwice(isField: bool, prefix: string, node: Option<Node>)
    requires Absolute(prefix)
    ensures PrefixNode(isField, prefix, PrefixNode(isField, prefix, node)) == PrefixNode(isField, prefix, node)
  {
    if node.Some? && node.value.Leaf? {
      PrefixTwice(node.value.value, prefix);
    }
  }

  // ---------------------------------------------------------------- many reads

  /** Each file in turn can be read over what the ones before it left. */
  predicate AllReadable(d: Value, us: seq<Value>, prefix: string)
    decreases |us|, 0
  {
    us == [] || (AllReadable(d, us[..|us| - 1], prefix)
                 && Readable(AfterReads(d, us[..|us| - 1], prefix), us[|us| - 1]))
  }

  function AfterReads(d: Value, us: seq<Value>, prefix: string): Value
    requires AllReadable(d, us, prefix)
    decreases |us|, 1
  {
    if us == [] then d else ReadOver(AfterReads(d, us[..|us| - 1], prefix), us[|us| - 1], prefix)
  }

  /** What the last file to say something about a path says, else the original default. */
  function LastWord(d: Value, us: seq<Value>, path: Path): Option<Node> {
    if us == [] then NodeAt(d, path) else Over(us[|us| - 1], path, LastWord(d, us[..|us| - 1], path))
  }

  /** However many files were read, the shared defaults hold at every path the last word on it, the
      path fields prefixed once. */
  lemma {:induction false} ReadsAccumulate(d: Value, us: seq<Value>, prefix: string, path: Path)
    requires AllReadable(d, us, prefix) && Absolute(prefix) && us != []
    ensures NodeAt(AfterReads(d, us, prefix), path)
            == PrefixNode(IsField(PATH_FIELDS, path), prefix, LastWord(d, us, path))
    decreases |us|
  {
    var n := |us| - 1;
    var before := us[..n];
    ReadNode(AfterReads(d, before, prefix), us[n], prefix, path);
    if n > 0 {
      ReadsAccumulate(d, before, prefix, path);
      PrefixNodeTwice(IsField(PATH_FIELDS, path), prefix, LastWord(d, before, path));
    }
  }

  // ---------------------------------------------------------------- reading the same file again

  lemma {:induction false} MergeableAgain(d: Value, u: Value)
    requires Mergeable(d, u)
    ensures Mergeable(Merge(d, u), u)
    decreases u
  {
    if u.Dict? && d.Dict? {
      forall k | k in u.entries { MergeableAgain(Under(d, k), u.entries[k]); }
    }
  }

  /** Dictionaries stand at the same paths, and leaves too. */
  ghost predicate SameShape(a: Value, b: Value) {
    forall path: Path ::
      && (NodeAt(a, path) == None <==> NodeAt(b, path) == None)
      && (NodeAt(a, path) == Some(Branch) <==> NodeAt(b, path) == Some(Branch))
  }

  lemma {:induction false} MergeableByShape(a: Value, b: Value, u: Value)
    requires Mergeable(a, u) && SameShape(a, b)
    ensures Mergeable(b, u)
    decreases u
  {
    assert NodeAt(a, []) == Some(Branch) <==> NodeAt(b, []) == Some(Branch);
    if u.Dict? && a.Dict? {
      forall k | k in u.entries ensures Mergeable(Under(b, k), u.entries[k]) {
        assert NodeAt(a, [k]) == None <==> NodeAt(b, [k]) == None;
        if k in a.entries {
          forall path: Path
            ensures NodeAt(a.entries[k], path) == None <==> NodeAt(b.entries[k], path) == None
            ensures NodeAt(a.entries[k], path) == Some(Branch) <==> NodeAt(b.entries[k], path) == Some(Branch)
          {
            assert ([k] + path)[1..] == path;
            assert NodeAt(a, [k] + path) == None <==> NodeAt(b, [k] + path) == None;
          }
        }
        MergeableByShape(Under(a, k), Under(b, k), u.entries[k]);
      }
    }
  }

  lemma PrefixableNodes(v: Value, field: (string, string))
    requires v.Dict?
    ensures Prefixable(v, field) <==>
            && (NodeAt(v, [field.0]) == None || NodeAt(v, [field.0]) == Some(Branch))
            && (var n := NodeAt(v, [field.0, field.1]); n == None || (n.value.Leaf? && n.value.value.Str?))
  {
    var (a, b) := field;
    assert [a, b][1..] == [b] && [a][1..] == [] && [b][1..] == [];
    assert NodeAt(v, [a]) == if a in v.entries then NodeAt(v.entries[a], []) else None;
    assert NodeAt(v, [a, b]) == if a in v.entries then NodeAt(v.entries[a], [b]) else None;
    if a in v.entries && v.entries[a].Dict? && b in v.entries[a].entries {
      assert NodeAt(v.entries[a], [b]) == NodeAt(v.entries[a].entries[b], []);
    }
  }

  /** Reading a file over its own result changes no node but a path field the file sets, and that
      one only back to what the file says. */
  lemma MergeAgainNode(d: Value, u: Value, prefix: string, path: Path)
    requires Readable(d, u) && Absolute(prefix) && Mergeable(ReadOver(d, u, prefix), u)
    ensures var again, first := NodeAt(Merge(ReadOver(d, u, prefix), u), path), NodeAt(Merge(d, u), path);
            again == first || again == PrefixNode(IsField(PATH_FIELDS, path), prefix, first)
  {
    MergeNode(d, u, path);
    ReadNode(d, u, prefix, path);
    MergeNode(ReadOver(d, u, prefix), u, path);
  }

  lemma ReadableAgain(d: Value, u: Value, prefix: string)
    requires Readable(d, u) && Absolute(prefix)
    ensures Readable(ReadOver(d, u, prefix), u)
  {
    var m, r := Merge(d, u), ReadOver(d, u, prefix);
    MergeableAgain(d, u);
    forall path: Path
      ensures NodeAt(m, path) == None <==> NodeAt(r, path) == None
      ensures NodeAt(m, path) == Some(Branch) <==> NodeAt(r, path) == Some(Branch)
    {
      PrefixAllNode(m, prefix, PATH_FIELDS, path);
    }
    assert NodeAt(m, []) == Some(Branch) <==> NodeAt(r, []) == Some(Branch);
    MergeableByShape(m, r, u);
    forall f | f in PATH_FIELDS ensures Prefixable(Merge(r, u), f) {
      PrefixableNodes(m, f);
      MergeAgainNode(d, u, prefix, [f.0]);
      MergeAgainNode(d, u, prefix, [f.0, f.1]);
      PrefixableNodes(Merge(r, u), f);
    }
  }

  /** Reading the same file twice gives the same configuration: what it sets is set again, and a
      prefixed path is absolute, so that prefixing it once more changes nothing. */
  lemma RereadSame(d: Value, u: Value, prefix: string)
    requires Readable(d, u) && Absolute(prefix)
    ensures Readable(ReadOver(d, u, prefix), u)
    ensures ReadOver(ReadOver(d, u, prefix), u, prefix) == ReadOver(d, u, prefix)
  {
    ReadableAgain(d, u, prefix);
    var r := ReadOver(d, u, prefix);
    forall path: Path ensures NodeAt(ReadOver(r, u, prefix), path) == NodeAt(r, path) {
      ReadNode(d, u, prefix, path);
      ReadNode(r, u, prefix, path);
      PrefixNodeTwice(IsField(PATH_FIELDS, path), prefix, NodeAt(u, path));
      PrefixNodeTwice(IsField(PATH_FIELDS, path), prefix, NodeAt(d, path));
    }
    SameNodes(ReadOver(r, u, prefix), r);
  }

  // ---------------------------------------------------------------- reading another file

  lemma {:induction false} UnsetHasNoLeaf(b: Value, path: Path)
    requires !Sets(b, path)
    ensures NodeAt(b, path) == None || NodeAt(b, path) == Some(Branch)
    decreases b
  {
    if path != [] && path[0] in b.entries {
      UnsetHasNoLeaf(b.entries[path[0]], path[1..]);
    }
  }

  lemma ReadUnsetNode(d: Value, b: Value, prefix: string, path: Path)
    requires Absolute(prefix) && Readable(d, b) && !Sets(b, path)
    ensures NodeAt(ReadOver(d, b, prefix), path)
            == Over(b, path, PrefixNode(IsField(PATH_FIELDS, path), prefix, NodeAt(d, path)))
  {
    ReadNode(d, b, prefix, path);
    UnsetHasNoLeaf(b, path);
  }

  /** At a path that b does not set: what b makes of the configuration before it. */
  ghost predicate SameForB(b: Value, path: Path, x: Value, y: Value) {
    Sets(b, path) || Over(b, path, NodeAt(x, path)) == Over(b, path, NodeAt(y, path))
  }

  lemma SecondFileNode(d: Value, a: Value, b: Value, prefix: string, path: Path)
    requires Absolute(prefix) && Readable(d, a) && Readable(d, b) && AllPrefixable(d, PATH_FIELDS)
    requires Readable(ReadOver(d, a, prefix), b)
    ensures NodeAt(ReadOver(ReadOver(d, a, prefix), b, prefix), path) == NodeAt(ReadOver(d, b, prefix), path)
            <==> SameForB(b, path, ReadOver(d, a, prefix), PrefixAll(d, prefix, PATH_FIELDS))
  {
    var r := ReadOver(d, a, prefix);
    if Sets(b, path) {
      ReadNode(d, b, prefix, path);
      ReadNode(r, b, prefix, path);
    } else {
      ReadUnsetNode(d, b, prefix, path);
      ReadUnsetNode(r, b, prefix, path);
      ReadNode(d, a, prefix, path);
      PrefixAllNode(d, prefix, PATH_FIELDS, path);
      PrefixNodeTwice(IsField(PATH_FIELDS, path), prefix, Over(a, path, NodeAt(d, path)));
    }
  }

  /** At every path that b does not set, the configuration read from a is that of the defaults. */
  ghost predicate FirstLeavesDefaults(d: Value, a: Value, b: Value, prefix: string)
    requires Readable(d, a) && AllPrefixable(d, PATH_FIELDS)
  {
    forall path: Path :: SameForB(b, path, ReadOver(d, a, prefix), PrefixAll(d, prefix, PATH_FIELDS))
  }

  lemma SecondFileNeeds(d: Value, a: Value, b: Value, prefix: string)
    requires Absolute(prefix) && Readable(d, a) && Readable(d, b) && AllPrefixable(d, PATH_FIELDS)
    requires Readable(ReadOver(d, a, prefix), b)
    requires ReadOver(ReadOver(d, a, prefix), b, prefix) == ReadOver(d, b, prefix)
    ensures FirstLeavesDefaults(d, a, b, prefix)
  {
    forall path: Path ensures SameForB(b, path, ReadOver(d, a, prefix), PrefixAll(d, prefix, PATH_FIELDS)) {
      SecondFileNode(d, a, b, prefix, path);
    }
  }

  lemma SecondFileEnough(d: Value, a: Value, b: Value, prefix: string)
    requires Absolute(prefix) && Readable(d, a) && Readable(d, b) && AllPrefixable(d, PATH_FIELDS)
    requires Readable(ReadOver(d, a, prefix), b)
    requires FirstLeavesDefaults(d, a, b, prefix)
    ensures ReadOver(ReadOver(d, a, prefix), b, prefix) == ReadOver(d, b, prefix)
  {
    var both, one := ReadOver(ReadOver(d, a, prefix), b, prefix), ReadOver(d, b, prefix);
    forall path: Path ensures NodeAt(both, path) == NodeAt(one, path) {
      assert SameForB(b, path, ReadOver(d, a, prefix), PrefixAll(d, prefix, PATH_FIELDS));
      SecondFileNode(d, a, b, prefix, path);
    }
    SameNodes(both, one);
  }

  /** A second file read in the same process gives what it would give on its own exactly when, at
      every path it does not set itself, the first file's configuration is that of the defaults. */
  lemma SecondFile(d: Value, a: Value, b: Value, prefix: string)
    requires Absolute(prefix) && Readable(d, a) && Readable(d, b) && AllPrefixable(d, PATH_FIELDS)
    requires Readable(ReadOver(d, a, prefix), b)
    ensures ReadOver(ReadOver(d, a, prefix), b, prefix) == ReadOver(d, b, prefix)
            <==> FirstLeavesDefaults(d, a, b, prefix)
  {
    if ReadOver(ReadOver(d, a, prefix), b, prefix) == ReadOver(d, b, prefix) {
      SecondFileNeeds(d, a, b, prefix);
    } else if FirstLeavesDefaults(d, a, b, prefix) {
      SecondFileEnough(d, a, b, prefix);
    }
  }

  /** A key dropped from the file keeps its old value until the process is restarted. */
  lemma DroppedKeyStays()
    ensures var d, a := Dict(map["rbac_mode" := Str("white")]), Dict(map["rbac_mode" := Str("black")]);
            && Readable(d, a) && Readable(d, EMPTY) && Readable(ReadOver(d, a, "/"), EMPTY)
            && ReadOver(ReadOver(d, a, "/"), EMPTY, "/") != ReadOver(d, EMPTY, "/")
  {
    var d, a := Dict(map["rbac_mode" := Str("white")]), Dict(map["rbac_mode" := Str("black")]);
    var path := ["rbac_mode"];
    assert path[1..] == [];
    assert NodeAt(a, path) == NodeAt(a.entries["rbac_mode"], [])
           && NodeAt(d, path) == NodeAt(d.entries["rbac_mode"], []);
    ReadNode(d, a, "/", path);
    ReadNode(d, EMPTY, "/", path);
    ReadNode(ReadOver(d, a, "/"), EMPTY, "/", path);
  }
}
