/**
  Linking roles to a user, or policies to a role, at a position. A link has a level; the items of a
  holder are listed by ascending level. The request handlers add the items one by one and move the
  position on. Levels can be shared and can have gaps, as removing a link renumbers nothing; links on
  one level may be listed in any order, so what is said of the list is said of every order there is.
*/
module RoleOrder {
  import opened Common

  type ItemId = int

  type Levels = map<ItemId, int>

  datatype Kind = RolesOfUser | PoliciesOfRole

  ghost predicate NotNegative(level: Levels) {
    forall r | r in level :: level[r] >= 0
  }

  /** s is an order in which the database may return the links, asked for them by level: each once
      and none left out, the levels ascending. */
  ghost predicate Listed(s: seq<ItemId>, level: Levels) {
    && |s| == |level|
    && (forall i | 0 <= i < |s| :: s[i] in level && level[s[i]] >= 0)
    && (forall i, j | 0 <= i < j < |s| :: s[i] != s[j] && level[s[i]] <= level[s[j]])
  }

  /** How many items of the list are on a level below p. */
  function Below(s: seq<ItemId>, level: Levels, p: int): (n: nat)
    requires Listed(s, level)
    ensures n <= |s|
    ensures forall i | 0 <= i < |s| :: i < n <==> level[s[i]] < p
  {
    BelowIn(s, level, p, |s|)
  }

  function BelowIn(s: seq<ItemId>, level: Levels, p: int, k: nat): (n: nat)
    requires Listed(s, level) && k <= |s|
    ensures n <= k
    ensures forall i | 0 <= i < k :: i < n <==> level[s[i]] < p
  {
    if k == 0 then 0 else if level[s[k - 1]] < p then k else BelowIn(s, level, p, k - 1)
  }

  /** How many links are on a level below p. */
  ghost function Lower(level: Levels, p: int): nat {
    |set r | r in level && level[r] < p|
  }

  /** The greatest level. */
  ghost function Top(level: Levels): (t: int)
    ensures forall r | r in level :: level[r] <= t
    ensures if level == map[] then t == -1 else exists r :: r in level && level[r] == t
  {
    if level == map[] then -1
    else
      Pick(level.Keys);
      var r :| r in level.Keys;
      var rest := level - {r};
      assert level.Keys == rest.Keys + {r};
      var t := Top(rest);
      if rest == map[] || level[r] >= t then level[r] else t
  }

  lemma Pick(keys: set<ItemId>)
    ensures keys == {} || exists r :: r in keys
  {
    if !exists r :: r in keys {
      assert keys == {};
    }
  }

  /** s with x put in at index n. */
  function PutIn(s: seq<ItemId>, n: nat, x: ItemId): seq<ItemId>
    requires n <= |s|
  {
    s[..n] + [x] + s[n..]
  }

  // ---------------------------------------------------------------- orders

  lemma PutInAt(s: seq<ItemId>, n: nat, x: ItemId, i: nat)
    requires n <= |s| && i <= |s|
    ensures PutIn(s, n, x)[i] == if i < n then s[i] else if i == n then x else s[i - 1]
  {
  }

  /** A new item fits in after any that are lower and before any that are higher. */
  lemma PutInListed(s: seq<ItemId>, level: Levels, n: nat, item: ItemId, q: int)
    requires Listed(s, level) && item !in level && n <= |s|
    requires q >= 0 && forall i | 0 <= i < |s| :: if i < n then level[s[i]] <= q else level[s[i]] >= q
    ensures Listed(PutIn(s, n, item), level[item := q])
  {
    var t, after := PutIn(s, n, item), level[item := q];
    forall i | 0 <= i < |t| ensures t[i] in after && after[t[i]] >= 0 { PutInAt(s, n, item, i); }
    forall i, j | 0 <= i < j < |t| ensures t[i] != t[j] && after[t[i]] <= after[t[j]] {
      PutInAt(s, n, item, i);
      PutInAt(s, n, item, j);
    }
  }

  /** However the levels came about, the database can list them. */
  lemma {:induction false} SomeOrder(level: Levels) returns (s: seq<ItemId>)
    requires NotNegative(level)
    ensures Listed(s, level)
    decreases |level|
  {
    var keys := level.Keys;
    if keys == {} {
      assert |keys| == |level|;
      s := [];
    } else {
      Pick(keys);
      var r :| r in keys;
      var rest := level - {r};
      Without(level, r);
      var before := SomeOrder(rest);
      PutInListed(before, rest, Below(before, rest, level[r]), r, level[r]);
      s := PutIn(before, Below(before, rest, level[r]), r);
    }
  }

  lemma Without(level: Levels, r: ItemId)
    requires r in level
    ensures var rest := level - {r};
            r !in rest && rest[r := level[r]] == level && |rest| == |level| - 1
  {
    var rest := level - {r};
    assert rest.Keys == level.Keys - {r} && |rest.Keys| == |level.Keys| - 1;
  }

  /** x comes before y. */
  predicate Precedes(t: seq<ItemId>, x: ItemId, y: ItemId) {
    exists i, j | 0 <= i < j < |t| :: t[i] == x && t[j] == y
  }

  /** Of two items that share a level either may come first. */
  lemma OrderWith(level: Levels, x: ItemId, y: ItemId) returns (t: seq<ItemId>)
    requires NotNegative(level) && x in level && y in level && x != y && level[x] <= level[y]
    ensures Listed(t, level) && Precedes(t, x, y)
  {
    var rest := level - {x};
    Without(level, x);
    var s := SomeOrder(rest);
    var n := Below(s, rest, level[x]);
    PutInListed(s, rest, n, x, level[x]);
    t := PutIn(s, n, x);
    var j := Index(s, rest, y);
    PutInAt(s, n, x, n);
    PutInAt(s, n, x, j + 1);
  }

  function Elems(s: seq<ItemId>): set<ItemId> {
    set x | x in s
  }

  lemma {:induction false} DistinctCount(s: seq<ItemId>)
    requires forall i, j | 0 <= i < j < |s| :: s[i] != s[j]
    ensures |Elems(s)| == |s|
  {
    if s != [] {
      var n := |s| - 1;
      DistinctCount(s[..n]);
      assert Elems(s) == Elems(s[..n]) + {s[n]};
    }
  }

  lemma SameSize(a: set<ItemId>, b: set<ItemId>)
    requires a <= b && |a| == |b|
    ensures a == b
  {
    assert b == a + (b - a);
  }

  lemma Covers(s: seq<ItemId>, level: Levels)
    requires Listed(s, level)
    ensures Elems(s) == level.Keys
  {
    DistinctCount(s);
    SameSize(Elems(s), level.Keys);
  }

  lemma Index(s: seq<ItemId>, level: Levels, r: ItemId) returns (i: nat)
    requires Listed(s, level) && r in level
    ensures i < |s| && s[i] == r
  {
    Covers(s, level);
    assert r in Elems(s);
    i :| 0 <= i < |s| && s[i] == r;
  }

  /** The number below a level is the same in every order. */
  lemma BelowCount(s: seq<ItemId>, level: Levels, p: int)
    requires Listed(s, level)
    ensures Below(s, level, p) == Lower(level, p)
  {
    var n, low := Below(s, level, p), set r | r in level && level[r] < p;
    Covers(s, level);
    DistinctCount(s[..n]);
    forall r ensures r in low <==> r in Elems(s[..n]) {
      if r in low {
        assert r in Elems(s);
        var i :| 0 <= i < |s| && s[i] == r;
        assert i < n && s[..n][i] == r;
      }
    }
    assert low == Elems(s[..n]);
  }

  /** An item that shares its level with no other is at the same index in every order. */
  lemma UniqueIndex(t: seq<ItemId>, level: Levels, item: ItemId)
    requires Listed(t, level) && item in level
    requires forall r | r in level && r != item :: level[r] != level[item]
    ensures var n := Lower(level, level[item]);
            n < |t| && t[n] == item
  {
    var n := Below(t, level, level[item]);
    BelowCount(t, level, level[item]);
    var i := Index(t, level, item);
    assert n <= i;
    assert level[t[n]] == level[item];
  }

  /** In every order the database may return, the block stands at index n. */
  ghost predicate AlwaysAt(level: Levels, n: nat, block: seq<ItemId>) {
    forall t | Listed(t, level) :: n + |block| <= |t| && t[n..n + |block|] == block
  }

  // ---------------------------------------------------------------- adding one item

  /** The links from index n on have been renumbered q + 1, q + 2, ... up to index k. */
  ghost predicate Renumbered(s: seq<ItemId>, level: Levels, n: nat, k: nat, q: int, after: Levels)
    requires Listed(s, level)
  {
    && after.Keys == level.Keys
    && (forall i | 0 <= i < |s| && (i < n || i >= k) :: after[s[i]] == level[s[i]])
    && (forall i | n <= i < k && i < |s| :: after[s[i]] == q + 1 + (i - n))
  }

  ghost predicate Taken(level: Levels, p: int) {
    exists r :: r in level && level[r] == p
  }

  /** Room is made at level p exactly when some link is there, in the order that was returned. */
  ghost predicate RoomMade(s: seq<ItemId>, level: Levels, p: int, room: Levels)
    requires Listed(s, level)
  {
    if Taken(level, p) then Renumbered(s, level, Below(s, level, p), |s|, p, room) else room == level
  }

  /** The level a new link gets: a position farther off than one above the greatest level is brought
      in, for a role to one above it, for a policy to the number of links. */
  ghost function LandsOn(kind: Kind, level: Levels, p: int): int {
    if p <= Top(level) + 1 then p else if kind.RolesOfUser? then Top(level) + 1 else |level|
  }

  /** The links that were there after a step: those below the position stay, and if one is on it the
      first of them is next to it and all from there on are behind. */
  ghost predicate MadeWay(level: Levels, p: int, after: Levels) {
    && level.Keys <= after.Keys
    && (forall r | r in level && level[r] < p :: after[r] == level[r])
    && (forall r | r in level && level[r] >= p && Taken(level, p) :: after[r] >= p + 1)
    && (Taken(level, p) ==> exists r :: r in level && level[r] == p && after[r] == p + 1)
    && (!Taken(level, p) ==> forall r | r in level :: after[r] == level[r])
  }

  /** What was strictly before something else still is. */
  ghost predicate KeepsOrder(level: Levels, after: Levels) {
    && level.Keys <= after.Keys
    && forall x, y | x in level && y in level && level[x] < level[y] :: after[x] < after[y]
  }

  /** What one new link makes of the levels, in whatever order they were returned. */
  ghost predicate Added(kind: Kind, level: Levels, item: ItemId, p: int, after: Levels) {
    && item !in level && after.Keys == level.Keys + {item}
    && after[item] == LandsOn(kind, level, p)
    && MadeWay(level, p, after)
    && KeepsOrder(level, after)
  }

  /** The step itself: the database returns some order, room is made in it, the item gets its level. */
  ghost predicate AddedBy(kind: Kind, level: Levels, item: ItemId, p: int, after: Levels) {
    item !in level && exists s, room :: InOrder(s, kind, level, item, p, room, after)
  }

  ghost predicate InOrder(s: seq<ItemId>, kind: Kind, level: Levels, item: ItemId, p: int, room: Levels,
                          after: Levels) {
    Listed(s, level) && RoomMade(s, level, p, room) && after == room[item := LandsOn(kind, level, p)]
  }

  lemma RenumberedAt(s: seq<ItemId>, level: Levels, p: int, room: Levels, r: ItemId)
    requires Listed(s, level) && p >= 0 && Renumbered(s, level, Below(s, level, p), |s|, p, room) && r in level
    ensures room[r] >= 0 && if level[r] < p then room[r] == level[r] else room[r] >= p + 1
  {
    var i := Index(s, level, r);
  }

  lemma RenumberedOrder(s: seq<ItemId>, level: Levels, p: int, room: Levels, x: ItemId, y: ItemId)
    requires Listed(s, level) && Renumbered(s, level, Below(s, level, p), |s|, p, room)
    requires x in level && y in level && level[x] < level[y]
    ensures room[x] < room[y]
  {
    var i := Index(s, level, x);
    var j := Index(s, level, y);
    assert i < j;
  }

  lemma RenumberedGives(s: seq<ItemId>, level: Levels, p: int, room: Levels)
    requires Listed(s, level) && p >= 0 && Taken(level, p) && Renumbered(s, level, Below(s, level, p), |s|, p, room)
    ensures MadeWay(level, p, room) && KeepsOrder(level, room) && NotNegative(room)
  {
    forall r | r in level
      ensures room[r] >= 0 && if level[r] < p then room[r] == level[r] else room[r] >= p + 1
    {
      RenumberedAt(s, level, p, room, r);
    }
    forall x, y | x in level && y in level && level[x] < level[y] ensures room[x] < room[y] {
      RenumberedOrder(s, level, p, room, x, y);
    }
    TakenAt(s, level, p);
    var first := s[Below(s, level, p)];
    assert first in level && level[first] == p && room[first] == p + 1;
  }

  lemma RoomGives(s: seq<ItemId>, level: Levels, p: int, room: Levels)
    requires Listed(s, level) && p >= 0 && NotNegative(level) && RoomMade(s, level, p, room)
    ensures MadeWay(level, p, room) && KeepsOrder(level, room) && NotNegative(room) && room.Keys == level.Keys
  {
    if Taken(level, p) {
      RenumberedGives(s, level, p, room);
    }
  }

  /** The database's answer, asked for links by level: some order. */
  method Order(level: Levels) returns (s: seq<ItemId>)
    requires NotNegative(level)
    ensures Listed(s, level)
    decreases |level|
  {
    if level.Keys == {} {
      assert |level.Keys| == |level|;
      return [];
    }
    Pick(level.Keys);
    var r :| r in level.Keys;
    Without(level, r);
    var before := Order(level - {r});
    var n := Below(before, level - {r}, level[r]);
    PutInListed(before, level - {r}, n, r, level[r]);
    s := PutIn(before, n, r);
  }

  class Links {
    var level: Levels

    constructor ()
      ensures level == map[]
    {
      level := map[];
    }

    /** Makes room: every link from level p on, in the listed order, gets the next level. */
    method MakeRoom(listed: seq<ItemId>, p: int)
      requires Listed(listed, level)
      modifies this
      ensures Renumbered(listed, old(level), Below(listed, old(level), p), |listed|, p, level)
    {
      var n := Below(listed, level, p);
      var newLevel := p;
      for k := n to |listed|
        invariant newLevel == p + (k - n)
        invariant Renumbered(listed, old(level), n, k, p, level)
      {
        level := level[listed[k] := newLevel + 1];
        newLevel := newLevel + 1;
      }
    }

    method MakeRoomIfTaken(p: int) returns (ghost listed: seq<ItemId>)
      requires NotNegative(level)
      modifies this
      ensures Listed(listed, old(level)) && RoomMade(listed, old(level), p, level)
    {
      var s := Order(level);
      listed := s;
      var n := Below(s, level, p);
      TakenAt(s, level, p);
      if n < |s| && level[s[n]] == p {
        MakeRoom(s, p);
      }
    }

    /** The new link starts on level 0, so that the greatest level is never less. */
    method BringIn(kind: Kind, p: int) returns (position: int)
      requires NotNegative(level) && p >= 0
      ensures position == LandsOn(kind, level, p)
    {
      var s := Order(level);
      TopLast(s, level);
      var greatest := if s == [] then 0 else level[s[|s| - 1]];
      position := p;
      if kind.PoliciesOfRole? && p > greatest + 1 {
        position := |s|;
      } else if greatest == 0 && s == [] {
        position := 0;
      } else if p > greatest + 1 {
        position := greatest + 1;
      }
    }

    /** add_role_to_user and add_policy_to_role for an item that is not linked yet, at a position. */
    method AddAt(kind: Kind, item: ItemId, p: int)
      requires NotNegative(level) && item !in level && p >= 0
      modifies this
      ensures AddedBy(kind, old(level), item, p, level) && NotNegative(level)
    {
      ghost var was := level;
      ghost var s := MakeRoomIfTaken(p);
      ghost var room := level;
      RoomGives(s, was, p, room);
      RoomTop(kind, was, p, room);
      var position := BringIn(kind, p);
      level := level[item := position];
      RoomNotNegative(kind, was, item, p, room);
      assert InOrder(s, kind, was, item, p, room, level);
    }

    /** At a position: an item that is linked already breaks the unique constraint, which the manager
        reports as INVALID. */
    method AddItemAt(db: Db, item: ItemId, p: int) returns (answer: Answer)
      requires NotNegative(level) && p >= 0
      modifies this
      ensures answer == db.Answer(item, if item in old(level) then Invalid else Linked)
      ensures NotNegative(level)
      ensures if answer == Linked then AddedBy(db.kind, old(level), item, p, level) else level == old(level)
    {
      answer := db.Answer(item, if item in level then Invalid else Linked);
      if answer == Linked {
        AddAt(db.kind, item, p);
      }
    }

    /** Without a position the level is the number of links there were. */
    method AddItemLast(db: Db, item: ItemId) returns (answer: Answer)
      modifies this
      ensures answer == db.Answer(item, if item in old(level) then AlreadyExist else Linked)
      ensures level == if answer == Linked then old(level)[item := |old(level)|] else old(level)
    {
      answer := db.Answer(item, if item in level then AlreadyExist else Linked);
      if answer == Linked {
        level := level[item := |level|];
      }
    }
  }

  datatype Answer = Linked | AlreadyExist | Invalid | ItemNotExist | HolderNotExist | AdminResources

  /** The rest of the database: whether the user or role is reserved, whether it exists, and which
      roles or policies do. */
  datatype Db = Db(kind: Kind, reserved: bool, holderExists: bool, items: set<ItemId>) {
    function Answer(item: ItemId, otherwise: Answer): Answer {
      if reserved then AdminResources
      else if !holderExists then HolderNotExist
      else if item !in items then ItemNotExist
      else otherwise
    }

    predicate Ready() {
      !reserved && holderExists
    }
  }

  lemma TakenAt(s: seq<ItemId>, level: Levels, p: int)
    requires Listed(s, level)
    ensures var n := Below(s, level, p);
            Taken(level, p) <==> n < |s| && level[s[n]] == p
  {
    if Taken(level, p) {
      var r :| r in level && level[r] == p;
      var i := Index(s, level, r);
      assert Below(s, level, p) <= i;
    }
  }

  lemma TopLast(s: seq<ItemId>, level: Levels)
    requires Listed(s, level)
    ensures if s == [] then level == map[] else s[|s| - 1] in level && level[s[|s| - 1]] == Top(level)
  {
    Covers(s, level);
    if s == [] {
      assert level.Keys == {};
    } else {
      assert level != map[];
      var r :| r in level && level[r] == Top(level);
      var i := Index(s, level, r);
      assert i < |s| - 1 ==> level[s[i]] <= level[s[|s| - 1]];
    }
  }

  lemma RoomAdded(kind: Kind, level: Levels, item: ItemId, p: int, room: Levels, after: Levels)
    requires item !in level && room.Keys == level.Keys && after == room[item := LandsOn(kind, level, p)]
    requires MadeWay(level, p, room) && KeepsOrder(level, room)
    ensures Added(kind, level, item, p, after)
  {
    WayStays(level, p, room, after);
  }

  lemma RoomNotNegative(kind: Kind, level: Levels, item: ItemId, p: int, room: Levels)
    requires NotNegative(level) && p >= 0 && NotNegative(room)
    ensures NotNegative(room[item := LandsOn(kind, level, p)])
  {
    Landed(kind, level, p);
    SetNotNegative(room, item, LandsOn(kind, level, p));
  }

  /** Whatever the order returned. */
  lemma AddedGives(kind: Kind, level: Levels, item: ItemId, p: int, after: Levels)
    requires NotNegative(level) && p >= 0 && AddedBy(kind, level, item, p, after)
    ensures Added(kind, level, item, p, after) && NotNegative(after)
  {
    var s, room :| InOrder(s, kind, level, item, p, room, after);
    RoomGives(s, level, p, room);
    RoomAdded(kind, level, item, p, room, after);
    RoomNotNegative(kind, level, item, p, room);
  }

  /** Making room leaves no two links from the position on on one level, and no gap between them: they
      are as many as the levels they take. */
  lemma RoomGapless(kind: Kind, level: Levels, item: ItemId, p: int, after: Levels, x: ItemId, y: ItemId)
    requires NotNegative(level) && p >= 0 && AddedBy(kind, level, item, p, after) && Taken(level, p)
    requires x in level && y in level && level[x] >= p && level[y] >= p
    ensures x in after && y in after && (x != y ==> after[x] != after[y])
    ensures p + 1 <= after[x] <= p + |level| - Lower(level, p)
  {
    var s, room :| InOrder(s, kind, level, item, p, room, after);
    var i := Index(s, level, x);
    var j := Index(s, level, y);
    BelowCount(s, level, p);
  }

  lemma SetNotNegative(level: Levels, item: ItemId, q: int)
    requires NotNegative(level) && q >= 0
    ensures NotNegative(level[item := q])
  {
  }

  lemma Landed(kind: Kind, level: Levels, p: int)
    requires NotNegative(level) && p >= 0
    ensures LandsOn(kind, level, p) >= 0
  {
    TopLeast(level);
  }

  lemma WayStays(level: Levels, p: int, room: Levels, after: Levels)
    requires MadeWay(level, p, room) && KeepsOrder(level, room)
    requires room.Keys <= after.Keys && forall r | r in level :: after[r] == room[r]
    ensures MadeWay(level, p, after) && KeepsOrder(level, after)
  {
    if Taken(level, p) {
      var r :| r in level && level[r] == p && room[r] == p + 1;
      assert after[r] == p + 1;
    }
  }

  lemma TopLeast(level: Levels)
    requires NotNegative(level)
    ensures Top(level) >= -1
  {
  }

  /** Making room does not change where the new link lands. */
  lemma RoomTop(kind: Kind, level: Levels, p: int, room: Levels)
    requires MadeWay(level, p, room) && room.Keys == level.Keys
    ensures LandsOn(kind, room, p) == LandsOn(kind, level, p)
  {
    if Taken(level, p) {
      var r :| r in level && level[r] == p && room[r] == p + 1;
    } else {
      assert forall r | r in room :: r in level && room[r] == level[r];
      assert room == level;
    }
  }

  // ---------------------------------------------------------------- adding a list of items

  /** What a request starts from: the items that are linked and the items that there are. */
  datatype Start = Start(kind: Kind, keys: set<ItemId>, items: set<ItemId>) {
    /** An item that exists and is not linked yet, these having been linked since. */
    predicate New(block: seq<ItemId>, r: ItemId) {
      r in items && r !in keys && r !in block
    }

    predicate Again(block: seq<ItemId>, r: ItemId) {
      r in items && (r in keys || r in block)
    }
  }

  /** The requested items that exist and are not linked when their turn comes, in request order. */
  function NewLinks(q: Start, ids: seq<ItemId>): seq<ItemId> {
    if ids == [] then [] else NextBlock(q, NewLinks(q, ids[..|ids| - 1]), ids[|ids| - 1])
  }

  function NextBlock(q: Start, block: seq<ItemId>, r: ItemId): seq<ItemId> {
    if q.New(block, r) then block + [r] else block
  }

  /** How many of the requested items exist and are linked when their turn comes. */
  function Relinks(q: Start, ids: seq<ItemId>): nat {
    if ids == [] then 0
    else
      var before := ids[..|ids| - 1];
      Relinks(q, before) + if q.Again(NewLinks(q, before), ids[|ids| - 1]) then 1 else 0
  }

  /** The error entries of one request, in order; relinks are errors when there is no position. */
  function Failures(q: Start, ids: seq<ItemId>, relinks: bool): seq<(ItemId, int)> {
    if ids == [] then []
    else
      var before, r := ids[..|ids| - 1], ids[|ids| - 1];
      Failures(q, before, relinks) + Failure(q, NewLinks(q, before), r, relinks)
  }

  function Failure(q: Start, block: seq<ItemId>, r: ItemId, relinks: bool): seq<(ItemId, int)> {
    if r !in q.items then [(r, ItemUnknown(q.kind))]
    else if relinks && q.Again(block, r) then [(r, RelationExists(q.kind))]
    else []
  }

  function ItemUnknown(kind: Kind): int {
    if kind.RolesOfUser? then 4002 else 4007
  }

  function RelationExists(kind: Kind): int {
    if kind.RolesOfUser? then 4017 else 4011
  }

  function HolderUnknown(kind: Kind): int {
    if kind.RolesOfUser? then 5001 else 4002
  }

  const HOLDER_RESERVED := 4008
  const BAD_POSITION := 4018

  /** All that the requests so far amount to: the links made, how many items were linked already, the
      errors, and the positions of the first link made, of the last one, and of the last one that
      followed a relink (the first one if none did). */
  datatype Account = Account(block: seq<ItemId>, relinks: nat, failed: seq<(ItemId, int)>,
                             first: int, last: int, jump: int) {
    /** INVALID is none of the answers the handler knows as failures, so a relinked item counts. */
    function Total(): nat {
      |block| + relinks
    }
  }

  const NOTHING := Account([], 0, [], 0, 0, 0)

  function NextAccount(q: Start, a: Account, p: nat, r: ItemId): Account {
    var position := p + a.Total();
    if q.New(a.block, r) then
      Account(a.block + [r], a.relinks, a.failed,
              if a.block == [] then position else a.first,
              position,
              if a.block != [] && position == a.last + 1 then a.jump else position)
    else if q.Again(a.block, r) then a.(relinks := a.relinks + 1)
    else a.(failed := a.failed + Failure(q, a.block, r, false))
  }

  function AccountOf(q: Start, p: nat, ids: seq<ItemId>): Account {
    if ids == [] then NOTHING else NextAccount(q, AccountOf(q, p, ids[..|ids| - 1]), p, ids[|ids| - 1])
  }

  lemma {:induction false} AccountStep(q: Start, p: nat, ids: seq<ItemId>, k: nat)
    requires k < |ids|
    ensures AccountOf(q, p, ids[..k + 1]) == NextAccount(q, AccountOf(q, p, ids[..k]), p, ids[k])
  {
    assert ids[..k + 1][..k] == ids[..k];
  }

  lemma {:induction false} AccountParts(q: Start, p: nat, ids: seq<ItemId>)
    ensures var a := AccountOf(q, p, ids);
            a.block == NewLinks(q, ids) && a.relinks == Relinks(q, ids) && a.failed == Failures(q, ids, false)
  {
    if ids != [] {
      AccountParts(q, p, ids[..|ids| - 1]);
    }
  }

  /** Without a relink the links are at consecutive positions. */
  lemma {:induction false} NoJump(q: Start, p: nat, ids: seq<ItemId>)
    ensures var a := AccountOf(q, p, ids);
            a.relinks == 0 && a.block != [] ==> a.first == a.jump == p && a.last == p + |a.block| - 1
  {
    if ids != [] {
      NoJump(q, p, ids[..|ids| - 1]);
    }
  }

  /** One round of the handler's loop, as far as the levels are concerned. */
  ghost predicate Round(q: Start, a: Account, p: nat, item: ItemId, level: Levels, after: Levels) {
    if q.New(a.block, item) then AddedBy(q.kind, level, item, p + a.Total(), after) else after == level
  }

  /** The levels before each round and after the last. */
  ghost predicate Run(q: Start, p: nat, ids: seq<ItemId>, trail: seq<Levels>) {
    && |trail| == |ids| + 1
    && forall k | 0 <= k < |ids| :: Round(q, AccountOf(q, p, ids[..k]), p, ids[k], trail[k], trail[k + 1])
  }

  // ---------------------------------------------------------------- where the new links stand

  predicate Fresh(level: Levels, block: seq<ItemId>) {
    && (forall i | 0 <= i < |block| :: block[i] !in level)
    && (forall i, j | 0 <= i < j < |block| :: block[i] != block[j])
  }

  /** The links are the old ones and the new. */
  ghost predicate Joined(level: Levels, now: Levels, block: seq<ItemId>) {
    && Fresh(level, block) && level.Keys <= now.Keys
    && (forall i | 0 <= i < |block| :: block[i] in now)
    && (forall r :: r in now <==> r in level || r in block)
  }

  /** No old link was on a level from one position up to another. */
  ghost predicate Clear(level: Levels, from: int, to: int) {
    forall r | r in level :: !(from <= level[r] < to)
  }

  ghost predicate Later(level: Levels, from: int) {
    exists r :: r in level && level[r] >= from
  }

  /** The new links are in request order, on levels up to the last position. */
  ghost predicate Rising(now: Levels, block: seq<ItemId>, last: int) {
    && (forall i | 0 <= i < |block| :: block[i] in now && now[block[i]] <= last)
    && (forall i, j | 0 <= i < j < |block| :: now[block[i]] < now[block[j]])
  }

  /** The old links below the first position are where they were, before the new ones. */
  ghost predicate EarlyBefore(level: Levels, now: Levels, a: Account)
    requires a.block != [] && a.block[0] in now && level.Keys <= now.Keys
  {
    forall r | r in level && level[r] < a.first :: now[r] == level[r] < now[a.block[0]]
  }

  /** The other old links are all behind the new ones: as they were, or, when some were in the way,
      pushed on to right behind the last position. */
  ghost predicate LateBehind(level: Levels, now: Levels, a: Account)
    requires a.block != [] && a.block[|a.block| - 1] in now && level.Keys <= now.Keys
  {
    var tail := now[a.block[|a.block| - 1]];
    && (forall r | r in level && level[r] >= a.first :: now[r] > tail)
    && (Later(level, a.first) ==> tail == a.last)
    && (if Clear(level, a.first, a.last + 1) then forall r | r in level :: now[r] == level[r]
        else exists r :: r in level && level[r] >= a.first && now[r] == a.last + 1)
  }

  /** An old link stands between two new ones. */
  ghost predicate Apart(level: Levels, now: Levels, block: seq<ItemId>)
    requires block != [] && block[0] in now && block[|block| - 1] in now && level.Keys <= now.Keys
  {
    exists r :: r in level && now[block[0]] < now[r] < now[block[|block| - 1]]
  }

  /** Where the handler's loop stands, the next position being this. */
  ghost predicate Ranked(level: Levels, now: Levels, a: Account, position: int) {
    && Joined(level, now, a.block)
    && KeepsOrder(level, now)
    && (a.block == [] ==> now == level)
    && (a.block != [] ==>
          && a.first <= a.jump <= a.last < position
          && Rising(now, a.block, a.last)
          && EarlyBefore(level, now, a)
          && if Clear(level, a.first, a.jump) then LateBehind(level, now, a) else Apart(level, now, a.block))
  }

  /** The new link is on the position, or lower but above all others. */
  ghost predicate InPlace(now: Levels, position: int, q: int) {
    q == position || (q < position && forall r | r in now :: now[r] < q)
  }

  /** What a step does to the levels, apart from which level the new link gets. */
  ghost predicate Stepped(now: Levels, x: ItemId, position: int, after: Levels) {
    && x !in now && after.Keys == now.Keys + {x}
    && MadeWay(now, position, after) && KeepsOrder(now, after) && InPlace(now, position, after[x])
  }

  lemma JoinedNext(level: Levels, now: Levels, block: seq<ItemId>, x: ItemId, after: Levels)
    requires Joined(level, now, block) && x !in now && after.Keys == now.Keys + {x}
    ensures Joined(level, after, block + [x])
  {
    forall i | 0 <= i < |block| ensures block[i] != x { assert block[i] in block; }
    forall r ensures r in after <==> r in level || r in block + [x] {
      assert r in after <==> r in now || r == x;
    }
  }

  lemma OrderNext(level: Levels, now: Levels, after: Levels)
    requires KeepsOrder(level, now) && KeepsOrder(now, after)
    ensures KeepsOrder(level, after)
  {
  }

  lemma BelowStays(now: Levels, x: ItemId, position: int, after: Levels, r: ItemId)
    requires Stepped(now, x, position, after) && r in now && now[r] < position
    ensures after[r] == now[r] < after[x]
  {
  }

  /** The links made so far are below the position and stay. */
  lemma RisingNext(now: Levels, block: seq<ItemId>, last: int, x: ItemId, position: int, after: Levels)
    requires Rising(now, block, last) && last < position && Stepped(now, x, position, after)
    ensures Rising(after, block + [x], position)
    ensures forall i | 0 <= i < |block| :: after[block[i]] == now[block[i]] < after[x]
  {
    var longer := block + [x];
    forall i | 0 <= i < |block| ensures after[block[i]] == now[block[i]] < after[x] {
      BelowStays(now, x, position, after, block[i]);
    }
    forall i | 0 <= i < |longer| ensures longer[i] in after && after[longer[i]] <= position {
      assert i < |block| ==> longer[i] == block[i];
    }
    forall i, j | 0 <= i < j < |longer| ensures after[longer[i]] < after[longer[j]] {
      assert longer[i] == block[i] && (j < |block| ==> longer[j] == block[j]);
    }
  }

  lemma EarlyNext(level: Levels, now: Levels, a: Account, x: ItemId, position: int, after: Levels, b: Account)
    requires a.block != [] && a.block[0] in now && level.Keys <= now.Keys && EarlyBefore(level, now, a)
    requires a.first <= position && Stepped(now, x, position, after) && after[a.block[0]] == now[a.block[0]]
    requires b.block == a.block + [x] && b.first == a.first
    ensures EarlyBefore(level, after, b)
  {
    assert b.block[0] == a.block[0];
    forall r | r in level && level[r] < b.first ensures after[r] == level[r] < after[b.block[0]] {
      assert now[r] == level[r];
    }
  }

  /** Old links from the first position on that are not below the next one: the new link gets in
      before them. */
  lemma GetsBefore(level: Levels, now: Levels, first: int, x: ItemId, position: int, after: Levels)
    requires level.Keys <= now.Keys && Stepped(now, x, position, after)
    requires forall r | r in level && level[r] >= first :: now[r] >= position
    ensures Later(level, first) ==> after[x] == position
    ensures forall r | r in level && level[r] >= first :: after[r] > position && after[r] > after[x]
  {
  }

  /** Whether any of them were in the way, and where they are then. */
  lemma PushedOn(level: Levels, now: Levels, a: Account, x: ItemId, position: int, after: Levels)
    requires a.block != [] && Joined(level, now, a.block) && Rising(now, a.block, a.last) && EarlyBefore(level, now, a)
    requires a.first <= a.last < position && Stepped(now, x, position, after) && LateBehind(level, now, a)
    requires forall r | r in level && level[r] >= a.first :: now[r] >= position
    requires position == a.last + 1 || Clear(level, a.first, position)
    ensures if Clear(level, a.first, position + 1) then forall r | r in level :: after[r] == level[r]
            else exists r :: r in level && level[r] >= a.first && after[r] == position + 1
  {
    if Clear(level, a.first, position + 1) {
      assert Clear(level, a.first, a.last + 1);
      NoneInTheWay(level, now, a, position);
    } else {
      SomeInTheWay(level, now, a, position);
      var r :| r in now && now[r] == position && after[r] == position + 1;
      WhoIsThere(level, now, a, r);
    }
  }

  lemma NoneInTheWay(level: Levels, now: Levels, a: Account, position: int)
    requires a.block != [] && Joined(level, now, a.block) && Rising(now, a.block, a.last) && EarlyBefore(level, now, a)
    requires a.first <= a.last < position && Clear(level, a.first, position + 1)
    requires forall r | r in level :: now[r] == level[r]
    ensures !Taken(now, position)
  {
    if r :| r in now && now[r] == position {
      WhoIsThere(level, now, a, r);
      assert false;
    }
  }

  lemma SomeInTheWay(level: Levels, now: Levels, a: Account, position: int)
    requires a.block != [] && Joined(level, now, a.block) && Rising(now, a.block, a.last)
    requires LateBehind(level, now, a) && a.last < position
    requires forall r | r in level && level[r] >= a.first :: now[r] >= position
    requires position == a.last + 1 || Clear(level, a.first, position)
    requires !Clear(level, a.first, position + 1)
    ensures Taken(now, position)
  {
    if Clear(level, a.first, a.last + 1) {
      var r :| r in level && a.first <= level[r] < position + 1;
      assert now[r] == level[r] == position;
    } else {
      var r :| r in level && level[r] >= a.first && now[r] == a.last + 1;
      assert now[r] == position;
    }
  }

  /** A link above the last position is an old one from the first position on. */
  lemma WhoIsThere(level: Levels, now: Levels, a: Account, r: ItemId)
    requires a.block != [] && Joined(level, now, a.block) && Rising(now, a.block, a.last) && EarlyBefore(level, now, a)
    requires a.first <= a.last && r in now && now[r] > a.last
    ensures r in level && level[r] >= a.first
  {
    if r in a.block {
      MadeSoFar(now, a.block, a.last, r);
    }
  }

  lemma MadeSoFar(now: Levels, block: seq<ItemId>, last: int, r: ItemId)
    requires Rising(now, block, last) && r in block
    ensures r in now && now[r] <= last
  {
  }

  lemma LateNext(level: Levels, now: Levels, a: Account, x: ItemId, position: int, after: Levels, b: Account)
    requires a.block != [] && Joined(level, now, a.block) && Rising(now, a.block, a.last) && EarlyBefore(level, now, a)
    requires a.first <= a.jump <= a.last < position && Stepped(now, x, position, after) && LateBehind(level, now, a)
    requires b.block == a.block + [x] && b.first == a.first && b.last == position
    requires position == a.last + 1 || Clear(level, a.first, position)
    ensures LateBehind(level, after, b)
  {
    forall r | r in level && level[r] >= a.first ensures now[r] >= position {
      if position > a.last + 1 {
        assert Clear(level, a.first, a.last + 1) && now[r] == level[r];
      }
    }
    GetsBefore(level, now, a.first, x, position, after);
    PushedOn(level, now, a, x, position, after);
    assert b.block[|b.block| - 1] == x;
  }

  /** Once apart, always apart; and a jump over an old link puts the new ones apart. */
  lemma ApartNext(level: Levels, now: Levels, a: Account, x: ItemId, position: int, after: Levels, b: Account)
    requires a.block != [] && Joined(level, now, a.block) && Rising(now, a.block, a.last)
    requires a.first <= a.jump <= a.last < position && Stepped(now, x, position, after)
    requires if Clear(level, a.first, a.jump) then LateBehind(level, now, a) else Apart(level, now, a.block)
    requires b.block == a.block + [x] && !(Clear(level, a.first, a.jump) && position == a.last + 1)
    requires !Clear(level, a.first, position)
    ensures Apart(level, after, b.block)
  {
    RisingNext(now, a.block, a.last, x, position, after);
    var head, tail := a.block[0], a.block[|a.block| - 1];
    assert b.block[0] == head && b.block[|b.block| - 1] == x;
    assert now[head] <= now[tail];
    if !Clear(level, a.first, a.jump) {
      var r :| r in level && now[head] < now[r] < now[tail];
      assert after[head] < after[r] < after[tail];
    } else {
      var r := JumpedOver(level, now, a, position);
      assert after[r] == now[r] < after[x];
    }
  }

  lemma JumpedOver(level: Levels, now: Levels, a: Account, position: int) returns (r: ItemId)
    requires a.block != [] && Joined(level, now, a.block) && Rising(now, a.block, a.last)
    requires a.last + 1 < position && LateBehind(level, now, a) && !Clear(level, a.first, position)
    ensures r in level && now[a.block[|a.block| - 1]] < now[r] < position
  {
    if Clear(level, a.first, a.last + 1) {
      r :| r in level && a.first <= level[r] < position;
    } else {
      r :| r in level && level[r] >= a.first && now[r] == a.last + 1;
    }
  }

  /** The first link made. */
  lemma RankedFirst(level: Levels, x: ItemId, position: int, after: Levels, b: Account)
    requires Stepped(level, x, position, after)
    requires b.block == [x] && b.first == b.last == b.jump == position
    ensures Ranked(level, after, b, position + 1)
  {
    JoinedNext(level, level, [], x, after);
    assert [] + [x] == [x];
    forall r | r in level && level[r] < position ensures after[r] == level[r] < after[x] {
      BelowStays(level, x, position, after, r);
    }
    FirstLate(level, x, position, after, b);
  }

  lemma FirstLate(level: Levels, x: ItemId, position: int, after: Levels, b: Account)
    requires Stepped(level, x, position, after)
    requires b.block == [x] && b.first == b.last == b.jump == position
    ensures LateBehind(level, after, b)
  {
    GetsBefore(level, level, position, x, position, after);
    if Clear(level, position, position + 1) {
      assert !Taken(level, position);
    } else {
      var r :| r in level && position <= level[r] < position + 1;
      assert Taken(level, position);
    }
  }

  /** Another one. */
  lemma RankedNext(level: Levels, now: Levels, a: Account, x: ItemId, position: int, after: Levels, b: Account)
    requires Ranked(level, now, a, position) && a.block != [] && Stepped(now, x, position, after)
    requires b.block == a.block + [x] && b.first == a.first && b.last == position
    requires b.jump == if position == a.last + 1 then a.jump else position
    ensures Ranked(level, after, b, position + 1)
  {
    JoinedNext(level, now, a.block, x, after);
    OrderNext(level, now, after);
    RisingNext(now, a.block, a.last, x, position, after);
    EarlyNext(level, now, a, x, position, after, b);
    if Clear(level, b.first, b.jump) {
      assert Clear(level, a.first, a.jump);
      LateNext(level, now, a, x, position, after, b);
    } else {
      NotClearUpTo(level, b.first, b.jump, position);
      ApartNext(level, now, a, x, position, after, b);
    }
  }

  lemma NotClearUpTo(level: Levels, from: int, to: int, beyond: int)
    requires !Clear(level, from, to) && to <= beyond
    ensures !Clear(level, from, beyond)
  {
    var r :| r in level && from <= level[r] < to;
  }

  /** A relink, or an item that does not exist. */
  lemma RankedStays(level: Levels, now: Levels, a: Account, position: int, b: Account, next: int)
    requires Ranked(level, now, a, position) && position <= next
    requires b.block == a.block && b.first == a.first && b.last == a.last && b.jump == a.jump
    ensures Ranked(level, now, b, next)
  {
  }

  /** One round, when the new link is in place. */
  lemma RankedRound(q: Start, level: Levels, now: Levels, a: Account, p: nat, item: ItemId, after: Levels,
                    position: int, b: Account, next: int)
    requires position == p + a.Total() && b == NextAccount(q, a, p, item) && next == p + b.Total()
    requires Ranked(level, now, a, position)
    requires if q.New(a.block, item) then Stepped(now, item, position, after) else after == now
    ensures Ranked(level, after, b, next)
  {
    if !q.New(a.block, item) {
      RankedStays(level, now, a, position, b, next);
    } else if a.block == [] {
      assert b.block == [item];
      RankedFirst(level, item, position, after, b);
      assert next == position + 1;
    } else {
      RankedNext(level, now, a, item, position, after, b);
      assert next == position + 1;
    }
  }

  // ---------------------------------------------------------------- in every order

  /** The new links are in request order, with the old ones below f before them and the others behind. */
  ghost predicate Together(level: Levels, now: Levels, f: int, block: seq<ItemId>) {
    && Joined(level, now, block)
    && (forall i, j | 0 <= i < j < |block| :: now[block[i]] < now[block[j]])
    && (forall r, i | r in level && 0 <= i < |block| ::
          if level[r] < f then now[r] < now[block[i]] else now[r] > now[block[i]])
  }

  lemma TogetherCount(level: Levels, now: Levels, f: int, block: seq<ItemId>, i: nat)
    requires Together(level, now, f, block) && i < |block|
    ensures Lower(now, now[block[i]]) == Lower(level, f) + i
  {
    var below := set r | r in now && now[r] < now[block[i]];
    var early := set r | r in level && level[r] < f;
    var made := Elems(block[..i]);
    DistinctCount(block[..i]);
    forall r ensures (r in below <==> r in early || r in made) && !(r in early && r in made) {
      TogetherBelow(level, now, f, block, i, r);
    }
    UnionSize(below, early, made);
  }

  lemma UnionSize(all: set<ItemId>, a: set<ItemId>, b: set<ItemId>)
    requires forall r :: (r in all <==> r in a || r in b) && !(r in a && r in b)
    ensures |all| == |a| + |b|
  {
    forall r ensures r in all <==> r in a + b {
      assert (r in all <==> r in a || r in b) && !(r in a && r in b);
    }
    assert all == a + b;
    forall r ensures r !in a * b {
      assert (r in all <==> r in a || r in b) && !(r in a && r in b);
    }
    assert a * b == {};
  }

  lemma TogetherBelow(level: Levels, now: Levels, f: int, block: seq<ItemId>, i: nat, r: ItemId)
    requires Together(level, now, f, block) && i < |block|
    ensures r in now && now[r] < now[block[i]] <==> (r in level && level[r] < f) || r in block[..i]
    ensures r in block[..i] ==> r !in level
  {
    if r in now && r !in level {
      var j :| 0 <= j < |block| && block[j] == r;
      assert j < i ==> block[..i][j] == r;
    }
  }

  /** Then they are one block in every order. */
  lemma TogetherAlways(level: Levels, now: Levels, f: int, block: seq<ItemId>)
    requires Together(level, now, f, block)
    ensures AlwaysAt(now, Lower(level, f), block)
  {
    var n := Lower(level, f);
    forall t | Listed(t, now) ensures n + |block| <= |t| && t[n..n + |block|] == block {
      LowerFits(level, now, f, t);
      if block != [] {
        TogetherIndex(level, now, f, block, |block| - 1, t);
      }
      forall i | 0 <= i < |block| ensures n + i < |t| && t[n + i] == block[i] {
        TogetherIndex(level, now, f, block, i, t);
      }
    }
  }

  lemma TogetherIndex(level: Levels, now: Levels, f: int, block: seq<ItemId>, i: nat, t: seq<ItemId>)
    requires Together(level, now, f, block) && i < |block| && Listed(t, now)
    ensures Lower(level, f) + i < |t| && t[Lower(level, f) + i] == block[i]
  {
    forall r | r in now && r != block[i] ensures now[r] != now[block[i]] {
      if r in block {
        var j :| 0 <= j < |block| && block[j] == r;
      }
    }
    TogetherCount(level, now, f, block, i);
    UniqueIndex(t, now, block[i]);
  }

  lemma LowerFits(level: Levels, now: Levels, f: int, t: seq<ItemId>)
    requires level.Keys <= now.Keys && Listed(t, now)
    ensures Lower(level, f) <= |t|
  {
    var low := set r | r in level && level[r] < f;
    SubsetSize(low, level.Keys);
    SubsetSize(level.Keys, now.Keys);
  }

  lemma SubsetSize(a: set<ItemId>, b: set<ItemId>)
    requires a <= b
    ensures |a| <= |b|
  {
    assert b == a + (b - a);
  }

  /** With an old link between two new ones they are no block in any order. */
  lemma ApartNever(level: Levels, now: Levels, n: nat, block: seq<ItemId>)
    requires Joined(level, now, block) && NotNegative(now) && block != [] && Apart(level, now, block)
    ensures !AlwaysAt(now, n, block)
  {
    var t := SomeOrder(now);
    var r :| r in level && now[block[0]] < now[r] < now[block[|block| - 1]];
    if n + |block| <= |t| && t[n..n + |block|] == block {
      var i := Index(t, now, r);
      Within(t, now, n, block, r, i);
    }
  }

  lemma Within(t: seq<ItemId>, now: Levels, n: nat, block: seq<ItemId>, r: ItemId, i: nat)
    requires Listed(t, now) && block != [] && n + |block| <= |t| && t[n..n + |block|] == block && i < |t| && t[i] == r
    requires block[0] in now && block[|block| - 1] in now && r in now
    requires now[block[0]] < now[r] < now[block[|block| - 1]]
    ensures r in block
  {
    var m := n + |block| - 1;
    assert t[n] == block[0] && t[m] == t[n..n + |block|][|block| - 1] == block[|block| - 1];
    assert n < i < m;
    assert t[n..n + |block|][i - n] == r;
  }

  /** The new links of a request are one block if and only if no old link was on a level from the
      position of the first of them up to that of the last one that followed a relink. */
  lemma RankedExactly(level: Levels, now: Levels, a: Account, position: int)
    requires Ranked(level, now, a, position) && a.block != [] && NotNegative(now)
    ensures AlwaysAt(now, Lower(level, a.first), a.block) <==> Clear(level, a.first, a.jump)
  {
    if Clear(level, a.first, a.jump) {
      RankedTogether(level, now, a, position);
      TogetherAlways(level, now, a.first, a.block);
    } else {
      ApartNever(level, now, Lower(level, a.first), a.block);
    }
  }

  lemma RankedTogether(level: Levels, now: Levels, a: Account, position: int)
    requires Ranked(level, now, a, position) && a.block != [] && Clear(level, a.first, a.jump)
    ensures Together(level, now, a.first, a.block)
  {
    forall r, i | r in level && 0 <= i < |a.block|
      ensures if level[r] < a.first then now[r] < now[a.block[i]] else now[r] > now[a.block[i]]
    {
      assert now[a.block[0]] <= now[a.block[i]] <= now[a.block[|a.block| - 1]];
    }
  }

  // ---------------------------------------------------------------- positions in reach

  /** The position is in reach, so that a new link comes where it points and the next one right behind:
      always so for roles; for policies if it is at most one above the greatest level, or else not
      below the number of links, to which it is brought in, with every level below that number. */
  ghost predicate InReach(kind: Kind, level: Levels, p: int) {
    kind.RolesOfUser? || p <= Top(level) + 1 || Top(level) < |level| <= p
  }

  lemma ReachedInPlace(kind: Kind, now: Levels, x: ItemId, position: int, after: Levels)
    requires Added(kind, now, x, position, after) && InReach(kind, now, position)
    ensures Stepped(now, x, position, after)
  {
  }

  lemma FarNotTaken(now: Levels, position: int)
    requires position > Top(now) + 1
    ensures !Taken(now, position)
  {
  }

  lemma FarPolicy(now: Levels, x: ItemId, position: int, after: Levels)
    requires Added(PoliciesOfRole, now, x, position, after) && position > Top(now) + 1
    ensures after == now[x := |now|] && |after| == |now| + 1
    ensures Top(after) == if Top(now) >= |now| then Top(now) else |now|
  {
    FarNotTaken(now, position);
    assert forall r | r in after :: after[r] == now[x := |now|][r];
    assert after == now[x := |now|];
    SetTop(now, x, |now|);
  }

  lemma TopAt(level: Levels) returns (r: ItemId)
    requires level != map[]
    ensures r in level && level[r] == Top(level)
  {
    var t := Top(level);
    r :| r in level && level[r] == t;
  }

  lemma SetTop(now: Levels, x: ItemId, q: int)
    requires x !in now && q >= 0
    ensures Top(now[x := q]) == if Top(now) >= q then Top(now) else q
  {
    var after := now[x := q];
    assert x in after && after[x] == q;
    if now != map[] {
      var r := TopAt(now);
      assert r in after && after[r] == Top(now);
    }
    assert after != map[];
    var s := TopAt(after);
    assert s == x || s in now;
  }

  lemma ReachNext(kind: Kind, now: Levels, x: ItemId, position: int, after: Levels)
    requires Added(kind, now, x, position, after) && InReach(kind, now, position)
    ensures InReach(kind, after, position + 1)
  {
    if kind.PoliciesOfRole? {
      if position <= Top(now) + 1 {
        assert after[x] == position;
      } else {
        FarPolicy(now, x, position, after);
      }
    }
  }

  // ---------------------------------------------------------------- every run

  lemma RoundKeeps(q: Start, level: Levels, now: Levels, a: Account, p: nat, item: ItemId, after: Levels, b: Account)
    requires Round(q, a, p, item, now, after) && b == NextAccount(q, a, p, item)
    requires NotNegative(now) && KeepsOrder(level, now) && Joined(level, now, a.block)
    ensures NotNegative(after) && KeepsOrder(level, after) && Joined(level, after, b.block)
  {
    if q.New(a.block, item) {
      AddedGives(q.kind, now, item, p + a.Total(), after);
      JoinedNext(level, now, a.block, item, after);
      OrderNext(level, now, after);
    }
  }

  lemma RoundAt(q: Start, p: nat, ids: seq<ItemId>, trail: seq<Levels>, k: nat)
    requires Run(q, p, ids, trail) && k < |ids|
    ensures Round(q, AccountOf(q, p, ids[..k]), p, ids[k], trail[k], trail[k + 1])
    ensures AccountOf(q, p, ids[..k + 1]) == NextAccount(q, AccountOf(q, p, ids[..k]), p, ids[k])
  {
    AccountStep(q, p, ids, k);
  }

  lemma {:induction false} RunKeeps(q: Start, p: nat, ids: seq<ItemId>, trail: seq<Levels>, k: nat)
    requires Run(q, p, ids, trail) && NotNegative(trail[0]) && k <= |ids|
    ensures NotNegative(trail[k]) && KeepsOrder(trail[0], trail[k])
    ensures Joined(trail[0], trail[k], AccountOf(q, p, ids[..k]).block)
  {
    if k > 0 {
      RunKeeps(q, p, ids, trail, k - 1);
      RoundAt(q, p, ids, trail, k - 1);
      var a, b := AccountOf(q, p, ids[..k - 1]), AccountOf(q, p, ids[..k]);
      RoundKeeps(q, trail[0], trail[k - 1], a, p, ids[k - 1], trail[k], b);
    }
  }

  lemma RunNotNegative(q: Start, p: nat, ids: seq<ItemId>, trail: seq<Levels>, k: nat)
    requires Run(q, p, ids, trail) && NotNegative(trail[0]) && k <= |ids|
    ensures NotNegative(trail[k])
  {
    RunKeeps(q, p, ids, trail, k);
  }

  lemma RunFresh(q: Start, p: nat, ids: seq<ItemId>, trail: seq<Levels>, k: nat)
    requires Run(q, p, ids, trail) && NotNegative(trail[0]) && k <= |ids|
    ensures Fresh(trail[0], AccountOf(q, p, ids[..k]).block)
  {
    RunKeeps(q, p, ids, trail, k);
  }

  /** Where the loop stands after the requests so far, and that the next position is in reach. */
  ghost predicate OnCourse(q: Start, p: nat, level: Levels, now: Levels, a: Account) {
    Standing(p, level, now, a) && InReach(q.kind, now, p + a.Total())
  }

  ghost predicate Standing(p: nat, level: Levels, now: Levels, a: Account) {
    forall position | position == p + a.Total() :: Ranked(level, now, a, position)
  }

  lemma StandingRound(q: Start, level: Levels, now: Levels, a: Account, p: nat, item: ItemId, after: Levels, b: Account)
    requires Standing(p, level, now, a) && b == NextAccount(q, a, p, item)
    requires if q.New(a.block, item) then Stepped(now, item, p + a.Total(), after) else after == now
    ensures Standing(p, level, after, b)
  {
    var position, next := p + a.Total(), p + b.Total();
    assert Ranked(level, now, a, position);
    RankedRound(q, level, now, a, p, item, after, position, b, next);
  }

  /** Roles, or policies without a relink, from a position in reach. */
  lemma {:induction false} RunRanked(q: Start, p: nat, ids: seq<ItemId>, trail: seq<Levels>, k: nat)
    requires Run(q, p, ids, trail) && NotNegative(trail[0]) && k <= |ids| && InReach(q.kind, trail[0], p)
    requires q.kind.RolesOfUser? || AccountOf(q, p, ids[..k]).relinks == 0
    ensures OnCourse(q, p, trail[0], trail[k], AccountOf(q, p, ids[..k]))
  {
    if k > 0 {
      RoundAt(q, p, ids, trail, k - 1);
      RunRanked(q, p, ids, trail, k - 1);
      RunNotNegative(q, p, ids, trail, k - 1);
      RoundOnCourse(q, trail[0], trail[k - 1], AccountOf(q, p, ids[..k - 1]), p, ids[k - 1], trail[k]);
    }
  }

  lemma RoundOnCourse(q: Start, level: Levels, now: Levels, a: Account, p: nat, item: ItemId, after: Levels)
    requires OnCourse(q, p, level, now, a) && NotNegative(now) && Round(q, a, p, item, now, after)
    requires q.kind.RolesOfUser? || NextAccount(q, a, p, item).relinks == a.relinks
    ensures OnCourse(q, p, level, after, NextAccount(q, a, p, item))
  {
    var b := NextAccount(q, a, p, item);
    if q.New(a.block, item) {
      LinkedInPlace(q.kind, now, item, p + a.Total(), after);
      assert b.Total() == a.Total() + 1;
    }
    StandingRound(q, level, now, a, p, item, after, b);
  }

  lemma LinkedInPlace(kind: Kind, now: Levels, x: ItemId, position: int, after: Levels)
    requires NotNegative(now) && position >= 0 && AddedBy(kind, now, x, position, after) && InReach(kind, now, position)
    ensures Stepped(now, x, position, after) && InReach(kind, after, position + 1)
  {
    AddedGives(kind, now, x, position, after);
    ReachedInPlace(kind, now, x, position, after);
    ReachNext(kind, now, x, position, after);
  }

  // ---------------------------------------------------------------- levels by number

  /** The levels after the block has been linked, each item on the level that is the number of links
      before it. */
  function Appended(level: Levels, block: seq<ItemId>): Levels {
    if block == [] then level
    else
      var m := |block| - 1;
      Appended(level, block[..m])[block[m] := |level| + m]
  }

  lemma JoinedSize(level: Levels, now: Levels, block: seq<ItemId>)
    requires Joined(level, now, block)
    ensures |now| == |level| + |block|
  {
    DistinctCount(block);
    forall r
      ensures (r in now.Keys <==> r in level.Keys || r in Elems(block)) && !(r in level.Keys && r in Elems(block))
    {
      assert r in now <==> r in level || r in block;
    }
    UnionSize(now.Keys, level.Keys, Elems(block));
  }

  lemma {:induction false} AppendedKeys(level: Levels, block: seq<ItemId>)
    requires Fresh(level, block)
    ensures |Appended(level, block)| == |level| + |block| && Joined(level, Appended(level, block), block)
  {
    if block != [] {
      var m := |block| - 1;
      AppendedKeys(level, block[..m]);
      assert block == block[..m] + [block[m]];
      JoinedNext(level, Appended(level, block[..m]), block[..m], block[m], Appended(level, block));
    }
    JoinedSize(level, Appended(level, block), block);
  }

  lemma {:induction false} AppendedOne(level: Levels, block: seq<ItemId>, item: ItemId)
    ensures Appended(level, block + [item]) == Appended(level, block)[item := |level| + |block|]
  {
    var longer := block + [item];
    var m := |longer| - 1;
    assert longer[..m] == block && longer[m] == item;
  }

  lemma {:induction false} AppendedAt(level: Levels, block: seq<ItemId>, r: ItemId)
    requires Fresh(level, block)
    ensures r in level ==> r in Appended(level, block) && Appended(level, block)[r] == level[r]
    ensures forall i | 0 <= i < |block| && block[i] == r ::
              r in Appended(level, block) && Appended(level, block)[r] == |level| + i
  {
    if block != [] {
      AppendedAt(level, block[..|block| - 1], r);
    }
  }

  lemma {:induction false} AppendedNotNegative(level: Levels, block: seq<ItemId>)
    requires NotNegative(level)
    ensures NotNegative(Appended(level, block))
  {
    if block != [] {
      AppendedNotNegative(level, block[..|block| - 1]);
    }
  }

  lemma LowerAll(level: Levels, p: int)
    requires forall r | r in level :: level[r] < p
    ensures Lower(level, p) == |level|
  {
    var low := set r | r in level && level[r] < p;
    forall r | r in level.Keys ensures r in low { assert r in level; }
    assert low == level.Keys;
  }

  /** Without a position the new links always come last, in request order, exactly when the greatest
      level was below the number of links: after a removal in the middle a new link gets a level that
      is taken or passed already. */
  lemma {:induction false} LastExactly(level: Levels, block: seq<ItemId>)
    requires NotNegative(level) && Fresh(level, block)
    ensures AlwaysAt(Appended(level, block), |level|, block) <==> block == [] || Top(level) < |level|
  {
    AppendedKeys(level, block);
    if block != [] && Top(level) >= |level| {
      LastNeeds(level, block);
    } else if block != [] {
      LastTogether(level, block);
      LowerAll(level, |level|);
      TogetherAlways(level, Appended(level, block), |level|, block);
    }
  }

  lemma {:induction false} LastTogether(level: Levels, block: seq<ItemId>)
    requires Fresh(level, block) && Top(level) < |level|
    ensures Together(level, Appended(level, block), |level|, block)
  {
    var now := Appended(level, block);
    AppendedKeys(level, block);
    forall i | 0 <= i < |block| ensures now[block[i]] == |level| + i { AppendedAt(level, block, block[i]); }
    forall r | r in level ensures now[r] == level[r] { AppendedAt(level, block, r); }
  }

  lemma {:induction false} LastNeeds(level: Levels, block: seq<ItemId>)
    requires NotNegative(level) && Fresh(level, block) && block != [] && Top(level) >= |level|
    ensures !AlwaysAt(Appended(level, block), |level|, block)
  {
    AppendedKeys(level, block);
    AppendedNotNegative(level, block);
    var r := TopAt(level);
    AppendedAt(level, block, r);
    AppendedAt(level, block, block[0]);
    NotLast(level, Appended(level, block), block, r);
  }

  /** An old link that is not below the first new one may come after it. */
  lemma NotLast(level: Levels, now: Levels, block: seq<ItemId>, r: ItemId)
    requires NotNegative(now) && Joined(level, now, block) && |now| == |level| + |block|
    requires block != [] && r in level && now[block[0]] <= now[r]
    ensures !AlwaysAt(now, |level|, block)
  {
    var t := OrderWith(now, block[0], r);
    if |level| + |block| <= |t| && t[|level|..|level| + |block|] == block {
      NotPreceded(t, block, r);
    }
  }

  /** Nothing outside a block at the end comes after its first item. */
  lemma NotPreceded(t: seq<ItemId>, block: seq<ItemId>, y: ItemId)
    requires 0 < |block| <= |t| && t[|t| - |block|..|t|] == block && y !in block
    requires forall i, j | 0 <= i < j < |t| :: t[i] != t[j]
    ensures !Precedes(t, block[0], y)
  {
    var n := |t| - |block|;
    assert t[n] == t[n..|t|][0] == block[0];
    forall j | n < j < |t| ensures t[j] != y {
      assert t[j] == t[n..|t|][j - n];
    }
  }

  // ---------------------------------------------------------------- policies out of reach

  /** Farther off than the greatest level, which is not below the number of links: every policy gets
      that number. */
  ghost predicate Numbered(level: Levels, now: Levels, block: seq<ItemId>, position: int) {
    && Fresh(level, block) && now == Appended(level, block) && |now| == |level| + |block|
    && position > Top(now) + 1 && position > |now|
  }

  lemma NumberedRound(level: Levels, now: Levels, block: seq<ItemId>, x: ItemId, position: int, after: Levels)
    requires Numbered(level, now, block, position) && Fresh(level, block + [x])
    requires Added(PoliciesOfRole, now, x, position, after)
    ensures Numbered(level, after, block + [x], position + 1)
  {
    FarPolicy(now, x, position, after);
    AppendedOne(level, block, x);
  }

  /** Farther off than the greatest level but below the number of links: the first policy gets that
      number, and the second comes in before it. */
  ghost predicate Reversed(level: Levels, now: Levels, block: seq<ItemId>) {
    && (|block| == 0 ==> now == level)
    && (|block| == 1 ==> now == level[block[0] := |level|])
    && (|block| >= 2 ==> block[0] in now && block[1] in now && now[block[1]] < now[block[0]])
  }

  lemma ReversedRound(level: Levels, now: Levels, block: seq<ItemId>, x: ItemId, position: int, after: Levels)
    requires Top(level) + 1 < position - |block| < |level| && Reversed(level, now, block) && Fresh(level, block)
    requires Added(PoliciesOfRole, now, x, position, after)
    ensures Reversed(level, after, block + [x])
  {
    var longer := block + [x];
    if |block| == 0 {
      assert longer[0] == x;
      FarPolicy(now, x, position, after);
    } else if |block| == 1 {
      var first := block[0];
      assert longer[0] == first && longer[1] == x;
      SetTop(level, first, |level|);
      assert now[first] == |level|;
      assert after[x] == position;
    } else {
      assert longer[0] == block[0] && longer[1] == block[1];
    }
  }

  lemma FirstTwo(t: seq<ItemId>, n: nat, block: seq<ItemId>)
    requires |block| >= 2 && n + |block| <= |t| && t[n..n + |block|] == block
    ensures t[n] == block[0] && t[n + 1] == block[1]
  {
    assert t[n] == t[n..n + |block|][0] && t[n + 1] == t[n..n + |block|][1];
  }

  lemma ReversedNever(now: Levels, n: nat, block: seq<ItemId>)
    requires NotNegative(now) && |block| >= 2 && block[0] in now && block[1] in now && now[block[1]] < now[block[0]]
    ensures !AlwaysAt(now, n, block)
  {
    var t := SomeOrder(now);
    if n + |block| <= |t| && t[n..n + |block|] == block {
      FirstTwo(t, n, block);
    }
  }

  lemma {:induction false} RunNumbered(q: Start, p: nat, ids: seq<ItemId>, trail: seq<Levels>, k: nat, next: int)
    requires Run(q, p, ids, trail) && NotNegative(trail[0]) && k <= |ids| && q.kind.PoliciesOfRole?
    requires next == p + AccountOf(q, p, ids[..k]).Total() && AccountOf(q, p, ids[..k]).relinks == 0
    requires p > Top(trail[0]) + 1 && Top(trail[0]) >= |trail[0]|
    ensures Numbered(trail[0], trail[k], AccountOf(q, p, ids[..k]).block, next)
  {
    if k > 0 {
      RoundAt(q, p, ids, trail, k - 1);
      var a, b := AccountOf(q, p, ids[..k - 1]), AccountOf(q, p, ids[..k]);
      RunNumbered(q, p, ids, trail, k - 1, p + a.Total());
      RunNotNegative(q, p, ids, trail, k - 1);
      RunFresh(q, p, ids, trail, k);
      NumberedStep(q, trail[0], trail[k - 1], a, p, ids[k - 1], trail[k], p + a.Total(), b, next);
    }
  }

  lemma NumberedStep(q: Start, level: Levels, now: Levels, a: Account, p: nat, item: ItemId, after: Levels,
                     position: int, b: Account, next: int)
    requires position == p + a.Total() && b == NextAccount(q, a, p, item) && next == p + b.Total()
    requires q.kind.PoliciesOfRole? && Round(q, a, p, item, now, after) && b.relinks == a.relinks
    requires Numbered(level, now, a.block, position) && NotNegative(now) && Fresh(level, b.block)
    ensures Numbered(level, after, b.block, next)
  {
    if q.New(a.block, item) {
      AddedGives(q.kind, now, item, position, after);
      NumberedRound(level, now, a.block, item, position, after);
      assert next == position + 1;
    }
  }

  lemma {:induction false} RunReversed(q: Start, p: nat, ids: seq<ItemId>, trail: seq<Levels>, k: nat)
    requires Run(q, p, ids, trail) && NotNegative(trail[0]) && k <= |ids| && q.kind.PoliciesOfRole?
    requires AccountOf(q, p, ids[..k]).relinks == 0 && Top(trail[0]) + 1 < p < |trail[0]|
    ensures Swapped(trail[0], trail[k], AccountOf(q, p, ids[..k]))
  {
    if k > 0 {
      RoundAt(q, p, ids, trail, k - 1);
      var a, b := AccountOf(q, p, ids[..k - 1]), AccountOf(q, p, ids[..k]);
      RunReversed(q, p, ids, trail, k - 1);
      RunNotNegative(q, p, ids, trail, k - 1);
      RunFresh(q, p, ids, trail, k - 1);
      ReversedStep(q, trail[0], trail[k - 1], a, p, ids[k - 1], trail[k], p + a.Total(), b);
    }
  }

  ghost predicate Swapped(level: Levels, now: Levels, a: Account) {
    forall block | block == a.block :: Reversed(level, now, block)
  }

  lemma ReversedStep(q: Start, level: Levels, now: Levels, a: Account, p: nat, item: ItemId, after: Levels,
                     position: int, b: Account)
    requires position == p + a.Total() && q.kind.PoliciesOfRole? && b == NextAccount(q, a, p, item) && b.relinks == 0
    requires Round(q, a, p, item, now, after) && Top(level) + 1 < p < |level|
    requires Swapped(level, now, a) && NotNegative(now) && Fresh(level, a.block)
    ensures Swapped(level, after, b)
  {
    assert Reversed(level, now, a.block);
    if q.New(a.block, item) {
      AddedGives(q.kind, now, item, position, after);
      ReversedRound(level, now, a.block, item, position, after);
    }
  }

  /** When policies that are all new or unknown end up as one block where the position points, in
      every order: for m new links this is the case if and only if there is none, or the position is
      at most one above the greatest level, or every level is below the number of links and the
      position is not, or there is just one. */
  ghost predicate PolicyBlock(level: Levels, p: int, m: nat) {
    m == 0 || p <= Top(level) + 1 || (Top(level) < |level| && (m == 1 || |level| <= p))
  }

  lemma PolicyExactly(q: Start, p: nat, ids: seq<ItemId>, trail: seq<Levels>)
    requires Run(q, p, ids, trail) && NotNegative(trail[0]) && q.kind.PoliciesOfRole? && Relinks(q, ids) == 0
    ensures var block := NewLinks(q, ids);
            AlwaysAt(trail[|ids|], Lower(trail[0], p), block) <==> PolicyBlock(trail[0], p, |block|)
  {
    var level, now, a, n := trail[0], trail[|ids|], AccountOf(q, p, ids), |ids|;
    assert ids[..n] == ids;
    AccountParts(q, p, ids);
    RunKeeps(q, p, ids, trail, n);
    if a.block == [] {
      NoneAlways(level, now, p);
    } else if InReach(q.kind, level, p) {
      NoJump(q, p, ids);
      RunRanked(q, p, ids, trail, n);
      RankedExactly(level, now, a, p + a.Total());
    } else {
      LowerAll(level, p);
      if Top(level) >= |level| {
        RunNumbered(q, p, ids, trail, n, p + a.Total());
        LastExactly(level, a.block);
      } else {
        RunReversed(q, p, ids, trail, n);
        assert Reversed(level, now, a.block);
        ReversedExactly(level, now, a.block);
      }
    }
  }

  lemma NoneAlways(level: Levels, now: Levels, f: int)
    requires level.Keys <= now.Keys
    ensures AlwaysAt(now, Lower(level, f), [])
  {
    forall t | Listed(t, now) ensures Lower(level, f) <= |t| {
      LowerFits(level, now, f, t);
    }
  }

  lemma ReversedExactly(level: Levels, now: Levels, block: seq<ItemId>)
    requires Reversed(level, now, block) && block != [] && NotNegative(level) && NotNegative(now)
    requires Fresh(level, block) && Top(level) < |level|
    ensures AlwaysAt(now, |level|, block) <==> |block| == 1
  {
    if |block| == 1 {
      AppendedOne(level, [], block[0]);
      assert [] + [block[0]] == block;
      LastExactly(level, block);
    } else {
      ReversedNever(now, |level|, block);
    }
  }

  /** Roles: the new links of a request end up as one block, at the place the position of the first
      of them points to, if and only if no old link was on a level from there up to the position of
      the last of them that followed a relink, as a relink counts although it makes no link. */
  lemma RelinkSplitsExactly(q: Start, p: nat, ids: seq<ItemId>, trail: seq<Levels>)
    requires Run(q, p, ids, trail) && NotNegative(trail[0]) && q.kind.RolesOfUser?
    ensures var a := AccountOf(q, p, ids);
            AlwaysAt(trail[|ids|], Lower(trail[0], a.first), a.block)
            <==> a.block == [] || Clear(trail[0], a.first, a.jump)
  {
    var a, n := AccountOf(q, p, ids), |ids|;
    assert ids[..n] == ids;
    RunKeeps(q, p, ids, trail, n);
    if a.block == [] {
      NoneAlways(trail[0], trail[n], a.first);
    } else {
      RunRanked(q, p, ids, trail, n);
      RankedExactly(trail[0], trail[n], a, p + a.Total());
    }
  }

  /** So with no relink they always do, where the position points. */
  lemma NoRelinkTogether(q: Start, p: nat, ids: seq<ItemId>, trail: seq<Levels>)
    requires Run(q, p, ids, trail) && NotNegative(trail[0]) && q.kind.RolesOfUser? && Relinks(q, ids) == 0
    ensures AlwaysAt(trail[|ids|], Lower(trail[0], p), NewLinks(q, ids))
  {
    AccountParts(q, p, ids);
    NoJump(q, p, ids);
    RelinkSplitsExactly(q, p, ids, trail);
    if NewLinks(q, ids) == [] {
      assert ids[..|ids|] == ids;
      RunKeeps(q, p, ids, trail, |ids|);
      NoneAlways(trail[0], trail[|ids|], p);
    }
  }

  // ---------------------------------------------------------------- one policy

  /** A single policy is at the index of its position in every order if and only if the position is at
      most one above the greatest level or every level is below the number of links. */
  lemma PolicyLandsExactly(level: Levels, x: ItemId, p: nat, after: Levels)
    requires NotNegative(level) && AddedBy(PoliciesOfRole, level, x, p, after)
    ensures AlwaysAt(after, Lower(level, p), [x]) <==> p <= Top(level) + 1 || Top(level) < |level|
  {
    var q, trail := Start(PoliciesOfRole, level.Keys, {x}), [level, after];
    OneLink(q, p, x);
    assert Run(q, p, [x], trail);
    PolicyExactly(q, p, [x], trail);
  }

  lemma {:induction false} OneLink(q: Start, p: nat, x: ItemId)
    requires q.New([], x)
    ensures NewLinks(q, [x]) == [x] && Relinks(q, [x]) == 0 && AccountOf(q, p, [x][..0]) == NOTHING
  {
    assert [x][..0] == [];
  }

  /** Levels 0 and 5, a policy for position 9: it gets level 2 and comes between them. With 2 instead
      of 5 it shares a level with the old one and may come before it or after it. */
  lemma PolicyInTheMiddle(top: nat, after: Levels)
    requires 2 <= top < 8 && AddedBy(PoliciesOfRole, map[1 := 0, 2 := top], 3, 9, after)
    ensures Listed([1, 3, 2], after) && (Listed([1, 2, 3], after) <==> top == 2)
  {
    var level: Levels := map[1 := 0, 2 := top];
    TwoLevels(top, level);
    AddedFar(level, 3, 9, after);
    ThreeListed(top, after);
  }

  lemma TwoLevels(top: nat, level: Levels)
    requires level == map[1 := 0, 2 := top]
    ensures |level| == 2 && NotNegative(level) && forall r | r in level :: level[r] <= top
  {
    assert level.Keys == {1, 2};
    assert |level.Keys| == 2;
  }

  lemma AddedFar(level: Levels, x: ItemId, p: nat, after: Levels)
    requires NotNegative(level) && AddedBy(PoliciesOfRole, level, x, p, after)
    requires forall r | r in level :: level[r] + 1 < p
    requires level != map[]
    ensures after == level[x := |level|]
  {
    AddedGives(PoliciesOfRole, level, x, p, after);
    var r := TopAt(level);
    FarPolicy(level, x, p, after);
  }

  lemma ThreeListed(top: nat, after: Levels)
    requires 2 <= top && after == map[1 := 0, 2 := top][3 := 2]
    ensures Listed([1, 3, 2], after) && (Listed([1, 2, 3], after) <==> top == 2)
  {
    assert after.Keys == {1, 2, 3};
    assert |after| == 3 by { assert |after.Keys| == 3; }
    assert after[1] == 0 && after[2] == top && after[3] == 2;
    if top > 2 {
      var s := [1, 2, 3];
      assert after[s[1]] > after[s[2]];
    }
  }

  // ---------------------------------------------------------------- levels without gaps

  /** The levels are 0, 1, 2, ... in this order. */
  ghost predicate Compact(s: seq<ItemId>, level: Levels) {
    Listed(s, level) && forall i | 0 <= i < |s| :: level[s[i]] == i
  }

  lemma CompactBelow(s: seq<ItemId>, level: Levels, p: int)
    requires Compact(s, level) && p >= 0
    ensures Below(s, level, p) == Least(p, |s|)
  {
    var n := Below(s, level, p);
    if n < |s| {
      assert level[s[n]] == n;
    }
    if p < |s| {
      assert level[s[p]] == p;
    }
    if n > 0 {
      assert level[s[n - 1]] == n - 1;
    }
  }

  /** There is just one order then. */
  lemma OneOrder(s: seq<ItemId>, level: Levels, t: seq<ItemId>)
    requires Compact(s, level) && Listed(t, level)
    ensures t == s
  {
    forall i | 0 <= i < |s| ensures t[i] == s[i] {
      CompactBelow(s, level, i);
      BelowCount(s, level, i);
      forall r | r in level && r != s[i] ensures level[r] != level[s[i]] {
        var j := Index(s, level, r);
      }
      UniqueIndex(t, level, s[i]);
    }
  }

  lemma CompactLands(kind: Kind, s: seq<ItemId>, level: Levels, p: int)
    requires Compact(s, level) && p >= 0
    ensures LandsOn(kind, level, p) == Least(p, |s|)
  {
    TopLast(s, level);
  }

  lemma CompactRoom(s: seq<ItemId>, level: Levels, p: int, room: Levels)
    requires Compact(s, level) && p >= 0 && RoomMade(s, level, p, room)
    ensures room.Keys == level.Keys && forall i | 0 <= i < |s| :: room[s[i]] == if i < p then i else i + 1
  {
    CompactBelow(s, level, p);
    TakenAt(s, level, p);
  }

  lemma CompactPutIn(s: seq<ItemId>, room: Levels, n: nat, x: ItemId)
    requires |s| == |room| && x !in room && n <= |s|
    requires forall i | 0 <= i < |s| :: s[i] in room && room[s[i]] == if i < n then i else i + 1
    ensures Compact(PutIn(s, n, x), room[x := n])
  {
    var t, after := PutIn(s, n, x), room[x := n];
    forall i | 0 <= i < |t| ensures t[i] in after && after[t[i]] == i {
      PutInAt(s, n, x, i);
    }
  }

  /** A new link comes in at the position, or at the end, and leaves no gap. */
  lemma CompactNext(kind: Kind, s: seq<ItemId>, level: Levels, x: ItemId, p: int, after: Levels)
    requires Compact(s, level) && p >= 0 && AddedBy(kind, level, x, p, after)
    ensures Compact(PutIn(s, Least(p, |s|), x), after)
  {
    var t, room :| InOrder(t, kind, level, x, p, room, after);
    OneOrder(s, level, t);
    CompactLands(kind, s, level, p);
    CompactRoom(s, level, p, room);
    CompactPutIn(s, room, Least(p, |s|), x);
  }

  /** Where the new links of a request go in a list without gaps: each at the position reached, or at
      the end. */
  function Placed(q: Start, listed: seq<ItemId>, p: nat, ids: seq<ItemId>): seq<ItemId> {
    if ids == [] then listed
    else
      var before := ids[..|ids| - 1];
      Place(q, Placed(q, listed, p, before), p, AccountOf(q, p, before), ids[|ids| - 1])
  }

  function Place(q: Start, list: seq<ItemId>, p: nat, a: Account, r: ItemId): seq<ItemId> {
    if q.New(a.block, r) then PutIn(list, Least(p + a.Total(), |list|), r) else list
  }

  /** Relinks or not, for roles and for policies. */
  lemma {:induction false} CompactRun(q: Start, p: nat, ids: seq<ItemId>, trail: seq<Levels>, s: seq<ItemId>, k: nat)
    requires Run(q, p, ids, trail) && Compact(s, trail[0]) && k <= |ids|
    ensures Compact(Placed(q, s, p, ids[..k]), trail[k])
  {
    if k > 0 {
      CompactRun(q, p, ids, trail, s, k - 1);
      RoundAt(q, p, ids, trail, k - 1);
      assert ids[..k][..k - 1] == ids[..k - 1];
      var a, list := AccountOf(q, p, ids[..k - 1]), Placed(q, s, p, ids[..k - 1]);
      CompactRound(q, a, p, ids[k - 1], list, trail[k - 1], trail[k]);
    }
  }

  lemma CompactRound(q: Start, a: Account, p: nat, item: ItemId, s: seq<ItemId>, now: Levels, after: Levels)
    requires Compact(s, now) && Round(q, a, p, item, now, after)
    ensures Compact(Place(q, s, p, a, item), after)
  {
    if q.New(a.block, item) {
      CompactNext(q.kind, s, now, item, p + a.Total(), after);
    }
  }

  lemma {:induction false} ThreeLinks(q: Start, x: ItemId, y: ItemId, z: ItemId)
    requires x in q.items - q.keys && z in q.items - q.keys && x != z && y in q.items * q.keys
    ensures NewLinks(q, [x]) == [x] && Relinks(q, [x]) == 0
    ensures NewLinks(q, [x, y]) == [x] && Relinks(q, [x, y]) == 1
    ensures NewLinks(q, [x, y, z]) == [x, z] && Relinks(q, [x, y, z]) == 1
  {
    assert [x][..0] == [] && [x, y][..1] == [x] && [x, y, z][..2] == [x, y];
  }

  /** In a list without gaps, a linked item y between two new ones is counted, and pulls them apart by
      the item that was at the position. */
  lemma {:induction false} RelinkSplitsBlock(q: Start, listed: seq<ItemId>, p: nat, x: ItemId, y: ItemId, z: ItemId)
    requires p < |listed| && x in q.items - q.keys && z in q.items - q.keys && x != z && y in q.items * q.keys
    ensures Placed(q, listed, p, [x, y, z]) == listed[..p] + [x, listed[p], z] + listed[p + 1..]
    ensures |NewLinks(q, [x, y, z])| + Relinks(q, [x, y, z]) == 3
  {
    ThreeLinks(q, x, y, z);
    AccountParts(q, p, [x]);
    AccountParts(q, p, [x, y]);
    assert [x][..0] == [] && [x, y][..1] == [x] && [x, y, z][..2] == [x, y];
    assert Placed(q, listed, p, [x]) == PutIn(listed, p, x);
    assert Placed(q, listed, p, [x, y]) == PutIn(listed, p, x);
    TwoPutIn(listed, p, x, z);
  }

  lemma TwoPutIn(listed: seq<ItemId>, p: nat, x: ItemId, z: ItemId)
    requires p < |listed|
    ensures PutIn(PutIn(listed, p, x), p + 2, z) == listed[..p] + [x, listed[p], z] + listed[p + 1..]
  {
  }

  // ---------------------------------------------------------------- what is reported

  /** The item requested here exists and is not linked: neither before, nor by an earlier place. */
  predicate MakesLink(q: Start, ids: seq<ItemId>, i: nat)
    requires i < |ids|
  {
    ids[i] in q.items && ids[i] !in q.keys && ids[i] !in ids[..i]
  }

  predicate LinkedByThen(q: Start, ids: seq<ItemId>, i: nat)
    requires i < |ids|
  {
    ids[i] in q.items && (ids[i] in q.keys || ids[i] in ids[..i])
  }

  /** The new links are the requested items at these places. */
  ghost predicate LinksAt(q: Start, ids: seq<ItemId>, links: seq<ItemId>, at: seq<nat>) {
    && Places(at, |ids|) && |links| == |at|
    && (forall j | 0 <= j < |at| :: links[j] == ids[at[j]])
    && (forall i | 0 <= i < |ids| :: i in at <==> MakesLink(q, ids, i))
  }

  /** Exactly the requested items that exist and were not linked are linked, each at the first place
      that asks for it. */
  lemma {:induction false} NewLinksExactly(q: Start, ids: seq<ItemId>) returns (at: seq<nat>)
    ensures LinksAt(q, ids, NewLinks(q, ids), at)
    ensures forall r :: r in NewLinks(q, ids) <==> r in ids && r in q.items && r !in q.keys
  {
    at := [];
    if ids != [] {
      var n := |ids| - 1;
      var before, r := ids[..n], ids[n];
      at := NewLinksExactly(q, before);
      PlacesNext(at, n);
      LinkStays(q, ids, NewLinks(q, before), at);
      assert ids == before + [r];
      if q.New(NewLinks(q, before), r) {
        at := at + [n];
      }
    }
  }

  lemma LinkStays(q: Start, ids: seq<ItemId>, links: seq<ItemId>, at: seq<nat>)
    requires ids != [] && LinksAt(q, ids[..|ids| - 1], links, at)
    ensures forall j | 0 <= j < |at| :: links[j] == ids[at[j]]
    ensures forall i | 0 <= i < |ids| - 1 :: i in at <==> MakesLink(q, ids, i)
  {
    var n := |ids| - 1;
    forall i | 0 <= i < n ensures i in at <==> MakesLink(q, ids, i) {
      assert ids[..n][..i] == ids[..i];
      assert i in at <==> MakesLink(q, ids[..n], i);
    }
  }

  /** How many of these items exist. */
  function Existing(items: set<ItemId>, ids: seq<ItemId>): nat {
    if ids == [] then 0 else Existing(items, ids[..|ids| - 1]) + if ids[|ids| - 1] in items then 1 else 0
  }

  /** The place makes a link, and it is the first that does, or since the last one that did an item was
      asked for that was linked by then. */
  ghost predicate Jumps(q: Start, ids: seq<ItemId>, k: nat)
    requires k < |ids|
  {
    && MakesLink(q, ids, k)
    && ((forall i | 0 <= i < k :: !MakesLink(q, ids, i))
        || exists j | 0 <= j < k :: LinkedByThen(q, ids, j) && forall i | j < i < k :: !MakesLink(q, ids, i))
  }

  ghost predicate NoLink(q: Start, ids: seq<ItemId>) {
    forall i | 0 <= i < |ids| :: !MakesLink(q, ids, i)
  }

  ghost predicate FirstLink(q: Start, ids: seq<ItemId>, k: nat) {
    k < |ids| && MakesLink(q, ids, k) && forall i | 0 <= i < k :: !MakesLink(q, ids, i)
  }

  ghost predicate LastLink(q: Start, ids: seq<ItemId>, k: nat) {
    k < |ids| && MakesLink(q, ids, k) && forall i | k < i < |ids| :: !MakesLink(q, ids, i)
  }

  ghost predicate LastJump(q: Start, ids: seq<ItemId>, k: nat) {
    k < |ids| && Jumps(q, ids, k) && forall i | k < i < |ids| :: !Jumps(q, ids, i)
  }

  /** The positions of the first link, of the last and of the last that followed a relink: each is the
      request's position moved on by one for each existing item asked for before. */
  ghost predicate Positions(q: Start, p: nat, ids: seq<ItemId>, a: Account, first: nat, last: nat, jump: nat) {
    && a.block == NewLinks(q, ids) && a.Total() == Existing(q.items, ids)
    && (a.block == [] ==> NoLink(q, ids))
    && (a.block != [] ==>
          && FirstLink(q, ids, first) && LastLink(q, ids, last) && LastJump(q, ids, jump)
          && a.first == p + Existing(q.items, ids[..first])
          && a.last == p + Existing(q.items, ids[..last])
          && a.jump == p + Existing(q.items, ids[..jump]))
  }

  lemma {:induction false} ExistingGap(items: set<ItemId>, ids: seq<ItemId>, m: nat)
    requires m <= |ids|
    ensures Existing(items, ids) >= Existing(items, ids[..m])
    ensures Existing(items, ids) == Existing(items, ids[..m]) <==> forall j | m <= j < |ids| :: ids[j] !in items
  {
    if m < |ids| {
      var n := |ids| - 1;
      ExistingGap(items, ids[..n], m);
      assert ids[..n][..m] == ids[..m];
      assert forall j | m <= j < n :: ids[..n][j] == ids[j];
    } else {
      assert ids[..m] == ids;
    }
  }

  lemma ExistingNext(items: set<ItemId>, ids: seq<ItemId>, m: nat)
    requires m < |ids|
    ensures Existing(items, ids[..m + 1]) == Existing(items, ids[..m]) + if ids[m] in items then 1 else 0
  {
    assert ids[..m + 1][..m] == ids[..m];
  }

  /** What a place does depends on the places before it alone. */
  lemma PrefixPlaces(q: Start, ids: seq<ItemId>, n: nat, i: nat)
    requires i < n <= |ids|
    ensures MakesLink(q, ids[..n], i) == MakesLink(q, ids, i) && LinkedByThen(q, ids[..n], i) == LinkedByThen(q, ids, i)
  {
    assert ids[..n][..i] == ids[..i];
  }

  lemma PrefixJumps(q: Start, ids: seq<ItemId>, n: nat, k: nat)
    requires k < n <= |ids|
    ensures Jumps(q, ids[..n], k) <==> Jumps(q, ids, k)
  {
    forall i | 0 <= i < n
      ensures MakesLink(q, ids[..n], i) == MakesLink(q, ids, i)
              && LinkedByThen(q, ids[..n], i) == LinkedByThen(q, ids, i)
    {
      PrefixPlaces(q, ids, n, i);
    }
    if Jumps(q, ids[..n], k) && exists i | 0 <= i < k :: MakesLink(q, ids, i) {
      var j :| 0 <= j < k && LinkedByThen(q, ids[..n], j) && forall i | j < i < k :: !MakesLink(q, ids[..n], i);
      assert LinkedByThen(q, ids, j);
    }
    if Jumps(q, ids, k) && exists i | 0 <= i < k :: MakesLink(q, ids[..n], i) {
      var j :| 0 <= j < k && LinkedByThen(q, ids, j) && forall i | j < i < k :: !MakesLink(q, ids, i);
      assert LinkedByThen(q, ids[..n], j);
    }
  }

  /** A link that follows others jumps if and only if its position is not right behind the last one's. */
  lemma JumpsExactly(q: Start, ids: seq<ItemId>, last: nat, n: nat)
    requires last < n < |ids| && MakesLink(q, ids, last) && MakesLink(q, ids, n)
    requires forall i | last < i < n :: !MakesLink(q, ids, i)
    ensures Jumps(q, ids, n) <==> Existing(q.items, ids[..n]) != Existing(q.items, ids[..last]) + 1
  {
    var before := ids[..n];
    ExistingGap(q.items, before, last + 1);
    assert before[..last + 1] == ids[..last + 1];
    ExistingNext(q.items, ids, last);
    assert forall j | 0 <= j < n :: before[j] == ids[j];
    if Jumps(q, ids, n) {
      var j :| 0 <= j < n && LinkedByThen(q, ids, j) && forall i | j < i < n :: !MakesLink(q, ids, i);
      assert last < j;
      assert before[j] in q.items;
    }
    if j :| last + 1 <= j < n && before[j] in q.items {
      assert !MakesLink(q, ids, j) && LinkedByThen(q, ids, j);
    }
  }

  /** From one request to the next longer one. */
  lemma StaysNone(q: Start, ids: seq<ItemId>)
    requires ids != [] && NoLink(q, ids[..|ids| - 1])
    ensures if MakesLink(q, ids, |ids| - 1) then FirstLink(q, ids, |ids| - 1) else NoLink(q, ids)
  {
    var n := |ids| - 1;
    forall i | 0 <= i < n ensures !MakesLink(q, ids, i) {
      PrefixPlaces(q, ids, n, i);
    }
  }

  lemma StaysFirst(q: Start, ids: seq<ItemId>, k: nat)
    requires ids != [] && FirstLink(q, ids[..|ids| - 1], k)
    ensures FirstLink(q, ids, k)
  {
    forall i | 0 <= i <= k ensures MakesLink(q, ids[..|ids| - 1], i) == MakesLink(q, ids, i) {
      PrefixPlaces(q, ids, |ids| - 1, i);
    }
  }

  lemma StaysLast(q: Start, ids: seq<ItemId>, k: nat)
    requires ids != [] && LastLink(q, ids[..|ids| - 1], k)
    ensures MakesLink(q, ids, k) && forall i | k < i < |ids| - 1 :: !MakesLink(q, ids, i)
  {
    forall i | k <= i < |ids| - 1 ensures MakesLink(q, ids[..|ids| - 1], i) == MakesLink(q, ids, i) {
      PrefixPlaces(q, ids, |ids| - 1, i);
    }
  }

  lemma StaysJump(q: Start, ids: seq<ItemId>, k: nat)
    requires ids != [] && LastJump(q, ids[..|ids| - 1], k) && !Jumps(q, ids, |ids| - 1)
    ensures LastJump(q, ids, k)
  {
    var n := |ids| - 1;
    PrefixJumps(q, ids, n, k);
    forall i | k < i < |ids| ensures !Jumps(q, ids, i) {
      if i < n {
        PrefixJumps(q, ids, n, i);
      }
    }
  }

  lemma PositionsStay(q: Start, p: nat, ids: seq<ItemId>, a: Account, b: Account, first: nat, last: nat, jump: nat)
    requires ids != [] && Positions(q, p, ids[..|ids| - 1], a, first, last, jump) && !MakesLink(q, ids, |ids| - 1)
    requires b.block == a.block == NewLinks(q, ids) && b.Total() == Existing(q.items, ids)
    requires b.first == a.first && b.last == a.last && b.jump == a.jump
    ensures Positions(q, p, ids, b, first, last, jump)
  {
    var n := |ids| - 1;
    if a.block == [] {
      StaysNone(q, ids);
    } else {
      StaysFirst(q, ids, first);
      StaysLast(q, ids, last);
      StaysJump(q, ids, jump);
      assert ids[..n][..first] == ids[..first] && ids[..n][..last] == ids[..last] && ids[..n][..jump] == ids[..jump];
    }
  }

  lemma PositionsFirst(q: Start, p: nat, ids: seq<ItemId>, b: Account)
    requires ids != [] && NoLink(q, ids[..|ids| - 1]) && MakesLink(q, ids, |ids| - 1)
    requires b.block == NewLinks(q, ids) != [] && b.Total() == Existing(q.items, ids)
    requires b.first == b.last == b.jump == p + Existing(q.items, ids[..|ids| - 1])
    ensures Positions(q, p, ids, b, |ids| - 1, |ids| - 1, |ids| - 1)
  {
    StaysNone(q, ids);
  }

  lemma PositionsMore(q: Start, p: nat, ids: seq<ItemId>, a: Account, b: Account, first: nat, last: nat, jump: nat)
    requires ids != [] && Positions(q, p, ids[..|ids| - 1], a, first, last, jump) && a.block != []
    requires MakesLink(q, ids, |ids| - 1)
    requires b.block == NewLinks(q, ids) != [] && b.Total() == Existing(q.items, ids)
    requires b.first == a.first && b.last == p + Existing(q.items, ids[..|ids| - 1])
    requires b.jump == if b.last == a.last + 1 then a.jump else b.last
    ensures Positions(q, p, ids, b, first, |ids| - 1, if b.last == a.last + 1 then jump else |ids| - 1)
  {
    var n := |ids| - 1;
    StaysFirst(q, ids, first);
    StaysLast(q, ids, last);
    JumpsExactly(q, ids, last, n);
    assert ids[..n][..first] == ids[..first] && ids[..n][..last] == ids[..last] && ids[..n][..jump] == ids[..jump];
    if b.last == a.last + 1 {
      StaysJump(q, ids, jump);
    }
  }

  /** The positions that decide whether a request's links are one block, by what was asked for. */
  lemma {:induction false} PositionsExactly(q: Start, p: nat, ids: seq<ItemId>)
    returns (first: nat, last: nat, jump: nat)
    ensures Positions(q, p, ids, AccountOf(q, p, ids), first, last, jump)
  {
    first, last, jump := 0, 0, 0;
    AccountParts(q, p, ids);
    if ids != [] {
      var n := |ids| - 1;
      var a, b := AccountOf(q, p, ids[..n]), AccountOf(q, p, ids);
      first, last, jump := PositionsExactly(q, p, ids[..n]);
      NextExactly(q, p, ids, a, b);
      if !MakesLink(q, ids, n) {
        PositionsStay(q, p, ids, a, b, first, last, jump);
      } else if a.block == [] {
        PositionsFirst(q, p, ids, b);
        first, last, jump := n, n, n;
      } else {
        PositionsMore(q, p, ids, a, b, first, last, jump);
        last, jump := n, if b.last == a.last + 1 then jump else n;
      }
    }
  }

  lemma NextExactly(q: Start, p: nat, ids: seq<ItemId>, a: Account, b: Account)
    requires ids != [] && a.block == NewLinks(q, ids[..|ids| - 1]) && b == NextAccount(q, a, p, ids[|ids| - 1])
    requires a.Total() == Existing(q.items, ids[..|ids| - 1])
    ensures var n, position := |ids| - 1, p + Existing(q.items, ids[..|ids| - 1]);
            && b.Total() == Existing(q.items, ids)
            && (if MakesLink(q, ids, n) then
                  && b.block != [] && b.first == (if a.block == [] then position else a.first) && b.last == position
                  && b.jump == (if a.block != [] && position == a.last + 1 then a.jump else position)
                else b.block == a.block && b.first == a.first && b.last == a.last && b.jump == a.jump)
  {
    var at := NewLinksExactly(q, ids[..|ids| - 1]);
  }

  /** What is reported for a place: the item does not exist, or it is linked and that is an error. */
  predicate ReportedFor(q: Start, ids: seq<ItemId>, i: nat, error: (ItemId, int))
    requires i < |ids|
  {
    && error.0 == ids[i]
    && error.1 == if ids[i] !in q.items then (if q.kind.RolesOfUser? then 4002 else 4007)
                  else (if q.kind.RolesOfUser? then 4017 else 4011)
  }

  /** The errors are those of these places. */
  ghost predicate ErrorsAt(q: Start, ids: seq<ItemId>, relinks: bool, failed: seq<(ItemId, int)>, at: seq<nat>) {
    && Places(at, |ids|) && |failed| == |at|
    && (forall j | 0 <= j < |at| :: ReportedFor(q, ids, at[j], failed[j]))
    && (forall i | 0 <= i < |ids| :: i in at <==> ids[i] !in q.items || (relinks && LinkedByThen(q, ids, i)))
  }

  /** One error, in order, for each place that asks for an item that does not exist, and without a
      position for each that asks for an item that is linked by then; no other. */
  ghost predicate Reported(q: Start, ids: seq<ItemId>, relinks: bool, failed: seq<(ItemId, int)>) {
    exists at :: ErrorsAt(q, ids, relinks, failed, at)
  }

  lemma AgainExactly(q: Start, ids: seq<ItemId>, i: nat)
    requires i < |ids|
    ensures q.Again(NewLinks(q, ids[..i]), ids[i]) <==> LinkedByThen(q, ids, i)
  {
    var at := NewLinksExactly(q, ids[..i]);
  }

  lemma ErrorsStay(q: Start, ids: seq<ItemId>, relinks: bool, failed: seq<(ItemId, int)>, at: seq<nat>)
    requires ids != [] && ErrorsAt(q, ids[..|ids| - 1], relinks, failed, at)
    ensures forall j | 0 <= j < |at| :: ReportedFor(q, ids, at[j], failed[j])
    ensures forall i | 0 <= i < |ids| - 1 ::
              i in at <==> ids[i] !in q.items || (relinks && LinkedByThen(q, ids, i))
  {
    var n := |ids| - 1;
    forall j | 0 <= j < |at| ensures ReportedFor(q, ids, at[j], failed[j]) {
      assert ReportedFor(q, ids[..n], at[j], failed[j]);
    }
    forall i | 0 <= i < n ensures i in at <==> ids[i] !in q.items || (relinks && LinkedByThen(q, ids, i)) {
      assert ids[..n][..i] == ids[..i];
      assert i in at <==> ids[..n][i] !in q.items || (relinks && LinkedByThen(q, ids[..n], i));
    }
  }

  lemma {:induction false} FailuresAt(q: Start, ids: seq<ItemId>, relinks: bool) returns (at: seq<nat>)
    ensures ErrorsAt(q, ids, relinks, Failures(q, ids, relinks), at)
  {
    at := [];
    if ids != [] {
      var n := |ids| - 1;
      at := FailuresAt(q, ids[..n], relinks);
      PlacesNext(at, n);
      ErrorsStay(q, ids, relinks, Failures(q, ids[..n], relinks), at);
      AgainExactly(q, ids, n);
      if Failure(q, NewLinks(q, ids[..n]), ids[n], relinks) != [] {
        at := at + [n];
      }
    }
  }

  /** Every requested item is linked, counted as linked, or reported. */
  lemma {:induction false} AllAccounted(q: Start, ids: seq<ItemId>)
    ensures |NewLinks(q, ids)| + Relinks(q, ids) + |Failures(q, ids, false)| == |ids|
    ensures |NewLinks(q, ids)| + |Failures(q, ids, true)| == |ids|
  {
    if ids != [] {
      AllAccounted(q, ids[..|ids| - 1]);
    }
  }

  lemma FailuresExactly(q: Start, ids: seq<ItemId>, relinks: bool)
    ensures Reported(q, ids, relinks, Failures(q, ids, relinks))
  {
    var at := FailuresAt(q, ids, relinks);
  }

  /** So an error is reported exactly when some place gives cause for it. */
  lemma ReportedMembers(q: Start, ids: seq<ItemId>, relinks: bool, failed: seq<(ItemId, int)>, r: ItemId, code: int)
    requires Reported(q, ids, relinks, failed)
    ensures (r, code) in failed <==>
            || (r in ids && r !in q.items && code == (if q.kind.RolesOfUser? then 4002 else 4007))
            || (relinks && code == (if q.kind.RolesOfUser? then 4017 else 4011)
                && exists i | 0 <= i < |ids| :: ids[i] == r && LinkedByThen(q, ids, i))
  {
    var at :| ErrorsAt(q, ids, relinks, failed, at);
    if (r, code) in failed {
      var j :| 0 <= j < |failed| && failed[j] == (r, code);
      assert ReportedFor(q, ids, at[j], failed[j]);
      assert at[j] in at && ids[at[j]] == r;
    }
    forall i | 0 <= i < |ids| && ids[i] == r && i in at
      ensures exists j | 0 <= j < |failed| :: ReportedFor(q, ids, i, failed[j])
    {
      var j :| 0 <= j < |at| && at[j] == i;
      assert ReportedFor(q, ids, at[j], failed[j]);
    }
  }

  // ---------------------------------------------------------------- the loop with a position

  datatype Result = Result(total: nat, failed: seq<(ItemId, int)>)

  function ResultOf(a: Account): Result {
    Result(a.Total(), a.failed)
  }

  ghost predicate Holds(q: Start, a: Account, level: Levels) {
    NotNegative(level) && forall r :: r in level <==> r in q.keys || r in a.block
  }

  lemma HoldsNext(q: Start, a: Account, p: nat, item: ItemId, level: Levels, after: Levels)
    requires Holds(q, a, level) && Round(q, a, p, item, level, after)
    ensures Holds(q, NextAccount(q, a, p, item), after)
  {
    if q.New(a.block, item) {
      AddedGives(q.kind, level, item, p + a.Total(), after);
      forall r ensures r in after <==> r in q.keys || r in a.block + [item] {
        assert r in after <==> r in level || r == item;
      }
    }
  }

  /** One round of the handler's loop. */
  method LinkNext(links: Links, db: Db, item: ItemId, sofar: Result, p: nat, ghost q: Start, ghost a: Account)
    returns (result: Result)
    requires db.Ready() && db.kind == q.kind && db.items == q.items && sofar == ResultOf(a) && Holds(q, a, links.level)
    modifies links
    ensures Round(q, a, p, item, old(links.level), links.level)
    ensures result == ResultOf(NextAccount(q, a, p, item)) && Holds(q, NextAccount(q, a, p, item), links.level)
    ensures result == if item in db.items then sofar.(total := sofar.total + 1)
                      else sofar.(failed := sofar.failed + [(item, if db.kind.RolesOfUser? then 4002 else 4007)])
  {
    ghost var level := links.level;
    var answer := links.AddItemAt(db, item, p + sofar.total);
    if answer == ItemNotExist {
      result := sofar.(failed := sofar.failed + [(item, ItemUnknown(db.kind))]);
    } else {
      result := sofar.(total := sofar.total + 1);
    }
    HoldsNext(q, a, p, item, level, links.level);
  }

  lemma RunNext(q: Start, p: nat, ids: seq<ItemId>, trail: seq<Levels>, k: nat, after: Levels)
    requires k < |ids| && Run(q, p, ids[..k], trail)
    requires Round(q, AccountOf(q, p, ids[..k]), p, ids[k], trail[k], after)
    ensures Run(q, p, ids[..k + 1], trail + [after])
  {
    var longer, more := trail + [after], ids[..k + 1];
    forall j | 0 <= j < |more| ensures Round(q, AccountOf(q, p, more[..j]), p, more[j], longer[j], longer[j + 1]) {
      assert more[..j] == ids[..j];
      if j < k {
        assert ids[..k][..j] == ids[..j] && ids[..k][j] == more[j];
      }
    }
  }

  /** The handler's loop, for a holder that can be changed and a position; the trail is ghost. */
  method LinkAll(links: Links, db: Db, ids: seq<ItemId>, p: nat, ghost q: Start)
    returns (result: Result, ghost trail: seq<Levels>)
    requires db.Ready() && q == Start(db.kind, links.level.Keys, db.items) && NotNegative(links.level)
    modifies links
    ensures result == ResultOf(AccountOf(q, p, ids))
    ensures Run(q, p, ids, trail) && trail[0] == old(links.level) && trail[|ids|] == links.level
  {
    result, trail := Result(0, []), [links.level];
    for k := 0 to |ids|
      invariant result == ResultOf(AccountOf(q, p, ids[..k])) && Holds(q, AccountOf(q, p, ids[..k]), links.level)
      invariant Run(q, p, ids[..k], trail) && trail[0] == old(links.level) && trail[k] == links.level
    {
      result := LinkNext(links, db, ids[k], result, p, q, AccountOf(q, p, ids[..k]));
      RunNext(q, p, ids, trail, k, links.level);
      AccountStep(q, p, ids, k);
      trail := trail + [links.level];
    }
    assert ids[..|ids|] == ids;
  }

  /** What a request with a position makes of the links: those that were there are kept in their
      order, the new ones join them, and where the new ones stand in every order the database may
      return. */
  ghost predicate LinkedAt(q: Start, level: Levels, p: nat, ids: seq<ItemId>, after: Levels) {
    && KeepsOrder(level, after) && Joined(level, after, NewLinks(q, ids))
    && (q.kind.RolesOfUser? ==>
          var a := AccountOf(q, p, ids);
          AlwaysAt(after, Lower(level, a.first), a.block) <==> a.block == [] || Clear(level, a.first, a.jump))
    && (q.kind.RolesOfUser? && Relinks(q, ids) == 0 ==> AlwaysAt(after, Lower(level, p), NewLinks(q, ids)))
    && (q.kind.PoliciesOfRole? && Relinks(q, ids) == 0 ==>
          (AlwaysAt(after, Lower(level, p), NewLinks(q, ids)) <==> PolicyBlock(level, p, |NewLinks(q, ids)|)))
    && (forall s, t | Compact(s, level) && Listed(t, after) :: t == Placed(q, s, p, ids))
  }

  lemma RunLinks(q: Start, p: nat, ids: seq<ItemId>, trail: seq<Levels>)
    requires Run(q, p, ids, trail) && NotNegative(trail[0])
    ensures NotNegative(trail[|ids|]) && LinkedAt(q, trail[0], p, ids, trail[|ids|])
  {
    assert ids[..|ids|] == ids;
    AccountParts(q, p, ids);
    RunKeeps(q, p, ids, trail, |ids|);
    if q.kind.RolesOfUser? {
      RelinkSplitsExactly(q, p, ids, trail);
      if Relinks(q, ids) == 0 {
        NoRelinkTogether(q, p, ids, trail);
      }
    } else if Relinks(q, ids) == 0 {
      PolicyExactly(q, p, ids, trail);
    }
    forall s, t | Compact(s, trail[0]) && Listed(t, trail[|ids|]) ensures t == Placed(q, s, p, ids) {
      CompactRun(q, p, ids, trail, s, |ids|);
      OneOrder(Placed(q, s, p, ids), trail[|ids|], t);
    }
  }

  /** A request with a position. The count is that of the links made if and only if no requested item
      was linked already. */
  method LinkAt(links: Links, db: Db, ids: seq<ItemId>, p: nat) returns (result: Result)
    requires NotNegative(links.level) && db.Ready()
    modifies links
    ensures NotNegative(links.level)
    ensures var q := Start(db.kind, old(links.level).Keys, db.items);
            && result == Result(|NewLinks(q, ids)| + Relinks(q, ids), Failures(q, ids, false))
            && result.total + |result.failed| == |ids| && Reported(q, ids, false, result.failed)
            && (result.total == |links.level| - |old(links.level)| <==> Relinks(q, ids) == 0)
            && LinkedAt(q, old(links.level), p, ids, links.level)
  {
    ghost var q := Start(db.kind, links.level.Keys, db.items);
    ghost var trail;
    result, trail := LinkAll(links, db, ids, p, q);
    RunLinks(q, p, ids, trail);
    AccountParts(q, p, ids);
    AllAccounted(q, ids);
    FailuresExactly(q, ids, false);
    JoinedSize(old(links.level), links.level, NewLinks(q, ids));
  }

  // ---------------------------------------------------------------- the loop without a position

  lemma {:induction false} AppendedNext(q: Start, level: Levels, block: seq<ItemId>, item: ItemId)
    requires q.keys == level.Keys && Fresh(level, block)
    ensures var longer := NextBlock(q, block, item);
            && Fresh(level, longer)
            && (item in Appended(level, block) <==> item in q.keys || item in block)
            && Appended(level, longer)
               == if q.New(block, item) then Appended(level, block)[item := |Appended(level, block)|]
                  else Appended(level, block)
  {
    AppendedKeys(level, block);
    AppendedOne(level, block, item);
  }

  /** One round of the handler's loop without a position. */
  method LinkLastNext(links: Links, db: Db, item: ItemId, sofar: Result, ghost q: Start, ghost level: Levels,
                      ghost block: seq<ItemId>)
    returns (result: Result)
    requires db.Ready() && q == Start(db.kind, level.Keys, db.items)
    requires Fresh(level, block) && links.level == Appended(level, block) && sofar.total == |block|
    modifies links
    ensures Fresh(level, NextBlock(q, block, item)) && links.level == Appended(level, NextBlock(q, block, item))
    ensures result == Result(|NextBlock(q, block, item)|, sofar.failed + Failure(q, block, item, true))
  {
    AppendedNext(q, level, block, item);
    var answer := links.AddItemLast(db, item);
    match answer
    case Linked => result := sofar.(total := sofar.total + 1);
    case AlreadyExist => result := sofar.(failed := sofar.failed + [(item, RelationExists(db.kind))]);
    case _ => result := sofar.(failed := sofar.failed + [(item, ItemUnknown(db.kind))]);
  }

  /** The handler's loop without a position: the new links get the next levels, and a linked item is
      reported as such. */
  method LinkLast(links: Links, db: Db, ids: seq<ItemId>) returns (result: Result)
    requires db.Ready()
    modifies links
    ensures var q := Start(db.kind, old(links.level).Keys, db.items);
            && Fresh(old(links.level), NewLinks(q, ids))
            && links.level == Appended(old(links.level), NewLinks(q, ids))
            && result == Result(|NewLinks(q, ids)|, Failures(q, ids, true))
            && result.total + |result.failed| == |ids| && Reported(q, ids, true, result.failed)
  {
    ghost var q, level := Start(db.kind, links.level.Keys, db.items), links.level;
    ghost var block: seq<ItemId> := [];
    result := Result(0, []);
    for k := 0 to |ids|
      invariant block == NewLinks(q, ids[..k]) && result == Result(|block|, Failures(q, ids[..k], true))
      invariant Fresh(level, block) && links.level == Appended(level, block)
    {
      result := LinkLastNext(links, db, ids[k], result, q, level, block);
      assert ids[..k + 1][..k] == ids[..k];
      block := NextBlock(q, block, ids[k]);
    }
    assert ids[..|ids|] == ids;
    AllAccounted(q, ids);
    FailuresExactly(q, ids, true);
  }

  // ---------------------------------------------------------------- the handlers

  datatype Outcome = Rejected(code: int) | Done(result: Result)

  /** A request that makes no link at all: a reserved holder is refused once for each item, and so is a
      missing role, but a missing user once and for all. */
  function Refusals(db: Db, holder: int, ids: seq<ItemId>): seq<(int, int)> {
    if ids == [] then []
    else if db.reserved then Refusals(db, holder, ids[..|ids| - 1]) + [(holder, HOLDER_RESERVED)]
    else if db.kind.PoliciesOfRole? then Refusals(db, holder, ids[..|ids| - 1]) + [(holder, HolderUnknown(db.kind))]
    else [(holder, HolderUnknown(db.kind))]
  }

  /** For a reserved holder, and for a missing role, the same error once for each item; for a missing
      user once, unless nothing is requested. */
  predicate Refused(db: Db, holder: int, ids: seq<ItemId>, failed: seq<(int, int)>) {
    && |failed| == (if db.reserved || db.kind.PoliciesOfRole? then |ids| else Least(1, |ids|))
    && forall i | 0 <= i < |failed| ::
         failed[i] == (holder, if db.reserved then 4008 else if db.kind.PoliciesOfRole? then 4002 else 5001)
  }

  lemma {:induction false} RefusalsExactly(db: Db, holder: int, ids: seq<ItemId>)
    requires !db.Ready()
    ensures Refused(db, holder, ids, Refusals(db, holder, ids))
  {
    if ids != [] {
      RefusalsExactly(db, holder, ids[..|ids| - 1]);
    }
  }

  /** The handler's loop for a holder that is reserved or missing. */
  method Refuse(db: Db, holder: int, ids: seq<ItemId>) returns (result: Result)
    requires !db.Ready()
    ensures result == Result(0, Refusals(db, holder, ids)) && Refused(db, holder, ids, result.failed)
  {
    RefusalsExactly(db, holder, ids);
    result := Result(0, []);
    for k := 0 to |ids|
      invariant k > 0 ==> db.reserved || db.kind.PoliciesOfRole?
      invariant result == Result(0, Refusals(db, holder, ids[..k]))
    {
      assert ids[..k + 1][..k] == ids[..k];
      if db.Answer(ids[k], Linked) == HolderNotExist {
        result := result.(failed := result.failed + [(holder, HolderUnknown(db.kind))]);
        if db.kind.RolesOfUser? {
          break;
        }
      } else {
        result := result.(failed := result.failed + [(holder, HOLDER_RESERVED)]);
      }
    }
    assert ids[..|ids|] == ids;
  }

  /** set_user_role and set_role_policy: which of the loops above takes effect, and that nothing
      changes when none does. Only the first refuses a negative position; for the second the API does. */
  method SetLinks(links: Links, db: Db, holder: int, ids: seq<ItemId>, position: Option<int>)
    returns (outcome: Outcome)
    requires NotNegative(links.level)
    requires db.kind.PoliciesOfRole? && position.Some? ==> position.value >= 0
    modifies links
    ensures NotNegative(links.level)
    ensures outcome.Rejected? <==> position.Some? && position.value < 0
    ensures outcome.Rejected? ==> outcome.code == 4018 && links.level == old(links.level)
    ensures outcome.Done? && !db.Ready() ==>
              && outcome.result.total == 0 && Refused(db, holder, ids, outcome.result.failed)
              && links.level == old(links.level)
    ensures outcome.Done? && db.Ready() ==> outcome.result.total + |outcome.result.failed| == |ids|
    ensures outcome.Done? && db.Ready() && position.None? ==>
              var q := Start(db.kind, old(links.level).Keys, db.items);
              && outcome.result.total == |NewLinks(q, ids)| && Reported(q, ids, true, outcome.result.failed)
              && links.level == Appended(old(links.level), NewLinks(q, ids))
              && (AlwaysAt(links.level, |old(links.level)|, NewLinks(q, ids))
                  <==> NewLinks(q, ids) == [] || Top(old(links.level)) < |old(links.level)|)
    ensures outcome.Done? && db.Ready() && position.Some? ==>
              var q := Start(db.kind, old(links.level).Keys, db.items);
              && outcome.result.total == |NewLinks(q, ids)| + Relinks(q, ids)
              && Reported(q, ids, false, outcome.result.failed)
              && (outcome.result.total == |links.level| - |old(links.level)| <==> Relinks(q, ids) == 0)
              && LinkedAt(q, old(links.level), position.value, ids, links.level)
  {
    if position.Some? && position.value < 0 {
      outcome := Rejected(BAD_POSITION);
    } else if !db.Ready() {
      var result := Refuse(db, holder, ids);
      outcome := Done(result);
    } else if position.Some? {
      var result := LinkAt(links, db, ids, position.value);
      outcome := Done(result);
    } else {
      ghost var level := links.level;
      var result := LinkLast(links, db, ids);
      ghost var block := NewLinks(Start(db.kind, level.Keys, db.items), ids);
      LastExactly(level, block);
      AppendedNotNegative(level, block);
      outcome := Done(result);
    }
  }
}
