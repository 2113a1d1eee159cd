/** The consistent hash ring that places chunks on nodes. */
module HashRing {
  import opened Basics
  import opened SortedSets

  type NodeId = nat
  type Position = nat

  // ---------------------------------------------------------------------------------------------
  // Sequences: first occurrences, and dropping one node

  /** First occurrences, in order. */
  function Dedup(s: seq<NodeId>): (r: seq<NodeId>)
    ensures forall x :: x in r <==> x in s
  {
    if s == [] then []
    else
      var n := |s| - 1;
      assert s == s[..n] + [s[n]];
      var d := Dedup(s[..n]);
      if s[n] in d then d else d + [s[n]]
  }

  function Erase(s: seq<NodeId>, x: NodeId): (r: seq<NodeId>)
    ensures forall y :: y in r <==> y in s && y != x
  {
    if s == [] then []
    else
      var n := |s| - 1;
      assert s == s[..n] + [s[n]];
      Erase(s[..n], x) + (if s[n] == x then [] else [s[n]])
  }

  lemma {:induction false} EraseAppend(a: seq<NodeId>, b: seq<NodeId>, x: NodeId)
    ensures Erase(a + b, x) == Erase(a, x) + Erase(b, x)
  {
    if b == [] {
      assert a + b == a;
    } else {
      var n := |b| - 1;
      EraseAppend(a, b[..n], x);
      assert (a + b)[..|a + b| - 1] == a + b[..n];
    }
  }

  lemma {:induction false} EraseAbsent(s: seq<NodeId>, x: NodeId)
    requires x !in s
    ensures Erase(s, x) == s
  {
    if s != [] {
      var n := |s| - 1;
      EraseAbsent(s[..n], x);
    }
  }

  lemma DedupSnoc(s: seq<NodeId>, y: NodeId)
    ensures Dedup(s + [y]) == if y in s then Dedup(s) else Dedup(s) + [y]
  {
    assert (s + [y])[..|s|] == s;
  }

  lemma EraseSnoc(s: seq<NodeId>, y: NodeId, x: NodeId)
    ensures Erase(s + [y], x) == if y == x then Erase(s, x) else Erase(s, x) + [y]
  {
    assert (s + [y])[..|s|] == s;
  }

  lemma DedupEraseEmpty(x: NodeId)
    ensures Dedup(Erase([], x)) == Erase(Dedup([]), x)
  {
  }

  lemma {:induction false} DedupErase(s: seq<NodeId>, x: NodeId)
    ensures Dedup(Erase(s, x)) == Erase(Dedup(s), x)
  {
    hide Dedup, Erase;
    if s == [] {
      DedupEraseEmpty(x);
    } else {
      var p, y := s[..|s| - 1], s[|s| - 1];
      DedupErase(p, x);
      assert s == p + [y];
      DedupSnoc(p, y);
      EraseSnoc(p, y, x);
      DedupSnoc(Erase(p, x), y);
      EraseSnoc(Dedup(p), y, x);
    }
  }

  lemma {:induction false} DedupDistinct(s: seq<NodeId>)
    ensures Distinct(Dedup(s))
  {
    if s != [] {
      DedupDistinct(s[..|s| - 1]);
    }
  }

  lemma {:induction false} DedupPrefix(s: seq<NodeId>, k: nat)
    requires k <= |s|
    ensures |Dedup(s[..k])| <= |Dedup(s)| && Dedup(s[..k]) == Dedup(s)[..|Dedup(s[..k])|]
    decreases |s|
  {
    if k == |s| {
      assert s[..k] == s;
    } else {
      var n := |s| - 1;
      DedupPrefix(s[..n], k);
      assert s[..n][..k] == s[..k];
    }
  }

  lemma {:induction false} DistinctCount(s: seq<NodeId>, m: set<NodeId>)
    requires Distinct(s) && forall x | x in s :: x in m
    ensures |s| <= |m|
    ensures (forall x | x in m :: x in s) ==> |s| == |m|
  {
    if s != [] {
      var n := |s| - 1;
      assert s[n] in m;
      DistinctCount(s[..n], m - {s[n]});
    } else if m != {} {
      var x :| x in m;
      assert x !in s;
    }
  }

  // ---------------------------------------------------------------------------------------------
  // Ordered iteration over the ring's keys

  function Owners(ring: map<Position, NodeId>, ks: seq<Position>): (r: seq<NodeId>)
    requires forall k | k in ks :: k in ring
    ensures |r| == |ks| && forall i | 0 <= i < |ks| :: r[i] == ring[ks[i]]
  {
    seq(|ks|, i requires 0 <= i < |ks| => ring[ks[i]])
  }

  function From(s: set<Position>, h: Position): set<Position> { set k | k in s && k >= h }

  /** Clockwise from h, then the whole ring once more. */
  function WalkKeys(ring: map<Position, NodeId>, h: Position): (r: seq<Position>)
    ensures forall k :: k in r <==> k in ring
  {
    Ascending(From(ring.Keys, h)) + Ascending(ring.Keys)
  }

  function Walk(ring: map<Position, NodeId>, h: Position): seq<NodeId> {
    Owners(ring, WalkKeys(ring, h))
  }

  /** Every node on the ring, in the order a chunk hashed to h prefers them. */
  function Preference(ring: map<Position, NodeId>, h: Position): seq<NodeId> {
    Dedup(Walk(ring, h))
  }

  // ---------------------------------------------------------------------------------------------
  // Removing one node's points from the ring

  function Without(ring: map<Position, NodeId>, x: NodeId): map<Position, NodeId> {
    map k | k in ring && ring[k] != x :: ring[k]
  }

  function Others(ring: map<Position, NodeId>, s: set<Position>, x: NodeId): (r: set<Position>)
    requires s <= ring.Keys
    ensures r <= Without(ring, x).Keys
  {
    set k | k in s && ring[k] != x
  }

  lemma OwnersFirst(ring: map<Position, NodeId>, s: set<Position>)
    requires s != {} && s <= ring.Keys
    ensures Owners(ring, Ascending(s)) == [ring[Least(s)]] + Owners(ring, Ascending(s - {Least(s)}))
  {
    assert Ascending(s) == [Least(s)] + Ascending(s - {Least(s)});
  }

  lemma {:induction false} OwnersAscendingWithout(ring: map<Position, NodeId>, s: set<Position>, x: NodeId)
    requires s <= ring.Keys
    ensures Owners(Without(ring, x), Ascending(Others(ring, s, x))) == Erase(Owners(ring, Ascending(s)), x)
  {
    hide Erase, Least;
    EraseAbsent([], x);
    var t := Others(ring, s, x);
    if s == {} {
      assert t == {};
    } else {
      var m := Least(s);
      var s1 := s - {m};
      var t1 := Others(ring, s1, x);
      OwnersAscendingWithout(ring, s1, x);
      OwnersFirst(ring, s);
      EraseAppend([ring[m]], Owners(ring, Ascending(s1)), x);
      EraseSnoc([], ring[m], x);
      assert [] + [ring[m]] == [ring[m]];
      if ring[m] == x {
        assert t == t1;
        EmptyLeft(Erase(Owners(ring, Ascending(s1)), x));
      } else {
        LeastIs(t, m);
        assert t - {m} == t1;
        OwnersFirst(Without(ring, x), t);
      }
    }
  }

  lemma WalkSplit(ring: map<Position, NodeId>, h: Position)
    ensures Walk(ring, h) == Owners(ring, Ascending(From(ring.Keys, h))) + Owners(ring, Ascending(ring.Keys))
  {
  }

  lemma WalkWithout(ring: map<Position, NodeId>, h: Position, x: NodeId)
    ensures Walk(Without(ring, x), h) == Erase(Walk(ring, h), x)
  {
    hide Ascending, Erase;
    var s, rest := From(ring.Keys, h), Without(ring, x);
    OwnersAscendingWithout(ring, s, x);
    OwnersAscendingWithout(ring, ring.Keys, x);
    assert Others(ring, s, x) == From(rest.Keys, h);
    assert Others(ring, ring.Keys, x) == rest.Keys;
    WalkSplit(ring, h);
    WalkSplit(rest, h);
    EraseAppend(Owners(ring, Ascending(s)), Owners(ring, Ascending(ring.Keys)), x);
  }

  /** Dropping a node disturbs every chunk's preference list only by erasing that node. */
  lemma PreferenceWithout(ring: map<Position, NodeId>, h: Position, x: NodeId)
    ensures Preference(Without(ring, x), h) == Erase(Preference(ring, h), x)
  {
    WalkWithout(ring, h, x);
    DedupErase(Walk(ring, h), x);
  }

  // ---------------------------------------------------------------------------------------------
  // Ring contents as a function of the member set

  type NodeHash = (NodeId, nat) -> Position

  /** Inserts the first v virtual points of a node, later inserts overwriting. */
  function AddPoints(ring: map<Position, NodeId>, hash: NodeHash, v: nat, id: NodeId): map<Position, NodeId> {
    if v == 0 then ring else AddPoints(ring, hash, v - 1, id)[hash(id, v - 1) := id]
  }

  function RemovePoints(ring: map<Position, NodeId>, hash: NodeHash, v: nat, id: NodeId): map<Position, NodeId> {
    if v == 0 then ring else RemovePoints(ring, hash, v - 1, id) - {hash(id, v - 1)}
  }

  function Positions(hash: NodeHash, v: nat, id: NodeId): set<Position> {
    if v == 0 then {} else Positions(hash, v - 1, id) + {hash(id, v - 1)}
  }

  lemma {:induction false} AddPointsIs(ring: map<Position, NodeId>, hash: NodeHash, v: nat, id: NodeId)
    ensures AddPoints(ring, hash, v, id) == ring + map p | p in Positions(hash, v, id) :: id
  {
    if v > 0 { AddPointsIs(ring, hash, v - 1, id); }
  }

  lemma {:induction false} RemovePointsIs(ring: map<Position, NodeId>, hash: NodeHash, v: nat, id: NodeId)
    ensures RemovePoints(ring, hash, v, id) == ring - Positions(hash, v, id)
  {
    if v > 0 { RemovePointsIs(ring, hash, v - 1, id); }
  }

  /** Among these nodes, no ring position is claimed by two. */
  ghost predicate NoShare(hash: NodeHash, v: nat, ids: set<NodeId>) {
    forall x, y, p | x in ids && y in ids && p in Positions(hash, v, x) && p in Positions(hash, v, y) :: x == y
  }

  /** Every point belongs to a member and is one of its own. */
  ghost predicate Owned(ring: map<Position, NodeId>, hash: NodeHash, v: nat, members: set<NodeId>) {
    forall p | p in ring :: ring[p] in members && p in Positions(hash, v, ring[p])
  }

  lemma AddKeepsOwned(ring: map<Position, NodeId>, hash: NodeHash, v: nat, members: set<NodeId>, id: NodeId)
    requires Owned(ring, hash, v, members)
    ensures Owned(AddPoints(ring, hash, v, id), hash, v, members + {id})
  {
    AddPointsIs(ring, hash, v, id);
  }

  lemma RemoveKeepsOwned(ring: map<Position, NodeId>, hash: NodeHash, v: nat, members: set<NodeId>, id: NodeId)
    requires Owned(ring, hash, v, members)
    ensures Owned(RemovePoints(ring, hash, v, id), hash, v, members - {id})
  {
    RemovePointsIs(ring, hash, v, id);
  }

  /** The ring holds exactly the members' virtual points. */
  ghost predicate IsRingOf(ring: map<Position, NodeId>, hash: NodeHash, v: nat, members: set<NodeId>) {
    && Owned(ring, hash, v, members)
    && (forall x, p | x in members && p in Positions(hash, v, x) :: p in ring && ring[p] == x)
  }

  lemma RingUnique(a: map<Position, NodeId>, b: map<Position, NodeId>, hash: NodeHash, v: nat, members: set<NodeId>)
    requires IsRingOf(a, hash, v, members) && IsRingOf(b, hash, v, members)
    ensures a == b
  {
    forall p ensures p in a <==> p in b {
      if p in a { assert p in Positions(hash, v, a[p]); }
      if p in b { assert p in Positions(hash, v, b[p]); }
    }
  }

  lemma AddKeepsRing(ring: map<Position, NodeId>, hash: NodeHash, v: nat, members: set<NodeId>, id: NodeId)
    requires NoShare(hash, v, members + {id}) && IsRingOf(ring, hash, v, members)
    ensures IsRingOf(AddPoints(ring, hash, v, id), hash, v, members + {id})
  {
    AddPointsIs(ring, hash, v, id);
  }

  lemma RemoveKeepsRing(ring: map<Position, NodeId>, hash: NodeHash, v: nat, members: set<NodeId>, id: NodeId)
    requires NoShare(hash, v, members + {id}) && IsRingOf(ring, hash, v, members)
    ensures IsRingOf(RemovePoints(ring, hash, v, id), hash, v, members - {id})
    ensures RemovePoints(ring, hash, v, id) == Without(ring, id)
  {
    OwnPoints(ring, hash, v, members, id);
    RemovePointsIs(ring, hash, v, id);
    hide RemovePoints, NoShare;
    assert ring - Positions(hash, v, id) == Without(ring, id);
  }

  lemma OwnPoints(ring: map<Position, NodeId>, hash: NodeHash, v: nat, members: set<NodeId>, id: NodeId)
    requires NoShare(hash, v, members + {id}) && IsRingOf(ring, hash, v, members)
    ensures forall p | p in ring :: p in Positions(hash, v, id) <==> ring[p] == id
  {
    hide Positions;
    forall p | p in ring ensures p in Positions(hash, v, id) <==> ring[p] == id {
      assert p in Positions(hash, v, ring[p]);
    }
  }

  datatype RingOp = Add(id: NodeId) | Remove(id: NodeId)

  function RunRing(ring: map<Position, NodeId>, hash: NodeHash, v: nat, ops: seq<RingOp>): map<Position, NodeId>
    decreases |ops|
  {
    if ops == [] then ring
    else match ops[0]
      case Add(id) => RunRing(AddPoints(ring, hash, v, id), hash, v, ops[1..])
      case Remove(id) => RunRing(RemovePoints(ring, hash, v, id), hash, v, ops[1..])
  }

  function RunMembers(members: set<NodeId>, ops: seq<RingOp>): set<NodeId>
    decreases |ops|
  {
    if ops == [] then members
    else match ops[0]
      case Add(id) => RunMembers(members + {id}, ops[1..])
      case Remove(id) => RunMembers(members - {id}, ops[1..])
  }

  /** The nodes a history adds or removes. */
  function Named(ops: seq<RingOp>): set<NodeId> { set i | 0 <= i < |ops| :: ops[i].id }

  lemma {:induction false} RunKeepsRing(ring: map<Position, NodeId>, hash: NodeHash, v: nat, members: set<NodeId>,
                                        ops: seq<RingOp>, ids: set<NodeId>)
    requires NoShare(hash, v, ids) && members <= ids && Named(ops) <= ids && IsRingOf(ring, hash, v, members)
    ensures IsRingOf(RunRing(ring, hash, v, ops), hash, v, RunMembers(members, ops))
    decreases |ops|
  {
    if ops != [] {
      NamedCons(ops);
      match ops[0]
      case Add(id) =>
        AddKeepsRing(ring, hash, v, members, id);
        RunKeepsRing(AddPoints(ring, hash, v, id), hash, v, members + {id}, ops[1..], ids);
      case Remove(id) =>
        RemoveKeepsRing(ring, hash, v, members, id);
        RunKeepsRing(RemovePoints(ring, hash, v, id), hash, v, members - {id}, ops[1..], ids);
    }
  }

  lemma NamedCons(ops: seq<RingOp>)
    requires ops != []
    ensures ops[0].id in Named(ops) && Named(ops[1..]) <= Named(ops)
  {
    forall id | id in Named(ops[1..]) ensures id in Named(ops) {
      var i :| 0 <= i < |ops[1..]| && ops[1..][i].id == id;
      assert ops[i + 1].id == id;
    }
  }

  /** Two histories that end with the same members end with the same ring, if no two of their nodes collide. */
  lemma RingForgetsHistory(hash: NodeHash, v: nat, first: seq<RingOp>, second: seq<RingOp>)
    requires NoShare(hash, v, Named(first) + Named(second)) && RunMembers({}, first) == RunMembers({}, second)
    ensures RunRing(map[], hash, v, first) == RunRing(map[], hash, v, second)
  {
    RunKeepsRing(map[], hash, v, {}, first, Named(first) + Named(second));
    RunKeepsRing(map[], hash, v, {}, second, Named(first) + Named(second));
    RingUnique(RunRing(map[], hash, v, first), RunRing(map[], hash, v, second), hash, v, RunMembers({}, first));
  }

  /** Adding two nodes in either order gives the same ring exactly when they share no position. */
  lemma AddOrderMattersOnlyOnCollision(hash: NodeHash, v: nat, x: NodeId, y: NodeId)
    requires x != y
    ensures RunRing(map[], hash, v, [Add(x), Add(y)]) == RunRing(map[], hash, v, [Add(y), Add(x)])
      <==> Positions(hash, v, x) !! Positions(hash, v, y)
  {
    var xy := AddPoints(AddPoints(map[], hash, v, x), hash, v, y);
    var yx := AddPoints(AddPoints(map[], hash, v, y), hash, v, x);
    RunTwo(hash, v, x, y);
    RunTwo(hash, v, y, x);
    AddPointsIs(map[], hash, v, x);
    AddPointsIs(map[], hash, v, y);
    AddPointsIs(AddPoints(map[], hash, v, x), hash, v, y);
    AddPointsIs(AddPoints(map[], hash, v, y), hash, v, x);
    if p :| p in Positions(hash, v, x) && p in Positions(hash, v, y) {
      assert xy[p] == y && yx[p] == x;
    }
  }

  lemma RunTwo(hash: NodeHash, v: nat, x: NodeId, y: NodeId)
    ensures RunRing(map[], hash, v, [Add(x), Add(y)]) == AddPoints(AddPoints(map[], hash, v, x), hash, v, y)
  {
    var ops, one := [Add(x), Add(y)], AddPoints(map[], hash, v, x);
    assert ops[1..] == [Add(y)];
    assert RunRing(one, hash, v, [Add(y)]) == AddPoints(one, hash, v, y);
  }

  // ---------------------------------------------------------------------------------------------
  // Replica choice

  /** The replicas a chunk gets: asking for none still yields one. */
  function Replicas(ring: map<Position, NodeId>, h: Position, n: nat): (r: seq<NodeId>) {
    var p := Preference(ring, h);
    var want := if n == 0 then 1 else n;
    if want <= |p| then p[..want] else p
  }

  lemma EraseBeyond(p: seq<NodeId>, x: NodeId, n: nat)
    requires n <= |p| && x !in p[..n]
    ensures |Erase(p, x)| >= n && Erase(p, x)[..n] == p[..n]
  {
    hide Erase;
    assert p == p[..n] + p[n..];
    EraseAppend(p[..n], p[n..], x);
    EraseAbsent(p[..n], x);
  }

  lemma EraseWithin(p: seq<NodeId>, x: NodeId, n: nat)
    requires Distinct(p) && n < |p| && x in p[..n]
    ensures |Erase(p, x)| >= n && Erase(p, x)[..n] == Erase(p[..n], x) + [p[n]]
  {
    hide Erase;
    var i :| 0 <= i < n && p[i] == x;
    assert p[..n][i] == x;
    EraseOne(p[..n], i);
    EraseOne(p, i);
  }

  lemma EraseOne(s: seq<NodeId>, i: nat)
    requires Distinct(s) && i < |s|
    ensures Erase(s, s[i]) == s[..i] + s[i + 1..]
  {
    var x := s[i];
    assert x !in s[..i] && x !in s[i + 1..];
    hide Erase, Distinct;
    OneApart(s, i);
    EraseAppend(s[..i] + [x], s[i + 1..], x);
    EraseSnoc(s[..i], x, x);
    EraseAbsent(s[..i], x);
    EraseAbsent(s[i + 1..], x);
  }

  /** Losing a node moves only the chunks it held, and each of those gains just the next node in line. */
  lemma ReplicasAfterRemoval(ring: map<Position, NodeId>, h: Position, n: nat, x: NodeId)
    requires n > 0
    ensures var before, after := Replicas(ring, h, n), Replicas(Without(ring, x), h, n);
      && (x !in before ==> after == before)
      && (x in before && n >= |Preference(ring, h)| ==> after == Erase(before, x))
      && (x in before && n < |Preference(ring, h)| ==> after == Erase(before, x) + [Preference(ring, h)[n]])
  {
    hide Preference, Erase;
    PreferenceWithout(ring, h, x);
    PreferenceDistinct(ring, h);
    var p := Preference(ring, h);
    if n < |p| {
      if x in p[..n] { EraseWithin(p, x, n); } else { EraseBeyond(p, x, n); }
    } else if x in p {
      var i :| 0 <= i < |p| && p[i] == x;
      EraseOne(p, i);
      assert p[..|p|] == p;
    } else {
      EraseAbsent(p, x);
    }
  }

  lemma PreferenceDistinct(ring: map<Position, NodeId>, h: Position)
    ensures Distinct(Preference(ring, h))
  {
    DedupDistinct(Walk(ring, h));
  }

  lemma WalkVisits(ring: map<Position, NodeId>, h: Position, k: Position)
    requires k in ring
    ensures ring[k] in Walk(ring, h)
  {
    var ks := WalkKeys(ring, h);
    var i :| 0 <= i < |ks| && ks[i] == k;
    assert Walk(ring, h)[i] == ring[k];
  }

  /** With at least one virtual point each, the preference list is a permutation of the members. */
  lemma PreferenceIsMembers(ring: map<Position, NodeId>, hash: NodeHash, v: nat, members: set<NodeId>, h: Position)
    requires IsRingOf(ring, hash, v, members) && v > 0
    ensures forall x :: x in Preference(ring, h) <==> x in members
    ensures Distinct(Preference(ring, h)) && |Preference(ring, h)| == |members|
  {
    forall x | x in members ensures x in Walk(ring, h) {
      assert hash(x, v - 1) in Positions(hash, v, x);
      WalkVisits(ring, h, hash(x, v - 1));
    }
    PreferenceDistinct(ring, h);
    hide Dedup, WalkKeys, Positions;
    DistinctCount(Preference(ring, h), members);
  }

  // ---------------------------------------------------------------------------------------------
  // The preference list is the clockwise order of the nodes' nearest points

  /** Walking clockwise from h, p comes before q: positions from h on first, then those below it. */
  predicate Sooner(h: Position, p: Position, q: Position) { if p >= h then q < h || p < q else q < h && p < q }

  /** Some point of x comes before every point of y. */
  ghost predicate Nearer(ring: map<Position, NodeId>, h: Position, x: NodeId, y: NodeId) {
    exists p | p in ring && ring[p] == x :: forall q | q in ring && ring[q] == y :: Sooner(h, p, q)
  }

  /** In a list from h on followed by the whole list, a key still to come is passed later. */
  lemma LaterKey(a: seq<Position>, b: seq<Position>, h: Position, k: nat, q: Position)
    requires StrictlyAscending(a) && StrictlyAscending(b) && forall x :: x in a <==> x in b && x >= h
    requires k < |a| + |b| && q in b && forall j | 0 <= j <= k :: (a + b)[j] != q
    ensures Sooner(h, (a + b)[k], q)
  {
    if q >= h {
      assert q in a;
      var j :| 0 <= j < |a| && a[j] == q;
      assert (a + b)[j] == q;
      assert k < j && (a + b)[k] == a[k] && a[k] in a;
    } else {
      var j :| 0 <= j < |b| && b[j] == q;
      assert (a + b)[|a| + j] == q;
      assert k < |a| ==> (a + b)[k] == a[k] && a[k] in a;
    }
  }

  lemma {:induction false} DedupOrder(s: seq<NodeId>, i: nat, j: nat) returns (k: nat)
    requires i < j < |Dedup(s)|
    ensures k < |s| && s[k] == Dedup(s)[i] && Dedup(s)[j] !in s[..k + 1]
  {
    var n := |s| - 1;
    var d := Dedup(s[..n]);
    DedupDistinct(s);
    if j < |d| {
      k := DedupOrder(s[..n], i, j);
      assert s[..n][..k + 1] == s[..k + 1];
    } else {
      assert d[i] in s[..n];
      k :| 0 <= k < n && s[k] == d[i];
      assert forall x | x in s[..k + 1] :: x in s[..n];
    }
  }

  /** Every node of the list has a point nearer to the chunk, clockwise, than all points of the nodes after it. */
  lemma PreferenceIsClockwise(ring: map<Position, NodeId>, h: Position, i: nat, j: nat)
    requires i < j < |Preference(ring, h)|
    ensures Nearer(ring, h, Preference(ring, h)[i], Preference(ring, h)[j])
  {
    var k := DedupOrder(Walk(ring, h), i, j);
    hide Walk, Preference, Dedup;
    assert Walk(ring, h)[k] == Preference(ring, h)[i] by { PreferenceIs(ring, h); }
    assert Preference(ring, h)[j] !in Walk(ring, h)[..k + 1] by { PreferenceIs(ring, h); }
    FirstSeenIsNearer(ring, h, k, Preference(ring, h)[j]);
  }

  lemma PreferenceIs(ring: map<Position, NodeId>, h: Position)
    ensures Preference(ring, h) == Dedup(Walk(ring, h))
  {
  }

  /** The owner met at step k is nearer than a node not met by then. */
  lemma FirstSeenIsNearer(ring: map<Position, NodeId>, h: Position, k: nat, y: NodeId)
    requires k < |Walk(ring, h)| && y !in Walk(ring, h)[..k + 1]
    ensures Nearer(ring, h, Walk(ring, h)[k], y)
  {
    var ks := WalkKeys(ring, h);
    AscendingIsStrict(From(ring.Keys, h));
    AscendingIsStrict(ring.Keys);
    hide Ascending;
    forall q | q in ring && ring[q] == y ensures Sooner(h, ks[k], q) {
      forall m | 0 <= m <= k ensures ks[m] != q { assert Walk(ring, h)[..k + 1][m] == ring[ks[m]]; }
      LaterKey(Ascending(From(ring.Keys, h)), Ascending(ring.Keys), h, k, q);
    }
    assert ring[ks[k]] == Walk(ring, h)[k];
  }

  /** A chunk gets the number of nodes asked for, or all there are, and each is nearer than every node passed over. */
  lemma ReplicasAreNearest(ring: map<Position, NodeId>, h: Position, n: nat, x: NodeId, p: Position)
    requires x in Replicas(ring, h, n) && p in ring && ring[p] !in Replicas(ring, h, n)
    ensures |Replicas(ring, h, n)| == Max(n, 1) && Nearer(ring, h, x, ring[p])
  {
    var all, r := Preference(ring, h), Replicas(ring, h, n);
    WalkVisits(ring, h, p);
    hide Preference;
    var i :| 0 <= i < |r| && r[i] == x;
    assert ring[p] in all;
    var j :| 0 <= j < |all| && all[j] == ring[p];
    PreferenceIsClockwise(ring, h, i, j);
  }

  // ---------------------------------------------------------------------------------------------
  // The ring object

  function Members(s: seq<NodeId>): set<NodeId> { set x | x in s }

  class Ring {
    var ring: map<Position, NodeId>
    var nodes: seq<NodeId>
    const virtualNodes: nat
    const hash: NodeHash

    /** Every point belongs to a listed node and is one of its own. */
    ghost predicate Valid()
      reads this
    {
      Distinct(nodes) && Owned(ring, hash, virtualNodes, Members(nodes))
    }

    /** The ring holds every listed node's points, and nothing else. */
    ghost predicate Exact()
      reads this
    {
      IsRingOf(ring, hash, virtualNodes, Members(nodes))
    }

    constructor (virtualNodes: nat, hash: NodeHash)
      ensures Valid() && Exact() && nodes == [] && ring == map[]
      ensures this.virtualNodes == virtualNodes && this.hash == hash
    {
      this.virtualNodes := virtualNodes;
      this.hash := hash;
      ring := map[];
      nodes := [];
    }

    method AddNode(id: NodeId)
      requires Valid()
      modifies this
      ensures Valid() && Members(nodes) == Members(old(nodes)) + {id}
      ensures nodes == if id in old(nodes) then old(nodes) else old(nodes) + [id]
      ensures ring == AddPoints(old(ring), hash, virtualNodes, id)
      ensures old(Exact()) && NoShare(hash, virtualNodes, Members(nodes)) ==> Exact()
    {
      ghost var members := Members(nodes);
      hide NoShare, IsRingOf, Positions, Owned;
      AddKeepsOwned(ring, hash, virtualNodes, members, id);
      if Exact() && NoShare(hash, virtualNodes, members + {id}) {
        AddKeepsRing(ring, hash, virtualNodes, members, id);
      }
      if id !in nodes {
        nodes := nodes + [id];
      }
      assert Members(nodes) == members + {id};
      InsertPoints(id);
    }

    method RemoveNode(id: NodeId)
      requires Valid()
      modifies this
      ensures Valid() && Members(nodes) == Members(old(nodes)) - {id}
      ensures nodes == Erase(old(nodes), id)
      ensures ring == RemovePoints(old(ring), hash, virtualNodes, id)
      ensures old(Exact()) && NoShare(hash, virtualNodes, Members(old(nodes)) + {id}) ==>
                Exact() && ring == Without(old(ring), id)
    {
      ghost var members := Members(nodes);
      hide NoShare, IsRingOf, Distinct, Erase, Positions, Without, Owned;
      RemoveKeepsOwned(ring, hash, virtualNodes, members, id);
      if Exact() && NoShare(hash, virtualNodes, members + {id}) {
        RemoveKeepsRing(ring, hash, virtualNodes, members, id);
      }
      EraseDistinct(nodes, id);
      nodes := Erase(nodes, id);
      assert Members(nodes) == members - {id};
      DropPoints(id);
    }

    method InsertPoints(id: NodeId)
      modifies this`ring
      ensures ring == AddPoints(old(ring), hash, virtualNodes, id)
    {
      var i := 0;
      while i < virtualNodes
        invariant 0 <= i <= virtualNodes
        invariant ring == AddPoints(old(ring), hash, i, id)
      {
        ring := ring[hash(id, i) := id];
        i := i + 1;
      }
    }

    method DropPoints(id: NodeId)
      modifies this`ring
      ensures ring == RemovePoints(old(ring), hash, virtualNodes, id)
    {
      var i := 0;
      while i < virtualNodes
        invariant 0 <= i <= virtualNodes
        invariant ring == RemovePoints(old(ring), hash, i, id)
      {
        ring := ring - {hash(id, i)};
        i := i + 1;
      }
    }

    /** Walks the ring from the chunk's position, stopping at n distinct nodes or when all are seen. */
    method GetNodes(h: Position, n: nat) returns (result: seq<NodeId>)
      requires Valid()
      ensures result == Replicas(ring, h, n)
    {
      hide Replicas, Walk, Owned, Distinct, Dedup;
      if ring == map[] {
        EmptyRing(h);
        return [];
      }
      result := [];
      var walk, i := Walk(ring, h), 0;
      PreferenceBound(ring, hash, virtualNodes, nodes, h);
      DedupNone(walk);
      while i < |walk|
        invariant 0 <= i <= |walk|
        invariant result == Dedup(walk[..i])
        invariant |result| < |nodes| && (|result| < n || result == [])
      {
        assert walk[..i + 1] == walk[..i] + [walk[i]];
        DedupSnoc(walk[..i], walk[i]);
        StopsAtReplicas(ring, h, n, i + 1);
        if walk[i] !in result {
          result := result + [walk[i]];
          if |result| >= n {
            return;
          }
        }
        if |result| >= |nodes| {
          return;
        }
        i := i + 1;
      }
      StopsAtReplicas(ring, h, n, i);
      assert walk[..i] == walk;
    }
  }

  /** A walk cut short at k has the answer once it has enough nodes, or all of them. */
  lemma StopsAtReplicas(ring: map<Position, NodeId>, h: Position, n: nat, k: nat)
    requires k <= |Walk(ring, h)|
    ensures var r, want := Dedup(Walk(ring, h)[..k]), if n == 0 then 1 else n;
      |r| == want || (|r| <= want && |r| >= |Preference(ring, h)|) ==> r == Replicas(ring, h, n)
  {
    hide Dedup;
    DedupPrefix(Walk(ring, h), k);
    var p := Preference(ring, h);
    assert p[..|p|] == p;
  }

  lemma {:induction false} EraseDistinct(s: seq<NodeId>, x: NodeId)
    requires Distinct(s)
    ensures Distinct(Erase(s, x))
  {
    if i :| 0 <= i < |s| && s[i] == x {
      EraseOne(s, i);
    } else {
      EraseAbsent(s, x);
    }
  }

  lemma DedupNone(s: seq<NodeId>)
    ensures Dedup(s[..0]) == []
  {
  }

  lemma EmptyRing(h: Position)
    ensures forall n :: Replicas(map[], h, n) == []
  {
    var r: map<Position, NodeId> := map[];
    assert forall k :: k !in WalkKeys(r, h);
    assert Walk(r, h) == [];
  }

  lemma PreferenceBound(ring: map<Position, NodeId>, hash: NodeHash, v: nat, nodes: seq<NodeId>, h: Position)
    requires Distinct(nodes) && Owned(ring, hash, v, Members(nodes)) && ring != map[]
    ensures |Preference(ring, h)| <= |nodes| && nodes != []
  {
    var k :| k in ring;
    assert ring[k] in Members(nodes);
    PreferenceDistinct(ring, h);
    DistinctCount(nodes, Members(nodes));
    DistinctCount(Preference(ring, h), Members(nodes));
  }
}
