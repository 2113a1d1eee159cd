/** Capacity-aware choice of the nodes a chunk is placed on. */
module Placement {
  import opened Basics
  import opened Membership

  const MIN_FREE_BYTES: nat := 20 * 1024 * 1024 * 1024

  datatype Capacity = Capacity(available: nat, total: nat, lastUpdated: nat)

  /** Everything the choice looks at; `key` is the sampling key, any number per node. */
  datatype Snapshot = Snapshot(
    ring: seq<NodeId>,
    nodes: map<NodeId, NodeInfo>,
    capacities: map<NodeId, Capacity>,
    now: nat,
    seed: nat,
    key: NodeId -> real)

  datatype Choice = Placed(nodes: seq<NodeId>) | Panicked

  // ---------------------------------------------------------------------------------------------
  // Filtering, stable sorting and rotating

  function Filter(s: seq<NodeId>, keep: NodeId -> bool): (r: seq<NodeId>)
    ensures forall x :: x in r <==> x in s && keep(x)
    ensures |r| <= |s|
  {
    if s == [] then []
    else
      var n := |s| - 1;
      assert s == s[..n] + [s[n]];
      Filter(s[..n], keep) + (if keep(s[n]) then [s[n]] else [])
  }

  lemma {:induction false} FilterDistinct(s: seq<NodeId>, keep: NodeId -> bool)
    requires Distinct(s)
    ensures Distinct(Filter(s, keep))
  {
    if s != [] {
      FilterDistinct(s[..|s| - 1], keep);
    }
  }

  lemma {:induction false} FilterSplits(s: seq<NodeId>, keep: NodeId -> bool, drop: NodeId -> bool)
    requires forall x :: keep(x) <==> !drop(x)
    ensures |Filter(s, keep)| + |Filter(s, drop)| == |s|
  {
    if s != [] {
      FilterSplits(s[..|s| - 1], keep, drop);
    }
  }

  ghost predicate SortedBy(s: seq<NodeId>, key: NodeId -> real) {
    forall i, j | 0 <= i < j < |s| :: key(s[i]) >= key(s[j])
  }

  /** Behind everything with at least its key, so equal keys keep their order. */
  function InsertByKey(s: seq<NodeId>, x: NodeId, key: NodeId -> real): (r: seq<NodeId>)
    ensures |r| == |s| + 1 && forall y :: y in r <==> y in s || y == x
  {
    if s == [] || key(s[|s| - 1]) >= key(x) then s + [x]
    else
      var n := |s| - 1;
      assert s == s[..n] + [s[n]];
      InsertByKey(s[..n], x, key) + [s[n]]
  }

  function SortByKey(s: seq<NodeId>, key: NodeId -> real): (r: seq<NodeId>)
    ensures |r| == |s| && forall y :: y in r <==> y in s
  {
    if s == [] then []
    else
      var n := |s| - 1;
      assert s == s[..n] + [s[n]];
      InsertByKey(SortByKey(s[..n], key), s[n], key)
  }

  lemma {:induction false} InsertByKeyFacts(s: seq<NodeId>, x: NodeId, key: NodeId -> real)
    requires SortedBy(s, key) && Distinct(s) && x !in s
    ensures SortedBy(InsertByKey(s, x, key), key) && Distinct(InsertByKey(s, x, key))
  {
    if s != [] && key(s[|s| - 1]) < key(x) {
      var n := |s| - 1;
      InsertByKeyFacts(s[..n], x, key);
      var r := InsertByKey(s[..n], x, key);
      forall i | 0 <= i < |r| ensures key(r[i]) >= key(s[n]) && r[i] != s[n] {
        assert r[i] in s[..n] || r[i] == x;
      }
      assert InsertByKey(s, x, key) == r + [s[n]];
      SnocFacts(r, s[n], key);
    } else {
      assert InsertByKey(s, x, key) == s + [x];
      SnocFacts(s, x, key);
    }
  }

  lemma SnocFacts(s: seq<NodeId>, x: NodeId, key: NodeId -> real)
    requires SortedBy(s, key) && Distinct(s) && forall i | 0 <= i < |s| :: key(s[i]) >= key(x) && s[i] != x
    ensures SortedBy(s + [x], key) && Distinct(s + [x])
  {
  }

  /** x stands before y. */
  ghost predicate Before(s: seq<NodeId>, x: NodeId, y: NodeId) {
    exists i, j :: 0 <= i < j < |s| && s[i] == x && s[j] == y
  }

  lemma BeforeSnoc(s: seq<NodeId>, z: NodeId, x: NodeId, y: NodeId)
    requires Before(s, x, y) || (x in s && y == z)
    ensures Before(s + [z], x, y)
  {
    if Before(s, x, y) {
      var i, j :| 0 <= i < j < |s| && s[i] == x && s[j] == y;
      assert (s + [z])[i] == x && (s + [z])[j] == y;
    } else {
      var i :| 0 <= i < |s| && s[i] == x;
      assert (s + [z])[i] == x && (s + [z])[|s|] == y;
    }
  }

  lemma BeforeFront(s: seq<NodeId>, x: NodeId, y: NodeId)
    requires s != [] && Before(s, x, y) && y != s[|s| - 1]
    ensures Before(s[..|s| - 1], x, y)
  {
    var i, j :| 0 <= i < j < |s| && s[i] == x && s[j] == y;
    var f := s[..|s| - 1];
    assert f[i] == x && f[j] == y;
  }

  lemma {:induction false} InsertKeepsOrder(s: seq<NodeId>, z: NodeId, key: NodeId -> real, x: NodeId, y: NodeId)
    requires SortedBy(s, key) && Distinct(s)
    requires Before(s, x, y) || (x in s && y == z && key(x) >= key(z))
    ensures Before(InsertByKey(s, z, key), x, y)
  {
    if s == [] || key(s[|s| - 1]) >= key(z) {
      BeforeSnoc(s, z, x, y);
    } else {
      var n := |s| - 1;
      if x != s[n] && y != s[n] {
        if Before(s, x, y) { BeforeFront(s, x, y); }
        InsertKeepsOrder(s[..n], z, key, x, y);
      } else {
        assert x in s[..n];
      }
      BeforeSnoc(InsertByKey(s[..n], z, key), s[n], x, y);
    }
  }

  /** Sorting is stable: a node stays before another whose key is not higher. */
  lemma {:induction false} SortIsStable(s: seq<NodeId>, key: NodeId -> real, x: NodeId, y: NodeId)
    requires Distinct(s) && Before(s, x, y) && key(x) >= key(y)
    ensures Before(SortByKey(s, key), x, y)
  {
    var n := |s| - 1;
    SortByKeyFacts(s[..n], key);
    if y == s[n] {
      assert x in s[..n];
    } else {
      BeforeFront(s, x, y);
      SortIsStable(s[..n], key, x, y);
    }
    InsertKeepsOrder(SortByKey(s[..n], key), s[n], key, x, y);
  }

  lemma {:induction false} SortByKeyFacts(s: seq<NodeId>, key: NodeId -> real)
    requires Distinct(s)
    ensures SortedBy(SortByKey(s, key), key) && Distinct(SortByKey(s, key))
  {
    if s != [] {
      var n := |s| - 1;
      SortByKeyFacts(s[..n], key);
      assert s[n] !in s[..n];
      InsertByKeyFacts(SortByKey(s[..n], key), s[n], key);
    }
  }

  function Rotate(s: seq<NodeId>, seed: nat): (r: seq<NodeId>)
    requires s != []
    ensures |r| == |s| && forall y :: y in r <==> y in s
  {
    var k := seed % |s|;
    assert s == s[..k] + s[k..];
    s[k..] + s[..k]
  }

  lemma RotateDistinct(s: seq<NodeId>, seed: nat)
    requires s != [] && Distinct(s)
    ensures Distinct(Rotate(s, seed))
  {
    var k := seed % |s|;
    var r := Rotate(s, seed);
    forall i | 0 <= i < |s| ensures r[i] == s[if i < |s| - k then i + k else i + k - |s|] {}
  }

  // ---------------------------------------------------------------------------------------------
  // The choice

  /** Unregistered nodes are taken to be online. */
  predicate Usable(w: Snapshot, id: NodeId) { id in w.nodes ==> w.nodes[id].status.Online? }

  function Up(w: Snapshot): NodeId -> bool { (id: NodeId) => Usable(w, id) }
  function Down(w: Snapshot): NodeId -> bool { (id: NodeId) => !Usable(w, id) }

  function Online(w: Snapshot): seq<NodeId> { Filter(w.ring, Up(w)) }
  function Offline(w: Snapshot): seq<NodeId> { Filter(w.ring, Down(w)) }

  /** Online ring members; the others join them only if there are too few. */
  function Considered(w: Snapshot, count: nat): seq<NodeId> {
    if |Online(w)| < count then Online(w) + Offline(w) else Online(w)
  }

  /** Free and total bytes as believed: fresh figures, half of a stale total, or a default. */
  function Believed(w: Snapshot, id: NodeId): (nat, nat) {
    if id in w.capacities then
      var c := w.capacities[id];
      if c.total > 0 && SaturatingSub(w.now, c.lastUpdated) < 300 then (c.available, c.total)
      else (c.total / 2, c.total)
    else (1_000_000_000_000, 2_000_000_000_000)
  }

  predicate HasRoom(w: Snapshot, id: NodeId) {
    var (available, total) := Believed(w, id);
    total == 0 || available >= MIN_FREE_BYTES
  }

  function Roomy(w: Snapshot): NodeId -> bool { (id: NodeId) => HasRoom(w, id) }
  function FreeBytes(w: Snapshot): NodeId -> real { (id: NodeId) => Believed(w, id).0 as real }

  function Eligible(w: Snapshot, count: nat): seq<NodeId> { Filter(Considered(w, count), Roomy(w)) }

  /** Those with room; if too few, everyone considered, emptiest first. */
  function Candidates(w: Snapshot, count: nat): seq<NodeId> {
    if |Eligible(w, count)| >= count then Eligible(w, count)
    else SortByKey(Considered(w, count), FreeBytes(w))
  }

  function ChooseNodes(w: Snapshot, count: nat): Choice {
    var all := Considered(w, count);
    if |all| <= count then
      if all == [] then Panicked else Placed(Rotate(all, w.seed))
    else Placed(SortByKey(Candidates(w, count), w.key)[..count])
  }

  // ---------------------------------------------------------------------------------------------
  // What the choice guarantees

  lemma JoinDistinct(a: seq<NodeId>, b: seq<NodeId>)
    requires Distinct(a) && Distinct(b) && forall x | x in a :: x !in b
    ensures Distinct(a + b)
  {
    forall i, j | 0 <= i < |a| && 0 <= j < |b| ensures a[i] != b[j] { assert a[i] in a; }
  }

  lemma ConsideredFacts(w: Snapshot, count: nat)
    requires Distinct(w.ring)
    ensures Distinct(Considered(w, count)) && forall x | x in Considered(w, count) :: x in w.ring
    ensures |Online(w)| < count ==> |Considered(w, count)| == |w.ring|
    ensures |Considered(w, count)| <= |w.ring|
  {
    FilterDistinct(w.ring, Up(w));
    FilterDistinct(w.ring, Down(w));
    FilterSplits(w.ring, Up(w), Down(w));
    JoinDistinct(Online(w), Offline(w));
  }

  lemma CandidatesFacts(w: Snapshot, count: nat)
    requires Distinct(w.ring) && |Considered(w, count)| > count
    ensures Distinct(Candidates(w, count)) && |Candidates(w, count)| >= count
    ensures forall x | x in Candidates(w, count) :: x in Considered(w, count)
  {
    ConsideredFacts(w, count);
    FilterDistinct(Considered(w, count), Roomy(w));
    SortByKeyFacts(Considered(w, count), FreeBytes(w));
  }

  /** The rotation divides by the number of nodes considered, so it aborts exactly when there are none. */
  lemma PanicsIff(w: Snapshot, count: nat)
    ensures ChooseNodes(w, count).Panicked? <==> w.ring == [] || (count == 0 && Online(w) == [])
  {
    FilterSplits(w.ring, Up(w), Down(w));
  }

  /** With no node on the ring every placement aborts. */
  lemma EmptyRingPanics(w: Snapshot, count: nat)
    requires w.ring == []
    ensures ChooseNodes(w, count) == Panicked
  {
    PanicsIff(w, count);
  }

  /** The right number of different ring members. */
  lemma ChoosesEnough(w: Snapshot, count: nat)
    requires Distinct(w.ring) && ChooseNodes(w, count).Placed?
    ensures var r := ChooseNodes(w, count).nodes;
      && |r| == (if count < |w.ring| then count else |w.ring|)
      && Distinct(r) && forall x | x in r :: x in w.ring
  {
    ConsideredFacts(w, count);
    var all := Considered(w, count);
    if |all| <= count {
      RotateDistinct(all, w.seed);
    } else {
      CandidatesFacts(w, count);
      SortByKeyFacts(Candidates(w, count), w.key);
      var sorted := SortByKey(Candidates(w, count), w.key);
      forall x | x in sorted[..count] ensures x in w.ring { assert x in sorted; }
    }
  }

  /** Whoever is chosen was a candidate, or everyone considered was needed. */
  lemma ChosenAmong(w: Snapshot, count: nat, x: NodeId)
    requires Distinct(w.ring) && ChooseNodes(w, count).Placed? && x in ChooseNodes(w, count).nodes
    ensures x in Considered(w, count)
    ensures |Considered(w, count)| > count ==> x in Candidates(w, count)
  {
    if |Considered(w, count)| > count {
      CandidatesFacts(w, count);
      assert x in SortByKey(Candidates(w, count), w.key);
    }
  }

  /** A node has room if nothing is known of it, if it is fresh with 20 GiB free, or stale with 40 GiB in all. */
  lemma RoomIff(w: Snapshot, id: NodeId)
    ensures HasRoom(w, id) <==>
              || id !in w.capacities || w.capacities[id].total == 0
              || (if w.now < w.capacities[id].lastUpdated + 300 then w.capacities[id].available >= MIN_FREE_BYTES
                  else w.capacities[id].total >= 2 * MIN_FREE_BYTES)
  {
  }

  /** Who counts as online, and who of those considered has room. */
  lemma WhoCounts(w: Snapshot, count: nat, id: NodeId)
    ensures id in Online(w) <==> id in w.ring && (id in w.nodes ==> w.nodes[id].status == Status.Online)
    ensures id in Considered(w, count) <==> id in w.ring && (|Online(w)| < count || id in Online(w))
    ensures id in Eligible(w, count) <==> id in Considered(w, count) && HasRoom(w, id)
  {
  }

  lemma RotateAt(s: seq<NodeId>, seed: nat, i: nat)
    requires i < |s|
    ensures Rotate(s, seed)[i] == s[(seed + i) % |s|]
  {
    var n, k := |s|, seed % |s|;
    var wrapped := if k + i < n then k + i else k + i - n;
    var q := seed / n;
    assert seed + i == n * (if k + i < n then q else q + 1) + wrapped;
    ModuloIs(seed + i, n, if k + i < n then q else q + 1, wrapped);
  }

  lemma ModuloIs(x: nat, n: nat, q: nat, r: nat)
    requires n > 0 && r < n && x == n * q + r
    ensures x % n == r
  {
    var d: int := q - x / n;
    assert n * d == x % n - r;
    assert d >= 1 ==> n * d >= n;
    assert d <= -1 ==> n * d + n <= 0;
  }

  /** With no more nodes than asked for, all considered are taken, and the seed decides who comes first. */
  lemma SeedDecidesOrder(w: Snapshot, count: nat, i: nat)
    requires i < |Considered(w, count)| <= count
    ensures ChooseNodes(w, count).Placed? && |ChooseNodes(w, count).nodes| == |Considered(w, count)|
    ensures ChooseNodes(w, count).nodes[i] == Considered(w, count)[(w.seed + i) % |Considered(w, count)|]
  {
    RotateAt(Considered(w, count), w.seed, i);
  }

  /** Online nodes only, if enough are online; nodes above the floor only, if enough have room. */
  lemma ChoosesHealthy(w: Snapshot, count: nat, x: NodeId)
    requires Distinct(w.ring) && ChooseNodes(w, count).Placed? && x in ChooseNodes(w, count).nodes
    ensures |Online(w)| >= count && x in w.nodes ==> w.nodes[x].status == Status.Online
    ensures |Eligible(w, count)| >= count ==> HasRoom(w, x)
  {
    ChosenAmong(w, count, x);
    hide ChooseNodes;
    if |Considered(w, count)| <= count && |Eligible(w, count)| >= count {
      FullFilter(Considered(w, count), Roomy(w));
      assert Roomy(w)(x);
    }
  }

  lemma {:induction false} FullFilter(s: seq<NodeId>, keep: NodeId -> bool)
    requires |Filter(s, keep)| >= |s|
    ensures forall x | x in s :: keep(x)
  {
    if s != [] {
      var n := |s| - 1;
      assert s == s[..n] + [s[n]];
      FullFilter(s[..n], keep);
    }
  }

  /** When too few have room, a tie between sampling keys goes to the emptier node. */
  lemma TiesGoToEmptier(w: Snapshot, count: nat, chosen: NodeId, left: NodeId)
    requires Distinct(w.ring) && |Considered(w, count)| > count > |Eligible(w, count)|
    requires chosen in ChooseNodes(w, count).nodes && left in Considered(w, count)
    requires left !in ChooseNodes(w, count).nodes && w.key(chosen) == w.key(left)
    ensures Believed(w, chosen).0 >= Believed(w, left).0
  {
    var all, free := Considered(w, count), FreeBytes(w);
    ConsideredFacts(w, count);
    SortByKeyFacts(all, free);
    var byFree := SortByKey(all, free);
    assert chosen in SortByKey(byFree, w.key);
    if free(chosen) < free(left) {
      SortedBefore(byFree, free, left, chosen);
      SortIsStable(byFree, w.key, left, chosen);
      SortByKeyFacts(byFree, w.key);
      BeforeIsChosen(SortByKey(byFree, w.key), count, left, chosen);
    }
  }

  lemma SortedBefore(s: seq<NodeId>, key: NodeId -> real, x: NodeId, y: NodeId)
    requires SortedBy(s, key) && x in s && y in s && key(x) > key(y)
    ensures Before(s, x, y)
  {
    var i :| 0 <= i < |s| && s[i] == x;
    var j :| 0 <= j < |s| && s[j] == y;
  }

  lemma BeforeIsChosen(s: seq<NodeId>, count: nat, x: NodeId, y: NodeId)
    requires Distinct(s) && count <= |s| && Before(s, x, y) && y in s[..count]
    ensures x in s[..count]
  {
    var i, j :| 0 <= i < j < |s| && s[i] == x && s[j] == y;
    var k :| 0 <= k < count && s[..count][k] == y;
    assert s[k] == s[j];
    assert s[..count][i] == x;
  }

  /** Among the candidates, none left out has a higher sampling key than one chosen. */
  lemma ChoosesHighestKeys(w: Snapshot, count: nat, chosen: NodeId, left: NodeId)
    requires Distinct(w.ring) && |Considered(w, count)| > count
    requires chosen in ChooseNodes(w, count).nodes
    requires left in Candidates(w, count) && left !in ChooseNodes(w, count).nodes
    ensures w.key(chosen) >= w.key(left)
  {
    CandidatesFacts(w, count);
    SortByKeyFacts(Candidates(w, count), w.key);
    var sorted := SortByKey(Candidates(w, count), w.key);
    var i :| 0 <= i < count && sorted[i] == chosen;
    assert left in sorted;
    var j :| 0 <= j < |sorted| && sorted[j] == left;
    assert j >= count;
  }
}
