/** Where the counted bytes can go: placements of every byte's copies, and how many bytes fit at most. */
module CapacityPlacement {
  import opened Basics
  import opened UsableCapacity

  /** For each byte, the nodes that hold a copy of it. */
  type Placement = seq<set<nat>>

  /** How many bytes node i holds. */
  function Load(pl: Placement, i: nat): (k: nat)
    ensures k <= |pl|
  {
    if pl == [] then 0 else Load(pl[..|pl| - 1], i) + (if i in pl[|pl| - 1] then 1 else 0)
  }

  ghost predicate Spread(pl: Placement, n: nat, rf: nat) {
    forall u | 0 <= u < |pl| :: |pl[u]| == rf && forall i | i in pl[u] :: i < n
  }

  /** Every byte is on RF different nodes, and no node is overfilled. */
  ghost predicate Stores(pl: Placement, caps: seq<nat>, rf: nat) {
    Spread(pl, |caps|, rf) && forall i | 0 <= i < |caps| :: Load(pl, i) <= caps[i]
  }

  ghost predicate Storable(caps: seq<nat>, rf: nat, t: nat) { exists pl :: |pl| == t && Stores(pl, caps, rf) }

  // ---------------------------------------------------------------------------------------------
  // Counting copies by byte and by node

  function SumLoads(pl: Placement, n: nat): nat {
    if n == 0 then 0 else SumLoads(pl, n - 1) + Load(pl, n - 1)
  }

  function Below(s: set<nat>, n: nat): set<nat> { set i | i in s && i < n }

  lemma {:induction false} SumLoadsSnoc(pl: Placement, s: set<nat>, n: nat)
    ensures SumLoads(pl + [s], n) == SumLoads(pl, n) + |Below(s, n)|
  {
    if n > 0 {
      SumLoadsSnoc(pl, s, n - 1);
      assert (pl + [s])[..|pl|] == pl;
      if n - 1 in s {
        assert Below(s, n) == Below(s, n - 1) + {n - 1};
      } else {
        assert Below(s, n) == Below(s, n - 1);
      }
    } else {
      assert Below(s, 0) == {};
    }
  }

  lemma {:induction false} NoLoads(n: nat)
    ensures SumLoads([], n) == 0
  {
    if n > 0 { NoLoads(n - 1); }
  }

  lemma {:induction false} CopiesOne(rf: nat)
    ensures Copies(rf, 1) == rf
  {
    if rf > 0 { CopiesOne(rf - 1); }
  }

  lemma {:induction false} LoadsAre(pl: Placement, n: nat, rf: nat)
    requires Spread(pl, n, rf)
    ensures SumLoads(pl, n) == Copies(rf, |pl|)
  {
    if pl == [] {
      NoLoads(n);
      CopiesZero(rf);
    } else {
      var front, s := pl[..|pl| - 1], pl[|pl| - 1];
      LoadsAre(front, n, rf);
      SumLoadsSnoc(front, s, n);
      assert pl == front + [s] && Below(s, n) == s;
      CopiesAdd(rf, |front|, 1);
      CopiesOne(rf);
    }
  }

  lemma {:induction false} LoadsWithin(pl: Placement, caps: seq<nat>)
    requires forall i | 0 <= i < |caps| :: Load(pl, i) <= caps[i]
    ensures SumLoads(pl, |caps|) <= SumUpTo(caps, UpTo(|pl|))
  {
    if caps != [] {
      LoadsWithin(pl, caps[..|caps| - 1]);
      SumUpToLast(caps, |pl|);
    }
  }

  // ---------------------------------------------------------------------------------------------
  // Wrap-around: nodes laid end to end, the copies of a byte a whole lap apart

  /** No node is overfilled, and positions at least t apart are on different nodes. */
  ghost predicate Places(owner: seq<nat>, caps: seq<nat>, t: nat) {
    && (forall p | 0 <= p < |owner| :: owner[p] < |caps|)
    && (forall i | 0 <= i < |caps| :: multiset(owner)[i] <= caps[i])
    && (forall p, q | 0 <= p < q < |owner| && q - p >= t :: owner[p] != owner[q])
  }

  lemma {:induction false} RunMultiset(n: nat, x: nat)
    ensures multiset(seq(n, _ => x)) == multiset{}[x := n]
  {
    if n > 0 {
      RunMultiset(n - 1, x);
      assert seq(n, _ => x) == seq(n - 1, _ => x) + [x];
    }
  }

  /** Nodes laid end to end, each offering at most t bytes. */
  function Layout(caps: seq<nat>, t: nat): (r: seq<nat>)
    ensures forall p | 0 <= p < |r| :: r[p] < |caps|
  {
    if caps == [] then [] else
      var n := |caps| - 1;
      Layout(caps[..n], t) + seq(Min(caps[n], t), _ => n)
  }

  lemma {:induction false} SumUpToLast(s: seq<nat>, t: nat)
    requires s != []
    ensures SumUpTo(s, UpTo(t)) == SumUpTo(s[..|s| - 1], UpTo(t)) + Min(s[|s| - 1], t)
  {
    if |s| > 1 {
      SumUpToLast(s[1..], t);
      assert s[1..][..|s| - 2] == s[..|s| - 1][1..];
    }
  }

  lemma {:induction false} LayoutFacts(caps: seq<nat>, t: nat)
    ensures |Layout(caps, t)| == SumUpTo(caps, UpTo(t))
    ensures Places(Layout(caps, t), caps, t)
  {
    if caps != [] {
      var n := |caps| - 1;
      LayoutFacts(caps[..n], t);
      SumUpToLast(caps, t);
      RunMultiset(Min(caps[n], t), n);
      LayoutStep(Layout(caps[..n], t), caps, t);
    }
  }

  lemma LayoutStep(before: seq<nat>, caps: seq<nat>, t: nat)
    requires caps != [] && Places(before, caps[..|caps| - 1], t)
    ensures var n := |caps| - 1; Places(before + seq(Min(caps[n], t), _ => n), caps, t)
  {
    var n := |caps| - 1;
    RunMultiset(Min(caps[n], t), n);
    assert n !in multiset(before);
  }

  function Nowhere(t: nat): (pl: Placement)
    ensures |pl| == t && forall u | 0 <= u < t :: pl[u] == {}
  {
    seq(t, _ => {})
  }

  /** Copy k of byte u is at position k * t + u. */
  function Stack(owner: seq<nat>, rf: nat, t: nat): (pl: Placement)
    requires |owner| >= Copies(rf, t)
    ensures |pl| == t
  {
    if rf == 0 then Nowhere(t) else Heap(Stack(owner, rf - 1, t), owner[Copies(rf - 1, t)..Copies(rf, t)])
  }

  /** One more copy of each byte. */
  function Heap(pl: Placement, lap: seq<nat>): (r: Placement)
    requires |pl| == |lap|
    ensures |r| == |pl| && forall u | 0 <= u < |r| :: r[u] == pl[u] + {lap[u]}
  {
    seq(|pl|, u requires 0 <= u < |pl| => pl[u] + {lap[u]})
  }

  lemma {:induction false} HeapLoad(pl: Placement, lap: seq<nat>, i: nat)
    requires |pl| == |lap|
    ensures Load(Heap(pl, lap), i) <= Load(pl, i) + multiset(lap)[i]
  {
    if pl != [] {
      var n := |pl| - 1;
      HeapLoad(pl[..n], lap[..n], i);
      assert Heap(pl, lap)[..n] == Heap(pl[..n], lap[..n]);
      assert lap == lap[..n] + [lap[n]];
    }
  }

  lemma {:induction false} NoLoad(t: nat, i: nat)
    ensures Load(Nowhere(t), i) == 0
  {
    if t > 0 {
      NoLoad(t - 1, i);
      assert Nowhere(t)[..t - 1] == Nowhere(t - 1);
    }
  }

  lemma JoinCount(owner: seq<nat>, a: nat, b: nat, i: nat)
    requires a <= b <= |owner|
    ensures multiset(owner[..b])[i] == multiset(owner[..a])[i] + multiset(owner[a..b])[i]
  {
    assert owner[..b] == owner[..a] + owner[a..b];
  }

  lemma {:induction false} StackLoad(owner: seq<nat>, rf: nat, t: nat, i: nat)
    requires |owner| >= Copies(rf, t)
    ensures Load(Stack(owner, rf, t), i) <= multiset(owner[..Copies(rf, t)])[i]
  {
    hide Load;
    if rf == 0 {
      NoLoad(t, i);
    } else {
      var a, b := Copies(rf - 1, t), Copies(rf, t);
      var below := Stack(owner, rf - 1, t);
      StackLoad(owner, rf - 1, t, i);
      HeapLoad(below, owner[a..b], i);
      JoinCount(owner, a, b, i);
    }
  }

  /** Everyone holding byte u before the next lap is at least a lap behind it. */
  ghost predicate Behind(owner: seq<nat>, holders: set<nat>, bound: int) {
    forall x | x in holders :: exists p :: 0 <= p <= bound && p < |owner| && owner[p] == x
  }

  lemma LapIsNew(owner: seq<nat>, caps: seq<nat>, holders: set<nat>, t: nat, q: nat)
    requires t > 0 && Places(owner, caps, t) && q < |owner| && Behind(owner, holders, q - t)
    ensures owner[q] !in holders && Behind(owner, holders + {owner[q]}, q)
  {
  }

  /** Byte u is on rf different nodes, none of them beyond its position in the last lap. */
  ghost predicate Laps(owner: seq<nat>, pl: Placement, rf: nat, start: int) {
    forall u | 0 <= u < |pl| :: |pl[u]| == rf && Behind(owner, pl[u], start + u)
  }

  lemma LapsOn(owner: seq<nat>, caps: seq<nat>, pl: Placement, rf: nat, t: nat, start: nat)
    requires Places(owner, caps, t) && |pl| == t && start + t <= |owner| && Laps(owner, pl, rf, start - t)
    ensures Laps(owner, Heap(pl, owner[start..start + t]), rf + 1, start)
  {
    hide Places;
    var next := Heap(pl, owner[start..start + t]);
    forall u | 0 <= u < t ensures |next[u]| == rf + 1 && Behind(owner, next[u], start + u) {
      LapIsNew(owner, caps, pl[u], t, start + u);
    }
  }

  lemma {:induction false} StackSpread(owner: seq<nat>, caps: seq<nat>, rf: nat, t: nat)
    requires Places(owner, caps, t) && |owner| >= Copies(rf, t)
    ensures Laps(owner, Stack(owner, rf, t), rf, Copies(rf, t) - t)
  {
    hide Places, Laps;
    if rf == 0 {
      assert Laps(owner, Nowhere(t), 0, 0 - t) by { NoLaps(owner, t); }
    } else {
      StackSpread(owner, caps, rf - 1, t);
      LapsOn(owner, caps, Stack(owner, rf - 1, t), rf - 1, t, Copies(rf - 1, t));
    }
  }

  lemma NoLaps(owner: seq<nat>, t: nat)
    ensures Laps(owner, Nowhere(t), 0, 0 - t)
  {
  }

  lemma StackStores(owner: seq<nat>, caps: seq<nat>, rf: nat, t: nat)
    requires Places(owner, caps, t) && |owner| >= Copies(rf, t)
    ensures Stores(Stack(owner, rf, t), caps, rf)
  {
    hide Stack, Copies, Load;
    var pl := Stack(owner, rf, t);
    StackSpread(owner, caps, rf, t);
    forall u, i | 0 <= u < |pl| && i in pl[u] ensures i < |caps| {
      assert Behind(owner, pl[u], Copies(rf, t) - t + u);
      assert exists p :: 0 <= p < |owner| && owner[p] == i;
    }
    forall i | 0 <= i < |caps| ensures Load(pl, i) <= caps[i] {
      StackLoad(owner, rf, t, i);
      PrefixCount(owner, Copies(rf, t), i);
    }
  }

  lemma PrefixCount(owner: seq<nat>, k: nat, i: nat)
    requires k <= |owner|
    ensures multiset(owner[..k])[i] <= multiset(owner)[i]
  {
    assert owner == owner[..k] + owner[k..];
  }

  // ---------------------------------------------------------------------------------------------
  // What fits

  /** t bytes can be stored exactly when RF copies of them fit with no node counted for more than t. */
  lemma StorableIff(caps: seq<nat>, rf: nat, t: nat)
    ensures Storable(caps, rf, t) <==> Copies(rf, t) <= SumUpTo(caps, UpTo(t))
  {
    if Storable(caps, rf, t) {
      var pl :| |pl| == t && Stores(pl, caps, rf);
      LoadsAre(pl, |caps|, rf);
      LoadsWithin(pl, caps);
    }
    if Copies(rf, t) <= SumUpTo(caps, UpTo(t)) {
      LayoutFacts(caps, t);
      StackStores(Layout(caps, t), caps, rf, t);
      assert |Stack(Layout(caps, t), rf, t)| == t;
    }
  }

  // The same in the capacities alone: whatever the k largest nodes hold, the others must carry the rest

  function Drop(s: seq<nat>, k: nat): seq<nat> { if k <= |s| then s[k..] else [] }

  ghost predicate Roomy(s: seq<nat>, rf: nat, t: nat) {
    forall k: nat | k < rf :: Copies(rf - k, t) <= SumUpTo(Drop(s, k), Unlimited)
  }

  lemma {:induction false} CopiesSplit(a: nat, b: nat, t: nat)
    ensures Copies(a + b, t) == Copies(a, t) + Copies(b, t)
  {
    if a > 0 { CopiesSplit(a - 1, b, t); }
  }

  lemma {:induction false} DropAtMost(s: seq<nat>, k: nat, t: nat)
    requires forall i | 0 <= i < |s| :: s[i] <= t
    ensures SumUpTo(s, Unlimited) <= Copies(k, t) + SumUpTo(Drop(s, k), Unlimited)
    decreases k
  {
    if k == 0 {
      assert Drop(s, 0) == s;
    } else if s != [] {
      DropAtMost(s[1..], k - 1, t);
      assert Drop(s, k) == Drop(s[1..], k - 1);
    }
  }

  lemma {:induction false} NoneCapped(s: seq<nat>, t: nat)
    requires forall i | 0 <= i < |s| :: s[i] <= t
    ensures SumUpTo(s, UpTo(t)) == SumUpTo(s, Unlimited)
  {
    if s != [] { NoneCapped(s[1..], t); }
  }

  lemma RoomyWhenLow(s: seq<nat>, rf: nat, t: nat)
    requires rf > 0 && forall i | 0 <= i < |s| :: s[i] <= t
    ensures Roomy(s, rf, t) <==> Copies(rf, t) <= SumUpTo(s, UpTo(t))
  {
    hide Copies, SumUpTo;
    NoneCapped(s, t);
    assert Drop(s, 0) == s;
    if Copies(rf, t) <= SumUpTo(s, Unlimited) {
      forall k: nat | k < rf ensures Copies(rf - k, t) <= SumUpTo(Drop(s, k), Unlimited) {
        CopiesSplit(k, rf - k, t);
        DropAtMost(s, k, t);
      }
    }
  }

  lemma RoomyWhenHigh(s: seq<nat>, rf: nat, t: nat)
    requires rf > 0 && s != [] && s[0] >= t
    ensures Roomy(s, rf, t) <==> Roomy(s[1..], rf - 1, t)
  {
    forall k: nat | 0 < k ensures Drop(s, k) == Drop(s[1..], k - 1) {}
    if Roomy(s, rf, t) {
      forall k: nat | k < rf - 1 ensures Copies(rf - 1 - k, t) <= SumUpTo(Drop(s[1..], k), Unlimited) {
        assert Drop(s, k + 1) == Drop(s[1..], k);
        assert Copies(rf - (k + 1), t) <= SumUpTo(Drop(s, k + 1), Unlimited);
      }
    }
    if Roomy(s[1..], rf - 1, t) {
      forall k: nat | k < rf ensures Copies(rf - k, t) <= SumUpTo(Drop(s, k), Unlimited) {
        if k == 0 {
          assert Drop(s, 0) == s && Drop(s[1..], 0) == s[1..];
          assert rf > 1 ==> Copies(rf - 1, t) <= SumUpTo(s[1..], Unlimited);
        } else {
          assert Copies(rf - 1 - (k - 1), t) <= SumUpTo(Drop(s[1..], k - 1), Unlimited);
        }
      }
    }
  }

  lemma {:induction false} RoomyIff(s: seq<nat>, rf: nat, t: nat)
    requires Descending(s)
    ensures Roomy(s, rf, t) <==> Copies(rf, t) <= SumUpTo(s, UpTo(t))
    decreases rf
  {
    if rf > 0 {
      if s != [] && s[0] > t {
        RoomyWhenHigh(s, rf, t);
        RoomyIff(s[1..], rf - 1, t);
      } else {
        forall i | 0 <= i < |s| ensures s[i] <= t { DescendingPair(s, 0, i); }
        RoomyWhenLow(s, rf, t);
      }
    }
  }

  /** t bytes can be stored exactly when, for every k < RF, all but the k largest nodes have room for RF - k copies. */
  lemma StorableByCapacities(caps: seq<nat>, rf: nat, t: nat)
    ensures Storable(caps, rf, t) <==>
              forall k: nat | k < rf :: Copies(rf - k, t) <= SumUpTo(Drop(SortDesc(caps), k), Unlimited)
  {
    StorableIff(caps, rf, t);
    SumSort(caps, UpTo(t));
    RoomyIff(SortDesc(caps), rf, t);
  }

  /** The least of those bounds, from k on. */
  function Bound(s: seq<nat>, rf: nat, k: nat): nat
    requires k < rf
    decreases rf - k
  {
    var here := SumUpTo(Drop(s, k), Unlimited) / (rf - k);
    if k == rf - 1 then here else Min(here, Bound(s, rf, k + 1))
  }

  lemma {:induction false} CopiesIsProduct(a: nat, t: nat)
    ensures Copies(a, t) == a * t
  {
    if a > 0 {
      CopiesIsProduct(a - 1, t);
      assert a * t == (a - 1) * t + t;
    }
  }

  lemma FitsIff(a: nat, t: nat, sum: nat)
    requires a > 0
    ensures Copies(a, t) <= sum <==> t <= sum / a
  {
    hide Copies;
    var q := sum / a;
    DivisionBounds(a, sum);
    CopiesIsProduct(a, q);
    CopiesAdd(a, q, 1);
    CopiesOne(a);
    CopiesMonotone(a, t, q);
    CopiesMonotone(a, q + 1, t);
  }

  lemma DivisionBounds(a: nat, sum: nat)
    requires a > 0
    ensures a * (sum / a) <= sum < a * (sum / a) + a
  {
  }

  lemma {:induction false} BoundIs(s: seq<nat>, rf: nat, k: nat, t: nat)
    requires k < rf
    ensures t <= Bound(s, rf, k) <==>
              forall j: nat | k <= j < rf :: Copies(rf - j, t) <= SumUpTo(Drop(s, j), Unlimited)
    decreases rf - k
  {
    hide Copies, SumUpTo, Drop;
    FitsIff(rf - k, t, SumUpTo(Drop(s, k), Unlimited));
    if k < rf - 1 { BoundIs(s, rf, k + 1, t); }
  }

  /** The most that fits, computed from the capacities: the least bound over k. */
  lemma MostThatFits(caps: seq<nat>, rf: nat)
    requires rf > 0
    ensures Optimal(caps, rf, Bound(SortDesc(caps), rf, 0))
  {
    hide Storable, Bound, SortDesc;
    forall t: nat ensures Storable(caps, rf, t) <==> t <= Bound(SortDesc(caps), rf, 0) {
      StorableByCapacities(caps, rf, t);
      BoundIs(SortDesc(caps), rf, 0, t);
    }
  }

  /** The greedy answer never exceeds that, and is the most that fits exactly when it reaches it. */
  lemma GreedyReachesBoundIff(caps: seq<nat>, rf: nat)
    requires rf > 0
    ensures Usable(caps, rf) <= Bound(SortDesc(caps), rf, 0)
    ensures Optimal(caps, rf, Usable(caps, rf)) <==> Usable(caps, rf) == Bound(SortDesc(caps), rf, 0)
  {
    hide Storable, Bound, SortDesc, Usable;
    MostThatFits(caps, rf);
    UsableIsStorable(caps, rf);
  }

  /** What can be stored can also be stored in part. */
  lemma {:induction false} PartStorable(pl: Placement, caps: seq<nat>, rf: nat, t: nat)
    requires Stores(pl, caps, rf) && t <= |pl|
    ensures Stores(pl[..t], caps, rf)
    decreases |pl|
  {
    if t < |pl| {
      PartStorable(pl[..|pl| - 1], caps, rf, t);
      assert pl[..|pl| - 1][..t] == pl[..t];
    } else {
      assert pl[..t] == pl;
    }
  }

  /** The greedy answer can be stored. */
  lemma UsableIsStorable(caps: seq<nat>, rf: nat)
    requires rf > 0
    ensures Storable(caps, rf, Usable(caps, rf))
  {
    UsableIsFeasible(caps, rf);
    StorableIff(caps, rf, Usable(caps, rf));
  }

  ghost predicate Optimal(caps: seq<nat>, rf: nat, t: nat) {
    Storable(caps, rf, t) && forall more: nat | Storable(caps, rf, more) :: more <= t
  }

  /** The greedy answer is the most that fits exactly when one more byte fails the capped-sum test. */
  lemma UsableIsOptimalIff(caps: seq<nat>, rf: nat)
    requires rf > 0
    ensures var u := Usable(caps, rf); Optimal(caps, rf, u) <==> Copies(rf, u + 1) > SumUpTo(caps, UpTo(u + 1))
  {
    hide Usable, SumUpTo, Copies;
    var u := Usable(caps, rf);
    UsableIsStorable(caps, rf);
    StorableIff(caps, rf, u + 1);
    forall more: nat | Storable(caps, rf, more) && more > u ensures Storable(caps, rf, u + 1) {
      var pl :| |pl| == more && Stores(pl, caps, rf);
      PartStorable(pl, caps, rf, u + 1);
      assert |pl[..u + 1]| == u + 1;
    }
  }

  lemma {:induction false} CappedWithin(s: seq<nat>, t: nat)
    ensures SumUpTo(s, UpTo(t)) <= SumUpTo(s, Unlimited)
  {
    if s != [] { CappedWithin(s[1..], t); }
  }

  /** No placement beats the greedy one by more than what it leaves stranded. */
  lemma GapIsStranded(caps: seq<nat>, rf: nat, t: nat)
    requires rf > 0 && Storable(caps, rf, t)
    ensures Copies(rf, t) <= Copies(rf, Usable(caps, rf)) + SumUpTo(Residual(caps, rf), Unlimited)
  {
    StorableIff(caps, rf, t);
    CappedWithin(caps, t);
    UsableConserves(caps, rf);
  }

  /** With fewer than RF bytes stranded the greedy answer is the most that fits. */
  lemma LittleStrandedIsOptimal(caps: seq<nat>, rf: nat)
    requires rf > 0 && SumUpTo(Residual(caps, rf), Unlimited) < rf
    ensures Optimal(caps, rf, Usable(caps, rf))
  {
    hide Usable, Residual, SumUpTo, Copies;
    var u := Usable(caps, rf);
    UsableIsStorable(caps, rf);
    forall more: nat | Storable(caps, rf, more) ensures more <= u {
      GapIsStranded(caps, rf, more);
      if more > u {
        CopiesMonotone(rf, u + 1, more);
        CopiesAdd(rf, u, 1);
        CopiesOne(rf);
      }
    }
  }

  /** A single copy wastes nothing. */
  lemma OneCopyIsOptimal(caps: seq<nat>)
    ensures Optimal(caps, 1, Usable(caps, 1)) && Usable(caps, 1) == SumUpTo(caps, Unlimited)
  {
    hide Usable, Residual;
    UsableConserves(caps, 1);
    NoneRanked(Residual(caps, 1));
    LittleStrandedIsOptimal(caps, 1);
    assert Copies(1, Usable(caps, 1)) == Usable(caps, 1) + Copies(0, Usable(caps, 1));
  }

  lemma NoneRanked(s: seq<nat>)
    requires |Ranked(s)| == 0
    ensures SumUpTo(s, Unlimited) == 0
  {
    SumRanked(s, Unlimited);
  }

  // ---------------------------------------------------------------------------------------------
  // No more nodes than copies

  function Filled(caps: seq<nat>): set<nat> { set i | 0 <= i < |caps| && caps[i] > 0 }

  lemma {:induction false} FilledCount(caps: seq<nat>)
    ensures |Filled(caps)| == |Positive(caps)|
  {
    if caps != [] {
      var n := |caps| - 1;
      FilledCount(caps[..n]);
      PositiveLast(caps);
      hide Positive;
      if caps[n] > 0 {
        assert Filled(caps) == Filled(caps[..n]) + {n};
      } else {
        assert Filled(caps) == Filled(caps[..n]);
      }
    }
  }

  lemma PositiveLast(caps: seq<nat>)
    requires caps != []
    ensures var n := |caps| - 1;
            Positive(caps) == Positive(caps[..n]) + (if caps[n] > 0 then multiset{caps[n]} else multiset{})
  {
    var n := |caps| - 1;
    assert caps == caps[..n] + [caps[n]];
    assert multiset(caps) == multiset(caps[..n]) + multiset{caps[n]};
  }

  lemma {:induction false} HolderIsLoaded(pl: Placement, u: nat, i: nat)
    requires u < |pl| && i in pl[u]
    ensures Load(pl, i) > 0
  {
    if u < |pl| - 1 { HolderIsLoaded(pl[..|pl| - 1], u, i); }
  }

  lemma {:induction false} EverywhereLoaded(pl: Placement, i: nat)
    requires forall u | 0 <= u < |pl| :: i in pl[u]
    ensures Load(pl, i) == |pl|
  {
    if pl != [] { EverywhereLoaded(pl[..|pl| - 1], i); }
  }

  lemma SubsetCount(a: set<nat>, b: set<nat>)
    requires a <= b
    ensures |a| <= |b| && (|a| == |b| ==> a == b)
  {
    assert b == a + (b - a);
    assert |b| == |a| + |b - a|;
    if |a| == |b| { assert b - a == {}; }
  }

  /** A byte is kept on nodes with room, so RF nodes with room must all hold it. */
  lemma HoldersAreFilled(pl: Placement, caps: seq<nat>, rf: nat, u: nat)
    requires Stores(pl, caps, rf) && u < |pl|
    ensures rf <= |Filled(caps)| && (rf == |Filled(caps)| ==> pl[u] == Filled(caps))
  {
    forall i | i in pl[u] ensures i in Filled(caps) { HolderIsLoaded(pl, u, i); }
    SubsetCount(pl[u], Filled(caps));
  }

  /** With at most RF nodes that have room, the greedy answer is the most that fits. */
  lemma FewNodesIsOptimal(caps: seq<nat>, rf: nat)
    requires rf > 0 && |Positive(caps)| <= rf
    ensures Optimal(caps, rf, Usable(caps, rf))
  {
    UsableIsStorable(caps, rf);
    FilledCount(caps);
    forall more: nat | Storable(caps, rf, more) ensures more <= Usable(caps, rf) {
      var pl :| |pl| == more && Stores(pl, caps, rf);
      if more > 0 {
        HoldersAreFilled(pl, caps, rf, 0);
        var i := SmallestIndex(caps, rf);
        forall u | 0 <= u < |pl| ensures i in pl[u] { HoldersAreFilled(pl, caps, rf, u); }
        EverywhereLoaded(pl, i);
      }
    }
  }

  lemma SmallestIndex(caps: seq<nat>, rf: nat) returns (i: nat)
    requires rf > 0 && |Positive(caps)| == rf
    ensures i in Filled(caps) && caps[i] <= Usable(caps, rf)
  {
    hide Ranked, Usable;
    RankedCount(caps);
    FirstRound(caps, rf);
    i := FilledWith(caps, Ranked(caps), rf - 1);
  }

  lemma RankedCount(caps: seq<nat>)
    ensures |Ranked(caps)| == |Positive(caps)|
  {
    hide Ranked;
    assert |Ranked(caps)| == |multiset(Ranked(caps))|;
  }

  lemma FirstRound(caps: seq<nat>, rf: nat)
    requires 0 < rf <= |Ranked(caps)|
    ensures Ranked(caps)[rf - 1] <= Usable(caps, rf)
  {
    hide Ranked, Round;
  }

  lemma FilledWith(caps: seq<nat>, s: seq<nat>, k: nat) returns (i: nat)
    requires multiset(s) == Positive(caps) && k < |s|
    ensures i in Filled(caps) && caps[i] == s[k]
  {
    assert s[k] in multiset(s);
    assert s[k] in Positive(caps);
    assert s[k] in multiset(caps) && s[k] > 0;
    i :| 0 <= i < |caps| && caps[i] == s[k];
  }

  // ---------------------------------------------------------------------------------------------
  // Where it falls short

  lemma {:induction false} SumEqual(n: nat, x: nat, t: nat)
    ensures SumUpTo(seq(n, _ => x), UpTo(t)) == Copies(n, Min(x, t))
  {
    if n > 0 {
      SumEqual(n - 1, x, t);
      assert seq(n, _ => x)[1..] == seq(n - 1, _ => x);
    }
  }

  lemma NoneEmpty(s: seq<nat>)
    requires 0 !in s
    ensures Positive(s) == multiset(s)
  {
  }

  lemma RankedIs(caps: seq<nat>, s: seq<nat>)
    requires Descending(s) && Positive(caps) == multiset(s)
    ensures Ranked(caps) == s
  {
    hide Ranked;
    DescendingUnique(Ranked(caps), s);
  }

  lemma ThreeEqualRanked(c: nat)
    requires c > 0
    ensures Ranked([c, c, c]) == [c, c, c]
    ensures Ranked([0, 0, c]) == [c]
  {
    hide Ranked;
    NoneEmpty([c, c, c]);
    assert Descending([c, c, c]) by { assert [c, c, c][1..] == [c, c] && Descending([c, c]); }
    RankedIs([c, c, c], [c, c, c]);
    assert Positive([0, 0, c]) == multiset([c]);
    RankedIs([0, 0, c], [c]);
  }

  lemma UsableThreeEqual(c: nat)
    requires c > 0
    ensures Usable([c, c, c], 2) == c
  {
    ThreeEqualRanked(c);
    RoundOfThree(c);
    hide Ranked, NonZero, Round;
    assert Usable([0, 0, c], 2) == 0;
  }

  lemma RoundOfThree(c: nat)
    ensures Descending([c, c, c]) && Round([c, c, c], 2) == [0, 0, c]
  {
    assert Descending([c, c, c]) by { assert [c, c, c][1..] == [c, c] && Descending([c, c]); }
    hide NonZero;
  }

  lemma RoomFor150()
    ensures Copies(2, 150) <= SumUpTo([100, 100, 100], UpTo(150))
  {
    SumEqual(3, 100, 150);
    assert seq(3, _ => 100) == [100, 100, 100];
    assert Copies(1, 100) == 100 && Copies(2, 100) == 200 && Copies(1, 150) == 150;
  }

  lemma FourRanked()
    ensures Ranked([100, 100, 100, 10]) == [100, 100, 100, 10]
  {
    hide Ranked;
    NoneEmpty([100, 100, 100, 10]);
    assert Descending([100, 100, 100, 10]) by {
      assert [100, 100, 100, 10][1..] == [100, 100, 10] && [100, 100, 10][1..] == [100, 10];
    }
    RankedIs([100, 100, 100, 10], [100, 100, 100, 10]);
  }

  lemma OneLeftRanked()
    ensures Ranked([0, 0, 0, 10]) == [10]
  {
    hide Ranked;
    assert multiset([0, 0, 0, 10]) == multiset{0, 0, 0, 10};
    assert Positive([0, 0, 0, 10]) == multiset([10]);
    RankedIs([0, 0, 0, 10], [10]);
  }

  lemma UsableFour()
    ensures Usable([100, 100, 100, 10], 3) == 100
  {
    FourRanked();
    OneLeftRanked();
    hide Ranked, NonZero;
    assert Round([100, 100, 100, 10], 3) == [0, 0, 0, 10];
    assert Usable([0, 0, 0, 10], 3) == 0;
  }

  lemma RoomFor103()
    ensures Copies(3, 103) <= SumUpTo([100, 100, 100, 10], UpTo(103))
  {
    var l := UpTo(103);
    assert [100, 100, 100, 10][1..] == [100, 100, 10] && [100, 100, 10][1..] == [100, 10] && [100, 10][1..] == [10];
    assert SumUpTo([10], l) == 10 && SumUpTo([100, 10], l) == 110 && SumUpTo([100, 100, 10], l) == 210;
    assert Copies(1, 103) == 103 && Copies(2, 103) == 206;
  }

  /** The cluster that illustrates the algorithm holds 103 units, three more than the greedy answer. */
  lemma DocumentedClusterHoldsMore()
    ensures Usable([100, 100, 100, 10], 3) == 100 && Storable([100, 100, 100, 10], 3, 103)
  {
    UsableFour();
    hide Usable;
    RoomFor103();
    StorableIff([100, 100, 100, 10], 3, 103);
  }

  /** The greedy answer is not always the most that fits: three equal nodes at RF 2 strand a third. */
  lemma UsableIsNotOptimal()
    ensures Usable([100, 100, 100], 2) == 100 && Storable([100, 100, 100], 2, 150)
  {
    UsableThreeEqual(100);
    hide Usable;
    RoomFor150();
    StorableIff([100, 100, 100], 2, 150);
  }
}
