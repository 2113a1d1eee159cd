/** Usable cluster capacity: the greedy bottleneck loop, and what its answer guarantees. */
module UsableCapacity {
  import opened Basics

  // ---------------------------------------------------------------------------------------------
  // Filtering and sorting, as the loop does at the top of each round

  predicate Descending(s: seq<nat>) {
    |s| <= 1 || (s[0] >= s[1] && Descending(s[1..]))
  }

  lemma {:induction false} DescendingPair(s: seq<nat>, i: nat, j: nat)
    requires Descending(s) && i <= j < |s|
    ensures s[i] >= s[j]
  {
    if 0 < i {
      DescendingPair(s[1..], i - 1, j - 1);
    } else if 0 < j {
      DescendingPair(s[1..], 0, j - 1);
    }
  }

  /** The multiset of positive entries. */
  function Positive(s: seq<nat>): multiset<nat> { multiset(s)[0 := 0] }

  function NonZero(s: seq<nat>): (r: seq<nat>)
    ensures multiset(r) == Positive(s)
    ensures |r| <= |s| && (0 in s ==> |r| < |s|)
  {
    if s == [] then []
    else
      assert s == [s[0]] + s[1..];
      (if s[0] > 0 then [s[0]] else []) + NonZero(s[1..])
  }

  function InsertDesc(x: nat, s: seq<nat>): (r: seq<nat>)
    requires Descending(s)
    ensures Descending(r)
    ensures multiset(r) == multiset(s) + multiset{x}
    ensures s != [] ==> r[0] == if x >= s[0] then x else s[0]
  {
    if s == [] || x >= s[0] then [x] + s
    else
      assert s == [s[0]] + s[1..];
      [s[0]] + InsertDesc(x, s[1..])
  }

  function SortDesc(s: seq<nat>): (r: seq<nat>)
    ensures Descending(r)
    ensures multiset(r) == multiset(s)
    ensures |r| == |s|
  {
    if s == [] then []
    else
      assert s == [s[0]] + s[1..];
      var r := InsertDesc(s[0], SortDesc(s[1..]));
      assert |r| == |multiset(r)| == |multiset(s)|;
      r
  }

  lemma HeadIsMax(s: seq<nat>, x: nat)
    requires Descending(s) && x in multiset(s)
    ensures s[0] >= x
  {
    var i :| 0 <= i < |s| && s[i] == x;
    DescendingPair(s, 0, i);
  }

  lemma TailMultiset(s: seq<nat>)
    requires s != []
    ensures multiset(s[1..]) == multiset(s) - multiset{s[0]}
  {
    assert s == [s[0]] + s[1..];
  }

  lemma SameHead(a: seq<nat>, b: seq<nat>)
    requires Descending(a) && Descending(b) && multiset(a) == multiset(b) && a != []
    ensures b != [] && a[0] == b[0]
  {
    assert a[0] in multiset(b);
    assert b[0] in multiset(a);
    HeadIsMax(a, b[0]);
    HeadIsMax(b, a[0]);
  }

  lemma SameTail(a: seq<nat>, b: seq<nat>)
    requires a != [] && b != [] && a[0] == b[0] && multiset(a) == multiset(b)
    ensures multiset(a[1..]) == multiset(b[1..])
  {
    TailMultiset(a);
    TailMultiset(b);
  }

  /** A descending arrangement of a multiset is unique, so any correct sort gives the same sequence. */
  lemma {:induction false} DescendingUnique(a: seq<nat>, b: seq<nat>)
    requires Descending(a) && Descending(b)
    requires multiset(a) == multiset(b)
    ensures a == b
    decreases |a|
  {
    if a == [] {
      assert |b| == |multiset(b)| == 0;
    } else {
      SameHead(a, b);
      SameTail(a, b);
      DescendingUnique(a[1..], b[1..]);
      assert a == [a[0]] + a[1..] && b == [b[0]] + b[1..];
    }
  }

  // ---------------------------------------------------------------------------------------------
  // Reference: a round takes the bottleneck from RF distinct nodes, those with the most left

  /** Takes d from each of the first rf entries. */
  function Lower(s: seq<nat>, rf: nat, d: nat): (r: seq<nat>)
    requires rf <= |s|
    ensures |r| == |s|
    ensures forall i | 0 <= i < rf :: r[i] == SaturatingSub(s[i], d)
    ensures forall i | rf <= i < |s| :: r[i] == s[i]
  {
    seq(|s|, i requires 0 <= i < |s| => if i < rf then SaturatingSub(s[i], d) else s[i])
  }

  /** The capacities still in play, largest first. */
  function Ranked(caps: seq<nat>): (r: seq<nat>)
    ensures Descending(r) && |r| == |NonZero(caps)|
    ensures multiset(r) == Positive(caps)
  {
    SortDesc(NonZero(caps))
  }

  lemma BottleneckFits(s: seq<nat>, rf: nat)
    requires Descending(s) && 0 < rf <= |s|
    ensures forall i | 0 <= i < rf :: s[rf - 1] <= s[i]
  {
    forall i | 0 <= i < rf ensures s[rf - 1] <= s[i] { DescendingPair(s, i, rf - 1); }
  }

  /** One round on ranked capacities: the RF-th largest comes off each of the RF largest. */
  function Round(s: seq<nat>, rf: nat): (r: seq<nat>)
    requires Descending(s) && 0 < rf <= |s|
    ensures |NonZero(r)| < |s|
  {
    var r := Lower(s, rf, s[rf - 1]);
    assert r[rf - 1] == 0;
    r
  }

  /** The greedy answer, taken from distinct nodes and in unbounded integers. */
  function Usable(caps: seq<nat>, rf: nat): nat
    requires rf > 0
    decreases |NonZero(caps)|
  {
    var s := Ranked(caps);
    if |s| < rf then 0 else s[rf - 1] + Usable(Round(s, rf), rf)
  }

  /** Node order and exhausted nodes are irrelevant to the answer. */
  lemma UsableOrderIndependent(a: seq<nat>, b: seq<nat>, rf: nat)
    requires rf > 0 && Positive(a) == Positive(b)
    ensures Usable(a, rf) == Usable(b, rf) && |NonZero(a)| == |NonZero(b)|
  {
    DescendingUnique(Ranked(a), Ranked(b));
  }

  // ---------------------------------------------------------------------------------------------
  // The loop itself, updating an array by value match

  /** Each listed value in turn is swapped for the value less d. */
  ghost function Swap(m: multiset<nat>, top: seq<nat>, d: nat): multiset<nat>
    decreases |top|
  {
    if top == [] then m else Swap(m - multiset{top[0]} + multiset{SaturatingSub(top[0], d)}, top[1..], d)
  }

  lemma SwapOne(m: multiset<nat>, x: nat, y: nat, t: multiset<nat>, r: multiset<nat>, l: multiset<nat>)
    requires t == multiset{x} + r && t <= m
    ensures r <= m - multiset{x} + multiset{y}
    ensures (m - multiset{x} + multiset{y}) - r + l == m - t + (multiset{y} + l)
  {
  }

  lemma SwapFirst(m: multiset<nat>, top: seq<nat>, d: nat)
    ensures top == [] ==> Swap(m, top, d) == m
    ensures top != [] ==>
              Swap(m, top, d) == Swap(m - multiset{top[0]} + multiset{SaturatingSub(top[0], d)}, top[1..], d)
  {
  }

  lemma LowerCons(top: seq<nat>, d: nat)
    ensures top == [] ==> Lower(top, 0, d) == []
    ensures top != [] ==>
              Lower(top, |top|, d) == [SaturatingSub(top[0], d)] + Lower(top[1..], |top| - 1, d)
  {
  }

  lemma Cons(x: nat, s: seq<nat>)
    ensures multiset([x] + s) == multiset{x} + multiset(s)
  {
  }

  lemma {:induction false} SwapAll(m: multiset<nat>, top: seq<nat>, d: nat)
    requires multiset(top) <= m
    ensures Swap(m, top, d) == m - multiset(top) + multiset(Lower(top, |top|, d))
    decreases |top|
  {
    hide Swap, Lower, SaturatingSub;
    SwapFirst(m, top, d);
    LowerCons(top, d);
    if top == [] {
      assert m - multiset{} + multiset{} == m;
    } else {
      var x, y, rest := top[0], SaturatingSub(top[0], d), top[1..];
      var l := Lower(rest, |rest|, d);
      assert top == [x] + rest;
      Cons(x, rest);
      Cons(y, l);
      SwapOne(m, x, y, multiset(top), multiset(rest), multiset(l));
      SwapAll(m - multiset{x} + multiset{y}, rest, d);
    }
  }

  method SubtractFirstMatch(capacities: array<nat>, val: nat, d: nat)
    requires val in multiset(capacities[..])
    modifies capacities
    ensures multiset(capacities[..]) == multiset(old(capacities[..])) - multiset{val} + multiset{SaturatingSub(val, d)}
  {
    ghost var before := capacities[..];
    var j := 0;
    assert exists i :: 0 <= i < capacities.Length && capacities[i] == val;
    while capacities[j] != val
      invariant 0 <= j < capacities.Length && capacities[..] == before
      invariant exists i :: j <= i < capacities.Length && capacities[i] == val
      decreases capacities.Length - j
    {
      j := j + 1;
    }
    capacities[j] := SaturatingSub(capacities[j], d);
    assert capacities[..] == before[j := SaturatingSub(val, d)];
  }

  lemma TopWithin(before: seq<nat>, rf: nat)
    requires rf <= |Ranked(before)|
    ensures multiset(Ranked(before)[..rf]) <= multiset(before)
  {
    PrefixWithin(Ranked(before), rf);
    assert Positive(before) <= multiset(before);
  }

  lemma PrefixWithin(s: seq<nat>, k: nat)
    requires k <= |s|
    ensures multiset(s[..k]) <= multiset(s)
  {
    assert s == s[..k] + s[k..];
  }

  lemma SwapPositive(m: multiset<nat>, top: multiset<nat>, rest: multiset<nat>, low: multiset<nat>)
    requires top + rest == m[0 := 0]
    ensures (m - top + low)[0 := 0] == (low + rest)[0 := 0]
  {
    forall x: nat | x > 0 ensures (m - top + low)[x] == (low + rest)[x] {
      assert m[x] == (top + rest)[x];
    }
  }

  lemma LowerPrefix(s: seq<nat>, rf: nat, d: nat)
    requires rf <= |s|
    ensures Lower(s, rf, d) == Lower(s[..rf], rf, d) + s[rf..]
  {
  }

  /** Swapping the top values one match at a time is, as a multiset, lowering RF distinct nodes. */
  lemma SwapIsRound(before: seq<nat>, rf: nat)
    requires 0 < rf <= |Ranked(before)|
    ensures Swap(multiset(before), Ranked(before)[..rf], Ranked(before)[rf - 1])[0 := 0]
            == Positive(Round(Ranked(before), rf))
  {
    hide Ranked, Swap, Lower;
    var s := Ranked(before);
    var d, top, rest := s[rf - 1], s[..rf], s[rf..];
    JoinMultiset(s, rf);
    TopWithin(before, rf);
    SwapAll(multiset(before), top, d);
    var low := Lower(top, rf, d);
    SwapPositive(multiset(before), multiset(top), multiset(rest), multiset(low));
    LowerPrefix(s, rf, d);
    assert multiset(low + rest) == multiset(low) + multiset(rest);
  }

  lemma JoinMultiset(s: seq<nat>, k: nat)
    requires k <= |s|
    ensures multiset(s[..k]) + multiset(s[k..]) == multiset(s)
  {
    assert s == s[..k] + s[k..];
  }

  lemma SwapNext(m: multiset<nat>, top: seq<nat>, k: nat, d: nat)
    requires k < |top| && multiset(top[k..]) <= m
    ensures top[k] in m
    ensures var n := m - multiset{top[k]} + multiset{SaturatingSub(top[k], d)};
      multiset(top[k + 1..]) <= n && Swap(m, top[k..], d) == Swap(n, top[k + 1..], d)
  {
    assert top[k..] == [top[k]] + top[k + 1..];
  }

  /** One round of the loop: search-and-subtract for each of the top RF values in turn. */
  method SubtractTop(capacities: array<nat>, top: seq<nat>, d: nat)
    requires multiset(top) <= multiset(capacities[..])
    modifies capacities
    ensures multiset(capacities[..]) == Swap(multiset(old(capacities[..])), top, d)
  {
    var k := 0;
    assert top[0..] == top;
    while k < |top|
      invariant 0 <= k <= |top|
      invariant multiset(top[k..]) <= multiset(capacities[..])
      invariant Swap(multiset(capacities[..]), top[k..], d) == Swap(multiset(old(capacities[..])), top, d)
    {
      SwapNext(multiset(capacities[..]), top, k, d);
      SubtractFirstMatch(capacities, top[k], d);
      k := k + 1;
    }
  }

  /** What `+=` does to a u64 in a release build. */
  method AddU64(total: u64, d: nat) returns (r: u64, ghost carry: nat)
    ensures total + d == r + carry * U64_RANGE
  {
    r, carry := (total + d) % U64_RANGE, (total + d) / U64_RANGE;
  }

  /** Any capacities left by the value-matching round count for the same as the reference round. */
  lemma RoundAgrees(before: seq<nat>, after: seq<nat>, rf: nat)
    requires 0 < rf <= |Ranked(before)|
    requires multiset(after) == Swap(multiset(before), Ranked(before)[..rf], Ranked(before)[rf - 1])
    ensures Usable(before, rf) == Ranked(before)[rf - 1] + Usable(after, rf)
    ensures |NonZero(after)| < |NonZero(before)|
  {
    SwapIsRound(before, rf);
    UsableOrderIndependent(after, Round(Ranked(before), rf), rf);
  }

  method CalculateUsableCapacity(nodeCapacities: seq<u64>, rf: nat) returns (total: u64, ghost wraps: nat)
    ensures rf == 0 ==> total == 0
    ensures rf > 0 ==> Usable(nodeCapacities, rf) == total + wraps * U64_RANGE
  {
    wraps := 0;
    if nodeCapacities == [] || rf == 0 {
      return 0, 0;
    }
    var capacities := new nat[|nodeCapacities|](i requires 0 <= i < |nodeCapacities| => nodeCapacities[i]);
    assert capacities[..] == nodeCapacities;
    total := 0;
    while true
      invariant total + wraps * U64_RANGE + Usable(capacities[..], rf) == Usable(nodeCapacities, rf)
      decreases |NonZero(capacities[..])|
    {
      ghost var before := capacities[..];
      var ranked := Ranked(capacities[..]);
      if |ranked| < rf {
        break;
      }
      ghost var carry;
      total, carry := AddU64(total, ranked[rf - 1]);
      wraps := wraps + carry;
      TopWithin(before, rf);
      SubtractTop(capacities, ranked[..rf], ranked[rf - 1]);
      RoundAgrees(before, capacities[..], rf);
    }
  }

  // ---------------------------------------------------------------------------------------------
  // Feasibility: the answer can really be stored RF times without overfilling any node

  /** rf copies of t bytes. */
  function Copies(rf: nat, t: nat): nat {
    if rf == 0 then 0 else t + Copies(rf - 1, t)
  }

  lemma {:induction false} CopiesAdd(rf: nat, a: nat, b: nat)
    ensures Copies(rf, a + b) == Copies(rf, a) + Copies(rf, b)
  {
    if rf > 0 { CopiesAdd(rf - 1, a, b); }
  }

  lemma {:induction false} CopiesZero(rf: nat)
    ensures Copies(rf, 0) == 0
  {
    if rf > 0 { CopiesZero(rf - 1); }
  }

  datatype Limit = Unlimited | UpTo(t: nat)

  function Counted(x: nat, l: Limit): nat {
    if l.Unlimited? then x else Min(x, l.t)
  }

  /** Sum of the capacities, each counted up to the limit. */
  function SumUpTo(s: seq<nat>, l: Limit): nat {
    if s == [] then 0 else Counted(s[0], l) + SumUpTo(s[1..], l)
  }

  lemma {:induction false} SumInsert(x: nat, s: seq<nat>, l: Limit)
    requires Descending(s)
    ensures SumUpTo(InsertDesc(x, s), l) == Counted(x, l) + SumUpTo(s, l)
  {
    if s == [] || x >= s[0] {
      assert ([x] + s)[1..] == s;
    } else {
      SumInsert(x, s[1..], l);
      assert ([s[0]] + InsertDesc(x, s[1..]))[1..] == InsertDesc(x, s[1..]);
    }
  }

  lemma {:induction false} SumSort(s: seq<nat>, l: Limit)
    ensures SumUpTo(SortDesc(s), l) == SumUpTo(s, l)
  {
    if s != [] {
      SumSort(s[1..], l);
      SumInsert(s[0], SortDesc(s[1..]), l);
    }
  }

  lemma NonZeroCons(s: seq<nat>)
    requires s != []
    ensures NonZero(s) == if s[0] > 0 then [s[0]] + NonZero(s[1..]) else NonZero(s[1..])
  {
    assert [] + NonZero(s[1..]) == NonZero(s[1..]);
  }

  lemma {:induction false} SumNonZero(s: seq<nat>, l: Limit)
    ensures SumUpTo(NonZero(s), l) == SumUpTo(s, l)
  {
    if s != [] {
      var rest := NonZero(s[1..]);
      SumNonZero(s[1..], l);
      NonZeroCons(s);
      hide NonZero;
      assert ([s[0]] + rest)[1..] == rest;
    }
  }

  lemma SumRanked(caps: seq<nat>, l: Limit)
    ensures SumUpTo(Ranked(caps), l) == SumUpTo(caps, l)
  {
    SumSort(NonZero(caps), l);
    SumNonZero(caps, l);
  }

  /** A round of d pays for d more units on each of the rf nodes it lowered. */
  lemma {:induction false} SumUpToLower(s: seq<nat>, rf: nat, d: nat, t: nat)
    requires rf <= |s| && forall i | 0 <= i < rf :: d <= s[i]
    ensures SumUpTo(s, UpTo(d + t)) >= Copies(rf, d) + SumUpTo(Lower(s, rf, d), UpTo(t))
  {
    if s != [] {
      var r := if rf == 0 then 0 else rf - 1;
      SumUpToLower(s[1..], r, d, t);
      assert Lower(s, rf, d)[1..] == Lower(s[1..], r, d);
    }
  }

  lemma FeasibleRound(s: seq<nat>, rf: nat, t: nat)
    requires Descending(s) && 0 < rf <= |s|
    requires Copies(rf, t) <= SumUpTo(Round(s, rf), UpTo(t))
    ensures Copies(rf, s[rf - 1] + t) <= SumUpTo(s, UpTo(s[rf - 1] + t))
  {
    BottleneckFits(s, rf);
    SumUpToLower(s, rf, s[rf - 1], t);
    CopiesAdd(rf, s[rf - 1], t);
  }

  lemma FeasibleStep(caps: seq<nat>, rf: nat, t: nat)
    requires 0 < rf <= |Ranked(caps)|
    requires Copies(rf, t) <= SumUpTo(Round(Ranked(caps), rf), UpTo(t))
    ensures var u := Ranked(caps)[rf - 1] + t; Copies(rf, u) <= SumUpTo(caps, UpTo(u))
  {
    FeasibleRound(Ranked(caps), rf, t);
    SumRanked(caps, UpTo(Ranked(caps)[rf - 1] + t));
  }

  /** RF copies of the answer fit even though no node may hold two copies of the same byte. */
  lemma {:induction false} UsableIsFeasible(caps: seq<nat>, rf: nat)
    requires rf > 0
    ensures Copies(rf, Usable(caps, rf)) <= SumUpTo(caps, UpTo(Usable(caps, rf)))
    decreases |NonZero(caps)|
  {
    hide SumUpTo, Copies, NonZero, SortDesc, Round, Descending;
    if |Ranked(caps)| < rf {
      CopiesZero(rf);
    } else {
      var round := Round(Ranked(caps), rf);
      UsableIsFeasible(round, rf);
      FeasibleStep(caps, rf, Usable(round, rf));
    }
  }

  // ---------------------------------------------------------------------------------------------
  // Conservation: raw bytes are either RF copies of counted bytes or stranded on fewer than RF nodes

  /** What the loop leaves behind. */
  function Residual(caps: seq<nat>, rf: nat): seq<nat>
    requires rf > 0
    decreases |NonZero(caps)|
  {
    var s := Ranked(caps);
    if |s| < rf then caps else Residual(Round(s, rf), rf)
  }

  lemma {:induction false} SumLower(s: seq<nat>, rf: nat, d: nat)
    requires rf <= |s| && forall i | 0 <= i < rf :: d <= s[i]
    ensures SumUpTo(s, Unlimited) == Copies(rf, d) + SumUpTo(Lower(s, rf, d), Unlimited)
  {
    if s != [] {
      var r := if rf == 0 then 0 else rf - 1;
      SumLower(s[1..], r, d);
      assert Lower(s, rf, d)[1..] == Lower(s[1..], r, d);
    }
  }

  lemma SumRound(s: seq<nat>, rf: nat, t: nat, left: nat)
    requires Descending(s) && 0 < rf <= |s|
    requires SumUpTo(Round(s, rf), Unlimited) == Copies(rf, t) + left
    ensures SumUpTo(s, Unlimited) == Copies(rf, s[rf - 1] + t) + left
  {
    BottleneckFits(s, rf);
    SumLower(s, rf, s[rf - 1]);
    CopiesAdd(rf, s[rf - 1], t);
  }

  lemma ConservesStep(caps: seq<nat>, rf: nat, t: nat, left: nat)
    requires 0 < rf <= |Ranked(caps)|
    requires SumUpTo(Round(Ranked(caps), rf), Unlimited) == Copies(rf, t) + left
    ensures SumUpTo(caps, Unlimited) == Copies(rf, Ranked(caps)[rf - 1] + t) + left
  {
    SumRound(Ranked(caps), rf, t, left);
    SumRanked(caps, Unlimited);
  }

  lemma {:induction false} UsableConserves(caps: seq<nat>, rf: nat)
    requires rf > 0
    ensures SumUpTo(caps, Unlimited) == Copies(rf, Usable(caps, rf)) + SumUpTo(Residual(caps, rf), Unlimited)
    ensures |Ranked(Residual(caps, rf))| < rf
    decreases |NonZero(caps)|
  {
    hide SumUpTo, Copies, NonZero, SortDesc, Round, Descending;
    if |Ranked(caps)| < rf {
      CopiesZero(rf);
    } else {
      var round := Round(Ranked(caps), rf);
      UsableConserves(round, rf);
      ConservesStep(caps, rf, Usable(round, rf), SumUpTo(Residual(round, rf), Unlimited));
    }
  }

  lemma {:induction false} CopiesMonotone(rf: nat, a: nat, b: nat)
    ensures a <= b ==> Copies(rf, a) <= Copies(rf, b)
  {
    if rf > 0 { CopiesMonotone(rf - 1, a, b); }
  }

  lemma NoCarry(total: u64, wraps: nat)
    requires total + wraps * U64_RANGE < U64_RANGE
    ensures wraps == 0
  {
  }

  /** The 64-bit total is exact unless the raw bytes reach RF times the u64 range. */
  lemma NoWrap(caps: seq<nat>, rf: nat, total: u64, wraps: nat)
    requires rf > 0 && SumUpTo(caps, Unlimited) < Copies(rf, U64_RANGE)
    requires Usable(caps, rf) == total + wraps * U64_RANGE
    ensures total == Usable(caps, rf)
  {
    hide Usable, SumUpTo, Copies;
    UsableConserves(caps, rf);
    CopiesMonotone(rf, U64_RANGE, Usable(caps, rf));
    NoCarry(total, wraps);
  }
}
