/** A slot that accumulates patches, with the check that drops patches that change nothing. */
module PatchSlot {
  import opened Basics
  import opened PatchReplay

  /** Content kept in memory, and the highest sequence number it accounts for. */
  datatype Cache = Cache(buf: Bytes, maxSeq: nat)

  datatype Slot = Slot(base: Bytes, log: seq<Record>, cache: Option<Cache>)

  function MaxSeq(log: seq<Record>): (m: nat)
    requires log != []
    ensures AtMost(log, m)
  {
    var last := log[|log| - 1].writeSeq;
    if |log| == 1 then last else Max(MaxSeq(log[..|log| - 1]), last)
  }

  /** What an arriving patch is compared with: the cache, or the content rebuilt from disk. */
  function Baseline(s: Slot): Option<Cache> {
    if s.cache.Some? then s.cache
    else if s.log == [] then None
    else Some(Cache(Content(s.base, s.log), MaxSeq(s.log)))
  }

  predicate ChangesNothing(buf: Bytes, ranges: seq<(nat, Bytes)>) {
    forall i | 0 <= i < |ranges| ::
      var end := ranges[i].0 + |ranges[i].1|;
      end <= |buf| && buf[ranges[i].0..end] == ranges[i].1
  }

  predicate Skips(s: Slot, q: Patch) {
    var b := Baseline(s);
    b.Some? && q.writeSeq > b.value.maxSeq && ChangesNothing(b.value.buf, q.ranges)
  }

  function Merge(s: Slot, q: Patch): Slot {
    var b := Baseline(s);
    if b.Some? && q.writeSeq > b.value.maxSeq then
      if ChangesNothing(b.value.buf, q.ranges) then s.(cache := Some(Cache(b.value.buf, q.writeSeq)))
      else s.(log := s.log + Of(q), cache := Some(Cache(Replay(b.value.buf, Of(q)), q.writeSeq)))
    else s.(log := s.log + Of(q), cache := None)
  }

  // ---------------------------------------------------------------------------------------------
  // The cached content is the replayed content

  ghost predicate Warm(s: Slot) {
    s.cache.Some? ==> s.cache.value.buf == Content(s.base, s.log) && AtMost(s.log, s.cache.value.maxSeq)
  }

  lemma BaselineIsContent(s: Slot)
    requires Warm(s) && Baseline(s).Some?
    ensures Baseline(s).value.buf == Content(s.base, s.log) && AtMost(s.log, Baseline(s).value.maxSeq)
  {
  }

  lemma {:induction false} SortOfOne(s: nat, ranges: seq<(nat, Bytes)>)
    ensures StableSort(Records(s, ranges)) == Records(s, ranges)
  {
    if ranges != [] {
      var front := ranges[..|ranges| - 1];
      SortOfOne(s, front);
      assert Records(s, ranges)[..|ranges| - 1] == Records(s, front);
    }
  }

  /** A patch with a new highest number can be written straight onto the content. */
  lemma NewestGoesOnTop(base: Bytes, log: seq<Record>, q: Patch)
    requires AtMost(log, q.writeSeq)
    ensures Replay(Content(base, log), Of(q)) == Content(base, log + Of(q))
  {
    SortOfOne(q.writeSeq, q.ranges);
    FoldKeepsContent(base, log, Of(q));
  }

  lemma NewestKeepsWarm(s: Slot, c: Cache, q: Patch)
    requires c.buf == Content(s.base, s.log) && AtMost(s.log, c.maxSeq) && q.writeSeq > c.maxSeq
    ensures Warm(s.(cache := Some(Cache(c.buf, q.writeSeq))))
    ensures Warm(s.(log := s.log + Of(q), cache := Some(Cache(Replay(c.buf, Of(q)), q.writeSeq))))
  {
    hide Content, Replay, Records, AtMost;
    assert AtMost(s.log, q.writeSeq) && AtMost(s.log + Of(q), q.writeSeq) by { PatchAtMost(s.log, c.maxSeq, q); }
    NewestGoesOnTop(s.base, s.log, q);
  }

  lemma PatchAtMost(log: seq<Record>, m: nat, q: Patch)
    requires AtMost(log, m) && m <= q.writeSeq
    ensures AtMost(log, q.writeSeq) && AtMost(log + Of(q), q.writeSeq)
  {
  }

  lemma MergeKeepsWarm(s: Slot, q: Patch)
    requires Warm(s)
    ensures Warm(Merge(s, q))
  {
    if Baseline(s).Some? {
      BaselineIsContent(s);
      hide Warm, Content, Replay, ChangesNothing, AtMost;
      if q.writeSeq > Baseline(s).value.maxSeq { NewestKeepsWarm(s, Baseline(s).value, q); }
    }
    assert Warm(s.(log := s.log + Of(q), cache := None)) by { hide Content, AtMost; }
  }

  // ---------------------------------------------------------------------------------------------
  // Runs

  datatype Event = Arrive(patch: Patch) | Evict | Fold

  /** A slot, the content it started from, everything that arrived, and the highest number dropped or folded. */
  datatype Trace = Trace(origin: Bytes, slot: Slot, arrived: seq<Patch>, floor: nat)

  function Start(origin: Bytes): Trace { Trace(origin, Slot(origin, [], None), [], 0) }

  function Step(t: Trace, e: Event): Trace {
    match e
    case Evict => t.(slot := t.slot.(cache := None))
    case Fold =>
      if t.slot.log == [] then t
      else t.(slot := Slot(Content(t.slot.base, t.slot.log), [], None), floor := Max(t.floor, MaxSeq(t.slot.log)))
    case Arrive(q) =>
      t.(slot := Merge(t.slot, q), arrived := t.arrived + [q],
         floor := if Skips(t.slot, q) then Max(t.floor, q.writeSeq) else t.floor)
  }

  function Run(origin: Bytes, es: seq<Event>): Trace {
    if es == [] then Start(origin) else Step(Run(origin, es[..|es| - 1]), es[|es| - 1])
  }

  function Held(t: Trace): Bytes { Content(t.slot.base, t.slot.log) }

  /** What the slot should hold: everything that arrived, replayed in write order. */
  function Due(t: Trace): Bytes { Content(t.origin, Log(t.arrived)) }

  lemma LogOfArrival(arrived: seq<Patch>, q: Patch)
    ensures Log(arrived + [q]) == Log(arrived) + Of(q)
  {
    assert (arrived + [q])[..|arrived|] == arrived;
  }

  lemma WarmRun(origin: Bytes, es: seq<Event>)
    ensures Warm(Run(origin, es).slot)
  {
    if es != [] {
      WarmRun(origin, es[..|es| - 1]);
      var t := Run(origin, es[..|es| - 1]);
      if es[|es| - 1].Arrive? { MergeKeepsWarm(t.slot, es[|es| - 1].patch); }
    }
  }

  /** A fold empties the log and an eviction the cache, and neither changes what the slot holds or what is due. */
  lemma FoldAndEvictKeepContent(t: Trace)
    ensures var u := Step(t, Fold); u.slot.log == [] && Held(u) == Held(t) && Due(u) == Due(t)
    ensures var u := Step(t, Evict); u.slot.cache.None? && Held(u) == Held(t) && Due(u) == Due(t)
  {
  }

  /** As long as nothing is evicted or folded, a patch is dropped only above the numbers of those dropped before it. */
  lemma DropsAscend(s: Slot, first: Patch, second: Patch)
    requires Skips(s, first) && Skips(Merge(s, first), second)
    ensures second.writeSeq > first.writeSeq
  {
  }

  // ---------------------------------------------------------------------------------------------
  // When one arrival is kept right

  /** Does a patch numbered s get byte p, among the records still logged and among all that arrived? */
  predicate TakesHeld(t: Trace, s: nat, p: nat) { Yields(Winner(t.slot.log, p), s) }

  predicate TakesDue(t: Trace, s: nat, p: nat) { Yields(Winner(Log(t.arrived), p), s) }

  /** The patch writes no byte that a dropped or folded later write should keep, unless with the byte already there. */
  ghost predicate Harmless(t: Trace, q: Patch) {
    forall p: nat |
      && p < |Held(t)| && LastCover(Of(q), p).Some?
      && TakesHeld(t, q.writeSeq, p) != TakesDue(t, q.writeSeq, p) ::
      Pick(LastCover(Of(q), p), [], p) == Held(t)[p]
  }

  function ByteOr0(b: Bytes, p: nat): Byte { if p < |b| then b[p] else 0 }

  /** The content after one more patch, from the content before it. */
  lemma AfterArrival(base: Bytes, log: seq<Record>, q: Patch)
    ensures |Content(base, log + Of(q))| == Max(|Content(base, log)|, MaxEnd(Of(q)))
    ensures forall p: nat | p < |Content(base, log + Of(q))| :: Content(base, log + Of(q))[p] ==
              if LastCover(Of(q), p).Some? && Yields(Winner(log, p), q.writeSeq) then Pick(LastCover(Of(q), p), [], p)
              else ByteOr0(Content(base, log), p)
  {
    hide Content, StableSort;
    ContentBytes(base, log);
    ContentBytes(base, log + Of(q));
    EndAppend(log, Of(q));
    forall p: nat | p < |Content(base, log + Of(q))|
      ensures Content(base, log + Of(q))[p] ==
              if LastCover(Of(q), p).Some? && Yields(Winner(log, p), q.writeSeq) then Pick(LastCover(Of(q), p), [], p)
              else ByteOr0(Content(base, log), p)
    {
      WinnerOfPatch(log, q.writeSeq, q.ranges, p);
      if p >= |Content(base, log)| { NobodyBeyond(log, p); }
    }
  }

  /** From a slot that holds what is due, a logged arrival leaves it so exactly when it is harmless. */
  lemma ArrivalIsRightIff(t: Trace, q: Patch)
    requires Held(t) == Due(t) && !Skips(t.slot, q)
    ensures Held(Step(t, Arrive(q))) == Due(Step(t, Arrive(q))) <==> Harmless(t, q)
  {
    hide Content, Winner, LastCover, Log;
    var s, u := q.writeSeq, Step(t, Arrive(q));
    AfterArrival(t.slot.base, t.slot.log, q);
    AfterArrival(t.origin, Log(t.arrived), q);
    LogOfArrival(t.arrived, q);
    if Harmless(t, q) {
      forall p: nat | p < |Held(u)| ensures Held(u)[p] == Due(u)[p] {
        if p >= |Held(t)| { Unwritten(t, p); }
      }
      assert Held(u) == Due(u);
    } else {
      var p: nat :| p < |Held(t)| && LastCover(Of(q), p).Some? && TakesHeld(t, s, p) != TakesDue(t, s, p) &&
        Pick(LastCover(Of(q), p), [], p) != Held(t)[p];
      assert Held(u)[p] != Due(u)[p];
    }
  }

  lemma Unwritten(t: Trace, p: nat)
    requires Held(t) == Due(t) && p >= |Held(t)|
    ensures Winner(t.slot.log, p).None? && Winner(Log(t.arrived), p).None?
  {
    hide StableSort;
    ContentBytes(t.slot.base, t.slot.log);
    ContentBytes(t.origin, Log(t.arrived));
    NobodyBeyond(t.slot.log, p);
    NobodyBeyond(Log(t.arrived), p);
  }

  lemma {:induction false} NothingToWrite(buf: Bytes, s: nat, ranges: seq<(nat, Bytes)>, p: nat)
    requires ChangesNothing(buf, ranges)
    ensures MaxEnd(Records(s, ranges)) <= |buf|
    ensures LastCover(Records(s, ranges), p).Some? ==>
              p < |buf| && Pick(LastCover(Records(s, ranges), p), [], p) == buf[p]
  {
    if ranges != [] {
      var k := |ranges| - 1;
      NothingToWrite(buf, s, ranges[..k], p);
      var r, rs := ranges[k], Records(s, ranges);
      assert r.0 + |r.1| <= |buf| && buf[r.0..r.0 + |r.1|] == r.1;
      hide ChangesNothing;
      assert rs[..k] == Records(s, ranges[..k]);
      hide Records;
      assert MaxEnd(rs) == Max(MaxEnd(rs[..k]), rs[k].End());
      assert LastCover(rs, p) == if rs[k].Covers(p) then Some(rs[k]) else LastCover(rs[..k], p);
      hide MaxEnd, LastCover;
      if r.0 <= p < r.0 + |r.1| { SliceAt(buf, r.0, r.0 + |r.1|, p); }
    }
  }

  lemma SliceAt(buf: Bytes, from: nat, to: nat, p: nat)
    requires from <= p < to <= |buf|
    ensures buf[from..to][p - from] == buf[p]
  {
  }

  /** Dropping a patch that changes nothing is right at that moment. */
  lemma SkipIsRight(t: Trace, q: Patch)
    requires Held(t) == Due(t) && Warm(t.slot) && Skips(t.slot, q)
    ensures Held(Step(t, Arrive(q))) == Due(Step(t, Arrive(q)))
  {
    BaselineIsContent(t.slot);
    hide Content, Winner, LastCover, Log, Records;
    AfterArrival(t.origin, Log(t.arrived), q);
    LogOfArrival(t.arrived, q);
    var held, due := Held(t), Due(Step(t, Arrive(q)));
    NothingToWrite(held, q.writeSeq, q.ranges, 0);
    assert |due| == |held|;
    forall p: nat | p < |held| ensures due[p] == held[p] { NothingToWrite(held, q.writeSeq, q.ranges, p); }
    assert due == held;
  }

  lemma FoldIsRight(t: Trace)
    ensures Held(Step(t, Fold)) == Held(t) && Held(Step(t, Evict)) == Held(t)
  {
  }

  /** A run holds what is due at every point exactly when every logged arrival was harmless. */
  lemma {:induction false} AlwaysRightIff(origin: Bytes, es: seq<Event>)
    ensures AlwaysRight(origin, es) <==> AllHarmless(origin, es)
  {
    if es != [] {
      var front, e := es[..|es| - 1], es[|es| - 1];
      AlwaysRightIff(origin, front);
      if AlwaysRight(origin, front) {
        RightNow(origin, front);
        var t := Run(origin, front);
        WarmRun(origin, front);
        FoldIsRight(t);
        if e.Arrive? {
          if Skips(t.slot, e.patch) { SkipIsRight(t, e.patch); } else { ArrivalIsRightIff(t, e.patch); }
        }
      }
    }
  }

  ghost predicate AlwaysRight(origin: Bytes, es: seq<Event>) {
    Held(Run(origin, es)) == Due(Run(origin, es)) && (es == [] || AlwaysRight(origin, es[..|es| - 1]))
  }

  ghost predicate AllHarmless(origin: Bytes, es: seq<Event>) {
    es != [] ==>
      && AllHarmless(origin, es[..|es| - 1])
      && var t, e := Run(origin, es[..|es| - 1]), es[|es| - 1];
         e.Arrive? && !Skips(t.slot, e.patch) ==> Harmless(t, e.patch)
  }

  lemma RightNow(origin: Bytes, es: seq<Event>)
    requires AlwaysRight(origin, es)
    ensures Held(Run(origin, es)) == Due(Run(origin, es))
  {
  }

  // ---------------------------------------------------------------------------------------------
  // A condition on the arrivals alone

  /** No patch arrives with a number below one already dropped or folded. */
  ghost predicate InOrder(origin: Bytes, es: seq<Event>) {
    es != [] ==>
      && InOrder(origin, es[..|es| - 1])
      && (es[|es| - 1].Arrive? ==> es[|es| - 1].patch.writeSeq >= Run(origin, es[..|es| - 1]).floor)
  }

  /** The log and the history disagree about a byte only below the floor. */
  ghost predicate Floored(t: Trace, p: nat) {
    var held, due := Winner(t.slot.log, p), Winner(Log(t.arrived), p);
    held == due || (Yields(held, t.floor) && Yields(due, t.floor))
  }

  lemma ArrivalKeepsFloored(t: Trace, q: Patch, p: nat)
    requires Floored(t, p) && Warm(t.slot) && q.writeSeq >= t.floor
    ensures Floored(Step(t, Arrive(q)), p)
  {
    hide Content, Log, Records;
    LogOfArrival(t.arrived, q);
    WinnerOfPatch(Log(t.arrived), q.writeSeq, q.ranges, p);
    WinnerOfPatch(t.slot.log, q.writeSeq, q.ranges, p);
    if Skips(t.slot, q) {
      BaselineIsContent(t.slot);
      LastCoverSeq(q, p);
    }
  }

  lemma LastCoverSeq(q: Patch, p: nat)
    ensures LastCover(Of(q), p).Some? ==> LastCover(Of(q), p).value.writeSeq == q.writeSeq
  {
  }

  lemma {:induction false} RunKeepsFloored(origin: Bytes, es: seq<Event>, p: nat)
    requires InOrder(origin, es)
    ensures Floored(Run(origin, es), p)
  {
    if es != [] {
      var front, e := es[..|es| - 1], es[|es| - 1];
      RunKeepsFloored(origin, front, p);
      WarmRun(origin, front);
      if e.Arrive? { ArrivalKeepsFloored(Run(origin, front), e.patch, p); }
    }
  }

  lemma {:induction false} InOrderIsHarmless(origin: Bytes, es: seq<Event>)
    requires InOrder(origin, es)
    ensures AllHarmless(origin, es)
  {
    if es != [] {
      var front, e := es[..|es| - 1], es[|es| - 1];
      InOrderIsHarmless(origin, front);
      if e.Arrive? {
        forall p: nat ensures Floored(Run(origin, front), p) { RunKeepsFloored(origin, front, p); }
        FlooredIsHarmless(Run(origin, front), e.patch);
      }
    }
  }

  lemma FlooredIsHarmless(t: Trace, q: Patch)
    requires q.writeSeq >= t.floor && forall p: nat :: Floored(t, p)
    ensures Harmless(t, q)
  {
    forall p: nat ensures TakesHeld(t, q.writeSeq, p) == TakesDue(t, q.writeSeq, p) { assert Floored(t, p); }
  }

  /** Whatever is dropped, folded or evicted, the slot holds every write that arrived. */
  lemma InOrderHoldsAll(origin: Bytes, es: seq<Event>)
    requires InOrder(origin, es)
    ensures Held(Run(origin, es)) == Due(Run(origin, es))
  {
    InOrderIsHarmless(origin, es);
    AlwaysRightIff(origin, es);
    RightNow(origin, es);
  }

  /** Replicas that received the same patches hold the same bytes, however each one dropped, folded and evicted. */
  lemma SlotsAgree(origin: Bytes, es: seq<Event>, fs: seq<Event>)
    requires InOrder(origin, es) && InOrder(origin, fs)
    requires OnePatchPerSeq(Run(origin, es).arrived) && SamePatches(Run(origin, es).arrived, Run(origin, fs).arrived)
    ensures Held(Run(origin, es)) == Held(Run(origin, fs))
  {
    InOrderHoldsAll(origin, es);
    InOrderHoldsAll(origin, fs);
    OriginStays(origin, es);
    OriginStays(origin, fs);
    ReplicasConverge(origin, Run(origin, es).arrived, Run(origin, fs).arrived);
  }

  lemma {:induction false} OriginStays(origin: Bytes, es: seq<Event>)
    ensures Run(origin, es).origin == origin
  {
    if es != [] { OriginStays(origin, es[..|es| - 1]); }
  }

  // ---------------------------------------------------------------------------------------------
  // The order matters

  function One(s: nat, b: Byte): Record { Record(s, 0, [b]) }

  function Put(s: nat, b: Byte): Patch { Patch(s, [(0, [b])]) }

  lemma OfPut(s: nat, b: Byte)
    ensures Of(Put(s, b)) == [One(s, b)]
  {
  }

  lemma ContentOfOne(s: nat, b: Byte)
    ensures Content([0], [One(s, b)]) == [b]
  {
    var r := One(s, b);
    assert [r][..0] == [] && StableSort([]) == [] && StableSort([r]) == [r];
    assert Replay([0], [r]) == Splice(Replay([0], []), r);
  }

  lemma ContentOfTwo(b: Byte, c: Byte)
    ensures Content([0], [One(1, b), One(2, c)]) == [c]
  {
    hide Content;
    TwoBytes([0], One(1, b), One(2, c));
  }

  lemma ContentOfThree(b: Byte, c: Byte)
    ensures Content([0], [One(1, b), One(3, b)] + [One(2, c)]) == [b]
  {
    hide Content;
    TwoBytes([0], One(1, b), One(3, b));
    OfPut(2, c);
    assert [One(1, b), One(3, b)][..1] == [One(1, b)];
    assert Winner([One(1, b), One(3, b)], 0) == Some(One(3, b));
    assert [One(2, c)][..0] == [];
    assert MaxEnd([One(2, c)]) == 1;
    AfterArrival([0], [One(1, b), One(3, b)], Put(2, c));
  }

  /** The run of the next lemma: writes 1, 3 and 2 arrive, and 3 repeats the bytes of 1. */
  function AfterOne(b: Byte): Trace { Trace([0], Slot([0], [One(1, b)], None), [Put(1, b)], 0) }

  function AfterThree(b: Byte): Trace {
    Trace([0], Slot([0], [One(1, b)], Some(Cache([b], 3))), [Put(1, b), Put(3, b)], 3)
  }

  function AfterTwo(b: Byte, c: Byte): Trace {
    Trace([0], Slot([0], [One(1, b), One(2, c)], None), [Put(1, b), Put(3, b), Put(2, c)], 3)
  }

  lemma OneArrives(b: Byte)
    ensures Step(Start([0]), Arrive(Put(1, b))) == AfterOne(b)
  {
    OfPut(1, b);
  }

  lemma BaselineOfOne(b: Byte)
    ensures Baseline(AfterOne(b).slot) == Some(Cache([b], 1))
  {
    ContentOfOne(1, b);
    hide Content;
  }

  lemma ThreeArrives(b: Byte)
    ensures Step(AfterOne(b), Arrive(Put(3, b))) == AfterThree(b)
  {
    BaselineOfOne(b);
    assert ChangesNothing([b], [(0, [b])]) by { assert [b][0..1] == [b]; }
    hide Baseline, ChangesNothing, Content, Records, Replay;
    assert Skips(AfterOne(b).slot, Put(3, b));
  }

  lemma TwoArrives(b: Byte, c: Byte)
    ensures Step(AfterThree(b), Arrive(Put(2, c))) == AfterTwo(b, c)
  {
    OfPut(2, c);
  }

  lemma LogOfThree(b: Byte, c: Byte)
    ensures Log([Put(1, b), Put(3, b), Put(2, c)]) == [One(1, b), One(3, b)] + [One(2, c)]
  {
    hide Log, Records;
    var x, y, z := Put(1, b), Put(3, b), Put(2, c);
    OfPut(1, b);
    OfPut(3, b);
    OfPut(2, c);
    EmptyLog();
    LogOfArrival([], x);
    LogOfArrival([x], y);
    LogOfArrival([x, y], z);
    assert [] + [x] == [x] && [x] + [y] == [x, y] && [x, y] + [z] == [x, y, z];
  }

  /** Write 3 changes nothing and is dropped, so 2 is left standing where 3 should be. */
  lemma DroppedWriteIsLost(b: Byte, c: Byte)
    ensures var es := [Arrive(Put(1, b)), Arrive(Put(3, b)), Arrive(Put(2, c))];
            Held(Run([0], es)) == [c] && Due(Run([0], es)) == [b]
  {
    hide Content, Log, Step;
    ThreeSteps([0], Arrive(Put(1, b)), Arrive(Put(3, b)), Arrive(Put(2, c)));
    OneArrives(b);
    ThreeArrives(b);
    TwoArrives(b, c);
    ContentOfTwo(b, c);
    LogOfThree(b, c);
    ContentOfThree(b, c);
  }

  lemma EmptyLog()
    ensures Log([]) == []
  {
  }

  lemma ThreeSteps(origin: Bytes, d: Event, e: Event, f: Event)
    ensures Run(origin, [d, e, f]) == Step(Step(Step(Start(origin), d), e), f)
  {
    hide Step;
    assert [d, e, f][..2] == [d, e] && [d, e][..1] == [d] && [d][..0] == [];
    assert Run(origin, [d]) == Step(Start(origin), d);
  }
}
