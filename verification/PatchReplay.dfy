/** Pending patches of a chunk: a log of byte ranges, replayed over the base content in write order. */
module PatchReplay {
  import opened Basics

  /** A range of bytes, stamped with the sequence number its client gave the write. */
  datatype Record = Record(writeSeq: nat, offset: nat, data: Bytes) {
    function End(): nat { offset + |data| }
    predicate Covers(p: nat) { offset <= p < End() }
  }

  // ---------------------------------------------------------------------------------------------
  // Replaying records in a given order

  function Grow(buf: Bytes, len: nat): (r: Bytes)
    ensures |r| == Max(|buf|, len)
    ensures forall i | 0 <= i < |r| :: r[i] == if i < |buf| then buf[i] else 0
  {
    if len > |buf| then buf + seq(len - |buf|, _ => 0) else buf
  }

  function Splice(buf: Bytes, r: Record): (out: Bytes)
    ensures |out| == Max(|buf|, r.End())
    ensures forall p | 0 <= p < |out| ::
      out[p] == if r.Covers(p) then r.data[p - r.offset] else if p < |buf| then buf[p] else 0
  {
    var grown := Grow(buf, r.End());
    grown[..r.offset] + r.data + grown[r.End()..]
  }

  function Replay(buf: Bytes, rs: seq<Record>): Bytes {
    if rs == [] then buf else Splice(Replay(buf, rs[..|rs| - 1]), rs[|rs| - 1])
  }

  lemma ReplayNone(buf: Bytes, rs: seq<Record>)
    ensures Replay(buf, rs[..0]) == buf
  {
  }

  lemma ReplayNext(buf: Bytes, rs: seq<Record>, i: nat)
    requires i < |rs|
    ensures Replay(buf, rs[..i + 1]) == Splice(Replay(buf, rs[..i]), rs[i])
  {
    assert rs[..i + 1][..i] == rs[..i];
  }

  lemma {:induction false} ReplayAppend(buf: Bytes, a: seq<Record>, b: seq<Record>)
    ensures Replay(buf, a + b) == Replay(Replay(buf, a), b)
  {
    hide Splice;
    if b == [] {
      assert a + b == a;
    } else {
      ReplayAppend(buf, a, b[..|b| - 1]);
      LastApart(a, b);
    }
  }

  function MaxEnd(rs: seq<Record>): nat {
    if rs == [] then 0 else Max(MaxEnd(rs[..|rs| - 1]), rs[|rs| - 1].End())
  }

  /** The last record that writes byte p. */
  function LastCover(rs: seq<Record>, p: nat): (w: Option<Record>)
    ensures w.Some? ==> w.value.Covers(p) && w.value in rs
  {
    if rs == [] then None
    else if rs[|rs| - 1].Covers(p) then Some(rs[|rs| - 1])
    else LastCover(rs[..|rs| - 1], p)
  }

  /** The byte a record (if any) leaves at p, over the base. */
  function Pick(w: Option<Record>, base: Bytes, p: nat): Byte
    requires w.Some? ==> w.value.Covers(p)
  {
    if w.Some? then w.value.data[p - w.value.offset] else if p < |base| then base[p] else 0
  }

  lemma {:induction false} ReplayBytes(base: Bytes, rs: seq<Record>)
    ensures |Replay(base, rs)| == Max(|base|, MaxEnd(rs))
    ensures forall p | 0 <= p < |Replay(base, rs)| :: Replay(base, rs)[p] == Pick(LastCover(rs, p), base, p)
  {
    if rs != [] {
      var front, r := rs[..|rs| - 1], rs[|rs| - 1];
      ReplayBytes(base, front);
      forall p | 0 <= p < |Replay(base, rs)|
        ensures Replay(base, rs)[p] == Pick(LastCover(rs, p), base, p)
      {
        if !r.Covers(p) && p >= |Replay(base, front)| {
          BeyondEnd(front, p);
        }
      }
    }
  }

  lemma {:induction false} BeyondEnd(rs: seq<Record>, p: nat)
    requires p >= MaxEnd(rs)
    ensures LastCover(rs, p).None?
  {
    if rs != [] { BeyondEnd(rs[..|rs| - 1], p); }
  }

  // ---------------------------------------------------------------------------------------------
  // Write order: a stable sort by sequence number

  function Insert(s: seq<Record>, r: Record): seq<Record> {
    if s == [] || s[|s| - 1].writeSeq <= r.writeSeq then s + [r]
    else Insert(s[..|s| - 1], r) + [s[|s| - 1]]
  }

  function StableSort(log: seq<Record>): seq<Record> {
    if log == [] then [] else Insert(StableSort(log[..|log| - 1]), log[|log| - 1])
  }

  predicate AtMost(rs: seq<Record>, s: nat) { forall i | 0 <= i < |rs| :: rs[i].writeSeq <= s }

  ghost predicate Sorted(rs: seq<Record>) {
    forall i, j | 0 <= i < j < |rs| :: rs[i].writeSeq <= rs[j].writeSeq
  }

  function WithSeq(rs: seq<Record>, s: nat): seq<Record> {
    if rs == [] then []
    else WithSeq(rs[..|rs| - 1], s) + (if rs[|rs| - 1].writeSeq == s then [rs[|rs| - 1]] else [])
  }

  lemma {:induction false} InsertKeepsAll(s: seq<Record>, r: Record)
    ensures multiset(Insert(s, r)) == multiset(s) + multiset{r}
  {
    if s != [] && s[|s| - 1].writeSeq > r.writeSeq {
      InsertKeepsAll(s[..|s| - 1], r);
      assert s == s[..|s| - 1] + [s[|s| - 1]];
    }
  }

  lemma {:induction false} InsertSorts(s: seq<Record>, r: Record)
    requires Sorted(s)
    ensures Sorted(Insert(s, r)) && multiset(Insert(s, r)) == multiset(s) + multiset{r}
  {
    InsertKeepsAll(s, r);
    if s != [] && s[|s| - 1].writeSeq > r.writeSeq {
      var front, x := s[..|s| - 1], s[|s| - 1];
      InsertSorts(front, r);
      var t := Insert(front, r);
      forall i | 0 <= i < |t| ensures t[i].writeSeq <= x.writeSeq {
        assert t[i] in multiset(t);
        assert t[i] in front || t[i] == r;
      }
    }
  }

  lemma WithSeqSnoc(s: seq<Record>, x: Record, q: nat)
    ensures WithSeq(s + [x], q) == if x.writeSeq == q then WithSeq(s, q) + [x] else WithSeq(s, q)
  {
    assert (s + [x])[..|s|] == s;
  }

  lemma InsertCases(s: seq<Record>, r: Record)
    ensures s == [] || s[|s| - 1].writeSeq <= r.writeSeq ==> Insert(s, r) == s + [r]
    ensures s != [] && s[|s| - 1].writeSeq > r.writeSeq ==> Insert(s, r) == Insert(s[..|s| - 1], r) + [s[|s| - 1]]
  {
  }

  lemma {:induction false} InsertKeepsGroups(s: seq<Record>, r: Record, q: nat)
    requires Sorted(s)
    ensures WithSeq(Insert(s, r), q) == WithSeq(s, q) + (if r.writeSeq == q then [r] else [])
  {
    hide Sorted, WithSeq, Insert;
    InsertCases(s, r);
    WithSeqSnoc(s, r, q);
    if s != [] && s[|s| - 1].writeSeq > r.writeSeq {
      var front, x := s[..|s| - 1], s[|s| - 1];
      SortedFront(s);
      InsertKeepsGroups(front, r, q);
      WithSeqSnoc(Insert(front, r), x, q);
      WithSeqSnoc(front, x, q);
      assert front + [x] == s;
    }
  }

  lemma SortedFront(s: seq<Record>)
    requires Sorted(s) && s != []
    ensures Sorted(s[..|s| - 1])
  {
  }

  lemma {:induction false} InsertEnd(s: seq<Record>, r: Record)
    ensures MaxEnd(Insert(s, r)) == Max(MaxEnd(s), r.End())
  {
    if s == [] || s[|s| - 1].writeSeq <= r.writeSeq {
      assert (s + [r])[..|s|] == s;
    } else {
      var t := Insert(s[..|s| - 1], r);
      InsertEnd(s[..|s| - 1], r);
      assert (t + [s[|s| - 1]])[..|t|] == t;
    }
  }

  /** The order of replay: by sequence number, and records of equal number in the order they arrived. */
  lemma {:induction false} StableSortFacts(log: seq<Record>)
    ensures Sorted(StableSort(log)) && multiset(StableSort(log)) == multiset(log)
    ensures forall s :: WithSeq(StableSort(log), s) == WithSeq(log, s)
    ensures MaxEnd(StableSort(log)) == MaxEnd(log)
  {
    hide Sorted, Insert;
    if log == [] {
      assert Sorted([]) by { SortedEmpty(); }
    } else {
      var front, r := log[..|log| - 1], log[|log| - 1];
      StableSortFacts(front);
      InsertSorts(StableSort(front), r);
      InsertEnd(StableSort(front), r);
      assert log == front + [r];
      forall s ensures WithSeq(StableSort(log), s) == WithSeq(log, s) {
        InsertKeepsGroups(StableSort(front), r, s);
      }
    }
  }

  lemma SortedEmpty()
    ensures Sorted([])
  {
  }

  /** The chunk's content: the base with the log replayed over it in write order. */
  function Content(base: Bytes, log: seq<Record>): Bytes { Replay(base, StableSort(log)) }

  // ---------------------------------------------------------------------------------------------
  // What the content is, byte by byte, without sorting anything

  /** Record number i of the log writes byte p, and no record writes it later. */
  ghost predicate LatestAt(log: seq<Record>, i: nat, p: nat)
    requires i < |log|
  {
    && log[i].Covers(p)
    && forall j | 0 <= j < |log| && log[j].Covers(p) ::
         log[j].writeSeq < log[i].writeSeq || (log[j].writeSeq == log[i].writeSeq && j <= i)
  }

  predicate Yields(w: Option<Record>, s: nat) { w.None? || w.value.writeSeq <= s }

  /** The record whose byte is left at p. */
  function Winner(log: seq<Record>, p: nat): (w: Option<Record>)
    ensures w.Some? ==> w.value.Covers(p) && w.value in log
  {
    if log == [] then None
    else
      var w, r := Winner(log[..|log| - 1], p), log[|log| - 1];
      if r.Covers(p) && Yields(w, r.writeSeq) then Some(r) else w
  }

  lemma {:induction false} InsertCover(s: seq<Record>, r: Record, p: nat)
    requires Sorted(s)
    ensures LastCover(Insert(s, r), p) ==
            if r.Covers(p) && Yields(LastCover(s, p), r.writeSeq) then Some(r) else LastCover(s, p)
  {
    if s == [] || s[|s| - 1].writeSeq <= r.writeSeq {
      assert (s + [r])[..|s|] == s;
    } else {
      var t := Insert(s[..|s| - 1], r);
      assert (t + [s[|s| - 1]])[..|t|] == t;
      InsertCover(s[..|s| - 1], r, p);
    }
  }

  lemma {:induction false} SortedCover(log: seq<Record>, p: nat)
    ensures LastCover(StableSort(log), p) == Winner(log, p)
  {
    if log != [] {
      var front := log[..|log| - 1];
      StableSortFacts(front);
      SortedCover(front, p);
      InsertCover(StableSort(front), log[|log| - 1], p);
    }
  }

  lemma ContentBytes(base: Bytes, log: seq<Record>)
    ensures |Content(base, log)| == Max(|base|, MaxEnd(log))
    ensures forall p | 0 <= p < |Content(base, log)| :: Content(base, log)[p] == Pick(Winner(log, p), base, p)
  {
    ReplayBytes(base, StableSort(log));
    StableSortFacts(log);
    forall p | 0 <= p < |Content(base, log)| ensures Content(base, log)[p] == Pick(Winner(log, p), base, p) {
      SortedCover(log, p);
    }
  }

  lemma {:induction false} WinnerIsLatest(log: seq<Record>, p: nat) returns (i: int)
    ensures -1 <= i < |log|
    ensures i < 0 ==> Winner(log, p).None? && forall j | 0 <= j < |log| :: !log[j].Covers(p)
    ensures i >= 0 ==> LatestAt(log, i, p) && Winner(log, p) == Some(log[i])
  {
    if log == [] {
      i := -1;
    } else {
      var front, r := log[..|log| - 1], log[|log| - 1];
      i := WinnerIsLatest(front, p);
      if r.Covers(p) && Yields(Winner(front, p), r.writeSeq) { i := |front|; }
    }
  }

  /** Every byte comes from the latest write to it; bytes nobody wrote keep the base, or are zero past its end. */
  lemma LatestWriteWins(base: Bytes, log: seq<Record>, p: nat)
    requires p < |Content(base, log)|
    ensures forall i: nat | i < |log| && LatestAt(log, i, p) :: Content(base, log)[p] == log[i].data[p - log[i].offset]
    ensures (forall i | 0 <= i < |log| :: !log[i].Covers(p)) ==>
              Content(base, log)[p] == if p < |base| then base[p] else 0
  {
    hide Content, Winner, StableSort;
    ContentBytes(base, log);
    var k := WinnerIsLatest(log, p);
    forall i: nat | i < |log| && LatestAt(log, i, p)
      ensures Content(base, log)[p] == log[i].data[p - log[i].offset]
    {
      if k >= 0 { LatestUnique(log, i, k, p); }
    }
  }

  lemma LatestUnique(log: seq<Record>, i: nat, k: nat, p: nat)
    requires i < |log| && k < |log| && LatestAt(log, i, p) && LatestAt(log, k, p)
    ensures i == k
  {
  }

  // ---------------------------------------------------------------------------------------------
  // Folding: replaying part of the log into a new base

  predicate NoneLater(a: seq<Record>, b: seq<Record>) { forall j | 0 <= j < |b| :: AtMost(a, b[j].writeSeq) }

  lemma {:induction false} InsertBehind(x: seq<Record>, t: seq<Record>, r: Record)
    requires AtMost(x, r.writeSeq)
    ensures Insert(x + t, r) == x + Insert(t, r)
  {
    if t == [] {
      assert x + t == x;
    } else {
      var front := t[..|t| - 1];
      assert (x + t)[..|x + t| - 1] == x + front;
      InsertBehind(x, front, r);
      assert (x + t) + [r] == x + (t + [r]);
    }
  }

  lemma {:induction false} SortSplit(a: seq<Record>, b: seq<Record>)
    requires NoneLater(a, b)
    ensures StableSort(a + b) == StableSort(a) + StableSort(b)
  {
    if b == [] {
      assert a + b == a;
    } else {
      var front, r := b[..|b| - 1], b[|b| - 1];
      SortSplit(a, front);
      assert (a + b)[..|a + b| - 1] == a + front;
      SortedAtMost(a, r.writeSeq);
      InsertBehind(StableSort(a), StableSort(front), r);
    }
  }

  lemma SortedAtMost(a: seq<Record>, s: nat)
    requires AtMost(a, s)
    ensures AtMost(StableSort(a), s)
  {
    StableSortFacts(a);
    var t := StableSort(a);
    forall i | 0 <= i < |t| ensures t[i].writeSeq <= s {
      assert t[i] in multiset(t);
      assert t[i] in a;
    }
  }

  /** Folding a log into the base and patching on changes nothing, if no folded write is later than a new one. */
  lemma FoldKeepsContent(base: Bytes, folded: seq<Record>, log: seq<Record>)
    requires NoneLater(folded, log)
    ensures Content(Content(base, folded), log) == Content(base, folded + log)
  {
    SortSplit(folded, log);
    ReplayAppend(base, StableSort(folded), StableSort(log));
  }

  lemma {:induction false} WinnerOfBoth(a: seq<Record>, b: seq<Record>, p: nat)
    ensures Winner(a + b, p) ==
            var u, v := Winner(a, p), Winner(b, p);
            if v.Some? && Yields(u, v.value.writeSeq) then v else if u.Some? then u else v
  {
    if b == [] {
      assert a + b == a;
    } else {
      WinnerOfBoth(a, b[..|b| - 1], p);
      assert (a + b)[..|a + b| - 1] == a + b[..|b| - 1];
    }
  }

  lemma {:induction false} EndAppend(a: seq<Record>, b: seq<Record>)
    ensures MaxEnd(a + b) == Max(MaxEnd(a), MaxEnd(b))
  {
    if b == [] {
      assert a + b == a;
    } else {
      EndAppend(a, b[..|b| - 1]);
      assert (a + b)[..|a + b| - 1] == a + b[..|b| - 1];
    }
  }

  /** Wherever both have a latest write, the folded one is no later than the logged one, or wrote the same byte. */
  ghost predicate NoneBuried(folded: seq<Record>, log: seq<Record>) {
    forall p: nat | Winner(folded, p).Some? && Winner(log, p).Some? ::
      || Yields(Winner(folded, p), Winner(log, p).value.writeSeq)
      || Pick(Winner(folded, p), [], p) == Pick(Winner(log, p), [], p)
  }

  /** Folding early is right exactly when no later write is buried under the new log. */
  lemma FoldKeepsContentIff(base: Bytes, folded: seq<Record>, log: seq<Record>)
    ensures Content(Content(base, folded), log) == Content(base, folded + log) <==> NoneBuried(folded, log)
  {
    hide Content, StableSort, Winner, MaxEnd;
    var mid := Content(base, folded);
    var early, whole := Content(mid, log), Content(base, folded + log);
    ContentBytes(base, folded);
    ContentBytes(mid, log);
    ContentBytes(base, folded + log);
    EndAppend(folded, log);
    forall p: nat | p < |whole|
      ensures early[p] == Pick(Winner(log, p), mid, p) && whole[p] == Pick(Winner(folded + log, p), base, p)
      ensures p >= |mid| ==> Winner(folded, p).None?
    {
      if p >= |mid| { NobodyBeyond(folded, p); }
    }
    if NoneBuried(folded, log) {
      forall p: nat | p < |whole| ensures early[p] == whole[p] { WinnerOfBoth(folded, log, p); }
      assert early == whole;
    } else {
      var p: nat :| Winner(folded, p).Some? && Winner(log, p).Some? &&
        !Yields(Winner(folded, p), Winner(log, p).value.writeSeq) &&
        Pick(Winner(folded, p), [], p) != Pick(Winner(log, p), [], p);
      WinnerOfBoth(folded, log, p);
      if p >= MaxEnd(folded) { NobodyBeyond(folded, p); }
      assert early[p] != whole[p];
    }
  }

  lemma {:induction false} NobodyBeyond(log: seq<Record>, p: nat)
    requires p >= MaxEnd(log)
    ensures Winner(log, p).None?
  {
    if log != [] { NobodyBeyond(log[..|log| - 1], p); }
  }

  // ---------------------------------------------------------------------------------------------
  // Patches: one client write, several ranges under one sequence number

  datatype Patch = Patch(writeSeq: nat, ranges: seq<(nat, Bytes)>)

  function Records(s: nat, ranges: seq<(nat, Bytes)>): (rs: seq<Record>)
    ensures |rs| == |ranges|
    ensures forall i | 0 <= i < |rs| :: rs[i] == Record(s, ranges[i].0, ranges[i].1)
  {
    if ranges == [] then []
    else
      var last := ranges[|ranges| - 1];
      Records(s, ranges[..|ranges| - 1]) + [Record(s, last.0, last.1)]
  }

  function Of(q: Patch): seq<Record> { Records(q.writeSeq, q.ranges) }

  /** The log of a replica that received these patches in this order. */
  function Log(arrivals: seq<Patch>): seq<Record> {
    if arrivals == [] then [] else Log(arrivals[..|arrivals| - 1]) + Of(arrivals[|arrivals| - 1])
  }

  lemma {:induction false} WinnerOfOne(rs: seq<Record>, s: nat, p: nat)
    requires forall i | 0 <= i < |rs| :: rs[i].writeSeq == s
    ensures Winner(rs, p) == LastCover(rs, p)
    ensures LastCover(rs, p).Some? ==> LastCover(rs, p).value.writeSeq == s
  {
    if rs != [] { WinnerOfOne(rs[..|rs| - 1], s, p); }
  }

  lemma WinnerOfPatch(log: seq<Record>, s: nat, ranges: seq<(nat, Bytes)>, p: nat)
    ensures Winner(log + Records(s, ranges), p) ==
            if LastCover(Records(s, ranges), p).Some? && Yields(Winner(log, p), s) then LastCover(Records(s, ranges), p)
            else Winner(log, p)
  {
    hide Winner, LastCover;
    WinnerOfOne(Records(s, ranges), s, p);
    WinnerOfBoth(log, Records(s, ranges), p);
  }

  /** The patch whose bytes are left at p. */
  function Holder(arrivals: seq<Patch>, p: nat): (h: Option<Patch>)
    ensures h.Some? ==> h.value in arrivals && LastCover(Of(h.value), p).Some?
  {
    if arrivals == [] then None
    else
      var h, q := Holder(arrivals[..|arrivals| - 1], p), arrivals[|arrivals| - 1];
      if LastCover(Of(q), p).Some? && (h.None? || h.value.writeSeq <= q.writeSeq) then Some(q) else h
  }

  lemma {:induction false} WinnerOfHolder(arrivals: seq<Patch>, p: nat)
    ensures Winner(Log(arrivals), p) ==
            var h := Holder(arrivals, p); if h.Some? then LastCover(Of(h.value), p) else None
  {
    if arrivals != [] {
      var front, q := arrivals[..|arrivals| - 1], arrivals[|arrivals| - 1];
      WinnerOfHolder(front, p);
      WinnerOfPatch(Log(front), q.writeSeq, q.ranges, p);
    }
  }

  lemma {:induction false} HolderIsLatest(arrivals: seq<Patch>, p: nat)
    ensures forall q | q in arrivals && LastCover(Of(q), p).Some? ::
      Holder(arrivals, p).Some? && q.writeSeq <= Holder(arrivals, p).value.writeSeq
  {
    hide LastCover, Records;
    if arrivals != [] {
      var front, last := arrivals[..|arrivals| - 1], arrivals[|arrivals| - 1];
      HolderIsLatest(front, p);
      forall q | q in arrivals && LastCover(Of(q), p).Some?
        ensures Holder(arrivals, p).Some? && q.writeSeq <= Holder(arrivals, p).value.writeSeq
      {
        assert q in front || q == last;
      }
    }
  }

  lemma {:induction false} EndCovers(rs: seq<Record>, r: Record)
    requires r in rs
    ensures r.End() <= MaxEnd(rs)
  {
    if r != rs[|rs| - 1] { EndCovers(rs[..|rs| - 1], r); }
  }

  lemma {:induction false} EndBounded(rs: seq<Record>, bound: nat)
    requires forall i | 0 <= i < |rs| :: rs[i].End() <= bound
    ensures MaxEnd(rs) <= bound
  {
    if rs != [] { EndBounded(rs[..|rs| - 1], bound); }
  }

  lemma {:induction false} LogHolds(arrivals: seq<Patch>, r: Record)
    ensures r in Log(arrivals) <==> exists q | q in arrivals :: r in Of(q)
  {
    if arrivals != [] {
      var front, last := arrivals[..|arrivals| - 1], arrivals[|arrivals| - 1];
      LogHolds(front, r);
      assert arrivals == front + [last];
    }
  }

  lemma EndOfSame(a: seq<Patch>, b: seq<Patch>)
    requires forall q | q in a :: q in b
    ensures MaxEnd(Log(a)) <= MaxEnd(Log(b))
  {
    forall i | 0 <= i < |Log(a)| ensures Log(a)[i].End() <= MaxEnd(Log(b)) {
      LogHolds(a, Log(a)[i]);
      LogHolds(b, Log(a)[i]);
      EndCovers(Log(b), Log(a)[i]);
    }
    EndBounded(Log(a), MaxEnd(Log(b)));
  }

  /** A sequence number names one patch. */
  ghost predicate OnePatchPerSeq(arrivals: seq<Patch>) {
    forall x, y | x in arrivals && y in arrivals && x.writeSeq == y.writeSeq :: x == y
  }

  ghost predicate SamePatches(a: seq<Patch>, b: seq<Patch>) {
    forall q :: q in a <==> q in b
  }

  /** Replicas that received the same patches hold the same bytes, in whatever order and however often resent. */
  lemma ReplicasConverge(base: Bytes, a: seq<Patch>, b: seq<Patch>)
    requires SamePatches(a, b) && OnePatchPerSeq(a)
    ensures Content(base, Log(a)) == Content(base, Log(b))
  {
    EndOfSame(a, b);
    EndOfSame(b, a);
    ContentBytes(base, Log(a));
    ContentBytes(base, Log(b));
    forall p | 0 <= p < |Content(base, Log(a))|
      ensures Content(base, Log(a))[p] == Content(base, Log(b))[p]
    {
      HolderIsLatest(a, p);
      HolderIsLatest(b, p);
      WinnerOfHolder(a, p);
      WinnerOfHolder(b, p);
    }
  }

  // ---------------------------------------------------------------------------------------------
  // Two writes in both orders

  ghost predicate Agree(x: Record, y: Record) {
    forall p: nat | x.Covers(p) && y.Covers(p) :: x.data[p - x.offset] == y.data[p - y.offset]
  }

  /** The one of two records that is left at p, the second arriving last. */
  function Second(x: Record, y: Record, p: nat): (w: Option<Record>)
    ensures w.Some? ==> w.value.Covers(p)
  {
    if y.Covers(p) && (x.Covers(p) ==> x.writeSeq <= y.writeSeq) then Some(y)
    else if x.Covers(p) then Some(x) else None
  }

  lemma TwoBytes(base: Bytes, x: Record, y: Record)
    ensures |Content(base, [x, y])| == Max(|base|, Max(x.End(), y.End()))
    ensures forall p | 0 <= p < |Content(base, [x, y])| :: Content(base, [x, y])[p] == Pick(Second(x, y, p), base, p)
  {
    hide Content;
    ContentBytes(base, [x, y]);
    assert [x, y][..1] == [x] && [x][..0] == [];
    assert MaxEnd([x]) == Max(MaxEnd([]), x.End());
    forall p | 0 <= p < |Content(base, [x, y])| ensures Winner([x, y], p) == Second(x, y, p) {
      assert Winner([x], p) == if x.Covers(p) then Some(x) else None;
    }
  }

  /** Two writes give the same bytes in either order exactly when they are numbered apart or agree where they meet. */
  lemma BothOrdersAgreeIff(base: Bytes, x: Record, y: Record)
    ensures Content(base, [x, y]) == Content(base, [y, x]) <==> x.writeSeq != y.writeSeq || Agree(x, y)
  {
    hide Content;
    TwoBytes(base, x, y);
    TwoBytes(base, y, x);
    var c, d := Content(base, [x, y]), Content(base, [y, x]);
    if x.writeSeq != y.writeSeq || Agree(x, y) {
      forall p: nat | p < |c| ensures c[p] == d[p] {
        assert Pick(Second(x, y, p), base, p) == Pick(Second(y, x, p), base, p);
      }
      assert c == d;
    } else {
      var p: nat :| x.Covers(p) && y.Covers(p) && x.data[p - x.offset] != y.data[p - y.offset];
      assert c[p] == Pick(Second(x, y, p), base, p) && d[p] == Pick(Second(y, x, p), base, p);
    }
  }
}
