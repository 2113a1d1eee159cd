/** The object that takes patches in: its file on disk, and the content it keeps in memory. */
module PatchAccumulator {
  import opened Basics
  import opened PatchReplay
  import opened PatchSlot
  import opened DeltaFormat

  lemma GrowFirst(buf: Bytes, r: Record, len: nat)
    requires r.End() <= len
    ensures Splice(Grow(buf, len), r) == Grow(Splice(buf, r), len)
  {
  }

  /** Makes room for every record at once, then copies them in. */
  method Materialize(base: Bytes, rs: seq<Record>) returns (buf: Bytes)
    ensures buf == Replay(base, rs)
  {
    var needed := |base|;
    for i := 0 to |rs|
      invariant needed == Max(|base|, MaxEnd(rs[..i]))
    {
      needed := Max(needed, rs[i].End());
      assert rs[..i + 1][..i] == rs[..i];
    }
    assert rs[..|rs|] == rs;
    buf := Grow(base, needed);
    for i := 0 to |rs|
      invariant buf == Grow(Replay(base, rs[..i]), needed)
    {
      EndCovers(rs, rs[i]);
      GrowFirst(Replay(base, rs[..i]), rs[i], needed);
      ReplayNext(base, rs, i);
      buf := CopyIn(buf, rs[i]);
    }
    ReplayBytes(base, rs);
  }

  method IsNoop(buf: Bytes, ranges: seq<(nat, Bytes)>) returns (same: bool)
    ensures same == ChangesNothing(buf, ranges)
  {
    for i := 0 to |ranges|
      invariant ChangesNothing(buf, ranges[..i])
    {
      var end := ranges[i].0 + |ranges[i].1|;
      if end > |buf| || buf[ranges[i].0..end] != ranges[i].1 { return false; }
    }
    return true;
  }

  predicate PatchFits(q: Patch) {
    && q.writeSeq < Range(8)
    && forall i | 0 <= i < |q.ranges| :: q.ranges[i].0 < Range(8) && |q.ranges[i].1| < Range(4)
  }

  lemma {:induction false} MaxSeqIs(log: seq<Record>, m: nat)
    requires log != [] && AtMost(log, m) && exists r :: r in log && r.writeSeq == m
    ensures MaxSeq(log) == m
  {
    var r :| r in log && r.writeSeq == m;
    var front, last := log[..|log| - 1], log[|log| - 1];
    if |log| > 1 {
      if r in front {
        MaxSeqIs(front, m);
      } else {
        assert r == last;
        MaxSeqAtMost(front, m);
      }
    }
  }

  lemma {:induction false} MaxSeqAtMost(log: seq<Record>, m: nat)
    requires log != [] && AtMost(log, m)
    ensures MaxSeq(log) <= m
  {
    if |log| > 1 { MaxSeqAtMost(log[..|log| - 1], m); }
  }

  /** A file in the given format, as appends leave it. */
  function Encoded(log: seq<Record>, legacy: bool): Bytes {
    if legacy then EncodeAll(log, true) else FileOf(log)
  }

  ghost predicate Intact(file: Bytes, log: seq<Record>, legacy: bool) {
    && file == Encoded(log, legacy) && AllFit(log, legacy)
    && (legacy ==> log != [] && log[0].offset != MAGIC)
  }

  lemma IntactParses(file: Bytes, log: seq<Record>, legacy: bool)
    requires Intact(file, log, legacy)
    ensures Parse(file) == Some(log) && IsLegacy(file) == legacy
  {
    if legacy { LegacyToldApartIff(log); } else { FileParses(log); }
  }

  /** The older format has no place for the number. */
  function Stamp(q: Patch, legacy: bool): Patch { if legacy then q.(writeSeq := 0) else q }

  lemma PatchRecordsFit(q: Patch, legacy: bool)
    requires PatchFits(q)
    ensures AllFit(Of(Stamp(q, legacy)), legacy)
  {
    hide Range;
  }

  lemma AppendIntact(file: Bytes, log: seq<Record>, rs: seq<Record>, legacy: bool)
    requires Intact(file, log, legacy) && AllFit(rs, legacy)
    ensures Intact(file + EncodeAll(rs, legacy), log + rs, legacy)
  {
    hide EncodeAll, Le, Range;
    if legacy { EncodeAppend(log, rs, true); } else { FileAppend(log, rs); }
  }

  lemma FreshIntact(rs: seq<Record>)
    requires AllFit(rs, false)
    ensures Intact(Le(MAGIC, 8) + EncodeAll(rs, false), rs, false)
  {
  }

  /**
   * What a merge's writes came to: all done; nothing written; only the first k bytes appended (all of them, if the
   * rename is what failed); or appended and renamed, but then not flushed or not recorded under the new name.
   */
  datatype Write = Full | Refused | Torn(k: nat) | NotRecorded

  /** After an append cut short, the file can be read exactly when the cut falls between records. */
  lemma TornReadsIff(file: Bytes, log: seq<Record>, rs: seq<Record>, legacy: bool, k: nat)
    requires Intact(file, log, legacy) && AllFit(rs, legacy) && k <= |EncodeAll(rs, legacy)|
    ensures Parse(file + EncodeAll(rs, legacy)[..k]).Some? <==> exists j: nat :: EndsAt(rs, legacy, k, j)
  {
    hide Le, ReadLog, FromLe, AllFit;
    var cut := EncodeAll(rs, legacy)[..k];
    IntactParses(file, log, legacy);
    ReadAfter(log, legacy, cut);
    ReadsPrefixIff(rs, legacy, k);
    if legacy {
      assert |file| >= 8 by { FirstIsWhole(log); }
      assert (file + cut)[..8] == file[..8];
    } else {
      assert (file + cut)[..8] == file[..8] && (file + cut)[8..] == EncodeAll(log, false) + cut;
    }
  }

  /** A single record cut anywhere inside takes every earlier record down with it. */
  lemma TornRecordIsUnreadable(file: Bytes, log: seq<Record>, r: Record, legacy: bool, k: nat)
    requires Intact(file, log, legacy) && Fits(r, legacy) && 0 < k < |Encode(r, legacy)|
    ensures Parse(file + Encode(r, legacy)[..k]) == None
  {
    hide Parse, Encode, Intact, Fits, Range;
    var rs := [r];
    assert rs[1..] == [] && EncodeAll([], legacy) == [];
    assert EncodeAll(rs, legacy) == Encode(r, legacy) + [] == Encode(r, legacy);
    TornReadsIff(file, log, rs, legacy, k);
    forall j: nat ensures !EndsAt(rs, legacy, k, j) {
      assert rs[..0] == [] && rs[..1] == rs;
    }
  }

  lemma FirstIsWhole(log: seq<Record>)
    requires log != []
    ensures |EncodeAll(log, true)| >= 12
  {
  }

  lemma ColdIsWarm(s: Slot)
    ensures Warm(s.(cache := None))
  {
  }

  datatype Answer = Dropped | Logged | Failed

  type Name = nat

  /** Whether the log of a slot recorded under `name` can still be read after a failed merge. */
  ghost predicate Survives(w: Write, rs: seq<Record>, legacy: bool, name: Name, next: Name) {
    match w
    case Torn(k) => exists j: nat :: EndsAt(rs, legacy, Min(k, |EncodeAll(rs, legacy)|), j)
    case NotRecorded => next == name
    case _ => true
  }

  class Accumulator {
    const base: Bytes
    const legacy: bool
    /** The files of this slot by name, and the name its patch state records. */
    var files: map<Name, Bytes>
    var recorded: Option<Name>
    var ring: Option<Bytes>
    var ringSeq: nat

    function File(): Option<Bytes>
      reads this
    {
      if recorded.Some? && recorded.value in files then Some(files[recorded.value]) else None
    }

    /** Everything appended so far. */
    function Log(): seq<Record>
      reads this
    {
      if File().Some? && Parse(File().value).Some? then Parse(File().value).value else []
    }

    function AsSlot(): Slot
      reads this
    {
      Slot(base, Log(), if ring.Some? then Some(Cache(ring.value, ringSeq)) else None)
    }

    ghost predicate Valid()
      reads this
    {
      && (recorded.Some? ==> File().Some? && Intact(File().value, Log(), legacy))
      && (legacy || ring.Some? ==> recorded.Some?)
      && (legacy ==> ring.None?)
      && Warm(AsSlot())
    }

    /** The recorded file is there and can be read, if any is recorded. */
    ghost predicate Readable()
      reads this
    {
      recorded.Some? ==> File().Some? && Parse(File().value).Some?
    }

    /** The slot records a file that is not there. */
    ghost predicate Missing()
      reads this
    {
      recorded.Some? && File().None?
    }

    ghost predicate Lost()
      reads this
    {
      Missing() && ring.None?
    }

    constructor (base: Bytes)
      ensures Valid() && AsSlot() == Slot(base, [], None) && !legacy && recorded == None
    {
      this.base := base;
      files, recorded, ring, ringSeq, legacy := map[], None, None, 0, false;
    }

    /** Takes up a file found on disk, in whichever format it is. */
    constructor Resume(base: Bytes, name: Name, file: Bytes, ghost log: seq<Record>, ghost was: bool)
      requires Intact(file, log, was)
      ensures Valid() && AsSlot() == Slot(base, log, None) && legacy == was
    {
      IntactParses(file, log, was);
      this.base := base;
      files, recorded, ring, ringSeq, legacy := map[name := file], Some(name), None, 0, IsLegacy(file);
    }

    /** What a patch is compared with: taken from memory, or rebuilt from the file; nothing if it has no numbers. */
    method TakeBaseline() returns (b: Option<Cache>)
      requires Valid() || Lost()
      ensures b == if legacy || Lost() then None else Baseline(AsSlot())
    {
      if ring.Some? { return Some(Cache(ring.value, ringSeq)); }
      if recorded.None? || recorded.value !in files { return None; }
      var file := files[recorded.value];
      IntactParses(file, Log(), legacy);
      var rs := ParseDeltaRecords(file);
      var m := MaxSeqInDeltaRecords(file);
      if m.None? { return None; }
      MaxSeqIs(Log(), m.value);
      var buf := Materialize(base, rs.value);
      return Some(Cache(buf, m.value));
    }

    /** Appends to the recorded file, renames it and records the new name, or starts a file under that name. */
    method Append(rs: seq<Record>, next: Name, w: Write) returns (ok: bool)
      modifies this`files, this`recorded
      ensures ok == (w.Full? && !old(Missing()))
      ensures ok ==> recorded == Some(next) && File().Some?
      ensures ok && old(recorded).None? ==> File().value == Le(MAGIC, 8) + EncodeAll(rs, legacy)
      ensures ok && old(recorded).Some? ==> File().value == old(File()).value + EncodeAll(rs, legacy)
      ensures !ok ==> recorded == old(recorded)
      ensures !ok && (w.Refused? || recorded.None?) ==> File() == old(File())
      ensures old(Missing()) ==> files == old(files)
      ensures !old(Missing()) && recorded.Some? && w.Torn? ==>
                File() == Some(old(File()).value + EncodeAll(rs, legacy)[..Min(w.k, |EncodeAll(rs, legacy)|)])
      ensures !old(Missing()) && recorded.Some? && w.NotRecorded? ==>
                File() == if next == recorded.value then Some(old(File()).value + EncodeAll(rs, legacy)) else None
    {
      var bytes := EncodeAll(rs, legacy);
      if recorded.None? {
        if w.Full? || w.NotRecorded? { files := files[next := Le(MAGIC, 8) + bytes]; }
        if w.Full? { recorded := Some(next); }
        return w.Full?;
      }
      var name := recorded.value;
      if name !in files || w.Refused? { return false; }
      if w.Torn? {
        files := files[name := files[name] + bytes[..Min(w.k, |bytes|)]];
        return false;
      }
      files := (files - {name})[next := files[name] + bytes];
      if w.Full? { recorded := Some(next); }
      return w.Full?;
    }

    /** Logs a patch, with the cache already given up. */
    method LogPatch(q: Patch, next: Name, w: Write) returns (ok: bool)
      requires (Valid() || Lost()) && ring.None? && PatchFits(q)
      modifies this`files, this`recorded
      ensures ok == (w.Full? && !old(Missing()))
      ensures ok ==> Valid() && Log() == old(Log()) + Of(Stamp(q, legacy)) && recorded == Some(next)
      ensures !ok ==> recorded == old(recorded)
      ensures old(Missing()) ==> Missing() && files == old(files)
      ensures !ok && !old(Missing()) ==>
                (Readable() <==> recorded.None? || Survives(w, Of(Stamp(q, legacy)), legacy, recorded.value, next))
      ensures !ok && !old(Missing()) && (w.Refused? || recorded.None?) ==> Valid() && Log() == old(Log())
      ensures !ok && !old(Missing()) && w.NotRecorded? && recorded.Some? ==>
                if next == recorded.value then Valid() && Log() == old(Log()) + Of(Stamp(q, legacy)) else Missing()
    {
      hide Parse, AllFit, Records, Warm, Intact, EncodeAll, EndsAt, Le;
      ghost var s, was, log := AsSlot(), File(), Log();
      var rs := Of(Stamp(q, legacy));
      PatchRecordsFit(q, legacy);
      EmptyLeft(rs);
      if was.Some? { MergedFile(was.value, log, rs, legacy, w); } else if recorded.None? { FreshFile(rs); }
      ColdIsWarm(s);
      ColdIsWarm(s.(log := log + rs));
      ok := Append(rs, next, w);
    }

    /**
     * Takes in one patch: drops it if it changes nothing, else logs it under a new name, or fails if the writes do.
     * After a failure the log can be read exactly when the failed write lets it survive; a lost one stays lost.
     */
    method MergePatch(q: Patch, next: Name, w: Write) returns (r: Answer)
      requires (Valid() || Lost()) && PatchFits(q)
      modifies this
      ensures old(Lost()) ==> r.Failed? && Lost() && files == old(files)
      ensures !old(Lost()) ==>
                r == if Skips(old(AsSlot()), Stamp(q, legacy)) then Dropped else if w.Full? then Logged else Failed
      ensures !r.Failed? ==> Valid() && AsSlot() == Merge(old(AsSlot()), Stamp(q, legacy))
      ensures r.Logged? ==> Log() == old(Log()) + Records(if legacy then 0 else q.writeSeq, q.ranges)
      ensures r.Dropped? ==> Log() == old(Log()) && files == old(files)
      ensures r.Failed? ==> recorded == old(recorded) && ring.None?
      ensures !old(Lost()) && r.Failed? ==>
                (Readable() <==> recorded.None? || Survives(w, Of(Stamp(q, legacy)), legacy, recorded.value, next))
      ensures !old(Lost()) && r.Failed? && (w.Refused? || recorded.None?) ==>
                Valid() && AsSlot() == old(AsSlot()).(cache := None)
      ensures !old(Lost()) && r.Failed? && w.NotRecorded? && recorded.Some? ==>
                if next == recorded.value then Valid() && Log() == old(Log()) + Of(Stamp(q, legacy)) else Lost()
    {
      hide Parse, Content, Replay, Records, ChangesNothing, Warm, AtMost, Intact, Survives;
      var p := Stamp(q, legacy);
      ghost var s := AsSlot();
      ColdIsWarm(s);
      MergeKeepsWarm(s, p);
      LegacyNeverSkips(s, q);
      var b := TakeBaseline();
      ring := None;
      var pending: Option<Bytes> := None;
      if b.Some? && p.writeSeq > b.value.maxSeq {
        var same := IsNoop(b.value.buf, p.ranges);
        if same {
          ring, ringSeq := Some(b.value.buf), p.writeSeq;
          return Dropped;
        }
        var buf := Materialize(b.value.buf, Of(p));
        pending := Some(buf);
      }
      var ok := LogPatch(q, next, w);
      if !ok { return Failed; }
      ring := pending;
      if pending.Some? { ringSeq := p.writeSeq; }
      return Logged;
    }
  }

  /** What the old file becomes: whole after a full append, and after a torn one readable as TornReadsIff says. */
  lemma MergedFile(file: Bytes, log: seq<Record>, rs: seq<Record>, legacy: bool, w: Write)
    requires Intact(file, log, legacy) && AllFit(rs, legacy)
    ensures var all := file + EncodeAll(rs, legacy); Intact(all, log + rs, legacy) && Parse(all) == Some(log + rs)
    ensures Parse(file) == Some(log)
    ensures w.Torn? ==>
              var k := Min(w.k, |EncodeAll(rs, legacy)|);
              Parse(file + EncodeAll(rs, legacy)[..k]).Some? <==> exists j: nat :: EndsAt(rs, legacy, k, j)
  {
    hide Intact, AllFit, Parse, EncodeAll, EndsAt;
    AppendIntact(file, log, rs, legacy);
    IntactParses(file, log, legacy);
    IntactParses(file + EncodeAll(rs, legacy), log + rs, legacy);
    if w.Torn? { TornReadsIff(file, log, rs, legacy, Min(w.k, |EncodeAll(rs, legacy)|)); }
  }

  lemma FreshFile(rs: seq<Record>)
    requires AllFit(rs, false)
    ensures var all := Le(MAGIC, 8) + EncodeAll(rs, false); Intact(all, rs, false) && Parse(all) == Some(rs)
  {
    hide Intact, AllFit, Parse, EncodeAll, Le;
    FreshIntact(rs);
    IntactParses(Le(MAGIC, 8) + EncodeAll(rs, false), rs, false);
  }

  /** A patch without a number is never above what is logged. */
  lemma LegacyNeverSkips(s: Slot, q: Patch)
    ensures var p := Stamp(q, true); !Skips(s, p) && Merge(s, p) == s.(log := s.log + Of(p), cache := None)
  {
  }
}
