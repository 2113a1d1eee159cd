/** The append-only file a chunk's pending patches are kept in. */
module DeltaFormat {
  import opened Basics
  import opened PatchReplay

  const MAGIC: nat := 0xD15A_FEED_C0FF_EE02

  // ---------------------------------------------------------------------------------------------
  // Little-endian numbers of a fixed width

  function Range(width: nat): nat { if width == 0 then 1 else 256 * Range(width - 1) }

  function Le(n: nat, width: nat): (b: Bytes)
    ensures |b| == width
  {
    if width == 0 then [] else [n % 256] + Le(n / 256, width - 1)
  }

  function FromLe(b: Bytes): nat {
    if b == [] then 0 else b[0] + 256 * FromLe(b[1..])
  }

  lemma {:induction false} LeRoundTrip(n: nat, width: nat)
    requires n < Range(width)
    ensures FromLe(Le(n, width)) == n
  {
    if width > 0 {
      LeRoundTrip(n / 256, width - 1);
      assert Le(n, width)[1..] == Le(n / 256, width - 1);
    }
  }

  lemma {:induction false} FromLeRoundTrip(b: Bytes)
    ensures FromLe(b) < Range(|b|) && Le(FromLe(b), |b|) == b
  {
    if b != [] {
      FromLeRoundTrip(b[1..]);
      var low: nat, high := b[0], FromLe(b[1..]);
      assert (low + 256 * high) % 256 == low && (low + 256 * high) / 256 == high;
    }
  }

  lemma MagicFits()
    ensures MAGIC < Range(8) && FromLe(Le(MAGIC, 8)) == MAGIC
  {
    assert Range(2) == 0x1_0000 && Range(4) == 0x1_0000_0000;
    assert Range(6) == 0x1_0000_0000_0000 && Range(8) == 0x1_0000_0000_0000_0000;
    LeRoundTrip(MAGIC, 8);
  }

  // ---------------------------------------------------------------------------------------------
  // Records. The older format has no sequence number; its records all count as number 0.

  function HeaderSize(legacy: bool): nat { if legacy then 12 else 20 }

  /** The length is written in 32 bits, whatever it is. */
  function Encode(r: Record, legacy: bool): Bytes {
    (if legacy then [] else Le(r.writeSeq, 8)) + Le(r.offset, 8) + Le(|r.data|, 4) + r.data
  }

  function EncodeAll(log: seq<Record>, legacy: bool): Bytes {
    if log == [] then [] else Encode(log[0], legacy) + EncodeAll(log[1..], legacy)
  }

  predicate Fits(r: Record, legacy: bool) {
    && r.offset < Range(8) && |r.data| < Range(4)
    && if legacy then r.writeSeq == 0 else r.writeSeq < Range(8)
  }

  predicate AllFit(log: seq<Record>, legacy: bool) { forall i | 0 <= i < |log| :: Fits(log[i], legacy) }

  /** The record at the front and what follows it, or None if it is cut short. */
  function ReadOne(b: Bytes, legacy: bool): (r: Option<(Record, Bytes)>)
    ensures r.Some? ==> |r.value.1| < |b|
  {
    var h := HeaderSize(legacy);
    if |b| < h then None
    else
      var len := FromLe(b[h - 4..h]);
      if |b| < h + len then None
      else Some((Record(if legacy then 0 else FromLe(b[..8]), FromLe(b[h - 12..h - 4]), b[h..h + len]), b[h + len..]))
  }

  /** All records, in the order they were appended. */
  function ReadLog(b: Bytes, legacy: bool): Option<seq<Record>>
    decreases |b|
  {
    if b == [] then Some([])
    else
      var one := ReadOne(b, legacy);
      if one.None? then None
      else
        var rest := ReadLog(one.value.1, legacy);
        if rest.None? then None else Some([one.value.0] + rest.value)
  }

  lemma ReadEncoded(r: Record, legacy: bool, rest: Bytes)
    requires Fits(r, legacy)
    ensures ReadOne(Encode(r, legacy) + rest, legacy) == Some((r, rest))
  {
    hide Le, FromLe, Range;
    var b, h := Encode(r, legacy) + rest, HeaderSize(legacy);
    LeRoundTrip(r.offset, 8);
    LeRoundTrip(|r.data|, 4);
    if !legacy { LeRoundTrip(r.writeSeq, 8); }
    assert b[h - 4..h] == Le(|r.data|, 4);
    assert b[h - 12..h - 4] == Le(r.offset, 8);
    assert legacy || b[..8] == Le(r.writeSeq, 8);
    assert b[h..h + |r.data|] == r.data && b[h + |r.data|..] == rest;
  }

  lemma EncodeRead(b: Bytes, legacy: bool)
    requires ReadOne(b, legacy).Some?
    ensures var (r, rest) := ReadOne(b, legacy).value; Fits(r, legacy) && Encode(r, legacy) + rest == b
  {
    hide Le, FromLe, Range;
    var h := HeaderSize(legacy);
    FromLeRoundTrip(b[h - 4..h]);
    FromLeRoundTrip(b[h - 12..h - 4]);
    if !legacy { FromLeRoundTrip(b[..8]); }
    var len := FromLe(b[h - 4..h]);
    assert b == b[..h - 12] + b[h - 12..h - 4] + b[h - 4..h] + b[h..h + len] + b[h + len..];
  }

  /** Reading succeeds on exactly the bytes some records encode to, and returns those records. */
  lemma {:induction false} ReadsExactlyEncodings(b: Bytes, legacy: bool, log: seq<Record>)
    ensures ReadLog(b, legacy) == Some(log) <==> AllFit(log, legacy) && EncodeAll(log, legacy) == b
    decreases |b|
  {
    hide Range, Encode;
    if b == [] {
      if log != [] { EncodeNonempty(log[0], legacy); }
    } else {
      if ReadLog(b, legacy) == Some(log) {
        EncodeRead(b, legacy);
        var (r, rest) := ReadOne(b, legacy).value;
        assert log[0] == r && ReadLog(rest, legacy) == Some(log[1..]);
        ReadsExactlyEncodings(rest, legacy, log[1..]);
        AllFitCons(log, legacy);
      }
      if AllFit(log, legacy) && EncodeAll(log, legacy) == b {
        var rest := EncodeAll(log[1..], legacy);
        ReadEncoded(log[0], legacy, rest);
        ReadsExactlyEncodings(rest, legacy, log[1..]);
        assert [log[0]] + log[1..] == log;
      }
    }
  }

  lemma EncodeNonempty(r: Record, legacy: bool)
    ensures |Encode(r, legacy)| == HeaderSize(legacy) + |r.data|
  {
  }

  lemma AllFitCons(log: seq<Record>, legacy: bool)
    requires log != [] && Fits(log[0], legacy) && AllFit(log[1..], legacy)
    ensures AllFit(log, legacy)
  {
    forall i | 0 <= i < |log| ensures Fits(log[i], legacy) {
      if i > 0 { assert log[i] == log[1..][i - 1]; }
    }
  }

  lemma {:induction false} EncodeAppend(a: seq<Record>, b: seq<Record>, legacy: bool)
    ensures EncodeAll(a + b, legacy) == EncodeAll(a, legacy) + EncodeAll(b, legacy)
  {
    hide Encode;
    if a == [] {
      assert a + b == b;
    } else {
      EncodeAppend(a[1..], b, legacy);
      assert (a + b)[1..] == a[1..] + b && (a + b)[0] == a[0];
    }
  }

  // ---------------------------------------------------------------------------------------------
  // Files

  predicate IsLegacy(file: Bytes) { |file| < 8 || FromLe(file[..8]) != MAGIC }

  function Parse(file: Bytes): Option<seq<Record>> {
    if IsLegacy(file) then ReadLog(file, true) else ReadLog(file[8..], false)
  }

  /** A file in the current format. */
  function FileOf(log: seq<Record>): Bytes { Le(MAGIC, 8) + EncodeAll(log, false) }

  lemma FileParses(log: seq<Record>)
    requires AllFit(log, false)
    ensures !IsLegacy(FileOf(log)) && Parse(FileOf(log)) == Some(log)
  {
    hide ReadLog, EncodeAll, FromLe, Le;
    MagicFits();
    ReadsExactlyEncodings(EncodeAll(log, false), false, log);
    assert FileOf(log)[..8] == Le(MAGIC, 8) && FileOf(log)[8..] == EncodeAll(log, false);
  }

  lemma FileAppend(log: seq<Record>, more: seq<Record>)
    ensures FileOf(log) + EncodeAll(more, false) == FileOf(log + more)
  {
    hide EncodeAll, Le;
    EncodeAppend(log, more, false);
  }

  /** Writing a file and appending to it gives back every record in order. */
  lemma FileRoundTrip(log: seq<Record>, more: seq<Record>)
    requires AllFit(log, false) && AllFit(more, false)
    ensures !IsLegacy(FileOf(log)) && Parse(FileOf(log)) == Some(log)
    ensures Parse(FileOf(log) + EncodeAll(more, false)) == Some(log + more)
  {
    hide Parse, IsLegacy, EncodeAll, Le;
    FileParses(log);
    FileParses(log + more);
    FileAppend(log, more);
  }

  /** An older file is told apart, and read back, unless its first offset is the magic number. */
  lemma LegacyToldApartIff(log: seq<Record>)
    requires AllFit(log, true)
    ensures IsLegacy(EncodeAll(log, true)) <==> log == [] || log[0].offset != MAGIC
    ensures log == [] || log[0].offset != MAGIC ==> Parse(EncodeAll(log, true)) == Some(log)
  {
    hide ReadLog, FromLe, Le;
    ReadsExactlyEncodings(EncodeAll(log, true), true, log);
    if log != [] {
      assert EncodeAll(log, true)[..8] == Le(log[0].offset, 8);
      LeRoundTrip(log[0].offset, 8);
    }
  }

  /** Records without numbers are replayed as they arrived. */
  lemma {:induction false} LegacyKeepsArrivalOrder(log: seq<Record>)
    requires AllFit(log, true)
    ensures StableSort(log) == log
  {
    if log != [] { LegacyKeepsArrivalOrder(log[..|log| - 1]); }
  }

  // ---------------------------------------------------------------------------------------------
  // Appends cut short

  lemma {:induction false} ReadAfter(log: seq<Record>, legacy: bool, rest: Bytes)
    requires AllFit(log, legacy)
    ensures ReadLog(EncodeAll(log, legacy) + rest, legacy) == Prepend(log, ReadLog(rest, legacy))
  {
    hide Range, Encode, ReadOne;
    if log == [] {
      assert EncodeAll(log, legacy) + rest == rest;
      PrependNone(ReadLog(rest, legacy));
    } else {
      var tail := EncodeAll(log[1..], legacy) + rest;
      ReadAfter(log[1..], legacy, rest);
      ReadEncoded(log[0], legacy, tail);
      EncodeNonempty(log[0], legacy);
      assert EncodeAll(log, legacy) + rest == Encode(log[0], legacy) + tail;
      PrependMore([], log[0], ReadLog(tail, legacy));
      if ReadLog(rest, legacy).Some? {
        assert log + ReadLog(rest, legacy).value == [log[0]] + (log[1..] + ReadLog(rest, legacy).value);
      }
    }
  }

  /** The first k bytes of these records' encoding are those of the first j records. */
  predicate EndsAt(rs: seq<Record>, legacy: bool, k: nat, j: nat) {
    j <= |rs| && k == |EncodeAll(rs[..j], legacy)|
  }

  /** A record that is not all there cannot be read. */
  lemma CutShort(r: Record, legacy: bool, rest: Bytes, k: nat)
    requires Fits(r, legacy) && k < |Encode(r, legacy)|
    ensures ReadOne((Encode(r, legacy) + rest)[..k], legacy) == None
  {
    hide Le, FromLe, Range;
    var b, h := Encode(r, legacy) + rest, HeaderSize(legacy);
    if k >= h {
      LeRoundTrip(|r.data|, 4);
      assert b[h - 4..h] == Le(|r.data|, 4);
      assert b[..k][h - 4..h] == b[h - 4..h];
    }
  }

  lemma {:induction false} EncodedEnds(rs: seq<Record>, legacy: bool, j: nat)
    requires rs != [] && 0 < j <= |rs|
    ensures |EncodeAll(rs[..j], legacy)| == |Encode(rs[0], legacy)| + |EncodeAll(rs[1..][..j - 1], legacy)|
  {
    assert rs[..j][1..] == rs[1..][..j - 1];
  }

  /** A cut encoding can be read exactly when the cut falls between records. */
  lemma {:induction false} ReadsPrefixIff(rs: seq<Record>, legacy: bool, k: nat)
    requires AllFit(rs, legacy) && k <= |EncodeAll(rs, legacy)|
    ensures ReadLog(EncodeAll(rs, legacy)[..k], legacy).Some? <==> exists j: nat :: EndsAt(rs, legacy, k, j)
    decreases |rs|, 1
  {
    hide Range, Encode, ReadOne;
    var b := EncodeAll(rs, legacy)[..k];
    if k == 0 {
      assert rs[..0] == [] && EndsAt(rs, legacy, 0, 0);
    } else {
      var one, tail := Encode(rs[0], legacy), EncodeAll(rs[1..], legacy);
      EncodeNonempty(rs[0], legacy);
      if k < |one| {
        CutShort(rs[0], legacy, tail, k);
        forall j: nat | 0 < j <= |rs| ensures !EndsAt(rs, legacy, k, j) { EncodedEnds(rs, legacy, j); }
        assert rs[..0] == [] && !EndsAt(rs, legacy, k, 0);
      } else {
        CutLater(rs, legacy, k);
      }
    }
  }

  lemma {:induction false} CutLater(rs: seq<Record>, legacy: bool, k: nat)
    requires AllFit(rs, legacy) && rs != [] && |Encode(rs[0], legacy)| <= k <= |EncodeAll(rs, legacy)|
    ensures ReadLog(EncodeAll(rs, legacy)[..k], legacy).Some? <==> exists j: nat :: EndsAt(rs, legacy, k, j)
    decreases |rs|, 0
  {
    hide Range, Encode, ReadOne;
    var one, tail := Encode(rs[0], legacy), EncodeAll(rs[1..], legacy);
    var rest := k - |one|;
    ReadsPrefixIff(rs[1..], legacy, rest);
    assert EncodeAll(rs, legacy)[..k] == one + tail[..rest];
    ReadEncoded(rs[0], legacy, tail[..rest]);
    EncodeNonempty(rs[0], legacy);
    if j: nat :| EndsAt(rs[1..], legacy, rest, j) {
      EncodedEnds(rs, legacy, j + 1);
      assert EndsAt(rs, legacy, k, j + 1);
    }
    if j: nat :| EndsAt(rs, legacy, k, j) {
      assert j > 0 by { assert rs[..0] == []; }
      EncodedEnds(rs, legacy, j);
      assert EndsAt(rs[1..], legacy, rest, j - 1);
    }
  }

  // ---------------------------------------------------------------------------------------------
  // The loops

  method ReadRecords(bytes: Bytes, legacy: bool) returns (log: Option<seq<Record>>)
    ensures log == ReadLog(bytes, legacy)
  {
    hide FromLe, ReadOne;
    var records: seq<Record> := [];
    var pos := 0;
    var h := HeaderSize(legacy);
    assert bytes[0..] == bytes;
    PrependNone(ReadLog(bytes, legacy));
    while pos < |bytes|
      invariant 0 <= pos <= |bytes|
      invariant ReadLog(bytes, legacy) == Prepend(records, ReadLog(bytes[pos..], legacy))
    {
      ReadAt(bytes, pos, legacy);
      if pos + h > |bytes| { return None; }
      var s := if legacy then 0 else FromLe(bytes[pos..pos + 8]);
      var offset := FromLe(bytes[pos + h - 12..pos + h - 4]);
      var len := FromLe(bytes[pos + h - 4..pos + h]);
      if pos + h + len > |bytes| { return None; }
      var r := Record(s, offset, bytes[pos + h..pos + h + len]);
      PrependMore(records, r, ReadLog(bytes[pos + h + len..], legacy));
      records := records + [r];
      pos := pos + h + len;
    }
    assert records + [] == records;
    return Some(records);
  }

  lemma ReadAt(bytes: Bytes, pos: nat, legacy: bool)
    requires pos <= |bytes|
    ensures var h := HeaderSize(legacy);
            if pos + h > |bytes| then ReadOne(bytes[pos..], legacy) == None
            else
              var len := FromLe(bytes[pos + h - 4..pos + h]);
              if pos + h + len > |bytes| then ReadOne(bytes[pos..], legacy) == None
              else ReadOne(bytes[pos..], legacy) ==
                   Some((Record(if legacy then 0 else FromLe(bytes[pos..pos + 8]),
                                FromLe(bytes[pos + h - 12..pos + h - 4]), bytes[pos + h..pos + h + len]),
                         bytes[pos + h + len..]))
  {
    hide FromLe;
    var b, h := bytes[pos..], HeaderSize(legacy);
    if pos + h <= |bytes| {
      assert b[h - 4..h] == bytes[pos + h - 4..pos + h] && b[h - 12..h - 4] == bytes[pos + h - 12..pos + h - 4];
      assert legacy || b[..8] == bytes[pos..pos + 8];
      var len := FromLe(b[h - 4..h]);
      if pos + h + len <= |bytes| {
        assert b[h..h + len] == bytes[pos + h..pos + h + len] && b[h + len..] == bytes[pos + h + len..];
      }
    }
  }

  ghost function Prepend(a: seq<Record>, b: Option<seq<Record>>): Option<seq<Record>> {
    if b.None? then None else Some(a + b.value)
  }

  lemma PrependNone(b: Option<seq<Record>>)
    ensures Prepend([], b) == b
  {
    if b.Some? { assert [] + b.value == b.value; }
  }

  lemma PrependMore(a: seq<Record>, r: Record, b: Option<seq<Record>>)
    ensures Prepend(a + [r], b) == Prepend(a, Prepend([r], b))
  {
    if b.Some? { assert a + [r] + b.value == a + ([r] + b.value); }
  }

  method ParseDeltaRecords(file: Bytes) returns (r: Option<seq<Record>>)
    ensures r == if Parse(file).None? then None else Some(StableSort(Parse(file).value))
  {
    var legacy := IsLegacy(file);
    var log := ReadRecords(if legacy then file else file[8..], legacy);
    if log.None? { return None; }
    if legacy {
      ReadsExactlyEncodings(file, true, log.value);
      LegacyKeepsArrivalOrder(log.value);
      return log;
    }
    return Some(StableSort(log.value));
  }

  /** The highest sequence number in the file, if it has any. */
  method MaxSeqInDeltaRecords(file: Bytes) returns (m: Option<nat>)
    ensures m.Some? <==> !IsLegacy(file) && Parse(file).Some? && Parse(file).value != []
    ensures m.Some? ==> AtMost(Parse(file).value, m.value)
    ensures m.Some? ==> exists r :: r in Parse(file).value && r.writeSeq == m.value
  {
    if IsLegacy(file) { return None; }
    var log := ReadRecords(file[8..], false);
    if log.None? { return None; }
    m := None;
    for i := 0 to |log.value|
      invariant m.Some? <==> i > 0
      invariant m.Some? ==> AtMost(log.value[..i], m.value)
      invariant m.Some? ==> exists j: nat :: j < i && log.value[j].writeSeq == m.value
    {
      var s := log.value[i].writeSeq;
      m := Some(if m.None? then s else Max(m.value, s));
    }
  }

  method CopyIn(buf: Bytes, r: Record) returns (out: Bytes)
    ensures out == Splice(buf, r)
  {
    var grown := buf;
    if r.End() > |buf| { grown := buf + seq(r.End() - |buf|, _ => 0); }
    out := grown[..r.offset] + r.data + grown[r.End()..];
  }

  /** Replays a file onto the base content. */
  method ComposePatch(base: Bytes, file: Bytes) returns (content: Option<Bytes>)
    ensures content == if Parse(file).None? then None else Some(Content(base, Parse(file).value))
  {
    var records := ParseDeltaRecords(file);
    if records.None? { return None; }
    hide StableSort, Parse, Replay;
    var rs := records.value;
    var buf := base;
    ReplayNone(base, rs);
    for i := 0 to |rs|
      invariant buf == Replay(base, rs[..i])
    {
      buf := CopyIn(buf, rs[i]);
      ReplayNext(base, rs, i);
    }
    assert rs[..|rs|] == rs;
    return Some(buf);
  }
}
