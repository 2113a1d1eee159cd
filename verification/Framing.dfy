/** Wire framing between nodes and clients: length-prefixed envelopes, some followed by a raw payload. */
module Framing {
  import opened Basics

  const U32_RANGE: nat := 0x1_0000_0000

  // ---------------------------------------------------------------------------------------------
  // Messages

  type Patch = (nat, Bytes)

  /** The message kinds the framing layer looks into, and everything else. */
  datatype Message =
    | ChunkData(chunkId: nat, data: Bytes, cacheStats: Option<(nat, nat, nat)>)
    | WriteFileLocalOnly(data: Bytes, fileOffset: nat, fileId: nat)
    | MultiPatch(patchedId: nat, patches: seq<Patch>, meta: Bytes)
    | Other(body: Bytes)

  datatype Envelope = Envelope(requestId: nat, message: Message)

  /** The serializer, taken as given: decoding inverts encoding. */
  datatype Codec = Codec(enc: Envelope -> Bytes, dec: Bytes -> Option<Envelope>)

  ghost predicate Lossless(c: Codec) { forall e :: c.dec(c.enc(e)) == Some(e) }

  // ---------------------------------------------------------------------------------------------
  // 32-bit big-endian lengths; longer lengths are cut to 32 bits

  function Be32(n: nat): (r: Bytes)
    ensures |r| == 4
  {
    var a, b, c := n / 256, n / 256 / 256, n / 256 / 256 / 256;
    [c % 256, b % 256, a % 256, n % 256]
  }

  function FromBe32(b: Bytes): nat
    requires |b| >= 4
  {
    var w: nat, x: nat, y: nat, z: nat := b[0], b[1], b[2], b[3];
    ((w * 256 + x) * 256 + y) * 256 + z
  }

  lemma Be32RoundTrip(n: nat, rest: Bytes)
    requires n < U32_RANGE
    ensures FromBe32(Be32(n) + rest) == n
  {
    var a, b, c := n / 256, n / 256 / 256, n / 256 / 256 / 256;
    assert c < 256 && b == c * 256 + b % 256 && a == b * 256 + a % 256 && n == a * 256 + n % 256;
  }

  /** [length][body] */
  function Prefixed(b: Bytes): Bytes { Be32(|b|) + b }

  // ---------------------------------------------------------------------------------------------
  // Reference parser over all the bytes of a connection

  predicate AllEmpty(ps: seq<Patch>) { forall i | 0 <= i < |ps| :: ps[i].1 == [] }

  /** An envelope of this shape announces a raw payload right behind it. */
  predicate IsStub(m: Message) {
    match m
    case ChunkData(_, data, _) => data == []
    case WriteFileLocalOnly(data, _, _) => data == []
    case MultiPatch(_, patches, _) => patches != [] && AllEmpty(patches)
    case Other(_) => false
  }

  /** A length-prefixed block at the front, or None if it is not all there. */
  function TakeBlock(b: Bytes): (r: Option<(Bytes, Bytes)>)
    ensures r.Some? ==> |r.value.1| + 4 <= |b|
  {
    if |b| < 4 then None
    else
      var n := FromBe32(b);
      if |b| < 4 + n then None else Some((b[4..4 + n], b[4 + n..]))
  }

  /** Deals the payload out to the patches in order. */
  function FillPatches(ps: seq<Patch>, raw: Bytes): (r: Option<seq<Patch>>)
    ensures r.Some? ==> |r.value| == |ps|
    decreases |ps|
  {
    if ps == [] then Some([])
    else
      var block := TakeBlock(raw);
      if block.None? then None
      else
        var rest := FillPatches(ps[1..], block.value.1);
        if rest.None? then None else Some([(ps[0].0, block.value.0)] + rest.value)
  }

  function Fill(m: Message, raw: Bytes): Option<Message>
    requires IsStub(m)
  {
    match m
    case ChunkData(id, _, stats) => Some(ChunkData(id, raw, stats))
    case WriteFileLocalOnly(_, off, fid) => Some(WriteFileLocalOnly(raw, off, fid))
    case MultiPatch(id, patches, meta) =>
      var filled := FillPatches(patches, raw);
      if filled.None? then None else Some(MultiPatch(id, filled.value, meta))
  }

  datatype Parsed = Done(envelope: Envelope, rest: Bytes) | NeedMore | Bad

  function ParseTail(e: Envelope, rest: Bytes): (r: Parsed)
    ensures r.Done? ==> |r.rest| <= |rest|
  {
    if !IsStub(e.message) then Done(e, rest)
    else
      var payload := TakeBlock(rest);
      if payload.None? then NeedMore
      else
        var m := Fill(e.message, payload.value.0);
        if m.None? then Bad else Done(e.(message := m.value), payload.value.1)
  }

  function Parse(c: Codec, b: Bytes): (r: Parsed)
    ensures r.Done? ==> |r.rest| < |b|
  {
    var frame := TakeBlock(b);
    if frame.None? then NeedMore
    else
      var e := c.dec(frame.value.0);
      if e.None? then Bad else ParseTail(e.value, frame.value.1)
  }

  /** All messages up to the end of the stream, and whether it ended cleanly between messages. */
  function ParseAll(c: Codec, b: Bytes): (seq<Envelope>, bool)
    decreases |b|
  {
    if b == [] then ([], true)
    else
      var p := Parse(c, b);
      if !p.Done? then ([], false)
      else
        var (es, clean) := ParseAll(c, p.rest);
        ([p.envelope] + es, clean)
  }

  // ---------------------------------------------------------------------------------------------
  // The writers

  datatype Sent =
    | Reply(requestId: nat, chunkId: nat, data: Bytes, cacheStats: Option<(nat, nat, nat)>, arc: Option<Bytes>,
            range: Option<(nat, nat)>)
    | Inline(envelope: Envelope)
    | SplitWrite(requestId: nat, data: Bytes, fileOffset: nat, fileId: nat)
    | SplitPatch(requestId: nat, patchedId: nat, patches: seq<Patch>, meta: Bytes)

  /** A slice outside the shared buffer would abort the writer. */
  predicate SliceFits(s: Sent) {
    s.Reply? && s.arc.Some? && s.range.Some? ==> s.range.value.0 <= s.range.value.1 <= |s.arc.value|
  }

  function ReplyPayload(s: Sent): Bytes
    requires s.Reply? && SliceFits(s)
  {
    if s.arc.None? then s.data
    else if s.range.None? then s.arc.value
    else s.arc.value[s.range.value.0..s.range.value.1]
  }

  function Emptied(ps: seq<Patch>): (r: seq<Patch>)
    ensures |r| == |ps| && AllEmpty(r) && forall i | 0 <= i < |ps| :: r[i].0 == ps[i].0
  {
    seq(|ps|, i requires 0 <= i < |ps| => (ps[i].0, []))
  }

  function RawPatches(ps: seq<Patch>): Bytes {
    if ps == [] then [] else Prefixed(ps[0].1) + RawPatches(ps[1..])
  }

  function Stub(s: Sent): Envelope {
    match s
    case Reply(rid, id, _, stats, _, _) => Envelope(rid, ChunkData(id, [], stats))
    case Inline(e) => e
    case SplitWrite(rid, _, off, fid) => Envelope(rid, WriteFileLocalOnly([], off, fid))
    case SplitPatch(rid, id, ps, meta) => Envelope(rid, MultiPatch(id, Emptied(ps), meta))
  }

  function Payload(s: Sent): Bytes
    requires SliceFits(s)
  {
    match s
    case Reply(_, _, _, _, _, _) => ReplyPayload(s)
    case Inline(_) => []
    case SplitWrite(_, data, _, _) => data
    case SplitPatch(_, _, ps, _) => RawPatches(ps)
  }

  function Wire(c: Codec, s: Sent): Bytes
    requires SliceFits(s)
  {
    Prefixed(c.enc(Stub(s))) + (if s.Inline? then [] else Prefixed(Payload(s)))
  }

  /** What the receiver should end up with. */
  function Meaning(s: Sent): Envelope
    requires SliceFits(s)
  {
    match s
    case Reply(rid, id, _, stats, _, _) => Envelope(rid, ChunkData(id, ReplyPayload(s), stats))
    case Inline(e) => e
    case SplitWrite(rid, data, off, fid) => Envelope(rid, WriteFileLocalOnly(data, off, fid))
    case SplitPatch(rid, id, ps, meta) => Envelope(rid, MultiPatch(id, ps, meta))
  }

  /** Every length written fits its 32-bit field. */
  predicate Fits(c: Codec, s: Sent) {
    SliceFits(s) && |c.enc(Stub(s))| < U32_RANGE && |Payload(s)| < U32_RANGE
  }

  /** Inline messages that look like stubs, and split patch lists that do not. */
  predicate Ambiguous(s: Sent) {
    (s.Inline? && IsStub(s.envelope.message)) || (s.SplitPatch? && s.patches == [])
  }

  // ---------------------------------------------------------------------------------------------
  // Round trip

  lemma TakePrefixed(b: Bytes, rest: Bytes)
    requires |b| < U32_RANGE
    ensures TakeBlock(Prefixed(b) + rest) == Some((b, rest))
  {
    Be32RoundTrip(|b|, b + rest);
    var all := Prefixed(b) + rest;
    assert all == Be32(|b|) + (b + rest);
    assert all[4..4 + |b|] == b && all[4 + |b|..] == rest;
  }

  lemma {:induction false} FillPatchesRoundTrip(ps: seq<Patch>)
    requires |RawPatches(ps)| < U32_RANGE
    ensures FillPatches(Emptied(ps), RawPatches(ps)) == Some(ps)
  {
    hide Be32, FromBe32, TakeBlock;
    if ps != [] {
      var rest := RawPatches(ps[1..]);
      FillPatchesRoundTrip(ps[1..]);
      assert Emptied(ps)[1..] == Emptied(ps[1..]);
      TakePrefixed(ps[0].1, rest);
      assert [ps[0]] + ps[1..] == ps;
    }
  }

  lemma TailRoundTrip(s: Sent, rest: Bytes)
    requires SliceFits(s) && |Payload(s)| < U32_RANGE && !Ambiguous(s)
    ensures ParseTail(Stub(s), (if s.Inline? then [] else Prefixed(Payload(s))) + rest) == Done(Meaning(s), rest)
  {
    if s.Inline? {
      assert [] + rest == rest;
    } else {
      TakePrefixed(Payload(s), rest);
      if s.SplitPatch? { FillPatchesRoundTrip(s.patches); }
    }
  }

  lemma ParseWire(c: Codec, s: Sent, rest: Bytes)
    requires Lossless(c) && Fits(c, s)
    ensures Parse(c, Wire(c, s) + rest) == ParseTail(Stub(s), (if s.Inline? then [] else Prefixed(Payload(s))) + rest)
  {
    var frame, tail := c.enc(Stub(s)), (if s.Inline? then [] else Prefixed(Payload(s))) + rest;
    assert Wire(c, s) + rest == Prefixed(frame) + tail;
    TakePrefixed(frame, tail);
  }

  /** A sent message survives whatever follows it on the wire exactly when its shape is not ambiguous. */
  lemma RoundTripsExactly(c: Codec, s: Sent)
    requires Lossless(c) && Fits(c, s)
    ensures (forall rest :: Parse(c, Wire(c, s) + rest) == Done(Meaning(s), rest)) <==> !Ambiguous(s)
  {
    forall rest ensures !Ambiguous(s) ==> Parse(c, Wire(c, s) + rest) == Done(Meaning(s), rest) {
      ParseWire(c, s, rest);
      if !Ambiguous(s) { TailRoundTrip(s, rest); }
    }
    if Ambiguous(s) {
      ParseWire(c, s, []);
      AmbiguousTail(s);
    }
  }

  /** What a receiver should get of a message, in the sender's own fields. */
  ghost predicate Conveys(s: Sent, e: Envelope)
    requires SliceFits(s)
  {
    match s
    case Reply(rid, id, data, stats, arc, range) =>
      && e.requestId == rid && e.message.ChunkData? && e.message.chunkId == id && e.message.cacheStats == stats
      && (arc.None? ==> e.message.data == data)
      && (arc.Some? && range.None? ==> e.message.data == arc.value)
      && (arc.Some? && range.Some? ==> IsSlice(e.message.data, arc.value, range.value.0, range.value.1))
    case Inline(inner) => e == inner
    case SplitWrite(rid, data, off, fid) => e == Envelope(rid, WriteFileLocalOnly(data, off, fid))
    case SplitPatch(rid, id, ps, meta) => e == Envelope(rid, MultiPatch(id, ps, meta))
  }

  ghost predicate IsSlice(part: Bytes, whole: Bytes, i: nat, j: nat)
    requires i <= j <= |whole|
  {
    |part| == j - i && forall k | 0 <= k < j - i :: part[k] == whole[i + k]
  }

  /** The receiver gets the chunk, write or patches the sender was given: of a shared buffer, all of it or the slice. */
  lemma Arrives(c: Codec, s: Sent, rest: Bytes)
    requires Lossless(c) && Fits(c, s) && !Ambiguous(s)
    ensures var p := Parse(c, Wire(c, s) + rest); p.Done? && p.rest == rest && Conveys(s, p.envelope)
  {
    RoundTripsExactly(c, s);
    assert Conveys(s, Meaning(s));
  }

  /** A message sent inline survives exactly when it is plain or brings some bytes of its own. */
  lemma InlineArrivesIff(c: Codec, e: Envelope)
    requires Lossless(c) && |c.enc(e)| < U32_RANGE
    ensures (forall rest :: Parse(c, Wire(c, Inline(e)) + rest) == Done(e, rest)) <==>
              match e.message
              case ChunkData(_, data, _) => data != []
              case WriteFileLocalOnly(data, _, _) => data != []
              case MultiPatch(_, patches, _) => patches == [] || exists i :: 0 <= i < |patches| && patches[i].1 != []
              case Other(_) => true
  {
    RoundTripsExactly(c, Inline(e));
  }

  /** A write of no bytes, sent inline, leaves its reader waiting for a payload that never comes. */
  lemma EmptyWriteWaits(c: Codec, requestId: nat, fileOffset: nat, fileId: nat)
    requires Lossless(c)
    requires |c.enc(Envelope(requestId, WriteFileLocalOnly([], fileOffset, fileId)))| < U32_RANGE
    ensures Parse(c, Wire(c, Inline(Envelope(requestId, WriteFileLocalOnly([], fileOffset, fileId))))) == NeedMore
  {
    var s := Inline(Envelope(requestId, WriteFileLocalOnly([], fileOffset, fileId)));
    ParseWire(c, s, []);
    assert Wire(c, s) + [] == Wire(c, s);
  }

  lemma AmbiguousTail(s: Sent)
    requires SliceFits(s) && Ambiguous(s)
    ensures ParseTail(Stub(s), (if s.Inline? then [] else Prefixed(Payload(s))) + []) != Done(Meaning(s), [])
  {
    if s.SplitPatch? {
      assert !IsStub(Stub(s).message);
      assert |Prefixed(Payload(s)) + []| == 4;
    }
  }

  predicate AllSlicesFit(ss: seq<Sent>) { forall i | 0 <= i < |ss| :: SliceFits(ss[i]) }

  predicate AllSendable(c: Codec, ss: seq<Sent>) {
    forall i | 0 <= i < |ss| :: Fits(c, ss[i]) && !Ambiguous(ss[i])
  }

  function WireAll(c: Codec, ss: seq<Sent>): Bytes
    requires AllSlicesFit(ss)
  {
    if ss == [] then [] else Wire(c, ss[0]) + WireAll(c, ss[1..])
  }

  function Meanings(ss: seq<Sent>): (r: seq<Envelope>)
    requires AllSlicesFit(ss)
  {
    seq(|ss|, i requires 0 <= i < |ss| => Meaning(ss[i]))
  }

  lemma {:induction false} StreamRoundTrip(c: Codec, ss: seq<Sent>)
    requires Lossless(c) && AllSendable(c, ss)
    ensures AllSlicesFit(ss)
    ensures ParseAll(c, WireAll(c, ss)) == (Meanings(ss), true)
  {
    hide Wire, Meaning, Parse, Ambiguous;
    if ss == [] {
      assert Meanings(ss) == [];
    } else {
      StreamRoundTrip(c, ss[1..]);
      FirstRoundTrip(c, ss[0], WireAll(c, ss[1..]));
      assert Meanings(ss) == [Meaning(ss[0])] + Meanings(ss[1..]);
    }
  }

  /** The first message of a stream is read off its front. */
  lemma FirstRoundTrip(c: Codec, s: Sent, rest: Bytes)
    requires Lossless(c) && Fits(c, s) && !Ambiguous(s)
    ensures Parse(c, Wire(c, s) + rest) == Done(Meaning(s), rest) && Wire(c, s) != []
  {
    RoundTripsExactly(c, s);
  }

  lemma CutBlock(b: Bytes, rest: Bytes, k: nat)
    requires |b| < U32_RANGE && k <= |Prefixed(b) + rest|
    ensures TakeBlock((Prefixed(b) + rest)[..k]) == if k < 4 + |b| then None else Some((b, rest[..k - 4 - |b|]))
  {
    hide FromBe32;
    var all, n := Prefixed(b) + rest, 4 + |b|;
    if k >= n {
      assert all[..k] == Prefixed(b) + rest[..k - n];
      TakePrefixed(b, rest[..k - n]);
    } else if k >= 4 {
      assert all[..k] == Be32(|b|) + b[..k - 4];
      Be32RoundTrip(|b|, b[..k - 4]);
    }
  }

  /** A message cut anywhere inside leaves its reader waiting. */
  lemma CutMessageWaits(c: Codec, s: Sent, k: nat)
    requires Lossless(c) && Fits(c, s) && !Ambiguous(s) && k < |Wire(c, s)|
    ensures Parse(c, Wire(c, s)[..k]) == NeedMore
  {
    hide Be32, FromBe32, TakeBlock;
    var frame, tail := c.enc(Stub(s)), (if s.Inline? then [] else Prefixed(Payload(s)));
    CutBlock(frame, tail, k);
    if k >= 4 + |frame| {
      assert tail + [] == tail;
      CutBlock(Payload(s), [], k - 4 - |frame|);
    }
  }

  /** Whole messages end at byte k of their stream. */
  ghost predicate EndsAt(c: Codec, ss: seq<Sent>, k: nat)
    requires AllSlicesFit(ss)
    decreases |ss|
  {
    k == 0 || (ss != [] && k >= |Wire(c, ss[0])| && EndsAt(c, ss[1..], k - |Wire(c, ss[0])|))
  }

  /** A stream that breaks off yields the whole messages before the break, and ends cleanly only between messages. */
  lemma {:induction false} CutStream(c: Codec, ss: seq<Sent>, k: nat)
    requires Lossless(c) && AllSendable(c, ss) && AllSlicesFit(ss) && k <= |WireAll(c, ss)|
    ensures var (es, clean) := ParseAll(c, WireAll(c, ss)[..k]);
      es <= Meanings(ss) && (clean <==> EndsAt(c, ss, k)) && (k == |WireAll(c, ss)| ==> es == Meanings(ss))
    decreases |ss|
  {
    hide Wire, Meaning, Parse, Ambiguous;
    var cut := WireAll(c, ss)[..k];
    if k == 0 {
      assert cut == [];
      if ss != [] { FirstRoundTrip(c, ss[0], []); }
    } else {
      var n, rest := |Wire(c, ss[0])|, WireAll(c, ss[1..]);
      if k < n {
        assert cut == Wire(c, ss[0])[..k];
        CutMessageWaits(c, ss[0], k);
      } else {
        assert cut == Wire(c, ss[0]) + rest[..k - n];
        FirstRoundTrip(c, ss[0], rest[..k - n]);
        CutStream(c, ss[1..], k - n);
        assert Meanings(ss) == [Meaning(ss[0])] + Meanings(ss[1..]);
      }
    }
  }

  // ---------------------------------------------------------------------------------------------
  // The incremental reader: bytes arrive in fragments of any size

  function Concat(fs: seq<Bytes>): Bytes {
    if fs == [] then [] else fs[0] + Concat(fs[1..])
  }

  datatype ReadResult = Received(envelope: Envelope) | Closed | Failed

  /** What one read must return, given every byte the peer will still send. */
  function ReadSpec(c: Codec, unread: Bytes): ReadResult {
    if unread == [] then Closed
    else match Parse(c, unread)
      case Done(e, _) => Received(e)
      case _ => Failed
  }

  class Connection {
    var pending: seq<Bytes>
    var buf: Bytes

    ghost predicate Valid()
      reads this
    {
      forall i | 0 <= i < |pending| :: pending[i] != []
    }

    ghost function Unread(): Bytes
      reads this
    {
      buf + Concat(pending)
    }

    constructor (fragments: seq<Bytes>)
      requires forall i | 0 <= i < |fragments| :: fragments[i] != []
      ensures Valid() && Unread() == Concat(fragments)
    {
      pending, buf := fragments, [];
    }

    /** One socket read: appends the next fragment, or returns 0 at the end of the stream. */
    method ReadBuf() returns (n: nat)
      requires Valid()
      modifies this
      ensures Valid() && Unread() == old(Unread())
      ensures n == 0 ==> Unread() == buf == old(buf)
      ensures n > 0 ==> |pending| < |old(pending)|
    {
      if pending == [] {
        return 0;
      }
      n := |pending[0]|;
      assert buf + (pending[0] + Concat(pending[1..])) == (buf + pending[0]) + Concat(pending[1..]);
      buf, pending := buf + pending[0], pending[1..];
    }

    /** Reads until k bytes are buffered; fails only if the stream ends first. */
    method Await(k: nat) returns (ok: bool)
      requires Valid()
      modifies this
      ensures Valid() && Unread() == old(Unread())
      ensures ok == (k <= |Unread()|)
      ensures ok ==> k <= |buf|
    {
      while |buf| < k
        invariant Valid() && Unread() == old(Unread())
        decreases |pending|
      {
        var n := ReadBuf();
        if n == 0 {
          return false;
        }
      }
      return true;
    }

    /** The raw payload behind a split-frame envelope: its length, then that many bytes. */
    method ReadPayload() returns (payload: Option<Bytes>)
      requires Valid()
      modifies this
      ensures Valid()
      ensures payload.None? <==> TakeBlock(old(Unread())).None?
      ensures payload.Some? ==> TakeBlock(old(Unread())) == Some((payload.value, Unread()))
    {
      ghost var all := Unread();
      var ok := Await(4);
      if !ok {
        return None;
      }
      var plen := FromBe32(buf);
      assert FromBe32(buf) == FromBe32(all);
      buf := buf[4..];
      assert Unread() == all[4..];
      ok := Await(plen);
      if !ok {
        return None;
      }
      payload := Some(buf[..plen]);
      assert buf[..plen] == all[4..][..plen] == all[4..4 + plen];
      buf := buf[plen..];
      assert Unread() == all[4..][plen..] == all[4 + plen..];
    }

    /** Reads one message; the buffer and the stream keep exactly the bytes behind it. */
    method ReadMessage(c: Codec) returns (r: ReadResult)
      requires Valid()
      modifies this
      ensures Valid() && r == ReadSpec(c, old(Unread()))
      ensures r.Received? ==> Parse(c, old(Unread())) == Done(r.envelope, Unread())
      ensures r.Closed? ==> Unread() == []
    {
      ghost var all := Unread();
      while true
        invariant Valid() && Unread() == all
        decreases |pending|
      {
        if |buf| >= 4 {
          var length := FromBe32(buf);
          assert FromBe32(buf) == FromBe32(all);
          if |buf| >= 4 + length {
            var bytes := buf[4..4 + length];
            assert bytes == all[4..4 + length];
            buf := buf[4 + length..];
            assert Unread() == all[4 + length..];
            var decoded := c.dec(bytes);
            if decoded.None? {
              return Failed;
            }
            r := Finish(decoded.value);
            return;
          }
        }
        var n := ReadBuf();
        if n == 0 {
          if buf == [] {
            return Closed;
          }
          return Failed;
        }
      }
    }

    /** Drains the payload of a split-frame message, then hands the message over. */
    method Finish(e: Envelope) returns (r: ReadResult)
      requires Valid()
      modifies this
      ensures Valid()
      ensures match ParseTail(e, old(Unread()))
        case Done(f, rest) => r == Received(f) && Unread() == rest
        case _ => r == Failed
    {
      if !IsStub(e.message) {
        return Received(e);
      }
      var payload := ReadPayload();
      if payload.None? {
        return Failed;
      }
      match e.message
      case ChunkData(id, _, stats) =>
        return Received(e.(message := ChunkData(id, payload.value, stats)));
      case WriteFileLocalOnly(_, off, fid) =>
        return Received(e.(message := WriteFileLocalOnly(payload.value, off, fid)));
      case MultiPatch(id, patches, meta) =>
        var filled := DealPatches(patches, payload.value);
        if filled.None? {
          return Failed;
        }
        return Received(e.(message := MultiPatch(id, filled.value, meta)));
    }

    /** Every message until the stream ends, whatever fragments it arrived in. */
    method ReadAll(c: Codec) returns (received: seq<Envelope>, clean: bool)
      requires Valid()
      modifies this
      ensures (received, clean) == ParseAll(c, old(Unread()))
    {
      hide Parse, Concat;
      ghost var all := Unread();
      received := [];
      assert [] + ParseAll(c, all).0 == ParseAll(c, all).0;
      while true
        invariant Valid()
        invariant var (es, ok) := ParseAll(c, Unread()); ParseAll(c, all) == (received + es, ok)
        decreases |Unread()|
      {
        var r := ReadMessage(c);
        match r
        case Received(e) =>
          assert received + ([e] + ParseAll(c, Unread()).0) == (received + [e]) + ParseAll(c, Unread()).0;
          received := received + [e];
        case Closed =>
          assert received + [] == received;
          return received, true;
        case Failed =>
          assert received + [] == received;
          return received, false;
      }
    }
  }

  function Before(out: seq<Patch>, more: Option<seq<Patch>>): Option<seq<Patch>> {
    if more.None? then None else Some(out + more.value)
  }

  lemma TakeBlockAt(raw: Bytes, pos: nat)
    requires pos + 4 <= |raw|
    ensures FromBe32(raw[pos..]) == FromBe32(raw[pos..pos + 4])
    ensures var n := FromBe32(raw[pos..pos + 4]);
      TakeBlock(raw[pos..]) ==
        if pos + 4 + n > |raw| then None else Some((raw[pos + 4..pos + 4 + n], raw[pos + 4 + n..]))
  {
    var n := FromBe32(raw[pos..]);
    if pos + 4 + n <= |raw| {
      assert raw[pos..][4..4 + n] == raw[pos + 4..pos + 4 + n];
      assert raw[pos..][4 + n..] == raw[pos + 4 + n..];
    }
  }

  lemma FillNext(out: seq<Patch>, ps: seq<Patch>, k: nat, raw: Bytes)
    requires k < |ps|
    ensures Before(out, FillPatches(ps[k..], raw)) == match TakeBlock(raw)
      case None => None
      case Some(block) => Before(out + [(ps[k].0, block.0)], FillPatches(ps[k + 1..], block.1))
  {
    assert ps[k..][1..] == ps[k + 1..];
    var block := TakeBlock(raw);
    if block.Some? {
      var more := FillPatches(ps[k + 1..], block.value.1);
      if more.Some? {
        var next := (ps[k].0, block.value.0);
        assert out + ([next] + more.value) == (out + [next]) + more.value;
      }
    }
  }

  /** Walks the payload once, filling each patch in turn. */
  method DealPatches(ps: seq<Patch>, raw: Bytes) returns (r: Option<seq<Patch>>)
    ensures r == FillPatches(ps, raw)
  {
    hide TakeBlock, FromBe32;
    var out: seq<Patch>, pos, k := [], 0, 0;
    assert raw[0..] == raw && ps[0..] == ps;
    assert FillPatches(ps, raw).Some? ==> [] + FillPatches(ps, raw).value == FillPatches(ps, raw).value;
    while k < |ps|
      invariant 0 <= k <= |ps| && 0 <= pos <= |raw|
      invariant FillPatches(ps, raw) == Before(out, FillPatches(ps[k..], raw[pos..]))
    {
      FillNext(out, ps, k, raw[pos..]);
      if pos + 4 > |raw| {
        ShortBlock(raw[pos..]);
        return None;
      }
      var dlen := FromBe32(raw[pos..pos + 4]);
      TakeBlockAt(raw, pos);
      if pos + 4 + dlen > |raw| {
        return None;
      }
      out := out + [(ps[k].0, raw[pos + 4..pos + 4 + dlen])];
      pos := pos + 4 + dlen;
      k := k + 1;
    }
    assert out + [] == out;
    return Some(out);
  }

  lemma ShortBlock(b: Bytes)
    ensures |b| < 4 ==> TakeBlock(b).None?
  {
  }

  /** End to end: any fragmentation of the messages' bytes is received as those messages, in order. */
  method Deliver(c: Codec, ss: seq<Sent>, fragments: seq<Bytes>) returns (received: seq<Envelope>, clean: bool)
    requires Lossless(c) && AllSendable(c, ss) && AllSlicesFit(ss)
    requires Concat(fragments) == WireAll(c, ss) && forall i | 0 <= i < |fragments| :: fragments[i] != []
    ensures received == Meanings(ss) && clean
    ensures forall i | 0 <= i < |ss| :: Conveys(ss[i], received[i])
  {
    var conn := new Connection(fragments);
    StreamRoundTrip(c, ss);
    received, clean := conn.ReadAll(c);
  }
}
