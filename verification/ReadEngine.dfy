/** The per-file read engine: a chunk map, its offset index, and the rules that update both. */
module ReadEngine {
  import opened Basics

  const CHUNK_SIZE: nat := 4 * 1024 * 1024
  const PROVEN_ABSENT_CAP: nat := 4096

  const ZERO_HASH: seq<nat> :=
    [0, 0, 0, 0, 0, 0, 0, 0, 0, 0, 0, 0, 0, 0, 0, 0, 0, 0, 0, 0, 0, 0, 0, 0, 0, 0, 0, 0, 0, 0, 0, 0]

  /** The 32 bytes of a chunk's hash. */
  type ChunkId = h: seq<nat> | |h| == 32 witness ZERO_HASH

  const NIL_ID: ChunkId := ZERO_HASH

  predicate LooksLikePatchToken(id: ChunkId) { id[0] == 0xDF && id[1] == 0x7C }

  datatype Location = Location(id: ChunkId, nodes: seq<nat>, size: nat, offset: Option<nat>, writeSeq: Option<nat>)

  /** Placeholder for a slot nothing is known about. */
  const NIL: Location := Location(NIL_ID, [], 0, None, None)

  /** File offset and size per slot. */
  type Extents = seq<(nat, nat)>

  datatype Engine = Engine(slots: seq<Location>, offsets: Extents, absent: set<ChunkId>)

  function Empty(): Engine { Engine([], [], {}) }

  // ---------------------------------------------------------------------------------------------
  // The pieces the updates are made of

  function ExtentOf(loc: Location, i: nat): (nat, nat) {
    if loc.offset.Some? then (loc.offset.value, loc.size) else (i * CHUNK_SIZE, 0)
  }

  function BuildOffsets(locs: seq<Location>): (r: Extents)
    ensures |r| == |locs| && forall i | 0 <= i < |r| :: r[i] == ExtentOf(locs[i], i)
  {
    seq(|locs|, i requires 0 <= i < |locs| => ExtentOf(locs[i], i))
  }

  function Slot(loc: Location): nat { if loc.offset.Some? then loc.offset.value / CHUNK_SIZE else 0 }

  predicate MergeAdmits(absent: set<ChunkId>, existing: Location, incoming: Location, seqOk: bool) {
    if incoming.id == existing.id then seqOk
    else if incoming.id in absent then false
    else if existing.id in absent then true
    else seqOk
  }

  function Grow(m: seq<Location>, n: nat): (r: seq<Location>)
    ensures |r| == (if |m| < n then n else |m|)
    ensures forall i | 0 <= i < |r| :: r[i] == if i < |m| then m[i] else NIL
  {
    m + seq(if |m| < n then n - |m| else 0, _ => NIL)
  }

  /** Pops trailing entries with the nil id. */
  function Trim(m: seq<Location>): (r: seq<Location>)
    ensures |r| <= |m| && r == m[..|r|]
    ensures forall i | |r| <= i < |m| :: m[i].id == NIL_ID
    ensures r != [] ==> r[|r| - 1].id != NIL_ID
  {
    if m != [] && m[|m| - 1].id == NIL_ID then Trim(m[..|m| - 1]) else m
  }

  predicate NotOlder(incoming: Option<nat>, existing: Option<nat>) {
    incoming.Some? && existing.Some? ==> incoming.value >= existing.value
  }

  // ---------------------------------------------------------------------------------------------
  // Single-slot update, as the write path does it

  predicate SingleAccepted(e: Engine, loc: Location) {
    var m := Grow(e.slots, Slot(loc) + 1);
    MergeAdmits(e.absent, m[Slot(loc)], loc, NotOlder(loc.writeSeq, m[Slot(loc)].writeSeq))
  }

  /** The index edited in place: extended with logical positions, one entry set, cut to length. */
  function EditOffsets(offsets: Extents, n: nat, idx: nat, entry: (nat, nat)): (r: Extents)
    ensures |r| == n
    ensures forall i | 0 <= i < n ::
      r[i] == if i == idx then entry else if i < |offsets| then offsets[i] else (i * CHUNK_SIZE, 0)
  {
    var long := offsets + seq(if |offsets| < n then n - |offsets| else 0, i => ((|offsets| + i) * CHUNK_SIZE, 0));
    var edited := if idx < |long| then long[idx := entry] else long;
    edited[..n]
  }

  function UpdateSingle(e: Engine, loc: Location): Engine {
    var idx := Slot(loc);
    var m := Grow(e.slots, idx + 1);
    if !SingleAccepted(e, loc) then e.(slots := m)
    else
      var t := Trim(m[idx := loc]);
      var entry := (if loc.offset.Some? then loc.offset.value else 0, loc.size);
      e.(slots := t, offsets := EditOffsets(e.offsets, |t|, idx, entry))
  }

  // ---------------------------------------------------------------------------------------------
  // Windowed merge, whole replacement, expiry, and marking ids absent

  predicate RefreshSeqOk(incoming: Option<nat>, existing: Option<nat>) {
    match (incoming, existing)
    case (Some(i), Some(x)) => i >= x
    case (Some(_), None) => true
    case (None, Some(_)) => false
    case (None, None) => true
  }

  function MergeInto(m: seq<Location>, loc: Location, fromWrite: bool, absent: set<ChunkId>): (r: seq<Location>)
    ensures |r| == |m|
  {
    if loc.offset.None? || Slot(loc) >= |m| then m
    else
      var existing := m[Slot(loc)];
      var seqOk := fromWrite || RefreshSeqOk(loc.writeSeq, existing.writeSeq);
      if MergeAdmits(absent, existing, loc, seqOk) then m[Slot(loc) := loc] else m
  }

  function MergeWindow(m: seq<Location>, window: seq<Location>, fromWrite: bool, absent: set<ChunkId>)
    : (r: seq<Location>)
    ensures |r| == |m|
    decreases |window|
  {
    if window == [] then m else MergeWindow(MergeInto(m, window[0], fromWrite, absent), window[1..], fromWrite, absent)
  }

  function UpdateWindow(e: Engine, window: seq<Location>, total: nat, fromWrite: bool): Engine {
    var m := Trim(MergeWindow(Grow(e.slots, total), window, fromWrite, e.absent));
    e.(slots := m, offsets := BuildOffsets(m))
  }

  function MarkAbsent(e: Engine, id: ChunkId): Engine {
    if !LooksLikePatchToken(id) then e
    else e.(absent := (if |e.absent| >= PROVEN_ABSENT_CAP then {} else e.absent) + {id})
  }

  datatype Event =
    | Replace(locs: seq<Location>)
    | Single(loc: Location)
    | Window(window: seq<Location>, total: nat, fromWrite: bool)
    | Expire
    | Mark(id: ChunkId)

  function Apply(e: Engine, ev: Event): Engine {
    match ev
    case Replace(locs) => e.(slots := locs, offsets := BuildOffsets(locs))
    case Single(loc) => UpdateSingle(e, loc)
    case Window(window, total, fromWrite) => UpdateWindow(e, window, total, fromWrite)
    case Expire => e.(slots := [], offsets := [])
    case Mark(id) => MarkAbsent(e, id)
  }

  function Run(e: Engine, evs: seq<Event>): Engine
    decreases |evs|
  {
    if evs == [] then e else Run(Apply(e, evs[0]), evs[1..])
  }

  // ---------------------------------------------------------------------------------------------
  // The index describes a prefix of the map, and nothing lies beyond that prefix

  ghost predicate Indexed(e: Engine) {
    && |e.offsets| <= |e.slots|
    && e.offsets == BuildOffsets(e.slots[..|e.offsets|])
    && forall i | |e.offsets| <= i < |e.slots| :: e.slots[i] == NIL
  }

  /** An accepted update whose location has no offset but a size would index bytes the map does not place. */
  predicate IndexesFaithfully(e: Engine, loc: Location) {
    || loc.offset.Some?
    || loc.size == 0
    || (loc.id == NIL_ID && forall i | 1 <= i < |e.slots| :: e.slots[i].id == NIL_ID)
  }

  lemma SingleOffsets(e: Engine, loc: Location)
    requires Indexed(e) && SingleAccepted(e, loc)
    ensures var t := UpdateSingle(e, loc);
      forall i | 0 <= i < |t.slots| :: i != Slot(loc) ==> t.offsets[i] == ExtentOf(t.slots[i], i)
  {
    var idx := Slot(loc);
    var m := Grow(e.slots, idx + 1);
    var t := UpdateSingle(e, loc);
    forall i | 0 <= i < |t.slots| && i != idx ensures t.offsets[i] == ExtentOf(t.slots[i], i) {
      assert t.slots[i] == m[idx := loc][i] == m[i];
      if i < |e.offsets| { assert e.offsets[i] == ExtentOf(e.slots[..|e.offsets|][i], i); }
    }
  }

  /** After an accepted update the edited index equals a rebuilt one exactly when the location allows it. */
  lemma SingleRebuildsIff(e: Engine, loc: Location)
    requires Indexed(e) && SingleAccepted(e, loc)
    ensures var t := UpdateSingle(e, loc); t.offsets == BuildOffsets(t.slots) <==> IndexesFaithfully(e, loc)
  {
    SingleOffsets(e, loc);
    var idx := Slot(loc);
    var m := Grow(e.slots, idx + 1)[idx := loc];
    var t := UpdateSingle(e, loc);
    if idx < |t.slots| {
      assert t.slots[idx] == m[idx] == loc;
      if IndexesFaithfully(e, loc) {
        assert t.offsets == BuildOffsets(t.slots);
      } else {
        assert t.offsets[0] != BuildOffsets(t.slots)[0];
      }
    } else {
      assert t.offsets == BuildOffsets(t.slots);
      if loc.offset.None? {
        assert m[0].id == NIL_ID;
        forall i | 1 <= i < |e.slots| ensures e.slots[i].id == NIL_ID { assert m[i] == e.slots[i]; }
      }
    }
  }

  /** A chunk without an offset is indexed as if it lay at the front of the file; a rebuilt index gives it no bytes. */
  lemma UnplacedChunkIsIndexed(loc: Location)
    requires loc.offset.None? && loc.size > 0 && loc.id != NIL_ID
    ensures SingleAccepted(Empty(), loc) && UpdateSingle(Empty(), loc).slots == [loc]
    ensures UpdateSingle(Empty(), loc).offsets == [(0, loc.size)] && BuildOffsets([loc]) == [(0, 0)]
  {
    var m := Grow([], 1)[0 := loc];
    assert m == [loc];
  }

  lemma RejectedKeepsIndexed(e: Engine, loc: Location)
    requires Indexed(e) && !SingleAccepted(e, loc)
    ensures Indexed(UpdateSingle(e, loc))
  {
    var t := UpdateSingle(e, loc);
    assert t.slots[..|e.offsets|] == e.slots[..|e.offsets|];
  }

  predicate Positioned(ev: Event) { ev.Single? ==> ev.loc.offset.Some? }

  lemma ApplyKeepsIndexed(e: Engine, ev: Event)
    requires Indexed(e) && Positioned(ev)
    ensures Indexed(Apply(e, ev))
  {
    var t := Apply(e, ev);
    match ev
    case Single(loc) =>
      if SingleAccepted(e, loc) {
        SingleRebuildsIff(e, loc);
        assert t.slots[..|t.slots|] == t.slots;
      } else {
        RejectedKeepsIndexed(e, loc);
      }
    case Mark(id) =>
    case _ => assert t.slots[..|t.slots|] == t.slots;
  }

  lemma {:induction false} RunKeepsIndexed(e: Engine, evs: seq<Event>)
    requires Indexed(e) && forall k | 0 <= k < |evs| :: Positioned(evs[k])
    ensures Indexed(Run(e, evs))
    decreases |evs|
  {
    if evs != [] {
      ApplyKeepsIndexed(e, evs[0]);
      RunKeepsIndexed(Apply(e, evs[0]), evs[1..]);
    }
  }

  // ---------------------------------------------------------------------------------------------
  // Range queries

  /** Index, start and size of a chunk that overlaps the range. */
  type Hit = (nat, nat, nat)

  predicate Touches(x: (nat, nat), offset: nat, size: nat) {
    x.1 > 0 && x.0 < offset + size && x.0 + x.1 > offset
  }

  predicate Within(byte: nat, start: nat, size: nat) { start <= byte < start + size }

  /** A range of bytes touches the chunks it shares a byte with; an empty one, those it lies strictly inside. */
  lemma TouchesIff(x: (nat, nat), offset: nat, size: nat)
    ensures Touches(x, offset, size) <==>
              if size == 0 then x.0 < offset < x.0 + x.1
              else exists byte :: Within(byte, x.0, x.1) && Within(byte, offset, size)
  {
    var m := Max(x.0, offset);
    assert size > 0 && Touches(x, offset, size) ==> Within(m, x.0, x.1) && Within(m, offset, size);
  }

  /** Reference: look at every entry. */
  function Scan(xs: Extents, offset: nat, size: nat): seq<Hit> {
    if xs == [] then []
    else
      var n := |xs| - 1;
      Scan(xs[..n], offset, size) + (if Touches(xs[n], offset, size) then [(n, xs[n].0, xs[n].1)] else [])
  }

  /** Each entry stays inside its own slot of the file. */
  predicate Slotted(xs: Extents) {
    forall i | 0 <= i < |xs| :: i * CHUNK_SIZE <= xs[i].0 && xs[i].0 + xs[i].1 <= (i + 1) * CHUNK_SIZE
  }

  lemma SlottedOrder(xs: Extents, i: nat, j: nat)
    requires Slotted(xs) && i < j < |xs|
    ensures xs[i].0 <= xs[i].0 + xs[i].1 <= xs[j].0
  {
    assert (i + 1) * CHUNK_SIZE <= j * CHUNK_SIZE;
  }

  lemma {:induction false} ScanNothing(xs: Extents, k: nat, offset: nat, size: nat)
    requires k <= |xs| && forall i | k <= i < |xs| :: !Touches(xs[i], offset, size)
    ensures Scan(xs, offset, size) == Scan(xs[..k], offset, size)
  {
    if k < |xs| {
      var n := |xs| - 1;
      ScanNothing(xs[..n], k, offset, size);
      assert xs[..n][..k] == xs[..k];
    } else {
      assert xs[..k] == xs;
    }
  }

  lemma {:induction false} ScanEmpty(xs: Extents, offset: nat, size: nat)
    requires forall i | 0 <= i < |xs| :: !Touches(xs[i], offset, size)
    ensures Scan(xs, offset, size) == []
  {
    if xs != [] { ScanEmpty(xs[..|xs| - 1], offset, size); }
  }

  /** Binary search for the first entry that ends after `offset`. */
  method PartitionPoint(xs: Extents, offset: nat) returns (k: nat)
    ensures k <= |xs|
    ensures Slotted(xs) ==> forall i | 0 <= i < k :: xs[i].0 + xs[i].1 <= offset
    ensures Slotted(xs) ==> forall i | k <= i < |xs| :: xs[i].0 + xs[i].1 > offset
  {
    var lo, hi := 0, |xs|;
    while lo < hi
      invariant 0 <= lo <= hi <= |xs|
      invariant Slotted(xs) ==> forall i | 0 <= i < lo :: xs[i].0 + xs[i].1 <= offset
      invariant Slotted(xs) ==> forall i | hi <= i < |xs| :: xs[i].0 + xs[i].1 > offset
    {
      var mid := (lo + hi) / 2;
      if Slotted(xs) {
        forall i | 0 <= i < mid ensures xs[i].0 + xs[i].1 <= xs[mid].0 { SlottedOrder(xs, i, mid); }
        forall i | mid < i < |xs| ensures xs[mid].0 + xs[mid].1 <= xs[i].0 { SlottedOrder(xs, mid, i); }
      }
      if xs[mid].0 + xs[mid].1 <= offset {
        lo := mid + 1;
      } else {
        hi := mid;
      }
    }
    return lo;
  }

  /** Jumps to the first candidate and stops at the first entry past the range; on slotted entries it misses nothing. */
  method ChunksForRange(xs: Extents, offset: nat, size: nat) returns (hits: seq<Hit>)
    ensures Slotted(xs) ==> hits == Scan(xs, offset, size)
    ensures forall h | h in hits :: h.0 < |xs| && xs[h.0] == (h.1, h.2) && Touches(xs[h.0], offset, size)
  {
    var end := offset + size;
    var k := PartitionPoint(xs, offset);
    hits := [];
    if Slotted(xs) { ScanEmpty(xs[..k], offset, size); }
    while k < |xs|
      invariant k <= |xs|
      invariant Slotted(xs) ==> hits == Scan(xs[..k], offset, size)
      invariant forall h | h in hits :: h.0 < |xs| && xs[h.0] == (h.1, h.2) && Touches(xs[h.0], offset, size)
    {
      if xs[k].0 >= end {
        if Slotted(xs) {
          forall i | k <= i < |xs| ensures !Touches(xs[i], offset, size) {
            if i > k { SlottedOrder(xs, k, i); }
          }
          ScanNothing(xs, k, offset, size);
        }
        return;
      }
      assert xs[..k + 1][..k] == xs[..k];
      if xs[k].1 > 0 && xs[k].0 + xs[k].1 > offset {
        hits := hits + [(k, xs[k].0, xs[k].1)];
      }
      k := k + 1;
    }
    assert xs[..k] == xs;
  }

  // ---------------------------------------------------------------------------------------------
  // Well-slotted updates keep queries exact

  predicate Fits(loc: Location, i: nat) {
    loc.offset.Some? ==> i * CHUNK_SIZE <= loc.offset.value && loc.offset.value + loc.size <= (i + 1) * CHUNK_SIZE
  }

  predicate AllFit(locs: seq<Location>) { forall i | 0 <= i < |locs| :: Fits(locs[i], i) }

  predicate WellSlotted(ev: Event) {
    match ev
    case Replace(locs) => AllFit(locs)
    case Single(loc) => loc.offset.Some? && Fits(loc, Slot(loc))
    case Window(window, _, _) => forall k | 0 <= k < |window| :: Fits(window[k], Slot(window[k]))
    case _ => true
  }

  lemma {:induction false} MergeWindowFits(m: seq<Location>, window: seq<Location>, fromWrite: bool,
                                           absent: set<ChunkId>)
    requires AllFit(m) && forall k | 0 <= k < |window| :: Fits(window[k], Slot(window[k]))
    ensures AllFit(MergeWindow(m, window, fromWrite, absent))
    decreases |window|
  {
    if window != [] {
      assert AllFit(MergeInto(m, window[0], fromWrite, absent));
      MergeWindowFits(MergeInto(m, window[0], fromWrite, absent), window[1..], fromWrite, absent);
    }
  }

  lemma ApplyKeepsFit(e: Engine, ev: Event)
    requires AllFit(e.slots) && WellSlotted(ev)
    ensures AllFit(Apply(e, ev).slots)
  {
    match ev
    case Window(window, total, fromWrite) =>
      MergeWindowFits(Grow(e.slots, total), window, fromWrite, e.absent);
    case _ =>
  }

  ghost predicate Sound(e: Engine) { Indexed(e) && AllFit(e.slots) }

  lemma ApplyKeepsSound(e: Engine, ev: Event)
    requires Sound(e) && WellSlotted(ev)
    ensures Sound(Apply(e, ev))
  {
    ApplyKeepsIndexed(e, ev);
    ApplyKeepsFit(e, ev);
  }

  lemma {:induction false} RunKeepsSound(e: Engine, evs: seq<Event>)
    requires Sound(e) && forall k | 0 <= k < |evs| :: WellSlotted(evs[k])
    ensures Sound(Run(e, evs))
    decreases |evs|
  {
    if evs != [] {
      ApplyKeepsSound(e, evs[0]);
      RunKeepsSound(Apply(e, evs[0]), evs[1..]);
    }
  }

  predicate Holds(loc: Location, offset: nat, size: nat) {
    loc.offset.Some? && Touches((loc.offset.value, loc.size), offset, size)
  }

  /** What a read needs, straight from the map: every located, non-empty chunk that overlaps the range. */
  function Wanted(m: seq<Location>, offset: nat, size: nat): seq<Hit> {
    if m == [] then []
    else
      var n := |m| - 1;
      Wanted(m[..n], offset, size) + (if Holds(m[n], offset, size) then [(n, m[n].offset.value, m[n].size)] else [])
  }

  lemma {:induction false} ScanIsWanted(m: seq<Location>, k: nat, offset: nat, size: nat)
    requires k <= |m| && forall i | k <= i < |m| :: m[i] == NIL
    ensures Scan(BuildOffsets(m[..k]), offset, size) == Wanted(m, offset, size)
    decreases |m|
  {
    if m != [] {
      var n := |m| - 1;
      if k == |m| {
        ScanIsWanted(m[..n], n, offset, size);
        assert m[..k] == m && m[..n][..n] == m[..n];
        assert BuildOffsets(m)[..n] == BuildOffsets(m[..n]);
      } else {
        ScanIsWanted(m[..n], k, offset, size);
        assert m[..n][..k] == m[..k];
      }
    }
  }

  lemma SoundQuery(e: Engine, offset: nat, size: nat)
    requires Sound(e)
    ensures Slotted(e.offsets) && Scan(e.offsets, offset, size) == Wanted(e.slots, offset, size)
  {
    ScanIsWanted(e.slots, |e.offsets|, offset, size);
  }

  /** In every state reached by well-slotted updates, the fast query returns exactly what the map calls for. */
  method QueryReachable(evs: seq<Event>, offset: nat, size: nat) returns (hits: seq<Hit>)
    requires forall k | 0 <= k < |evs| :: WellSlotted(evs[k])
    ensures hits == Wanted(Run(Empty(), evs).slots, offset, size)
  {
    RunKeepsSound(Empty(), evs);
    SoundQuery(Run(Empty(), evs), offset, size);
    hits := ChunksForRange(Run(Empty(), evs).offsets, offset, size);
  }

  /** A read finds each overlapping chunk once, in file order, and nothing else. */
  lemma {:induction false} WantedExactly(m: seq<Location>, offset: nat, size: nat)
    ensures forall h :: h in Wanted(m, offset, size) <==>
      h.0 < |m| && Holds(m[h.0], offset, size) && h == (h.0, m[h.0].offset.value, m[h.0].size)
    ensures forall i, j | 0 <= i < j < |Wanted(m, offset, size)| ::
      Wanted(m, offset, size)[i].0 < Wanted(m, offset, size)[j].0
  {
    if m != [] {
      var n := |m| - 1;
      var before := Wanted(m[..n], offset, size);
      WantedExactly(m[..n], offset, size);
      forall i | 0 <= i < |before| ensures before[i].0 < n { assert before[i] in before; }
    }
  }

  // ---------------------------------------------------------------------------------------------
  // Ids proven absent

  /** Slots pinned to an id known to be dead. */
  function DeadSlots(e: Engine): set<nat> { set i | 0 <= i < |e.slots| && e.slots[i].id in e.absent }

  /** What an update may do to a slot: leave it, or put an id there that is the old one or not dead. */
  ghost predicate Gentle(before: seq<Location>, after: seq<Location>, absent: set<ChunkId>) {
    forall i | 0 <= i < |after| && after[i].id in absent :: i < |before| && before[i].id == after[i].id
  }

  lemma {:induction false} MergeWindowGentle(m: seq<Location>, window: seq<Location>, fromWrite: bool,
                                             absent: set<ChunkId>)
    ensures Gentle(m, MergeWindow(m, window, fromWrite, absent), absent)
    decreases |window|
  {
    if window != [] {
      MergeWindowGentle(MergeInto(m, window[0], fromWrite, absent), window[1..], fromWrite, absent);
    }
  }

  predicate TokensOnly(absent: set<ChunkId>) { forall id | id in absent :: LooksLikePatchToken(id) }

  lemma GrowGentle(m: seq<Location>, n: nat, absent: set<ChunkId>)
    requires TokensOnly(absent)
    ensures Gentle(m, Grow(m, n), absent)
  {
    assert NIL_ID !in absent;
  }

  /** Neither update path, write path included, ever pins a slot to a dead id it did not already hold. */
  lemma UpdatesNeverPin(e: Engine, ev: Event)
    requires TokensOnly(e.absent) && (ev.Single? || ev.Window?)
    ensures DeadSlots(Apply(e, ev)) <= DeadSlots(e) && Apply(e, ev).absent == e.absent
  {
    match ev
    case Single(loc) => GrowGentle(e.slots, Slot(loc) + 1, e.absent);
    case Window(window, total, fromWrite) =>
      GrowGentle(e.slots, total, e.absent);
      MergeWindowGentle(Grow(e.slots, total), window, fromWrite, e.absent);
  }

  lemma {:induction false} RunNeverPins(e: Engine, evs: seq<Event>)
    requires TokensOnly(e.absent) && forall k | 0 <= k < |evs| :: evs[k].Single? || evs[k].Window?
    ensures DeadSlots(Run(e, evs)) <= DeadSlots(e)
    decreases |evs|
  {
    if evs != [] {
      UpdatesNeverPin(e, evs[0]);
      RunNeverPins(Apply(e, evs[0]), evs[1..]);
    }
  }

  /** A pinned slot takes any other live id, however old its sequence number. */
  lemma DeadSlotAccepts(e: Engine, loc: Location)
    requires Slot(loc) in DeadSlots(e) && loc.id !in e.absent && loc.id != NIL_ID
    ensures Slot(loc) < |UpdateSingle(e, loc).slots| && UpdateSingle(e, loc).slots[Slot(loc)] == loc
  {
    var m := Grow(e.slots, Slot(loc) + 1)[Slot(loc) := loc];
    assert m[Slot(loc)] == loc;
  }

  /** Names a slot in a window: entries without an offset are passed over. */
  predicate For(loc: Location, i: nat) { loc.offset.Some? && Slot(loc) == i }

  lemma {:induction false} WindowPasses(m: seq<Location>, window: seq<Location>, fromWrite: bool, absent: set<ChunkId>,
                                        i: nat)
    requires i < |m| && forall j | 0 <= j < |window| :: !For(window[j], i)
    ensures MergeWindow(m, window, fromWrite, absent)[i] == m[i]
    decreases |window|
  {
    if window != [] { WindowPasses(MergeInto(m, window[0], fromWrite, absent), window[1..], fromWrite, absent, i); }
  }

  lemma {:induction false} WindowRevives(m: seq<Location>, window: seq<Location>, fromWrite: bool, absent: set<ChunkId>,
                                         k: nat)
    requires k < |window| && window[k].offset.Some? && Slot(window[k]) < |m| && window[k].id !in absent
    ensures MergeWindow(m, window, fromWrite, absent)[Slot(window[k])].id !in absent
    ensures m[Slot(window[k])].id in absent &&
            (forall j | 0 <= j < |window| && j != k :: !For(window[j], Slot(window[k]))) ==>
              MergeWindow(m, window, fromWrite, absent)[Slot(window[k])] == window[k]
    decreases |window|
  {
    var i, next, rest := Slot(window[k]), MergeInto(m, window[0], fromWrite, absent), window[1..];
    if k == 0 {
      MergeWindowGentle(next, rest, fromWrite, absent);
      if forall j | 0 <= j < |window| && j != k :: !For(window[j], i) {
        WindowPasses(next, rest, fromWrite, absent, i);
      }
    } else {
      assert rest[k - 1] == window[k];
      WindowRevives(next, rest, fromWrite, absent, k - 1);
    }
  }

  /** A window frees every pinned slot it has a live id for, and the slot takes that id if the window names it once. */
  lemma WindowUnpins(e: Engine, window: seq<Location>, total: nat, fromWrite: bool, k: nat)
    requires k < |window| && window[k].offset.Some? && window[k].id !in e.absent && window[k].id != NIL_ID
    requires Slot(window[k]) in DeadSlots(e)
    ensures Slot(window[k]) !in DeadSlots(UpdateWindow(e, window, total, fromWrite))
    ensures (forall j | 0 <= j < |window| && j != k :: !For(window[j], Slot(window[k]))) ==>
              At(UpdateWindow(e, window, total, fromWrite).slots, Slot(window[k])) == window[k]
  {
    WindowRevives(Grow(e.slots, total), window, fromWrite, e.absent, k);
  }

  // ---------------------------------------------------------------------------------------------
  // What each update leaves in a slot

  /** The same entry, or a placeholder where a trailing entry with the nil id was dropped. */
  predicate Retained(before: Location, after: Location) {
    after == before || (before.id == NIL_ID && after == NIL)
  }

  /** Slots a window does not name keep their entries. */
  lemma WindowKeepsOthers(e: Engine, window: seq<Location>, total: nat, fromWrite: bool, i: nat)
    requires forall j | 0 <= j < |window| :: !For(window[j], i)
    ensures Retained(At(e.slots, i), At(Apply(e, Window(window, total, fromWrite)).slots, i))
  {
    var m := Grow(e.slots, total);
    if i < |m| { WindowPasses(m, window, fromWrite, e.absent, i); }
  }

  lemma {:induction false} LastNamedMerges(m: seq<Location>, window: seq<Location>, fromWrite: bool,
                                           absent: set<ChunkId>, k: nat)
    requires k < |window| && window[k].offset.Some? && Slot(window[k]) < |m|
    requires forall j | k < j < |window| :: !For(window[j], Slot(window[k]))
    ensures MergeWindow(m, window, fromWrite, absent)[Slot(window[k])] ==
            MergeInto(MergeWindow(m, window[..k], fromWrite, absent), window[k], fromWrite, absent)[Slot(window[k])]
    decreases |window|
  {
    var next, rest := MergeInto(m, window[0], fromWrite, absent), window[1..];
    if k == 0 {
      WindowPasses(next, rest, fromWrite, absent, Slot(window[k]));
    } else {
      assert window[..k][1..] == rest[..k - 1] && rest[k - 1] == window[k];
      LastNamedMerges(next, rest, fromWrite, absent, k - 1);
    }
  }

  /** The client's own confirmed writes go in whatever the numbers say; of several for a slot the last one stays. */
  lemma OwnWriteGoesIn(e: Engine, window: seq<Location>, total: nat, k: nat)
    requires k < |window| && window[k].offset.Some? && window[k].id != NIL_ID && window[k].id !in e.absent
    requires Slot(window[k]) < Max(total, |e.slots|)
    requires forall j | k < j < |window| :: !For(window[j], Slot(window[k]))
    ensures At(Apply(e, Window(window, total, true)).slots, Slot(window[k])) == window[k]
    ensures At(UpdateWindow(e, window, total, true).slots, Slot(window[k])) == window[k]
  {
    LastNamedMerges(Grow(e.slots, total), window, true, e.absent, k);
  }

  /** Every live entry with a place in the map, and no later one for its slot, is in the slot. */
  ghost predicate Installed(e: Engine, window: seq<Location>, total: nat, m: seq<Location>) {
    forall k | 0 <= k < |window| && window[k].offset.Some? && window[k].id != NIL_ID && window[k].id !in e.absent
               && Slot(window[k]) < Max(total, |e.slots|)
               && (forall j | k < j < |window| :: !For(window[j], Slot(window[k]))) ::
      At(m, Slot(window[k])) == window[k]
  }

  ghost predicate OthersRetained(e: Engine, window: seq<Location>, m: seq<Location>) {
    forall i: nat | forall j | 0 <= j < |window| :: !For(window[j], i) :: Retained(At(e.slots, i), At(m, i))
  }

  lemma WindowOutcome(e: Engine, window: seq<Location>, total: nat, fromWrite: bool)
    ensures OthersRetained(e, window, Apply(e, Window(window, total, fromWrite)).slots)
    ensures fromWrite ==> Installed(e, window, total, Apply(e, Window(window, total, fromWrite)).slots)
  {
    hide Apply;
    forall i: nat | forall j | 0 <= j < |window| :: !For(window[j], i)
      ensures Retained(At(e.slots, i), At(Apply(e, Window(window, total, fromWrite)).slots, i))
    {
      WindowKeepsOthers(e, window, total, fromWrite, i);
    }
    if fromWrite {
      forall k | 0 <= k < |window| && window[k].offset.Some? && window[k].id != NIL_ID && window[k].id !in e.absent
                 && Slot(window[k]) < Max(total, |e.slots|)
                 && (forall j | k < j < |window| :: !For(window[j], Slot(window[k])))
        ensures At(Apply(e, Window(window, total, true)).slots, Slot(window[k])) == window[k]
      {
        OwnWriteGoesIn(e, window, total, k);
      }
    }
  }

  /** A refresh with the same or live ids goes in exactly if its number is not below the slot's, none being lowest. */
  lemma RefreshGoesInIff(e: Engine, window: seq<Location>, total: nat, k: nat)
    requires k < |window| && window[k].offset.Some? && window[k].id != NIL_ID && Slot(window[k]) < Max(total, |e.slots|)
    requires var id, was := window[k].id, At(e.slots, Slot(window[k])).id; id == was || {id, was} !! e.absent
    requires forall j | 0 <= j < |window| && j != k :: !For(window[j], Slot(window[k]))
    ensures var was, now := At(e.slots, Slot(window[k])),
                              At(Apply(e, Window(window, total, false)).slots, Slot(window[k]));
      if SeqAtLeast(window[k].writeSeq, was.writeSeq) then now == window[k] else Retained(was, now)
  {
    var m := Grow(e.slots, total);
    LastNamedMerges(m, window, false, e.absent, k);
    WindowPasses(m, window[..k], false, e.absent, Slot(window[k]));
  }

  /** One with the same or live ids goes in unless both are numbered and its number is lower; others are kept. */
  lemma SingleGoesInIff(e: Engine, loc: Location, i: nat)
    requires loc.id != NIL_ID
    requires var was := At(e.slots, Slot(loc)).id; loc.id == was || {loc.id, was} !! e.absent
    ensures var was, now := At(e.slots, i), At(Apply(e, Single(loc)).slots, i);
            if i != Slot(loc) then Retained(was, now)
            else if loc.writeSeq.Some? && was.writeSeq.Some? && loc.writeSeq.value < was.writeSeq.value then now == was
            else now == loc
  {
    var m := Grow(e.slots, Slot(loc) + 1);
    assert m[Slot(loc)] == At(e.slots, Slot(loc));
    if SingleAccepted(e, loc) {
      var full := m[Slot(loc) := loc];
      assert At(full, i) == if i == Slot(loc) then loc else At(e.slots, i);
      assert Retained(At(full, i), At(Trim(full), i));
    }
  }

  // ---------------------------------------------------------------------------------------------
  // A client reads what it wrote

  /** Inside one 4 MiB slot of the file. */
  predicate InOneSlot(loc: Location) {
    loc.offset.Some? && loc.size > 0 && loc.offset.value % CHUNK_SIZE + loc.size <= CHUNK_SIZE
  }

  lemma InOneSlotFits(loc: Location)
    requires InOneSlot(loc)
    ensures Fits(loc, Slot(loc)) && Slot(loc) == loc.offset.value / CHUNK_SIZE
  {
    var q, r := loc.offset.value / CHUNK_SIZE, loc.offset.value % CHUNK_SIZE;
    assert loc.offset.value == CHUNK_SIZE * q + r;
  }

  /** A byte of a placed chunk is found in that chunk and nowhere else. */
  lemma ByteIsFound(m: seq<Location>, i: nat, byte: nat)
    requires AllFit(m) && i < |m| && m[i].offset.Some? && m[i].offset.value <= byte < m[i].offset.value + m[i].size
    ensures Wanted(m, byte, 1) == [(i, m[i].offset.value, m[i].size)]
  {
    var hits, hit := Wanted(m, byte, 1), (i, m[i].offset.value, m[i].size);
    WantedExactly(m, byte, 1);
    hide Wanted, AllFit;
    assert hit in hits;
    forall h | h in hits ensures h == hit { OnlySlot(m, i, h.0, byte); }
    assert hits[0] in hits && hits[|hits| - 1] in hits;
  }

  lemma OnlySlot(m: seq<Location>, i: nat, j: nat, byte: nat)
    requires AllFit(m) && i < |m| && j < |m| && Holds(m[i], byte, 1) && Holds(m[j], byte, 1)
    ensures i == j
  {
    assert Fits(m[i], i) && Fits(m[j], j);
    assert i < j ==> (i + 1) * CHUNK_SIZE <= j * CHUNK_SIZE;
    assert j < i ==> (j + 1) * CHUNK_SIZE <= i * CHUNK_SIZE;
  }

  /** After a confirmed write every byte of it is read from the chunk just written, looked up under its own slot. */
  lemma ReadsOwnWrite(e: Engine, window: seq<Location>, total: nat, k: nat, byte: nat)
    requires AllFit(e.slots) && k < |window| && (forall j | 0 <= j < |window| :: InOneSlot(window[j]))
    requires InOneSlot(window[k]) && window[k].id != NIL_ID && window[k].id !in e.absent
    requires window[k].offset.value / CHUNK_SIZE < Max(total, |e.slots|)
    requires forall j | k < j < |window| && InOneSlot(window[j]) ::
               window[j].offset.value / CHUNK_SIZE != window[k].offset.value / CHUNK_SIZE
    requires window[k].offset.value <= byte < window[k].offset.value + window[k].size
    ensures Wanted(Apply(e, Window(window, total, true)).slots, byte, 1) ==
            [(window[k].offset.value / CHUNK_SIZE, window[k].offset.value, window[k].size)]
  {
    var i := Slot(window[k]);
    forall j | 0 <= j < |window| ensures Fits(window[j], Slot(window[j])) && For(window[j], Slot(window[j])) {
      InOneSlotFits(window[j]);
    }
    OwnWriteGoesIn(e, window, total, k);
    ApplyKeepsFit(e, Window(window, total, true));
    hide Apply, AllFit;
    ByteIsFound(Apply(e, Window(window, total, true)).slots, i, byte);
  }

  /** The same for a write of one chunk, when its number is not below that of the chunk it replaces. */
  lemma ReadsOwnSingleWrite(e: Engine, loc: Location, byte: nat)
    requires AllFit(e.slots) && InOneSlot(loc) && loc.id != NIL_ID
    requires var was := At(e.slots, loc.offset.value / CHUNK_SIZE);
      && (loc.id == was.id || {loc.id, was.id} !! e.absent)
      && (loc.writeSeq.Some? && was.writeSeq.Some? ==> loc.writeSeq.value >= was.writeSeq.value)
    requires loc.offset.value <= byte < loc.offset.value + loc.size
    ensures Wanted(Apply(e, Single(loc)).slots, byte, 1) ==
            [(loc.offset.value / CHUNK_SIZE, loc.offset.value, loc.size)]
  {
    InOneSlotFits(loc);
    SingleGoesInIff(e, loc, Slot(loc));
    ApplyKeepsFit(e, Single(loc));
    hide Apply, AllFit;
    ByteIsFound(Apply(e, Single(loc)).slots, Slot(loc), byte);
  }

  /** The set of dead ids holds patch tokens only, and never more than the cap. */
  lemma {:induction false} AbsentIsBounded(e: Engine, evs: seq<Event>)
    requires TokensOnly(e.absent) && |e.absent| <= PROVEN_ABSENT_CAP
    ensures TokensOnly(Run(e, evs).absent) && |Run(e, evs).absent| <= PROVEN_ABSENT_CAP
    decreases |evs|
  {
    if evs != [] {
      AbsentIsBounded(Apply(e, evs[0]), evs[1..]);
    }
  }

  // ---------------------------------------------------------------------------------------------
  // Convergence: the newest delivery of a slot wins, however deliveries are ordered and grouped

  function At(m: seq<Location>, i: nat): Location { if i < |m| then m[i] else NIL }

  /** A positioned, sequenced location of a real chunk. */
  predicate Sequenced(loc: Location) { loc.offset.Some? && loc.writeSeq.Some? && loc.id != NIL_ID }

  predicate Delivery(ev: Event) {
    match ev
    case Single(loc) => Sequenced(loc)
    case Window(window, total, fromWrite) =>
      !fromWrite && forall k | 0 <= k < |window| :: Sequenced(window[k]) && Slot(window[k]) < total
    case _ => false
  }

  function Carried(ev: Event): seq<Location> {
    match ev
    case Single(loc) => [loc]
    case Window(window, _, _) => window
    case _ => []
  }

  /** Every location the events carry, in order of arrival. */
  function Delivered(evs: seq<Event>): seq<Location> {
    if evs == [] then [] else Carried(evs[0]) + Delivered(evs[1..])
  }

  /** A slot's content after one more delivery. */
  function Newer(current: Location, loc: Location, i: nat): Location {
    if Slot(loc) == i && NotOlder(loc.writeSeq, current.writeSeq) then loc else current
  }

  function Newest(current: Location, locs: seq<Location>, i: nat): Location
    decreases |locs|
  {
    if locs == [] then current else Newest(Newer(current, locs[0], i), locs[1..], i)
  }

  /** Every entry is a placeholder or a sequenced location in its own slot. */
  predicate Clean(m: seq<Location>) {
    forall i | 0 <= i < |m| :: m[i] == NIL || (Sequenced(m[i]) && Slot(m[i]) == i)
  }

  predicate Trimmed(m: seq<Location>) { m == [] || m[|m| - 1] != NIL }

  lemma {:induction false} MergeWindowNewest(m: seq<Location>, window: seq<Location>, i: nat)
    requires Clean(m) && forall k | 0 <= k < |window| :: Sequenced(window[k]) && Slot(window[k]) < |m|
    ensures Clean(MergeWindow(m, window, false, {}))
    ensures At(MergeWindow(m, window, false, {}), i) == Newest(At(m, i), window, i)
    decreases |window|
  {
    if window != [] {
      var t := MergeInto(m, window[0], false, {});
      assert Clean(t) && At(t, i) == Newer(At(m, i), window[0], i);
      MergeWindowNewest(t, window[1..], i);
    }
  }

  lemma CleanTrim(m: seq<Location>)
    requires Clean(m)
    ensures Clean(Trim(m)) && Trimmed(Trim(m)) && forall i :: At(Trim(m), i) == At(m, i)
  {
  }

  lemma CleanGrow(m: seq<Location>, n: nat)
    requires Clean(m)
    ensures Clean(Grow(m, n)) && forall i :: At(Grow(m, n), i) == At(m, i)
  {
  }

  lemma SingleIsNewest(e: Engine, loc: Location, i: nat)
    requires Clean(e.slots) && Trimmed(e.slots) && e.absent == {} && Sequenced(loc)
    ensures var t := UpdateSingle(e, loc);
            && Clean(t.slots) && Trimmed(t.slots) && t.absent == {}
            && At(t.slots, i) == Newest(At(e.slots, i), [loc], i)
  {
    var m := Grow(e.slots, Slot(loc) + 1);
    CleanGrow(e.slots, Slot(loc) + 1);
    if SingleAccepted(e, loc) {
      CleanTrim(m[Slot(loc) := loc]);
    } else {
      assert m == e.slots;
    }
    assert Newest(At(e.slots, i), [loc], i) == Newer(At(e.slots, i), loc, i);
  }

  lemma DeliveryIsNewest(e: Engine, ev: Event, i: nat)
    requires Clean(e.slots) && Trimmed(e.slots) && e.absent == {} && Delivery(ev)
    ensures var t := Apply(e, ev);
      && Clean(t.slots) && Trimmed(t.slots) && t.absent == {}
      && At(t.slots, i) == Newest(At(e.slots, i), Carried(ev), i)
  {
    match ev
    case Single(loc) => SingleIsNewest(e, loc, i);
    case Window(window, total, fromWrite) =>
      CleanGrow(e.slots, total);
      MergeWindowNewest(Grow(e.slots, total), window, i);
      CleanTrim(MergeWindow(Grow(e.slots, total), window, false, {}));
  }

  lemma {:induction false} NewestAppend(current: Location, a: seq<Location>, b: seq<Location>, i: nat)
    ensures Newest(current, a + b, i) == Newest(Newest(current, a, i), b, i)
    decreases |a|
  {
    if a == [] {
      assert a + b == b;
    } else {
      assert (a + b)[1..] == a[1..] + b;
      NewestAppend(Newer(current, a[0], i), a[1..], b, i);
    }
  }

  lemma {:induction false} RunIsNewest(e: Engine, evs: seq<Event>, i: nat)
    requires Clean(e.slots) && Trimmed(e.slots) && e.absent == {} && forall k | 0 <= k < |evs| :: Delivery(evs[k])
    ensures Trimmed(Run(e, evs).slots)
    ensures At(Run(e, evs).slots, i) == Newest(At(e.slots, i), Delivered(evs), i)
    decreases |evs|
  {
    if evs != [] {
      DeliveryIsNewest(e, evs[0], i);
      RunIsNewest(Apply(e, evs[0]), evs[1..], i);
      NewestAppend(At(e.slots, i), Carried(evs[0]), Delivered(evs[1..]), i);
    }
  }

  /** `None` counts as older than any number. */
  predicate SeqAtLeast(a: Option<nat>, b: Option<nat>) { b.Some? ==> a.Some? && a.value >= b.value }

  /** The final entry has the highest sequence number of everything delivered for the slot. */
  lemma {:induction false} NewestIsHighest(current: Location, locs: seq<Location>, i: nat)
    requires forall k | 0 <= k < |locs| :: Sequenced(locs[k])
    ensures var r := Newest(current, locs, i);
      && SeqAtLeast(r.writeSeq, current.writeSeq)
      && (r == current || (r in locs && Slot(r) == i))
      && forall l | l in locs && Slot(l) == i :: SeqAtLeast(r.writeSeq, l.writeSeq)
    decreases |locs|
  {
    if locs != [] {
      NewestIsHighest(Newer(current, locs[0], i), locs[1..], i);
    }
  }

  /** A delivery never lowers a slot's sequence number while nothing is proven absent. */
  lemma SeqNeverReverts(e: Engine, ev: Event, i: nat)
    requires Clean(e.slots) && Trimmed(e.slots) && e.absent == {} && Delivery(ev)
    ensures SeqAtLeast(At(Apply(e, ev).slots, i).writeSeq, At(e.slots, i).writeSeq)
  {
    DeliveryIsNewest(e, ev, i);
    NewestIsHighest(At(e.slots, i), Carried(ev), i);
  }

  /** No two different deliveries for a slot share a sequence number. */
  predicate DistinctSeqs(locs: seq<Location>) {
    forall j, k | 0 <= j < |locs| && 0 <= k < |locs| && locs[j] != locs[k] && Slot(locs[j]) == Slot(locs[k]) ::
      locs[j].writeSeq != locs[k].writeSeq
  }

  lemma {:induction false} DeliveredSequenced(evs: seq<Event>)
    requires forall k | 0 <= k < |evs| :: Delivery(evs[k])
    ensures forall k | 0 <= k < |Delivered(evs)| :: Sequenced(Delivered(evs)[k])
    decreases |evs|
  {
    if evs != [] { DeliveredSequenced(evs[1..]); }
  }

  lemma NewestDependsOnSet(a: seq<Location>, b: seq<Location>, i: nat)
    requires (forall k | 0 <= k < |a| :: Sequenced(a[k])) && (forall k | 0 <= k < |b| :: Sequenced(b[k]))
    requires (forall l :: l in a <==> l in b) && DistinctSeqs(a)
    ensures Newest(NIL, a, i) == Newest(NIL, b, i)
  {
    NewestIsHighest(NIL, a, i);
    NewestIsHighest(NIL, b, i);
    var x, y := Newest(NIL, a, i), Newest(NIL, b, i);
    if x in a && y in a {
      var j :| 0 <= j < |a| && a[j] == x;
      var k :| 0 <= k < |a| && a[k] == y;
    }
  }

  lemma SameSlotsSameMap(m: seq<Location>, n: seq<Location>)
    requires Trimmed(m) && Trimmed(n) && forall i :: At(m, i) == At(n, i)
    ensures m == n
  {
    assert n != [] ==> At(m, |n| - 1) == At(n, |n| - 1);
    assert m != [] ==> At(m, |m| - 1) == At(n, |m| - 1);
    forall i | 0 <= i < |m| ensures m[i] == n[i] { assert At(m, i) == At(n, i); }
  }

  /** The same deliveries, in any order and any grouping, leave the same map. */
  lemma DeliveriesConverge(first: seq<Event>, second: seq<Event>)
    requires forall k | 0 <= k < |first| :: Delivery(first[k])
    requires forall k | 0 <= k < |second| :: Delivery(second[k])
    requires (forall l :: l in Delivered(first) <==> l in Delivered(second)) && DistinctSeqs(Delivered(first))
    ensures Run(Empty(), first).slots == Run(Empty(), second).slots
  {
    DeliveredSequenced(first);
    DeliveredSequenced(second);
    forall i ensures At(Run(Empty(), first).slots, i) == At(Run(Empty(), second).slots, i) {
      RunIsNewest(Empty(), first, i);
      RunIsNewest(Empty(), second, i);
      NewestDependsOnSet(Delivered(first), Delivered(second), i);
    }
    RunIsNewest(Empty(), first, 0);
    RunIsNewest(Empty(), second, 0);
    SameSlotsSameMap(Run(Empty(), first).slots, Run(Empty(), second).slots);
  }
}
