/** The read engine object of one open file. */
module InodeReadEngine {
  import opened Basics
  import opened ReadEngine

  /** Pops trailing nil entries one by one. */
  method TrimTrailing(m: seq<Location>) returns (r: seq<Location>)
    ensures r == Trim(m)
  {
    r := m;
    while r != [] && r[|r| - 1].id == NIL_ID
      invariant Trim(r) == Trim(m)
      decreases |r|
    {
      r := r[..|r| - 1];
    }
  }

  class InodeReadEngine {
    var slots: seq<Location>
    var offsets: Extents
    var absent: set<ChunkId>

    ghost function AsEngine(): Engine
      reads this
    {
      Engine(slots, offsets, absent)
    }

    constructor ()
      ensures AsEngine() == Empty() && Sound(AsEngine())
    {
      slots, offsets, absent := [], [], {};
    }

    method UpdateChunkMap(locs: seq<Location>)
      modifies this
      ensures AsEngine() == Apply(old(AsEngine()), Replace(locs)) && slots == locs && absent == old(absent)
      ensures old(Sound(AsEngine())) && WellSlotted(Replace(locs)) ==> Sound(AsEngine())
    {
      if Sound(AsEngine()) && WellSlotted(Replace(locs)) { ApplyKeepsSound(AsEngine(), Replace(locs)); }
      slots, offsets := locs, BuildOffsets(locs);
    }

    /** Extends the index with logical positions, sets one entry, and cuts it to the map's length. */
    method EditIndex(n: nat, idx: nat, entry: (nat, nat))
      modifies this`offsets
      ensures offsets == EditOffsets(old(offsets), n, idx, entry)
    {
      var k := |offsets|;
      while k < n
        invariant |old(offsets)| <= k && |offsets| == k
        invariant k <= n || k == |old(offsets)|
        invariant forall i | 0 <= i < k ::
          offsets[i] == if i < |old(offsets)| then old(offsets)[i] else (i * CHUNK_SIZE, 0)
      {
        offsets := offsets + [(k * CHUNK_SIZE, 0)];
        k := k + 1;
      }
      if idx < |offsets| {
        offsets := offsets[idx := entry];
      }
      offsets := offsets[..n];
    }

    method UpdateSingleChunk(loc: Location) returns (accepted: bool)
      modifies this
      ensures AsEngine() == Apply(old(AsEngine()), Single(loc))
      ensures accepted == SingleAccepted(old(AsEngine()), loc)
      ensures !accepted ==> slots == Grow(old(slots), Slot(loc) + 1)
      ensures old(TokensOnly(absent)) ==> DeadSlots(AsEngine()) <= old(DeadSlots(AsEngine()))
      ensures old(Sound(AsEngine())) && WellSlotted(Single(loc)) ==> Sound(AsEngine())
    {
      hide Sound, WellSlotted, DeadSlots, TokensOnly, Trim, EditOffsets, MergeAdmits;
      if Sound(AsEngine()) && WellSlotted(Single(loc)) { ApplyKeepsSound(AsEngine(), Single(loc)); }
      if TokensOnly(absent) { UpdatesNeverPin(AsEngine(), Single(loc)); }
      var idx := Slot(loc);
      var entry := (if loc.offset.Some? then loc.offset.value else 0, loc.size);
      if idx >= |slots| {
        slots := Grow(slots, idx + 1);
      }
      assert slots == Grow(old(slots), idx + 1);
      var seqOk := NotOlder(loc.writeSeq, slots[idx].writeSeq);
      if !MergeAdmits(absent, slots[idx], loc, seqOk) {
        return false;
      }
      slots := TrimTrailing(slots[idx := loc]);
      EditIndex(|slots|, idx, entry);
      return true;
    }

    method UpdateChunkMapWindow(window: seq<Location>, total: nat, fromWrite: bool)
      modifies this
      ensures AsEngine() == Apply(old(AsEngine()), Window(window, total, fromWrite))
      ensures old(TokensOnly(absent)) ==> DeadSlots(AsEngine()) <= old(DeadSlots(AsEngine()))
      ensures old(Sound(AsEngine())) && WellSlotted(Window(window, total, fromWrite)) ==> Sound(AsEngine())
      ensures fromWrite ==> Installed(old(AsEngine()), window, total, slots)
      ensures OthersRetained(old(AsEngine()), window, slots)
    {
      hide Installed, OthersRetained;
      WindowOutcome(AsEngine(), window, total, fromWrite);
      if Sound(AsEngine()) && WellSlotted(Window(window, total, fromWrite)) {
        ApplyKeepsSound(AsEngine(), Window(window, total, fromWrite));
      }
      if TokensOnly(absent) { UpdatesNeverPin(AsEngine(), Window(window, total, fromWrite)); }
      var m := slots;
      if |m| < total {
        m := Grow(m, total);
      }
      assert m == Grow(slots, total);
      m := MergeEach(m, window, fromWrite);
      m := TrimTrailing(m);
      slots, offsets := m, BuildOffsets(m);
    }

    method MergeEach(start: seq<Location>, window: seq<Location>, fromWrite: bool) returns (m: seq<Location>)
      ensures m == MergeWindow(start, window, fromWrite, absent)
    {
      m := start;
      var k := 0;
      assert window[0..] == window;
      while k < |window|
        invariant 0 <= k <= |window| && |m| == |start|
        invariant MergeWindow(m, window[k..], fromWrite, absent) == MergeWindow(start, window, fromWrite, absent)
      {
        var loc := window[k];
        assert window[k..][0] == loc && window[k..][1..] == window[k + 1..];
        if loc.offset.Some? && Slot(loc) < |m| {
          var idx := Slot(loc);
          var seqOk := fromWrite || RefreshSeqOk(loc.writeSeq, m[idx].writeSeq);
          if MergeAdmits(absent, m[idx], loc, seqOk) {
            m := m[idx := loc];
          }
        }
        k := k + 1;
      }
    }

    method ExpireChunkMap()
      modifies this
      ensures AsEngine() == Apply(old(AsEngine()), Expire) && Sound(AsEngine())
      ensures slots == [] && absent == old(absent)
    {
      slots, offsets := [], [];
    }

    method MarkChunkProvenAbsent(id: ChunkId)
      modifies this`absent
      ensures AsEngine() == Apply(old(AsEngine()), Mark(id))
      ensures if id[0] == 0xDF && id[1] == 0x7C then id in absent else absent == old(absent)
      ensures old(|absent|) < PROVEN_ABSENT_CAP ==> old(absent) <= absent
      ensures old(TokensOnly(absent)) ==> TokensOnly(absent)
      ensures old(|absent|) <= PROVEN_ABSENT_CAP ==> |absent| <= PROVEN_ABSENT_CAP
    {
      if !LooksLikePatchToken(id) {
        return;
      }
      if |absent| >= PROVEN_ABSENT_CAP {
        absent := {};
      }
      absent := absent + {id};
    }

    /** Reads the current snapshot by binary search. */
    method Query(offset: nat, size: nat) returns (hits: seq<Hit>)
      requires Sound(AsEngine())
      ensures hits == Wanted(slots, offset, size)
    {
      SoundQuery(AsEngine(), offset, size);
      hits := ChunksForRange(offsets, offset, size);
    }
  }
}
