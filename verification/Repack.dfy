/** Repacking a file's chunks into full 4 MiB blocks. */
module Repack {
  import opened Basics

  const CHUNK_SIZE: nat := 4 * 1024 * 1024

  type ChunkId = nat
  type Addr = nat

  datatype Read = ReadOk(data: Bytes) | ReadFailed

  /** A node's answer to one write: the chunks it cut the block into, or an error. */
  datatype Reply = ChunkIds(ids: seq<ChunkId>, sizes: seq<nat>) | WriteFailed

  datatype Location = Location(id: ChunkId, nodes: (Addr, Addr), size: nat, offset: nat)

  datatype Outcome = Repacked(blocks: seq<Bytes>, locations: seq<Location>) | Aborted

  function Concat(bs: seq<Bytes>): Bytes {
    if bs == [] then [] else Concat(bs[..|bs| - 1]) + bs[|bs| - 1]
  }

  predicate AllRead(inputs: seq<Read>) { forall i | 0 <= i < |inputs| :: inputs[i].ReadOk? }

  /** The chunks' contents, if all of them could be read. */
  function Contents(inputs: seq<Read>): Bytes {
    if inputs == [] then []
    else
      var n := |inputs| - 1;
      Contents(inputs[..n]) + (if inputs[n].ReadOk? then inputs[n].data else [])
  }

  /** Reference: cut the content into full blocks, the last one shorter if need be. */
  function Split(content: Bytes): seq<Bytes>
    decreases |content|
  {
    if content == [] then []
    else if |content| <= CHUNK_SIZE then [content]
    else [content[..CHUNK_SIZE]] + Split(content[CHUNK_SIZE..])
  }

  ghost predicate AllFull(bs: seq<Bytes>) { forall i | 0 <= i < |bs| :: |bs[i]| == CHUNK_SIZE }

  lemma {:induction false} ConcatAppend(a: seq<Bytes>, b: seq<Bytes>)
    ensures Concat(a + b) == Concat(a) + Concat(b)
  {
    if b == [] {
      assert a + b == a;
    } else {
      var n := |b| - 1;
      ConcatAppend(a, b[..n]);
      LastApart(a, b);
      assert Concat(a + b) == Concat(a + b[..n]) + b[n];
      assert Concat(b) == Concat(b[..n]) + b[n];
      hide Concat;
      Regroup(Concat(a), Concat(b[..n]), b[n]);
    }
  }

  lemma ConcatOne(b: Bytes)
    ensures Concat([b]) == b
  {
    assert [b][..0] == [];
  }

  /** Cutting and gluing are inverse, and only the last block may be short. */
  lemma {:induction false} SplitFacts(content: Bytes)
    ensures Concat(Split(content)) == content
    ensures forall i | 0 <= i < |Split(content)| :: 0 < |Split(content)[i]| <= CHUNK_SIZE
    ensures Split(content) != [] ==> AllFull(Split(content)[..|Split(content)| - 1])
    decreases |content|
  {
    if content != [] {
      if |content| <= CHUNK_SIZE {
        ConcatOne(content);
      } else {
        var head, rest := content[..CHUNK_SIZE], content[CHUNK_SIZE..];
        SplitFacts(rest);
        ConcatAppend([head], Split(rest));
        ConcatOne(head);
      }
    }
  }

  lemma {:induction false} SplitFull(full: seq<Bytes>, tail: Bytes)
    requires AllFull(full) && tail != []
    ensures Split(Concat(full) + tail) == full + Split(tail)
    decreases |full|
  {
    if full == [] {
      EmptyLeft(tail);
      EmptyLeft(Split(tail));
    } else {
      hide Split, Concat;
      var head, rest := full[0], full[1..];
      SplitFull(rest, tail);
      GlueFirst(full, tail);
      SplitHead(head, Concat(rest) + tail);
      FirstApart(full, Split(tail));
    }
  }

  lemma GlueFirst(full: seq<Bytes>, tail: Bytes)
    requires full != []
    ensures Concat(full) + tail == full[0] + (Concat(full[1..]) + tail)
  {
    hide Concat;
    ConcatAppend([full[0]], full[1..]);
    ConcatOne(full[0]);
    assert full == [full[0]] + full[1..];
  }

  lemma SplitHead(head: Bytes, rest: Bytes)
    requires |head| == CHUNK_SIZE && rest != []
    ensures Split(head + rest) == [head] + Split(rest)
  {
    assert (head + rest)[..CHUNK_SIZE] == head && (head + rest)[CHUNK_SIZE..] == rest;
  }

  lemma SplitFullOnly(full: seq<Bytes>)
    requires AllFull(full)
    ensures Split(Concat(full)) == full
  {
    if full != [] {
      var n := |full| - 1;
      SplitFull(full[..n], full[n]);
      assert full == full[..n] + [full[n]];
    }
  }

  // ---------------------------------------------------------------------------------------------
  // Recording where the chunks of a block went

  function Total(s: seq<nat>): nat {
    if s == [] then 0 else Total(s[..|s| - 1]) + s[|s| - 1]
  }

  /** Each location starts where the one before it ended. */
  ghost predicate Contiguous(locs: seq<Location>, end: nat) {
    if locs == [] then end == 0
    else
      var n := |locs| - 1;
      end == locs[n].offset + locs[n].size && Contiguous(locs[..n], locs[n].offset)
  }

  lemma ContiguousSnoc(locs: seq<Location>, end: nat, next: Location)
    requires Contiguous(locs, end) && next.offset == end
    ensures Contiguous(locs + [next], end + next.size)
  {
    assert (locs + [next])[..|locs|] == locs;
  }

  /** What the file's metadata says about a chunk, apart from its place: id, size and the nodes that hold it. */
  type Entry = (ChunkId, nat, (Addr, Addr))

  function Entries(locs: seq<Location>): (r: seq<Entry>)
    ensures |r| == |locs| && forall i | 0 <= i < |r| :: r[i] == (locs[i].id, locs[i].size, locs[i].nodes)
  {
    seq(|locs|, i requires 0 <= i < |locs| => (locs[i].id, locs[i].size, locs[i].nodes))
  }

  /** The chunks a node reported for a block, as long as both of its lists go. */
  function Reported(reply: Reply, nodes: (Addr, Addr)): (r: seq<Entry>)
    ensures reply.ChunkIds? ==> |r| == Min(|reply.ids|, |reply.sizes|)
    ensures forall i | 0 <= i < |r| :: reply.ChunkIds? && r[i] == (reply.ids[i], reply.sizes[i], nodes)
  {
    if reply.WriteFailed? then []
    else
      var n := Min(|reply.ids|, |reply.sizes|);
      seq(n, i requires 0 <= i < n => (reply.ids[i], reply.sizes[i], nodes))
  }

  /** The k-th block goes to the k-th pair of nodes, counting round the list. */
  function PairFor(allNodes: seq<Addr>, k: nat): (Addr, Addr)
    requires allNodes != []
  {
    (allNodes[2 * k % |allNodes|], allNodes[(2 * k + 1) % |allNodes|])
  }

  /** Every chunk reported for the blocks, in order. */
  function AllReported(blocks: seq<Bytes>, allNodes: seq<Addr>, store: (nat, Bytes) -> Reply): seq<Entry>
    requires allNodes != []
  {
    if blocks == [] then []
    else
      var k := |blocks| - 1;
      AllReported(blocks[..k], allNodes, store) + Reported(store(k, blocks[k]), PairFor(allNodes, k))
  }

  method RecordLocations(locs: seq<Location>, reply: Reply, nodes: (Addr, Addr), offset: nat)
    returns (r: seq<Location>, next: nat)
    requires reply.ChunkIds? && Contiguous(locs, offset)
    ensures Contiguous(r, next) && locs <= r
    ensures next == offset + Total(reply.sizes[..Min(|reply.ids|, |reply.sizes|)])
    ensures Entries(r) == Entries(locs) + Reported(reply, nodes)
  {
    hide Entries, Contiguous, Reported;
    r, next := locs, offset;
    var k := 0;
    ghost var reported := Reported(reply, nodes);
    while k < |reply.ids| && k < |reply.sizes|
      invariant 0 <= k <= Min(|reply.ids|, |reply.sizes|)
      invariant Contiguous(r, next) && locs <= r
      invariant next == offset + Total(reply.sizes[..k])
      invariant Entries(r) == Entries(locs) + reported[..k]
    {
      var loc := Location(reply.ids[k], nodes, reply.sizes[k], next);
      ContiguousSnoc(r, next, loc);
      EntriesSnoc(r, loc);
      TotalNext(reply.sizes, k);
      Regroup(Entries(locs), reported[..k], [reported[k]]);
      assert reported[..k + 1] == reported[..k] + [reported[k]];
      r, next := r + [loc], next + reply.sizes[k];
      k := k + 1;
    }
    assert reported[..k] == reported;
  }

  lemma EntriesSnoc(locs: seq<Location>, loc: Location)
    ensures Entries(locs + [loc]) == Entries(locs) + [(loc.id, loc.size, loc.nodes)]
  {
  }

  lemma TotalNext(s: seq<nat>, k: nat)
    requires k < |s|
    ensures Total(s[..k + 1]) == Total(s[..k]) + s[k]
  {
    assert s[..k + 1][..k] == s[..k];
  }

  /** The store cuts a block into chunks whose reported sizes add up to the block. */
  ghost predicate Honest(store: (nat, Bytes) -> Reply) {
    forall k, b :: store(k, b).ChunkIds? ==>
      |store(k, b).ids| == |store(k, b).sizes| && Total(store(k, b).sizes) == |b|
  }

  // ---------------------------------------------------------------------------------------------
  // The repack loop

  /** Both copies of a chunk go to nodes in the list, and to different ones if the list has no repeats. */
  ghost predicate SpreadOver(locs: seq<Location>, allNodes: seq<Addr>) {
    forall i | 0 <= i < |locs| :: locs[i].nodes.0 in allNodes && locs[i].nodes.1 in allNodes
      && (Distinct(allNodes) ==> locs[i].nodes.0 != locs[i].nodes.1)
  }

  ghost predicate NeverFails(store: (nat, Bytes) -> Reply) { forall k, b :: store(k, b).ChunkIds? }

  /** Blocks flushed so far, their locations, and the bytes still waiting. */
  datatype Packer = Packer(blocks: seq<Bytes>, locations: seq<Location>, buffer: Bytes, offset: nat, writeIdx: nat)

  ghost predicate Packing(p: Packer, allNodes: seq<Addr>, store: (nat, Bytes) -> Reply, content: Bytes)
    requires allNodes != []
  {
    && p.writeIdx == 2 * |p.blocks|
    && Entries(p.locations) == AllReported(p.blocks, allNodes, store)
    && Concat(p.blocks) + p.buffer == content
    && Contiguous(p.locations, p.offset)
    && SpreadOver(p.locations, allNodes)
    && (Honest(store) ==> p.offset == |Concat(p.blocks)|)
  }

  method FlushBlock(p: Packer, allNodes: seq<Addr>, store: (nat, Bytes) -> Reply, mirror: (nat, Bytes) -> Reply,
                    ghost content: Bytes)
    returns (ok: bool, q: Packer)
    requires |allNodes| >= 2
    requires Packing(p, allNodes, store, content) && AllFull(p.blocks) && p.buffer != []
    ensures ok ==> Packing(q, allNodes, store, content) && |q.buffer| < |p.buffer|
    ensures NeverFails(store) && NeverFails(mirror) ==> ok
    ensures ok && |p.buffer| >= CHUNK_SIZE ==> AllFull(q.blocks)
    ensures ok && |p.buffer| < CHUNK_SIZE ==> q.buffer == [] && q.blocks == Split(content)
  {
    hide Packing, Split, Contiguous, Total, NeverFails, AllReported, Reported, Entries, Concat;
    var flushSize := Min(|p.buffer|, CHUNK_SIZE);
    var block, rest := p.buffer[..flushSize], p.buffer[flushSize..];
    FlushStep(p.blocks, p.buffer, flushSize);
    PackingFacts(p, allNodes, store, content);
    var node1, node2 := allNodes[p.writeIdx % |allNodes|], allNodes[(p.writeIdx + 1) % |allNodes|];
    var reply := store(|p.blocks|, block);
    if reply.WriteFailed? || mirror(|p.blocks|, block).WriteFailed? {
      NeverFailsAt(store, |p.blocks|, block);
      NeverFailsAt(mirror, |p.blocks|, block);
      return false, p;
    }
    var locations, offset := RecordLocations(p.locations, reply, (node1, node2), p.offset);
    q := Packer(p.blocks + [block], locations, rest, offset, p.writeIdx + 2);
    FlushPacks(p, q, block, allNodes, store, content);
    if |p.buffer| < CHUNK_SIZE {
      assert rest == [] && Concat(q.blocks) + rest == Concat(q.blocks);
    }
    return true, q;
  }

  lemma NeverFailsAt(store: (nat, Bytes) -> Reply, k: nat, block: Bytes)
    ensures NeverFails(store) ==> store(k, block).ChunkIds?
  {
  }

  lemma PackingFacts(p: Packer, allNodes: seq<Addr>, store: (nat, Bytes) -> Reply, content: Bytes)
    requires |allNodes| >= 2 && Packing(p, allNodes, store, content)
    ensures p.writeIdx == 2 * |p.blocks| && Contiguous(p.locations, p.offset)
    ensures Concat(p.blocks) + p.buffer == content && SpreadOver(p.locations, allNodes)
    ensures Entries(p.locations) == AllReported(p.blocks, allNodes, store)
    ensures p.buffer == [] ==>
              exists end :: Contiguous(p.locations, end) && (Honest(store) ==> end == |content|)
  {
    if p.buffer == [] { assert Concat(p.blocks) + [] == Concat(p.blocks); }
  }

  /** Appending the block's reported chunks to the locations keeps the books. */
  lemma FlushPacks(p: Packer, q: Packer, block: Bytes, allNodes: seq<Addr>, store: (nat, Bytes) -> Reply,
                   content: Bytes)
    requires |allNodes| >= 2 && Packing(p, allNodes, store, content) && store(|p.blocks|, block).ChunkIds?
    requires q.blocks == p.blocks + [block] && q.writeIdx == p.writeIdx + 2
    requires Concat(q.blocks) == Concat(p.blocks) + block && Concat(q.blocks) + q.buffer == content
    requires Contiguous(q.locations, q.offset)
    requires var reply := store(|p.blocks|, block);
      && Entries(q.locations) == Entries(p.locations) + Reported(reply, PairFor(allNodes, |p.blocks|))
      && q.offset == p.offset + Total(reply.sizes[..Min(|reply.ids|, |reply.sizes|)])
    ensures Packing(q, allNodes, store, content)
  {
    hide Contiguous, Concat;
    var reply := store(|p.blocks|, block);
    AllReportedNext(p.blocks, block, allNodes, store);
    SpreadNext(p, q, reply, allNodes);
    hide AllReported, SpreadOver;
    assert reply.sizes[..|reply.sizes|] == reply.sizes;
  }

  lemma SpreadNext(p: Packer, q: Packer, reply: Reply, allNodes: seq<Addr>)
    requires |allNodes| >= 2 && SpreadOver(p.locations, allNodes)
    requires Entries(q.locations) == Entries(p.locations) + Reported(reply, PairFor(allNodes, |p.blocks|))
    ensures SpreadOver(q.locations, allNodes)
  {
    var n, k := |p.locations|, |p.blocks|;
    NextSlotDiffers(2 * k, |allNodes|);
    forall i | 0 <= i < |q.locations|
      ensures q.locations[i].nodes == if i < n then p.locations[i].nodes else PairFor(allNodes, k)
    {
      assert Entries(q.locations)[i] ==
        if i < n then Entries(p.locations)[i] else Reported(reply, PairFor(allNodes, k))[i - n];
    }
  }

  /**
   * Reads every chunk in order, accumulates, and flushes full blocks to a rotating pair of nodes.
   * `store(k, b)` is the first node's answer to the k-th flush; the second node's only matters by failing.
   */
  method HandleRepack(inputs: seq<Read>, allNodes: seq<Addr>, store: (nat, Bytes) -> Reply,
                      mirror: (nat, Bytes) -> Reply)
    returns (out: Outcome)
    ensures |allNodes| < 2 ==> out.Aborted?
    ensures !AllRead(inputs) ==> out.Aborted?
    ensures |allNodes| >= 2 && AllRead(inputs) && NeverFails(store) && NeverFails(mirror) ==> out.Repacked?
    ensures out.Repacked? ==> out.blocks == Split(Contents(inputs)) && SpreadOver(out.locations, allNodes)
    ensures out.Repacked? ==> |allNodes| >= 2 && Entries(out.locations) == AllReported(out.blocks, allNodes, store)
    ensures out.Repacked? ==>
              exists end :: Contiguous(out.locations, end) && (Honest(store) ==> end == |Contents(inputs)|)
  {
    hide Packing, Split, Contiguous, Contents, AllReported, Entries, NeverFails, SpreadOver, AllFull;
    if |allNodes| < 2 {
      return Aborted;
    }
    var p, i := Packer([], [], [], 0, 0), 0;
    StartPacking(inputs, allNodes, store);
    while i < |inputs|
      invariant 0 <= i <= |inputs| && forall k | 0 <= k < i :: inputs[k].ReadOk?
      invariant Packing(p, allNodes, store, Contents(inputs[..i]))
      invariant i < |inputs| ==> AllFull(p.blocks)
      invariant i == |inputs| ==> p.buffer == [] && p.blocks == Split(Contents(inputs[..i]))
    {
      if inputs[i].ReadFailed? {
        return Aborted;
      }
      ghost var content := Contents(inputs[..i + 1]);
      TakeIn(inputs, i, p, allNodes, store);
      p := p.(buffer := p.buffer + inputs[i].data);
      var isLast := i + 1 == |inputs|;
      while |p.buffer| >= CHUNK_SIZE || (isLast && p.buffer != [])
        invariant Packing(p, allNodes, store, content)
        invariant AllFull(p.blocks) || (isLast && p.buffer == [] && p.blocks == Split(content))
        decreases |p.buffer|
      {
        var ok;
        ok, p := FlushBlock(p, allNodes, store, mirror, content);
        if !ok {
          return Aborted;
        }
        if p.buffer != [] && |p.buffer| < CHUNK_SIZE && !isLast {
          break;
        }
      }
      if isLast && AllFull(p.blocks) {
        DrainedIsSplit(p, allNodes, store, content);
      }
      i := i + 1;
    }
    assert inputs[..i] == inputs;
    PackingFacts(p, allNodes, store, Contents(inputs));
    return Repacked(p.blocks, p.locations);
  }

  lemma StartPacking(inputs: seq<Read>, allNodes: seq<Addr>, store: (nat, Bytes) -> Reply)
    requires allNodes != []
    ensures Packing(Packer([], [], [], 0, 0), allNodes, store, Contents(inputs[..0])) && AllFull([])
    ensures inputs == [] ==> [] == Split(Contents(inputs[..0]))
  {
  }

  lemma TakeIn(inputs: seq<Read>, i: nat, p: Packer, allNodes: seq<Addr>, store: (nat, Bytes) -> Reply)
    requires allNodes != []
    requires i < |inputs| && inputs[i].ReadOk? && Packing(p, allNodes, store, Contents(inputs[..i]))
    ensures Packing(p.(buffer := p.buffer + inputs[i].data), allNodes, store, Contents(inputs[..i + 1]))
  {
    assert inputs[..i + 1][..i] == inputs[..i];
    assert Concat(p.blocks) + (p.buffer + inputs[i].data) == (Concat(p.blocks) + p.buffer) + inputs[i].data;
  }

  lemma DrainedIsSplit(p: Packer, allNodes: seq<Addr>, store: (nat, Bytes) -> Reply, content: Bytes)
    requires allNodes != [] && Packing(p, allNodes, store, content) && AllFull(p.blocks) && p.buffer == []
    ensures p.blocks == Split(content)
  {
    assert Concat(p.blocks) + [] == Concat(p.blocks);
    SplitFullOnly(p.blocks);
  }

  lemma AllReportedNext(blocks: seq<Bytes>, block: Bytes, allNodes: seq<Addr>, store: (nat, Bytes) -> Reply)
    requires allNodes != []
    ensures AllReported(blocks + [block], allNodes, store)
      == AllReported(blocks, allNodes, store) + Reported(store(|blocks|, block), PairFor(allNodes, |blocks|))
  {
    assert (blocks + [block])[..|blocks|] == blocks;
  }

  lemma {:induction false} ContentsAppend(a: seq<Read>, b: seq<Read>)
    ensures Contents(a + b) == Contents(a) + Contents(b)
    ensures forall d :: Contents([ReadOk(d)]) == d
  {
    forall d ensures Contents([ReadOk(d)]) == d { assert [ReadOk(d)][..0] == []; }
    if b == [] {
      assert a + b == a;
    } else {
      var n := |b| - 1;
      ContentsAppend(a, b[..n]);
      LastApart(a, b);
      assert Contents(a + b) == Contents(a + b[..n]) + (if b[n].ReadOk? then b[n].data else []);
      hide Contents;
      Regroup(Contents(a), Contents(b[..n]), if b[n].ReadOk? then b[n].data else []);
    }
  }

  lemma NextSlotDiffers(w: nat, n: nat)
    requires n >= 2
    ensures w % n != (w + 1) % n
  {
    var q1, q2 := w / n, (w + 1) / n;
    assert w == n * q1 + w % n && w + 1 == n * q2 + (w + 1) % n;
    assert n * (q2 - q1) == n * q2 - n * q1;
    NotOne(n, q2 - q1);
  }

  lemma NotOne(n: nat, k: int)
    requires n >= 2
    ensures n * k != 1
  {
    if k >= 1 { assert n * k >= n; } else { assert n * k <= 0; }
  }

  lemma FlushStep(blocks: seq<Bytes>, buffer: Bytes, k: nat)
    requires AllFull(blocks) && buffer != [] && k == Min(|buffer|, CHUNK_SIZE)
    ensures Concat(blocks + [buffer[..k]]) == Concat(blocks) + buffer[..k]
    ensures Concat(blocks + [buffer[..k]]) + buffer[k..] == Concat(blocks) + buffer
    ensures k == CHUNK_SIZE ==> AllFull(blocks + [buffer[..k]])
    ensures k < CHUNK_SIZE ==> Split(Concat(blocks + [buffer[..k]])) == blocks + [buffer[..k]]
  {
    hide Concat, Split;
    ConcatAppend(blocks, [buffer[..k]]);
    ConcatOne(buffer[..k]);
    SplitAt(buffer, k);
    Regroup(Concat(blocks), buffer[..k], buffer[k..]);
    if k < CHUNK_SIZE {
      SplitFull(blocks, buffer[..k]);
      SplitShort(buffer[..k]);
    }
  }

  lemma SplitShort(b: Bytes)
    requires 0 < |b| <= CHUNK_SIZE
    ensures Split(b) == [b]
  {
  }
}
