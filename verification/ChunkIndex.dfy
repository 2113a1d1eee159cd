/** The live index of chunk files on a node's disk, and paging through it. */
module ChunkIndex {
  import opened Basics
  import opened SortedSets

  /** A chunk id, compared as the big-endian number its 32 bytes spell. */
  type ChunkId = nat

  datatype Status = Ok | Err

  // ---------------------------------------------------------------------------------------------
  // Paging

  function After(s: set<ChunkId>, cursor: Option<ChunkId>): set<ChunkId> {
    if cursor.None? then s else set id | id in s && id > cursor.value
  }

  /** Up to `limit` ids strictly beyond the cursor, in ascending order. */
  function Page(s: set<ChunkId>, cursor: Option<ChunkId>, limit: nat): seq<ChunkId> {
    var all := Ascending(After(s, cursor));
    if limit <= |all| then all[..limit] else all
  }

  predicate Beyond(cursor: Option<ChunkId>, id: ChunkId) { cursor.None? || id > cursor.value }

  lemma PageFacts(s: set<ChunkId>, cursor: Option<ChunkId>, limit: nat)
    ensures StrictlyAscending(Page(s, cursor, limit))
    ensures forall id | id in Page(s, cursor, limit) :: id in s && Beyond(cursor, id)
    ensures |Page(s, cursor, limit)| <= limit
    ensures |Page(s, cursor, limit)| < limit ==>
              forall id | id in s && Beyond(cursor, id) :: id in Page(s, cursor, limit)
  {
    AscendingIsStrict(After(s, cursor));
    var all, p := Ascending(After(s, cursor)), Page(s, cursor, limit);
    forall id | id in p ensures id in After(s, cursor) { assert id in all; }
  }

  /** A page skips nothing: whatever it leaves out lies beyond its last id. */
  lemma PageSkipsNothing(s: set<ChunkId>, cursor: Option<ChunkId>, limit: nat, id: ChunkId)
    requires limit > 0 && id in s && Beyond(cursor, id)
    ensures id in Page(s, cursor, limit) || (Page(s, cursor, limit) != [] && id > Last(Page(s, cursor, limit)))
  {
    AscendingIsStrict(After(s, cursor));
    var all := Ascending(After(s, cursor));
    assert id in all;
    var i :| 0 <= i < |all| && all[i] == id;
    if i < limit { assert Page(s, cursor, limit)[i] == id; }
  }

  function Last(s: seq<ChunkId>): ChunkId
    requires s != []
  {
    s[|s| - 1]
  }

  /** Pages taken until an empty one, each from the index as it stood at that moment. */
  ghost predicate Rotation(snaps: seq<set<ChunkId>>, pages: seq<seq<ChunkId>>, limit: nat, cursor: Option<ChunkId>)
    decreases |pages|
  {
    && |snaps| == |pages| > 0
    && pages[0] == Page(snaps[0], cursor, limit)
    && if pages[0] == [] then |pages| == 1
       else Rotation(snaps[1..], pages[1..], limit, Some(Last(pages[0])))
  }

  function Concat(pages: seq<seq<ChunkId>>): seq<ChunkId> {
    if pages == [] then [] else pages[0] + Concat(pages[1..])
  }

  lemma {:induction false} RotationFacts(snaps: seq<set<ChunkId>>, pages: seq<seq<ChunkId>>, limit: nat,
                                         cursor: Option<ChunkId>)
    requires Rotation(snaps, pages, limit, cursor)
    ensures StrictlyAscending(Concat(pages))
    ensures forall id | id in Concat(pages) :: Beyond(cursor, id) && exists k :: 0 <= k < |snaps| && id in snaps[k]
    decreases |pages|
  {
    PageFacts(snaps[0], cursor, limit);
    if pages[0] == [] {
      assert Concat(pages[1..]) == [];
    } else {
      var last := Last(pages[0]);
      RotationFacts(snaps[1..], pages[1..], limit, Some(last));
      var rest := Concat(pages[1..]);
      forall j | 0 <= j < |rest| ensures last < rest[j] { assert rest[j] in rest; }
      JoinAscending(pages[0], rest);
      forall id | id in Concat(pages) ensures Beyond(cursor, id) && exists k :: 0 <= k < |snaps| && id in snaps[k] {
        if id in pages[0] {
          assert id in snaps[0];
        } else {
          assert last in pages[0] && id in rest;
          var k :| 0 <= k < |snaps[1..]| && id in snaps[1..][k];
          assert id in snaps[k + 1];
        }
      }
    }
  }

  lemma JoinAscending(a: seq<nat>, b: seq<nat>)
    requires a != [] && StrictlyAscending(a) && StrictlyAscending(b)
    requires forall j | 0 <= j < |b| :: Last(a) < b[j]
    ensures StrictlyAscending(a + b)
  {
  }

  lemma {:induction false} RotationComplete(snaps: seq<set<ChunkId>>, pages: seq<seq<ChunkId>>, limit: nat,
                                            cursor: Option<ChunkId>, id: ChunkId)
    requires limit > 0 && Rotation(snaps, pages, limit, cursor)
    requires Beyond(cursor, id) && forall k | 0 <= k < |snaps| :: id in snaps[k]
    ensures id in Concat(pages)
    decreases |pages|
  {
    PageSkipsNothing(snaps[0], cursor, limit, id);
    if id !in pages[0] {
      RotationComplete(snaps[1..], pages[1..], limit, Some(Last(pages[0])), id);
    }
  }

  /**
   * One rotation, with any inserts and deletes between its pages, visits ids in strictly ascending
   * order (so none twice), only ids that were present, and every id present throughout.
   */
  lemma RotationVisitsOnce(snaps: seq<set<ChunkId>>, pages: seq<seq<ChunkId>>, limit: nat)
    requires limit > 0 && Rotation(snaps, pages, limit, None)
    ensures StrictlyAscending(Concat(pages))
    ensures forall id | id in Concat(pages) :: exists k :: 0 <= k < |snaps| && id in snaps[k]
    ensures forall id | forall k | 0 <= k < |snaps| :: id in snaps[k] :: id in Concat(pages)
  {
    RotationFacts(snaps, pages, limit, None);
    forall id | forall k | 0 <= k < |snaps| :: id in snaps[k] ensures id in Concat(pages) {
      RotationComplete(snaps, pages, limit, None, id);
    }
  }

  /** With a zero limit the first page is empty and ends the rotation with everything unseen. */
  lemma ZeroLimitSeesNothing(snaps: seq<set<ChunkId>>, pages: seq<seq<ChunkId>>)
    requires Rotation(snaps, pages, 0, None)
    ensures Concat(pages) == []
  {
    assert Page(snaps[0], None, 0) == [];
    assert Concat(pages[1..]) == [];
  }

  // ---------------------------------------------------------------------------------------------
  // The storage object: disk, and the index that mirrors it once built

  class ChunkStorage {
    var disk: set<ChunkId>
    var quarantine: set<ChunkId>
    var index: Option<set<ChunkId>>
    const coalesced: bool

    /** Files renamed into place whose shared flush then failed: on disk, but never indexed. */
    ghost var stranded: set<ChunkId>

    ghost predicate Valid()
      reads this
    {
      && stranded <= disk
      && (index.Some? ==> index.value == disk - stranded)
      && (!coalesced ==> stranded == {})
    }

    constructor (onDisk: set<ChunkId>, coalesced: bool)
      ensures Valid() && disk == onDisk && index == None && quarantine == {} && this.coalesced == coalesced
    {
      disk, quarantine, index, stranded := onDisk, {}, None, {};
      this.coalesced := coalesced;
    }

    /** `fileOk`: create, write and rename succeed; `syncOk`: so does the flush. */
    method WriteChunk(id: ChunkId, fileOk: bool, syncOk: bool) returns (r: Status)
      requires Valid()
      modifies this
      ensures Valid() && quarantine == old(quarantine) && index.Some? == old(index).Some?
      ensures r == if fileOk && syncOk then Ok else Err
      ensures disk == if fileOk && (coalesced || syncOk) then old(disk) + {id} else old(disk)
      ensures index.Some? ==> index.value == if r.Ok? then old(index).value + {id} else old(index).value
    {
      if !coalesced {
        if !syncOk || !fileOk {
          return Err;
        }
        disk := disk + {id};
      } else {
        if !fileOk {
          return Err;
        }
        if id !in disk {
          stranded := stranded + {id};
        }
        disk := disk + {id};
        if !syncOk {
          return Err;
        }
      }
      stranded := stranded - {id};
      if index.Some? {
        index := Some(index.value + {id});
      }
      return Ok;
    }

    method ForgetChunkInIndex(id: ChunkId)
      modifies this`index
      ensures index == if old(index).Some? then Some(old(index).value - {id}) else None
    {
      if index.Some? {
        index := Some(index.value - {id});
      }
    }

    method DeleteChunk(id: ChunkId, removeOk: bool) returns (r: Status)
      requires Valid()
      modifies this
      ensures Valid() && quarantine == old(quarantine) && index.Some? == old(index).Some?
      ensures r == if id in old(disk) && !removeOk then Err else Ok
      ensures disk == if r.Ok? then old(disk) - {id} else old(disk)
      ensures index.Some? ==> index.value == if r.Ok? then old(index).value - {id} else old(index).value
    {
      if id in disk {
        if !removeOk {
          return Err;
        }
        disk, stranded := disk - {id}, stranded - {id};
      }
      ForgetChunkInIndex(id);
      return Ok;
    }

    method QuarantineChunk(id: ChunkId, renameOk: bool) returns (r: Status)
      requires Valid()
      modifies this
      ensures Valid() && index.Some? == old(index).Some?
      ensures r == if id in old(disk) && renameOk then Ok else Err
      ensures disk == if r.Ok? then old(disk) - {id} else old(disk)
      ensures quarantine == if r.Ok? then old(quarantine) + {id} else old(quarantine)
      ensures index.Some? ==> index.value == if r.Ok? then old(index).value - {id} else old(index).value
    {
      if id !in disk || !renameOk {
        return Err;
      }
      disk, quarantine, stranded := disk - {id}, quarantine + {id}, stranded - {id};
      ForgetChunkInIndex(id);
      return Ok;
    }

    /** A superseded base file is unlinked by its owner, who then drops it from the index. */
    method RetireFile(id: ChunkId)
      requires Valid()
      modifies this
      ensures Valid() && quarantine == old(quarantine) && index.Some? == old(index).Some?
      ensures disk == old(disk) - {id}
      ensures index.Some? ==> index.value == old(index).value - {id}
    {
      disk, stranded := disk - {id}, stranded - {id};
      ForgetChunkInIndex(id);
    }

    /** What a walk of the chunk directory may yield: its files in any order, or an error. */
    ghost predicate Walked(walk: Option<seq<ChunkId>>)
      reads this
    {
      walk.Some? ==> forall id :: id in walk.value <==> id in disk
    }

    /** Walks the directory on first use, stranded files included; a failed walk leaves the index unbuilt. */
    method ListChunks(walk: Option<seq<ChunkId>>) returns (ids: Option<seq<ChunkId>>)
      requires Valid() && Walked(walk)
      modifies this`index, this`stranded
      ensures Valid() && index == if old(index).Some? || walk.None? then old(index) else Some(disk)
      ensures ids == if old(index).Some? then Some(Ascending(index.value)) else walk
      ensures ids.None? <==> index.None?
    {
      if index.Some? {
        return Some(Ascending(index.value));
      }
      if walk.None? {
        return None;
      }
      var found := set id | id in walk.value;
      assert found == disk;
      index, stranded := Some(found), {};
      return walk;
    }

    method ListChunksPage(walk: Option<seq<ChunkId>>, cursor: Option<ChunkId>, limit: nat)
      returns (page: Option<seq<ChunkId>>)
      requires Valid() && Walked(walk)
      modifies this`index, this`stranded
      ensures Valid() && index == if old(index).Some? || walk.None? then old(index) else Some(disk)
      ensures page == if index.Some? then Some(Page(index.value, cursor, limit)) else None
    {
      if index.None? {
        var built := ListChunks(walk);
        if built.None? {
          return None;
        }
      }
      return Some(Page(index.value, cursor, limit));
    }

    /** Answers presence from the index alone: never claims a file the disk lacks. */
    method ChunksPresentBatch(walk: Option<seq<ChunkId>>, ids: seq<ChunkId>) returns (present: Option<seq<bool>>)
      requires Valid() && Walked(walk)
      modifies this`index, this`stranded
      ensures Valid() && index == if old(index).Some? || walk.None? then old(index) else Some(disk)
      ensures present.Some? <==> index.Some?
      ensures present.Some? ==> |present.value| == |ids|
      ensures present.Some? ==> forall i | 0 <= i < |ids| :: present.value[i] <==> ids[i] in disk && ids[i] !in stranded
    {
      if index.None? {
        var built := ListChunks(walk);
        if built.None? {
          return None;
        }
      }
      var have := index.value;
      present := Some(seq(|ids|, i requires 0 <= i < |ids| => ids[i] in have));
    }
  }

  // ---------------------------------------------------------------------------------------------
  // The same operations interleaved: each is several steps, and steps of different callers mix

  type OpId = nat

  /** What a caller has done to the disk and not yet told the index. */
  datatype Pending = Renamed(id: ChunkId) | Synced(id: ChunkId) | Unlinked(id: ChunkId)

  datatype Disk = Disk(files: set<ChunkId>, index: Option<set<ChunkId>>, pending: map<OpId, Pending>,
                       stranded: set<ChunkId>)

  datatype Step =
    | Rename(op: OpId, id: ChunkId)
    | SyncOk(op: OpId)
    | SyncFail(op: OpId)
    | Insert(op: OpId)
    | Unlink(op: OpId, id: ChunkId)
    | Forget(op: OpId)
    | BuildIndex

  predicate Enabled(s: Disk, step: Step) {
    match step
    case Rename(op, _) => op !in s.pending
    case SyncOk(op) => op in s.pending && s.pending[op].Renamed?
    case SyncFail(op) => op in s.pending && s.pending[op].Renamed?
    case Insert(op) => op in s.pending && s.pending[op].Synced?
    case Unlink(op, _) => op !in s.pending
    case Forget(op) => op in s.pending && s.pending[op].Unlinked?
    case BuildIndex => s.index.None?
  }

  function Edit(index: Option<set<ChunkId>>, add: set<ChunkId>, drop: set<ChunkId>): Option<set<ChunkId>> {
    if index.None? then None else Some(index.value + add - drop)
  }

  predicate Indexed(s: Disk, id: ChunkId) { s.index.Some? && id in s.index.value }

  /** `stranded` follows the files that were renamed into place, failed their flush and are not indexed. */
  function Apply(s: Disk, step: Step): Disk
    requires Enabled(s, step)
  {
    match step
    case Rename(op, id) => s.(files := s.files + {id}, pending := s.pending[op := Renamed(id)])
    case SyncOk(op) => s.(pending := s.pending[op := Synced(s.pending[op].id)])
    case SyncFail(op) =>
      var id := s.pending[op].id;
      s.(pending := s.pending - {op}, stranded := if Indexed(s, id) then s.stranded else s.stranded + {id})
    case Insert(op) =>
      var id := s.pending[op].id;
      s.(index := Edit(s.index, {id}, {}), pending := s.pending - {op}, stranded := s.stranded - {id})
    case Unlink(op, id) =>
      s.(files := s.files - {id}, pending := s.pending[op := Unlinked(id)], stranded := s.stranded - {id})
    case Forget(op) => s.(index := Edit(s.index, {}, {s.pending[op].id}), pending := s.pending - {op})
    case BuildIndex => s.(index := Some(s.files), stranded := {})
  }

  /** An operation that runs alone does to disk and index what the storage object's method does, and leaves no trace. */
  lemma AloneIsMethod(s: Disk, op: OpId, id: ChunkId)
    requires op !in s.pending
    ensures var t := Run(s, [Rename(op, id), SyncOk(op), Insert(op)]);
            t.files == s.files + {id} && t.index == Edit(s.index, {id}, {}) && t.pending == s.pending
    ensures var t := Run(s, [Rename(op, id), SyncFail(op)]);
            t.files == s.files + {id} && t.index == s.index && t.pending == s.pending
    ensures var t := Run(s, [Unlink(op, id), Forget(op)]);
            t.files == s.files - {id} && t.index == Edit(s.index, {}, {id}) && t.pending == s.pending
  {
    var a, b := Apply(s, Rename(op, id)), Apply(s, Unlink(op, id));
    var c := Apply(a, SyncOk(op));
    assert Run(s, [Rename(op, id), SyncOk(op), Insert(op)]) == Run(a, [SyncOk(op), Insert(op)]) == Run(c, [Insert(op)]);
    assert Run(c, [Insert(op)]) == Apply(c, Insert(op));
    assert Run(s, [Rename(op, id), SyncFail(op)]) == Run(a, [SyncFail(op)]) == Apply(a, SyncFail(op));
    assert Run(s, [Unlink(op, id), Forget(op)]) == Run(b, [Forget(op)]) == Apply(b, Forget(op));
  }

  ghost predicate Unlinking(s: Disk, id: ChunkId) {
    exists op :: op in s.pending && s.pending[op] == Unlinked(id)
  }

  ghost predicate Writing(s: Disk, id: ChunkId) {
    exists op :: op in s.pending && !s.pending[op].Unlinked? && s.pending[op].id == id
  }

  /** The discipline: a chunk is never written while being deleted, nor deleted while being written. */
  ghost predicate Disciplined(s: Disk, step: Step) {
    match step
    case Rename(_, id) => !Unlinking(s, id)
    case Unlink(_, id) => !Writing(s, id)
    case _ => true
  }

  ghost predicate Coherent(s: Disk) {
    && (forall op | op in s.pending :: s.pending[op].Unlinked? <==> s.pending[op].id !in s.files)
    && s.stranded <= s.files
    && (s.index.Some? ==> s.index.value !! s.stranded)
    && (s.index.Some? ==> forall id | id in s.index.value :: id in s.files || Unlinking(s, id))
    && (s.index.Some? ==> forall id | id in s.files :: id in s.index.value || Writing(s, id) || id in s.stranded)
  }

  lemma StepCoherent(s: Disk, step: Step)
    requires Coherent(s) && Enabled(s, step) && Disciplined(s, step)
    ensures Coherent(Apply(s, step))
  {
    var t := Apply(s, step);
    forall id | Unlinking(s, id) && !(step.Forget? && s.pending[step.op].id == id) ensures Unlinking(t, id) {
      var op :| op in s.pending && s.pending[op] == Unlinked(id);
      assert t.pending[op] == Unlinked(id);
    }
    forall id | Writing(s, id) && !((step.SyncFail? || step.Insert?) && s.pending[step.op].id == id)
      ensures Writing(t, id)
    {
      var op :| op in s.pending && !s.pending[op].Unlinked? && s.pending[op].id == id;
      assert op in t.pending && !t.pending[op].Unlinked? && t.pending[op].id == id;
    }
    match step
    case Rename(op, id) => assert t.pending[op] == Renamed(id);
    case Unlink(op, id) => assert t.pending[op] == Unlinked(id);
    case _ =>
  }

  // ---------------------------------------------------------------------------------------------
  // Letting everything in flight finish, in any order

  /** Steps that start nothing new. */
  predicate Finishing(step: Step) { !step.Rename? && !step.Unlink? }

  /** The steps bring every operation in flight to its end, and the index is in use by then. */
  ghost predicate Completes(s: Disk, rest: seq<Step>)
    decreases |rest|
  {
    if rest == [] then s.pending == map[] && s.index.Some?
    else Finishing(rest[0]) && Enabled(s, rest[0]) && Completes(Apply(s, rest[0]), rest[1..])
  }

  function Run(s: Disk, steps: seq<Step>): Disk
    decreases |steps|
  {
    if steps == [] then s
    else Run(if Enabled(s, steps[0]) then Apply(s, steps[0]) else s, steps[1..])
  }

  /** No phantom, and nothing missing except files whose flush failed. */
  ghost predicate Truthful(s: Disk) {
    s.index.Some? && s.index.value <= s.files && s.files - s.index.value <= s.stranded
  }

  /** However the operations in flight finish, the index ends up truthful. */
  ghost predicate Safe(s: Disk) {
    forall rest | Completes(s, rest) :: Truthful(Run(s, rest))
  }

  lemma {:induction false} CoherentCompletes(s: Disk, rest: seq<Step>)
    requires Coherent(s) && Completes(s, rest)
    ensures Coherent(Run(s, rest)) && Truthful(Run(s, rest)) && Run(s, rest).stranded <= Run(s, rest).files
    ensures Run(s, rest).index.value == Run(s, rest).files - Run(s, rest).stranded
    decreases |rest|
  {
    if rest != [] {
      StepCoherent(s, rest[0]);
      CoherentCompletes(Apply(s, rest[0]), rest[1..]);
    }
  }

  lemma CoherentIsSafe(s: Disk)
    requires Coherent(s)
    ensures Safe(s)
  {
    forall rest | Completes(s, rest) ensures Truthful(Run(s, rest)) { CoherentCompletes(s, rest); }
  }

  /** Finishing steps lead from one state to another. */
  ghost predicate Leads(s: Disk, steps: seq<Step>, t: Disk)
    decreases |steps|
  {
    if steps == [] then s == t
    else Finishing(steps[0]) && Enabled(s, steps[0]) && Leads(Apply(s, steps[0]), steps[1..], t)
  }

  lemma {:induction false} LeadsOn(s: Disk, a: seq<Step>, t: Disk, step: Step)
    requires Leads(s, a, t) && Finishing(step) && Enabled(t, step)
    ensures Leads(s, a + [step], Apply(t, step))
    decreases |a|
  {
    if a == [] {
      assert Leads(Apply(s, step), [step][1..], Apply(t, step));
    } else {
      LeadsOn(Apply(s, a[0]), a[1..], t, step);
      assert (a + [step])[1..] == a[1..] + [step];
    }
  }

  lemma {:induction false} LeadsCompletes(s: Disk, a: seq<Step>, t: Disk)
    requires Leads(s, a, t) && t.pending == map[] && t.index.Some?
    ensures Completes(s, a) && Run(s, a) == t
    decreases |a|
  {
    if a != [] { LeadsCompletes(Apply(s, a[0]), a[1..], t); }
  }

  /** Finishes an operation the good way: a write is flushed and indexed, a delete forgotten. */
  lemma FinishOne(s: Disk, a: seq<Step>, t: Disk, op: OpId) returns (b: seq<Step>, u: Disk)
    requires Leads(s, a, t) && op in t.pending
    ensures Leads(s, b, u) && u.pending == t.pending - {op} && u.files == t.files && u.stranded <= t.stranded
    ensures t.index.Some? ==> u.index == if t.pending[op].Unlinked? then Edit(t.index, {}, {t.pending[op].id})
                                         else Edit(t.index, {t.pending[op].id}, {})
  {
    b, u := a, t;
    if t.pending[op].Unlinked? {
      LeadsOn(s, b, u, Forget(op));
      b, u := b + [Forget(op)], Apply(u, Forget(op));
    } else {
      if t.pending[op].Renamed? {
        LeadsOn(s, b, u, SyncOk(op));
        b, u := b + [SyncOk(op)], Apply(u, SyncOk(op));
      }
      LeadsOn(s, b, u, Insert(op));
      b, u := b + [Insert(op)], Apply(u, Insert(op));
    }
  }

  /** Finishes everything but one operation. */
  lemma {:induction false} FinishOthers(s: Disk, a: seq<Step>, t: Disk, last: OpId) returns (b: seq<Step>, u: Disk)
    requires Leads(s, a, t) && last in t.pending && t.index.Some?
    ensures Leads(s, b, u) && u.pending == map[last := t.pending[last]] && u.index.Some?
    ensures u.files == t.files && u.stranded <= t.stranded
    decreases |t.pending|
  {
    if op :| op in t.pending && op != last {
      var c, v := FinishOne(s, a, t, op);
      assert v.pending.Keys == t.pending.Keys - {op};
      b, u := FinishOthers(s, c, v, last);
    } else {
      b, u := a, t;
      assert t.pending == map[last := t.pending[last]];
    }
  }

  /** An order in which the given operation finishes last, with the index built before. */
  lemma FinishLast(s: Disk, last: OpId) returns (rest: seq<Step>, u: Disk)
    requires last in s.pending
    ensures Completes(s, rest) && u == Run(s, rest) && u.files == s.files && u.stranded <= s.stranded
    ensures u.index.Some? && (s.pending[last].Unlinked? ==> s.pending[last].id !in u.index.value)
    ensures !s.pending[last].Unlinked? ==> s.pending[last].id in u.index.value
  {
    var a, t := [], s;
    if s.index.None? {
      LeadsOn(s, a, t, BuildIndex);
      a, t := a + [BuildIndex], Apply(t, BuildIndex);
    }
    var b, v := FinishOthers(s, a, t, last);
    rest, u := FinishOne(s, b, v, last);
    LeadsCompletes(s, rest, u);
  }

  /** A step keeps every outcome truthful exactly when it respects the discipline. */
  lemma DisciplinedIff(s: Disk, step: Step)
    requires Coherent(s) && Enabled(s, step)
    ensures Disciplined(s, step) <==> Safe(Apply(s, step))
  {
    var t := Apply(s, step);
    if Disciplined(s, step) {
      StepCoherent(s, step);
      CoherentIsSafe(t);
    } else {
      var op := Overlapping(s, step);
      var rest, u := FinishLast(t, op);
      assert !Truthful(u);
    }
  }

  /** The operation that a step overlaps. */
  lemma Overlapping(s: Disk, step: Step) returns (op: OpId)
    requires Coherent(s) && Enabled(s, step) && !Disciplined(s, step)
    ensures op in s.pending && op in Apply(s, step).pending && Apply(s, step).pending[op] == s.pending[op]
    ensures step.Rename? ==> s.pending[op] == Unlinked(step.id) && step.id !in s.stranded
    ensures step.Unlink? ==> !s.pending[op].Unlinked? && s.pending[op].id == step.id
    ensures step.Rename? || step.Unlink?
  {
    match step
    case Rename(_, id) => op :| op in s.pending && s.pending[op] == Unlinked(id);
    case Unlink(_, id) => op :| op in s.pending && !s.pending[op].Unlinked? && s.pending[op].id == id;
  }

  // ---------------------------------------------------------------------------------------------
  // Runs

  ghost predicate EnabledRun(s: Disk, steps: seq<Step>)
    decreases |steps|
  {
    steps == [] || (Enabled(s, steps[0]) && EnabledRun(Apply(s, steps[0]), steps[1..]))
  }

  ghost predicate DisciplinedRun(s: Disk, steps: seq<Step>)
    requires EnabledRun(s, steps)
    decreases |steps|
  {
    steps == [] || (Disciplined(s, steps[0]) && DisciplinedRun(Apply(s, steps[0]), steps[1..]))
  }

  /** At every point of the run, whatever is in flight may finish in any order. */
  ghost predicate AlwaysSafe(s: Disk, steps: seq<Step>)
    requires EnabledRun(s, steps)
    decreases |steps|
  {
    Safe(s) && (steps == [] || AlwaysSafe(Apply(s, steps[0]), steps[1..]))
  }

  /** A run is safe throughout exactly when no write and delete of one chunk overlap in it. */
  lemma {:induction false} AlwaysSafeIff(s: Disk, steps: seq<Step>)
    requires Coherent(s) && EnabledRun(s, steps)
    ensures AlwaysSafe(s, steps) <==> DisciplinedRun(s, steps)
    decreases |steps|
  {
    CoherentIsSafe(s);
    if steps != [] {
      DisciplinedIff(s, steps[0]);
      if Disciplined(s, steps[0]) {
        StepCoherent(s, steps[0]);
        AlwaysSafeIff(Apply(s, steps[0]), steps[1..]);
      }
    }
  }

  /** Index and disk are coherent at every point of the run. */
  ghost predicate AlwaysCoherent(s: Disk, steps: seq<Step>)
    requires EnabledRun(s, steps)
    decreases |steps|
  {
    Coherent(s) && (steps == [] || AlwaysCoherent(Apply(s, steps[0]), steps[1..]))
  }

  /** A step keeps index and disk coherent exactly when it respects the discipline. */
  lemma CoherentIff(s: Disk, step: Step)
    requires Coherent(s) && Enabled(s, step)
    ensures Coherent(Apply(s, step)) <==> Disciplined(s, step)
  {
    if Disciplined(s, step) {
      StepCoherent(s, step);
    } else {
      var op := Overlapping(s, step);
      assert op in Apply(s, step).pending;
    }
  }

  lemma {:induction false} AlwaysCoherentIff(s: Disk, steps: seq<Step>)
    requires Coherent(s) && EnabledRun(s, steps)
    ensures AlwaysCoherent(s, steps) <==> DisciplinedRun(s, steps)
    ensures DisciplinedRun(s, steps) ==> Coherent(Run(s, steps))
    decreases |steps|
  {
    if steps != [] {
      CoherentIff(s, steps[0]);
      if Disciplined(s, steps[0]) { AlwaysCoherentIff(Apply(s, steps[0]), steps[1..]); }
    }
  }

  /** Once no operation is in flight the index is exactly the files, less those whose flush failed. */
  lemma QuietIndexIsTruthful(files: set<ChunkId>, steps: seq<Step>)
    requires EnabledRun(Disk(files, None, map[], {}), steps) && DisciplinedRun(Disk(files, None, map[], {}), steps)
    requires var s := Run(Disk(files, None, map[], {}), steps); s.pending == map[] && s.index.Some?
    ensures var s := Run(Disk(files, None, map[], {}), steps);
            s.stranded <= s.files && s.index.value == s.files - s.stranded
  {
    AlwaysCoherentIff(Disk(files, None, map[], {}), steps);
    CoherentCompletes(Run(Disk(files, None, map[], {}), steps), []);
  }

  /** A delete inside a write can leave the index claiming a file that is gone. */
  lemma OverlapLeavesPhantom(id: ChunkId)
    ensures var es := [BuildIndex, Rename(1, id), SyncOk(1), Unlink(2, id), Forget(2), Insert(1)];
            Run(Disk({}, None, map[], {}), es) == Disk({}, Some({id}), map[], {})
  {
    var s0 := Disk({}, None, map[], {});
    var s1 := Apply(s0, BuildIndex);
    var s2 := Apply(s1, Rename(1, id));
    var s3 := Apply(s2, SyncOk(1));
    var s4 := Apply(s3, Unlink(2, id));
    var s5 := Apply(s4, Forget(2));
    var s6 := Apply(s5, Insert(1));
    assert s5.index.value == {} && s6.index.value == {id};
    assert s6.files == {} && s6.index == Some({id}) && s6.pending == map[];
    RunOne(s5, Insert(1), []);
    RunOne(s4, Forget(2), [Insert(1)]);
    RunOne(s3, Unlink(2, id), [Forget(2), Insert(1)]);
    RunOne(s2, SyncOk(1), [Unlink(2, id), Forget(2), Insert(1)]);
    RunOne(s1, Rename(1, id), [SyncOk(1), Unlink(2, id), Forget(2), Insert(1)]);
    RunOne(s0, BuildIndex, [Rename(1, id), SyncOk(1), Unlink(2, id), Forget(2), Insert(1)]);
  }

  lemma RunOne(s: Disk, step: Step, rest: seq<Step>)
    requires Enabled(s, step)
    ensures Run(s, [step] + rest) == Run(Apply(s, step), rest)
  {
    assert ([step] + rest)[1..] == rest;
  }
}
