/** Byte-range file locks kept by the client. */
module Locks {
  import opened Basics

  const U64_MAX: u64 := U64_RANGE - 1

  type Inode = u64

  datatype LockType = Shared | Exclusive

  datatype FileLock = FileLock(owner: u64, pid: nat, lockType: LockType, start: u64, len: u64)

  // ---------------------------------------------------------------------------------------------
  // Ranges and conflicts

  /** One past the last byte: zero length means to the end of the file, and the sum saturates. */
  function End(l: FileLock): u64 {
    if l.len == 0 || l.start + l.len > U64_MAX then U64_MAX else l.start + l.len
  }

  predicate Covers(l: FileLock, byte: nat) { l.start <= byte < End(l) }

  predicate Overlaps(a: FileLock, b: FileLock) { a.start < End(b) && b.start < End(a) }

  lemma OverlapIsSharedByte(a: FileLock, b: FileLock)
    ensures Overlaps(a, b) <==> exists byte :: Covers(a, byte) && Covers(b, byte)
  {
    var m := if a.start <= b.start then b.start else a.start;
    assert Overlaps(a, b) ==> Covers(a, m) && Covers(b, m);
  }

  predicate ConflictsWith(a: FileLock, b: FileLock) {
    a.owner != b.owner && Overlaps(a, b) && (a.lockType.Exclusive? || b.lockType.Exclusive?)
  }

  predicate SameProcess(a: FileLock, b: FileLock) { a.pid != 0 && b.pid != 0 && a.pid == b.pid }

  predicate Blocks(existing: FileLock, wanted: FileLock) {
    !SameProcess(existing, wanted) && ConflictsWith(wanted, existing)
  }

  /** A held lock stands in the way of a different owner's, one of them exclusive, on a common byte, unless they share
      a known process. */
  lemma BlocksIff(existing: FileLock, wanted: FileLock)
    ensures Blocks(existing, wanted) <==>
              && existing.owner != wanted.owner && (existing.pid == 0 || existing.pid != wanted.pid)
              && (existing.lockType == Exclusive || wanted.lockType == Exclusive)
              && exists byte :: Covers(existing, byte) && Covers(wanted, byte)
  {
    OverlapIsSharedByte(existing, wanted);
  }

  // ---------------------------------------------------------------------------------------------
  // The lock table and its operations

  type Table = map<Inode, seq<FileLock>>

  datatype Op =
    | TryLock(ino: Inode, lock: FileLock)
    | Unlock(ino: Inode, owner: u64, start: u64, len: u64)
    | ReleaseAll(ino: Inode, owner: u64)

  function LocksOn(t: Table, ino: Inode): seq<FileLock> { if ino in t then t[ino] else [] }

  predicate Granted(held: seq<FileLock>, wanted: FileLock) {
    forall i | 0 <= i < |held| :: !Blocks(held[i], wanted)
  }

  ghost predicate IsFirstBlocker(held: seq<FileLock>, l: FileLock, wanted: FileLock) {
    exists i :: 0 <= i < |held| && held[i] == l && Blocks(l, wanted) && Granted(held[..i], wanted)
  }

  /** Drops every lock of the owner that touches the range; whole locks go, never parts of one. */
  function DropOverlapping(held: seq<FileLock>, owner: u64, range: FileLock): (r: seq<FileLock>)
    ensures forall l :: l in r <==> l in held && !(l.owner == owner && Overlaps(l, range))
  {
    if held == [] then []
    else
      var n := |held| - 1;
      assert held == held[..n] + [held[n]];
      var rest := DropOverlapping(held[..n], owner, range);
      if held[n].owner == owner && Overlaps(held[n], range) then rest else rest + [held[n]]
  }

  function DropOwner(held: seq<FileLock>, owner: u64): (r: seq<FileLock>)
    ensures forall l :: l in r <==> l in held && l.owner != owner
  {
    if held == [] then []
    else
      var n := |held| - 1;
      assert held == held[..n] + [held[n]];
      var rest := DropOwner(held[..n], owner);
      if held[n].owner == owner then rest else rest + [held[n]]
  }

  function UnlockRange(owner: u64, start: u64, len: u64): FileLock {
    FileLock(owner, 0, Shared, start, len)
  }

  /** Stores the list, forgetting the inode once nothing is left. */
  function Put(t: Table, ino: Inode, held: seq<FileLock>): Table {
    if held == [] then t - {ino} else t[ino := held]
  }

  function Apply(t: Table, op: Op): Table {
    match op
    case TryLock(ino, lock) =>
      var held := LocksOn(t, ino);
      if Granted(held, lock) then t[ino := DropOverlapping(held, lock.owner, lock) + [lock]] else t
    case Unlock(ino, owner, start, len) =>
      if ino in t then Put(t, ino, DropOverlapping(t[ino], owner, UnlockRange(owner, start, len))) else t
    case ReleaseAll(ino, owner) =>
      if ino in t then Put(t, ino, DropOwner(t[ino], owner)) else t
  }

  function Run(t: Table, ops: seq<Op>): Table
    decreases |ops|
  {
    if ops == [] then t else Run(Apply(t, ops[0]), ops[1..])
  }

  // ---------------------------------------------------------------------------------------------
  // What every reachable table guarantees

  /** Two locks may stand on a common byte only if both read, or one process holds both. */
  predicate Coexist(a: FileLock, b: FileLock) {
    Overlaps(a, b) ==> a.owner != b.owner && (SameProcess(a, b) || (a.lockType.Shared? && b.lockType.Shared?))
  }

  ghost predicate Safe(held: seq<FileLock>) {
    forall i, j | 0 <= i < j < |held| :: Coexist(held[i], held[j])
  }

  ghost predicate Sound(t: Table) {
    forall ino | ino in t :: t[ino] != [] && Safe(t[ino])
  }

  // ---------------------------------------------------------------------------------------------
  // What each operation leaves on an inode

  /** Exactly the locks to keep are there, as often and in the order they were. */
  ghost predicate Keeps(before: seq<FileLock>, after: seq<FileLock>, keep: FileLock -> bool) {
    exists places: seq<nat> :: Selects(before, after, places, keep)
  }

  /** The places of the locks kept, in ascending order. */
  ghost predicate Selects(before: seq<FileLock>, after: seq<FileLock>, places: seq<nat>, keep: FileLock -> bool) {
    && |places| == |after|
    && (forall k | 0 <= k < |places| :: places[k] < |before| && after[k] == before[places[k]])
    && (forall j, k | 0 <= j < k < |places| :: places[j] < places[k])
    && (forall i: nat | i < |before| :: keep(before[i]) <==> i in places)
  }

  function NotOf(owner: u64): FileLock -> bool { (l: FileLock) => l.owner != owner }

  function ApartFrom(owner: u64, range: FileLock): FileLock -> bool {
    (l: FileLock) => !(l.owner == owner && Overlaps(l, range))
  }

  lemma KeepsNone(keep: FileLock -> bool)
    ensures Keeps([], [], keep)
  {
    assert Selects([], [], [], keep);
  }

  lemma KeepsOneMore(before: seq<FileLock>, after: seq<FileLock>, keep: FileLock -> bool, l: FileLock)
    requires Keeps(before, after, keep)
    ensures Keeps(before + [l], if keep(l) then after + [l] else after, keep)
  {
    hide Selects;
    var places: seq<nat> :| Selects(before, after, places, keep);
    if keep(l) {
      SelectsLast(before, after, places, keep, l);
    } else {
      SelectsNotLast(before, after, places, keep, l);
    }
  }

  lemma SelectsNotLast(before: seq<FileLock>, after: seq<FileLock>, places: seq<nat>, keep: FileLock -> bool,
                       l: FileLock)
    requires Selects(before, after, places, keep) && !keep(l)
    ensures Selects(before + [l], after, places, keep)
  {
    assert |before| !in places;
  }

  lemma SelectsLast(before: seq<FileLock>, after: seq<FileLock>, places: seq<nat>, keep: FileLock -> bool, l: FileLock)
    requires Selects(before, after, places, keep) && keep(l)
    ensures Selects(before + [l], after + [l], places + [|before|], keep)
  {
    var all, more := before + [l], places + [|before|];
    forall i: nat | i < |all| ensures keep(all[i]) <==> i in more {
      if i < |before| { assert all[i] == before[i]; } else { assert more[|places|] == i; }
    }
  }

  lemma {:induction false} DropOverlappingKeeps(held: seq<FileLock>, owner: u64, range: FileLock)
    ensures Keeps(held, DropOverlapping(held, owner, range), ApartFrom(owner, range))
  {
    hide Keeps, Overlaps;
    if held == [] {
      KeepsNone(ApartFrom(owner, range));
    } else {
      var n := |held| - 1;
      DropOverlappingKeeps(held[..n], owner, range);
      KeepsOneMore(held[..n], DropOverlapping(held[..n], owner, range), ApartFrom(owner, range), held[n]);
      assert held[..n] + [held[n]] == held;
    }
  }

  lemma {:induction false} DropOwnerKeeps(held: seq<FileLock>, owner: u64)
    ensures Keeps(held, DropOwner(held, owner), NotOf(owner))
  {
    hide Keeps;
    if held == [] {
      KeepsNone(NotOf(owner));
    } else {
      var n := |held| - 1;
      DropOwnerKeeps(held[..n], owner);
      KeepsOneMore(held[..n], DropOwner(held[..n], owner), NotOf(owner), held[n]);
      assert held[..n] + [held[n]] == held;
    }
  }

  /** No operation touches another inode's locks. */
  lemma OtherInodesUntouched(t: Table, op: Op, ino: Inode)
    requires ino != op.ino
    ensures LocksOn(Apply(t, op), ino) == LocksOn(t, ino)
  {
  }

  /** Releasing an owner drops all of its locks on the inode and keeps the others' as they were. */
  lemma ReleaseFreesOwner(t: Table, ino: Inode, owner: u64)
    ensures var after := LocksOn(Apply(t, ReleaseAll(ino, owner)), ino);
      (forall l | l in after :: l.owner != owner) && Keeps(LocksOn(t, ino), after, NotOf(owner))
  {
    DropOwnerKeeps(LocksOn(t, ino), owner);
  }

  /** Unlocking drops the owner's locks that share a byte with the range and keeps everything else as it was. */
  lemma UnlockFreesRange(t: Table, ino: Inode, owner: u64, start: u64, len: u64)
    ensures Keeps(LocksOn(t, ino), LocksOn(Apply(t, Unlock(ino, owner, start, len)), ino),
                  ApartFrom(owner, UnlockRange(owner, start, len)))
  {
    var range := UnlockRange(owner, start, len);
    DropOverlappingKeeps(LocksOn(t, ino), owner, range);
  }

  /** A granted lock goes last, in place of the owner's locks it overlaps; a refused one changes nothing. */
  lemma LockReplacesOwn(t: Table, ino: Inode, lock: FileLock)
    ensures var held, after := LocksOn(t, ino), LocksOn(Apply(t, TryLock(ino, lock)), ino);
      if exists l :: l in held && Blocks(l, lock) then after == held
      else after != [] && after[|after| - 1] == lock
           && Keeps(held, after[..|after| - 1], ApartFrom(lock.owner, lock))
  {
    var held := LocksOn(t, ino);
    DropOverlappingKeeps(held, lock.owner, lock);
    var rest := DropOverlapping(held, lock.owner, lock);
    assert (rest + [lock])[..|rest|] == rest;
    if !Granted(held, lock) {
      var i :| 0 <= i < |held| && Blocks(held[i], lock);
      assert held[i] in held;
    }
  }

  lemma {:induction false} DropOverlappingSafe(held: seq<FileLock>, owner: u64, range: FileLock)
    requires Safe(held)
    ensures Safe(DropOverlapping(held, owner, range))
  {
    hide Overlaps, Coexist;
    if held != [] {
      var n := |held| - 1;
      var rest := DropOverlapping(held[..n], owner, range);
      DropOverlappingSafe(held[..n], owner, range);
      forall i | 0 <= i < |rest| ensures Coexist(rest[i], held[n]) {
        assert rest[i] in held[..n];
      }
    }
  }

  lemma {:induction false} DropOwnerSafe(held: seq<FileLock>, owner: u64)
    requires Safe(held)
    ensures Safe(DropOwner(held, owner))
  {
    if held != [] {
      var n := |held| - 1;
      var rest := DropOwner(held[..n], owner);
      DropOwnerSafe(held[..n], owner);
      forall i | 0 <= i < |rest| ensures Coexist(rest[i], held[n]) {
        assert rest[i] in held[..n];
      }
    }
  }

  lemma GrantSafe(held: seq<FileLock>, lock: FileLock)
    requires Safe(held) && Granted(held, lock)
    ensures Safe(DropOverlapping(held, lock.owner, lock) + [lock])
  {
    DropOverlappingSafe(held, lock.owner, lock);
    var rest := DropOverlapping(held, lock.owner, lock);
    forall i | 0 <= i < |rest| ensures Coexist(rest[i], lock) {
      assert rest[i] in held;
    }
  }

  lemma ApplySound(t: Table, op: Op)
    requires Sound(t)
    ensures Sound(Apply(t, op))
  {
    match op
    case TryLock(ino, lock) =>
      if Granted(LocksOn(t, ino), lock) { GrantSafe(LocksOn(t, ino), lock); }
    case Unlock(ino, owner, start, len) =>
      if ino in t { DropOverlappingSafe(t[ino], owner, UnlockRange(owner, start, len)); }
    case ReleaseAll(ino, owner) =>
      if ino in t { DropOwnerSafe(t[ino], owner); }
  }

  lemma {:induction false} RunSound(t: Table, ops: seq<Op>)
    requires Sound(t)
    ensures Sound(Run(t, ops))
    decreases |ops|
  {
    if ops != [] {
      ApplySound(t, ops[0]);
      RunSound(Apply(t, ops[0]), ops[1..]);
    }
  }

  /** Whoever else stands on an exclusively held byte is the same, known process; nobody stands there twice. */
  lemma ExclusiveByteIsPrivate(ops: seq<Op>, ino: Inode, i: nat, j: nat, byte: nat)
    requires ino in Run(map[], ops) && i < |Run(map[], ops)[ino]| && j < |Run(map[], ops)[ino]| && i != j
    requires var held := Run(map[], ops)[ino];
      Covers(held[i], byte) && Covers(held[j], byte) && held[i].lockType.Exclusive?
    ensures var held := Run(map[], ops)[ino]; held[i].owner != held[j].owner && held[i].pid == held[j].pid != 0
  {
    RunSound(map[], ops);
    var held := Run(map[], ops)[ino];
    OverlapIsSharedByte(held[i], held[j]);
    assert if i < j then Coexist(held[i], held[j]) else Coexist(held[j], held[i]);
  }

  lemma {:induction false} DropNothing(held: seq<FileLock>, owner: u64, range: FileLock)
    requires forall l | l in held :: !(l.owner == owner && Overlaps(l, range))
    ensures DropOverlapping(held, owner, range) == held
  {
    if held != [] {
      DropNothing(held[..|held| - 1], owner, range);
    }
  }

  lemma UndoOnList(held: seq<FileLock>, lock: FileLock)
    requires forall l | l in held :: !(l.owner == lock.owner && Overlaps(l, lock))
    ensures DropOverlapping(held, lock.owner, lock) == held
    ensures DropOverlapping(held + [lock], lock.owner, UnlockRange(lock.owner, lock.start, lock.len))
      == if lock.start < U64_MAX then held else held + [lock]
  {
    var range := UnlockRange(lock.owner, lock.start, lock.len);
    forall l: FileLock ensures Overlaps(l, range) == Overlaps(l, lock) {}
    assert Overlaps(lock, range) <==> lock.start < U64_MAX;
    hide Overlaps;
    DropNothing(held, lock.owner, lock);
    DropNothing(held, lock.owner, range);
    LastApart(held, [lock]);
    assert held + [] == held;
  }

  /**
   * Unlocking the range just locked restores the table, except for a lock on the last offset:
   * it covers no byte, so no unlock range ever touches it.
   */
  lemma UnlockUndoesLock(t: Table, ino: Inode, lock: FileLock)
    requires Sound(t) && Granted(LocksOn(t, ino), lock)
    requires forall l | l in LocksOn(t, ino) :: !(l.owner == lock.owner && Overlaps(l, lock))
    ensures Run(t, [TryLock(ino, lock), Unlock(ino, lock.owner, lock.start, lock.len)]) == t <==> lock.start < U64_MAX
  {
    hide DropOverlapping, Run, Granted;
    var held := LocksOn(t, ino);
    UndoOnList(held, lock);
    RunTwo(t, TryLock(ino, lock), Unlock(ino, lock.owner, lock.start, lock.len));
    var after := Run(t, [TryLock(ino, lock), Unlock(ino, lock.owner, lock.start, lock.len)]);
    if lock.start < U64_MAX {
      assert after == t;
    } else {
      assert after[ino] == held + [lock];
      assert |held + [lock]| != |LocksOn(t, ino)|;
    }
  }

  /** A lock on the last offset outlives its unlock. */
  lemma LockOnLastOffsetStays(ino: Inode, owner: u64, pid: nat)
    ensures var l := FileLock(owner, pid, Exclusive, U64_MAX, 0);
            Run(map[], [TryLock(ino, l), Unlock(ino, owner, U64_MAX, 0)]) == map[ino := [l]]
  {
    var l := FileLock(owner, pid, Exclusive, U64_MAX, 0);
    RunTwo(map[], TryLock(ino, l), Unlock(ino, owner, U64_MAX, 0));
    hide Run;
    UndoOnList([], l);
    assert [] + [l] == [l];
  }

  lemma RunTwo(t: Table, a: Op, b: Op)
    ensures Run(t, [a, b]) == Apply(Apply(t, a), b)
  {
    assert [a, b][1..] == [b];
    assert Run(Apply(t, a), [b]) == Apply(Apply(t, a), b);
  }

  // ---------------------------------------------------------------------------------------------
  // Requests as the kernel makes them: both ends included, offsets signed

  const OFFSET_MAX: nat := 0x7FFF_FFFF_FFFF_FFFF

  datatype Request = Request(owner: u64, pid: nat, lockType: LockType, start: nat, end: nat)

  predicate FromKernel(r: Request) { r.start <= r.end <= OFFSET_MAX }

  predicate Asked(r: Request, byte: nat) { r.start <= byte <= r.end }

  /** The conversion at the FUSE entry: the length is end minus start, and a length of zero means to the end of file. */
  function LockOf(r: Request): FileLock
    requires FromKernel(r)
  {
    FileLock(r.owner, r.pid, r.lockType, r.start, r.end - r.start)
  }

  /** A request gets every byte asked for but the last; one that asks for a single byte gets all from there on. */
  lemma LockedBytes(r: Request, byte: nat)
    requires FromKernel(r)
    ensures Covers(LockOf(r), byte) <==> if r.start == r.end then r.start <= byte < U64_MAX else r.start <= byte < r.end
  {
  }

  predicate Competing(a: Request, b: Request) {
    a.owner != b.owner && !(a.pid == b.pid && a.pid != 0) && (a.lockType.Exclusive? || b.lockType.Exclusive?)
  }

  /** The second begins on the last byte of the first. */
  predicate Meets(a: Request, b: Request) { a.start < a.end == b.start }

  /** The second lies past the single byte of the first. */
  predicate Past(a: Request, b: Request) { a.start == a.end < b.start }

  /**
   * Of two competing requests the second is refused exactly when they ask for a common byte and neither begins on the
   * last byte of the other, or when one asks for a single byte anywhere before the other.
   */
  lemma RefusedIff(a: Request, b: Request)
    requires FromKernel(a) && FromKernel(b) && Competing(a, b)
    ensures Blocks(LockOf(a), LockOf(b)) <==>
              || ((exists byte :: Asked(a, byte) && Asked(b, byte)) && !Meets(a, b) && !Meets(b, a))
              || Past(a, b) || Past(b, a)
  {
    var m := Max(a.start, b.start);
    assert a.start <= b.end && b.start <= a.end ==> Asked(a, m) && Asked(b, m);
  }

  /** In every run: a byte asked for exclusively, and not the last of its range, is shared with no other process. */
  lemma AskedByteIsPrivate(ops: seq<Op>, ino: Inode, a: Request, b: Request, byte: nat)
    requires FromKernel(a) && FromKernel(b) && ino in Run(map[], ops)
    requires LockOf(a) in Run(map[], ops)[ino] && LockOf(b) in Run(map[], ops)[ino] && a.lockType.Exclusive?
    requires Asked(a, byte) && (byte < a.end || a.start == a.end)
    requires Asked(b, byte) && (byte < b.end || b.start == b.end)
    ensures LockOf(a) == LockOf(b) || (a.pid == b.pid != 0)
  {
    var held := Run(map[], ops)[ino];
    var i :| 0 <= i < |held| && held[i] == LockOf(a);
    var j :| 0 <= j < |held| && held[j] == LockOf(b);
    LockedBytes(a, byte);
    LockedBytes(b, byte);
    if i != j { ExclusiveByteIsPrivate(ops, ino, i, j, byte); }
  }

  /** Two processes are both granted a byte exclusively, the last of one range and the first of the other. */
  lemma LastByteIsShared(ino: Inode, a: Request, b: Request)
    requires FromKernel(a) && FromKernel(b) && Competing(a, b) && Meets(a, b) && b.start < b.end
    ensures Run(map[], [TryLock(ino, LockOf(a)), TryLock(ino, LockOf(b))]) == map[ino := [LockOf(a), LockOf(b)]]
    ensures Asked(a, a.end) && Asked(b, a.end)
  {
    RunTwo(map[], TryLock(ino, LockOf(a)), TryLock(ino, LockOf(b)));
    hide Run;
    var one := Apply(map[], TryLock(ino, LockOf(a)));
    assert one == map[ino := [LockOf(a)]];
    RefusedIff(a, b);
    assert !Blocks(LockOf(a), LockOf(b)) && Granted(LocksOn(one, ino), LockOf(b));
    DropNothing([LockOf(a)], b.owner, LockOf(b));
    assert [LockOf(a)] + [LockOf(b)] == [LockOf(a), LockOf(b)];
  }

  // ---------------------------------------------------------------------------------------------
  // The lock manager

  class LockManager {
    var locks: Table

    constructor ()
      ensures locks == map[]
    {
      locks := map[];
    }

    method TryLockRange(ino: Inode, lock: FileLock) returns (ok: bool)
      requires Sound(locks)
      modifies this
      ensures Sound(locks) && locks == Apply(old(locks), TryLock(ino, lock))
      ensures ok == Granted(LocksOn(old(locks), ino), lock)
      ensures ok ==> lock in LocksOn(locks, ino)
    {
      ApplySound(locks, TryLock(ino, lock));
      if ino !in locks {
        locks := locks[ino := []];
      }
      var held := locks[ino];
      var i := 0;
      while i < |held|
        invariant 0 <= i <= |held| && forall k | 0 <= k < i :: !Blocks(held[k], lock)
      {
        if !SameProcess(held[i], lock) && ConflictsWith(lock, held[i]) {
          return false;
        }
        i := i + 1;
      }
      locks := locks[ino := DropOverlapping(held, lock.owner, lock) + [lock]];
      return true;
    }

    method UnlockBytes(ino: Inode, owner: u64, start: u64, len: u64)
      requires Sound(locks)
      modifies this
      ensures Sound(locks) && locks == Apply(old(locks), Unlock(ino, owner, start, len))
      ensures Keeps(old(LocksOn(locks, ino)), LocksOn(locks, ino),
                    ApartFrom(owner, UnlockRange(owner, start, len)))
      ensures forall other | other != ino :: LocksOn(locks, other) == old(LocksOn(locks, other))
    {
      UnlockFreesRange(locks, ino, owner, start, len);
      ApplySound(locks, Unlock(ino, owner, start, len));
      if ino in locks {
        locks := locks[ino := DropOverlapping(locks[ino], owner, UnlockRange(owner, start, len))];
        if locks[ino] == [] {
          locks := locks - {ino};
        }
      }
    }

    method ReleaseOwner(ino: Inode, owner: u64)
      requires Sound(locks)
      modifies this
      ensures Sound(locks) && locks == Apply(old(locks), ReleaseAll(ino, owner))
      ensures forall l | l in LocksOn(locks, ino) :: l.owner != owner
      ensures Keeps(old(LocksOn(locks, ino)), LocksOn(locks, ino), NotOf(owner))
      ensures forall other | other != ino :: LocksOn(locks, other) == old(LocksOn(locks, other))
    {
      ApplySound(locks, ReleaseAll(ino, owner));
      ReleaseFreesOwner(locks, ino, owner);
      if ino in locks {
        locks := locks[ino := DropOwner(locks[ino], owner)];
        if locks[ino] == [] {
          locks := locks - {ino};
        }
      }
    }

    /** Reports a held lock that blocks the request; there is none exactly when the request would be granted. */
    method GetConflict(ino: Inode, lock: FileLock) returns (conflict: Option<FileLock>)
      ensures conflict.None? <==> Granted(LocksOn(locks, ino), lock)
      ensures conflict.Some? ==> IsFirstBlocker(LocksOn(locks, ino), conflict.value, lock)
    {
      if ino in locks {
        var held := locks[ino];
        var i := 0;
        while i < |held|
          invariant 0 <= i <= |held| && forall k | 0 <= k < i :: !Blocks(held[k], lock)
        {
          if !SameProcess(held[i], lock) && ConflictsWith(lock, held[i]) {
            assert Granted(held[..i], lock);
            return Some(held[i]);
          }
          i := i + 1;
        }
      }
      return None;
    }
  }
}
