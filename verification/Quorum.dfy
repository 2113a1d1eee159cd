/** Majority-gated leadership, and the remembered cluster size it is measured against. */
module Quorum {
  import opened Basics
  import opened SortedSets
  import opened Membership

  // ---------------------------------------------------------------------------------------------
  // Leadership as one node sees it

  function OnlineIds(nodes: map<NodeId, NodeInfo>): set<NodeId> {
    set id | id in nodes && nodes[id].status.Online?
  }

  /** Strict majority of the larger of the members heard from and the remembered size. */
  function QuorumOf(seen: nat, known: nat): nat { Max(seen, known) / 2 + 1 }

  predicate HasQuorum(nodes: map<NodeId, NodeInfo>, known: nat) {
    |OnlineIds(nodes)| >= QuorumOf(|nodes|, known)
  }

  function LeaderWithQuorum(nodes: map<NodeId, NodeInfo>, known: nat): (leader: Option<NodeId>)
    ensures leader.None? <==> !HasQuorum(nodes, known)
    ensures leader.Some? ==> leader.value in OnlineIds(nodes)
    ensures leader.Some? ==> forall id | id in OnlineIds(nodes) :: leader.value <= id
  {
    if |OnlineIds(nodes)| < QuorumOf(|nodes|, known) then None
    else
      assert OnlineIds(nodes) != {};
      Some(Least(OnlineIds(nodes)))
  }

  lemma {:induction false} DisjointSizes(a: set<NodeId>, b: set<NodeId>, all: set<NodeId>)
    requires a <= all && b <= all && a !! b
    ensures |a| + |b| <= |all|
  {
    assert |a + b| == |a| + |b|;
    SubsetSize(a + b, all);
  }

  lemma {:induction false} SubsetSize(a: set<NodeId>, all: set<NodeId>)
    requires a <= all
    ensures |a| <= |all|
  {
    if a != {} {
      var x :| x in a;
      SubsetSize(a - {x}, all - {x});
    }
  }

  /** Two quorate views of a cluster neither underestimates have an online node in common. */
  lemma QuorumsIntersect(all: set<NodeId>, a: map<NodeId, NodeInfo>, ka: nat, b: map<NodeId, NodeInfo>, kb: nat)
    requires OnlineIds(a) <= all && OnlineIds(b) <= all && ka >= |all| && kb >= |all|
    requires HasQuorum(a, ka) && HasQuorum(b, kb)
    ensures exists id :: id in OnlineIds(a) && id in OnlineIds(b)
  {
    var both := OnlineIds(a) * OnlineIds(b);
    if both == {} {
      forall id ensures !(id in OnlineIds(a) && id in OnlineIds(b)) { assert id !in both; }
      DisjointSizes(OnlineIds(a), OnlineIds(b), all);
    }
    assert both != {};
    var id :| id in both;
  }

  /** The two sides of a partition cannot both have a leader. */
  lemma AtMostOneSideLeads(sideA: set<NodeId>, sideB: set<NodeId>, a: map<NodeId, NodeInfo>, ka: nat,
                           b: map<NodeId, NodeInfo>, kb: nat)
    requires sideA !! sideB && OnlineIds(a) <= sideA && OnlineIds(b) <= sideB
    requires ka >= |sideA + sideB| && kb >= |sideA + sideB|
    ensures LeaderWithQuorum(a, ka).None? || LeaderWithQuorum(b, kb).None?
  {
    if HasQuorum(a, ka) && HasQuorum(b, kb) {
      QuorumsIntersect(sideA + sideB, a, ka, b, kb);
    }
  }

  function UpTo(lo: nat, hi: nat): (r: set<nat>)
    requires lo <= hi
    ensures forall x :: x in r <==> lo <= x < hi
    ensures |r| == hi - lo
  {
    if lo == hi then {} else UpTo(lo, hi - 1) + {hi - 1}
  }

  function AllOnline(ids: set<NodeId>): (nodes: map<NodeId, NodeInfo>)
    ensures nodes.Keys == ids && OnlineIds(nodes) == ids
  {
    map id | id in ids :: NodeInfo(Online, 0, 0)
  }

  ghost predicate SplitBrain(n: nat, ka: nat, kb: nat) {
    exists a, b :: SplitsWith(a, b, n, ka, kb)
  }

  ghost predicate SplitsWith(a: map<NodeId, NodeInfo>, b: map<NodeId, NodeInfo>, n: nat, ka: nat, kb: nat) {
    && OnlineIds(a) !! OnlineIds(b) && OnlineIds(a) + OnlineIds(b) <= UpTo(0, n)
    && LeaderWithQuorum(a, ka).Some? && LeaderWithQuorum(b, kb).Some?
  }

  lemma TwoLeadersFit(a: map<NodeId, NodeInfo>, b: map<NodeId, NodeInfo>, n: nat, ka: nat, kb: nat)
    requires SplitsWith(a, b, n, ka, kb)
    ensures (ka / 2 + 1) + (kb / 2 + 1) <= n
  {
    DisjointSizes(OnlineIds(a), OnlineIds(b), UpTo(0, n));
  }

  lemma QuorumAlone(ids: set<NodeId>, known: nat)
    requires |ids| == known / 2 + 1 && known >= 1
    ensures HasQuorum(AllOnline(ids), known)
  {
    assert |AllOnline(ids)| == |AllOnline(ids).Keys|;
  }

  lemma TwoLeadersBuilt(left: set<NodeId>, right: set<NodeId>, n: nat, ka: nat, kb: nat)
    requires left !! right && left <= UpTo(0, n) && right <= UpTo(0, n) && ka >= 1 && kb >= 1
    requires |left| == ka / 2 + 1 && |right| == kb / 2 + 1
    ensures SplitBrain(n, ka, kb)
  {
    QuorumAlone(left, ka);
    QuorumAlone(right, kb);
    assert SplitsWith(AllOnline(left), AllOnline(right), n, ka, kb);
  }

  /** How far the remembered sizes may fall short before both halves of a partition can lead. */
  lemma SplitBrainIff(n: nat, ka: nat, kb: nat)
    requires ka >= 1 && kb >= 1
    ensures SplitBrain(n, ka, kb) <==> (ka / 2 + 1) + (kb / 2 + 1) <= n
  {
    if SplitBrain(n, ka, kb) {
      var a, b :| SplitsWith(a, b, n, ka, kb);
      TwoLeadersFit(a, b, n, ka, kb);
    }
    var qa, qb := ka / 2 + 1, kb / 2 + 1;
    if qa + qb <= n {
      TwoLeadersBuilt(UpTo(0, qa), UpTo(qa, qa + qb), n, ka, kb);
    }
  }

  // ---------------------------------------------------------------------------------------------
  // The remembered size, and the peer list that start-up counts when it loads the size

  /**
   * `mem` and `disk` are the remembered size and its file (0 while there is none), `peers` the saved
   * peer list, `seeds` the configured ones; `peak` is the largest membership the node should remember.
   */
  datatype Size = Size(local: NodeId, seeds: set<NodeId>, mem: nat, disk: nat, fileSet: bool, members: set<NodeId>,
                       peers: set<NodeId>, peak: nat)

  /** Flags say whether the size file and the peer file could be written. */
  datatype SizeEvent =
    | Init(ok: bool)
    | Admit(id: NodeId, ok: bool)
    | Meet(id: NodeId, ok: bool, saved: bool)
    | SavePeers(list: set<NodeId>)
    | Drop(id: NodeId)
    | OperatorRemove(id: NodeId, ok: bool)
    | Restart

  function Boot(local: NodeId, seeds: set<NodeId>): Size { Size(local, seeds, 1, 0, false, {local}, {}, 1) }

  function Persist(s: Size, ok: bool): Size { if s.fileSet && ok then s.(disk := s.mem) else s }

  /** Raises the remembered size and persists it, only if it grew. */
  function Note(s: Size, n: nat, ok: bool): Size { if n > s.mem then Persist(s.(mem := n), ok) else s }

  function Less(n: nat): nat { if n == 0 then 0 else n - 1 }

  function Lowered(n: nat, seen: nat): nat { Max(Max(Less(n), seen), 1) }

  /** What start-up knows of the cluster: itself and the distinct nodes it may join. */
  function Hint(s: Size): nat { |(s.seeds + s.peers) - {s.local}| + 1 }

  function Admitted(s: Size, id: NodeId, ok: bool): Size {
    var members := s.members + {id};
    Note(s.(members := members, peak := Max(s.peak, |members|)), |members|, ok)
  }

  function ApplySize(s: Size, e: SizeEvent): Size {
    match e
    case Init(ok) => Note(s.(fileSet := true, mem := Max(s.mem, s.disk)), Max(Hint(s), |s.members|), ok)
    case Admit(id, ok) => Admitted(s, id, ok)
    case Meet(id, ok, saved) =>
      var t := Admitted(s, id, ok);
      if id !in s.members && saved then t.(peers := t.members - {s.local}) else t
    case SavePeers(list) => s.(peers := list)
    case Drop(id) => s.(members := s.members - {id})
    case OperatorRemove(id, ok) =>
      if id !in s.members then s
      else
        var members := s.members - {id};
        Persist(s.(members := members, mem := Lowered(s.mem, |members|), peak := Lowered(s.peak, |members|)), ok)
    case Restart => s.(mem := 1, fileSet := false, members := {s.local})
  }

  function RunSize(s: Size, es: seq<SizeEvent>): Size
    decreases |es|
  {
    if es == [] then s else RunSize(ApplySize(s, es[0]), es[1..])
  }

  /** The size file could be written. */
  predicate Written(e: SizeEvent) { (e.Init? || e.Admit? || e.Meet? || e.OperatorRemove?) ==> e.ok }

  /** Start-up loads the size before any membership change, and the size file can be written. */
  predicate InOrder(s: Size, e: SizeEvent) { Written(e) && (s.fileSet || e.Init? || e.Restart? || e.SavePeers?) }

  ghost predicate InOrderRun(s: Size, es: seq<SizeEvent>)
    decreases |es|
  {
    es == [] || (InOrder(s, es[0]) && InOrderRun(ApplySize(s, es[0]), es[1..]))
  }

  ghost predicate Remembers(s: Size) {
    && s.peak <= Max(s.disk, 1)
    && Max(|s.members|, 1) <= s.peak
    && (if s.fileSet then s.mem == Max(s.disk, 1) else s.mem == 1 && s.members == {s.local})
  }

  lemma OneFewer(members: set<NodeId>, id: NodeId)
    ensures |members - {id}| == if id in members then |members| - 1 else |members|
    ensures |members + {id}| == if id in members then |members| else |members| + 1
  {
    if id in members {
      assert members + {id} == members;
    } else {
      assert members - {id} == members;
    }
  }

  lemma StepRemembers(s: Size, e: SizeEvent)
    requires Remembers(s) && InOrder(s, e)
    ensures Remembers(ApplySize(s, e))
  {
    match e
    case Admit(id, ok) => AdmitRemembers(s, id);
    case Meet(id, ok, saved) => AdmitRemembers(s, id);
    case Drop(id) => OneFewer(s.members, id);
    case OperatorRemove(id, ok) => RemoveRemembers(s, id);
    case _ =>
  }

  lemma AdmitRemembers(s: Size, id: NodeId)
    requires Remembers(s) && s.fileSet
    ensures Remembers(Admitted(s, id, true)) && Admitted(s, id, true).fileSet
  {
    OneFewer(s.members, id);
  }

  lemma RemoveRemembers(s: Size, id: NodeId)
    requires Remembers(s) && s.fileSet
    ensures Remembers(ApplySize(s, OperatorRemove(id, true)))
  {
    OneFewer(s.members, id);
  }

  lemma {:induction false} RunRemembers(s: Size, es: seq<SizeEvent>)
    requires Remembers(s) && InOrderRun(s, es)
    ensures Remembers(RunSize(s, es))
    decreases |es|
  {
    if es != [] {
      StepRemembers(s, es[0]);
      RunRemembers(ApplySize(s, es[0]), es[1..]);
    }
  }

  /** Once loaded, the remembered size covers every membership seen, across restarts, less operator removals. */
  lemma KnownSizeCoversPeak(local: NodeId, seeds: set<NodeId>, es: seq<SizeEvent>)
    requires InOrderRun(Boot(local, seeds), es) && RunSize(Boot(local, seeds), es).fileSet
    ensures var s := RunSize(Boot(local, seeds), es); s.mem >= s.peak >= |s.members|
  {
    RunRemembers(Boot(local, seeds), es);
  }

  /** Two nodes that once met a whole cluster cannot lead two sides of it, whatever happened since. */
  lemma LoadedSidesNeverSplit(p: Size, ps: seq<SizeEvent>, q: Size, qs: seq<SizeEvent>, sideA: set<NodeId>,
                              sideB: set<NodeId>, a: map<NodeId, NodeInfo>, b: map<NodeId, NodeInfo>)
    requires p == Boot(p.local, p.seeds) && InOrderRun(p, ps) && q == Boot(q.local, q.seeds) && InOrderRun(q, qs)
    requires RunSize(p, ps).fileSet && RunSize(p, ps).peak >= |sideA + sideB|
    requires RunSize(q, qs).fileSet && RunSize(q, qs).peak >= |sideA + sideB|
    requires sideA !! sideB && OnlineIds(a) <= sideA && OnlineIds(b) <= sideB
    ensures LeaderWithQuorum(a, RunSize(p, ps).mem).None? || LeaderWithQuorum(b, RunSize(q, qs).mem).None?
  {
    KnownSizeCoversPeak(p.local, p.seeds, ps);
    KnownSizeCoversPeak(q.local, q.seeds, qs);
    AtMostOneSideLeads(sideA, sideB, a, RunSize(p, ps).mem, b, RunSize(q, qs).mem);
  }

  // ---------------------------------------------------------------------------------------------
  // Meeting peers before the size is loaded

  ghost predicate WithinOneBoot(es: seq<SizeEvent>) { forall i | 0 <= i < |es| :: !es[i].Init? && !es[i].Restart? }

  ghost predicate AllWritten(es: seq<SizeEvent>) { forall i | 0 <= i < |es| :: Written(es[i]) }

  /** A step that, once the size is loaded, writes the size file. */
  predicate Writes(s: Size, e: SizeEvent) {
    || ((e.Admit? || e.Meet?) && |s.members + {e.id}| > s.mem)
    || (e.OperatorRemove? && e.id in s.members)
  }

  predicate Wrote(s: Size, es: seq<SizeEvent>)
    decreases |es|
  {
    es != [] && (Writes(s, es[0]) || Wrote(ApplySize(s, es[0]), es[1..]))
  }

  /** The memory of one boot covers its members, and with the file also the past. */
  ghost predicate Covers(s: Size) {
    && s.mem >= Max(|s.members|, 1)
    && if s.fileSet then s.peak <= s.mem else s.peak <= Max(s.mem, s.disk)
  }

  lemma StepCovers(s: Size, e: SizeEvent)
    requires Covers(s) && !e.Restart?
    ensures Covers(ApplySize(s, e))
  {
    match e
    case Admit(id, ok) => AdmitCovers(s, id, ok);
    case Meet(id, ok, saved) => AdmitCovers(s, id, ok);
    case Drop(id) => OneFewer(s.members, id);
    case OperatorRemove(id, ok) => RemoveCovers(s, id, ok);
    case _ =>
  }

  lemma AdmitCovers(s: Size, id: NodeId, ok: bool)
    requires Covers(s)
    ensures Covers(Admitted(s, id, ok))
  {
    OneFewer(s.members, id);
  }

  lemma RemoveCovers(s: Size, id: NodeId, ok: bool)
    requires Covers(s)
    ensures Covers(ApplySize(s, OperatorRemove(id, ok)))
  {
    OneFewer(s.members, id);
  }

  lemma {:induction false} EarlyRun(s: Size, es: seq<SizeEvent>)
    requires Covers(s) && !s.fileSet && WithinOneBoot(es)
    ensures var t := RunSize(s, es); Covers(t) && t.disk == s.disk && !t.fileSet
    decreases |es|
  {
    if es != [] {
      StepCovers(s, es[0]);
      EarlyRun(ApplySize(s, es[0]), es[1..]);
    }
  }

  lemma {:induction false} LaterRun(s: Size, es: seq<SizeEvent>)
    requires Covers(s) && s.fileSet && WithinOneBoot(es) && AllWritten(es)
    ensures var t := RunSize(s, es); Covers(t) && t.fileSet
    ensures var t := RunSize(s, es); if Wrote(s, es) then t.disk == t.mem else t.disk == s.disk && t.mem == s.mem
    decreases |es|
  {
    if es != [] {
      hide ApplySize, Covers, Writes, Written;
      StepCovers(s, es[0]);
      LaterStep(s, es[0]);
      LaterRun(ApplySize(s, es[0]), es[1..]);
    }
  }

  /** Once the size is loaded, a step either writes it to the file or leaves both as they were. */
  lemma LaterStep(s: Size, e: SizeEvent)
    requires Covers(s) && s.fileSet && !e.Init? && !e.Restart? && Written(e)
    ensures var t := ApplySize(s, e);
      t.fileSet && if Writes(s, e) then t.disk == t.mem else t.disk == s.disk && t.mem == s.mem
  {
    if e.Admit? || e.Meet? || e.Drop? || e.OperatorRemove? { OneFewer(s.members, e.id); }
  }

  /** A boot, from before the size is loaded to after it is loaded again. */
  function Reboot(s: Size, early: seq<SizeEvent>, later: seq<SizeEvent>): Size {
    ApplySize(ApplySize(RunSize(ApplySize(RunSize(s, early), Init(true)), later), Restart), Init(true))
  }

  /**
   * Peers met before the size was loaded are still counted after the next restart exactly when the file already
   * covered them, the saved peer list still does, start-up counted more nodes than it had met, or the file was
   * written later in that boot.
   */
  lemma RestartRecallsIff(s: Size, early: seq<SizeEvent>, later: seq<SizeEvent>)
    requires s.mem == 1 && !s.fileSet && s.members == {s.local} && s.peak <= Max(s.disk, 1)
    requires WithinOneBoot(early) && WithinOneBoot(later) && AllWritten(later)
    ensures var met := RunSize(s, early);
            var end := RunSize(ApplySize(met, Init(true)), later);
            Reboot(s, early, later).mem >= end.peak <==>
              || Max(s.disk, 1) >= end.peak
              || Hint(end) >= end.peak
              || Hint(met) > met.mem
              || Wrote(ApplySize(met, Init(true)), later)
  {
    EarlyRun(s, early);
    var met := RunSize(s, early);
    var loaded := ApplySize(met, Init(true));
    StepCovers(met, Init(true));
    LaterRun(loaded, later);
    var end := RunSize(loaded, later);
    assert Reboot(s, early, later).mem == Max(Max(end.disk, 1), Hint(end));
  }

  /** Whatever happened before, the next start counts at least itself and the seeds and peers it has on file. */
  lemma SavedPeersAreCounted(s: Size, list: set<NodeId>, ok: bool)
    ensures ApplySize(ApplySize(ApplySize(s, SavePeers(list)), Restart), Init(ok)).mem
         >= Max(s.disk, |(s.seeds + list) - {s.local}| + 1)
  {
  }

  /** Two peers announce their leadership before the size is loaded: neither file records them. */
  lemma AnnouncedPeersAreForgotten()
    ensures var s := Reboot(Boot(2, {}), [Admit(0, true), Admit(1, true)], []); s.peak == 3 && s.mem == 1
  {
    var s := Boot(2, {});
    var t := ApplySize(s, Admit(0, true));
    var u := ApplySize(t, Admit(1, true));
    RunTwo(s, Admit(0, true), Admit(1, true));
    assert t.members == {2, 0} && u.members == {2, 0, 1};
    assert ({} + {}) - {2} == {};
    assert u == Size(2, {}, 3, 0, false, {2, 0, 1}, {}, 3);
  }

  lemma MeetTwo()
    ensures RunSize(Boot(2, {}), [Meet(0, true, true), Meet(1, true, true)])
            == Size(2, {}, 3, 0, false, {2, 0, 1}, {0, 1}, 3)
  {
    var s := Boot(2, {});
    var t := ApplySize(s, Meet(0, true, true));
    assert t.members == {2, 0} && t.peers == {0};
    var u := ApplySize(t, Meet(1, true, true));
    assert u.members == {2, 0, 1} && u.peers == {0, 1};
    RunTwo(s, Meet(0, true, true), Meet(1, true, true));
  }

  lemma BothLeave(s: Size)
    requires s == Size(2, {}, 3, 0, true, {2, 0, 1}, {0, 1}, 3)
    ensures RunSize(s, [Drop(0), Drop(1)] + [Meet(3, true, true)]) == Size(2, {}, 3, 0, true, {2, 3}, {3}, 3)
  {
    var t := ApplySize(ApplySize(s, Drop(0)), Drop(1));
    assert t.members == {2};
    var u := ApplySize(t, Meet(3, true, true));
    assert u.members == {2, 3} && u.peers == {3};
    RunTwo(s, Drop(0), Drop(1));
    RunSizeAppend(s, [Drop(0), Drop(1)], [Meet(3, true, true)]);
    assert RunSize(t, [Meet(3, true, true)]) == u;
  }

  /** Peers that are met early and saved, but leave before another one is met, are forgotten as well. */
  lemma DepartedPeersAreForgotten()
    ensures var early := [Meet(0, true, true), Meet(1, true, true)];
            var later := [Drop(0), Drop(1)] + [Meet(3, true, true)];
            var s := Reboot(Boot(2, {}), early, later);
            s.peak == 3 && s.mem == 2
  {
    hide RunSize;
    MeetTwo();
    assert ({} + {0, 1}) - {2} == {0, 1};
    BothLeave(Size(2, {}, 3, 0, true, {2, 0, 1}, {0, 1}, 3));
    assert ({} + {3}) - {2} == {3};
  }

  lemma {:induction false} RunSizeAppend(s: Size, a: seq<SizeEvent>, b: seq<SizeEvent>)
    ensures RunSize(s, a + b) == RunSize(RunSize(s, a), b)
    decreases |a|
  {
    if a == [] {
      assert a + b == b;
    } else {
      assert (a + b)[1..] == a[1..] + b;
      RunSizeAppend(ApplySize(s, a[0]), a[1..], b);
    }
  }

  lemma RunTwo(s: Size, a: SizeEvent, b: SizeEvent)
    ensures RunSize(s, [a, b]) == ApplySize(ApplySize(s, a), b)
  {
    assert [a, b][1..] == [b];
    assert RunSize(ApplySize(s, a), [b]) == ApplySize(ApplySize(s, a), b);
  }
}
