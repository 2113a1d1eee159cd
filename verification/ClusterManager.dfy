/** The cluster manager object: membership, failure detection and the remembered cluster size. */
module ClusterManager {
  import opened Basics
  import opened Membership
  import Detector
  import Quorum

  class ClusterManager {
    const local: NodeId
    const timeout: nat
    const seeds: set<NodeId>
    var nodes: map<NodeId, NodeInfo>
    var ring: set<NodeId>

    var knownSize: nat
    var sizeFileSet: bool
    var sizeOnDisk: nat
    var peersOnDisk: set<NodeId>
    ghost var peak: nat

    ghost function AsView(): View
      reads this
    {
      View(local, timeout, nodes, ring)
    }

    ghost function AsSize(): Quorum.Size
      reads this
    {
      Quorum.Size(local, seeds, knownSize, sizeOnDisk, sizeFileSet, nodes.Keys, peersOnDisk, peak)
    }

    /** The ring is exact, and the remembered size covers the registered nodes and, once loaded, the past. */
    ghost predicate Valid()
      reads this
    {
      RingExact(AsView()) && Quorum.Covers(AsSize())
    }

    /** `saved` and `peers` are what an earlier process left in its files. */
    constructor (local: NodeId, timeout: nat, seeds: set<NodeId>, now: nat, saved: nat, peers: set<NodeId>,
                 ghost peak: nat)
      requires 1 <= peak <= Max(saved, 1)
      ensures Valid() && AsView() == Fresh(local, timeout, now)
      ensures AsSize() == Quorum.Size(local, seeds, 1, saved, false, {local}, peers, peak)
    {
      this.local, this.timeout, this.seeds := local, timeout, seeds;
      nodes, ring := map[local := NodeInfo(Online, now, 0)], {local};
      knownSize, sizeFileSet, sizeOnDisk, peersOnDisk := 1, false, saved, peers;
      this.peak := peak;
    }

    // -------------------------------------------------------------------------------------------
    // Remembered size

    method PersistKnownClusterSize(ok: bool)
      modifies this`sizeOnDisk
      ensures AsSize() == Quorum.Persist(old(AsSize()), ok)
      ensures sizeFileSet && ok ==> sizeOnDisk == knownSize
    {
      if sizeFileSet && ok {
        sizeOnDisk := knownSize;
      }
    }

    method NoteClusterSize(n: nat, ok: bool)
      modifies this`knownSize, this`sizeOnDisk
      ensures AsSize() == Quorum.Note(old(AsSize()), n, ok)
    {
      var prev := knownSize;
      knownSize := Max(prev, n);
      if n > prev {
        PersistKnownClusterSize(ok);
      }
    }

    /** Never below the file, the registered nodes, or the nodes start-up may join; from here on it covers the past. */
    method InitKnownClusterSize(ok: bool)
      modifies this`knownSize, this`sizeOnDisk, this`sizeFileSet
      ensures AsSize() == Quorum.ApplySize(old(AsSize()), Quorum.Init(ok))
      ensures old(Valid()) ==> Valid() && peak <= knownSize
      ensures knownSize >= Max(old(knownSize), old(sizeOnDisk)) && knownSize >= Quorum.Hint(AsSize()) && sizeFileSet
    {
      var hint := |(seeds + peersOnDisk) - {local}| + 1;
      sizeFileSet := true;
      knownSize := Max(knownSize, sizeOnDisk);
      KeysSize(nodes);
      NoteClusterSize(Max(hint, |nodes|), ok);
    }

    /** Lowers the size by at most one, and never below the registered nodes, nor below one. */
    method ForgetClusterMember(ok: bool)
      modifies this`knownSize, this`sizeOnDisk
      ensures AsSize() == Quorum.Persist(old(AsSize()).(mem := Quorum.Lowered(old(knownSize), |nodes.Keys|)), ok)
      ensures knownSize >= |nodes.Keys| && knownSize >= 1 && knownSize + 1 >= old(knownSize)
      ensures old(knownSize) > Max(|nodes.Keys|, 1) ==> knownSize == old(knownSize) - 1
    {
      KeysSize(nodes);
      knownSize := Max(Max(Quorum.Less(knownSize), |nodes|), 1);
      PersistKnownClusterSize(ok);
    }

    // -------------------------------------------------------------------------------------------
    // Membership

    method AddNodeRecord(id: NodeId, info: NodeInfo, ok: bool)
      modifies this`nodes, this`ring, this`knownSize, this`sizeOnDisk, this`peak
      ensures AsView() == Apply(old(AsView()), AddNode(id, info))
      ensures AsSize() == Quorum.ApplySize(old(AsSize()), Quorum.Admit(id, ok))
      ensures old(Valid()) ==> (Valid() <==> Admissible(old(AsView()), AddNode(id, info)))
      ensures id in nodes && nodes[id] == info && id in ring
    {
      ghost var v, s := AsView(), AsSize();
      ring := ring + {id};
      nodes := nodes[id := info];
      assert nodes.Keys == s.members + {id};
      KeysSize(nodes);
      peak := Max(peak, |nodes.Keys|);
      NoteClusterSize(|nodes|, ok);
      Admissibly(v, s, AddNode(id, info), Quorum.Admit(id, ok));
    }

    method RemoveNodeRecord(id: NodeId)
      modifies this`nodes, this`ring
      ensures AsView() == Apply(old(AsView()), RemoveNode(id))
      ensures AsSize() == Quorum.ApplySize(old(AsSize()), Quorum.Drop(id))
      ensures old(Valid()) ==> (Valid() <==> Admissible(old(AsView()), RemoveNode(id)))
      ensures id !in nodes && if id in old(nodes) then id !in ring else nodes == old(nodes) && ring == old(ring)
    {
      ghost var v, s := AsView(), AsSize();
      if id in nodes {
        nodes := nodes - {id};
        ring := ring - {id};
      }
      assert nodes.Keys == s.members - {id};
      Admissibly(v, s, RemoveNode(id), Quorum.Drop(id));
    }

    /** The operator's remove request; an unknown node is refused. */
    method HandleRemoveNode(id: NodeId, ok: bool) returns (found: bool)
      modifies this`nodes, this`ring, this`knownSize, this`sizeOnDisk, this`peak
      ensures found == (id in old(nodes)) && AsView() == Apply(old(AsView()), RemoveNode(id))
      ensures AsSize() == Quorum.ApplySize(old(AsSize()), Quorum.OperatorRemove(id, ok))
      ensures found && old(knownSize) > Max(|nodes.Keys|, 1) ==> knownSize == old(knownSize) - 1
      ensures old(Valid()) ==> (Valid() <==> Admissible(old(AsView()), RemoveNode(id)))
      ensures id !in nodes && if found then id !in ring else nodes == old(nodes) && ring == old(ring)
    {
      if id !in nodes {
        return false;
      }
      ghost var v, s := AsView(), AsSize();
      RemoveNodeRecord(id);
      peak := Quorum.Lowered(peak, |nodes.Keys|);
      ForgetClusterMember(ok);
      Admissibly(v, s, RemoveNode(id), Quorum.OperatorRemove(id, ok));
      return true;
    }

    method Heartbeat(id: NodeId, now: nat)
      modifies this`nodes
      ensures AsView() == Apply(old(AsView()), UpdateHeartbeat(id, now)) && AsSize() == old(AsSize())
      ensures old(Valid()) ==> (Valid() <==> Admissible(old(AsView()), UpdateHeartbeat(id, now)))
      ensures id in nodes <==> id in old(nodes)
      ensures id in nodes ==> nodes[id].status.Online? && nodes[id].lastHeartbeat == now
    {
      ghost var v := AsView();
      if id in nodes {
        nodes := nodes[id := nodes[id].(lastHeartbeat := now, status := Online)];
      }
      assert nodes.Keys == v.nodes.Keys;
      if RingExact(v) { KeepsExactIff(v, UpdateHeartbeat(id, now)); }
    }

    /** A peer's own message: it is re-added, a new one is saved to the peer file, and its clock is ours. */
    method HandleContact(id: NodeId, info: NodeInfo, now: nat, ok: bool, saved: bool)
      modifies this`nodes, this`ring, this`knownSize, this`sizeOnDisk, this`peak, this`peersOnDisk
      ensures AsView() == Apply(Apply(old(AsView()), AddNode(id, info)), UpdateHeartbeat(id, now))
      ensures AsSize() == Quorum.ApplySize(old(AsSize()), Quorum.Meet(id, ok, saved))
      ensures peersOnDisk == if id !in old(nodes) && saved then nodes.Keys - {local} else old(peersOnDisk)
      ensures old(Valid()) ==> Valid()
      ensures id in nodes && nodes[id].status.Online? && nodes[id].lastHeartbeat == now && id in ring
    {
      hide RingExact, Quorum.Covers, Quorum.Admitted;
      ghost var v, s := AsView(), AsSize();
      var known := id in nodes;
      AddNodeRecord(id, info, ok);
      if !known && saved {
        peersOnDisk := nodes.Keys - {local};
      }
      Heartbeat(id, now);
      if RingExact(v) { ContactIsExact(v, id, info, now); }
      if Quorum.Covers(s) { Quorum.StepCovers(s, Quorum.Meet(id, ok, saved)); }
    }

    method MergeClusterGossip(entries: seq<Gossip>)
      modifies this`nodes, this`ring
      ensures AsView() == Apply(old(AsView()), MergeGossip(entries)) && AsSize() == old(AsSize())
      ensures old(Valid()) ==> Valid()
    {
      var i := 0;
      ghost var v := AsView();
      assert entries[0..] == entries;
      while i < |entries|
        invariant 0 <= i <= |entries| && nodes.Keys == v.nodes.Keys
        invariant MergeAll(AsView(), entries[i..]) == MergeAll(v, entries)
      {
        var g := entries[i];
        ghost var before := AsView();
        assert entries[i..][0] == g && entries[i..][1..] == entries[i + 1..];
        if g.node != local && g.node in nodes && g.lastSeen > nodes[g.node].lastHeartbeat {
          var info := nodes[g.node].(lastHeartbeat := g.lastSeen);
          if g.status.Online? {
            if info.status.Failed? {
              info := info.(status := Online);
              ring := ring + {g.node};
            } else if info.status.Suspected? {
              info := info.(status := Online);
            }
          }
          nodes := nodes[g.node := info];
        }
        assert AsView() == MergeOne(before, g);
        i := i + 1;
      }
      if RingExact(v) { MergeAllExact(v, entries); }
    }

    method MarkLeaving(id: NodeId, now: nat)
      modifies this`nodes, this`ring
      ensures AsView() == Apply(old(AsView()), SetLeaving(id, now)) && AsSize() == old(AsSize())
      ensures old(Valid()) ==> Valid()
      ensures id !in ring && (id in nodes ==> nodes[id].status.Leaving? && nodes[id].leavingAt == now)
    {
      ghost var v := AsView();
      if id in nodes {
        nodes := nodes[id := NodeInfo(Leaving, 0, now)];
      }
      ring := ring - {id};
      assert nodes.Keys == v.nodes.Keys;
      if RingExact(v) { KeepsExactIff(v, SetLeaving(id, now)); }
    }

    method LeaveLocally(now: nat)
      modifies this`nodes
      ensures AsView() == Apply(old(AsView()), AnnounceLeaving(now)) && AsSize() == old(AsSize())
      ensures old(Valid()) ==> Valid() && nodes[local].status.Leaving? && nodes[local].leavingAt == now
    {
      ghost var v := AsView();
      if local in nodes {
        nodes := nodes[local := nodes[local].(status := Leaving, leavingAt := now)];
      }
      assert nodes.Keys == v.nodes.Keys;
      if RingExact(v) { KeepsExactIff(v, AnnounceLeaving(now)); }
    }

    method RecoverLocally()
      modifies this`nodes, this`ring
      ensures AsView() == Apply(old(AsView()), AnnounceRecovery) && AsSize() == old(AsSize())
      ensures old(Valid()) ==> Valid() && nodes[local].status.Online? && nodes[local].leavingAt == 0 && local in ring
    {
      ghost var v := AsView();
      if local in nodes {
        nodes := nodes[local := nodes[local].(status := Online, leavingAt := 0)];
      }
      ring := ring + {local};
      assert nodes.Keys == v.nodes.Keys;
      if RingExact(v) { KeepsExactIff(v, AnnounceRecovery); }
    }

    method MarkNodeRecovered(id: NodeId, now: nat)
      modifies this`nodes, this`ring
      ensures AsView() == Apply(old(AsView()), MarkRecovered(id, now)) && AsSize() == old(AsSize())
      ensures old(Valid()) ==> Valid()
      ensures id in old(nodes) && old(nodes)[id].status.Failed? ==>
                id in ring && id in nodes && nodes[id].status.Online? && nodes[id].lastHeartbeat == now
    {
      ghost var v := AsView();
      if id in nodes && nodes[id].status.Failed? {
        nodes := nodes[id := nodes[id].(status := Online, lastHeartbeat := now)];
        ring := ring + {id};
      }
      assert nodes.Keys == v.nodes.Keys;
      if RingExact(v) { KeepsExactIff(v, MarkRecovered(id, now)); }
    }

    /** Judges every remote node in place, collecting who failed, who came back and who is to be forgotten. */
    method JudgeAll(now: nat) returns (failed: set<NodeId>, recovered: set<NodeId>, purged: set<NodeId>)
      modifies this`nodes
      ensures nodes == Partly(old(AsView()), now, {})
      ensures failed == Failing(old(AsView()), now)
      ensures recovered == Recovering(old(AsView()), now)
      ensures purged == Purging(old(AsView()), now)
    {
      hide Judge, Partly, Failing, Recovering, Purging;
      ghost var v := AsView();
      failed, recovered, purged := {}, {}, {};
      PartlyStart(v, now);
      var todo := nodes.Keys;
      while todo != {}
        invariant todo <= v.nodes.Keys && nodes == Partly(v, now, todo)
        invariant failed == Failing(v, now) - todo
        invariant recovered == Recovering(v, now) - todo
        invariant purged == Purging(v, now) - todo
        decreases todo
      {
        var id :| id in todo;
        PartlyStep(v, now, todo, id);
        var ruling := if id == local then Keep(nodes[id]) else Judge(nodes[id], now, timeout);
        if ruling.Purge? {
          purged := purged + {id};
        } else {
          nodes := nodes[id := ruling.info];
        }
        failed := failed + (if ruling.Fail? then {id} else {});
        recovered := recovered + (if ruling.Recover? then {id} else {});
        todo := todo - {id};
      }
    }

    /** One detector tick: judge every remote node, then update the ring, then purge. */
    method CheckFailedNodes(now: nat)
      modifies this`nodes, this`ring
      ensures AsView() == Apply(old(AsView()), Tick(now))
      ensures old(Valid()) ==> Valid()
      ensures Detector.LateOnesAdvance(old(AsView()), AsView(), now)
    {
      hide Partly, Purging, RulingOn, Failing, Recovering, Detector.LateOnesAdvance, RingExact;
      ghost var v, s := AsView(), AsSize();
      Detector.TickAdvances(v, now);
      var failed, recovered, purged := JudgeAll(now);
      ring := ring - failed;
      ring := ring + recovered;
      PurgeLeavesJudged(v, now);
      nodes := nodes - purged;
      if RingExact(v) { TickExact(v, now); }
      assert nodes.Keys <= s.members;
      Quorum.SubsetSize(nodes.Keys, s.members);
    }

    /** Leads exactly when the majority it sees online has no smaller id than its own. */
    method IsLeader() returns (yes: bool)
      ensures yes <==>
                && 2 * |set id | id in nodes && IsOnline(nodes, id)| > Max(|nodes|, knownSize)
                && IsOnline(nodes, local) && forall id | IsOnline(nodes, id) :: local <= id
    {
      assert Quorum.OnlineIds(nodes) == set id | id in nodes && IsOnline(nodes, id);
      assert forall id | IsOnline(nodes, id) :: id in Quorum.OnlineIds(nodes);
      var leader := Quorum.LeaderWithQuorum(nodes, knownSize);
      yes := leader == Some(local);
    }
  }

  predicate IsOnline(nodes: map<NodeId, NodeInfo>, id: NodeId) { id in nodes && nodes[id].status == Online }

  function Purging(v: View, now: nat): set<NodeId> {
    set id | id in v.nodes && RulingOn(v, id, now).Purge?
  }

  /** The registry while a tick is under way: those in todo are still to be judged. */
  function Partly(v: View, now: nat, todo: set<NodeId>): map<NodeId, NodeInfo> {
    map id | id in v.nodes ::
      if id in todo || RulingOn(v, id, now).Purge? then v.nodes[id] else RulingOn(v, id, now).info
  }

  lemma PartlyStart(v: View, now: nat)
    ensures Partly(v, now, v.nodes.Keys) == v.nodes
    ensures Failing(v, now) - v.nodes.Keys == Recovering(v, now) - v.nodes.Keys == Purging(v, now) - v.nodes.Keys == {}
  {
  }

  lemma PartlyStep(v: View, now: nat, todo: set<NodeId>, id: NodeId)
    requires id in todo && todo <= v.nodes.Keys
    ensures id in Partly(v, now, todo) && Partly(v, now, todo)[id] == v.nodes[id]
    ensures var r := RulingOn(v, id, now); var left := todo - {id};
      && Partly(v, now, left) == (if r.Purge? then Partly(v, now, todo) else Partly(v, now, todo)[id := r.info])
      && Failing(v, now) - left == Failing(v, now) - todo + (if r.Fail? then {id} else {})
      && Recovering(v, now) - left == Recovering(v, now) - todo + (if r.Recover? then {id} else {})
      && Purging(v, now) - left == Purging(v, now) - todo + (if r.Purge? then {id} else {})
  {
    hide Judge;
    var left := todo - {id};
    assert Partly(v, now, left).Keys == Partly(v, now, todo).Keys;
  }

  lemma PurgeLeavesJudged(v: View, now: nat)
    ensures Partly(v, now, {}) - Purging(v, now) == Judged(v, now)
  {
  }

  lemma KeysSize(nodes: map<NodeId, NodeInfo>)
    ensures |nodes| == |nodes.Keys|
  {
  }

  /** The view keeps its promise exactly when the event is admissible, the size in any case. */
  lemma Admissibly(v: View, s: Quorum.Size, e: Event, c: Quorum.SizeEvent)
    requires !c.Restart?
    ensures RingExact(v) ==> (RingExact(Apply(v, e)) <==> Admissible(v, e))
    ensures Quorum.Covers(s) ==> Quorum.Covers(Quorum.ApplySize(s, c))
  {
    if RingExact(v) { KeepsExactIff(v, e); }
    if Quorum.Covers(s) { Quorum.StepCovers(s, c); }
  }
}
