/** A node's view of the cluster: who is registered, how healthy they look, and who is on the ring. */
module Membership {
  import opened Basics

  type NodeId = nat

  datatype Status = Online | Suspected | Failed | Leaving

  datatype NodeInfo = NodeInfo(status: Status, lastHeartbeat: nat, leavingAt: nat)

  datatype Gossip = Gossip(node: NodeId, lastSeen: nat, status: Status)

  datatype View = View(local: NodeId, timeout: nat, nodes: map<NodeId, NodeInfo>, ring: set<NodeId>)

  const LEAVING_GRACE_SECS: nat := 60
  const PURGE_SECS: nat := 24 * 3600

  datatype Event =
    | AddNode(id: NodeId, info: NodeInfo)
    | RemoveNode(id: NodeId)
    | UpdateHeartbeat(id: NodeId, now: nat)
    | MergeGossip(entries: seq<Gossip>)
    | SetLeaving(id: NodeId, now: nat)
    | AnnounceLeaving(now: nat)
    | AnnounceRecovery
    | MarkRecovered(id: NodeId, now: nat)
    | Tick(now: nat)

  function Fresh(local: NodeId, timeout: nat, now: nat): View {
    View(local, timeout, map[local := NodeInfo(Online, now, 0)], {local})
  }

  predicate TimedOut(info: NodeInfo, now: nat, timeout: nat) {
    SaturatingSub(now, info.lastHeartbeat) > timeout
  }

  // ---------------------------------------------------------------------------------------------
  // The failure detector's ruling on one remote node

  datatype Ruling = Keep(info: NodeInfo) | Fail(info: NodeInfo) | Recover(info: NodeInfo) | Purge

  function Judge(info: NodeInfo, now: nat, timeout: nat): Ruling {
    var late := TimedOut(info, now, timeout);
    match info.status
    case Online => Keep(if late then info.(status := Suspected) else info)
    case Suspected => if late then Fail(info.(status := Failed)) else Recover(info.(status := Online))
    case Failed =>
      if !late then Recover(info.(status := Online))
      else if SaturatingSub(now, info.lastHeartbeat) > PURGE_SECS then Purge
      else Keep(info)
    case Leaving =>
      if info.leavingAt > 0 && SaturatingSub(now, info.leavingAt) > LEAVING_GRACE_SECS then
        Fail(info.(status := Failed))
      else if !late then Recover(info.(status := Online, leavingAt := 0))
      else Keep(info)
  }

  /** The local node is never judged. */
  function RulingOn(v: View, id: NodeId, now: nat): Ruling
    requires id in v.nodes
  {
    if id == v.local then Keep(v.nodes[id]) else Judge(v.nodes[id], now, v.timeout)
  }

  function Judged(v: View, now: nat): map<NodeId, NodeInfo> {
    map id | id in v.nodes && !RulingOn(v, id, now).Purge? :: RulingOn(v, id, now).info
  }

  function Failing(v: View, now: nat): set<NodeId> {
    set id | id in v.nodes && RulingOn(v, id, now).Fail?
  }

  function Recovering(v: View, now: nat): set<NodeId> {
    set id | id in v.nodes && RulingOn(v, id, now).Recover?
  }

  // ---------------------------------------------------------------------------------------------
  // Operations on the view

  function MergeOne(v: View, g: Gossip): View {
    if g.node == v.local || g.node !in v.nodes || g.lastSeen <= v.nodes[g.node].lastHeartbeat then v
    else
      var info := v.nodes[g.node].(lastHeartbeat := g.lastSeen);
      if g.status.Online? && info.status.Failed? then
        v.(nodes := v.nodes[g.node := info.(status := Online)], ring := v.ring + {g.node})
      else if g.status.Online? && info.status.Suspected? then
        v.(nodes := v.nodes[g.node := info.(status := Online)])
      else v.(nodes := v.nodes[g.node := info])
  }

  function MergeAll(v: View, entries: seq<Gossip>): View
    decreases |entries|
  {
    if entries == [] then v else MergeAll(MergeOne(v, entries[0]), entries[1..])
  }

  function Put(v: View, id: NodeId, info: NodeInfo): View { v.(nodes := v.nodes[id := info]) }

  function Apply(v: View, e: Event): View {
    match e
    case AddNode(id, info) => Put(v, id, info).(ring := v.ring + {id})
    case RemoveNode(id) =>
      if id in v.nodes then v.(nodes := v.nodes - {id}, ring := v.ring - {id}) else v
    case UpdateHeartbeat(id, now) =>
      if id in v.nodes then Put(v, id, v.nodes[id].(lastHeartbeat := now, status := Online)) else v
    case MergeGossip(entries) => MergeAll(v, entries)
    case SetLeaving(id, now) =>
      (if id in v.nodes then Put(v, id, NodeInfo(Leaving, 0, now)) else v).(ring := v.ring - {id})
    case AnnounceLeaving(now) =>
      if v.local in v.nodes then Put(v, v.local, v.nodes[v.local].(status := Leaving, leavingAt := now)) else v
    case AnnounceRecovery =>
      (if v.local in v.nodes then Put(v, v.local, v.nodes[v.local].(status := Online, leavingAt := 0)) else v)
      .(ring := v.ring + {v.local})
    case MarkRecovered(id, now) =>
      if id in v.nodes && v.nodes[id].status.Failed? then
        Put(v, id, v.nodes[id].(status := Online, lastHeartbeat := now)).(ring := v.ring + {id})
      else v
    case Tick(now) =>
      v.(nodes := Judged(v, now), ring := v.ring - Failing(v, now) + Recovering(v, now))
  }

  // ---------------------------------------------------------------------------------------------
  // The ring holds exactly the remote nodes that look alive

  predicate LooksAlive(info: NodeInfo) { info.status.Online? || info.status.Suspected? }

  ghost predicate RingExact(v: View) {
    && v.local in v.nodes
    && forall id | id != v.local :: id in v.ring <==> id in v.nodes && LooksAlive(v.nodes[id])
  }

  /** What each operation asks of its caller for the ring to stay exact. */
  predicate Admissible(v: View, e: Event) {
    match e
    case AddNode(id, info) => id == v.local || LooksAlive(info)
    case RemoveNode(id) => id != v.local
    case UpdateHeartbeat(id, _) => id != v.local && id in v.nodes ==> id in v.ring
    case _ => true
  }

  lemma MergeOneExact(v: View, g: Gossip)
    requires RingExact(v)
    ensures RingExact(MergeOne(v, g)) && MergeOne(v, g).local == v.local
  {
  }

  lemma {:induction false} MergeAllExact(v: View, entries: seq<Gossip>)
    requires RingExact(v)
    ensures RingExact(MergeAll(v, entries)) && MergeAll(v, entries).local == v.local
    decreases |entries|
  {
    if entries != [] {
      MergeOneExact(v, entries[0]);
      MergeAllExact(MergeOne(v, entries[0]), entries[1..]);
    }
  }

  lemma TickExact(v: View, now: nat)
    requires RingExact(v)
    ensures RingExact(Apply(v, Tick(now)))
  {
    var t := Apply(v, Tick(now));
    assert v.local in t.nodes;
    forall id | id != v.local ensures id in t.ring <==> id in t.nodes && LooksAlive(t.nodes[id]) {
      if id in v.nodes {
        var r := RulingOn(v, id, now);
        assert id in Failing(v, now) <==> r.Fail?;
        assert id in Recovering(v, now) <==> r.Recover?;
      }
    }
  }

  /** An operation keeps the ring exact precisely when its caller meets that demand. */
  lemma KeepsExactIff(v: View, e: Event)
    requires RingExact(v)
    ensures RingExact(Apply(v, e)) <==> Admissible(v, e)
  {
    var t := Apply(v, e);
    match e
    case AddNode(id, info) =>
      if id != v.local { assert id in t.ring && t.nodes[id] == info; }
    case RemoveNode(id) =>
    case UpdateHeartbeat(id, now) =>
      if id in v.nodes && id != v.local { assert t.nodes[id].status.Online?; }
    case MergeGossip(entries) => MergeAllExact(v, entries);
    case SetLeaving(id, now) =>
    case AnnounceLeaving(now) =>
    case AnnounceRecovery =>
    case MarkRecovered(id, now) =>
    case Tick(now) => TickExact(v, now);
  }

  ghost predicate AdmissibleRun(v: View, es: seq<Event>)
    decreases |es|
  {
    es == [] || (Admissible(v, es[0]) && AdmissibleRun(Apply(v, es[0]), es[1..]))
  }

  function Run(v: View, es: seq<Event>): View
    decreases |es|
  {
    if es == [] then v else Run(Apply(v, es[0]), es[1..])
  }

  lemma {:induction false} RunKeepsExact(v: View, es: seq<Event>)
    requires RingExact(v) && AdmissibleRun(v, es)
    ensures RingExact(Run(v, es))
    decreases |es|
  {
    if es != [] {
      KeepsExactIff(v, es[0]);
      RunKeepsExact(Apply(v, es[0]), es[1..]);
    }
  }

  /** Failed, leaving, removed and purged nodes never receive placement; live ones always can. */
  lemma RingNeverHoldsTheDead(local: NodeId, timeout: nat, start: nat, es: seq<Event>, id: NodeId)
    requires AdmissibleRun(Fresh(local, timeout, start), es) && id != local
    ensures var v := Run(Fresh(local, timeout, start), es);
      id in v.ring <==> id in v.nodes && LooksAlive(v.nodes[id])
  {
    RunKeepsExact(Fresh(local, timeout, start), es);
    RunKeepsLocal(Fresh(local, timeout, start), es);
  }

  lemma {:induction false} MergeAllLocal(v: View, entries: seq<Gossip>)
    ensures MergeAll(v, entries).local == v.local && MergeAll(v, entries).timeout == v.timeout
    decreases |entries|
  {
    if entries != [] { MergeAllLocal(MergeOne(v, entries[0]), entries[1..]); }
  }

  lemma {:induction false} RunKeepsLocal(v: View, es: seq<Event>)
    ensures Run(v, es).local == v.local
    decreases |es|
  {
    if es != [] {
      if es[0].MergeGossip? { MergeAllLocal(v, es[0].entries); }
      RunKeepsLocal(Apply(v, es[0]), es[1..]);
    }
  }

  /** A contact re-adds its sender and then marks it Online, so the ring is exact whatever the sender calls itself. */
  lemma ContactIsExact(v: View, id: NodeId, info: NodeInfo, now: nat)
    requires RingExact(v)
    ensures RingExact(Apply(Apply(v, AddNode(id, info)), UpdateHeartbeat(id, now)))
    ensures Apply(Apply(v, AddNode(id, info)), UpdateHeartbeat(id, now)).nodes[id].status.Online?
  {
    var t := Apply(v, AddNode(id, info));
    var u := Apply(t, UpdateHeartbeat(id, now));
    assert t.nodes[id] == info && u.ring == v.ring + {id};
    forall x | x != v.local && x != id ensures x in u.ring <==> x in u.nodes && LooksAlive(u.nodes[x]) {
      assert x in u.nodes <==> x in v.nodes;
    }
  }

  // ---------------------------------------------------------------------------------------------
  // What may come between the two halves of a contact

  /** As RingExact, but for one node it asks only that it be on the ring exactly when it is registered. */
  ghost predicate ExactBut(v: View, id: NodeId) {
    && v.local in v.nodes && (id in v.ring <==> id in v.nodes)
    && forall x | x != v.local && x != id :: x in v.ring <==> x in v.nodes && LooksAlive(v.nodes[x])
  }

  /** Adding the sender leads to such a view, and the heartbeat completes it exactly from such a view. */
  lemma ContactHalves(v: View, id: NodeId, info: NodeInfo, now: nat)
    requires id != v.local
    ensures RingExact(v) ==> ExactBut(Apply(v, AddNode(id, info)), id)
    ensures RingExact(Apply(v, UpdateHeartbeat(id, now))) <==> ExactBut(v, id)
  {
    var t := Apply(v, AddNode(id, info));
    forall x | x != v.local && x != id && RingExact(v)
      ensures x in t.ring <==> x in t.nodes && LooksAlive(t.nodes[x])
    {
      assert x in t.nodes <==> x in v.nodes;
    }
    var u := Apply(v, UpdateHeartbeat(id, now));
    assert u.nodes.Keys == v.nodes.Keys;
    if RingExact(u) {
      forall x | x != v.local && x != id ensures x in v.ring <==> x in v.nodes && LooksAlive(v.nodes[x]) {
        assert x in v.nodes ==> u.nodes[x] == v.nodes[x];
      }
    }
  }

  /** What may happen to the sender and to the others without spoiling the heartbeat still to come. */
  predicate Bridges(v: View, id: NodeId, e: Event) {
    match e
    case AddNode(x, info) => x == id || x == v.local || LooksAlive(info)
    case RemoveNode(x) => x != v.local
    case UpdateHeartbeat(x, _) => x != v.local && x != id && x in v.nodes ==> x in v.ring
    case SetLeaving(x, _) => x == id ==> id !in v.nodes
    case Tick(now) => id in v.nodes ==> !RulingOn(v, id, now).Fail? && !RulingOn(v, id, now).Purge?
    case _ => true
  }

  lemma {:induction false} MergeAllExactBut(v: View, id: NodeId, entries: seq<Gossip>)
    requires id != v.local && ExactBut(v, id)
    ensures ExactBut(MergeAll(v, entries), id) && MergeAll(v, entries).local == v.local
    decreases |entries|
  {
    if entries != [] {
      assert ExactBut(MergeOne(v, entries[0]), id);
      MergeAllExactBut(MergeOne(v, entries[0]), id, entries[1..]);
    }
  }

  lemma TickExactBut(v: View, id: NodeId, now: nat)
    requires id != v.local && ExactBut(v, id)
    ensures ExactBut(Apply(v, Tick(now)), id) <==> Bridges(v, id, Tick(now))
  {
    var t := Apply(v, Tick(now));
    assert v.local in t.nodes;
    forall x | x != v.local && x != id ensures x in t.ring <==> x in t.nodes && LooksAlive(t.nodes[x]) {
      if x in v.nodes {
        var r := RulingOn(v, x, now);
        assert x in Failing(v, now) <==> r.Fail?;
        assert x in Recovering(v, now) <==> r.Recover?;
      }
    }
    if id in v.nodes {
      assert id in Failing(v, now) <==> RulingOn(v, id, now).Fail?;
      assert id in Recovering(v, now) <==> RulingOn(v, id, now).Recover?;
    }
  }

  lemma BridgesIff(v: View, id: NodeId, e: Event)
    requires id != v.local && ExactBut(v, id)
    ensures ExactBut(Apply(v, e), id) <==> Bridges(v, id, e)
  {
    var t := Apply(v, e);
    match e
    case AddNode(x, info) => assert x in t.ring && t.nodes[x] == info;
    case UpdateHeartbeat(x, _) => assert x in v.nodes ==> t.nodes[x].status.Online?;
    case MergeGossip(entries) => MergeAllExactBut(v, id, entries);
    case Tick(now) => TickExactBut(v, id, now);
    case _ =>
  }

  ghost predicate BridgesRun(v: View, id: NodeId, es: seq<Event>)
    decreases |es|
  {
    es == [] || (Bridges(v, id, es[0]) && BridgesRun(Apply(v, es[0]), id, es[1..]))
  }

  /** Wherever the heartbeat comes, it leaves the ring exact. */
  ghost predicate AlwaysCompletes(v: View, id: NodeId, es: seq<Event>, now: nat)
    decreases |es|
  {
    && RingExact(Apply(v, UpdateHeartbeat(id, now)))
    && (es == [] || AlwaysCompletes(Apply(v, es[0]), id, es[1..], now))
  }

  lemma {:induction false} BridgesRunIff(v: View, id: NodeId, es: seq<Event>, now: nat)
    requires id != v.local && ExactBut(v, id)
    ensures AlwaysCompletes(v, id, es, now) <==> BridgesRun(v, id, es)
    decreases |es|
  {
    ContactHalves(v, id, NodeInfo(Online, 0, 0), now);
    if es != [] {
      var t := Apply(v, es[0]);
      BridgesIff(v, id, es[0]);
      if es[0].MergeGossip? { MergeAllLocal(v, es[0].entries); }
      if Bridges(v, id, es[0]) {
        BridgesRunIff(t, id, es[1..], now);
      } else {
        ContactHalves(t, id, NodeInfo(Online, 0, 0), now);
      }
    }
  }

  /** A contact interrupted by other operations can complete at every point exactly when all of them bridge it. */
  lemma InterruptedContactIff(v: View, id: NodeId, info: NodeInfo, es: seq<Event>, now: nat)
    requires RingExact(v) && id != v.local
    ensures var t := Apply(v, AddNode(id, info)); AlwaysCompletes(t, id, es, now) <==> BridgesRun(t, id, es)
  {
    ContactHalves(v, id, info, now);
    BridgesRunIff(Apply(v, AddNode(id, info)), id, es, now);
  }

  // ---------------------------------------------------------------------------------------------
  // Inputs that spoil the ring

  /** A peer that leaves between the two halves of its contact is Online and off the ring. */
  lemma LeaveInsideContact(start: nat, info: NodeInfo, now: nat)
    ensures var v := Run(Fresh(0, 30, start), [AddNode(1, info), SetLeaving(1, now), UpdateHeartbeat(1, now)]);
            1 in v.nodes && v.nodes[1].status.Online? && 1 !in v.ring && !RingExact(v)
  {
    var a, b, c := AddNode(1, info), SetLeaving(1, now), UpdateHeartbeat(1, now);
    assert [a, b, c][1..] == [b, c] && [b, c][1..] == [c] && [c][1..] == [];
    var v := Apply(Apply(Apply(Fresh(0, 30, start), a), b), c);
    assert Run(Fresh(0, 30, start), [a, b, c]) == Run(Apply(Fresh(0, 30, start), a), [b, c]);
    assert Run(Apply(Apply(Fresh(0, 30, start), a), b), [c]) == v;
  }

  /** A joining node takes over a record that its seed already calls Failed, and puts it on the ring. */
  lemma FailedRecordJoinsRing(start: nat)
    ensures var v := Apply(Fresh(0, 30, start), AddNode(1, NodeInfo(Failed, 0, 0)));
            v.nodes[1].status.Failed? && 1 in v.ring && !RingExact(v)
  {
    var v := Apply(Fresh(0, 30, start), AddNode(1, NodeInfo(Failed, 0, 0)));
    assert 1 in v.ring && v.nodes[1].status.Failed?;
  }

  /** Removing the only node empties the ring. */
  lemma RemovingItselfEmptiesRing(local: NodeId, timeout: nat, start: nat)
    ensures Apply(Fresh(local, timeout, start), RemoveNode(local)).ring == {}
  {
  }
}
