/** Why a node may be declared Failed: every such verdict is backed by the run that led to it. */
module Detector {
  import opened Basics
  import opened Membership

  /** The views before, between and after the events of a run. */
  ghost predicate IsTrace(vs: seq<View>, es: seq<Event>) {
    |vs| == |es| + 1 && forall k | 0 <= k < |es| :: vs[k + 1] == Apply(vs[k], es[k])
  }

  predicate Has(v: View, x: NodeId, s: Status) { x in v.nodes && v.nodes[x].status == s }

  /** x had that status in every view from lo to hi. */
  ghost predicate Throughout(vs: seq<View>, x: NodeId, s: Status, lo: nat, hi: nat)
    requires hi < |vs|
  {
    forall k | lo <= k <= hi :: Has(vs[k], x, s)
  }

  /** A detector tick that looked at x in status s and found its heartbeat too old. */
  ghost predicate LateTick(vs: seq<View>, es: seq<Event>, x: NodeId, s: Status, i: nat)
    requires |vs| == |es| + 1
  {
    i < |es| && es[i].Tick? && Has(vs[i], x, s) && TimedOut(vs[i].nodes[x], es[i].now, vs[i].timeout)
  }

  /** x has been Suspected since the late tick at i that found it Online. */
  ghost predicate SuspectedSince(vs: seq<View>, es: seq<Event>, x: NodeId, i: nat, n: nat)
    requires |vs| == |es| + 1 && n < |vs|
  {
    i < n && LateTick(vs, es, x, Online, i) && Throughout(vs, x, Suspected, i + 1, n)
  }

  /** x announced its departure at i and has been Leaving with that timestamp since. */
  ghost predicate LeavingSince(vs: seq<View>, es: seq<Event>, x: NodeId, i: nat, n: nat)
    requires |vs| == |es| + 1 && n < |vs|
  {
    && i < n < |vs| && es[i].SetLeaving? && es[i].id == x
    && Throughout(vs, x, Leaving, i + 1, n)
    && forall k | i < k <= n :: x in vs[k].nodes && vs[k].nodes[x].leavingAt == es[i].now
  }

  /** Two late ticks with x Suspected all the way between them, and Failed ever since. */
  ghost predicate FailedByTimeouts(vs: seq<View>, es: seq<Event>, x: NodeId, i: nat, j: nat, n: nat)
    requires |vs| == |es| + 1 && n < |vs|
  {
    j < n && SuspectedSince(vs, es, x, i, j) && LateTick(vs, es, x, Suspected, j) && Throughout(vs, x, Failed, j + 1, n)
  }

  /** A departure followed, more than the grace period later, by the tick that failed x. */
  ghost predicate FailedByLeaving(vs: seq<View>, es: seq<Event>, x: NodeId, i: nat, j: nat, n: nat)
    requires |vs| == |es| + 1 && n < |vs|
  {
    && j < n && LeavingSince(vs, es, x, i, j) && es[j].Tick?
    && SaturatingSub(es[j].now, es[i].now) > LEAVING_GRACE_SECS
    && Throughout(vs, x, Failed, j + 1, n)
  }

  ghost predicate SuspicionExplained(vs: seq<View>, es: seq<Event>, x: NodeId, n: nat)
    requires |vs| == |es| + 1 && n < |vs|
  {
    exists i :: SuspectedSince(vs, es, x, i, n)
  }

  ghost predicate LeavingExplained(vs: seq<View>, es: seq<Event>, x: NodeId, n: nat)
    requires |vs| == |es| + 1 && n < |vs|
  {
    exists i :: LeavingSince(vs, es, x, i, n)
  }

  ghost predicate FailureExplained(vs: seq<View>, es: seq<Event>, x: NodeId, n: nat)
    requires |vs| == |es| + 1 && n < |vs|
  {
    (exists i, j :: FailedByTimeouts(vs, es, x, i, j, n)) || (exists i, j :: FailedByLeaving(vs, es, x, i, j, n))
  }

  ghost predicate Explained(vs: seq<View>, es: seq<Event>, x: NodeId, n: nat)
    requires |vs| == |es| + 1 && n < |vs|
  {
    && (Has(vs[n], x, Suspected) ==> SuspicionExplained(vs, es, x, n))
    && (Has(vs[n], x, Leaving) ==> LeavingExplained(vs, es, x, n))
    && (Has(vs[n], x, Failed) ==> FailureExplained(vs, es, x, n))
  }

  /** Records handed to add_node are Online, as a peer describes itself. */
  predicate OnlineRecords(es: seq<Event>) {
    forall k | 0 <= k < |es| && es[k].AddNode? :: es[k].info.status.Online?
  }

  // ---------------------------------------------------------------------------------------------
  // One event's effect on one remote node

  lemma {:induction false} GossipOnlyRevives(v: View, entries: seq<Gossip>, x: NodeId)
    ensures x in MergeAll(v, entries).nodes <==> x in v.nodes
    ensures x in v.nodes ==>
      var a, b := v.nodes[x], MergeAll(v, entries).nodes[x];
      b.leavingAt == a.leavingAt && (b.status == a.status || b.status.Online?)
    decreases |entries|
  {
    if entries != [] { GossipOnlyRevives(MergeOne(v, entries[0]), entries[1..], x); }
  }

  ghost predicate GroundsToFail(v: View, x: NodeId, now: nat) {
    || (Has(v, x, Suspected) && TimedOut(v.nodes[x], now, v.timeout))
    || (Has(v, x, Leaving) && SaturatingSub(now, v.nodes[x].leavingAt) > LEAVING_GRACE_SECS)
  }

  /** A remote node can only become Suspected, Leaving or Failed in the three ways below. */
  lemma StatusChange(v: View, e: Event, x: NodeId)
    requires x != v.local && (e.AddNode? ==> e.info.status.Online?)
    ensures var t := Apply(v, e);
      && (Has(t, x, Suspected) && !Has(v, x, Suspected) ==>
           e.Tick? && Has(v, x, Online) && TimedOut(v.nodes[x], e.now, v.timeout))
      && (Has(t, x, Leaving) && !(e.SetLeaving? && e.id == x) ==>
           Has(v, x, Leaving) && t.nodes[x].leavingAt == v.nodes[x].leavingAt)
      && (e.SetLeaving? && Has(t, x, Leaving) && e.id == x ==> t.nodes[x].leavingAt == e.now)
      && (Has(t, x, Failed) && !Has(v, x, Failed) ==> e.Tick? && GroundsToFail(v, x, e.now))
  {
    if e.MergeGossip? { GossipOnlyRevives(v, e.entries, x); }
  }

  // ---------------------------------------------------------------------------------------------
  // The evidence accumulates

  lemma ExtendSuspected(vs: seq<View>, es: seq<Event>, x: NodeId, n: nat)
    requires IsTrace(vs, es) && n < |es| && x != vs[n].local && (es[n].AddNode? ==> es[n].info.status.Online?)
    requires Explained(vs, es, x, n) && Has(vs[n + 1], x, Suspected)
    ensures SuspicionExplained(vs, es, x, n + 1)
  {
    StatusChange(vs[n], es[n], x);
    if Has(vs[n], x, Suspected) {
      var i :| SuspectedSince(vs, es, x, i, n);
      assert SuspectedSince(vs, es, x, i, n + 1);
    } else {
      assert SuspectedSince(vs, es, x, n, n + 1);
    }
  }

  lemma ExtendLeaving(vs: seq<View>, es: seq<Event>, x: NodeId, n: nat)
    requires IsTrace(vs, es) && n < |es| && x != vs[n].local && (es[n].AddNode? ==> es[n].info.status.Online?)
    requires Explained(vs, es, x, n) && Has(vs[n + 1], x, Leaving)
    ensures LeavingExplained(vs, es, x, n + 1)
  {
    StatusChange(vs[n], es[n], x);
    if es[n].SetLeaving? && es[n].id == x {
      assert LeavingSince(vs, es, x, n, n + 1);
    } else {
      var i :| LeavingSince(vs, es, x, i, n);
      assert LeavingSince(vs, es, x, i, n + 1);
    }
  }

  lemma ExtendFailed(vs: seq<View>, es: seq<Event>, x: NodeId, n: nat)
    requires IsTrace(vs, es) && n < |es| && x != vs[n].local && (es[n].AddNode? ==> es[n].info.status.Online?)
    requires Explained(vs, es, x, n) && Has(vs[n + 1], x, Failed)
    ensures FailureExplained(vs, es, x, n + 1)
  {
    StatusChange(vs[n], es[n], x);
    if Has(vs[n], x, Failed) {
      if i, j :| FailedByTimeouts(vs, es, x, i, j, n) {
        assert FailedByTimeouts(vs, es, x, i, j, n + 1);
      } else {
        var i, j :| FailedByLeaving(vs, es, x, i, j, n);
        assert FailedByLeaving(vs, es, x, i, j, n + 1);
      }
    } else if Has(vs[n], x, Suspected) {
      var i :| SuspectedSince(vs, es, x, i, n);
      assert FailedByTimeouts(vs, es, x, i, n, n + 1);
    } else {
      var i :| LeavingSince(vs, es, x, i, n);
      assert FailedByLeaving(vs, es, x, i, n, n + 1);
    }
  }

  lemma {:induction false} LocalIsConstant(vs: seq<View>, es: seq<Event>, n: nat)
    requires IsTrace(vs, es) && n < |vs|
    ensures vs[n].local == vs[0].local && vs[n].timeout == vs[0].timeout
  {
    if n > 0 {
      LocalIsConstant(vs, es, n - 1);
      if es[n - 1].MergeGossip? { MergeAllLocal(vs[n - 1], es[n - 1].entries); }
    }
  }

  lemma {:induction false} AlwaysExplained(vs: seq<View>, es: seq<Event>, x: NodeId, n: nat)
    requires IsTrace(vs, es) && n < |vs| && OnlineRecords(es)
    requires x != vs[0].local && x !in vs[0].nodes
    ensures Explained(vs, es, x, n)
  {
    if n > 0 {
      AlwaysExplained(vs, es, x, n - 1);
      LocalIsConstant(vs, es, n - 1);
      if Has(vs[n], x, Suspected) { ExtendSuspected(vs, es, x, n - 1); }
      if Has(vs[n], x, Leaving) { ExtendLeaving(vs, es, x, n - 1); }
      if Has(vs[n], x, Failed) { ExtendFailed(vs, es, x, n - 1); }
    }
  }

  /** No remote node is Failed without two late ticks on record, or a departure past its grace period. */
  lemma FailureNeedsEvidence(vs: seq<View>, es: seq<Event>, x: NodeId, n: nat)
    requires IsTrace(vs, es) && n < |vs| && OnlineRecords(es)
    requires exists timeout, start :: vs[0] == Fresh(vs[0].local, timeout, start)
    requires x != vs[0].local && Has(vs[n], x, Failed)
    ensures FailureExplained(vs, es, x, n)
  {
    AlwaysExplained(vs, es, x, n);
  }

  // ---------------------------------------------------------------------------------------------
  // The other way round: silence and departure lead to failure, contact prevents it

  /** The record and the ring place of x are the same in both views. */
  ghost predicate SameFor(v: View, t: View, x: NodeId) {
    && (x in v.nodes <==> x in t.nodes) && (x in v.ring <==> x in t.ring)
    && (x in v.nodes ==> v.nodes[x] == t.nodes[x])
  }

  /** What one tick does to a remote node, on its status, its clocks and its place on the ring. */
  lemma TickOnRemote(v: View, now: nat, x: NodeId)
    requires x in v.nodes && x != v.local
    ensures var t, a := Apply(v, Tick(now)), v.nodes[x];
      var late, expired := now > a.lastHeartbeat + v.timeout, a.leavingAt > 0 && now > a.leavingAt + LEAVING_GRACE_SECS;
      match a.status
      case Online =>
        (x in t.ring <==> x in v.ring) && x in t.nodes && t.nodes[x] == if late then a.(status := Suspected) else a
      case Suspected =>
        (x in t.ring <==> !late) && x in t.nodes && t.nodes[x] == a.(status := if late then Failed else Online)
      case Failed =>
        if !late then x in t.ring && x in t.nodes && t.nodes[x] == a.(status := Online)
        else if now > a.lastHeartbeat + PURGE_SECS then x !in t.nodes && (x in t.ring <==> x in v.ring)
        else SameFor(v, t, x)
      case Leaving =>
        if expired then x !in t.ring && x in t.nodes && t.nodes[x] == a.(status := Failed)
        else if late then SameFor(v, t, x)
        else x in t.ring && x in t.nodes && t.nodes[x] == a.(status := Online, leavingAt := 0)
  {
    var r := RulingOn(v, x, now);
    assert x in Failing(v, now) <==> r.Fail?;
    assert x in Recovering(v, now) <==> r.Recover?;
  }

  /** A late Online node becomes Suspected, a late Suspected one Failed and off the ring. */
  ghost predicate LateOnesAdvance(v: View, t: View, now: nat) {
    forall x | x in v.nodes && x != v.local && now > v.nodes[x].lastHeartbeat + v.timeout ::
      && (v.nodes[x].status.Online? ==> Has(t, x, Suspected))
      && (v.nodes[x].status.Suspected? ==> Has(t, x, Failed) && x !in t.ring)
  }

  lemma TickAdvances(v: View, now: nat)
    ensures LateOnesAdvance(v, Apply(v, Tick(now)), now)
  {
    forall x | x in v.nodes && x != v.local && now > v.nodes[x].lastHeartbeat + v.timeout
      ensures v.nodes[x].status.Online? ==> Has(Apply(v, Tick(now)), x, Suspected)
      ensures v.nodes[x].status.Suspected? ==> Has(Apply(v, Tick(now)), x, Failed) && x !in Apply(v, Tick(now)).ring
    {
      TickOnRemote(v, now, x);
    }
  }

  predicate Omits(entries: seq<Gossip>, x: NodeId) { forall k | 0 <= k < |entries| :: entries[k].node != x }

  predicate Names(e: Event, x: NodeId) {
    match e
    case MergeGossip(entries) => !Omits(entries, x)
    case AnnounceLeaving(_) => false
    case AnnounceRecovery => false
    case Tick(_) => false
    case _ => e.id == x
  }

  lemma {:induction false} GossipSpares(v: View, entries: seq<Gossip>, x: NodeId)
    requires Omits(entries, x)
    ensures SameFor(v, MergeAll(v, entries), x)
    decreases |entries|
  {
    if entries != [] { GossipSpares(MergeOne(v, entries[0]), entries[1..], x); }
  }

  /** No operation changes a remote node it does not name; only a tick looks at all of them. */
  lemma OthersAreSpared(v: View, e: Event, x: NodeId)
    requires x != v.local && !Names(e, x) && !e.Tick?
    ensures SameFor(v, Apply(v, e), x)
  {
    if e.MergeGossip? { GossipSpares(v, e.entries, x); }
  }

  /** One report about a node: a newer one moves its clock and, if Online, revives it; an older one does nothing. */
  lemma {:induction false} GossipOnRemote(v: View, entries: seq<Gossip>, k: nat)
    requires k < |entries| && entries[k].node in v.nodes && entries[k].node != v.local
    requires Omits(entries[..k], entries[k].node) && Omits(entries[k + 1..], entries[k].node)
    ensures var t, g := Apply(v, MergeGossip(entries)), entries[k]; var a := v.nodes[g.node];
      if g.lastSeen <= a.lastHeartbeat then SameFor(v, t, g.node)
      else
        var revived := g.status.Online? && (a.status.Suspected? || a.status.Failed?);
        && g.node in t.nodes
        && t.nodes[g.node] == a.(lastHeartbeat := g.lastSeen, status := if revived then Online else a.status)
        && (g.node in t.ring <==> g.node in v.ring || (g.status.Online? && a.status.Failed?))
    decreases k
  {
    var u, x := MergeOne(v, entries[0]), entries[k].node;
    if k == 0 {
      GossipSpares(u, entries[1..], x);
    } else {
      assert entries[..k][0] == entries[0] && entries[0].node != x;
      assert entries[1..][k - 1] == entries[k] && entries[1..][k..] == entries[k + 1..];
      assert entries[1..][..k - 1] == entries[..k][1..];
      GossipOnRemote(u, entries[1..], k - 1);
    }
  }

  /** Nothing is heard of x, and each tick finds it late, or each finds it in time. */
  predicate Silent(es: seq<Event>, x: NodeId) { forall k | 0 <= k < |es| :: !Names(es[k], x) }
  predicate TicksAfter(es: seq<Event>, limit: nat) { forall k | 0 <= k < |es| && es[k].Tick? :: es[k].now > limit }
  predicate TicksBy(es: seq<Event>, limit: nat) { forall k | 0 <= k < |es| && es[k].Tick? :: es[k].now <= limit }

  /** x is off the ring, and Failed as long as it is registered. */
  predicate Down(v: View, x: NodeId, heard: nat) {
    x !in v.ring && (x in v.nodes ==> v.nodes[x].status.Failed? && v.nodes[x].lastHeartbeat == heard)
  }

  lemma {:induction false} DownStaysDown(v: View, es: seq<Event>, x: NodeId, heard: nat)
    requires x != v.local && Down(v, x, heard) && Silent(es, x) && TicksAfter(es, heard + v.timeout)
    ensures Down(Run(v, es), x, heard)
    ensures x in v.nodes && TicksBy(es, heard + PURGE_SECS) ==> x in Run(v, es).nodes
    decreases |es|
  {
    if es != [] {
      OneEvent(v, es[0], x);
      DownStaysDown(Apply(v, es[0]), es[1..], x, heard);
    }
  }

  lemma OneEvent(v: View, e: Event, x: NodeId)
    requires x != v.local && !Names(e, x)
    ensures Apply(v, e).local == v.local && Apply(v, e).timeout == v.timeout
    ensures !e.Tick? || x !in v.nodes ==> SameFor(v, Apply(v, e), x)
    ensures e.Tick? && x in v.nodes && v.nodes[x].status.Failed? && e.now > v.nodes[x].lastHeartbeat + v.timeout ==>
              && (x in Apply(v, e).ring <==> x in v.ring)
              && (x in Apply(v, e).nodes <==> e.now <= v.nodes[x].lastHeartbeat + PURGE_SECS)
              && (x in Apply(v, e).nodes ==> Apply(v, e).nodes[x] == v.nodes[x])
  {
    if e.MergeGossip? { MergeAllLocal(v, e.entries); }
    if !e.Tick? { OthersAreSpared(v, e, x); } else if x in v.nodes { TickOnRemote(v, e.now, x); }
  }

  lemma {:induction false} SuspectFades(v: View, es: seq<Event>, x: NodeId, heard: nat)
    requires x != v.local && Has(v, x, Suspected) && v.nodes[x].lastHeartbeat == heard
    requires Silent(es, x) && TicksAfter(es, heard + v.timeout)
    ensures var t := Run(v, es);
      && t.local == v.local && t.timeout == v.timeout
      && ((Has(t, x, Suspected) && t.nodes[x].lastHeartbeat == heard) || Down(t, x, heard))
      && (TicksBy(es, heard + PURGE_SECS) ==> x in t.nodes)
    decreases |es|
  {
    if es != [] {
      OneEvent(v, es[0], x);
      if es[0].Tick? {
        TickOnRemote(v, es[0].now, x);
        DownStaysDown(Apply(v, es[0]), es[1..], x, heard);
        LocalStays(Apply(v, es[0]), es[1..]);
      } else {
        SuspectFades(Apply(v, es[0]), es[1..], x, heard);
      }
    }
  }

  lemma {:induction false} LocalStays(v: View, es: seq<Event>)
    ensures Run(v, es).local == v.local && Run(v, es).timeout == v.timeout
    decreases |es|
  {
    if es != [] {
      if es[0].MergeGossip? { MergeAllLocal(v, es[0].entries); }
      LocalStays(Apply(v, es[0]), es[1..]);
    }
  }

  /**
   * A remote Online node of which nothing is heard between two late ticks, whatever else happens there and however
   * many more late ticks, is off the ring after the second and Failed; within a day it is still registered.
   */
  lemma SilenceIsFatal(v: View, first: nat, between: seq<Event>, second: nat, x: NodeId)
    requires x != v.local && Has(v, x, Online) && Silent(between, x)
    requires TicksAfter([Tick(first)] + between + [Tick(second)], v.nodes[x].lastHeartbeat + v.timeout)
    ensures var t := Apply(Run(Apply(v, Tick(first)), between), Tick(second));
      && Down(t, x, v.nodes[x].lastHeartbeat)
      && (TicksBy(between + [Tick(second)], v.nodes[x].lastHeartbeat + PURGE_SECS) ==> Has(t, x, Failed))
  {
    var all, heard := [Tick(first)] + between + [Tick(second)], v.nodes[x].lastHeartbeat;
    var u := Apply(v, Tick(first));
    assert all[0] == Tick(first) && all[|all| - 1] == Tick(second);
    TickOnRemote(v, first, x);
    assert TicksAfter(between, heard + v.timeout) by {
      forall k | 0 <= k < |between| && between[k].Tick? ensures between[k].now > heard + v.timeout {
        assert all[k + 1] == between[k];
      }
    }
    SuspectFades(u, between, x, heard);
    var w := Run(u, between);
    OneEvent(w, Tick(second), x);
    if Has(w, x, Suspected) { TickOnRemote(w, second, x); }
    if TicksBy(between + [Tick(second)], heard + PURGE_SECS) {
      assert (between + [Tick(second)])[|between|] == Tick(second);
      assert TicksBy(between, heard + PURGE_SECS) by {
        forall k | 0 <= k < |between| && between[k].Tick? ensures between[k].now <= heard + PURGE_SECS {
          assert (between + [Tick(second)])[k] == between[k];
        }
      }
    }
  }

  /** A registered node that is heard from stays Online and where it is while every tick comes within the timeout. */
  lemma {:induction false} HeardStaysOnline(v: View, heard: nat, es: seq<Event>, x: NodeId)
    requires x != v.local && x in v.nodes && Silent(es, x) && TicksBy(es, heard + v.timeout)
    ensures var t := Run(Apply(v, UpdateHeartbeat(x, heard)), es);
      && t.nodes.Keys >= {x} && t.nodes[x] == v.nodes[x].(status := Online, lastHeartbeat := heard)
      && (x in t.ring <==> x in v.ring)
  {
    InTimeStaysOnline(Apply(v, UpdateHeartbeat(x, heard)), es, x);
  }

  lemma {:induction false} InTimeStaysOnline(v: View, es: seq<Event>, x: NodeId)
    requires x != v.local && Has(v, x, Online) && Silent(es, x) && TicksBy(es, v.nodes[x].lastHeartbeat + v.timeout)
    ensures SameFor(v, Run(v, es), x)
    decreases |es|
  {
    if es != [] {
      OneEvent(v, es[0], x);
      if es[0].Tick? { TickOnRemote(v, es[0].now, x); }
      InTimeStaysOnline(Apply(v, es[0]), es[1..], x);
    }
  }

  /** Leaving since the given time, off the ring, its last heartbeat forgotten. */
  predicate Departing(v: View, x: NodeId, since: nat) {
    x !in v.ring && x in v.nodes && v.nodes[x] == NodeInfo(Leaving, 0, since)
  }

  lemma {:induction false} DepartingGoesDown(v: View, es: seq<Event>, x: NodeId, since: nat)
    requires x != v.local && since > 0 && Departing(v, x, since) && Silent(es, x) && TicksAfter(es, v.timeout)
    ensures Departing(Run(v, es), x, since) || Down(Run(v, es), x, 0)
    decreases |es|
  {
    if es != [] {
      OneEvent(v, es[0], x);
      if es[0].Tick? { TickOnRemote(v, es[0].now, x); }
      if Departing(Apply(v, es[0]), x, since) {
        DepartingGoesDown(Apply(v, es[0]), es[1..], x, since);
      } else {
        DownStaysDown(Apply(v, es[0]), es[1..], x, 0);
      }
    }
  }

  /** A node that announces its departure and stays silent leaves the ring at once and fails after the grace. */
  lemma DepartureIsFinal(v: View, since: nat, between: seq<Event>, now: nat, x: NodeId)
    requires x != v.local && x in v.nodes && since > 0 && Silent(between, x) && TicksAfter(between, v.timeout)
    requires now > Max(since + LEAVING_GRACE_SECS, v.timeout)
    ensures var u := Run(Apply(v, SetLeaving(x, since)), between); x !in u.ring && Down(Apply(u, Tick(now)), x, 0)
  {
    var t := Apply(v, SetLeaving(x, since));
    DepartingGoesDown(t, between, x, since);
    LocalStays(t, between);
    var u := Run(t, between);
    OneEvent(u, Tick(now), x);
    if x in u.nodes { TickOnRemote(u, now, x); }
  }
}
