/** The race that lets at most one node at a time pause itself for compaction. */
module CompactionRace {
  import opened Basics
  import opened Membership

  const RACE_WINDOW_MS: nat := 1750
  const STALENESS_CUTOFF_MS: nat := RACE_WINDOW_MS * 4

  /** Most recent proposal heard from each node: node id to its proposed-at time. */
  type Intents = map<NodeId, nat>

  predicate IsFresh(proposedAt: nat, now: nat) { SaturatingSub(now, proposedAt) <= STALENESS_CUTOFF_MS }

  function FreshIntents(t: Intents, now: nat): Intents { map id | id in t && IsFresh(t[id], now) :: t[id] }

  /** Earlier proposal first, node id as the tiebreak. */
  predicate Precedes(t: Intents, a: NodeId, b: NodeId)
    requires a in t && b in t
  {
    t[a] < t[b] || (t[a] == t[b] && a < b)
  }

  predicate IsFirst(t: Intents, id: NodeId) {
    id in t && forall other | other in t && other != id :: Precedes(t, id, other)
  }

  lemma {:induction false} FirstExists(t: Intents)
    requires t != map[]
    ensures exists id :: IsFirst(t, id)
    decreases |t|
  {
    var x :| x in t;
    var rest := t - {x};
    assert rest.Keys == t.Keys - {x};
    if rest == map[] {
      assert forall other | other in t :: other == x by {
        forall other | other in t ensures other == x { assert other != x ==> other in rest; }
      }
      assert IsFirst(t, x);
    } else {
      FirstExists(rest);
      var y :| IsFirst(rest, y);
      var first := if Precedes(t, x, y) then x else y;
      forall other | other in t && other != first ensures Precedes(t, first, other) {
        assert other != x ==> other in rest;
      }
      assert IsFirst(t, first);
    }
  }

  lemma FirstUnique(t: Intents, a: NodeId, b: NodeId)
    requires IsFirst(t, a) && IsFirst(t, b)
    ensures a == b
  {
  }

  /** Whom a table names as winner: the first of the intents recent enough to count. */
  function RaceWinner(t: Intents, now: nat): (w: Option<NodeId>)
    ensures w.None? <==> FreshIntents(t, now) == map[]
    ensures forall id: NodeId :: w == Some(id) <==> IsFirst(FreshIntents(t, now), id)
  {
    var f := FreshIntents(t, now);
    if f == map[] then None
    else
      FirstExists(f);
      assert forall a, b | IsFirst(f, a) && IsFirst(f, b) :: a == b by {
        forall a, b | IsFirst(f, a) && IsFirst(f, b) ensures a == b { FirstUnique(f, a, b); }
      }
      var id :| id in f && IsFirst(f, id);
      Some(id)
  }

  /** The winner is the earliest intent of the last seven seconds, the lower id among equals. */
  lemma WinnerIff(t: Intents, now: nat, id: NodeId)
    ensures RaceWinner(t, now) == Some(id) <==>
              && id in t && now <= t[id] + 7000
              && forall other | other in t && other != id && now <= t[other] + 7000 ::
                   t[id] < t[other] || (t[id] == t[other] && id < other)
  {
    var f := FreshIntents(t, now);
    if RaceWinner(t, now) == Some(id) {
      forall other | other in t && other != id && now <= t[other] + 7000
        ensures t[id] < t[other] || (t[id] == t[other] && id < other)
      {
        assert other in f && Precedes(f, id, other);
      }
    } else if id in f {
      assert !IsFirst(f, id);
    }
  }

  /** An intent past the cutoff neither wins nor blocks: dropping it changes nothing. */
  lemma StaleIntentIsInert(t: Intents, now: nat, late: NodeId)
    requires late in t && now > t[late] + STALENESS_CUTOFF_MS
    ensures RaceWinner(t, now) != Some(late) && RaceWinner(t - {late}, now) == RaceWinner(t, now)
  {
    assert FreshIntents(t - {late}, now) == FreshIntents(t, now);
  }

  /** Each proposer's table holds every proposer's current intent, and still counts it. */
  ghost predicate AllHeard(proposers: set<NodeId>, at: Intents, tables: map<NodeId, Intents>,
                           clocks: map<NodeId, nat>)
  {
    forall p, q | p in proposers && q in proposers ::
      && p in tables && p in clocks && q in at && q in tables[p]
      && tables[p][q] == at[q] && IsFresh(at[q], clocks[p])
  }

  /** Among proposers who heard each other, a winner is the earliest of them, so there is only one. */
  lemma WinnerIsEarliest(proposers: set<NodeId>, at: Intents, tables: map<NodeId, Intents>,
                         clocks: map<NodeId, nat>, p: NodeId, q: NodeId)
    requires AllHeard(proposers, at, tables, clocks) && p in proposers && q in proposers && p != q
    requires RaceWinner(tables[p], clocks[p]) == Some(p)
    ensures Precedes(at, p, q) && RaceWinner(tables[q], clocks[q]) != Some(q)
  {
    var fp, fq := FreshIntents(tables[p], clocks[p]), FreshIntents(tables[q], clocks[q]);
    assert IsFirst(fp, p) && q in fp && p in fp;
    assert p in fq && q in fq;
    assert !IsFirst(fq, q);
  }

  /** With identical tables exactly one proposer wins: the earliest. */
  lemma AgreedTableHasOneWinner(proposers: set<NodeId>, t: Intents, now: nat)
    requires proposers != {} && t.Keys == proposers && forall id | id in t :: IsFresh(t[id], now)
    ensures exists id :: id in proposers && IsFirst(t, id) &&
              forall p | p in proposers :: RaceWinner(t, now) == Some(p) <==> p == id
  {
    assert FreshIntents(t, now) == t;
    var x :| x in proposers;
    var w := RaceWinner(t, now).value;
    assert IsFirst(t, w);
  }
}
