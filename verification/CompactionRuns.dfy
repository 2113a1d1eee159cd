/** The compaction race over whole runs: proposals, messages in flight, waits and decisions of all nodes. */
module CompactionRuns {
  import opened Basics
  import opened Membership
  import opened CompactionRace

  /** A decision in a node's own favour. */
  datatype Win = Win(node: NodeId, proposedAt: nat, decidedAt: nat)

  /** `latest` is each node's most recent proposal, `waiting` the nodes that have not decided on theirs. */
  datatype State = State(now: nat, tables: map<NodeId, Intents>, latest: map<NodeId, nat>, waiting: set<NodeId>,
                         wins: seq<Win>)

  datatype Step =
    | Pass(ms: nat)
    | Propose(p: NodeId)
    | Hear(p: NodeId, from: NodeId, proposedAt: nat)
    | Decide(p: NodeId)

  function Table(s: State, p: NodeId): Intents { if p in s.tables then s.tables[p] else map[] }

  function Record(s: State, p: NodeId, from: NodeId, at: nat): State {
    s.(tables := s.tables[p := Table(s, p)[from := at]])
  }

  /** A node proposes again only after its last proposal has gone stale, and decides only after the wait. */
  predicate Enabled(s: State, step: Step) {
    match step
    case Pass(_) => true
    case Propose(p) => p !in s.waiting && (p in s.latest ==> !IsFresh(s.latest[p], s.now))
    case Hear(p, from, _) => p != from
    case Decide(p) => p in s.waiting && p in s.latest && s.now >= s.latest[p] + RACE_WINDOW_MS
  }

  predicate Wins(s: State, p: NodeId) { RaceWinner(Table(s, p), s.now) == Some(p) }

  function Apply(s: State, step: Step): State
    requires Enabled(s, step)
  {
    match step
    case Pass(ms) => s.(now := s.now + ms)
    case Propose(p) => Record(s, p, p, s.now).(latest := s.latest[p := s.now], waiting := s.waiting + {p})
    case Hear(p, from, at) => Record(s, p, from, at)
    case Decide(p) =>
      s.(waiting := s.waiting - {p}, wins := if Wins(s, p) then s.wins + [Win(p, s.latest[p], s.now)] else s.wins)
  }

  /** No intent is on its way for longer than the wait: the older ones are in the decider's table. */
  predicate Timely(s: State, p: NodeId) {
    forall q | q in s.latest && s.latest[q] + RACE_WINDOW_MS <= s.now ::
      q in Table(s, p) && Table(s, p)[q] == s.latest[q]
  }

  function Initial(): State { State(0, map[], map[], {}, []) }

  /** Steps, latest last. */
  function Run(steps: seq<Step>): State {
    if steps == [] then Initial()
    else
      var s, step := Run(steps[..|steps| - 1]), steps[|steps| - 1];
      if Enabled(s, step) then Apply(s, step) else s
  }

  ghost predicate TimelyRun(steps: seq<Step>) {
    steps != [] ==>
      && TimelyRun(steps[..|steps| - 1])
      && (steps[|steps| - 1].Decide? ==> Timely(Run(steps[..|steps| - 1]), steps[|steps| - 1].p))
  }

  // ---------------------------------------------------------------------------------------------
  // What holds in every reachable state

  /** One of the two was decided only after the other's proposal had gone stale. */
  predicate Apart(v: Win, w: Win) {
    !IsFresh(v.proposedAt, w.decidedAt) || !IsFresh(w.proposedAt, v.decidedAt)
  }

  ghost predicate AllApart(wins: seq<Win>) { forall i, j | 0 <= i < j < |wins| :: Apart(wins[i], wins[j]) }

  /** Proposals and wins lie in the past, and a waiting node has its own proposal on the table. */
  ghost predicate Timed(s: State) {
    && (forall p | p in s.latest :: s.latest[p] <= s.now)
    && (forall p | p in s.waiting :: p in s.latest && p in Table(s, p) && Table(s, p)[p] == s.latest[p])
    && forall w | w in s.wins :: w.proposedAt + RACE_WINDOW_MS <= w.decidedAt <= s.now
  }

  /** A winner's proposal is its latest one, or has gone stale since. */
  predicate Current(s: State, w: Win) {
    w.node in s.latest && (s.latest[w.node] == w.proposedAt || !IsFresh(w.proposedAt, s.latest[w.node]))
  }

  /** A node still waiting proposed no earlier than this winner, or too long before it was decided. */
  predicate Settled(s: State, w: Win) {
    forall p | p in s.waiting && p in s.latest && p != w.node && s.latest[p] <= w.proposedAt ::
      !IsFresh(s.latest[p], w.decidedAt) || (s.latest[p] == w.proposedAt && w.node < p)
  }

  ghost predicate Invariant(s: State) {
    && Timed(s) && AllApart(s.wins)
    && forall w | w in s.wins ::
         Current(s, w) && Settled(s, w) && (w.node in s.waiting ==> s.latest[w.node] != w.proposedAt)
  }

  lemma WinnerPrecedes(s: State, p: NodeId, q: NodeId)
    requires Wins(s, p) && q in Table(s, p) && q != p && IsFresh(Table(s, p)[q], s.now)
    ensures p in Table(s, p) && Precedes(Table(s, p), p, q)
  {
    var current := FreshIntents(Table(s, p), s.now);
    assert IsFirst(current, p) && q in current;
  }

  /** A new win is apart from every earlier one. */
  lemma NewWinApart(s: State, p: NodeId, w: Win)
    requires Invariant(s) && Enabled(s, Decide(p)) && Timely(s, p) && Wins(s, p) && w in s.wins
    ensures Apart(w, Win(p, s.latest[p], s.now))
  {
    hide RaceWinner;
    var q := w.node;
    assert Current(s, w) && Settled(s, w);
    if q != p && s.latest[q] == w.proposedAt <= s.latest[p] && IsFresh(w.proposedAt, s.now) {
      WinnerPrecedes(s, p, q);
    }
  }

  lemma NewWinSettled(s: State, p: NodeId)
    requires Invariant(s) && Enabled(s, Decide(p)) && Timely(s, p) && Wins(s, p)
    ensures Settled(Apply(s, Decide(p)), Win(p, s.latest[p], s.now))
  {
    hide RaceWinner;
    forall q | q in s.waiting && q in s.latest && q != p && s.latest[q] <= s.latest[p] && IsFresh(s.latest[q], s.now)
      ensures s.latest[q] == s.latest[p] && p < q
    {
      WinnerPrecedes(s, p, q);
    }
  }

  lemma DecideKeeps(s: State, p: NodeId)
    requires Invariant(s) && Enabled(s, Decide(p)) && Timely(s, p)
    ensures Invariant(Apply(s, Decide(p)))
  {
    hide RaceWinner;
    if Wins(s, p) {
      var v := Win(p, s.latest[p], s.now);
      NewWinSettled(s, p);
      forall w | w in s.wins ensures Apart(w, v) { NewWinApart(s, p, w); }
    }
  }

  lemma ProposeKeeps(s: State, p: NodeId)
    requires Invariant(s) && Enabled(s, Propose(p))
    ensures Invariant(Apply(s, Propose(p)))
  {
  }

  lemma {:induction false} RunKeepsInvariant(steps: seq<Step>)
    requires TimelyRun(steps)
    ensures Invariant(Run(steps))
  {
    if steps != [] {
      var s, step := Run(steps[..|steps| - 1]), steps[|steps| - 1];
      RunKeepsInvariant(steps[..|steps| - 1]);
      if Enabled(s, step) {
        match step
        case Decide(p) => DecideKeeps(s, p);
        case Propose(p) => ProposeKeeps(s, p);
        case _ =>
      }
    }
  }

  /** In every timely run any two wins are apart: no node wins while another winner's proposal still counts. */
  lemma WinsNeverOverlap(steps: seq<Step>, i: nat, j: nat)
    requires TimelyRun(steps) && i < j < |Run(steps).wins|
    ensures Apart(Run(steps).wins[i], Run(steps).wins[j])
  {
    RunKeepsInvariant(steps);
  }

  // ---------------------------------------------------------------------------------------------
  // A lost intent

  lemma AloneWins(p: NodeId, at: nat, now: nat)
    requires IsFresh(at, now)
    ensures RaceWinner(map[p := at], now) == Some(p)
  {
    assert FreshIntents(map[p := at], now) == map[p := at];
    assert IsFirst(map[p := at], p);
  }

  lemma RunSnoc(steps: seq<Step>, step: Step)
    requires Enabled(Run(steps), step)
    ensures Run(steps + [step]) == Apply(Run(steps), step)
  {
    assert (steps + [step])[..|steps|] == steps;
  }

  /** Two nodes propose together and neither hears the other: both win, and their wins overlap. */
  lemma UnheardIntentsBothWin(p: NodeId, q: NodeId)
    requires p != q
    ensures var s := Run([Propose(p)] + [Propose(q)] + [Pass(RACE_WINDOW_MS)] + [Decide(p)] + [Decide(q)]);
            s.wins == [Win(p, 0, RACE_WINDOW_MS), Win(q, 0, RACE_WINDOW_MS)] && !Apart(s.wins[0], s.wins[1])
  {
    hide Run, RaceWinner;
    AloneWins(p, 0, RACE_WINDOW_MS);
    AloneWins(q, 0, RACE_WINDOW_MS);
    assert Run([]) == Initial() by { StartsEmpty(); }
    assert [] + [Propose(p)] == [Propose(p)];
    RunSnoc([], Propose(p));
    RunSnoc([Propose(p)], Propose(q));
    RunSnoc([Propose(p)] + [Propose(q)], Pass(RACE_WINDOW_MS));
    var s := Run([Propose(p)] + [Propose(q)] + [Pass(RACE_WINDOW_MS)]);
    assert Table(s, p) == map[p := 0] && Table(s, q) == map[q := 0];
    RunSnoc([Propose(p)] + [Propose(q)] + [Pass(RACE_WINDOW_MS)], Decide(p));
    RunSnoc([Propose(p)] + [Propose(q)] + [Pass(RACE_WINDOW_MS)] + [Decide(p)], Decide(q));
  }

  lemma RunTimely(steps: seq<Step>, step: Step)
    requires TimelyRun(steps) && (step.Decide? ==> Timely(Run(steps), step.p))
    ensures TimelyRun(steps + [step])
  {
    assert (steps + [step])[..|steps|] == steps;
  }

  function Exchange(p: NodeId, q: NodeId): seq<Step> {
    [Propose(p)] + [Propose(q)] + [Hear(p, q, 0)] + [Hear(q, p, 0)] + [Pass(RACE_WINDOW_MS)]
  }

  lemma AfterExchange(p: NodeId, q: NodeId)
    requires p != q
    ensures TimelyRun(Exchange(p, q))
    ensures var s, both := Run(Exchange(p, q)), map[p := 0, q := 0];
      Table(s, p) == Table(s, q) == s.latest == both && s.now == RACE_WINDOW_MS && s.waiting == {p, q} && s.wins == []
  {
    hide Run, RaceWinner, TimelyRun;
    assert Run([]) == Initial() && TimelyRun([]) by { StartsEmpty(); }
    assert [] + [Propose(p)] == [Propose(p)];
    var a := [Propose(p)] + [Propose(q)];
    Next([], Propose(p));
    Next([Propose(p)], Propose(q));
    Next(a, Hear(p, q, 0));
    Next(a + [Hear(p, q, 0)], Hear(q, p, 0));
    Next(a + [Hear(p, q, 0)] + [Hear(q, p, 0)], Pass(RACE_WINDOW_MS));
  }

  /** Two nodes propose together and hear each other: the run is timely, and only the one with the lower id wins. */
  lemma HeardIntentsOneWins(p: NodeId, q: NodeId)
    requires p < q
    ensures var steps := Exchange(p, q) + [Decide(q)] + [Decide(p)];
            TimelyRun(steps) && Run(steps).wins == [Win(p, 0, RACE_WINDOW_MS)]
  {
    hide Run, RaceWinner, TimelyRun, Exchange;
    AfterExchange(p, q);
    WinnerIff(map[p := 0, q := 0], RACE_WINDOW_MS, p);
    WinnerIff(map[p := 0, q := 0], RACE_WINDOW_MS, q);
    Next(Exchange(p, q), Decide(q));
    Next(Exchange(p, q) + [Decide(q)], Decide(p));
  }

  lemma Next(steps: seq<Step>, step: Step)
    requires TimelyRun(steps) && Enabled(Run(steps), step) && (step.Decide? ==> Timely(Run(steps), step.p))
    ensures TimelyRun(steps + [step]) && Run(steps + [step]) == Apply(Run(steps), step)
  {
    RunTimely(steps, step);
    RunSnoc(steps, step);
  }

  /** A node that has heard of an earlier intent, or an equal one of a lower id, does not win while that one counts. */
  lemma EarlierIntentPrevails(s: State, p: NodeId, q: NodeId, at: nat, ms: nat)
    requires p != q && p in Table(s, p) && (at < Table(s, p)[p] || (at == Table(s, p)[p] && q < p))
    requires s.now + ms <= at + STALENESS_CUTOFF_MS
    ensures var t := Apply(Apply(s, Hear(p, q, at)), Pass(ms));
            Enabled(t, Decide(p)) ==> Apply(t, Decide(p)).wins == s.wins
  {
    hide RaceWinner;
    var t := Apply(Apply(s, Hear(p, q, at)), Pass(ms));
    WinnerIff(Table(t, p), t.now, p);
  }

  lemma StartsEmpty()
    ensures Run([]) == Initial() && TimelyRun([])
  {
  }
}
