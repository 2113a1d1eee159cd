/**
 * Group commit of chunk writes: writers rename their file into place, ask a single worker for
 * durability, and wait; the worker gathers requests into a batch and answers all of it with one
 * syncfs. Every interleaving of writers, worker, kernel write-back and crashes is a sequence of steps.
 */
module Durability {
  import opened Basics

  type WriteId = nat

  datatype Priority = Foreground | Background
  datatype Request = Request(write: WriteId, kind: Priority)
  datatype Outcome = Ok | Err

  /** Where the worker thread stands. */
  datatype Phase =
    | Waiting
    | Lingering
    | Sweeping
    | Swept
    | Syncing(covered: set<WriteId>)
    | Replying(result: Outcome)

  /** One completed syncfs: the files in place when it began, what it returned, and whom it serves. */
  datatype Flush = Flush(covered: set<WriteId>, result: Outcome, batch: seq<Request>)

  datatype Answer = Answer(request: Request, result: Outcome)

  datatype State = State(
    written: set<WriteId>,    // files renamed into place, visible but perhaps only in the page cache
    durable: set<WriteId>,    // files on stable storage
    sent: seq<Request>,       // requests sent since the last start, in channel order
    queue: seq<Request>,
    batch: seq<Request>,
    phase: Phase,
    answers: seq<Answer>,     // replies delivered since the last start
    flushes: seq<Flush>,      // syncfs calls since the last start
    acked: set<WriteId>       // writes ever reported durable, across restarts
  )

  datatype Step =
    | WriteFile(w: WriteId)
    | Send(w: WriteId, kind: Priority)
    | Receive
    | LingerReceive
    | LingerEnd
    | SweepReceive
    | SweepEnd
    | SyncBegin
    | SyncEnd(result: Outcome, extra: set<WriteId>)
    | ReplyOne
    | BatchDone
    | WriteBack(some: set<WriteId>)
    | Crash

  function Initial(): State { State({}, {}, [], [], [], Waiting, [], [], {}) }

  predicate Enabled(s: State, step: Step) {
    match step
    case WriteFile(w) => w !in s.written
    case Send(w, _) => w in s.written && forall r | r in s.sent :: r.write != w
    case Receive => s.phase.Waiting? && s.queue != []
    case LingerReceive => s.phase.Lingering? && s.queue != []
    case LingerEnd => s.phase.Lingering?
    case SweepReceive => s.phase.Sweeping? && s.queue != []
    case SweepEnd => s.phase.Sweeping? && s.queue == []
    case SyncBegin => s.phase.Swept?
    case SyncEnd(_, _) => s.phase.Syncing?
    case ReplyOne => s.phase.Replying? && s.batch != []
    case BatchDone => s.phase.Replying? && s.batch == []
    case WriteBack(_) => true
    case Crash => true
  }

  /** Moves the head of the channel into the batch. */
  function Take(s: State): State
    requires s.queue != []
  {
    s.(batch := s.batch + [s.queue[0]], queue := s.queue[1..])
  }

  function Apply(s: State, step: Step): State
    requires Enabled(s, step)
  {
    match step
    case WriteFile(w) => s.(written := s.written + {w})
    case Send(w, kind) =>
      s.(sent := s.sent + [Request(w, kind)], queue := s.queue + [Request(w, kind)])
    case Receive => Take(s).(phase := if s.queue[0].kind.Foreground? then Sweeping else Lingering)
    case LingerReceive => Take(s).(phase := if s.queue[0].kind.Foreground? then Sweeping else Lingering)
    case LingerEnd => s.(phase := Sweeping)
    case SweepReceive => Take(s)
    case SweepEnd => s.(phase := Swept)
    case SyncBegin => s.(phase := Syncing(s.written))
    case SyncEnd(result, extra) =>
      s.(phase := Replying(result),
         durable := s.durable + (if result.Ok? then s.phase.covered else {}) + (extra * s.written),
         flushes := s.flushes + [Flush(s.phase.covered, result, s.batch)])
    case ReplyOne =>
      var r := s.batch[0];
      s.(answers := s.answers + [Answer(r, s.phase.result)], batch := s.batch[1..],
         acked := if s.phase.result.Ok? then s.acked + {r.write} else s.acked)
    case BatchDone => s.(phase := Waiting)
    case WriteBack(some) => s.(durable := s.durable + (some * s.written))
    case Crash => State(s.durable, s.durable, [], [], [], Waiting, [], [], s.acked)
  }

  /** A step that is not enabled does not happen. */
  function Next(s: State, step: Step): State { if Enabled(s, step) then Apply(s, step) else s }

  function Run(s: State, steps: seq<Step>): State
    decreases |steps|
  {
    if steps == [] then s else Run(Next(s, steps[0]), steps[1..])
  }

  // ---------------------------------------------------------------------------------------------
  // What holds in every reachable state

  function Requests(answers: seq<Answer>): (r: seq<Request>)
    ensures |r| == |answers| && forall i | 0 <= i < |r| :: r[i] == answers[i].request
  {
    seq(|answers|, i requires 0 <= i < |answers| => answers[i].request)
  }

  function AnswerAll(batch: seq<Request>, result: Outcome): (r: seq<Answer>)
    ensures |r| == |batch| && forall i | 0 <= i < |r| :: r[i] == Answer(batch[i], result)
  {
    seq(|batch|, i requires 0 <= i < |batch| => Answer(batch[i], result))
  }

  /** What the flushes owe their batches: the syncfs result, once per request, in order. */
  function Owed(flushes: seq<Flush>): seq<Answer> {
    if flushes == [] then []
    else
      var n := |flushes| - 1;
      Owed(flushes[..n]) + AnswerAll(flushes[n].batch, flushes[n].result)
  }

  ghost predicate OncePerWrite(rs: seq<Request>) {
    forall i, j | 0 <= i < j < |rs| :: rs[i].write != rs[j].write
  }

  /** No request is lost, duplicated or overtaken on its way from the channel to its answer. */
  ghost predicate Conserved(s: State) {
    && s.sent == Requests(s.answers) + s.batch + s.queue
    && OncePerWrite(s.sent)
    && (s.phase.Waiting? ==> s.batch == [])
  }

  /** Answers come from flushes, and from nowhere else. */
  ghost predicate AnsweredByFlush(s: State) {
    Owed(s.flushes) == s.answers + (if s.phase.Replying? then AnswerAll(s.batch, s.phase.result) else [])
  }

  ghost predicate FlushSound(f: Flush, durable: set<WriteId>) {
    && (forall r | r in f.batch :: r.write in f.covered)
    && (f.result.Ok? ==> f.covered <= durable)
  }

  ghost predicate LastServes(flushes: seq<Flush>, result: Outcome, batch: seq<Request>) {
    && flushes != []
    && flushes[|flushes| - 1].result == result
    && forall r | r in batch :: r in flushes[|flushes| - 1].batch
  }

  /** Each flush began after its batch's files were in place, and an Ok one made all of them durable. */
  ghost predicate FlushesCover(s: State) {
    && s.durable <= s.written
    && (forall r | r in s.sent :: r.write in s.written)
    && (s.phase.Syncing? ==> s.phase.covered <= s.written && forall r | r in s.batch :: r.write in s.phase.covered)
    && (s.phase.Replying? ==> LastServes(s.flushes, s.phase.result, s.batch))
    && (forall f | f in s.flushes :: FlushSound(f, s.durable))
    && s.acked <= s.durable
  }

  ghost predicate BusLeaves(s: State) {
    s.phase.Lingering? ==> forall r | r in s.batch :: r.kind.Background?
  }

  ghost predicate Invariant(s: State) {
    Conserved(s) && AnsweredByFlush(s) && FlushesCover(s) && BusLeaves(s)
  }

  lemma ConservedStep(s: State, step: Step)
    requires Invariant(s) && Enabled(s, step)
    ensures Conserved(Apply(s, step))
  {
    var t := Apply(s, step);
    match step
    case Receive => TakeConserves(s);
    case LingerReceive => TakeConserves(s);
    case SweepReceive => TakeConserves(s);
    case ReplyOne => ReplyConserves(s);
    case Send(w, kind) => SendConserves(s, w, kind);
    case Crash => assert Requests([]) == [];
    case _ =>
  }

  lemma ReplyConserves(s: State)
    requires Conserved(s) && Enabled(s, ReplyOne)
    ensures Conserved(Apply(s, ReplyOne))
  {
    var t := Apply(s, ReplyOne);
    assert s.batch == [s.batch[0]] + t.batch;
    assert Requests(t.answers) == Requests(s.answers) + [s.batch[0]];
  }

  lemma SendConserves(s: State, w: WriteId, kind: Priority)
    requires Conserved(s) && FlushesCover(s) && Enabled(s, Send(w, kind))
    ensures Conserved(Apply(s, Send(w, kind)))
  {
    forall i | 0 <= i < |s.sent| ensures s.sent[i].write != w { assert s.sent[i] in s.sent; }
  }

  lemma TakeConserves(s: State)
    requires Conserved(s) && s.queue != []
    ensures s.sent == Requests(s.answers) + Take(s).batch + Take(s).queue
  {
    assert s.queue == [s.queue[0]] + s.queue[1..];
  }

  lemma OwedSnoc(flushes: seq<Flush>, f: Flush)
    ensures Owed(flushes + [f]) == Owed(flushes) + AnswerAll(f.batch, f.result)
  {
    assert (flushes + [f])[..|flushes|] == flushes;
  }

  lemma AnswerFirst(batch: seq<Request>, result: Outcome)
    requires batch != []
    ensures AnswerAll(batch, result) == [Answer(batch[0], result)] + AnswerAll(batch[1..], result)
  {
  }

  lemma AnsweredStep(s: State, step: Step)
    requires AnsweredByFlush(s) && Enabled(s, step)
    ensures AnsweredByFlush(Apply(s, step))
  {
    hide Owed;
    match step
    case SyncEnd(result, _) =>
      OwedSnoc(s.flushes, Flush(s.phase.covered, result, s.batch));
      assert s.answers + [] == s.answers;
    case ReplyOne =>
      AnswerFirst(s.batch, s.phase.result);
    case BatchDone =>
      assert AnswerAll([], s.phase.result) == [];
    case Crash =>
      assert Owed([]) == [] by { EmptyOwed(); }
    case _ =>
  }

  lemma EmptyOwed()
    ensures Owed([]) == []
  {
  }

  lemma CoverStep(s: State, step: Step)
    requires Invariant(s) && Enabled(s, step)
    ensures FlushesCover(Apply(s, step))
  {
    match step
    case SyncBegin =>
      forall r | r in s.batch ensures r.write in s.written { assert r in s.sent; }
    case SyncEnd(result, extra) => SyncEndCovers(s, result, extra);
    case ReplyOne =>
      var f := s.flushes[|s.flushes| - 1];
      assert s.batch[0] in s.batch && f in s.flushes;
      assert forall r | r in s.batch[1..] :: r in s.batch;
    case _ =>
  }

  lemma SyncEndCovers(s: State, result: Outcome, extra: set<WriteId>)
    requires Invariant(s) && s.phase.Syncing?
    ensures FlushesCover(Apply(s, SyncEnd(result, extra)))
  {
    var t := Apply(s, SyncEnd(result, extra));
    forall f | f in t.flushes ensures FlushSound(f, t.durable) {
      if f in s.flushes { assert FlushSound(f, s.durable); }
    }
  }

  lemma StepKeepsInvariant(s: State, step: Step)
    requires Invariant(s)
    ensures Invariant(Next(s, step))
  {
    if Enabled(s, step) {
      ConservedStep(s, step);
      AnsweredStep(s, step);
      CoverStep(s, step);
    }
  }

  lemma {:induction false} RunKeepsInvariant(s: State, steps: seq<Step>)
    requires Invariant(s)
    ensures Invariant(Run(s, steps))
    decreases |steps|
  {
    if steps != [] {
      StepKeepsInvariant(s, steps[0]);
      RunKeepsInvariant(Next(s, steps[0]), steps[1..]);
    }
  }

  // ---------------------------------------------------------------------------------------------
  // Consequences for whole runs

  lemma InitialInvariant()
    ensures Invariant(Initial())
  {
  }

  lemma {:induction false} AckedGrows(s: State, steps: seq<Step>)
    ensures s.acked <= Run(s, steps).acked
    decreases |steps|
  {
    if steps != [] {
      AckedGrows(Next(s, steps[0]), steps[1..]);
    }
  }

  lemma {:induction false} RunAppend(s: State, a: seq<Step>, b: seq<Step>)
    ensures Run(s, a + b) == Run(Run(s, a), b)
    decreases |a|
  {
    if a == [] {
      assert a + b == b;
    } else {
      assert (a + b)[1..] == a[1..] + b;
      RunAppend(Next(s, a[0]), a[1..], b);
    }
  }

  /** A write reported durable is still on disk after any later crash and whatever else follows. */
  lemma AcknowledgedWritesSurvive(before: seq<Step>, after: seq<Step>)
    ensures Run(Initial(), before).acked <= Run(Initial(), before + [Crash] + after).durable
    ensures Run(Initial(), before).acked <= Run(Initial(), before + [Crash] + after).written
  {
    var s := Run(Initial(), before);
    assert before + [Crash] + after == before + ([Crash] + after);
    RunAppend(Initial(), before, [Crash] + after);
    AckedGrows(s, [Crash] + after);
    InitialInvariant();
    RunKeepsInvariant(Initial(), before + [Crash] + after);
  }

  lemma {:induction false} OwedFrom(flushes: seq<Flush>, i: nat) returns (k: nat)
    requires i < |Owed(flushes)|
    ensures k < |flushes| && Owed(flushes)[i].request in flushes[k].batch
    ensures Owed(flushes)[i].result == flushes[k].result
  {
    var n := |flushes| - 1;
    if i < |Owed(flushes[..n])| {
      k := OwedFrom(flushes[..n], i);
    } else {
      k := n;
      var j := i - |Owed(flushes[..n])|;
      assert Owed(flushes)[i] == AnswerAll(flushes[n].batch, flushes[n].result)[j];
    }
  }

  /** An Ok answer was earned by a syncfs that began once the file was in place, and the file is durable. */
  lemma OkAnswerWasCovered(steps: seq<Step>, i: nat)
    requires i < |Run(Initial(), steps).answers| && Run(Initial(), steps).answers[i].result.Ok?
    ensures var s := Run(Initial(), steps); var r := s.answers[i].request;
      exists f :: f in s.flushes && f.result.Ok? && r in f.batch && r.write in f.covered && r.write in s.durable
  {
    InitialInvariant();
    RunKeepsInvariant(Initial(), steps);
    var s := Run(Initial(), steps);
    assert Owed(s.flushes)[i] == s.answers[i];
    var k := OwedFrom(s.flushes, i);
    assert FlushSound(s.flushes[k], s.durable);
  }

  /** Answers follow channel order, one per request, and no request rides in two batches. */
  lemma AnsweredOnceInOrder(steps: seq<Step>)
    ensures var s := Run(Initial(), steps);
      && Requests(s.answers) <= s.sent && OncePerWrite(s.sent)
      && Requests(Owed(s.flushes)) <= s.sent
  {
    InitialInvariant();
    RunKeepsInvariant(Initial(), steps);
    var s := Run(Initial(), steps);
    if s.phase.Replying? {
      assert Requests(Owed(s.flushes)) == Requests(s.answers) + s.batch;
    } else {
      assert Owed(s.flushes) == s.answers;
    }
  }

  /** The sweep ends only with every request sent so far aboard or already answered. */
  lemma SweepLeavesNoneBehind(steps: seq<Step>)
    requires Enabled(Run(Initial(), steps), SweepEnd)
    ensures var s := Run(Initial(), steps); s.sent == Requests(s.answers) + s.batch
  {
    InitialInvariant();
    RunKeepsInvariant(Initial(), steps);
    var s := Run(Initial(), steps);
    assert Requests(s.answers) + s.batch + [] == Requests(s.answers) + s.batch;
  }

  /** The worker never lingers on a foreground request. */
  lemma ForegroundEndsLinger(steps: seq<Step>)
    requires Run(Initial(), steps).phase.Lingering?
    ensures forall r | r in Run(Initial(), steps).batch :: r.kind.Background?
  {
    InitialInvariant();
    RunKeepsInvariant(Initial(), steps);
  }

  // ---------------------------------------------------------------------------------------------
  // What the outcome of a syncfs means for those it serves, from the steps alone

  function Writes(batch: seq<Request>): set<WriteId> { set r | r in batch :: r.write }

  function Replies(n: nat): seq<Step> { seq(n, _ => ReplyOne) }

  lemma {:induction false} RepliesDeliver(s: State)
    requires s.phase.Replying?
    ensures var t := Run(s, Replies(|s.batch|));
      && t.answers == s.answers + AnswerAll(s.batch, s.phase.result) && t.batch == []
      && t.acked == s.acked + (if s.phase.result.Ok? then Writes(s.batch) else {})
    decreases |s.batch|
  {
    if s.batch == [] {
      assert AnswerAll(s.batch, s.phase.result) == [];
    } else {
      var r, t := s.batch[0], Next(s, ReplyOne);
      assert Replies(|s.batch|)[1..] == Replies(|t.batch|);
      RepliesDeliver(t);
      assert s.batch == [r] + t.batch && Writes(s.batch) == {r.write} + Writes(t.batch);
      AnswerFirst(s.batch, s.phase.result);
      Regroup(s.answers, [Answer(r, s.phase.result)], AnswerAll(t.batch, s.phase.result));
    }
  }

  /** A finished syncfs and one reply per request tell the whole batch what it returned; Ok acknowledges each write. */
  lemma OutcomeReachesBatch(s: State, result: Outcome, extra: set<WriteId>)
    requires s.phase.Syncing?
    ensures var t := Run(s, [SyncEnd(result, extra)] + Replies(|s.batch|));
      && t.answers == s.answers + AnswerAll(s.batch, result) && t.batch == []
      && t.acked == s.acked + (if result.Ok? then Writes(s.batch) else {})
  {
    var end := SyncEnd(result, extra);
    RunAppend(s, [end], Replies(|s.batch|));
    assert Run(s, [end]) == Next(s, end);
    RepliesDeliver(Next(s, end));
  }

  /** The answers promised are all out, or the replies still to come are the missing ones. */
  ghost predicate Serves(s: State, promised: seq<Answer>) {
    promised <= s.answers || (s.phase.Replying? && promised == s.answers + AnswerAll(s.batch, s.phase.result))
  }

  lemma ServesStep(s: State, step: Step, promised: seq<Answer>)
    requires Serves(s, promised) && !step.Crash?
    ensures Serves(Next(s, step), promised)
  {
    if step.ReplyOne? && Enabled(s, step) {
      AnswerFirst(s.batch, s.phase.result);
      Regroup(s.answers, [Answer(s.batch[0], s.phase.result)], AnswerAll(s.batch[1..], s.phase.result));
    } else if step.BatchDone? && Enabled(s, step) {
      assert s.answers + AnswerAll([], s.phase.result) == s.answers;
    }
  }

  lemma {:induction false} ServesRun(s: State, steps: seq<Step>, promised: seq<Answer>)
    requires Serves(s, promised) && Crash !in steps
    ensures Serves(Run(s, steps), promised)
    decreases |steps|
  {
    if steps != [] {
      ServesStep(s, steps[0], promised);
      ServesRun(Next(s, steps[0]), steps[1..], promised);
    }
  }

  /**
   * In every run without a crash: whoever is aboard when a syncfs ends is answered with what it returned, in boarding
   * order and before anyone else, and at the latest when the worker waits again.
   */
  lemma AboardIsAnswered(s: State, result: Outcome, extra: set<WriteId>, steps: seq<Step>, i: nat)
    requires s.phase.Syncing? && Crash !in steps && i < |s.batch|
    ensures var t := Run(Next(s, SyncEnd(result, extra)), steps);
      && (|s.answers| + i < |t.answers| ==> t.answers[|s.answers| + i] == Answer(s.batch[i], result))
      && (!t.phase.Replying? ==> |s.answers| + i < |t.answers|)
  {
    var promised := s.answers + AnswerAll(s.batch, result);
    ServesRun(Next(s, SyncEnd(result, extra)), steps, promised);
    assert promised[|s.answers| + i] == Answer(s.batch[i], result);
  }

  lemma {:induction false} SyncStillCovers(s: State, steps: seq<Step>, covered: set<WriteId>)
    requires s.phase == Syncing(covered) && Crash !in steps && forall step | step in steps :: !step.SyncEnd?
    ensures Run(s, steps).phase == Syncing(covered)
    decreases |steps|
  {
    if steps != [] { SyncStillCovers(Next(s, steps[0]), steps[1..], covered); }
  }

  /** An Ok syncfs puts every file on disk that was in place when it began, and a failed one promises nothing. */
  lemma OkSyncCoversAll(s: State, between: seq<Step>, extra: set<WriteId>)
    requires s.phase.Swept? && Crash !in between && forall step | step in between :: !step.SyncEnd?
    ensures s.written <= Run(s, [SyncBegin] + between + [SyncEnd(Ok, extra)]).durable
    ensures var t := Run(s, [SyncBegin] + between); Next(t, SyncEnd(Err, {})).durable == t.durable
  {
    var t := Run(s, [SyncBegin] + between);
    RunAppend(s, [SyncBegin], between);
    assert Run(s, [SyncBegin]) == Next(s, SyncBegin);
    SyncStillCovers(Next(s, SyncBegin), between, s.written);
    RunAppend(s, [SyncBegin] + between, [SyncEnd(Ok, extra)]);
    assert Run(t, [SyncEnd(Ok, extra)]) == Next(t, SyncEnd(Ok, extra));
  }

  /** A crash keeps exactly what was on disk, the written-back files among it, and nobody who was waiting. */
  lemma CrashKeepsDisk(s: State, w: WriteId)
    ensures var t := Next(s, Crash); t.written == t.durable == s.durable && t.sent == t.queue == t.batch == []
    ensures w in Run(s, [WriteFile(w), WriteBack({w}), Crash]).written
  {
    var a, b := Next(s, WriteFile(w)), Next(Next(s, WriteFile(w)), WriteBack({w}));
    assert Run(s, [WriteFile(w), WriteBack({w}), Crash]) == Run(a, [WriteBack({w}), Crash]) == Run(b, [Crash]);
    assert w in a.written && w in b.durable;
  }

  /** The worker lingers exactly from taking a background request until a foreground one comes or time is up. */
  lemma LingersIff(s: State, step: Step)
    requires Enabled(s, step) && !step.Crash?
    ensures Next(s, step).phase.Lingering? <==>
              || ((step.Receive? || step.LingerReceive?) && s.queue[0].kind.Background?)
              || (s.phase.Lingering? && !step.LingerEnd? && !step.LingerReceive?)
  {
  }

  // ---------------------------------------------------------------------------------------------
  // Progress

  predicate WorkerStep(step: Step) {
    step.Receive? || step.LingerReceive? || step.LingerEnd? || step.SweepReceive? || step.SweepEnd?
    || step.SyncBegin? || step.SyncEnd? || step.ReplyOne? || step.BatchDone?
  }

  function PhaseRank(p: Phase): nat {
    match p
    case Waiting => 0
    case Lingering => 6
    case Sweeping => 5
    case Swept => 4
    case Syncing(_) => 3
    case Replying(_) => 2
  }

  /** How much the worker still has to do for the requests in hand. */
  function Work(s: State): nat { 9 * |s.queue| + 2 * |s.batch| + PhaseRank(s.phase) }

  /** A run of worker steps only, each enabled when it is taken. */
  predicate RunWorker(s: State, steps: seq<Step>)
    decreases |steps|
  {
    steps == [] || (WorkerStep(steps[0]) && Enabled(s, steps[0]) && RunWorker(Apply(s, steps[0]), steps[1..]))
  }

  /** Left to itself the worker stops after boundedly many steps, and only when all requests are answered. */
  lemma {:induction false} WorkerDrains(s: State, steps: seq<Step>)
    requires Invariant(s) && RunWorker(s, steps)
    ensures |steps| <= Work(s)
    ensures Run(s, steps).sent == s.sent
    ensures (forall step | WorkerStep(step) :: !Enabled(Run(s, steps), step)) ==>
              Requests(Run(s, steps).answers) == s.sent
    decreases |steps|
  {
    hide Apply, Enabled, Work, Conserved, AnsweredByFlush, FlushesCover, BusLeaves;
    if steps == [] {
      AtRest(s);
    } else {
      StepKeepsInvariant(s, steps[0]);
      WorkerLowersWork(s, steps[0]);
      WorkerDrains(Apply(s, steps[0]), steps[1..]);
    }
  }

  /** Whoever sends a request for a file in place has its answer once the worker comes to rest. */
  lemma SenderIsAnswered(s: State, w: WriteId, kind: Priority, steps: seq<Step>)
    requires Invariant(s) && Enabled(s, Send(w, kind)) && RunWorker(Next(s, Send(w, kind)), steps)
    requires forall step | WorkerStep(step) :: !Enabled(Run(Next(s, Send(w, kind)), steps), step)
    ensures exists result :: Answer(Request(w, kind), result) in Run(Next(s, Send(w, kind)), steps).answers
  {
    var t := Next(s, Send(w, kind));
    StepKeepsInvariant(s, Send(w, kind));
    assert t.sent[|t.sent| - 1] == Request(w, kind);
    hide Enabled, Invariant, Next, RunWorker;
    WorkerDrains(t, steps);
    var a := Run(t, steps).answers[|t.sent| - 1];
    assert a == Answer(Request(w, kind), a.result);
  }

  lemma WorkerLowersWork(s: State, step: Step)
    requires WorkerStep(step) && Enabled(s, step)
    ensures Work(Apply(s, step)) < Work(s) && Apply(s, step).sent == s.sent
  {
  }

  lemma AtRest(s: State)
    requires Invariant(s)
    ensures (forall step | WorkerStep(step) :: !Enabled(s, step)) ==> Requests(s.answers) == s.sent
  {
    if s.phase.Waiting? && s.queue == [] {
      assert Requests(s.answers) + [] + [] == Requests(s.answers);
    } else {
      var step := WorkerCanMove(s);
    }
  }

  lemma WorkerCanMove(s: State) returns (step: Step)
    requires !(s.phase.Waiting? && s.queue == [])
    ensures WorkerStep(step) && Enabled(s, step)
  {
    match s.phase
    case Waiting => step := Receive;
    case Lingering => step := LingerEnd;
    case Sweeping => step := if s.queue == [] then SweepEnd else SweepReceive;
    case Swept => step := SyncBegin;
    case Syncing(_) => step := SyncEnd(Ok, {});
    case Replying(_) => step := if s.batch == [] then BatchDone else ReplyOne;
  }
}
