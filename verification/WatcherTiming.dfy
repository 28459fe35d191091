/** When batches are sent, and the inputs for which the worker does less than
    its documentation says. */
module WatcherTiming {
  import opened Wrappers
  import opened Bytes
  import opened PathSets
  import opened WatcherModel
  import opened WatcherRuns

  /** Bounded staleness: whatever mix of events, overflow polls and sink failures
      led here, a dirty batch has a due time at most one flush window ahead, is
      due exactly from then on, and the worker's deadline waits exactly for it. */
  lemma DirtyBatchesComeDue(actions: seq<Action>, id: ProjectId, later: Time)
    requires Runnable(START, actions)
    requires var p := At(Run(START, actions), id).project; p.batch.Some? && p.batch.value.dirty
    requires later >= Run(START, actions).clock
    ensures var b := At(Run(START, actions), id).project.batch.value;
            (b.retryAfter.Some? || (b.firstSeen.Some? && b.lastSeen.Some?))
            && DueTime(b) <= Run(START, actions).clock + MAX_FLUSH_WINDOW
            && (BatchDue(b, later) <==> later >= DueTime(b))
            && Remaining(b, later) == Until(DueTime(b), later)
  {
    RunKeeps(START, actions);
    var w := Run(START, actions);
    assert Good(w.queue, id, At(w, id), w.clock);
  }

  // ----- A dirty batch has a signal to send, unless an event listed no path

  /** Events that name nothing: no path and no rescan. */
  predicate Empty(event: NativeEvent) {
    event == Changed([], false)
  }

  lemma InsertedNonempty(paths: seq<Path>, candidate: Path)
    ensures Inserted(paths, candidate) != []
  {
    var kept := Uncovered(paths, candidate);
    if exists p | p in kept :: Covers(p, candidate) {
      assert kept != [];
    }
  }

  /** A record leaves its batch with something to send exactly if the record
      lists a path or the batch had something before. */
  lemma {:induction false} SignalIffPaths(b: Batch, root: NativePath, paths: seq<NativePath>,
                                          escaping: set<NativePath>, now: Time)
    ensures FlushSignal(IngestPaths(b, root, paths, escaping, now)).Some?
       <==> paths != [] || FlushSignal(b).Some?
  {
    if paths != [] {
      AbsorbSignals(b, root, paths, escaping, now);
    }
  }

  lemma {:induction false} AbsorbSignals(b: Batch, root: NativePath, paths: seq<NativePath>,
                                         escaping: set<NativePath>, now: Time)
    requires paths != [] || FlushSignal(b).Some?
    ensures FlushSignal(Absorb(b, root, paths, escaping, now).0).Some?
    decreases |paths|
  {
    if paths != [] {
      match Classify(root, paths[0], paths[0] !in escaping)
      case Ordinary(relative) =>
        var grown := b.(paths := Inserted(b.paths, relative));
        InsertedNonempty(b.paths, relative);
        if |grown.paths| <= MAX_PATHS_PER_BATCH {
          AbsorbSignals(grown, root, paths[1..], escaping, now);
        }
      case GitOnly =>
        AbsorbSignals(b.(hasGit := true), root, paths[1..], escaping, now);
      case Full =>
    }
  }

  predicate Sendable(p: Project) {
    p.batch.Some? && p.batch.value.dirty ==> FlushSignal(p.batch.value).Some?
  }

  predicate NoEmptyRecord(queue: seq<Command>) {
    forall command | command in queue ::
      command.Event? && command.record.signal.Paths? ==> command.record.signal.paths != []
  }

  ghost predicate AllSendable(w: World) {
    NoEmptyRecord(w.queue) && forall id :: Sendable(At(w, id).project)
  }

  lemma IngestSendable(p: Project, record: Record, escaping: set<NativePath>, now: Time)
    requires Sendable(p) && (record.signal.Paths? ==> record.signal.paths != [])
    ensures Sendable(Ingest(p, record, escaping, now))
  {
    if record.signal.Paths? && p.registration.Some? {
      SignalIffPaths(p.batch.GetOr(EMPTY_BATCH), p.registration.value.root,
                     record.signal.paths, escaping, now);
    }
    hide Absorb, BackoffDelay;
  }

  lemma TurnSendable(p: Project, outcome: Outcome, now: Time)
    requires Sendable(p)
    ensures Sendable(Turn(p, outcome, now))
  {
    hide BackoffDelay, BatchDue;
  }

  lemma TrackedSendable(w: World, a: Action, id: ProjectId)
    requires Enabled(w, a) && NoEmptyRecord(w.queue) && Sendable(At(w, id).project)
    ensures Sendable(NextTracked(w, a, id).project)
  {
    var p := At(w, id).project;
    match a {
      case SendRegister(_, _) =>
      case SendUnregister(_) =>
      case Report(_, _, _) =>
      case Receive(escaping, _) =>
        if w.queue[0].Event? {
          assert w.queue[0] in w.queue;
          IngestSendable(p, w.queue[0].record, escaping, w.clock);
          hide Ingest;
        }
      case LoopTurn(outcome) =>
        TurnSendable(p, outcome(id), w.clock);
        hide Turn;
      case Tick(_) =>
    }
  }

  lemma {:induction false} StepSendable(w: World, a: Action)
    requires AllSendable(w) && Enabled(w, a)
    requires a.Report? ==> !Empty(a.event)
    ensures AllSendable(Next(w, a))
  {
    forall id
      ensures Sendable(At(Next(w, a), id).project)
    {
      AtNext(w, a, id);
      assert Sendable(At(w, id).project);
      TrackedSendable(w, a, id);
      hide NextTracked;
    }
    if a.Receive? {
      assert forall command | command in w.queue[1..] :: command in w.queue;
    }
  }

  /** In a run without empty events every dirty batch can be sent. */
  lemma {:induction false} DirtyBatchesCanBeSent(w: World, actions: seq<Action>)
    requires AllSendable(w) && Runnable(w, actions)
    requires forall a | a in actions :: a.Report? ==> !Empty(a.event)
    ensures AllSendable(Run(w, actions))
    decreases |actions|
  {
    if actions != [] {
      assert actions[0] in actions;
      StepSendable(w, actions[0]);
      assert forall a | a in actions[1..] :: a in actions;
      DirtyBatchesCanBeSent(Next(w, actions[0]), actions[1..]);
    }
  }

  /** Four steps from the start: a project is registered, its watch installed, one
      event without paths reported and received. */
  function EmptyEventRun(id: ProjectId, root: NativePath): seq<Action> {
    [SendRegister(id, root), Receive({}, true), Report(id, 1, Changed([], false)), Receive({}, true)]
  }

  function EmptyEventProject(root: NativePath): Project {
    var b := EMPTY_BATCH.(dirty := true, firstSeen := Some(0), lastSeen := Some(0));
    ABSENT.(registration := Some(Registration(root, 1)), generation := 1, batch := Some(b))
  }

  /** A world as far as it concerns one project. */
  predicate Looks(w: World, id: ProjectId, queue: seq<Command>, t: Tracked) {
    w.queue == queue && w.clock == 0 && At(w, id) == t
  }

  lemma RegisterLooks(id: ProjectId, root: NativePath)
    ensures Enabled(START, SendRegister(id, root))
    ensures Looks(Next(START, SendRegister(id, root)), id, [Register(id, root)], UNKNOWN.(sent := true))
  {
    AtNext(START, SendRegister(id, root), id);
  }

  function Watched(root: NativePath): Tracked {
    Tracked(ABSENT.(registration := Some(Registration(root, 1)), generation := 1), root, 1, {}, true)
  }

  lemma InstallLooks(w: World, id: ProjectId, root: NativePath)
    requires Looks(w, id, [Register(id, root)], UNKNOWN.(sent := true))
    ensures Enabled(w, Receive({}, true)) && Looks(Next(w, Receive({}, true)), id, [], Watched(root))
  {
    AtNext(w, Receive({}, true), id);
    hide At;
    var none: set<nat> := {};
    assert none - {1} == none;
  }

  lemma ReportLooks(w: World, id: ProjectId, root: NativePath)
    requires Looks(w, id, [], Watched(root))
    ensures var report := Report(id, 1, Changed([], false));
            Enabled(w, report)
            && Looks(Next(w, report), id, [Event(CallbackRecord(id, 1, Changed([], false)))], Watched(root))
  {
    AtNext(w, Report(id, 1, Changed([], false)), id);
    hide At;
  }

  lemma ReceiveLooks(w: World, id: ProjectId, root: NativePath)
    requires Looks(w, id, [Event(CallbackRecord(id, 1, Changed([], false)))], Watched(root))
    ensures Enabled(w, Receive({}, true))
    ensures Looks(Next(w, Receive({}, true)), id, [], Watched(root).(project := EmptyEventProject(root)))
  {
    AtNext(w, Receive({}, true), id);
    hide At;
  }

  lemma EmptyEventRunEnds(id: ProjectId, root: NativePath)
    ensures Runnable(START, EmptyEventRun(id, root))
    ensures At(Run(START, EmptyEventRun(id, root)), id).project == EmptyEventProject(root)
  {
    var register, receive, report := SendRegister(id, root), Receive({}, true), Report(id, 1, Changed([], false));
    RegisterLooks(id, root);
    var sent := Next(START, register);
    InstallLooks(sent, id, root);
    var watching := Next(sent, receive);
    ReportLooks(watching, id, root);
    var reported := Next(watching, report);
    ReceiveLooks(reported, id, root);
    hide Enabled, Next, Run, Runnable, EmptyEventProject, CallbackRecord, At;
    RunFour(START, register, receive, report, receive);
  }

  /** They leave a dirty batch with nothing to send; no turn ever clears it, and
      once quiet it is due at every turn: the worker stops waiting. */
  lemma EmptyEventNeverClears(id: ProjectId, root: NativePath, later: Time, outcome: Outcome)
    requires later >= QUIET_WINDOW
    ensures Runnable(START, EmptyEventRun(id, root))
    ensures var p := At(Run(START, EmptyEventRun(id, root)), id).project;
            p.batch.Some? && p.batch.value.dirty && FlushSignal(p.batch.value).None?
            && BatchDue(p.batch.value, later) && Remaining(p.batch.value, later) == 0
            && Turn(p, outcome, later) == p
  {
    EmptyEventRunEnds(id, root);
    hide Run, Runnable, EmptyEventRun;
  }

  // ----- The retry delay after a failed flush

  /** What any touch does to the times of a batch: an ingested record, a merge of
      everything, or a poll of a raised flag. */
  predicate Touched(before: Batch, after: Batch, at: Time) {
    && after.dirty && after.retryAfter.None? && after.lastSeen == Some(at)
    && after.firstSeen == Some(before.firstSeen.GetOr(at))
  }

  lemma {:induction false} AbsorbTouches(b: Batch, root: NativePath, paths: seq<NativePath>,
                                         escaping: set<NativePath>, now: Time)
    ensures var (absorbed, mergedFull) := Absorb(b, root, paths, escaping, now);
            if mergedFull then Touched(b, absorbed, now)
            else absorbed.firstSeen == b.firstSeen && absorbed.lastSeen == b.lastSeen
    decreases |paths|
  {
    if paths != [] {
      hide Classify;
      match Classify(root, paths[0], paths[0] !in escaping)
      case Ordinary(relative) =>
        AbsorbTouches(b.(paths := Inserted(b.paths, relative)), root, paths[1..], escaping, now);
      case GitOnly => AbsorbTouches(b.(hasGit := true), root, paths[1..], escaping, now);
      case Full =>
    }
  }

  /** Every way a worker touches a batch. */
  lemma AllTouch(b: Batch, root: NativePath, paths: seq<NativePath>, escaping: set<NativePath>, now: Time)
    ensures Touched(b, MergeFull(b, now), now)
    ensures Touched(b, IngestPaths(b, root, paths, escaping, now), now)
  {
    AbsorbTouches(b, root, paths, escaping, now);
    hide Absorb;
  }

  /** A batch whose flush failed, up to the next boundary: without a touch it is
      not due before; once touched, exactly when it has been quiet since, or
      pending for its whole window. */
  lemma RetryComesDue(p: Project, now: Time, touched: Time, after: Batch, later: Time)
    requires FlushIsDue(p, now) && FlushSignal(p.batch.value).Some?
    requires now <= touched <= later && Touched(Flush(p, false, now).batch.value, after, touched)
    ensures var failed := Flush(p, false, now).batch.value;
            && (BatchDue(failed, later) <==> later >= now + MAX_FLUSH_WINDOW)
            && (BatchDue(after, later) <==>
                  || later >= touched + QUIET_WINDOW
                  || later >= failed.firstSeen.GetOr(touched) + MAX_FLUSH_WINDOW)
  {
  }

  /** The batch is not due before the boundary, though it was touched. */
  ghost predicate KeepsBoundary(after: Batch, touched: Time, boundary: Time) {
    forall later: Time | touched <= later < boundary :: !BatchDue(after, later)
  }

  /** "No faster than the next boundary" holds of a touched batch exactly if the
      touch comes in the last quiet window before it and the batch was pending
      only from the failed flush on, as when a re-install could not be told. */
  lemma BoundaryKeptIff(p: Project, now: Time, touched: Time, after: Batch)
    requires FlushIsDue(p, now) && FlushSignal(p.batch.value).Some?
    requires now < touched < now + MAX_FLUSH_WINDOW && Touched(Flush(p, false, now).batch.value, after, touched)
    ensures KeepsBoundary(after, touched, now + MAX_FLUSH_WINDOW) <==>
              && touched + QUIET_WINDOW >= now + MAX_FLUSH_WINDOW
              && p.batch.value.firstSeen.GetOr(now) >= now
  {
    var boundary := now + MAX_FLUSH_WINDOW;
    var failed := Flush(p, false, now).batch.value;
    forall later: Time | touched <= later
      ensures BatchDue(after, later) <==>
              (later >= touched + QUIET_WINDOW || later >= failed.firstSeen.GetOr(touched) + MAX_FLUSH_WINDOW)
    {
      RetryComesDue(p, now, touched, after, later);
    }
    hide BatchDue, Touched;
    if touched + QUIET_WINDOW < boundary {
      assert BatchDue(after, touched + QUIET_WINDOW);
    } else if failed.firstSeen.GetOr(touched) < now {
      var end := failed.firstSeen.value + MAX_FLUSH_WINDOW;
      assert BatchDue(after, if end < touched then touched else end);
    }
  }

  /** A batch first seen at 0 fails to flush at 250; an event at 251 makes it due
      at 501, not at 2250. */
  lemma EarlyRetry(root: NativePath, path: NativePath)
    ensures var b := EMPTY_BATCH.(full := true, dirty := true, firstSeen := Some(0), lastSeen := Some(0));
            var p := ABSENT.(registration := Some(Registration(root, 1)), generation := 1, batch := Some(b));
            var failed := Flush(p, false, 250).batch.value;
            var after := IngestPaths(failed, root, [path], {}, 251);
            FlushIsDue(p, 250) && !BatchDue(failed, 2249) && !BatchDue(after, 500) && BatchDue(after, 501)
  {
    var b := EMPTY_BATCH.(full := true, dirty := true, firstSeen := Some(0), lastSeen := Some(0));
    var p := ABSENT.(registration := Some(Registration(root, 1)), generation := 1, batch := Some(b));
    AllTouch(Flush(p, false, 250).batch.value, root, [path], {}, 251);
    hide IngestPaths;
  }

  // ----- Why an id must be registered only once

  /** Registering a second time drops what the first callback had queued: the
      worker ignores its record and holds nothing that stands for it. */
  lemma SecondRegistrationWouldLose(id: ProjectId, root: NativePath, name: Bytes, now: Time, escaping: set<NativePath>)
    requires SafeName(Normal(name))
    ensures var c := Entry(root + [Normal(name)]);
            var first := RegisterProject(ABSENT, root, true, now);
            var record := CallbackRecord(id, first.generation, Changed([c.path], false));
            var second := RegisterProject(first, root, true, now);
            Accounted([Event(record)], id, Tracked(first, root, 1, {c}, true), c)
            && Ingest(second, record, escaping, now) == second && !Held(second, root, c)
            && !Accounted([Event(record)], id, Tracked(second, root, 2, {c}, true), c)
  {
    var c := Entry(root + [Normal(name)]);
    var record := CallbackRecord(id, 1, Changed([c.path], false));
    assert c.path in record.signal.paths;
    assert Carries([Event(record)][0], id, 1, c);
  }

  // ----- How long a project waits to be watched again

  /** One second, and twice as long with each failure, up to a minute. */
  function Doubling(failures: nat): Time {
    if failures <= 1 then 1000
    else if 2 * Doubling(failures - 1) > 60000 then 60000 else 2 * Doubling(failures - 1)
  }

  lemma {:induction false} BackoffDoubles(failures: nat)
    ensures BackoffDelay(failures) == Doubling(failures)
    ensures failures >= 7 ==> Doubling(failures) == 60000
  {
    if failures > 7 {
      BackoffDoubles(failures - 1);
    } else {
      SmallDelays();
    }
  }

  lemma SmallDelays()
    ensures Doubling(1) == 1000 && Doubling(2) == 2000 && Doubling(3) == 4000 && Doubling(4) == 8000
    ensures Doubling(5) == 16000 && Doubling(6) == 32000 && Doubling(7) == 60000
    ensures Pow2(1) == 2 && Pow2(2) == 4 && Pow2(3) == 8 && Pow2(4) == 16 && Pow2(5) == 32
  {
  }

  /** Each failure to watch, a failed start, a backend error or a failed retry, is
      counted on until one succeeds, and the next retry waits as long as that. */
  lemma FailuresWaitLonger(p: Project, root: NativePath, now: Time, outcome: Outcome)
    ensures var failures := 1 + if p.retry.Some? then p.retry.value.attempt else 0;
            && RecordUnavailable(p, root, now).retry == Some(Retry(root, failures, Some(now + Doubling(failures))))
            && (RetryIsDue(p, now) && !outcome.installed ==>
                  RetryDue(p, outcome, now).retry ==
                  Some(Retry(p.retry.value.root, failures, Some(now + Doubling(failures)))))
            && (RetryIsDue(p, now) && outcome.installed ==> RetryDue(p, outcome, now).retry == None)
  {
    BackoffDoubles(1 + if p.retry.Some? then p.retry.value.attempt else 0);
    hide BackoffDelay, Doubling;
  }
}
