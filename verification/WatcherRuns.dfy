/** Runs of the watcher: the bounded channel, the callbacks of every generation,
    the worker's loop turns and the clock, interleaved in any way. A loop turn is
    one step: no callback falls between its poll of the overflow flags and the
    flush that lowers them. */
module WatcherRuns {
  import opened Wrappers
  import opened Bytes
  import opened PathSets
  import opened WatcherModel

  /** Something a callback reported: one path, or an unknown set of them. */
  datatype Change = Entry(path: NativePath) | Everything

  /** A project with the history the properties speak of: the last callback
      generation issued, and what callbacks of the current generation reported
      that no accepted event has told the clients yet. */
  datatype Tracked = Tracked(project: Project, root: NativePath, issued: nat, owed: set<Change>, sent: bool)

  const UNKNOWN := Tracked(ABSENT, [], 0, {}, false)

  datatype World = World(queue: seq<Command>, projects: map<ProjectId, Tracked>, clock: Time)

  const START := World([], map[], 0)

  function At(w: World, id: ProjectId): Tracked {
    if id in w.projects then w.projects[id] else UNKNOWN
  }

  datatype Action =
    | SendRegister(id: ProjectId, root: NativePath)
    | SendUnregister(id: ProjectId)
    | Report(id: ProjectId, generation: nat, event: NativeEvent)
    | Receive(escaping: set<NativePath>, installed: bool)
    | LoopTurn(outcome: ProjectId -> Outcome)
    | Tick(elapsed: Time)

  /** Sends wait for room; an id is registered once; callbacks are those issued. */
  predicate Enabled(w: World, a: Action) {
    match a
    case SendRegister(id, _) => |w.queue| < CHANNEL_CAPACITY && !At(w, id).sent
    case SendUnregister(_) => |w.queue| < CHANNEL_CAPACITY
    case Report(id, generation, _) => 1 <= generation <= At(w, id).issued
    case Receive(_, _) => w.queue != []
    case LoopTurn(_) => true
    case Tick(_) => true
  }

  function Changes(event: NativeEvent): set<Change> {
    match event
    case Failed => {Everything}
    case Changed(paths, rescan) => (set p | p in paths :: Entry(p)) + (if rescan then {Everything} else {})
  }

  /** What a client that gets `signal` re-reads. Every event refreshes Git. */
  predicate SignalCovers(signal: Signal, root: NativePath, c: Change) {
    signal.AllChanged? ||
    (c.Entry? &&
     match LexicalClass(root, c.path)
     case Ordinary(relative) => signal.FilesChanged? && exists p | p in signal.paths :: Covers(p, relative)
     case GitOnly => true
     case Full => false)
  }

  predicate BatchCovers(b: Batch, root: NativePath, c: Change) {
    b.full ||
    (c.Entry? &&
     match LexicalClass(root, c.path)
     case Ordinary(relative) => exists p | p in b.paths :: Covers(p, relative)
     case GitOnly => b.hasGit
     case Full => false)
  }

  predicate Delivered(calls: seq<SinkCall>, root: NativePath, c: Change) {
    exists call | call in calls :: call.accepted && SignalCovers(call.signal, root, c)
  }

  /** Drop from the debt what the calls made since `before` told the clients. */
  function Settle(t: Tracked, p: Project): Tracked {
    var made := if |t.project.calls| <= |p.calls| then p.calls[|t.project.calls|..] else [];
    t.(project := p, owed := set c | c in t.owed && !Delivered(made, t.root, c))
  }

  /** Installing a watch issues the callback of the new generation. */
  function Issue(t: Tracked): Tracked {
    if t.project.removed then t else t.(issued := t.project.generation)
  }

  function NextTracked(w: World, a: Action, id: ProjectId): Tracked
    requires Enabled(w, a)
  {
    var t := At(w, id);
    match a
    case SendRegister(q, _) => if q == id then t.(sent := true) else t
    case SendUnregister(_) => t
    case Report(q, generation, event) =>
      var p := AfterCallback(id, t.project, |w.queue|, q, generation, event);
      t.(project := p,
         owed := if q == id && generation == p.generation then t.owed + Changes(event) else t.owed)
    case Receive(escaping, installed) =>
      var command := w.queue[0];
      var p := HandleOne(command, id, t.project, escaping, installed, w.clock);
      var u := t.(project := p);
      if command.Register? && command.project == id && !p.removed
      then Issue(u.(root := command.root)) else u
    case LoopTurn(outcome) => Issue(Settle(t, Turn(t.project, outcome(id), w.clock)))
    case Tick(_) => t
  }

  function NextQueue(w: World, a: Action): seq<Command>
    requires Enabled(w, a)
  {
    match a
    case SendRegister(id, root) => w.queue + [Register(id, root)]
    case SendUnregister(id) => w.queue + [Unregister(id)]
    case Report(id, generation, event) =>
      if |w.queue| < CHANNEL_CAPACITY then w.queue + [Event(CallbackRecord(id, generation, event))]
      else w.queue
    case Receive(_, _) => w.queue[1..]
    case LoopTurn(_) => w.queue
    case Tick(_) => w.queue
  }

  function Named(w: World, a: Action): set<ProjectId>
    requires Enabled(w, a)
  {
    match a
    case SendRegister(id, _) => {id}
    case SendUnregister(id) => {id}
    case Report(id, _, _) => {id}
    case Receive(_, _) => {CommandProject(w.queue[0])}
    case LoopTurn(_) => {}
    case Tick(_) => {}
  }

  function CommandProject(command: Command): ProjectId {
    match command
    case Register(id, _) => id
    case Unregister(id) => id
    case Event(record) => record.project
  }

  function Next(w: World, a: Action): World
    requires Enabled(w, a)
  {
    World(NextQueue(w, a),
          map id | id in w.projects.Keys + Named(w, a) :: NextTracked(w, a, id),
          w.clock + if a.Tick? then a.elapsed else 0)
  }

  lemma AtNext(w: World, a: Action, id: ProjectId)
    requires Enabled(w, a)
    ensures At(Next(w, a), id) == NextTracked(w, a, id)
  {
  }

  predicate Runnable(w: World, actions: seq<Action>)
    decreases |actions|
  {
    actions == [] || (Enabled(w, actions[0]) && Runnable(Next(w, actions[0]), actions[1..]))
  }

  function Run(w: World, actions: seq<Action>): World
    requires Runnable(w, actions)
    decreases |actions|
  {
    if actions == [] then w else Run(Next(w, actions[0]), actions[1..])
  }

  // ----- The invariant

  /** The times a batch carries bound when it is due. */
  predicate Timed(b: Batch, clock: Time) {
    && (b.firstSeen.Some? ==> b.firstSeen.value <= clock)
    && (b.lastSeen.Some? ==> b.lastSeen.value <= clock)
    && (b.firstSeen.Some? <==> b.lastSeen.Some?)
    && (b.retryAfter.Some? ==> b.retryAfter.value <= clock + MAX_FLUSH_WINDOW)
    && (b.dirty && b.retryAfter.None? ==> b.firstSeen.Some?)
    && |b.paths| <= MAX_PATHS_PER_BATCH
  }

  /** A project is registered or owed a retry, not both; a removed one is neither
      and has no batch. */
  predicate ProjectShape(p: Project, root: NativePath, clock: Time) {
    && (p.registration.Some? ==>
          p.retry.None? && !p.removed
          && p.registration.value == Registration(root, p.generation))
    && (p.retry.Some? ==>
          !p.removed && p.retry.value.root == root && p.retry.value.nextRetry.Some?
          && p.retry.value.nextRetry.value <= clock + 60_000)
    && (p.removed ==> p.batch.None?)
    && (!p.removed && p.generation > 0 ==> p.registration.Some? || p.retry.Some?)
    && (p.generation == 0 ==> p.registration.None? && p.retry.None?)
    && (p.batch.Some? ==> Timed(p.batch.value, clock))
  }

  /** No issued callback carries the generation of a removed project. */
  predicate Shape(t: Tracked, clock: Time) {
    && ProjectShape(t.project, t.root, clock)
    && (if t.project.removed then t.issued < t.project.generation else t.issued == t.project.generation)
    && (t.issued == 0 ==> t.owed == {})
    && (forall g | g in t.project.raised :: g <= t.issued)
  }

  /** Queued records come from issued callbacks; a queued registration is the first. */
  predicate Queued(queue: seq<Command>, id: ProjectId, t: Tracked) {
    && (forall k | 0 <= k < |queue| :: queue[k].Event? && queue[k].record.project == id ==>
          1 <= queue[k].record.generation <= t.issued)
    && (forall k | 0 <= k < |queue| :: queue[k].Register? && queue[k].project == id ==>
          t.sent && t.issued == 0)
    && (forall j, k | 0 <= j < k < |queue| ::
          queue[j].Register? && queue[k].Register? ==> queue[j].project != id || queue[k].project != id)
    && (!t.sent ==> t.issued == 0)
  }

  predicate Carries(command: Command, id: ProjectId, generation: nat, c: Change) {
    && command.Event?
    && command.record.project == id
    && command.record.generation == generation
    && (command.record.signal.Full? || (c.Entry? && c.path in command.record.signal.paths))
  }

  /** The worker will tell the clients of `c`: it owes the full event of a
      re-install, or it polls a raised flag, or it flushes a dirty batch. */
  predicate Held(p: Project, root: NativePath, c: Change) {
    || p.retry.Some?
    || Flagged(p)
    || (p.batch.Some? && p.batch.value.dirty && BatchCovers(p.batch.value, root, c))
  }

  /** Where a reported change waits to be told. */
  predicate Accounted(queue: seq<Command>, id: ProjectId, t: Tracked, c: Change) {
    || Held(t.project, t.root, c)
    || exists k | 0 <= k < |queue| :: Carries(queue[k], id, t.project.generation, c)
  }

  predicate NothingLost(queue: seq<Command>, id: ProjectId, t: Tracked) {
    !t.project.removed ==> forall c | c in t.owed :: Accounted(queue, id, t, c)
  }

  predicate Good(queue: seq<Command>, id: ProjectId, t: Tracked, clock: Time) {
    Shape(t, clock) && Queued(queue, id, t) && NothingLost(queue, id, t)
  }

  // ----- Coverage

  lemma InsertedKeeps(paths: seq<Path>, candidate: Path, q: Path)
    requires q == candidate || exists p | p in paths :: Covers(p, q)
    ensures exists p | p in Inserted(paths, candidate) :: Covers(p, q)
  {
    var kept, updated := Uncovered(paths, candidate), Inserted(paths, candidate);
    if q == candidate {
      if candidate !in updated {
        var e :| e in kept && Covers(e, candidate);
      }
    } else {
      var p :| p in paths && Covers(p, q);
      if p in kept {
        assert p in updated;
      } else {
        CoversTransitive(candidate, p, q);
        if candidate !in updated {
          var e :| e in kept && Covers(e, candidate);
          CoversTransitive(e, candidate, q);
        }
      }
    }
  }

  /** Absorbing a record keeps what the batch covered and covers what the record carries. */
  lemma {:induction false} AbsorbCovers(b: Batch, root: NativePath, paths: seq<NativePath>,
                                        escaping: set<NativePath>, now: Time, c: Change)
    requires BatchCovers(b, root, c) || (c.Entry? && c.path in paths)
    ensures BatchCovers(Absorb(b, root, paths, escaping, now).0, root, c)
    decreases |paths|
  {
    if paths != [] {
      match Classify(root, paths[0], paths[0] !in escaping)
      case Ordinary(relative) =>
        var grown := b.(paths := Inserted(b.paths, relative));
        if |grown.paths| <= MAX_PATHS_PER_BATCH {
          if c.Entry? && LexicalClass(root, c.path).Ordinary? && !b.full {
            var q := LexicalClass(root, c.path).path;
            if q == relative || BatchCovers(b, root, c) {
              InsertedKeeps(b.paths, relative, q);
            }
          }
          AbsorbCovers(grown, root, paths[1..], escaping, now, c);
        }
      case GitOnly =>
        AbsorbCovers(b.(hasGit := true), root, paths[1..], escaping, now, c);
      case Full =>
    }
  }

  lemma {:induction false} AbsorbTimed(b: Batch, root: NativePath, paths: seq<NativePath>,
                                       escaping: set<NativePath>, now: Time)
    requires Timed(b, now)
    ensures Timed(Absorb(b, root, paths, escaping, now).0, now)
    decreases |paths|
  {
    if paths != [] {
      match Classify(root, paths[0], paths[0] !in escaping)
      case Ordinary(relative) =>
        var grown := b.(paths := Inserted(b.paths, relative));
        if |grown.paths| <= MAX_PATHS_PER_BATCH {
          AbsorbTimed(grown, root, paths[1..], escaping, now);
        }
      case GitOnly =>
        AbsorbTimed(b.(hasGit := true), root, paths[1..], escaping, now);
      case Full =>
    }
  }

  /** A flushed batch's signal tells the clients of all the batch covered. */
  lemma FlushSignalCovers(b: Batch, root: NativePath, c: Change)
    requires BatchCovers(b, root, c)
    ensures FlushSignal(b).Some? && SignalCovers(FlushSignal(b).value, root, c)
  {
    if !b.full && LexicalClass(root, c.path).Ordinary? {
      var p :| p in b.paths && Covers(p, LexicalClass(root, c.path).path);
      assert p in SortedDistinct(b.paths);
    }
  }

  // ----- Every step keeps the invariant

  lemma AppendKeeps(queue: seq<Command>, id: ProjectId, t: Tracked, clock: Time, command: Command)
    requires Good(queue, id, t, clock)
    requires command.Event? && command.record.project == id ==> 1 <= command.record.generation <= t.issued
    requires command.Register? && command.project == id ==>
               t.sent && t.issued == 0
               && forall k | 0 <= k < |queue| :: queue[k].Register? ==> queue[k].project != id
    ensures Good(queue + [command], id, t, clock)
  {
    var grown := queue + [command];
    forall c | c in t.owed && !t.project.removed
      ensures Accounted(grown, id, t, c)
    {
      if !Held(t.project, t.root, c) {
        var k :| 0 <= k < |queue| && Carries(queue[k], id, t.project.generation, c);
        assert Carries(grown[k], id, t.project.generation, c);
      }
    }
  }

  lemma SendKeeps(w: World, a: Action, id: ProjectId)
    requires (a.SendRegister? || a.SendUnregister?) && Enabled(w, a)
    requires Good(w.queue, id, At(w, id), w.clock)
    ensures Good(NextQueue(w, a), id, NextTracked(w, a, id), w.clock)
  {
    var t := NextTracked(w, a, id);
    forall c | c in t.owed && !t.project.removed
      ensures Accounted(w.queue, id, t, c)
    {
      assert Accounted(w.queue, id, At(w, id), c);
    }
    AppendKeeps(w.queue, id, t, w.clock, if a.SendRegister? then Register(a.id, a.root) else Unregister(a.id));
  }

  /** The queue without its head still accounts for what the head did not carry. */
  lemma TailAccounts(queue: seq<Command>, id: ProjectId, t: Tracked, c: Change)
    requires queue != [] && Accounted(queue, id, t, c)
    requires !Carries(queue[0], id, t.project.generation, c)
    ensures Accounted(queue[1..], id, t, c)
  {
    if !Held(t.project, t.root, c) {
      var k :| 0 <= k < |queue| && Carries(queue[k], id, t.project.generation, c);
      assert queue[1..][k - 1] == queue[k];
    }
  }

  lemma TailQueued(queue: seq<Command>, id: ProjectId, t: Tracked)
    requires queue != [] && Queued(queue, id, t)
    ensures Queued(queue[1..], id, t)
  {
    forall k | 0 <= k < |queue[1..]|
      ensures queue[1..][k] == queue[k + 1]
    {
    }
  }

  lemma ReportKeeps(w: World, a: Action, id: ProjectId)
    requires a.Report? && Enabled(w, a)
    requires Good(w.queue, id, At(w, id), w.clock)
    ensures Good(NextQueue(w, a), id, NextTracked(w, a, id), w.clock)
  {
    var t, u := At(w, id), NextTracked(w, a, id);
    var record := CallbackRecord(a.id, a.generation, a.event);
    var queue := NextQueue(w, a);
    forall c | c in u.owed && !u.project.removed
      ensures Accounted(queue, id, u, c)
    {
      if c in t.owed {
        assert Accounted(w.queue, id, t, c);
        if !Held(t.project, t.root, c) {
          var k :| 0 <= k < |w.queue| && Carries(w.queue[k], id, t.project.generation, c);
          assert queue[k] == w.queue[k];
        }
      } else if !(RaisesFlag(a.event) || |w.queue| >= CHANNEL_CAPACITY) {
        assert Carries(queue[|w.queue|], id, u.project.generation, c);
      } else {
        assert a.generation in u.project.raised;
      }
    }
    assert Shape(u, w.clock);
    assert Queued(queue, id, u) by {
      assert forall k | 0 <= k < |w.queue| :: queue[k] == w.queue[k];
    }
  }

  lemma IngestShape(t: Tracked, record: Record, escaping: set<NativePath>, now: Time)
    requires Shape(t, now) && record.generation <= t.issued
    ensures Shape(t.(project := Ingest(t.project, record, escaping, now)), now)
  {
    var p := t.project;
    if record.generation == p.generation && !record.backendError && record.signal.Paths?
       && p.registration.Some? {
      AbsorbTimed(p.batch.GetOr(EMPTY_BATCH), t.root, record.signal.paths, escaping, now);
    }
    PowBound();
    hide BackoffDelay;
  }

  lemma IngestKeeps(queue: seq<Command>, id: ProjectId, t: Tracked, clock: Time,
                    escaping: set<NativePath>)
    requires Good(queue, id, t, clock)
    requires queue != [] && queue[0].Event? && queue[0].record.project == id
    requires 1 <= queue[0].record.generation <= t.issued
    ensures Good(queue[1..], id, t.(project := Ingest(t.project, queue[0].record, escaping, clock)), clock)
  {
    var record, p := queue[0].record, t.project;
    var q := Ingest(p, record, escaping, clock);
    var u := t.(project := q);
    TailQueued(queue, id, t);
    IngestShape(t, record, escaping, clock);
    forall c | c in u.owed && !q.removed
      ensures Accounted(queue[1..], id, u, c)
    {
      assert Accounted(queue, id, t, c);
      if record.generation == p.generation && (Held(p, t.root, c) || Carries(queue[0], id, p.generation, c)) {
        IngestHolds(p, t.root, record, escaping, clock, c);
      }
      if !Held(q, t.root, c) {
        TailAccounts(queue, id, t, c);
      }
    }
  }

  /** Backoff never exceeds a minute. */
  lemma PowBound()
    ensures forall attempt: nat :: BackoffDelay(attempt) <= 60_000
  {
    forall attempt: nat
      ensures BackoffDelay(attempt) <= 60_000
    {
      assert Pow2(0) == 1 && Pow2(1) == 2 && Pow2(2) == 4;
      assert Pow2(3) == 8 && Pow2(4) == 16 && Pow2(5) == 32;
    }
  }

  /** Ingesting a current record moves what it carries into the project and drops nothing. */
  lemma IngestHolds(p: Project, root: NativePath, record: Record, escaping: set<NativePath>, now: Time, c: Change)
    requires record.generation == p.generation
    requires p.registration.Some? ==> p.registration.value.root == root
    requires p.registration.None? ==> p.retry.Some?
    requires Held(p, root, c) || Carries(Event(record), record.project, p.generation, c)
    ensures Held(Ingest(p, record, escaping, now), root, c)
  {
    if !record.backendError && record.signal.Paths? && p.registration.Some? {
      var b := p.batch.GetOr(EMPTY_BATCH);
      if BatchCovers(b, root, c) || (c.Entry? && c.path in record.signal.paths) {
        AbsorbCovers(b, root, record.signal.paths, escaping, now, c);
      }
    }
  }

  lemma ReceiveKeeps(w: World, a: Action, id: ProjectId)
    requires a.Receive? && Enabled(w, a)
    requires Good(w.queue, id, At(w, id), w.clock)
    ensures Good(NextQueue(w, a), id, NextTracked(w, a, id), w.clock)
  {
    var t, u := At(w, id), NextTracked(w, a, id);
    var command := w.queue[0];
    TailQueued(w.queue, id, t);
    PowBound();
    if command.Event? && command.record.project == id {
      IngestKeeps(w.queue, id, t, w.clock, a.escaping);
    } else if command.Register? && command.project == id {
      assert u.owed == {};
      assert forall k | 0 < k < |w.queue| :: w.queue[k].Register? ==> w.queue[k].project != id;
      forall k | 0 <= k < |w.queue[1..]|
        ensures w.queue[1..][k] == w.queue[k + 1]
      {
      }
    } else {
      forall c | c in u.owed && !u.project.removed
        ensures Accounted(w.queue[1..], id, u, c)
      {
        TailAccounts(w.queue, id, t, c);
      }
    }
  }

  /** A due retry tells the clients everything, or still owes it. */
  lemma RetryHolds(p: Project, root: NativePath, outcome: Outcome, now: Time, c: Change)
    requires Held(p, root, c)
    ensures var q := RetryDue(p, outcome, now);
            p.calls <= q.calls
            && (Held(q, root, c) || Delivered(q.calls[|p.calls|..], root, c))
    ensures (forall g | g in p.raised :: g <= p.generation) && (Flagged(p) ==> p.batch.Some? && p.batch.value.full)
            ==> var q := RetryDue(p, outcome, now); Flagged(q) ==> q.batch.Some? && q.batch.value.full
  {
    var q := RetryDue(p, outcome, now);
    if RetryIsDue(p, now) && outcome.installed && outcome.fullAccepted {
      assert q.calls[|p.calls|..] == [SinkCall(AllChanged, true)];
      assert SinkCall(AllChanged, true) in q.calls[|p.calls|..];
    }
  }

  /** A flush tells the clients what its batch covered, or keeps it as full;
      lowering the flag loses nothing because a raised flag made the batch full. */
  lemma FlushHolds(p: Project, root: NativePath, outcome: Outcome, now: Time, c: Change)
    requires Held(p, root, c)
    requires Flagged(p) ==> p.batch.Some? && p.batch.value.full
    ensures var q := FlushDue(p, outcome, now);
            p.calls <= q.calls
            && (Held(q, root, c) || Delivered(q.calls[|p.calls|..], root, c))
  {
    var q := FlushDue(p, outcome, now);
    if FlushIsDue(p, now) && FlushSignal(p.batch.value).Some? {
      var b := p.batch.value;
      var made := SinkCall(FlushSignal(b).value, outcome.flushAccepted);
      assert q.calls[|p.calls|..] == [made] && made in q.calls[|p.calls|..];
      if BatchCovers(b, root, c) {
        FlushSignalCovers(b, root, c);
      }
    }
  }

  lemma DeliveredSuffix(a: seq<SinkCall>, b: seq<SinkCall>, c: seq<SinkCall>, root: NativePath, change: Change)
    requires a <= b <= c
    requires Delivered(b[|a|..], root, change) || Delivered(c[|b|..], root, change)
    ensures Delivered(c[|a|..], root, change)
  {
    assert c[|a|..] == b[|a|..] + c[|b|..];
  }

  /** A turn keeps what it does not deliver. */
  lemma TurnHolds(p: Project, root: NativePath, outcome: Outcome, now: Time, c: Change)
    requires forall g | g in p.raised :: g <= p.generation
    requires Held(p, root, c)
    ensures p.calls <= Turn(p, outcome, now).calls
    ensures Held(Turn(p, outcome, now), root, c)
         || Delivered(Turn(p, outcome, now).calls[|p.calls|..], root, c)
  {
    var polled := PollOverflow(p, now);
    var retried := RetryDue(polled, outcome, now);
    var turned := FlushDue(retried, outcome, now);
    assert Held(polled, root, c);
    RetryHolds(polled, root, outcome, now, c);
    if Held(retried, root, c) {
      FlushHolds(retried, root, outcome, now, c);
      if !Held(turned, root, c) {
        DeliveredSuffix(p.calls, retried.calls, turned.calls, root, c);
      }
    } else {
      assert retried.calls <= turned.calls;
      DeliveredSuffix(p.calls, retried.calls, turned.calls, root, c);
    }
  }

  lemma RetryShape(p: Project, root: NativePath, outcome: Outcome, now: Time)
    requires ProjectShape(p, root, now)
    ensures ProjectShape(RetryDue(p, outcome, now), root, now)
  {
    PowBound();
  }

  lemma FlushShape(p: Project, root: NativePath, outcome: Outcome, now: Time)
    requires ProjectShape(p, root, now)
    ensures ProjectShape(FlushDue(p, outcome, now), root, now)
  {
  }

  lemma PollShape(p: Project, root: NativePath, now: Time)
    requires ProjectShape(p, root, now)
    ensures ProjectShape(PollOverflow(p, now), root, now)
  {
  }

  lemma TurnShape(t: Tracked, outcome: Outcome, now: Time)
    requires Shape(t, now)
    ensures Shape(Issue(Settle(t, Turn(t.project, outcome, now))), now)
  {
    var polled := PollOverflow(t.project, now);
    var retried := RetryDue(polled, outcome, now);
    PollShape(t.project, t.root, now);
    RetryShape(polled, t.root, outcome, now);
    FlushShape(retried, t.root, outcome, now);
    TurnGeneration(t.project, outcome, now);
    hide ProjectShape, PollOverflow, RetryDue, FlushDue;
  }

  lemma TurnKeeps(w: World, a: Action, id: ProjectId)
    requires a.LoopTurn?
    requires Good(w.queue, id, At(w, id), w.clock)
    ensures Good(w.queue, id, NextTracked(w, a, id), w.clock)
  {
    var t, u := At(w, id), NextTracked(w, a, id);
    var p, outcome := t.project, a.outcome(id);
    TurnShape(t, outcome, w.clock);
    TurnGeneration(p, outcome, w.clock);
    forall c | c in u.owed && !u.project.removed
      ensures Accounted(w.queue, id, u, c)
    {
      if Held(p, t.root, c) {
        TurnHolds(p, t.root, outcome, w.clock, c);
      } else {
        assert Accounted(w.queue, id, t, c);
      }
    }
  }

  lemma TurnGeneration(p: Project, outcome: Outcome, now: Time)
    ensures var q := Turn(p, outcome, now);
            q.removed == p.removed && q.generation >= p.generation && q.raised <= p.raised
            && (p.retry.None? ==> q.generation == p.generation)
  {
  }

  lemma TickKeeps(w: World, a: Action, id: ProjectId)
    requires a.Tick?
    requires Good(w.queue, id, At(w, id), w.clock)
    ensures Good(w.queue, id, At(w, id), w.clock + a.elapsed)
  {
  }

  ghost predicate AllGood(w: World) {
    forall id :: Good(w.queue, id, At(w, id), w.clock)
  }

  lemma StepKeeps(w: World, a: Action)
    requires AllGood(w) && Enabled(w, a)
    ensures AllGood(Next(w, a))
  {
    forall id
      ensures Good(Next(w, a).queue, id, At(Next(w, a), id), Next(w, a).clock)
    {
      AtNext(w, a, id);
      match a
      case SendRegister(_, _) => SendKeeps(w, a, id);
      case SendUnregister(_) => SendKeeps(w, a, id);
      case Report(_, _, _) => ReportKeeps(w, a, id);
      case Receive(_, _) => ReceiveKeeps(w, a, id);
      case LoopTurn(_) => TurnKeeps(w, a, id);
      case Tick(_) => TickKeeps(w, a, id);
    }
  }

  lemma {:induction false} RunKeeps(w: World, actions: seq<Action>)
    requires AllGood(w) && Runnable(w, actions)
    ensures AllGood(Run(w, actions))
    decreases |actions|
  {
    if actions != [] {
      StepKeeps(w, actions[0]);
      RunKeeps(Next(w, actions[0]), actions[1..]);
    }
  }

  // ----- What holds of every run

  /** No accepted change is lost: as long as a project is not removed, whatever
      its current callbacks reported and no accepted event told is still queued,
      in a dirty batch, behind a raised flag, or owed by a pending re-install. */
  lemma NoChangeIsLost(actions: seq<Action>, id: ProjectId, c: Change)
    requires Runnable(START, actions)
    requires c in At(Run(START, actions), id).owed && !At(Run(START, actions), id).project.removed
    ensures Accounted(Run(START, actions).queue, id, At(Run(START, actions), id), c)
  {
    RunKeeps(START, actions);
    assert Good(Run(START, actions).queue, id, At(Run(START, actions), id), Run(START, actions).clock);
  }

  /** A step leaves a removed project removed and its sink uncalled: its
      generation was never issued to a callback, so no record passes the fence. */
  lemma RemovedStepIsSilent(w: World, a: Action, id: ProjectId)
    requires Good(w.queue, id, At(w, id), w.clock) && Enabled(w, a)
    requires At(w, id).project.removed
    ensures NextTracked(w, a, id).project.removed
    ensures NextTracked(w, a, id).project.calls == At(w, id).project.calls
  {
    hide Absorb, BackoffDelay, MergeFull;
  }

  /** Unregistering fences for ever: once a project is removed, no run, whatever
      is queued and whatever old callbacks still do, calls the sink for it. */
  lemma {:induction false} RemovedStaysSilent(w: World, actions: seq<Action>, id: ProjectId)
    requires AllGood(w) && Runnable(w, actions) && At(w, id).project.removed
    ensures At(Run(w, actions), id).project.removed
    ensures At(Run(w, actions), id).project.calls == At(w, id).project.calls
    decreases |actions|
  {
    if actions != [] {
      var a := actions[0];
      assert Good(w.queue, id, At(w, id), w.clock);
      RemovedStepIsSilent(w, a, id);
      AtNext(w, a, id);
      StepKeeps(w, a);
      hide Good, NextTracked, Next, At;
      RemovedStaysSilent(Next(w, a), actions[1..], id);
    }
  }

  /** In every reachable world a removed project is neither registered nor
      awaiting a retry and has no batch, and no project is both. */
  lemma RegistrationsAndRetriesAreDisjoint(actions: seq<Action>, id: ProjectId)
    requires Runnable(START, actions)
    ensures var p := At(Run(START, actions), id).project;
            !(p.registration.Some? && p.retry.Some?)
            && (p.removed ==> p.registration.None? && p.retry.None? && p.batch.None?)
  {
    RunKeeps(START, actions);
    assert Good(Run(START, actions).queue, id, At(Run(START, actions), id), Run(START, actions).clock);
  }

  const ALL_WELL := Outcome(true, true, true)

  /** A turn in which everything succeeds leaves no retry that was due, and a
      flag still raised has its full batch waiting since before now. */
  lemma FirstTurnSettles(p: Project, now: Time, root: NativePath, c: Change)
    requires p.retry.Some? ==> RetryIsDue(p, now)
    requires forall g | g in p.raised :: g <= p.generation
    requires p.batch.Some? ==> Timed(p.batch.value, now)
    ensures var q := Turn(p, ALL_WELL, now);
            Delivered(q.calls[|p.calls|..], root, c)
            || (q.retry.None? && (Flagged(q) ==> q.batch.Some? && q.batch.value.full && WaitingSince(q.batch.value, now)))
  {
    var retried := RetryDue(PollOverflow(p, now), ALL_WELL, now);
    if p.retry.Some? {
      var call := SinkCall(AllChanged, true);
      assert retried.calls == p.calls + [call];
      assert Turn(p, ALL_WELL, now).calls[|p.calls|] == call;
      assert call in Turn(p, ALL_WELL, now).calls[|p.calls|..];
    }
  }

  predicate WaitingSince(b: Batch, now: Time) {
    b.dirty && b.retryAfter.None? && b.firstSeen.Some? && b.lastSeen.Some? && b.firstSeen.value <= now
  }

  /** Once the longest window has passed, a turn in which everything succeeds
      tells the clients what the project held. */
  lemma SecondTurnSettles(p: Project, before: Time, root: NativePath, c: Change)
    requires p.retry.None? && Held(p, root, c)
    requires Flagged(p) ==> p.batch.Some? && p.batch.value.full && WaitingSince(p.batch.value, before)
    requires p.batch.Some? ==> Timed(p.batch.value, before)
    ensures Delivered(Turn(p, ALL_WELL, before + MAX_FLUSH_WINDOW).calls[|p.calls|..], root, c)
  {
    var now := before + MAX_FLUSH_WINDOW;
    var polled := PollOverflow(p, now);
    var b := polled.batch.value;
    assert BatchDue(b, now);
    FlushSignalCovers(b, root, c);
    var call := SinkCall(FlushSignal(b).value, true);
    assert Turn(p, ALL_WELL, now).calls == p.calls + [call];
    assert call in Turn(p, ALL_WELL, now).calls[|p.calls|..];
  }

  /** Two turns in which everything succeeds, the second after the longest window,
      tell the clients all that was reported. */
  lemma TwoTurnsSettle(queue: seq<Command>, id: ProjectId, t: Tracked, clock: Time)
    requires Good(queue, id, t, clock) && !t.project.removed
    requires forall k | 0 <= k < |queue| :: !(queue[k].Event? && queue[k].record.project == id)
    requires t.project.retry.Some? ==> RetryIsDue(t.project, clock)
    ensures var u := Issue(Settle(t, Turn(t.project, ALL_WELL, clock)));
            Issue(Settle(u, Turn(u.project, ALL_WELL, clock + MAX_FLUSH_WINDOW))).owed == {}
  {
    var p, q := t.project, Turn(t.project, ALL_WELL, clock);
    var u := Issue(Settle(t, q));
    var r := Turn(q, ALL_WELL, clock + MAX_FLUSH_WINDOW);
    TurnShape(t, ALL_WELL, clock);
    forall c | c in t.owed
      ensures Delivered(q.calls[|p.calls|..], t.root, c) || Delivered(r.calls[|q.calls|..], t.root, c)
    {
      assert Accounted(queue, id, t, c);
      TurnHolds(p, t.root, ALL_WELL, clock, c);
      FirstTurnSettles(p, clock, t.root, c);
      if !Delivered(q.calls[|p.calls|..], t.root, c) {
        SecondTurnSettles(q, clock, t.root, c);
      }
    }
    TurnCalls(p, ALL_WELL, clock);
    TurnCalls(q, ALL_WELL, clock + MAX_FLUSH_WINDOW);
  }

  lemma TurnCalls(p: Project, outcome: Outcome, now: Time)
    ensures p.calls <= Turn(p, outcome, now).calls
  {
  }

  /** The debt is paid: once nothing is queued for a project, installs and the sink
      succeed, and the retry and flush windows pass, the clients know everything. */
  lemma QuietProjectsAreSettled(w: World, id: ProjectId, outcome: ProjectId -> Outcome)
    requires AllGood(w) && !At(w, id).project.removed
    requires forall k | 0 <= k < |w.queue| :: !(w.queue[k].Event? && w.queue[k].record.project == id)
    requires outcome(id) == ALL_WELL
    ensures var actions := [Tick(60_000), LoopTurn(outcome), Tick(MAX_FLUSH_WINDOW), LoopTurn(outcome)];
            Runnable(w, actions) && At(Run(w, actions), id).owed == {}
  {
    var turn, pause := LoopTurn(outcome), Tick(MAX_FLUSH_WINDOW);
    var due := Next(w, Tick(60_000));
    RunFour(w, Tick(60_000), turn, pause, turn);
    assert Good(w.queue, id, At(w, id), w.clock);
    TickKeeps(w, Tick(60_000), id);
    AtTick(w, 60_000, id);
    DueWorldIsSettled(due, id, outcome);
  }

  lemma DueWorldIsSettled(w: World, id: ProjectId, outcome: ProjectId -> Outcome)
    requires Good(w.queue, id, At(w, id), w.clock) && !At(w, id).project.removed
    requires forall k | 0 <= k < |w.queue| :: !(w.queue[k].Event? && w.queue[k].record.project == id)
    requires At(w, id).project.retry.Some? ==> RetryIsDue(At(w, id).project, w.clock)
    requires outcome(id) == ALL_WELL
    ensures var turn, pause := LoopTurn(outcome), Tick(MAX_FLUSH_WINDOW);
            At(Next(Next(Next(w, turn), pause), turn), id).owed == {}
  {
    hide Turn, Good, Settle, Issue, Next, At;
    var turn, pause := LoopTurn(outcome), Tick(MAX_FLUSH_WINDOW);
    TwoTurnsSettle(w.queue, id, At(w, id), w.clock);
    AtTurn(w, outcome, id);
    AtTick(Next(w, turn), MAX_FLUSH_WINDOW, id);
    AtTurn(Next(Next(w, turn), pause), outcome, id);
  }

  lemma AtTick(w: World, elapsed: Time, id: ProjectId)
    ensures var next := Next(w, Tick(elapsed)); At(next, id) == At(w, id) && next.clock == w.clock + elapsed
  {
  }

  lemma AtTurn(w: World, outcome: ProjectId -> Outcome, id: ProjectId)
    ensures var next := Next(w, LoopTurn(outcome));
            next.clock == w.clock
            && At(next, id) == Issue(Settle(At(w, id), Turn(At(w, id).project, outcome(id), w.clock)))
  {
    AtNext(w, LoopTurn(outcome), id);
  }

  lemma RunFour(w: World, a: Action, b: Action, c: Action, d: Action)
    requires Enabled(w, a) && Enabled(Next(w, a), b) && Enabled(Next(Next(w, a), b), c)
    requires Enabled(Next(Next(Next(w, a), b), c), d)
    ensures Runnable(w, [a, b, c, d])
    ensures Run(w, [a, b, c, d]) == Next(Next(Next(Next(w, a), b), c), d)
  {
    hide Enabled, Next;
    RunStep(w, a, [b, c, d]);
    RunStep(Next(w, a), b, [c, d]);
    RunStep(Next(Next(w, a), b), c, [d]);
    RunStep(Next(Next(Next(w, a), b), c), d, []);
    assert [a] + [b, c, d] == [a, b, c, d] && [b] + [c, d] == [b, c, d];
    assert [c] + [d] == [c, d] && [d] + [] == [d];
  }

  lemma RunStep(w: World, a: Action, rest: seq<Action>)
    requires Enabled(w, a)
    ensures Runnable(w, [a] + rest) <==> Runnable(Next(w, a), rest)
    ensures Runnable(w, [a] + rest) ==> Run(w, [a] + rest) == Run(Next(w, a), rest)
  {
    assert ([a] + rest)[1..] == rest;
  }
}
