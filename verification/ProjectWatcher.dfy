/** The watcher worker: five maps over the registered projects, updated in place.
    Every method is proved to do to the project it names what `WatcherModel`
    says, and nothing to any other project. */
module ProjectWatcher {
  import opened Wrappers
  import opened Bytes
  import opened PathSets
  import opened WatcherModel

  function Get<K, V>(m: map<K, V>, k: K): Option<V> {
    if k in m then Some(m[k]) else None
  }

  /** `classify_watched_path`, with the containment check as an answer of the disk. */
  method ClassifyWatchedPath(root: NativePath, path: NativePath, contained: bool)
    returns (class_: Classification)
    ensures class_ == Classify(root, path, contained)
  {
    if !(root <= path) {
      return Classification.Full;
    }
    var relative := path[|root|..];
    if relative == [] {
      return Classification.Full;
    }
    var normalized: seq<Bytes> := [];
    for i := 0 to |relative|
      invariant forall k | 0 <= k < i :: SafeName(relative[k])
      invariant |normalized| == i && forall k | 0 <= k < i :: normalized[k] == relative[k].name
      invariant i > 0 ==> relative[0].name != DOT_GIT
    {
      if !SafeName(relative[i]) {
        return Classification.Full;
      }
      if i == 0 && relative[0].name == DOT_GIT {
        return GitOnly;
      }
      normalized := normalized + [relative[i].name];
    }
    assert normalized == Names(relative);
    if contained {
      return Ordinary(Join(normalized, SLASH));
    } else {
      return Classification.Full;
    }
  }

  /** The path branch of `ingest`, on the batch it updates. */
  method AbsorbRecord(before: Batch, root: NativePath, paths: seq<NativePath>,
                     escaping: set<NativePath>, now: Time) returns (batch: Batch)
    ensures batch == WatcherModel.IngestPaths(before, root, paths, escaping, now)
  {
    batch := before;
    var mergedFull, i := false, 0;
    ghost var whole := Absorb(batch, root, paths, escaping, now);
    while i < |paths| && !mergedFull
      invariant 0 <= i <= |paths|
      invariant !mergedFull ==> whole == Absorb(batch, root, paths[i..], escaping, now)
      invariant mergedFull ==> whole == (batch, true)
    {
      var class_ := ClassifyWatchedPath(root, paths[i], paths[i] !in escaping);
      match class_ {
        case Ordinary(relative) =>
          var updated := InsertPath(batch.paths, relative);
          batch := batch.(paths := updated);
          if |batch.paths| > MAX_PATHS_PER_BATCH {
            batch := MergeFull(batch, now);
            mergedFull := true;
          }
        case GitOnly =>
          batch := batch.(hasGit := true);
        case Full =>
          batch := MergeFull(batch, now);
          mergedFull := true;
      }
      i := i + 1;
    }
    if !mergedFull {
      batch := Touch(batch.(dirty := true), now);
    }
  }

  class Worker {
    var queue: seq<Command>
    var registrations: map<ProjectId, Registration>
    var batches: map<ProjectId, Batch>
    var retries: map<ProjectId, Retry>
    var generations: map<ProjectId, nat>
    var removed: set<ProjectId>
    /** The overflow flags that are up, by project and callback generation. */
    var raised: map<ProjectId, set<nat>>
    /** What the sink was called with. */
    var calls: map<ProjectId, seq<SinkCall>>

    ghost function View(id: ProjectId): Project
      reads this
    {
      Project(Get(registrations, id), Get(batches, id), Get(retries, id),
              Get(generations, id).GetOr(0), id in removed,
              Get(raised, id).GetOr({}), Get(calls, id).GetOr([]))
    }

    twostate predicate OnlyTouches(id: ProjectId)
      reads this
    {
      queue == old(queue) && forall q | q != id :: View(q) == old(View(q))
    }

    constructor ()
      ensures queue == [] && forall id :: View(id) == ABSENT
    {
      queue := [];
      registrations, batches, retries, generations := map[], map[], map[], map[];
      removed, raised, calls := {}, map[], map[];
    }

    method RecordUnavailable(id: ProjectId, root: NativePath, now: Time)
      modifies `registrations, `retries
      ensures OnlyTouches(id)
      ensures View(id) == WatcherModel.RecordUnavailable(old(View(id)), root, now)
    {
      registrations := registrations - {id};
      var attempt := (if id in retries then retries[id].attempt else 0) + 1;
      retries := retries[id := Retry(root, attempt, Some(now + BackoffDelay(attempt)))];
    }

    /** A new callback generation, whose overflow flag is down. */
    method NextGeneration(id: ProjectId) returns (generation: nat)
      modifies `generations, `raised
      ensures OnlyTouches(id)
      ensures var before := old(View(id));
              generation == before.generation + 1
              && View(id) == before.(generation := generation, raised := before.raised - {generation})
    {
      generation := Get(generations, id).GetOr(0) + 1;
      generations := generations[id := generation];
      raised := raised[id := Get(raised, id).GetOr({}) - {generation}];
    }

    method Watch(id: ProjectId, registration: Registration)
      modifies `registrations
      ensures OnlyTouches(id)
      ensures View(id) == old(View(id)).(registration := Some(registration))
    {
      registrations := registrations[id := registration];
    }

    method ScheduleRetry(id: ProjectId, retry: Retry)
      modifies `retries
      ensures OnlyTouches(id)
      ensures View(id) == old(View(id)).(retry := Some(retry))
    {
      retries := retries[id := retry];
    }

    method RegisterProject(id: ProjectId, root: NativePath, installed: bool, now: Time)
      modifies this
      ensures OnlyTouches(id)
      ensures View(id) == WatcherModel.RegisterProject(old(View(id)), root, installed, now)
    {
      if id in removed {
        return;
      }
      retries := retries - {id};
      var generation := NextGeneration(id);
      if installed {
        Watch(id, Registration(root, generation));
      } else {
        RecordUnavailable(id, root, now);
      }
    }

    method UnregisterProject(id: ProjectId)
      modifies this
      ensures OnlyTouches(id)
      ensures View(id) == WatcherModel.UnregisterProject(old(View(id)))
    {
      removed := removed + {id};
      registrations := registrations - {id};
      batches := batches - {id};
      retries := retries - {id};
      generations := generations[id := Get(generations, id).GetOr(0) + 1];
    }

    method Ingest(record: Record, escaping: set<NativePath>, now: Time)
      modifies this
      ensures OnlyTouches(record.project)
      ensures View(record.project)
           == WatcherModel.Ingest(old(View(record.project)), record, escaping, now)
    {
      hide BackoffDelay, MergeFull, WatcherModel.RecordUnavailable, WatcherModel.IngestPaths;
      var id := record.project;
      if record.generation != Get(generations, id).GetOr(0) {
        return;
      }
      var batch := Get(batches, id).GetOr(EMPTY_BATCH);
      batches := batches[id := batch];
      if record.backendError {
        batches := batches[id := MergeFull(batch, now)];
        if id in registrations {
          RecordUnavailable(id, registrations[id].root, now);
        }
        return;
      }
      if record.signal.Full? {
        batches := batches[id := MergeFull(batch, now)];
        return;
      }
      if id !in registrations {
        return;
      }
      batch := AbsorbRecord(batch, registrations[id].root, record.signal.paths, escaping, now);
      batches := batches[id := batch];
    }

    method PollOverflow(now: Time)
      modifies this
      ensures queue == old(queue)
      ensures forall q :: View(q) == WatcherModel.PollOverflow(old(View(q)), now)
    {
      hide MergeFull;
      var flagged := set id | id in registrations
                              && registrations[id].generation in Get(raised, id).GetOr({});
      var todo := flagged;
      while todo != {}
        invariant todo <= flagged && queue == old(queue)
        invariant forall q :: View(q) == if q in flagged - todo
                                         then WatcherModel.PollOverflow(old(View(q)), now)
                                         else old(View(q))
      {
        var id :| id in todo;
        batches := batches[id := MergeFull(Get(batches, id).GetOr(EMPTY_BATCH), now)];
        todo := todo - {id};
      }
    }

    method PublishFull(id: ProjectId, accepted: bool, now: Time)
      modifies `calls, `batches
      ensures OnlyTouches(id)
      ensures View(id) == WithFullEvent(old(View(id)), accepted, now)
    {
      calls := calls[id := Get(calls, id).GetOr([]) + [SinkCall(AllChanged, accepted)]];
      if !accepted {
        var batch := Get(batches, id).GetOr(EMPTY_BATCH);
        batches := batches[id := batch.(full := true, dirty := true,
                                        retryAfter := Some(now + MAX_FLUSH_WINDOW))];
      }
    }

    /** A successful retry watches again and closes the gap with a full event. */
    method Reinstall(id: ProjectId, registration: Registration, accepted: bool, now: Time)
      modifies `registrations, `calls, `batches
      ensures OnlyTouches(id)
      ensures View(id) == WithFullEvent(old(View(id)).(registration := Some(registration)), accepted, now)
    {
      Watch(id, registration);
      PublishFull(id, accepted, now);
      hide WithFullEvent;
    }

    method TryInstall(id: ProjectId, installed: bool, accepted: bool, now: Time)
      requires id in retries
      modifies this
      ensures OnlyTouches(id)
      ensures View(id) == WatcherModel.TryInstall(old(View(id)), installed, accepted, now)
    {
      hide BackoffDelay, WithFullEvent;
      var entry := retries[id];
      retries := retries - {id};
      var generation := NextGeneration(id);
      if installed {
        Reinstall(id, Registration(entry.root, generation), accepted, now);
      } else {
        var attempt := entry.attempt + 1;
        ScheduleRetry(id, Retry(entry.root, attempt, Some(now + BackoffDelay(attempt))));
      }
    }

    method RetryDue(outcome: ProjectId -> Outcome, now: Time)
      modifies this
      ensures queue == old(queue)
      ensures forall q :: View(q) == WatcherModel.RetryDue(old(View(q)), outcome(q), now)
    {
      hide WatcherModel.TryInstall;
      var due := set id | id in retries && retries[id].nextRetry.Some?
                          && now >= retries[id].nextRetry.value;
      var todo := due;
      while todo != {}
        invariant todo <= due && queue == old(queue)
        invariant forall q :: View(q) == if q in due - todo
                                         then WatcherModel.RetryDue(old(View(q)), outcome(q), now)
                                         else old(View(q))
      {
        var id :| id in todo;
        assert View(id) == old(View(id));
        TryInstall(id, outcome(id).installed, outcome(id).fullAccepted, now);
        todo := todo - {id};
      }
    }

    method Flush(id: ProjectId, accepted: bool, now: Time)
      modifies this
      ensures OnlyTouches(id)
      ensures View(id) == WatcherModel.Flush(old(View(id)), accepted, now)
    {
      if id !in batches || !batches[id].dirty {
        return;
      }
      var batch := batches[id];
      var signal := FlushSignal(batch);
      if signal.None? {
        return;
      }
      calls := calls[id := Get(calls, id).GetOr([]) + [SinkCall(signal.value, accepted)]];
      if accepted {
        if id in registrations {
          raised := raised[id := Get(raised, id).GetOr({}) - {registrations[id].generation}];
        }
        batches := batches - {id};
      } else {
        batches := batches[id := batch.(full := true, paths := [], hasGit := false,
                                        retryAfter := Some(now + MAX_FLUSH_WINDOW))];
      }
    }

    method FlushDue(outcome: ProjectId -> Outcome, now: Time)
      modifies this
      ensures queue == old(queue)
      ensures forall q :: View(q) == WatcherModel.FlushDue(old(View(q)), outcome(q), now)
    {
      hide WatcherModel.Flush, BatchDue;
      var due := set id | id in batches && BatchDue(batches[id], now);
      var todo := due;
      while todo != {}
        invariant todo <= due && queue == old(queue)
        invariant forall q :: View(q) == if q in due - todo
                                         then WatcherModel.FlushDue(old(View(q)), outcome(q), now)
                                         else old(View(q))
      {
        var id :| id in todo;
        assert View(id) == old(View(id));
        Flush(id, outcome(id).flushAccepted, now);
        todo := todo - {id};
      }
    }

    /** The part of the loop before it waits: atomic with respect to callbacks. */
    method Turn(outcome: ProjectId -> Outcome, now: Time)
      modifies this
      ensures queue == old(queue)
      ensures forall q :: View(q) == WatcherModel.Turn(old(View(q)), outcome(q), now)
    {
      PollOverflow(now);
      RetryDue(outcome, now);
      FlushDue(outcome, now);
    }

    /** Receive one command and handle it. */
    method Handle(escaping: set<NativePath>, installed: bool, now: Time)
      requires queue != []
      modifies this
      ensures queue == old(queue)[1..]
      ensures forall q :: View(q) == HandleOne(old(queue)[0], q, old(View(q)), escaping, installed, now)
    {
      var command := queue[0];
      queue := queue[1..];
      match command {
        case Register(id, root) => RegisterProject(id, root, installed, now);
        case Unregister(id) => UnregisterProject(id);
        case Event(record) => Ingest(record, escaping, now);
      }
    }

    /** The closure `make_callback` returns, called by the native watcher. */
    method Callback(id: ProjectId, generation: nat, event: NativeEvent)
      modifies this
      ensures forall q :: View(q) == AfterCallback(q, old(View(q)), |old(queue)|, id, generation, event)
      ensures queue == if |old(queue)| < CHANNEL_CAPACITY
                       then old(queue) + [Event(CallbackRecord(id, generation, event))]
                       else old(queue)
    {
      if RaisesFlag(event) {
        raised := raised[id := Get(raised, id).GetOr({}) + {generation}];
      }
      if |queue| < CHANNEL_CAPACITY {
        queue := queue + [Event(CallbackRecord(id, generation, event))];
      } else {
        raised := raised[id := Get(raised, id).GetOr({}) + {generation}];
      }
    }

    /** How long the worker may wait for a command: the least of the poll
        interval, the time to each dirty batch's due time and to each retry. */
    method NextDeadline(now: Time) returns (wait: Time)
      ensures wait <= 100
      ensures forall id | id in batches && batches[id].dirty :: wait <= Remaining(batches[id], now)
      ensures forall id | id in retries && retries[id].nextRetry.Some? ::
                wait <= Until(retries[id].nextRetry.value, now)
      ensures || wait == 100
              || (exists id | id in batches && batches[id].dirty :: wait == Remaining(batches[id], now))
              || (exists id | id in retries && retries[id].nextRetry.Some? ::
                    wait == Until(retries[id].nextRetry.value, now))
    {
      wait := OVERFLOW_POLL_INTERVAL;
      var ids := batches.Keys;
      while ids != {}
        invariant ids <= batches.Keys && wait <= OVERFLOW_POLL_INTERVAL
        invariant forall id | id in batches.Keys - ids && batches[id].dirty ::
                    wait <= Remaining(batches[id], now)
        invariant || wait == OVERFLOW_POLL_INTERVAL
                  || exists id | id in batches && batches[id].dirty :: wait == Remaining(batches[id], now)
      {
        var id :| id in ids;
        if batches[id].dirty && Remaining(batches[id], now) < wait {
          wait := Remaining(batches[id], now);
        }
        ids := ids - {id};
      }
      ids := retries.Keys;
      while ids != {}
        invariant ids <= retries.Keys && wait <= OVERFLOW_POLL_INTERVAL
        invariant forall id | id in batches && batches[id].dirty :: wait <= Remaining(batches[id], now)
        invariant forall id | id in retries.Keys - ids && retries[id].nextRetry.Some? ::
                    wait <= Until(retries[id].nextRetry.value, now)
        invariant || wait == OVERFLOW_POLL_INTERVAL
                  || (exists id | id in batches && batches[id].dirty :: wait == Remaining(batches[id], now))
                  || (exists id | id in retries && retries[id].nextRetry.Some? ::
                        wait == Until(retries[id].nextRetry.value, now))
      {
        var id :| id in ids;
        if retries[id].nextRetry.Some? && Until(retries[id].nextRetry.value, now) < wait {
          wait := Until(retries[id].nextRetry.value, now);
        }
        ids := ids - {id};
      }
    }
  }
}
