/** What the watcher worker does to one project: the specification the `Worker`
    methods are proved against. Times are milliseconds of a monotone clock; what
    the operating system and the event sink answer are parameters. */
module WatcherModel {
  import opened Wrappers
  import opened Bytes
  import opened PathSets
  import Utf8

  type ProjectId = string
  type Time = nat

  const CHANNEL_CAPACITY := 1024
  const MAX_CALLBACK_PATHS := 256
  const MAX_PATHS_PER_BATCH := 256
  const QUIET_WINDOW: Time := 250
  const MAX_FLUSH_WINDOW: Time := 2000
  const OVERFLOW_POLL_INTERVAL: Time := 100

  // ----- Native paths and what they mean below a project root

  datatype Component = Normal(name: Bytes) | ParentDir

  /** An absolute path, as its components below the root directory. */
  type NativePath = seq<Component>

  datatype Classification = Ordinary(path: Path) | GitOnly | Full

  const DOT_GIT: Bytes := [46, 103, 105, 116]

  predicate SafeName(c: Component) {
    && c.Normal?
    && Utf8.Valid(c.name)
    && c.name != [] && c.name != [46] && c.name != [46, 46]
    && NUL !in c.name
  }

  function Names(path: NativePath): (names: seq<Bytes>)
    requires forall c | c in path :: c.Normal?
    ensures |names| == |path|
    ensures forall i | 0 <= i < |path| :: names[i] == path[i].name
  {
    if path == [] then [] else [path[0].name] + Names(path[1..])
  }

  /** The part of the classification that does not look at the disk. */
  function LexicalClass(root: NativePath, path: NativePath): Classification {
    if !(root <= path) || |path| == |root| then Classification.Full
    else
      var relative := path[|root|..];
      if !SafeName(relative[0]) then Classification.Full
      else if relative[0].name == DOT_GIT then GitOnly
      else if exists c | c in relative :: !SafeName(c) then Classification.Full
      else Ordinary(Join(Names(relative), SLASH))
  }

  /** `contained` is the disk's answer: the nearest existing ancestor stays in the root. */
  function Classify(root: NativePath, path: NativePath, contained: bool): Classification {
    var class_ := LexicalClass(root, path);
    if class_.Ordinary? && !contained then Classification.Full else class_
  }

  // ----- Batches

  datatype Batch = Batch(
    paths: seq<Path>, hasGit: bool, full: bool, dirty: bool,
    firstSeen: Option<Time>, lastSeen: Option<Time>, retryAfter: Option<Time>)

  const EMPTY_BATCH := Batch([], false, false, false, None, None, None)

  function Touch(b: Batch, now: Time): Batch {
    b.(firstSeen := Some(b.firstSeen.GetOr(now)), lastSeen := Some(now), retryAfter := None)
  }

  function MergeFull(b: Batch, now: Time): Batch {
    Touch(b.(full := true, paths := [], hasGit := false, dirty := true), now)
  }

  predicate BatchDue(b: Batch, now: Time) {
    b.dirty &&
    if b.retryAfter.Some? then now >= b.retryAfter.value
    else
      || now - b.lastSeen.GetOr(now) >= QUIET_WINDOW
      || now - b.firstSeen.GetOr(now) >= MAX_FLUSH_WINDOW
  }

  /** What a batch asks the sink to append. */
  datatype Signal = FilesChanged(paths: seq<Path>) | AllChanged | GitChanged

  function FlushSignal(b: Batch): Option<Signal> {
    if b.full then Some(AllChanged)
    else if b.paths != [] then Some(FilesChanged(SortedDistinct(b.paths)))
    else if b.hasGit then Some(GitChanged)
    else None
  }

  // ----- Records from the native callbacks

  datatype RawSignal = Paths(paths: seq<NativePath>) | Full

  datatype Record = Record(project: ProjectId, generation: nat, signal: RawSignal, backendError: bool)

  datatype Command =
    | Register(project: ProjectId, root: NativePath)
    | Unregister(project: ProjectId)
    | Event(record: Record)

  /** What the native watcher hands a callback. */
  datatype NativeEvent = Changed(paths: seq<NativePath>, rescan: bool) | Failed

  function CallbackRecord(id: ProjectId, generation: nat, event: NativeEvent): Record {
    match event
    case Failed => Record(id, generation, RawSignal.Full, true)
    case Changed(paths, rescan) =>
      var signal :=
        if rescan then RawSignal.Full
        else if |paths| > MAX_CALLBACK_PATHS then Paths(paths[..MAX_CALLBACK_PATHS])
        else Paths(paths);
      Record(id, generation, signal, false)
  }

  /** The callback raises its overflow flag before it offers the record. */
  predicate RaisesFlag(event: NativeEvent) {
    event.Changed? && (event.rescan || |event.paths| > MAX_CALLBACK_PATHS)
  }

  // ----- One project as the worker holds it

  /** `generation` names the callback, and with it the overflow flag they share. */
  datatype Registration = Registration(root: NativePath, generation: nat)

  datatype Retry = Retry(root: NativePath, attempt: nat, nextRetry: Option<Time>)

  datatype SinkCall = SinkCall(signal: Signal, accepted: bool)

  datatype Project = Project(
    registration: Option<Registration>,
    batch: Option<Batch>,
    retry: Option<Retry>,
    generation: nat,
    removed: bool,
    raised: set<nat>,
    calls: seq<SinkCall>)

  const ABSENT := Project(None, None, None, 0, false, {}, [])

  function Pow2(n: nat): nat {
    if n == 0 then 1 else 2 * Pow2(n - 1)
  }

  function BackoffDelay(attempt: nat): Time {
    1000 * (if attempt >= 7 then 60 else Pow2(if attempt == 0 then 0 else attempt - 1))
  }

  function RecordUnavailable(p: Project, root: NativePath, now: Time): Project {
    var attempt := (if p.retry.Some? then p.retry.value.attempt else 0) + 1;
    p.(registration := None, retry := Some(Retry(root, attempt, Some(now + BackoffDelay(attempt)))))
  }

  function RegisterProject(p: Project, root: NativePath, installed: bool, now: Time): Project {
    if p.removed then p
    else
      var generation := p.generation + 1;
      var q := p.(retry := None, generation := generation, raised := p.raised - {generation});
      if installed then q.(registration := Some(Registration(root, generation)))
      else RecordUnavailable(q, root, now)
  }

  function UnregisterProject(p: Project): Project {
    p.(removed := true, registration := None, batch := None, retry := None,
       generation := p.generation + 1)
  }

  /** The loop over a record's paths; the second result says it ended full. */
  function Absorb(b: Batch, root: NativePath, paths: seq<NativePath>, escaping: set<NativePath>, now: Time)
    : (r: (Batch, bool))
    ensures r.1 ==> r.0.full && r.0.dirty
    decreases |paths|
  {
    if paths == [] then (b, false)
    else
      match Classify(root, paths[0], paths[0] !in escaping)
      case Ordinary(relative) =>
        var grown := b.(paths := Inserted(b.paths, relative));
        if |grown.paths| > MAX_PATHS_PER_BATCH then (MergeFull(grown, now), true)
        else Absorb(grown, root, paths[1..], escaping, now)
      case GitOnly => Absorb(b.(hasGit := true), root, paths[1..], escaping, now)
      case Full => (MergeFull(b, now), true)
  }

  function IngestPaths(b: Batch, root: NativePath, paths: seq<NativePath>, escaping: set<NativePath>, now: Time)
    : Batch
  {
    var (absorbed, mergedFull) := Absorb(b, root, paths, escaping, now);
    if mergedFull then absorbed else Touch(absorbed.(dirty := true), now)
  }

  function Ingest(p: Project, record: Record, escaping: set<NativePath>, now: Time): Project {
    if record.generation != p.generation then p
    else
      var b := p.batch.GetOr(EMPTY_BATCH);
      if record.backendError then
        var q := p.(batch := Some(MergeFull(b, now)));
        if p.registration.Some? then RecordUnavailable(q, p.registration.value.root, now) else q
      else
        match record.signal
        case Full => p.(batch := Some(MergeFull(b, now)))
        case Paths(paths) =>
          if p.registration.None? then p.(batch := Some(b))
          else p.(batch := Some(IngestPaths(b, p.registration.value.root, paths, escaping, now)))
  }

  // ----- The loop turn: poll_overflow, retry_due, flush_due

  /** What installing a watch and the sink answer during one turn. */
  datatype Outcome = Outcome(installed: bool, fullAccepted: bool, flushAccepted: bool)

  predicate Flagged(p: Project) {
    p.registration.Some? && p.registration.value.generation in p.raised
  }

  function PollOverflow(p: Project, now: Time): Project {
    if Flagged(p) then p.(batch := Some(MergeFull(p.batch.GetOr(EMPTY_BATCH), now))) else p
  }

  predicate RetryIsDue(p: Project, now: Time) {
    p.retry.Some? && p.retry.value.nextRetry.Some? && now >= p.retry.value.nextRetry.value
  }

  function WithFullEvent(p: Project, accepted: bool, now: Time): Project {
    var q := p.(calls := p.calls + [SinkCall(AllChanged, accepted)]);
    if accepted then q
    else
      var b := p.batch.GetOr(EMPTY_BATCH);
      q.(batch := Some(b.(full := true, dirty := true, retryAfter := Some(now + MAX_FLUSH_WINDOW))))
  }

  function TryInstall(p: Project, installed: bool, accepted: bool, now: Time): Project
    requires p.retry.Some?
  {
    var entry := p.retry.value;
    var generation := p.generation + 1;
    var q := p.(retry := None, generation := generation, raised := p.raised - {generation});
    if installed then
      WithFullEvent(q.(registration := Some(Registration(entry.root, generation))), accepted, now)
    else
      var attempt := entry.attempt + 1;
      q.(retry := Some(Retry(entry.root, attempt, Some(now + BackoffDelay(attempt)))))
  }

  function RetryDue(p: Project, outcome: Outcome, now: Time): Project {
    if RetryIsDue(p, now) then TryInstall(p, outcome.installed, outcome.fullAccepted, now) else p
  }

  function Flush(p: Project, accepted: bool, now: Time): Project {
    if p.batch.None? || !p.batch.value.dirty || FlushSignal(p.batch.value).None? then p
    else
      var b := p.batch.value;
      var q := p.(calls := p.calls + [SinkCall(FlushSignal(b).value, accepted)]);
      if accepted then
        var lowered := if p.registration.Some? then {p.registration.value.generation} else {};
        q.(batch := None, raised := p.raised - lowered)
      else
        q.(batch := Some(b.(full := true, paths := [], hasGit := false,
                            retryAfter := Some(now + MAX_FLUSH_WINDOW))))
  }

  predicate FlushIsDue(p: Project, now: Time) {
    p.batch.Some? && BatchDue(p.batch.value, now)
  }

  function FlushDue(p: Project, outcome: Outcome, now: Time): Project {
    if FlushIsDue(p, now) then Flush(p, outcome.flushAccepted, now) else p
  }

  function Turn(p: Project, outcome: Outcome, now: Time): Project {
    FlushDue(RetryDue(PollOverflow(p, now), outcome, now), outcome, now)
  }

  /** Handling one command, as project `q` sees it. */
  function HandleOne(command: Command, q: ProjectId, p: Project,
                     escaping: set<NativePath>, installed: bool, now: Time): Project
  {
    match command
    case Register(id, root) => if id == q then RegisterProject(p, root, installed, now) else p
    case Unregister(id) => if id == q then UnregisterProject(p) else p
    case Event(record) => if record.project == q then Ingest(p, record, escaping, now) else p
  }

  /** A callback runs on another thread; it reaches the queue and its own flag only. */
  function AfterCallback(q: ProjectId, p: Project, queued: nat,
                         id: ProjectId, generation: nat, event: NativeEvent): Project
  {
    if q == id && (RaisesFlag(event) || queued >= CHANNEL_CAPACITY)
    then p.(raised := p.raised + {generation})
    else p
  }

  // ----- Deadlines

  /** From when on a dirty batch is due. */
  function DueTime(b: Batch): Time
    requires b.retryAfter.Some? || (b.firstSeen.Some? && b.lastSeen.Some?)
  {
    if b.retryAfter.Some? then b.retryAfter.value
    else
      var quiet, max := b.lastSeen.value + QUIET_WINDOW, b.firstSeen.value + MAX_FLUSH_WINDOW;
      if quiet < max then quiet else max
  }

  /** How long until `at`; nothing once it has passed. */
  function Until(at: Time, now: Time): Time {
    if at < now then 0 else at - now
  }

  /** How long the deadline computation lets a dirty batch wait. */
  function Remaining(b: Batch, now: Time): Time {
    if b.retryAfter.Some? then Until(b.retryAfter.value, now)
    else
      var quiet := Until(b.lastSeen.GetOr(now) + QUIET_WINDOW, now);
      var max := Until(b.firstSeen.GetOr(now) + MAX_FLUSH_WINDOW, now);
      if quiet < max then quiet else max
  }
}
