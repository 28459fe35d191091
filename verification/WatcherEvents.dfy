/** Which events the clients get: exactly those that what happened to a project
    since the last accepted flush calls for, and no more. */
module WatcherEvents {
  import opened Wrappers
  import opened Bytes
  import opened PathSets
  import opened WatcherModel
  import opened WatcherPayload
  import opened WatcherRuns
  import opened WatcherTiming
  import Utf8

  // ----- What a reported path is

  ghost predicate GoodName(c: Component) {
    c.Normal? && Utf8.Valid(c.name) && c.name !in [[], [46], [46, 46]] && 0 !in c.name
  }

  /** The path starts with `.git` below the root. */
  ghost predicate OfGit(root: NativePath, path: NativePath) {
    root < path && path[|root|] == Normal([46, 103, 105, 116])
  }

  /** The path is below the root by its names and on the disk. */
  ghost predicate OfFiles(root: NativePath, path: NativePath, escaping: set<NativePath>) {
    && root < path && !OfGit(root, path) && path !in escaping
    && forall i | |root| <= i < |path| :: GoodName(path[i])
  }

  ghost function NamesBelow(root: NativePath, path: NativePath): seq<Bytes>
    requires root < path
  {
    seq(|path| - |root|, i requires 0 <= i < |path| - |root| =>
      if path[|root| + i].Normal? then path[|root| + i].name else [])
  }

  ghost function Relative(root: NativePath, path: NativePath): Path
    requires root < path
  {
    Join(NamesBelow(root, path), 47)
  }

  lemma NamesBelowAre(root: NativePath, path: NativePath)
    requires root < path && forall c | c in path[|root|..] :: c.Normal?
    ensures NamesBelow(root, path) == Names(path[|root|..])
  {
    var relative := path[|root|..];
    assert forall i | 0 <= i < |relative| :: relative[i] == path[|root| + i] && relative[i] in relative;
  }

  lemma GoodNamesAre(root: NativePath, path: NativePath)
    requires root < path
    ensures (forall i | |root| <= i < |path| :: GoodName(path[i])) <==> forall c | c in path[|root|..] :: SafeName(c)
  {
    var relative := path[|root|..];
    assert forall c :: GoodName(c) <==> SafeName(c);
    hide GoodName, SafeName;
    assert forall i | |root| <= i < |path| :: path[i] == relative[i - |root|] && path[i] in relative;
  }

  lemma ClassIs(root: NativePath, path: NativePath, escaping: set<NativePath>)
    ensures Classify(root, path, path !in escaping) ==
            if OfGit(root, path) then GitOnly
            else if OfFiles(root, path, escaping) then Ordinary(Relative(root, path))
            else Classification.Full
  {
    OrdinaryIff(root, path);
    if root < path {
      GoodNamesAre(root, path);
      Utf8.AsciiValid(DOT_GIT);
      assert SafeName(Normal(DOT_GIT));
      hide GoodName, NamesBelow;
      assert path[|root|..][0] == path[|root|];
      if OfFiles(root, path, escaping) {
        assert forall c :: SafeName(c) ==> c.Normal?;
        hide SafeName;
        NamesBelowAre(root, path);
      }
    }
  }

  /** The files among some reported paths, in order. */
  ghost function FilesOf(root: NativePath, paths: seq<NativePath>, escaping: set<NativePath>): seq<Path> {
    if paths == [] then []
    else (if OfFiles(root, paths[0], escaping) then [Relative(root, paths[0])] else [])
         + FilesOf(root, paths[1..], escaping)
  }

  ghost predicate AllKnown(root: NativePath, paths: seq<NativePath>, escaping: set<NativePath>) {
    forall path | path in paths :: OfGit(root, path) || OfFiles(root, path, escaping)
  }

  ghost predicate SomeGit(root: NativePath, paths: seq<NativePath>) {
    exists path | path in paths :: OfGit(root, path)
  }

  lemma HeadAndRest(root: NativePath, paths: seq<NativePath>, escaping: set<NativePath>)
    requires paths != []
    ensures AllKnown(root, paths, escaping) <==>
            (OfGit(root, paths[0]) || OfFiles(root, paths[0], escaping)) && AllKnown(root, paths[1..], escaping)
    ensures SomeGit(root, paths) <==> OfGit(root, paths[0]) || SomeGit(root, paths[1..])
  {
    hide OfGit, OfFiles;
    assert paths == [paths[0]] + paths[1..];
  }

  lemma FilesOfHead(root: NativePath, paths: seq<NativePath>, escaping: set<NativePath>)
    requires paths != []
    ensures OfFiles(root, paths[0], escaping) ==>
              FilesOf(root, paths, escaping) == [Relative(root, paths[0])] + FilesOf(root, paths[1..], escaping)
    ensures OfGit(root, paths[0]) ==> FilesOf(root, paths, escaping) == FilesOf(root, paths[1..], escaping)
  {
    hide Relative;
  }

  lemma StaysWithinCons(paths: seq<Path>, first: Path, rest: seq<Path>)
    ensures StaysWithin(paths, [first] + rest) <==>
            |Inserted(paths, first)| <= MAX_PATHS_PER_BATCH && StaysWithin(Inserted(paths, first), rest)
  {
    hide Inserted;
    assert ([first] + rest)[1..] == rest;
  }

  /** What the loop over a record leaves, whatever is in it. */
  lemma {:induction false} AbsorbMixed(b: Batch, root: NativePath, paths: seq<NativePath>,
                                       escaping: set<NativePath>, now: Time)
    requires !b.full
    ensures var files := FilesOf(root, paths, escaping);
            var (absorbed, mergedFull) := Absorb(b, root, paths, escaping, now);
            if AllKnown(root, paths, escaping) && StaysWithin(b.paths, files)
            then absorbed == b.(paths := InsertedAll(b.paths, files), hasGit := b.hasGit || SomeGit(root, paths))
                 && !mergedFull
            else absorbed.full && mergedFull
    decreases |paths|
  {
    if paths != [] {
      ClassIs(root, paths[0], escaping);
      HeadAndRest(root, paths, escaping);
      FilesOfHead(root, paths, escaping);
      hide OfGit, OfFiles, Relative, Classify, AllKnown, SomeGit, Inserted, InsertedAll, StaysWithin, FilesOf;
      if OfGit(root, paths[0]) {
        AbsorbMixed(b.(hasGit := true), root, paths[1..], escaping, now);
      } else if OfFiles(root, paths[0], escaping) {
        var first, rest := Relative(root, paths[0]), FilesOf(root, paths[1..], escaping);
        StaysWithinCons(b.paths, first, rest);
        InsertedAllCons(b.paths, first, rest);
        AbsorbMixed(b.(paths := Inserted(b.paths, first)), root, paths[1..], escaping, now);
      }
    }
  }

  // ----- The cap

  /** The paths of a list that lie below no other of them. */
  ghost function MinimalOf(paths: seq<Path>): set<Path> {
    set p | p in paths && forall q | q in paths && Covers(q, p) :: q == p
  }

  /** At some point more than 256 paths would have had to be listed. */
  ghost predicate OverCap(files: seq<Path>) {
    exists n :: 0 <= n <= |files| && |MinimalOf(files[..n])| > 256
  }

  lemma {:induction false} DistinctCount(paths: seq<Path>)
    requires Distinct(paths)
    ensures |SetOf(paths)| == |paths|
  {
    if paths != [] {
      var before, last := paths[..|paths| - 1], paths[|paths| - 1];
      assert paths == before + [last];
      DistinctCount(before);
      SetOfSnoc(before, last);
    }
  }

  lemma InsertedCount(paths: seq<Path>)
    ensures |InsertedAll([], paths)| == |MinimalOf(paths)|
  {
    InsertedAllIsFrontier(paths);
    hide InsertedAll, Covers;
    var kept := InsertedAll([], paths);
    DistinctCount(kept);
    assert SetOf(kept) == MinimalOf(paths);
  }

  lemma OverCapSnoc(before: seq<Path>, last: Path)
    ensures OverCap(before + [last]) <==> OverCap(before) || |MinimalOf(before + [last])| > 256
  {
    hide MinimalOf;
    var files := before + [last];
    assert forall n | 0 <= n <= |before| :: files[..n] == before[..n];
    assert files[..|files|] == files;
  }

  lemma StaysWithinSnoc(before: seq<Path>, last: Path)
    ensures StaysWithin([], before + [last]) <==>
            StaysWithin([], before) && |InsertedAll([], before + [last])| <= 256
  {
    InsertedAllConcat([], before, [last]);
    InsertedAllSnoc([], before, last);
    hide InsertedAll, Inserted;
    var kept := InsertedAll([], before);
    StaysWithinCons(kept, last, []);
    assert [last] + [] == [last];
  }

  /** The cap on a batch is a cap on what any event would have had to list. */
  lemma {:induction false} StaysWithinIff(files: seq<Path>)
    ensures StaysWithin([], files) <==> !OverCap(files)
    decreases |files|
  {
    if files == [] {
      assert forall n | 0 <= n <= |files| :: MinimalOf(files[..n]) == {};
    } else {
      hide InsertedAll, MinimalOf, StaysWithin, OverCap;
      var before, last := files[..|files| - 1], files[|files| - 1];
      SliceLast(files, |files|);
      assert files[..|files|] == files == before + [last];
      StaysWithinIff(before);
      StaysWithinSnoc(before, last);
      OverCapSnoc(before, last);
      InsertedCount(files);
    }
  }

  // ----- What happened since the last accepted flush

  /** The worker took a record of paths; it learnt that anything may have changed;
      or the sink refused an event. */
  datatype Happening =
    | Reported(root: NativePath, paths: seq<NativePath>, escaping: set<NativePath>, at: Time)
    | Unknown(at: Time)
    | Unsent(at: Time)

  /** The files reported, in order. */
  ghost function AllFiles(h: seq<Happening>): seq<Path> {
    if h == [] then []
    else
      var last := h[|h| - 1];
      AllFiles(h[..|h| - 1]) + if last.Reported? then FilesOf(last.root, last.paths, last.escaping) else []
  }

  /** A reported path is neither a file of the project nor of its `.git`. */
  ghost predicate Strange(x: Happening) {
    x.Reported? && exists path | path in x.paths :: !OfGit(x.root, path) && !OfFiles(x.root, path, x.escaping)
  }

  ghost predicate ReportsGit(x: Happening) {
    x.Reported? && exists path | path in x.paths :: OfGit(x.root, path)
  }

  /** No list of paths tells what happened. */
  ghost predicate Untold(h: seq<Happening>) {
    (exists x | x in h :: x.Unknown? || x.Unsent? || Strange(x)) || OverCap(AllFiles(h))
  }

  /** The event that is called for. */
  ghost predicate CallsFor(h: seq<Happening>, event: Option<Signal>) {
    if Untold(h) then event == Some(AllChanged)
    else if AllFiles(h) != [] then
      && event.Some? && event.value.FilesChanged? && Increasing(event.value.paths)
      && forall p :: p in event.value.paths <==> p in MinimalOf(AllFiles(h))
    else if exists x | x in h :: ReportsGit(x) then event == Some(GitChanged)
    else event == None
  }

  ghost function FirstTouch(h: seq<Happening>): Option<Time> {
    if h == [] then None
    else
      var before, last := FirstTouch(h[..|h| - 1]), h[|h| - 1];
      if before.Some? || last.Unsent? then before else Some(last.at)
  }

  ghost function LastTouch(h: seq<Happening>): Option<Time> {
    if h == [] then None
    else if h[|h| - 1].Unsent? then LastTouch(h[..|h| - 1])
    else Some(h[|h| - 1].at)
  }

  /** When it is time for it: two seconds after an event was refused, if nothing
      came since; otherwise a quarter of a second after the last report or two
      seconds after the first. */
  ghost predicate Due(h: seq<Happening>, now: Time) {
    h != [] &&
    var last := h[|h| - 1];
    if last.Unsent? then now >= last.at + 2000
    else now >= last.at + 250 || now >= FirstTouch(h).GetOr(now) + 2000
  }

  // ----- A batch is what happened

  ghost predicate Mirrors(b: Batch, h: seq<Happening>) {
    && (b.dirty <==> h != [])
    && (b.full <==> Untold(h))
    && (!b.full ==> b.paths == InsertedAll([], AllFiles(h)) && (b.hasGit <==> exists x | x in h :: ReportsGit(x)))
    && b.firstSeen == FirstTouch(h) && b.lastSeen == LastTouch(h)
    && b.retryAfter == if h != [] && h[|h| - 1].Unsent? then Some(h[|h| - 1].at + 2000) else None
  }

  lemma FilesSnoc(h: seq<Happening>, x: Happening)
    ensures AllFiles(h + [x]) ==
            AllFiles(h) + if x.Reported? then FilesOf(x.root, x.paths, x.escaping) else []
  {
    assert (h + [x])[..|h|] == h;
  }

  lemma TouchSnoc(h: seq<Happening>, x: Happening)
    ensures FirstTouch(h + [x]) == (if FirstTouch(h).Some? || x.Unsent? then FirstTouch(h) else Some(x.at))
    ensures LastTouch(h + [x]) == (if x.Unsent? then LastTouch(h) else Some(x.at))
  {
    assert (h + [x])[..|h|] == h;
  }

  lemma UntoldSnoc(h: seq<Happening>, x: Happening)
    ensures Untold(h + [x]) <==>
            || Untold(h) || x.Unknown? || x.Unsent? || Strange(x)
            || (x.Reported? && !StaysWithin(InsertedAll([], AllFiles(h)), FilesOf(x.root, x.paths, x.escaping)))
  {
    hide OverCap, StaysWithin, InsertedAll, Strange;
    FilesSnoc(h, x);
    var more := if x.Reported? then FilesOf(x.root, x.paths, x.escaping) else [];
    StaysWithinIff(AllFiles(h));
    StaysWithinIff(AllFiles(h) + more);
    InsertedAllConcat([], AllFiles(h), more);
    if !x.Reported? {
      assert AllFiles(h) + [] == AllFiles(h);
    }
  }

  lemma GitSnoc(h: seq<Happening>, x: Happening)
    ensures (exists y | y in h + [x] :: ReportsGit(y)) <==> (exists y | y in h :: ReportsGit(y)) || ReportsGit(x)
  {
    hide ReportsGit;
  }

  /** Whatever may have changed. */
  lemma UnknownMirrored(b: Batch, h: seq<Happening>, now: Time)
    requires Mirrors(b, h)
    ensures Mirrors(MergeFull(b, now), h + [Unknown(now)])
  {
    UntoldSnoc(h, Unknown(now));
    TouchSnoc(h, Unknown(now));
    hide Untold, FirstTouch, LastTouch, AllFiles, InsertedAll, ReportsGit;
  }

  /** A refused event. */
  lemma UnsentMirrored(b: Batch, h: seq<Happening>, now: Time, after: Batch)
    requires Mirrors(b, h)
    requires after.full && after.dirty && after.retryAfter == Some(now + 2000)
    requires after.firstSeen == b.firstSeen && after.lastSeen == b.lastSeen
    ensures Mirrors(after, h + [Unsent(now)])
  {
    UntoldSnoc(h, Unsent(now));
    TouchSnoc(h, Unsent(now));
    hide Untold, FirstTouch, LastTouch, AllFiles, InsertedAll, ReportsGit;
  }

  lemma ReportIs(root: NativePath, paths: seq<NativePath>, escaping: set<NativePath>, now: Time)
    ensures var x := Reported(root, paths, escaping, now);
            (Strange(x) <==> !AllKnown(root, paths, escaping)) && (ReportsGit(x) <==> SomeGit(root, paths))
  {
    hide OfGit, OfFiles;
  }

  lemma IngestedIs(b: Batch, root: NativePath, paths: seq<NativePath>, escaping: set<NativePath>, now: Time)
    ensures var files := FilesOf(root, paths, escaping);
            var after := IngestPaths(b, root, paths, escaping, now);
            if b.full || !AllKnown(root, paths, escaping) || !StaysWithin(b.paths, files) then after.full
            else !after.full && after.paths == InsertedAll(b.paths, files)
                 && after.hasGit == (b.hasGit || SomeGit(root, paths))
  {
    if b.full {
      FullStays(b, root, paths, escaping, now);
    } else {
      AbsorbMixed(b, root, paths, escaping, now);
    }
    hide Absorb, AllKnown, SomeGit, StaysWithin, FilesOf, InsertedAll;
  }

  /** A record of paths. */
  lemma ReportMirrored(b: Batch, h: seq<Happening>, root: NativePath, paths: seq<NativePath>,
                       escaping: set<NativePath>, now: Time)
    requires Mirrors(b, h)
    ensures Mirrors(IngestPaths(b, root, paths, escaping, now), h + [Reported(root, paths, escaping, now)])
  {
    hide Untold, FirstTouch, LastTouch, AllFiles, InsertedAll, ReportsGit, Strange, AllKnown, SomeGit, StaysWithin,
         FilesOf, IngestPaths;
    var x := Reported(root, paths, escaping, now);
    UntoldSnoc(h, x);
    TouchSnoc(h, x);
    FilesSnoc(h, x);
    GitSnoc(h, x);
    AllTouch(b, root, paths, escaping, now);
    ReportIs(root, paths, escaping, now);
    IngestedIs(b, root, paths, escaping, now);
    InsertedAllConcat([], AllFiles(h), FilesOf(root, paths, escaping));
  }

  lemma NothingMirrored()
    ensures Mirrors(EMPTY_BATCH, [])
  {
    StaysWithinIff([]);
  }

  /** A batch sends the event that is called for, when it is time. */
  lemma BatchSends(b: Batch, h: seq<Happening>, now: Time)
    requires Mirrors(b, h)
    ensures CallsFor(h, FlushSignal(b))
    ensures BatchDue(b, now) <==> Due(h, now)
  {
    if !b.full {
      InsertedAllIsFrontier(AllFiles(h));
      InsertedNone(AllFiles(h));
      var paths := InsertedAll([], AllFiles(h));
      assert forall p :: p in paths <==> p in MinimalOf(AllFiles(h)) by {
        hide Covers;
      }
    }
    TouchesAre(h);
    hide Untold, FirstTouch, LastTouch, AllFiles, InsertedAll, ReportsGit, MinimalOf, Minimal, Covers, Increasing;
  }

  lemma InsertedNone(files: seq<Path>)
    ensures InsertedAll([], files) == [] <==> files == []
  {
    if files != [] {
      hide InsertedAll, Covers, Minimal;
      InsertedAllIsFrontier(files);
      assert files[0] in SetOf(files);
    }
  }

  lemma {:induction false} TouchesAre(h: seq<Happening>)
    ensures h != [] && !h[|h| - 1].Unsent? ==> FirstTouch(h).Some? && LastTouch(h) == Some(h[|h| - 1].at)
  {
  }

  // ----- Whole runs

  /** What a record adds. */
  ghost function RecordAdds(p: Project, record: Record, escaping: set<NativePath>, now: Time): seq<Happening> {
    if record.generation != p.generation then []
    else if record.backendError || record.signal.Full? then [Unknown(now)]
    else if p.registration.None? then []
    else [Reported(p.registration.value.root, record.signal.paths, escaping, now)]
  }

  /** A turn looks at the flag of the current callback, then tries to watch again. */
  ghost function BeforeFlush(p: Project, h: seq<Happening>, outcome: Outcome, now: Time): seq<Happening> {
    var flagged := p.registration.Some? && p.registration.value.generation in p.raised;
    var reinstalls := p.retry.Some? && p.retry.value.nextRetry.Some? && p.retry.value.nextRetry.value <= now
                      && outcome.installed;
    h + (if flagged then [Unknown(now)] else []) + (if reinstalls && !outcome.fullAccepted then [Unsent(now)] else [])
  }

  ghost function AfterTurn(p: Project, h: seq<Happening>, outcome: Outcome, now: Time): seq<Happening> {
    var before := BeforeFlush(p, h, outcome, now);
    if !Due(before, now) || CallsFor(before, None) then before
    else if outcome.flushAccepted then []
    else before + [Unsent(now)]
  }

  ghost function HappensNext(w: World, a: Action, id: ProjectId, h: seq<Happening>): seq<Happening>
    requires Enabled(w, a)
  {
    var p := At(w, id).project;
    match a
    case Receive(escaping, _) =>
      (match w.queue[0]
       case Unregister(q) => if q == id then [] else h
       case Event(record) => if record.project == id then h + RecordAdds(p, record, escaping, w.clock) else h
       case Register(_, _) => h)
    case LoopTurn(outcome) => AfterTurn(p, h, outcome(id), w.clock)
    case _ => h
  }

  ghost function Happened(w: World, actions: seq<Action>, id: ProjectId, h: seq<Happening>): seq<Happening>
    requires Runnable(w, actions)
    decreases |actions|
  {
    if actions == [] then h
    else Happened(Next(w, actions[0]), actions[1..], id, HappensNext(w, actions[0], id, h))
  }

  ghost predicate Mirrored(p: Project, h: seq<Happening>) {
    if p.batch.None? then h == [] else Mirrors(p.batch.value, h)
  }

  lemma IngestMirrored(p: Project, h: seq<Happening>, record: Record, escaping: set<NativePath>, now: Time)
    requires Mirrored(p, h)
    ensures Mirrored(Ingest(p, record, escaping, now), h + RecordAdds(p, record, escaping, now))
  {
    var b := p.batch.GetOr(EMPTY_BATCH);
    NothingMirrored();
    assert h + [] == h;
    hide Mirrors, IngestPaths, MergeFull, BackoffDelay;
    if record.generation == p.generation {
      if record.backendError || record.signal.Full? {
        UnknownMirrored(b, h, now);
      } else if p.registration.Some? {
        ReportMirrored(b, h, p.registration.value.root, record.signal.paths, escaping, now);
      }
    }
  }

  lemma PollMirrored(p: Project, h: seq<Happening>, now: Time)
    requires Mirrored(p, h)
    ensures Mirrored(PollOverflow(p, now), h + if Flagged(p) then [Unknown(now)] else [])
  {
    NothingMirrored();
    assert h + [] == h;
    hide Mirrors, MergeFull;
    if Flagged(p) {
      UnknownMirrored(p.batch.GetOr(EMPTY_BATCH), h, now);
    }
  }

  lemma RetryMirrored(p: Project, h: seq<Happening>, outcome: Outcome, now: Time)
    requires Mirrored(p, h)
    ensures var refused := RetryIsDue(p, now) && outcome.installed && !outcome.fullAccepted;
            Mirrored(RetryDue(p, outcome, now), h + if refused then [Unsent(now)] else [])
  {
    NothingMirrored();
    assert h + [] == h;
    var b := p.batch.GetOr(EMPTY_BATCH);
    UnsentMirrored(b, h, now, b.(full := true, dirty := true, retryAfter := Some(now + MAX_FLUSH_WINDOW)));
    hide Mirrors, BackoffDelay;
  }

  /** `flushed` is the event called for, if it is time and there is one. */
  ghost predicate Sends(h: seq<Happening>, accepted: bool, now: Time, flushed: seq<SinkCall>) {
    if Due(h, now) && !CallsFor(h, None)
    then |flushed| == 1 && flushed[0].accepted == accepted && CallsFor(h, Some(flushed[0].signal))
    else flushed == []
  }

  lemma OneEvent(h: seq<Happening>, event: Option<Signal>)
    requires CallsFor(h, event)
    ensures CallsFor(h, None) <==> event == None
  {
    hide Untold, AllFiles, ReportsGit, MinimalOf, Increasing;
  }

  lemma FlushMirrored(p: Project, h: seq<Happening>, accepted: bool, now: Time) returns (flushed: seq<SinkCall>)
    requires Mirrored(p, h)
    ensures var after := if FlushIsDue(p, now) then Flush(p, accepted, now) else p;
            && after.calls == p.calls + flushed && Sends(h, accepted, now, flushed)
            && Mirrored(after, if flushed == [] then h else if accepted then [] else h + [Unsent(now)])
  {
    flushed := [];
    if p.batch.Some? {
      var b := p.batch.value;
      BatchSends(b, h, now);
      OneEvent(h, FlushSignal(b));
      assert b.dirty <==> h != [];
      if FlushIsDue(p, now) && FlushSignal(b).Some? {
        flushed := [SinkCall(FlushSignal(b).value, accepted)];
        UnsentMirrored(b, h, now, b.(full := true, paths := [], hasGit := false, retryAfter := Some(now + 2000)));
      }
    } else {
      assert !Due(h, now);
    }
    hide Mirrors, CallsFor, Due, FlushSignal;
  }

  /** All a turn does to the calls and to the batch. */
  lemma TurnMirrored(p: Project, h: seq<Happening>, outcome: Outcome, now: Time) returns (flushed: seq<SinkCall>)
    requires Mirrored(p, h)
    ensures Mirrored(Turn(p, outcome, now), AfterTurn(p, h, outcome, now))
    ensures Turn(p, outcome, now).calls == p.calls + Reinstalled(p, outcome, now) + flushed
    ensures Sends(BeforeFlush(p, h, outcome, now), outcome.flushAccepted, now, flushed)
  {
    hide Mirrored, RetryDue, PollOverflow, CallsFor, Due, Flush, FlushIsDue;
    var before := BeforeFlush(p, h, outcome, now);
    PollMirrored(p, h, now);
    var polled := PollOverflow(p, now);
    RetryMirrored(polled, h + if Flagged(p) then [Unknown(now)] else [], outcome, now);
    var retried := RetryDue(polled, outcome, now);
    RetryCalls(p, outcome, now);
    flushed := FlushMirrored(retried, before, outcome.flushAccepted, now);
  }

  /** The event that follows a watch installed again. */
  ghost function Reinstalled(p: Project, outcome: Outcome, now: Time): seq<SinkCall> {
    if p.retry.Some? && p.retry.value.nextRetry.Some? && p.retry.value.nextRetry.value <= now && outcome.installed
    then [SinkCall(AllChanged, outcome.fullAccepted)] else []
  }

  lemma RetryCalls(p: Project, outcome: Outcome, now: Time)
    ensures var polled := PollOverflow(p, now);
            && RetryIsDue(polled, now) == RetryIsDue(p, now)
            && RetryDue(polled, outcome, now).calls == p.calls + Reinstalled(p, outcome, now)
  {
    hide MergeFull, BackoffDelay;
  }

  /** In any run a batch is what happened since the last accepted flush. */
  lemma {:induction false} RunMirrored(w: World, actions: seq<Action>, id: ProjectId, h: seq<Happening>)
    requires Runnable(w, actions) && Mirrored(At(w, id).project, h)
    ensures Mirrored(At(Run(w, actions), id).project, Happened(w, actions, id, h))
    decreases |actions|
  {
    if actions != [] {
      StepMirrored(w, actions[0], id, h);
      hide HappensNext, Mirrored, Next, Enabled;
      RunMirrored(Next(w, actions[0]), actions[1..], id, HappensNext(w, actions[0], id, h));
    }
  }

  lemma {:induction false} StepMirrored(w: World, a: Action, id: ProjectId, h: seq<Happening>)
    requires Enabled(w, a) && Mirrored(At(w, id).project, h)
    ensures Mirrored(At(Next(w, a), id).project, HappensNext(w, a, id, h))
  {
    AtNext(w, a, id);
    var p := At(w, id).project;
    hide Mirrors, At, Next, Turn, Ingest, AfterTurn, RecordAdds;
    match a
    case LoopTurn(outcome) =>
      var flushed := TurnMirrored(p, h, outcome(id), w.clock);
    case Receive(escaping, installed) =>
      if w.queue[0].Event? && w.queue[0].record.project == id {
        IngestMirrored(p, h, w.queue[0].record, escaping, w.clock);
      }
    case _ =>
  }

  /** Whatever the run so far, the calls of a turn are exactly these: one telling
      everything after a watch is installed again, and the event that what happened
      since the last accepted flush calls for, when it is time. */
  lemma {:induction false} TurnTells(actions: seq<Action>, id: ProjectId, outcome: ProjectId -> Outcome) returns (flushed: seq<SinkCall>)
    requires Runnable(START, actions)
    ensures var w := Run(START, actions);
            var p := At(w, id).project;
            var h := BeforeFlush(p, Happened(START, actions, id, []), outcome(id), w.clock);
            && At(Next(w, LoopTurn(outcome)), id).project.calls ==
                 p.calls + Reinstalled(p, outcome(id), w.clock) + flushed
            && Sends(h, outcome(id).flushAccepted, w.clock, flushed)
  {
    var w := Run(START, actions);
    assert At(START, id).project == ABSENT;
    RunMirrored(START, actions, id, []);
    AtNext(w, LoopTurn(outcome), id);
    hide Run, Happened, Mirrored, Sends, Turn, Next, At;
    flushed := TurnMirrored(At(w, id).project, Happened(START, actions, id, []), outcome(id), w.clock);
  }

  /** An accepted event ends the batch and lowers the flag of the current callback,
      and no other; an event refused lowers none. */
  lemma AcceptedEventSettles(p: Project, outcome: Outcome, now: Time)
    ensures var after := FlushDue(p, outcome, now);
            if after.calls == p.calls || !outcome.flushAccepted then after.raised == p.raised
            else
              && after.batch == None && !Flagged(after)
              && forall g | g in p.raised :: g in after.raised || (Flagged(p) && g == p.registration.value.generation)
  {
    hide BatchDue, FlushSignal;
    assert p.calls + [] == p.calls;
  }

  /** No other step calls the sink. */
  lemma OthersTellNothing(w: World, a: Action, id: ProjectId)
    requires Enabled(w, a) && !a.LoopTurn?
    ensures At(Next(w, a), id).project.calls == At(w, id).project.calls
  {
    hide Next, At, Turn, BackoffDelay, MergeFull, IngestPaths, Settle, NextQueue;
    AtNext(w, a, id);
  }

  // ----- What that means

  lemma {:induction false} FilesOfAre(root: NativePath, paths: seq<NativePath>, escaping: set<NativePath>, p: Path)
    ensures p in FilesOf(root, paths, escaping) <==>
            exists path | path in paths :: OfFiles(root, path, escaping) && p == Relative(root, path)
  {
    hide OfFiles, Relative;
    if paths != [] {
      FilesOfAre(root, paths[1..], escaping, p);
      WithoutFirst(paths);
    }
  }

  ghost predicate ReportsFile(x: Happening, p: Path) {
    x.Reported? && exists path | path in x.paths :: OfFiles(x.root, path, x.escaping) && p == Relative(x.root, path)
  }

  lemma {:induction false} AllFilesAre(h: seq<Happening>, p: Path)
    ensures p in AllFiles(h) <==> exists x | x in h :: ReportsFile(x, p)
  {
    if h != [] {
      var before, last := h[..|h| - 1], h[|h| - 1];
      assert h == before + [last];
      AllFilesAre(before, p);
      FilesSnoc(before, last);
      if last.Reported? {
        FilesOfAre(last.root, last.paths, last.escaping, p);
      }
      assert ReportsFile(last, p) <==> last.Reported? && p in FilesOf(last.root, last.paths, last.escaping);
      hide AllFiles, FilesOf, ReportsFile;
    }
  }

  /** A listed path has the names of a reported one below the root. */
  lemma RelativeNames(root: NativePath, path: NativePath, escaping: set<NativePath>)
    requires OfFiles(root, path, escaping) && NativeNames(path)
    ensures Split(Relative(root, path), 47) == NamesBelow(root, path)
  {
    var names := NamesBelow(root, path);
    forall piece | piece in names
      ensures SLASH !in piece
    {
      var i :| 0 <= i < |names| && names[i] == piece;
      assert path[|root| + i] in path && GoodName(path[|root| + i]);
    }
    hide NamesBelow;
    SplitJoin(names, SLASH);
  }

  /** Only a project whose every report is of its `.git` gets the git event. */
  lemma GitChangedIff(h: seq<Happening>)
    ensures CallsFor(h, Some(GitChanged)) <==>
            && (forall x | x in h :: x.Reported? && forall path | path in x.paths :: OfGit(x.root, path))
            && exists x | x in h :: ReportsGit(x)
  {
    hide OfGit, Relative, OverCap, MinimalOf;
    GitIsNoFile();
    hide OfFiles;
    if CallsFor(h, Some(GitChanged)) {
      forall x, path | x in h && x.Reported? && path in x.paths
        ensures OfGit(x.root, path)
      {
        if OfFiles(x.root, path, x.escaping) {
          ReportedIsListed(h, x, path);
        }
        assert !Strange(x);
      }
    }
    if forall x | x in h :: x.Reported? && forall path | path in x.paths :: OfGit(x.root, path) {
      OnlyGit(h);
    }
  }

  lemma ReportedIsListed(h: seq<Happening>, x: Happening, path: NativePath)
    requires x in h && x.Reported? && path in x.paths && OfFiles(x.root, path, x.escaping)
    ensures Relative(x.root, path) in AllFiles(h)
  {
    AllFilesAre(h, Relative(x.root, path));
    hide OfFiles, AllFiles;
    assert ReportsFile(x, Relative(x.root, path));
  }

  lemma GitIsNoFile()
    ensures forall root, path, escaping :: OfFiles(root, path, escaping) ==> root < path && !OfGit(root, path)
  {
  }

  lemma OnlyGit(h: seq<Happening>)
    requires forall x | x in h :: x.Reported? && forall path | path in x.paths :: OfGit(x.root, path)
    ensures AllFiles(h) == [] && !Untold(h)
  {
    GitIsNoFile();
    hide OfGit, OfFiles, Relative, AllFiles;
    forall p
      ensures p !in AllFiles(h)
    {
      AllFilesAre(h, p);
    }
    NoElements(AllFiles(h));
    StaysWithinIff(AllFiles(h));
    hide OverCap;
  }

  /** What a callback reported is queued as it was, or said to be unknown, or its
      flag goes up; and it goes up for no other reason. */
  lemma ReportIsQueuedOrFlagged(w: World, id: ProjectId, generation: nat, event: NativeEvent)
    requires Enabled(w, Report(id, generation, event))
    ensures var next := Next(w, Report(id, generation, event));
            var flagged := |w.queue| >= 1024 || (event.Changed? && (event.rescan || |event.paths| > 256));
            && (forall q :: At(next, q).project.raised ==
                  At(w, q).project.raised + if q == id && flagged then {generation} else {})
            && (|w.queue| >= 1024 ==> next.queue == w.queue)
            && (|w.queue| < 1024 ==>
                  |next.queue| == |w.queue| + 1 && next.queue[..|w.queue|] == w.queue
                  && exists record :: next.queue[|w.queue|] == Event(record)
                       && record.project == id && record.generation == generation
                       && record.backendError == event.Failed?
                       && (event.Failed? || event.rescan ==> record.signal.Full?)
                       && (event.Changed? && !event.rescan ==>
                             && record.signal.Paths? && record.signal.paths <= event.paths
                             && (!flagged ==> record.signal.paths == event.paths)))
  {
    var a := Report(id, generation, event);
    var record := CallbackRecord(id, generation, event);
    assert |w.queue| < 1024 ==> NextQueue(w, a)[|w.queue|] == Event(record);
    forall q
      ensures At(Next(w, a), q) == NextTracked(w, a, q)
    {
      AtNext(w, a, q);
    }
    hide At;
  }
}
