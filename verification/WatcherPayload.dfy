/** What a payload says about the file system. */
module WatcherPayload {
  import opened Wrappers
  import opened Bytes
  import opened PathSets
  import opened WatcherModel
  import Utf8

  /** A name the file system could give: no separator inside. */
  predicate NativeNames(path: NativePath) {
    forall c | c in path :: c.Normal? ==> SLASH !in c.name
  }

  /** A path is ordinary exactly if it lies below the root with safe names only and
      does not start with `.git`. */
  lemma OrdinaryIff(root: NativePath, path: NativePath)
    ensures LexicalClass(root, path).Ordinary? <==>
            && root < path && (forall c | c in path[|root|..] :: SafeName(c))
            && path[|root|] != Normal(DOT_GIT)
  {
    if root < path {
      assert path[|root|..][0] == path[|root|] && path[|root|] in path[|root|..];
    }
    hide Names, SafeName;
  }

  const STATE: Bytes := [46, 115, 116, 97, 116, 101]

  /** The private `.state` directory of a project is watched like any other, and so
      is what lies below it, with the same exceptions. */
  lemma StateIsOrdinary(root: NativePath, below: NativePath)
    ensures LexicalClass(root, root + [Normal(STATE)] + below).Ordinary? <==> forall c | c in below :: SafeName(c)
  {
    var path := root + [Normal(STATE)] + below;
    OrdinaryIff(root, path);
    Utf8.AsciiValid(STATE);
    hide LexicalClass;
    assert path[..|root|] == root && path[|root|..] == [Normal(STATE)] + below;
    assert SafeName(Normal(STATE));
    hide SafeName;
  }

  /** The names below the root, for a path classified as ordinary. */
  lemma OrdinaryComponents(root: NativePath, path: NativePath)
    requires LexicalClass(root, path).Ordinary? && NativeNames(path)
    ensures root < path && forall c | c in path[|root|..] :: c.Normal?
    ensures Components(LexicalClass(root, path).path) == Names(path[|root|..])
  {
    var relative := path[|root|..];
    forall c | c in relative
      ensures c.Normal? && SLASH !in c.name
    {
      assert SafeName(c);
      assert c in path;
    }
    forall piece | piece in Names(relative)
      ensures SLASH !in piece
    {
      var i :| 0 <= i < |relative| && Names(relative)[i] == piece;
      assert relative[i] in relative;
    }
    SplitJoin(Names(relative), SLASH);
  }

  lemma {:induction false} NamesPrefix(a: NativePath, b: NativePath)
    requires forall c | c in a :: c.Normal?
    requires forall c | c in b :: c.Normal?
    ensures Names(a) <= Names(b) <==> a <= b
  {
    if a <= b {
      assert Names(a) == Names(b)[..|a|];
    }
    if Names(a) <= Names(b) {
      forall i | 0 <= i < |a|
        ensures a[i] == b[i]
      {
        assert a[i] in a && b[i] in b;
        assert Names(a)[i] == Names(b)[i];
      }
      assert a == b[..|a|];
    }
  }

  /** Between payload entries, "covers" is ancestry in the file system. */
  lemma CoveringIsAncestry(root: NativePath, a: NativePath, d: NativePath)
    requires LexicalClass(root, a).Ordinary? && LexicalClass(root, d).Ordinary?
    requires NativeNames(a) && NativeNames(d)
    ensures Covers(LexicalClass(root, a).path, LexicalClass(root, d).path) <==> a <= d
  {
    OrdinaryComponents(root, a);
    OrdinaryComponents(root, d);
    CoversIsComponentPrefix(LexicalClass(root, a).path, LexicalClass(root, d).path);
    NamesPrefix(a[|root|..], d[|root|..]);
    assert a == root + a[|root|..] && d == root + d[|root|..];
    if a[|root|..] <= d[|root|..] {
      assert d == a + d[|a|..];
    }
  }

  /** The relative paths of a record all of whose paths are ordinary. */
  function Relatives(root: NativePath, paths: seq<NativePath>): seq<Path>
    requires forall p | p in paths :: LexicalClass(root, p).Ordinary?
  {
    if paths == [] then [] else [LexicalClass(root, paths[0]).path] + Relatives(root, paths[1..])
  }

  lemma InsertedAllSnoc(paths: seq<Path>, before: seq<Path>, last: Path)
    ensures InsertedAll(paths, before + [last]) == Inserted(InsertedAll(paths, before), last)
  {
    hide Inserted;
    assert (before + [last])[..|before|] == before;
  }

  lemma {:induction false} InsertedAllCons(paths: seq<Path>, first: Path, rest: seq<Path>)
    ensures InsertedAll(paths, [first] + rest) == InsertedAll(Inserted(paths, first), rest)
  {
    if rest == [] {
      hide Inserted;
      assert [first] + rest == [] + [first];
      InsertedAllSnoc(paths, [], first);
    } else {
      hide Inserted, InsertedAll;
      var before, last := rest[..|rest| - 1], rest[|rest| - 1];
      InsertedAllCons(paths, first, before);
      SliceLast(rest, |rest|);
      assert rest[..|rest|] == rest;
      Associative([first], before, [last]);
      InsertedAllSnoc(paths, [first] + before, last);
      InsertedAllSnoc(Inserted(paths, first), before, last);
    }
  }

  /** Inserting `more` one by one never goes over the cap. */
  predicate StaysWithin(paths: seq<Path>, more: seq<Path>)
    decreases |more|
  {
    more == [] ||
    (|Inserted(paths, more[0])| <= MAX_PATHS_PER_BATCH && StaysWithin(Inserted(paths, more[0]), more[1..]))
  }

  /** All paths are ordinary and on the disk of the project. */
  predicate AllOrdinary(root: NativePath, paths: seq<NativePath>, escaping: set<NativePath>) {
    forall p | p in paths :: LexicalClass(root, p).Ordinary? && p !in escaping
  }

  lemma {:induction false} AbsorbOrdinary(b: Batch, root: NativePath, paths: seq<NativePath>,
                                          escaping: set<NativePath>, now: Time)
    requires AllOrdinary(root, paths, escaping)
    ensures var relatives := Relatives(root, paths);
            var (absorbed, mergedFull) := Absorb(b, root, paths, escaping, now);
            if StaysWithin(b.paths, relatives)
            then absorbed == b.(paths := InsertedAll(b.paths, relatives)) && !mergedFull
            else absorbed.full && mergedFull
    decreases |paths|
  {
    if paths != [] {
      var first := LexicalClass(root, paths[0]).path;
      var grown := b.(paths := Inserted(b.paths, first));
      assert paths[0] in paths;
      assert AllOrdinary(root, paths[1..], escaping);
      hide LexicalClass;
      var rest := Relatives(root, paths[1..]);
      assert Relatives(root, paths) == [first] + rest && ([first] + rest)[1..] == rest;
      AbsorbOrdinary(grown, root, paths[1..], escaping, now);
      InsertedAllCons(b.paths, first, rest);
    }
  }

  lemma {:induction false} FullStays(b: Batch, root: NativePath, paths: seq<NativePath>,
                                     escaping: set<NativePath>, now: Time)
    requires b.full
    ensures Absorb(b, root, paths, escaping, now).0.full
    decreases |paths|
  {
    if paths != [] {
      hide Classify;
      match Classify(root, paths[0], paths[0] !in escaping)
      case Ordinary(relative) =>
        FullStays(b.(paths := Inserted(b.paths, relative)), root, paths[1..], escaping, now);
      case GitOnly => FullStays(b.(hasGit := true), root, paths[1..], escaping, now);
      case Full =>
    }
  }

  /** A record as the worker receives it. */
  datatype Arrival = Arrival(paths: seq<NativePath>, escaping: set<NativePath>, at: Time)

  function Accumulated(b: Batch, root: NativePath, arrivals: seq<Arrival>): Batch
    decreases |arrivals|
  {
    if arrivals == [] then b
    else
      var a := arrivals[0];
      Accumulated(IngestPaths(b, root, a.paths, a.escaping, a.at), root, arrivals[1..])
  }

  predicate OrdinaryArrivals(root: NativePath, arrivals: seq<Arrival>) {
    forall a | a in arrivals :: AllOrdinary(root, a.paths, a.escaping)
  }

  /** The relative paths of all arrivals, in order. */
  function AllRelatives(root: NativePath, arrivals: seq<Arrival>): seq<Path>
    requires OrdinaryArrivals(root, arrivals)
  {
    if arrivals == [] then []
    else
      assert arrivals[0] in arrivals;
      Relatives(root, arrivals[0].paths) + AllRelatives(root, arrivals[1..])
  }

  lemma {:induction false} InsertedAllConcat(paths: seq<Path>, a: seq<Path>, b: seq<Path>)
    ensures InsertedAll(paths, a + b) == InsertedAll(InsertedAll(paths, a), b)
    ensures StaysWithin(paths, a + b) <==> StaysWithin(paths, a) && StaysWithin(InsertedAll(paths, a), b)
    decreases |a|
  {
    if a == [] {
      assert a + b == b;
    } else {
      hide Inserted;
      var first, rest := a[0], a[1..];
      WithoutFirst(a);
      Associative([first], rest, b);
      assert (a + b)[0] == first && (a + b)[1..] == rest + b;
      InsertedAllConcat(Inserted(paths, first), rest, b);
      InsertedAllCons(paths, first, rest);
      InsertedAllCons(paths, first, rest + b);
    }
  }

  lemma {:induction false} FullAccumulates(b: Batch, root: NativePath, arrivals: seq<Arrival>)
    requires b.full
    ensures Accumulated(b, root, arrivals).full
    decreases |arrivals|
  {
    if arrivals != [] {
      var a := arrivals[0];
      FullStays(b, root, a.paths, a.escaping, a.at);
      hide Absorb;
      FullAccumulates(IngestPaths(b, root, a.paths, a.escaping, a.at), root, arrivals[1..]);
    }
  }

  lemma {:induction false} ArrivalsAccumulate(b: Batch, root: NativePath, arrivals: seq<Arrival>)
    requires OrdinaryArrivals(root, arrivals) && !b.full
    ensures var relatives := AllRelatives(root, arrivals);
            var after := Accumulated(b, root, arrivals);
            if StaysWithin(b.paths, relatives) then !after.full && after.paths == InsertedAll(b.paths, relatives)
            else after.full
    decreases |arrivals|
  {
    if arrivals != [] {
      var a := arrivals[0];
      assert a in arrivals && OrdinaryArrivals(root, arrivals[1..]);
      AbsorbOrdinary(b, root, a.paths, a.escaping, a.at);
      var relatives := Relatives(root, a.paths);
      InsertedAllConcat(b.paths, relatives, AllRelatives(root, arrivals[1..]));
      hide Absorb, StaysWithin, AllOrdinary, OrdinaryArrivals;
      var next := IngestPaths(b, root, a.paths, a.escaping, a.at);
      if StaysWithin(b.paths, relatives) {
        ArrivalsAccumulate(next, root, arrivals[1..]);
      } else {
        FullAccumulates(next, root, arrivals[1..]);
      }
    }
  }

  /** Any records of ordinary paths: their batch tells everything once the paths
      went over the cap, and until then lists exactly the minimal ones, sorted,
      however they came in. */
  lemma AccumulatedPayload(root: NativePath, arrivals: seq<Arrival>)
    requires OrdinaryArrivals(root, arrivals) && AllRelatives(root, arrivals) != []
    ensures var relatives := AllRelatives(root, arrivals);
            var signal := FlushSignal(Accumulated(EMPTY_BATCH, root, arrivals));
            if StaysWithin([], relatives) then
              signal.Some? && signal.value.FilesChanged? && Increasing(signal.value.paths)
              && forall p :: p in signal.value.paths <==> Minimal(SetOf(relatives), p)
            else signal == Some(AllChanged)
  {
    var relatives := AllRelatives(root, arrivals);
    ArrivalsAccumulate(EMPTY_BATCH, root, arrivals);
    InsertedAllIsFrontier(relatives);
    hide Accumulated, StaysWithin, Minimal, AllRelatives, OrdinaryArrivals;
    var kept := InsertedAll([], relatives);
    assert kept != [] by {
      assert relatives[0] in SetOf(relatives);
      var p :| p in kept && Covers(p, relatives[0]);
    }
  }
}
