/** What a file search answers, in terms of what the directories list and nothing
    of how the search goes about it. */
module SearchAnswers {
  import opened Wrappers
  import opened Bytes
  import opened PathSets
  import opened TopHits
  import opened FileSearch
  import opened WorkspacePaths

  // ----- Which files there are

  /** A directory lists a file or directory a search may show. */
  ghost predicate Lists(p: Project, directory: Bytes, path: Bytes, isDirectory: bool) {
    && !(p.inGit && p.ignored(path))
    && p.list(directory).Some?
    && exists i | 0 <= i < |p.list(directory).value| :: Shows(p.list(directory).value[i], directory, path, isDirectory)
  }

  ghost predicate Shows(entry: DirEntry, directory: Bytes, path: Bytes, isDirectory: bool) {
    && entry.Entry? && entry.name.Some? && entry.name.value != [] && entry.name.value[0] != 46
    && path == (if directory == [] then entry.name.value else directory + [47] + entry.name.value)
    && if isDirectory then entry.kind == Some(Directory) && !entry.nestedRepository && !Generated(entry.name.value)
       else entry.kind == Some(File)
  }

  const BUILD_PRODUCTS: seq<string> :=
    [".git", ".next", ".pytest_cache", ".venv", "__pycache__", "build", "coverage", "dist", "node_modules", "target"]

  ghost predicate Generated(name: Bytes) {
    exists product | product in BUILD_PRODUCTS :: name == Ascii(product)
  }

  ghost predicate Directories(p: Project, depth: nat, path: Bytes) {
    if depth == 0 then path == []
    else exists parent :: Directories(p, depth - 1, parent) && Lists(p, parent, path, true)
  }

  /** A file `depth` directories below the root. */
  ghost predicate HasFile(p: Project, depth: nat, path: Bytes) {
    exists parent :: Directories(p, depth, parent) && Lists(p, parent, path, false)
  }

  /** The hit is its file's: every word occurs in its lowercase path, and it has
      the file's size and time. */
  ghost predicate Answers(p: Project, words: seq<Bytes>, hit: FileHit) {
    && (forall i | 0 <= i < |words| :: Within(p.lowercase(hit.path), words[i]))
    && p.metadata(hit.path) == Some(Metadata(true, hit.modified, hit.size))
  }

  lemma GeneratedAre(name: Bytes)
    ensures GeneratedName(name) <==> Generated(name)
  {
    hide Ascii;
    assert GENERATED == BUILD_PRODUCTS;
  }

  /** An entry is admitted exactly as what it shows. */
  lemma AdmittedIffShown(entry: DirEntry, directory: Bytes, path: Bytes, isDirectory: bool)
    requires entry.Entry? && entry.name.Some? ==> entry.name.value != []
    ensures Admit(directory, entry) == Some(Found(path, isDirectory)) <==> Shows(entry, directory, path, isDirectory)
  {
    if entry.Entry? && entry.name.Some? {
      GeneratedAre(entry.name.value);
    }
    hide GeneratedName, Generated;
  }

  lemma OffersIffLists(p: Project, directory: Bytes, path: Bytes, isDirectory: bool)
    requires WellNamed(p)
    ensures Offers(p, directory, path, isDirectory) <==> Lists(p, directory, path, isDirectory)
  {
    hide Admit, Shows;
    var listing := Listing(p, directory);
    forall i | 0 <= i < |listing|
      ensures Admit(directory, listing[i]) == Some(Found(path, isDirectory))
         <==> Shows(listing[i], directory, path, isDirectory)
    {
      AdmittedIffShown(listing[i], directory, path, isDirectory);
    }
  }

  lemma {:induction false} DirectoriesAgree(p: Project, depth: nat, path: Bytes)
    requires WellNamed(p)
    ensures DirectoryAt(p, depth, path) <==> Directories(p, depth, path)
  {
    hide WellNamed, Offers, Lists;
    if depth > 0 {
      forall parent
        ensures DirectoryAt(p, depth - 1, parent) <==> Directories(p, depth - 1, parent)
        ensures Offers(p, parent, path, true) <==> Lists(p, parent, path, true)
      {
        DirectoriesAgree(p, depth - 1, parent);
        OffersIffLists(p, parent, path, true);
      }
    }
  }

  lemma FilesAgree(p: Project, depth: nat, path: Bytes)
    requires WellNamed(p)
    ensures FileAt(p, depth, path) <==> HasFile(p, depth, path)
  {
    hide WellNamed, Offers, Lists, DirectoryAt, Directories;
    forall parent
      ensures DirectoryAt(p, depth, parent) <==> Directories(p, depth, parent)
      ensures Offers(p, parent, path, false) <==> Lists(p, parent, path, false)
    {
      DirectoriesAgree(p, depth, parent);
      OffersIffLists(p, parent, path, false);
    }
  }

  lemma MatchIffAnswers(p: Project, words: seq<Bytes>, hit: FileHit)
    ensures Match(p, words, hit.path) == Some(hit) <==> Answers(p, words, hit)
  {
    hide Contains, Within;
    forall i | 0 <= i < |words|
      ensures Contains(p.lowercase(hit.path), words[i]) <==> Within(p.lowercase(hit.path), words[i])
    {
      OccursIffWithin(p.lowercase(hit.path), words[i]);
    }
    assert WordsOccur(p, words, hit.path) <==>
           (forall i | 0 <= i < |words| :: Within(p.lowercase(hit.path), words[i]));
    hide WordsOccur;
  }

  /** A search returns only files that are there and answer it; one that does not
      say it was truncated returns every such file, at any depth. */
  lemma {:induction false} SearchAnswersFiles(p: Project, words: seq<Bytes>, budget: nat, cap: nat, hit: FileHit)
    requires WellNamed(p)
    ensures var r := ResultOf(Walk(p, words, [[]], 0, budget), cap);
            && (hit in r.hits ==> Answers(p, words, hit) && exists depth :: depth < 16 && HasFile(p, depth, hit.path))
            && (!r.truncated && Answers(p, words, hit) && (exists depth :: HasFile(p, depth, hit.path)) ==> hit in r.hits)
  {
    hide Walk, Match, Answers, FileAt, HasFile, WellNamed, Sorted;
    SearchFinds(p, words, budget, cap, hit);
    MatchIffAnswers(p, words, hit);
    if hit in ResultOf(Walk(p, words, [[]], 0, budget), cap).hits {
      RootIsLevel(p);
      TopIsOfAll(Walk(p, words, [[]], 0, budget).matches, cap, hit);
      hide IsLevel, ResultOf;
      var depth := WalkMeetsOnlyMatches(p, words, [[]], 0, budget, hit);
    }
    hide ResultOf;
    forall depth
      ensures FileAt(p, depth, hit.path) <==> HasFile(p, depth, hit.path)
    {
      FilesAgree(p, depth, hit.path);
    }
  }

  // ----- In which order

  /** `a` was modified later, or at the same time and its path comes first. */
  ghost predicate RanksBefore(a: FileHit, b: FileHit) {
    || (a.modified.Some? && (b.modified.None? || a.modified.value > b.modified.value))
    || (a.modified == b.modified && (a.path == b.path || PathBefore(a.path, b.path)))
  }

  /** The byte order of Rust strings: a proper prefix, or the first difference. */
  ghost predicate PathBefore(a: Bytes, b: Bytes) {
    exists i | 0 <= i <= |a| && i < |b| :: a[..i] == b[..i] && (i == |a| || a[i] < b[i])
  }

  lemma {:induction false} LessIffBefore(a: Bytes, b: Bytes)
    ensures Less(a, b) <==> PathBefore(a, b)
  {
    if a != [] && b != [] {
      LessIffBefore(a[1..], b[1..]);
      if a[0] == b[0] {
        BeforeBelow(a, b);
      } else if a[0] < b[0] {
        assert a[..0] == b[..0];
      } else if PathBefore(a, b) {
        DifferentStarts(a, b);
      }
    } else if b != [] {
      assert a[..0] == b[..0];
    }
  }

  lemma DifferentStarts(a: Bytes, b: Bytes)
    requires a != [] && PathBefore(a, b)
    ensures a[0] <= b[0]
  {
    var i :| 0 <= i <= |a| && i < |b| && a[..i] == b[..i] && (i == |a| || a[i] < b[i]);
    if i > 0 {
      assert a[0] == a[..i][0] == b[..i][0] == b[0];
    }
  }

  lemma BeforeBelow(a: Bytes, b: Bytes)
    requires a != [] && b != [] && a[0] == b[0]
    ensures PathBefore(a, b) <==> PathBefore(a[1..], b[1..])
  {
    if PathBefore(a, b) {
      BelowIsBefore(a, b);
    }
    if PathBefore(a[1..], b[1..]) {
      AboveIsBefore(a, b);
    }
    hide PathBefore;
  }

  lemma BelowIsBefore(a: Bytes, b: Bytes)
    requires a != [] && b != [] && a[0] == b[0] && PathBefore(a, b)
    ensures PathBefore(a[1..], b[1..])
  {
    var i :| 0 <= i <= |a| && i < |b| && a[..i] == b[..i] && (i == |a| || a[i] < b[i]);
    assert i > 0;
    SliceTake(a, 1, |a|, i - 1);
    SliceTake(b, 1, |b|, i - 1);
    assert a[1..i] == a[..i][1..] == b[..i][1..] == b[1..i];
    assert a[1..|a|] == a[1..] && b[1..|b|] == b[1..];
    assert a[1..][..i - 1] == b[1..][..i - 1];
  }

  lemma AboveIsBefore(a: Bytes, b: Bytes)
    requires a != [] && b != [] && a[0] == b[0] && PathBefore(a[1..], b[1..])
    ensures PathBefore(a, b)
  {
    var x, y := a[1..], b[1..];
    var i :| 0 <= i <= |x| && i < |y| && x[..i] == y[..i] && (i == |x| || x[i] < y[i]);
    WithoutFirst(a);
    WithoutFirst(b);
    ConsTake(a[0], x, i);
    ConsTake(b[0], y, i);
  }

  lemma BeforeRanks(a: FileHit, b: FileHit)
    requires Before(a, b)
    ensures RanksBefore(a, b)
  {
    LessIffBefore(a.path, b.path);
    hide Less, PathBefore;
  }

  lemma {:induction false} SortedRanks(matches: seq<FileHit>)
    ensures forall i, j | 0 <= i < j < |Sorted(matches)| :: RanksBefore(Sorted(matches)[i], Sorted(matches)[j])
  {
    var all := Sorted(matches);
    SortedIsOrdered(matches);
    hide Sorted, RanksBefore, Before;
    forall i, j | 0 <= i < j < |all|
      ensures RanksBefore(all[i], all[j])
    {
      BeforeRanks(all[i], all[j]);
    }
  }

  lemma LeftOutRanksAfter(matches: seq<FileHit>, cap: nat, left: FileHit, i: nat)
    requires left in matches && left !in Top(Sorted(matches), cap) && i < |Top(Sorted(matches), cap)|
    ensures |Top(Sorted(matches), cap)| == cap && RanksBefore(Top(Sorted(matches), cap)[i], left)
  {
    SortedRanks(matches);
    var k := PlaceOf(matches, left);
    hide Sorted, RanksBefore;
    var all := Sorted(matches);
    if k < cap {
      FrontIsTop(all, cap, k);
    }
  }

  lemma FrontIsTop(sorted: seq<FileHit>, cap: nat, k: nat)
    requires k < |sorted| && k < cap
    ensures sorted[k] in Top(sorted, cap)
  {
    assert Top(sorted, cap)[k] == sorted[k];
  }

  /** The hits come in rank order, no more than the cap. */
  lemma {:induction false} HitsAreTheFirst(p: Project, words: seq<Bytes>, budget: nat, cap: nat)
    ensures var r := ResultOf(Walk(p, words, [[]], 0, budget), cap);
            && (forall i, j | 0 <= i < j < |r.hits| :: RanksBefore(r.hits[i], r.hits[j]))
            && |r.hits| <= cap && r.visited <= budget
  {
    var walked := Walk(p, words, [[]], 0, budget);
    VisitsWithinBudget(p, words, [[]], 0, budget);
    SortedRanks(walked.matches);
    hide Walk, RanksBefore, Sorted;
  }

  /** If the walk ended and still a match was left out, there are as many hits as
      the cap, and each ranks before it. */
  lemma {:induction false} LeftOutRankBelow(p: Project, words: seq<Bytes>, budget: nat, cap: nat, left: FileHit, depth: nat, i: nat)
    requires WellNamed(p) && Walk(p, words, [[]], 0, budget).complete
    requires Answers(p, words, left) && HasFile(p, depth, left.path)
    requires var r := ResultOf(Walk(p, words, [[]], 0, budget), cap); left !in r.hits && i < |r.hits|
    ensures var r := ResultOf(Walk(p, words, [[]], 0, budget), cap);
            |r.hits| == cap && RanksBefore(r.hits[i], left)
  {
    var walked := Walk(p, words, [[]], 0, budget);
    RootIsLevel(p);
    hide Walk, RanksBefore, Sorted, Answers, HasFile, WellNamed, Top, IsLevel, FileAt, Match;
    FilesAgree(p, depth, left.path);
    MatchIffAnswers(p, words, left);
    CompleteWalkMeets(p, words, [[]], 0, budget, depth, left);
    LeftOutRanksAfter(walked.matches, cap, left, i);
  }

  lemma {:induction false} PlaceOf(matches: seq<FileHit>, hit: FileHit) returns (k: nat)
    requires hit in matches
    ensures k < |Sorted(matches)| && Sorted(matches)[k] == hit
  {
    assert hit in multiset(matches);
    assert hit in multiset(Sorted(matches));
    assert hit in Sorted(matches);
    k :| 0 <= k < |Sorted(matches)| && Sorted(matches)[k] == hit;
  }

  // ----- When nothing is left out

  /** A walk that ended visits nothing more with more budget. */
  lemma {:induction false} MoreBudgetSameWalk(p: Project, words: seq<Bytes>, level: seq<Bytes>, depth: nat,
                                              room: nat, more: nat)
    requires depth <= FILE_SCAN_DEPTH && Walk(p, words, level, depth, room).complete && more >= room
    ensures Walk(p, words, level, depth, more) == Walk(p, words, level, depth, room)
    decreases FILE_SCAN_DEPTH - depth
  {
    hide StepOf;
    if level != [] && depth < FILE_SCAN_DEPTH {
      var step := StepOf(p, words, level, room);
      MoreBudgetSameStep(p, words, level, room, more);
      MoreBudgetSameWalk(p, words, step.next.value, depth + 1, room - step.visited, more - step.visited);
    }
  }

  lemma MoreBudgetSameStep(p: Project, words: seq<Bytes>, level: seq<Bytes>, room: nat, more: nat)
    requires StepOf(p, words, level, room).next.Some? && more >= room
    ensures StepOf(p, words, level, more) == StepOf(p, words, level, room)
  {
    hide Slots, Admitted, Matches, FileSearch.Directories, Paths;
  }

  /** In a tree of at most as many levels as a search descends, of which git tells
      all it is asked, some budget is enough, and then so is every larger one. */
  lemma {:induction false} SomeBudgetCompletes(p: Project, words: seq<Bytes>, level: seq<Bytes>, depth: nat)
    returns (enough: nat)
    requires depth <= FILE_SCAN_DEPTH && IsLevel(p, level, depth)
    requires forall d :: !DirectoryAt(p, FILE_SCAN_DEPTH, d)
    requires forall batch :: p.answers(batch)
    ensures Walk(p, words, level, depth, enough).complete
    decreases FILE_SCAN_DEPTH - depth
  {
    hide DirectoryAt, Slots, Admitted, Matches, FileSearch.Directories, Paths;
    enough := 0;
    if level != [] && depth < FILE_SCAN_DEPTH {
      var slots := Slots(p, level);
      NextLevel(p, level, depth);
      var rest := SomeBudgetCompletes(p, words, FileSearch.Directories(p, Admitted(slots)), depth + 1);
      enough := |slots| + rest;
    } else if depth == FILE_SCAN_DEPTH {
      NoElements(level);
    }
  }

  /** So a search says it was truncated only for a reason: its budget, a tree too
      deep, an answer git owes, or more matches than the cap. */
  lemma {:induction false} NotTruncatedForNothing(p: Project, words: seq<Bytes>) returns (enough: nat)
    requires WellNamed(p) && forall batch :: p.answers(batch)
    requires forall d :: !Directories(p, 16, d)
    ensures forall budget: nat, cap: nat | budget >= enough ::
              var walked := Walk(p, words, [[]], 0, budget);
              !ResultOf(walked, cap).truncated <==> |walked.matches| <= cap
  {
    forall d
      ensures !DirectoryAt(p, FILE_SCAN_DEPTH, d)
    {
      DirectoriesAgree(p, FILE_SCAN_DEPTH, d);
    }
    RootIsLevel(p);
    hide Walk, DirectoryAt, Directories, IsLevel;
    enough := SomeBudgetCompletes(p, words, [[]], 0);
    forall budget: nat | budget >= enough
      ensures Walk(p, words, [[]], 0, budget).complete
    {
      MoreBudgetSameWalk(p, words, [[]], 0, enough, budget);
    }
  }
}
