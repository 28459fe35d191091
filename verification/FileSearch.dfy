/** Searching the files of a project: a walk level by level, within a budget of
    directory entries, that keeps the best matches. The file system and git are
    parameters and do not change during a search. */
module FileSearch {
  import opened Wrappers
  import opened Bytes
  import opened TopHits
  import opened WorkspacePaths

  const FILE_SCAN_DEPTH := 16
  const DOT: byte := 46

  datatype Kind = Directory | File | Symlink | Other

  /** An entry that could not be read, or what was read of it: its name if it is
      UTF-8, its kind, and whether there is a `.git` inside. */
  datatype DirEntry = Unreadable | Entry(name: Option<Bytes>, kind: Option<Kind>, nestedRepository: bool)

  datatype Metadata = Metadata(isFile: bool, modified: Option<nat>, size: nat)

  /** Directories list their entries, or cannot be opened. For each batch of
      paths git answers or fails; what it answers of a path does not depend on
      the rest of the batch. */
  datatype Project = Project(
    list: Bytes -> Option<seq<DirEntry>>,
    inGit: bool,
    ignored: Bytes -> bool,
    answers: seq<Bytes> -> bool,
    metadata: Bytes -> Option<Metadata>,
    lowercase: Bytes -> Bytes)

  function Child(directory: Bytes, name: Bytes): Bytes {
    if directory == [] then name else directory + [SLASH] + name
  }

  datatype Found = Found(path: Bytes, isDirectory: bool)

  /** What an entry of a listing stands for, if the search looks at it at all. */
  function Admit(directory: Bytes, entry: DirEntry): Option<Found> {
    match entry
    case Unreadable => None
    case Entry(name, kind, nested) =>
      if name.None? || (name.value != [] && name.value[0] == DOT) || kind.None? then None
      else
        match kind.value
        case Directory =>
          if GeneratedName(name.value) || nested then None else Some(Found(Child(directory, name.value), true))
        case File => Some(Found(Child(directory, name.value), false))
        case _ => None
  }

  predicate WordsOccur(p: Project, words: seq<Bytes>, path: Bytes) {
    forall i | 0 <= i < |words| :: Contains(p.lowercase(path), words[i])
  }

  predicate Hidden(p: Project, path: Bytes) {
    p.inGit && p.ignored(path)
  }

  /** The hit a file is, if it matches. */
  function Match(p: Project, words: seq<Bytes>, path: Bytes): Option<FileHit> {
    if !WordsOccur(p, words, path) then None
    else
      match p.metadata(path)
      case None => None
      case Some(m) => if m.isFile then Some(FileHit(path, m.size, m.modified)) else None
  }

  // ----- The walk

  /** One directory entry to visit. */
  datatype Slot = Slot(directory: Bytes, entry: DirEntry)

  function SlotsOf(directory: Bytes, entries: seq<DirEntry>): (slots: seq<Slot>)
    ensures |slots| == |entries|
    ensures forall i | 0 <= i < |entries| :: slots[i] == Slot(directory, entries[i])
  {
    if entries == [] then []
    else
      var last := |entries| - 1;
      SlotsOf(directory, entries[..last]) + [Slot(directory, entries[last])]
  }

  function Listing(p: Project, directory: Bytes): seq<DirEntry> {
    p.list(directory).GetOr([])
  }

  /** Everything the directories of a level list, in order. */
  function Slots(p: Project, level: seq<Bytes>): seq<Slot> {
    if level == [] then []
    else Slots(p, level[..|level| - 1]) + SlotsOf(level[|level| - 1], Listing(p, level[|level| - 1]))
  }

  function Admitted(slots: seq<Slot>): seq<Found> {
    if slots == [] then []
    else
      var last := |slots| - 1;
      var found := Admit(slots[last].directory, slots[last].entry);
      Admitted(slots[..last]) + if found.Some? then [found.value] else []
  }

  function Paths(entries: seq<Found>): (paths: seq<Bytes>)
    ensures |paths| == |entries|
  {
    if entries == [] then [] else [entries[0].path] + Paths(entries[1..])
  }

  function Directories(p: Project, entries: seq<Found>): seq<Bytes> {
    if entries == [] then []
    else
      var last := |entries| - 1;
      var e := entries[last];
      Directories(p, entries[..last]) + if e.isDirectory && !Hidden(p, e.path) then [e.path] else []
  }

  function Matches(p: Project, words: seq<Bytes>, entries: seq<Found>): seq<FileHit> {
    if entries == [] then []
    else
      var last := |entries| - 1;
      var e := entries[last];
      Matches(p, words, entries[..last]) +
        if e.isDirectory || Hidden(p, e.path) || Match(p, words, e.path).None? then []
        else [Match(p, words, e.path).value]
  }

  /** The matches of a walk in the order met, how many entries it visited, and
      whether it got to the end. */
  datatype Walked = Walked(matches: seq<FileHit>, visited: nat, complete: bool)

  function Visited(slots: seq<Slot>, room: nat): seq<Slot> {
    if |slots| <= room then slots else slots[..room]
  }

  /** The matches of one level, how many entries were visited, and the next
      level, if the search goes on to it. */
  datatype Step = Step(found: seq<FileHit>, visited: nat, next: Option<seq<Bytes>>)

  function StepOf(p: Project, words: seq<Bytes>, level: seq<Bytes>, room: nat): (step: Step)
    ensures step.visited <= room
  {
    var slots := Slots(p, level);
    var visited := Visited(slots, room);
    var entries := Admitted(visited);
    if entries != [] && p.inGit && !p.answers(Paths(entries)) then Step([], |visited|, None)
    else
      Step(Matches(p, words, entries), |visited|,
           if |slots| > room then None else Some(Directories(p, entries)))
  }

  function Walk(p: Project, words: seq<Bytes>, level: seq<Bytes>, depth: nat, room: nat): Walked
    requires depth <= FILE_SCAN_DEPTH
    decreases FILE_SCAN_DEPTH - depth
  {
    if level == [] then Walked([], 0, true)
    else if depth >= FILE_SCAN_DEPTH then Walked([], 0, false)
    else
      var step := StepOf(p, words, level, room);
      if step.next.None? then Walked(step.found, step.visited, false)
      else
        Onto(step.found, step.visited, Walk(p, words, step.next.value, depth + 1, room - step.visited))
  }

  function Onto(found: seq<FileHit>, visited: nat, below: Walked): Walked {
    Walked(found + below.matches, visited + below.visited, below.complete)
  }

  lemma OntoOnto(all: seq<FileHit>, visited: nat, step: Step, below: Walked)
    ensures Onto(all, visited, Onto(step.found, step.visited, below))
         == Onto(all + step.found, visited + step.visited, below)
  {
  }

  lemma OntoNothing(all: seq<FileHit>, visited: nat, complete: bool)
    ensures Onto(all, visited, Walked([], 0, complete)) == Walked(all, visited, complete)
  {
  }

  /** One more level of a walk under way. */
  lemma WalkOn(p: Project, words: seq<Bytes>, level: seq<Bytes>, depth: nat, room: nat, all: seq<FileHit>, visited: nat)
    requires level != [] && depth < FILE_SCAN_DEPTH
    ensures var step := StepOf(p, words, level, room);
            Onto(all, visited, Walk(p, words, level, depth, room)) ==
              if step.next.None? then Walked(all + step.found, visited + step.visited, false)
              else Onto(all + step.found, visited + step.visited,
                        Walk(p, words, step.next.value, depth + 1, room - step.visited))
  {
    hide StepOf;
    var step := StepOf(p, words, level, room);
    if step.next.Some? {
      OntoOnto(all, visited, step, Walk(p, words, step.next.value, depth + 1, room - step.visited));
    }
  }

  /** Where a walk under way ends. */
  lemma WalkEnds(p: Project, words: seq<Bytes>, level: seq<Bytes>, depth: nat, room: nat, all: seq<FileHit>, visited: nat)
    requires depth <= FILE_SCAN_DEPTH && (level == [] || depth == FILE_SCAN_DEPTH)
    ensures Onto(all, visited, Walk(p, words, level, depth, room)) == Walked(all, visited, level == [])
  {
    OntoNothing(all, visited, level == []);
  }

  // ----- The search

  /** Visits the entries of one directory until there is no budget left. */
  method VisitDirectory(directory: Bytes, listing: seq<DirEntry>, room: nat)
    returns (entries: seq<Found>, visited: nat, exhausted: bool)
    ensures var own := Visited(SlotsOf(directory, listing), room);
            entries == Admitted(own) && visited == |own| && (exhausted <==> |listing| > room)
  {
    hide Admit;
    entries, visited, exhausted := [], 0, false;
    ghost var own := SlotsOf(directory, listing);
    for i := 0 to |listing|
      invariant visited == i <= room
      invariant entries == Admitted(own[..i])
    {
      if visited >= room {
        return entries, visited, true;
      }
      visited := visited + 1;
      SliceLast(own, i + 1);
      AdmittedSnoc(own[..i], own[i]);
      var found := Admit(directory, listing[i]);
      if found.Some? {
        entries := entries + [found.value];
      }
    }
    assert own[..|listing|] == own;
  }

  /** Visits the entries of one level until there is no budget left. */
  method VisitLevel(p: Project, level: seq<Bytes>, room: nat)
    returns (entries: seq<Found>, visited: nat, exhausted: bool)
    ensures var slots := Slots(p, level);
            entries == Admitted(Visited(slots, room)) && visited == |Visited(slots, room)|
            && (exhausted <==> |slots| > room)
  {
    entries, visited, exhausted := [], 0, false;
    NoSlots(p, level[..0]);
    hide Admitted, Visited, SlotsOf, Slots, Listing;
    for d := 0 to |level|
      invariant visited == |Slots(p, level[..d])| <= room
      invariant entries == Admitted(Slots(p, level[..d]))
    {
      ghost var before, own := Slots(p, level[..d]), SlotsOf(level[d], Listing(p, level[d]));
      SlotsSnoc(p, level, d);
      var listing := p.list(level[d]);
      if listing.Some? {
        assert listing.value == Listing(p, level[d]) by {
          ListingIs(p, level[d]);
        }
        var more, seen;
        more, seen, exhausted := VisitDirectory(level[d], listing.value, room - visited);
        VisitedConcat(before, own, room);
        AdmittedConcat(before, Visited(own, room - visited));
        entries := entries + more;
        visited := visited + seen;
        if exhausted {
          SlotsPrefix(p, level, d + 1);
          VisitedPrefix(before + own, Slots(p, level), room);
          return;
        }
        VisitedWhole(before + own, room);
      } else {
        NothingListed(p, level[d], before);
      }
    }
    assert level[..|level|] == level;
    VisitedWhole(Slots(p, level), room);
  }

  lemma NoSlots(p: Project, none: seq<Bytes>)
    requires none == []
    ensures Slots(p, none) == [] && Admitted(Slots(p, none)) == []
  {
  }

  lemma ListingIs(p: Project, directory: Bytes)
    ensures p.list(directory).Some? ==> Listing(p, directory) == p.list(directory).value
  {
  }

  lemma NothingListed(p: Project, directory: Bytes, before: seq<Slot>)
    requires p.list(directory).None?
    ensures before + SlotsOf(directory, Listing(p, directory)) == before
  {
  }

  lemma VisitedWhole(slots: seq<Slot>, room: nat)
    requires |slots| <= room
    ensures Visited(slots, room) == slots
  {
  }

  lemma VisitedConcat(before: seq<Slot>, own: seq<Slot>, room: nat)
    requires |before| <= room
    ensures Visited(before + own, room) == before + Visited(own, room - |before|)
    ensures |Visited(before + own, room)| <= room
  {
  }

  lemma VisitedPrefix(part: seq<Slot>, slots: seq<Slot>, room: nat)
    requires |part| > room && part <= slots
    ensures Visited(slots, room) == Visited(part, room)
  {
  }

  lemma {:induction false} AdmittedConcat(a: seq<Slot>, b: seq<Slot>)
    ensures Admitted(a + b) == Admitted(a) + Admitted(b)
  {
    if b == [] {
      assert a + b == a;
    } else {
      hide Admit, Admitted;
      var before, last := b[..|b| - 1], b[|b| - 1];
      AdmittedConcat(a, before);
      SliceLast(b, |b|);
      assert b[..|b|] == b;
      Associative(a, before, [last]);
      AdmittedSnoc(a + before, last);
      AdmittedSnoc(before, last);
    }
  }

  lemma SlotsSnoc(p: Project, level: seq<Bytes>, d: nat)
    requires d < |level|
    ensures Slots(p, level[..d + 1]) == Slots(p, level[..d]) + SlotsOf(level[d], Listing(p, level[d]))
  {
    assert level[..d + 1][..d] == level[..d];
  }

  lemma {:induction false} SlotsPrefix(p: Project, level: seq<Bytes>, d: nat)
    requires d <= |level|
    ensures Slots(p, level[..d]) <= Slots(p, level)
    decreases |level| - d
  {
    if d == |level| {
      assert level[..d] == level;
    } else {
      SlotsSnoc(p, level, d);
      SlotsPrefix(p, level, d + 1);
    }
  }

  lemma AdmittedSnoc(slots: seq<Slot>, slot: Slot)
    ensures var found := Admit(slot.directory, slot.entry);
            Admitted(slots + [slot]) == Admitted(slots) + if found.Some? then [found.value] else []
  {
    hide Admit;
    assert (slots + [slot])[..|slots|] == slots;
  }

  /** Sorts the entries of a level into matches, kept within the cap, and the
      directories of the next level. */
  method SiftLevel(p: Project, words: seq<Bytes>, entries: seq<Found>, cap: nat, kept: multiset<FileHit>,
                   ghost all: seq<FileHit>)
    returns (updated: multiset<FileHit>, dropped: bool, next: seq<Bytes>)
    requires kept == multiset(Top(Sorted(all), cap))
    ensures updated == multiset(Top(Sorted(all + Matches(p, words, entries)), cap))
    ensures next == Directories(p, entries)
    ensures |all| > cap || dropped <==> |all + Matches(p, words, entries)| > cap
  {
    updated, dropped, next := kept, false, [];
    ghost var met := all;
    NothingSifted(p, words, entries[..0], all);
    hide Sorted, Match, Matches, Directories, Top, Hidden;
    for i := 0 to |entries|
      invariant met == all + Matches(p, words, entries[..i])
      invariant updated == multiset(Top(Sorted(met), cap))
      invariant next == Directories(p, entries[..i])
      invariant |all| > cap || dropped <==> |met| > cap
    {
      SiftSnoc(p, words, entries, i);
      var e := entries[i];
      if Hidden(p, e.path) {
        continue;
      }
      if e.isDirectory {
        next := next + [e.path];
        continue;
      }
      var hit := Match(p, words, e.path);
      if hit.Some? {
        var over;
        updated, over := Keep(updated, hit.value, cap, met);
        Associative(all, Matches(p, words, entries[..i]), [hit.value]);
        met := met + [hit.value];
        dropped := dropped || over;
      }
    }
    assert entries[..|entries|] == entries;
  }

  lemma NothingSifted(p: Project, words: seq<Bytes>, none: seq<Found>, all: seq<FileHit>)
    requires none == []
    ensures Directories(p, none) == [] && all + Matches(p, words, none) == all
  {
  }

  lemma SiftSnoc(p: Project, words: seq<Bytes>, entries: seq<Found>, i: nat)
    requires i < |entries|
    ensures var e := entries[i];
            var before, after := entries[..i], entries[..i + 1];
            && Directories(p, after) == (if e.isDirectory && !Hidden(p, e.path)
                                         then Directories(p, before) + [e.path] else Directories(p, before))
            && Matches(p, words, after) ==
                 (if e.isDirectory || Hidden(p, e.path) || Match(p, words, e.path).None?
                  then Matches(p, words, before)
                  else Matches(p, words, before) + [Match(p, words, e.path).value])
  {
    hide Match, Hidden;
    assert entries[..i + 1][..i] == entries[..i];
  }

  /** Searches one level. Without git's answer nothing of it is known to be safe
      to show, and the search ends. */
  method SearchLevel(p: Project, words: seq<Bytes>, level: seq<Bytes>, room: nat, cap: nat,
                     kept: multiset<FileHit>, ghost all: seq<FileHit>)
    returns (updated: multiset<FileHit>, truncated: bool, visited: nat, next: Option<seq<Bytes>>)
    requires kept == multiset(Top(Sorted(all), cap))
    ensures var step := StepOf(p, words, level, room);
            && updated == multiset(Top(Sorted(all + step.found), cap))
            && visited == step.visited && next == step.next
            && (|all| > cap || truncated <==> next.None? || |all + step.found| > cap)
  {
    hide Sorted, Top, Visited, Admitted, Matches, Directories, Slots, Paths;
    var entries, exhausted;
    entries, visited, exhausted := VisitLevel(p, level, room);
    if entries != [] && p.inGit && !p.answers(Paths(entries)) {
      assert all + [] == all;
      return kept, true, visited, None;
    }
    var directories;
    updated, truncated, directories := SiftLevel(p, words, entries, cap, kept, all);
    if exhausted {
      return updated, true, visited, None;
    }
    next := Some(directories);
  }

  datatype SearchResult = SearchResult(hits: seq<FileHit>, truncated: bool, visited: nat)

  /** The first `cap` of the matches met, newest first, and whether anything was
      left out. */
  function ResultOf(walked: Walked, cap: nat): SearchResult {
    SearchResult(Top(Sorted(walked.matches), cap), !walked.complete || |walked.matches| > cap, walked.visited)
  }

  method SearchProjectFiles(p: Project, words: seq<Bytes>, budget: nat, cap: nat) returns (r: SearchResult)
    ensures r == ResultOf(Walk(p, words, [[]], 0, budget), cap)
  {
    hide Sorted, Top, StepOf, Walk, Onto, ResultOf;
    ghost var whole := Walk(p, words, [[]], 0, budget);
    ghost var all: seq<FileHit> := [];
    NothingSorted(all, cap);
    OntoStart(all, whole);
    var truncated, visited := false, 0;
    var kept: multiset<FileHit> := multiset{};
    var level: seq<Bytes> := [[]];
    var depth := 0;
    while true
      invariant 0 <= depth <= FILE_SCAN_DEPTH && 0 <= visited <= budget
      invariant whole == Onto(all, visited, Walk(p, words, level, depth, budget - visited))
      invariant kept == multiset(Top(Sorted(all), cap))
      invariant truncated <==> |all| > cap
      decreases FILE_SCAN_DEPTH - depth
    {
      if level == [] || depth >= FILE_SCAN_DEPTH {
        WalkEnds(p, words, level, depth, budget - visited, all, visited);
        truncated := truncated || level != [];
        break;
      }
      WalkOn(p, words, level, depth, budget - visited, all, visited);
      ghost var step := StepOf(p, words, level, budget - visited);
      var over, seen, next;
      kept, over, seen, next := SearchLevel(p, words, level, budget - visited, cap, kept, all);
      truncated, visited := truncated || over, visited + seen;
      all := all + step.found;
      if next.None? {
        break;
      }
      level, depth := next.value, depth + 1;
    }
    r := Finish(kept, truncated, visited, cap, whole);
  }

  method Finish(kept: multiset<FileHit>, truncated: bool, visited: nat, cap: nat, ghost walked: Walked)
    returns (r: SearchResult)
    requires kept == multiset(Top(Sorted(walked.matches), cap)) && visited == walked.visited
    requires truncated <==> !walked.complete || |walked.matches| > cap
    ensures r == ResultOf(walked, cap)
  {
    SortedIsOrdered(walked.matches);
    hide Sorted;
    OrderedTop(Sorted(walked.matches), cap);
    var hits := Hits(kept, Top(Sorted(walked.matches), cap));
    r := SearchResult(hits, truncated, visited);
  }

  lemma OntoStart(all: seq<FileHit>, whole: Walked)
    requires all == []
    ensures Onto(all, 0, whole) == whole
  {
  }

  lemma NothingSorted(none: seq<FileHit>, cap: nat)
    requires none == []
    ensures multiset(Top(Sorted(none), cap)) == multiset{}
  {
  }

  // ----- What a search finds

  lemma {:induction false} VisitsWithinBudget(p: Project, words: seq<Bytes>, level: seq<Bytes>, depth: nat, room: nat)
    requires depth <= FILE_SCAN_DEPTH
    ensures Walk(p, words, level, depth, room).visited <= room
    decreases FILE_SCAN_DEPTH - depth
  {
    hide StepOf;
    if level != [] && depth < FILE_SCAN_DEPTH {
      var step := StepOf(p, words, level, room);
      if step.next.Some? {
        VisitsWithinBudget(p, words, step.next.value, depth + 1, room - step.visited);
      }
    }
  }

  /** `path` is listed in `directory`, and nothing keeps the search from it. */
  ghost predicate Offers(p: Project, directory: Bytes, path: Bytes, isDirectory: bool) {
    && !Hidden(p, path)
    && exists i | 0 <= i < |Listing(p, directory)| ::
         Admit(directory, Listing(p, directory)[i]) == Some(Found(path, isDirectory))
  }

  /** The directories a search may enter, `depth` levels below the root. */
  ghost predicate DirectoryAt(p: Project, depth: nat, path: Bytes) {
    if depth == 0 then path == []
    else exists parent :: DirectoryAt(p, depth - 1, parent) && Offers(p, parent, path, true)
  }

  /** A file in such a directory. */
  ghost predicate FileAt(p: Project, depth: nat, path: Bytes) {
    exists parent :: DirectoryAt(p, depth, parent) && Offers(p, parent, path, false)
  }

  lemma {:induction false} SlotsAre(p: Project, level: seq<Bytes>, slot: Slot)
    ensures slot in Slots(p, level) <==> slot.directory in level && slot.entry in Listing(p, slot.directory)
  {
    if level != [] {
      var before, last := level[..|level| - 1], level[|level| - 1];
      SlotsAre(p, before, slot);
      assert level == before + [last];
      var own := SlotsOf(last, Listing(p, last));
      if slot in own {
        var i :| 0 <= i < |own| && own[i] == slot;
        assert slot.entry == Listing(p, last)[i];
      }
      if slot.directory == last && slot.entry in Listing(p, last) {
        var i :| 0 <= i < |own| && Listing(p, last)[i] == slot.entry;
        assert own[i] == slot;
      }
    }
  }

  ghost predicate AdmittedFrom(slots: seq<Slot>, found: Found) {
    exists i | 0 <= i < |slots| :: Admit(slots[i].directory, slots[i].entry) == Some(found)
  }

  lemma {:induction false} AdmittedAre(slots: seq<Slot>, found: Found)
    ensures found in Admitted(slots) <==> AdmittedFrom(slots, found)
  {
    hide Admit;
    if slots != [] {
      var before, last := slots[..|slots| - 1], slots[|slots| - 1];
      AdmittedAre(before, found);
      if AdmittedFrom(slots, found) {
        var i :| 0 <= i < |slots| && Admit(slots[i].directory, slots[i].entry) == Some(found);
        assert i < |before| ==> before[i] == slots[i];
      }
      if AdmittedFrom(before, found) {
        var i :| 0 <= i < |before| && Admit(before[i].directory, before[i].entry) == Some(found);
        assert before[i] == slots[i];
      }
    }
  }

  /** Entries of a level are what its directories list. */
  lemma EntriesAre(p: Project, level: seq<Bytes>, found: Found)
    requires !Hidden(p, found.path)
    ensures found in Admitted(Slots(p, level)) <==>
            exists d :: d in level && Offers(p, d, found.path, found.isDirectory)
  {
    hide Admit, Admitted, Slots;
    var slots := Slots(p, level);
    AdmittedAre(slots, found);
    if AdmittedFrom(slots, found) {
      var i :| 0 <= i < |slots| && Admit(slots[i].directory, slots[i].entry) == Some(found);
      var d := slots[i].directory;
      SlotsAre(p, level, slots[i]);
      var k :| 0 <= k < |Listing(p, d)| && Listing(p, d)[k] == slots[i].entry;
      assert Offers(p, d, found.path, found.isDirectory);
    }
    if d :| d in level && Offers(p, d, found.path, found.isDirectory) {
      var k :| 0 <= k < |Listing(p, d)| && Admit(d, Listing(p, d)[k]) == Some(found);
      SlotsAre(p, level, Slot(d, Listing(p, d)[k]));
      assert Slot(d, Listing(p, d)[k]) in slots;
    }
  }

  lemma {:induction false} DirectoriesAre(p: Project, entries: seq<Found>, path: Bytes)
    ensures path in Directories(p, entries) <==> Found(path, true) in entries && !Hidden(p, path)
  {
    if entries != [] {
      var before, last := entries[..|entries| - 1], entries[|entries| - 1];
      DirectoriesAre(p, before, path);
      assert entries == before + [last];
    }
  }

  lemma {:induction false} MatchesAre(p: Project, words: seq<Bytes>, entries: seq<Found>, hit: FileHit)
    ensures hit in Matches(p, words, entries) <==>
            Found(hit.path, false) in entries && !Hidden(p, hit.path) && Match(p, words, hit.path) == Some(hit)
  {
    hide WordsOccur;
    if entries != [] {
      var before, last := entries[..|entries| - 1], entries[|entries| - 1];
      MatchesAre(p, words, before, hit);
      assert entries == before + [last];
    }
  }

  /** `level` lists the directories of this depth. */
  ghost predicate IsLevel(p: Project, level: seq<Bytes>, depth: nat) {
    forall d :: d in level <==> DirectoryAt(p, depth, d)
  }

  lemma NextLevel(p: Project, level: seq<Bytes>, depth: nat)
    requires IsLevel(p, level, depth)
    ensures IsLevel(p, Directories(p, Admitted(Slots(p, level))), depth + 1)
  {
    hide Offers, Directories, Admitted, Slots;
    forall d
      ensures d in Directories(p, Admitted(Slots(p, level))) <==> DirectoryAt(p, depth + 1, d)
    {
      DirectoriesAre(p, Admitted(Slots(p, level)), d);
      OfferedAreVisible(p, d);
      if !Hidden(p, d) {
        EntriesAre(p, level, Found(d, true));
      }
    }
  }

  lemma OfferedAreVisible(p: Project, path: Bytes)
    ensures forall d, isDirectory :: Offers(p, d, path, isDirectory) ==> !Hidden(p, path)
  {
    hide Admit;
  }

  /** The matches of a level are those of its files that match. */
  lemma LevelMatches(p: Project, words: seq<Bytes>, level: seq<Bytes>, depth: nat, hit: FileHit)
    requires IsLevel(p, level, depth)
    ensures hit in Matches(p, words, Admitted(Slots(p, level))) <==>
            FileAt(p, depth, hit.path) && Match(p, words, hit.path) == Some(hit)
  {
    hide Offers, Matches, Admitted, Slots, Match;
    MatchesAre(p, words, Admitted(Slots(p, level)), hit);
    OfferedAreVisible(p, hit.path);
    if !Hidden(p, hit.path) {
      EntriesAre(p, level, Found(hit.path, false));
    }
  }

  lemma {:induction false} NothingBelow(p: Project, depth: nat, deeper: nat)
    requires depth <= deeper && forall d :: !DirectoryAt(p, depth, d)
    ensures forall d :: !DirectoryAt(p, deeper, d)
    decreases deeper
  {
    if depth < deeper {
      NothingBelow(p, depth, deeper - 1);
    }
  }

  /** A walk to the end meets every match at its depth or below, however deep. */
  lemma {:induction false} CompleteWalkMeets(p: Project, words: seq<Bytes>, level: seq<Bytes>, depth: nat, room: nat,
                                             deeper: nat, hit: FileHit)
    requires depth <= FILE_SCAN_DEPTH && depth <= deeper && IsLevel(p, level, depth)
    requires Walk(p, words, level, depth, room).complete
    requires FileAt(p, deeper, hit.path) && Match(p, words, hit.path) == Some(hit)
    ensures hit in Walk(p, words, level, depth, room).matches
    decreases FILE_SCAN_DEPTH - depth
  {
    hide DirectoryAt, Slots, Admitted, Matches, Directories, Paths, Match, Offers;
    if level == [] {
      NothingBelow(p, depth, deeper);
    } else if depth == deeper {
      LevelMatches(p, words, level, depth, hit);
    } else {
      var slots := Slots(p, level);
      NextLevel(p, level, depth);
      CompleteWalkMeets(p, words, Directories(p, Admitted(slots)), depth + 1, room - |slots|, deeper, hit);
    }
  }

  lemma {:induction false} AdmittedPart(slots: seq<Slot>, n: nat, found: Found)
    requires n <= |slots| && found in Admitted(slots[..n])
    ensures found in Admitted(slots)
  {
    hide Admit, Admitted;
    AdmittedAre(slots[..n], found);
    AdmittedAre(slots, found);
    var i :| 0 <= i < n && Admit(slots[..n][i].directory, slots[..n][i].entry) == Some(found);
    assert slots[..n][i] == slots[i];
  }

  /** Whatever cuts it short, a walk meets only matches of files it may see. */
  lemma {:induction false} WalkMeetsOnlyMatches(p: Project, words: seq<Bytes>, level: seq<Bytes>, depth: nat,
                                                room: nat, hit: FileHit) returns (deeper: nat)
    requires depth <= FILE_SCAN_DEPTH && IsLevel(p, level, depth)
    requires hit in Walk(p, words, level, depth, room).matches
    ensures depth <= deeper < FILE_SCAN_DEPTH && FileAt(p, deeper, hit.path)
    ensures Match(p, words, hit.path) == Some(hit)
    decreases FILE_SCAN_DEPTH - depth
  {
    hide DirectoryAt, Slots, Admitted, Matches, Directories, Paths, Match, Offers, FileAt;
    var slots := Slots(p, level);
    var visited := Visited(slots, room);
    var entries := Admitted(visited);
    if hit in Matches(p, words, entries) {
      deeper := depth;
      MatchesAre(p, words, entries, hit);
      MatchesAre(p, words, Admitted(slots), hit);
      if |slots| > room {
        AdmittedPart(slots, room, Found(hit.path, false));
      }
      LevelMatches(p, words, level, depth, hit);
    } else {
      NextLevel(p, level, depth);
      deeper := WalkMeetsOnlyMatches(p, words, Directories(p, entries), depth + 1, room - |visited|, hit);
    }
  }

  lemma RootIsLevel(p: Project)
    ensures IsLevel(p, [[]], 0)
  {
  }

  lemma {:induction false} TopIsOfAll(all: seq<FileHit>, cap: nat, hit: FileHit)
    ensures hit in Top(Sorted(all), cap) ==> hit in all
    ensures |all| <= cap ==> (hit in Top(Sorted(all), cap) <==> hit in all)
  {
    assert hit in Sorted(all) <==> hit in multiset(Sorted(all));
    assert hit in all <==> hit in multiset(all);
    hide Sorted;
  }

  /** A search that does not say it was truncated returned every match there is,
      at any depth; one that does still returns matches only. */
  lemma SearchFinds(p: Project, words: seq<Bytes>, budget: nat, cap: nat, hit: FileHit)
    ensures var result := ResultOf(Walk(p, words, [[]], 0, budget), cap);
            var matches := Match(p, words, hit.path) == Some(hit) && exists depth :: FileAt(p, depth, hit.path);
            && (hit in result.hits ==> matches)
            && (!result.truncated && matches ==> hit in result.hits)
  {
    var walked := Walk(p, words, [[]], 0, budget);
    RootIsLevel(p);
    hide IsLevel, Walk, FileAt, Match, Sorted;
    TopIsOfAll(walked.matches, cap, hit);
    if hit in walked.matches {
      var depth := WalkMeetsOnlyMatches(p, words, [[]], 0, budget, hit);
    }
    if walked.complete && Match(p, words, hit.path) == Some(hit) {
      if depth :| FileAt(p, depth, hit.path) {
        CompleteWalkMeets(p, words, [[]], 0, budget, depth, hit);
      }
    }
  }

  // ----- Where the found files are

  /** Names the file system allows. */
  ghost predicate WellNamed(p: Project) {
    forall d, i | 0 <= i < |Listing(p, d)| ::
      Listing(p, d)[i].Entry? && Listing(p, d)[i].name.Some? ==>
        Listing(p, d)[i].name.value != [] && SLASH !in Listing(p, d)[i].name.value
  }

  predicate Plain(name: Bytes) {
    name != [] && name[0] != DOT && SLASH !in name
  }

  predicate AllPlain(names: seq<Bytes>) {
    forall i | 0 <= i < |names| :: Plain(names[i])
  }

  predicate NoneGenerated(names: seq<Bytes>) {
    forall i | 0 <= i < |names| :: !GeneratedName(names[i])
  }

  /** What the search looks at is listed as a file, or as a directory that is
      neither generated nor a repository of its own; links never are. */
  lemma OfferedChild(p: Project, directory: Bytes, path: Bytes, isDirectory: bool) returns (entry: DirEntry)
    requires WellNamed(p) && Offers(p, directory, path, isDirectory)
    ensures entry in Listing(p, directory) && entry.Entry? && entry.name.Some?
    ensures Plain(entry.name.value) && path == Child(directory, entry.name.value)
    ensures entry.kind == Some(if isDirectory then Directory else File) && !Hidden(p, path)
    ensures isDirectory ==> !entry.nestedRepository && !GeneratedName(entry.name.value)
  {
    hide Child, GeneratedName, Hidden;
    var i :| 0 <= i < |Listing(p, directory)|
          && Admit(directory, Listing(p, directory)[i]) == Some(Found(path, isDirectory));
    entry := Listing(p, directory)[i];
  }

  lemma ChildComponents(directory: Bytes, name: Bytes)
    requires Plain(name)
    ensures Child(directory, name) != []
    ensures Split(Child(directory, name), SLASH) == (if directory == [] then [] else Split(directory, SLASH)) + [name]
  {
    SplitPiece(name, SLASH);
    if directory != [] {
      SplitAtSeparator(directory, SLASH, name);
    } else {
      assert [] + [name] == [name];
    }
  }

  function DirectoryNames(path: Bytes): seq<Bytes> {
    if path == [] then [] else Split(path, SLASH)
  }

  /** A directory the search enters is as deep as its path is long, and no name
      on the way is hidden or generated. */
  lemma {:induction false} DirectoryPath(p: Project, depth: nat, path: Bytes)
    requires WellNamed(p) && DirectoryAt(p, depth, path)
    ensures |DirectoryNames(path)| == depth && AllPlain(DirectoryNames(path)) && NoneGenerated(DirectoryNames(path))
  {
    hide WellNamed, Offers, Plain, GeneratedName, Child, Split;
    if depth > 0 {
      var parent :| DirectoryAt(p, depth - 1, parent) && Offers(p, parent, path, true);
      DirectoryPath(p, depth - 1, parent);
      var entry := OfferedChild(p, parent, path, true);
      ChildComponents(parent, entry.name.value);
    }
  }

  /** So is a file it finds, whose own name may be that of a generated directory. */
  lemma FilePath(p: Project, depth: nat, path: Bytes)
    requires WellNamed(p) && FileAt(p, depth, path)
    ensures var names := Split(path, SLASH);
            |names| == depth + 1 && AllPlain(names) && NoneGenerated(names[..depth])
  {
    hide WellNamed, Offers, Plain, GeneratedName, Child, Split, DirectoryAt;
    var parent :| DirectoryAt(p, depth, parent) && Offers(p, parent, path, false);
    DirectoryPath(p, depth, parent);
    var entry := OfferedChild(p, parent, path, false);
    ChildComponents(parent, entry.name.value);
    assert Split(path, SLASH)[..depth] == DirectoryNames(parent);
  }
}
