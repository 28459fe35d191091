/** Printing `git status` entries in Porcelain Format Version 2, and the proof
    that parsing undoes it. */
module GitPrint {
  import opened Wrappers
  import opened Bytes
  import opened GitCollector
  import opened GitStatus
  import Utf8

  /** A submodule's own state: another commit checked out, modified content,
      untracked files. */
  datatype Submodule = NoSubmodule | Submodule(commit: bool, modified: bool, untracked: bool)

  /** `fields` are the modes, object names and score between submodule and path. */
  datatype Entry =
    | Ordinary(index: Option<byte>, worktree: Option<byte>, submodule: Submodule, fields: seq<Bytes>, path: Bytes)
    | Renamed(index: Option<byte>, worktree: Option<byte>, submodule: Submodule, fields: seq<Bytes>, path: Bytes,
              original: Bytes)
    | Unmerged(index: Option<byte>, worktree: Option<byte>, submodule: Submodule, fields: seq<Bytes>, path: Bytes)
    | Untracked(path: Bytes)

  datatype Head = Detached | OnBranch(name: Bytes)

  datatype Item =
    | File(entry: Entry)
    | BranchHead(head: Head)
    | Comment(text: Bytes)
    | IgnoredPath(path: Bytes)

  predicate FieldOk(field: Bytes) {
    SPACE !in field && NUL !in field
  }

  /** Any path git prints, spaces included. */
  predicate PathOk(path: Bytes) {
    path != [] && NUL !in path && Utf8.Valid(path)
  }

  /** A status letter is printed as itself. */
  predicate LetterOk(status: Option<byte>) {
    status.Some? ==> status.value != 46 && status.value != 32 && status.value != 0
  }

  predicate EntryOk(e: Entry) {
    PathOk(e.path) &&
    (!e.Untracked? ==>
       && LetterOk(e.index) && LetterOk(e.worktree)
       && (forall f | f in e.fields :: FieldOk(f))
       && |e.fields| == (if e.Ordinary? then 5 else if e.Renamed? then 6 else 7))
    && (e.Renamed? ==> PathOk(e.original))
  }

  predicate ItemOk(item: Item) {
    match item
    case File(entry) => EntryOk(entry)
    case BranchHead(Detached) => true
    case BranchHead(OnBranch(name)) => NUL !in name && (name == [] || name[0] != 40)
    case Comment(text) => NUL !in text && !(HEAD_LINE <= COMMENT_LINE + text)
    case IgnoredPath(path) => NUL !in path
  }

  function Kind(e: Entry): byte {
    match e
    case Ordinary(_, _, _, _, _) => 49
    case Renamed(_, _, _, _, _, _) => 50
    case Unmerged(_, _, _, _, _) => 117
    case Untracked(_) => 63
  }

  function Letters(e: Entry): Bytes
    requires !e.Untracked?
  {
    [e.index.GetOr(46), e.worktree.GetOr(46)]
  }

  function SubmoduleField(submodule: Submodule): Bytes {
    match submodule
    case NoSubmodule => [78, 46, 46, 46]
    case Submodule(commit, modified, untracked) =>
      [83, if commit then 67 else 46, if modified then 77 else 46, if untracked then 85 else 46]
  }

  function FieldsOf(e: Entry): seq<Bytes>
    requires !e.Untracked?
  {
    [[Kind(e)], Letters(e), SubmoduleField(e.submodule)] + e.fields + [e.path]
  }

  function RecordOf(e: Entry): Bytes {
    if e.Untracked? then [63, SPACE] + e.path else Join(FieldsOf(e), SPACE)
  }

  /** `# branch.head `, `# ` and `! `, and what git prints for a detached head. */
  const HEAD_LINE: Bytes := [35, 32, 98, 114, 97, 110, 99, 104, 46, 104, 101, 97, 100, 32]
  const COMMENT_LINE: Bytes := [35, 32]
  const IGNORED_LINE: Bytes := [33, 32]
  const DETACHED: Bytes := [40, 100, 101, 116, 97, 99, 104, 101, 100, 41]

  /** The records an item prints, each of which a NUL ends. */
  function RecordsOf(item: Item): seq<Bytes> {
    match item
    case File(entry) => [RecordOf(entry)] + if entry.Renamed? then [entry.original] else []
    case BranchHead(Detached) => [HEAD_LINE + DETACHED]
    case BranchHead(OnBranch(name)) => [HEAD_LINE + name]
    case Comment(text) => [COMMENT_LINE + text]
    case IgnoredPath(path) => [IGNORED_LINE + path]
  }

  function Terminated(records: seq<Bytes>): Bytes {
    if records == [] then [] else records[0] + [NUL] + Terminated(records[1..])
  }

  function AllRecords(items: seq<Item>): seq<Bytes> {
    if items == [] then [] else RecordsOf(items[0]) + AllRecords(items[1..])
  }

  function Printed(items: seq<Item>): Bytes {
    Terminated(AllRecords(items))
  }

  /** The file change an entry describes: a submodule with changes of its own
      counts as modified where the work tree says nothing else. */
  function Described(e: Entry): FileChange {
    match e
    case Untracked(path) => FileChange(path, None, Some(63), Some(63), false)
    case Ordinary(index, worktree, submodule, _, path) =>
      FileChange(path, None, index, Shown(worktree, submodule), false)
    case Renamed(index, worktree, submodule, _, path, original) =>
      FileChange(path, Some(original), index, Shown(worktree, submodule), false)
    case Unmerged(index, worktree, submodule, _, path) =>
      FileChange(path, None, index, Shown(worktree, submodule), true)
  }

  function Shown(worktree: Option<byte>, submodule: Submodule): Option<byte> {
    if worktree.None? && submodule.Submodule? && (submodule.commit || submodule.modified || submodule.untracked)
    then Some(77) else worktree
  }

  function Told(items: seq<Item>, acc: Status): Status
    decreases |items|
  {
    if items == [] then acc
    else
      Told(items[1..],
           match items[0]
           case File(entry) => acc.(files := acc.files + [Described(entry)])
           case BranchHead(Detached) => acc.(branch := None)
           case BranchHead(OnBranch(name)) => acc.(branch := Some(name))
           case Comment(_) => acc
           case IgnoredPath(_) => acc)
  }

  // ----- Fields

  lemma {:induction false} IndexAfter(plain: Bytes, rest: Bytes, sep: byte)
    requires sep !in plain
    ensures IndexOf(plain + [sep] + rest, sep) == Some(|plain|)
  {
    var s := plain + [sep] + rest;
    if plain == [] {
      assert s[0] == sep;
    } else {
      IndexAfter(plain[1..], rest, sep);
      assert plain[0] in plain;
      assert s[1..] == plain[1..] + [sep] + rest;
    }
  }

  /** Splitting at most as often as there were separators undoes the join, even if
      the last field has separators of its own. */
  lemma {:induction false} SplitNJoin(fields: seq<Bytes>, sep: byte)
    requires fields != []
    requires forall i | 0 <= i < |fields| - 1 :: sep !in fields[i]
    ensures SplitN(Join(fields, sep), |fields|, sep) == fields
  {
    if |fields| == 1 {
      IndexOfBounds(fields[0], sep);
    } else {
      var first, below := fields[0], Join(fields[1..], sep);
      var s := first + [sep] + below;
      SplitNJoin(fields[1..], sep);
      IndexAfter(first, below, sep);
      assert s[..|first|] == first && s[|first| + 1..] == below;
    }
  }

  lemma {:induction false} JoinFree(fields: seq<Bytes>, sep: byte, b: byte)
    requires b != sep && forall f | f in fields :: b !in f
    ensures b !in Join(fields, sep)
  {
    if |fields| == 1 {
      assert fields[0] in fields;
    } else if |fields| > 1 {
      assert fields[0] in fields;
      JoinFree(fields[1..], sep, b);
    }
  }

  lemma EntryFields(e: Entry)
    requires EntryOk(e) && !e.Untracked?
    ensures var fields := FieldsOf(e);
            var n := if e.Ordinary? then 9 else if e.Renamed? then 10 else 11;
            |fields| == n && SplitN(RecordOf(e), n, SPACE) == fields
            && fields[1] == Letters(e) && fields[2] == SubmoduleField(e.submodule) && fields[n - 1] == e.path
            && fields[0] == [Kind(e)]
    ensures NUL !in RecordOf(e)
    ensures |RecordOf(e)| > 1 && RecordOf(e)[0] == Kind(e) && RecordOf(e)[1] == SPACE
  {
    var fields := FieldsOf(e);
    SubmoduleParses(e.submodule);
    assert FieldOk(Letters(e));
    hide Letters, SubmoduleField;
    assert fields[3..|fields| - 1] == e.fields;
    forall f | f in fields
      ensures NUL !in f
    {
    }
    forall i | 0 <= i < |fields| - 1
      ensures SPACE !in fields[i]
    {
      if 3 <= i {
        assert fields[i] == e.fields[i - 3] && e.fields[i - 3] in e.fields;
      }
    }
    SplitNJoin(fields, SPACE);
    JoinFree(fields, SPACE, NUL);
  }

  lemma SubmoduleParses(submodule: Submodule)
    ensures FieldOk(SubmoduleField(submodule))
    ensures SubmoduleChanged(SubmoduleField(submodule)) <==>
              submodule.Submodule? && (submodule.commit || submodule.modified || submodule.untracked)
  {
    var field := SubmoduleField(submodule);
    var flags := field[1..];
    assert flags == [field[1], field[2], field[3]];
    assert flags[0] in flags && flags[1] in flags && flags[2] in flags;
  }

  lemma ChangeIs(e: Entry)
    requires EntryOk(e) && !e.Untracked?
    ensures Change(Letters(e), SubmoduleField(e.submodule), e.path,
                   if e.Renamed? then Some(e.original) else None, e.Unmerged?)
         == Some(Described(e))
  {
    SubmoduleParses(e.submodule);
    hide Utf8.Valid, SubmoduleChanged, SubmoduleField, FieldOk;
  }

  lemma FieldsParse(e: Entry, rest: seq<Bytes>)
    requires EntryOk(e) && !e.Untracked?
    requires e.Renamed? ==> rest != [] && rest[0] == e.original
    ensures ParseFile(RecordOf(e), rest) == Some(Described(e))
  {
    ChangeIs(e);
    EntryFields(e);
    hide SplitN, Change, RecordOf, FieldsOf, Described, EntryOk, Letters, SubmoduleField;
  }

  lemma UntrackedParses(e: Entry, rest: seq<Bytes>)
    requires EntryOk(e) && e.Untracked?
    ensures ParseFile(RecordOf(e), rest) == Some(Described(e)) && NUL !in RecordOf(e)
  {
    hide SplitN, Utf8.Valid;
    assert RecordOf(e)[2..] == e.path;
  }

  lemma RecordShape(e: Entry)
    requires EntryOk(e)
    ensures NUL !in RecordOf(e) && RecordOf(e) != []
    ensures RecordOf(e)[0] == if e.Untracked? then 63 else Kind(e)
    ensures e.Renamed? ==> StartsRename(RecordOf(e))
  {
    if !e.Untracked? {
      EntryFields(e);
      hide RecordOf, FieldsOf, EntryOk;
    } else {
      hide Utf8.Valid;
    }
  }

  /** Each printed entry is parsed to what it describes. */
  lemma {:induction false} EntryParses(e: Entry, rest: seq<Bytes>)
    requires EntryOk(e)
    requires e.Renamed? ==> rest != [] && rest[0] == e.original
    ensures ParseFile(RecordOf(e), rest) == Some(Described(e))
    ensures NUL !in RecordOf(e) && RecordOf(e) != []
    ensures !(HEADER <= RecordOf(e)) && !(BRANCH_HEAD <= RecordOf(e)) && !(IGNORED <= RecordOf(e))
  {
    RecordShape(e);
    hide RecordOf, ParseFile, Described, EntryOk;
    if e.Untracked? {
      UntrackedParses(e, rest);
    } else {
      FieldsParse(e, rest);
    }
  }

  // ----- The round trip

  lemma {:induction false} RecordsOfTerminated(records: seq<Bytes>)
    requires forall r | r in records :: r != [] && NUL !in r
    ensures Records(Terminated(records)) == records
  {
    if records == [] {
      var blank: seq<Bytes> := [[]];
      assert blank[1..] == [];
    } else {
      var first := records[0];
      assert first in records && forall r | r in records[1..] :: r in records;
      RecordsOfTerminated(records[1..]);
      RecordsAt(first, Terminated(records[1..]));
      RecordsOfOne(first);
    }
  }

  lemma ItemRecordsOk(item: Item)
    requires ItemOk(item)
    ensures forall r | r in RecordsOf(item) :: r != [] && NUL !in r
  {
    if item.File? {
      EntryParses(item.entry, if item.entry.Renamed? then [item.entry.original] else []);
    }
  }

  lemma {:induction false} AllRecordsOk(items: seq<Item>)
    requires forall item | item in items :: ItemOk(item)
    ensures forall r | r in AllRecords(items) :: r != [] && NUL !in r
  {
    if items != [] {
      ItemRecordsOk(items[0]);
      assert forall item | item in items[1..] :: item in items;
      AllRecordsOk(items[1..]);
    }
  }

  lemma {:induction false} ItemsParse(items: seq<Item>, acc: Status)
    requires forall item | item in items :: ItemOk(item)
    ensures ParseFrom(AllRecords(items), acc) == Some(Told(items, acc))
    decreases |items|
  {
    if items != [] {
      var item, below := items[0], AllRecords(items[1..]);
      assert ItemOk(item) && forall i | i in items[1..] :: i in items;
      match item {
        case File(entry) =>
          ItemsParse(items[1..], acc.(files := acc.files + [Described(entry)]));
          EntryParsesFirst(entry, below, acc);
        case BranchHead(head) =>
          var branch := if head == Detached then None else Some(head.name);
          ItemsParse(items[1..], acc.(branch := branch));
          assert AllRecords(items)[1..] == below;
          HeadParses(head, below, acc);
        case Comment(text) =>
          ItemsParse(items[1..], acc);
          assert AllRecords(items)[1..] == below;
        case IgnoredPath(path) =>
          ItemsParse(items[1..], acc);
          assert AllRecords(items)[1..] == below;
          assert (IGNORED_LINE + path)[0] != BRANCH_HEAD[0];
      }
    }
  }

  lemma HeadParses(head: Head, below: seq<Bytes>, acc: Status)
    requires ItemOk(BranchHead(head))
    ensures ParseFrom(RecordsOf(BranchHead(head)) + below, acc)
         == ParseFrom(below, acc.(branch := if head == Detached then None else Some(head.name)))
  {
    var name := if head == Detached then DETACHED else head.name;
    var records := [HEAD_LINE + name] + below;
    assert records[1..] == below;
    assert (HEAD_LINE + name)[|HEAD_LINE|..] == name;
  }

  lemma EntryParsesFirst(e: Entry, below: seq<Bytes>, acc: Status)
    requires EntryOk(e)
    ensures ParseFrom(RecordsOf(File(e)) + below, acc)
         == ParseFrom(below, acc.(files := acc.files + [Described(e)]))
  {
    var record := RecordOf(e);
    hide RecordOf, ParseFrom, ParseFile;
    if e.Renamed? {
      var rest := [e.original] + below;
      assert RecordsOf(File(e)) + below == [record] + rest && rest[1..] == below;
      EntryParses(e, rest);
      FirstParses(record, rest, acc);
    } else {
      assert RecordsOf(File(e)) + below == [record] + below;
      EntryParses(e, below);
      FirstParses(record, below, acc);
    }
  }

  lemma FirstParses(record: Bytes, rest: seq<Bytes>, acc: Status)
    requires !(HEADER <= record) && !(BRANCH_HEAD <= record) && !(IGNORED <= record)
    requires ParseFile(record, rest).Some?
    ensures var change := ParseFile(record, rest).value;
            ParseFrom([record] + rest, acc)
            == ParseFrom(if change.originalPath.Some? && rest != [] then rest[1..] else rest,
                         acc.(files := acc.files + [change]))
  {
    assert ([record] + rest)[1..] == rest;
  }

  /** Parsing undoes printing: paths, original paths, conflict flags and statuses,
      with the submodule override, for any list of entries and headers. */
  lemma ParsingUndoesPrinting(items: seq<Item>, truncated: bool)
    requires forall item | item in items :: ItemOk(item)
    ensures Parsed(Printed(items), truncated) == Some(Told(items, Status(None, [], truncated)))
  {
    AllRecordsOk(items);
    RecordsOfTerminated(AllRecords(items));
    ItemsParse(items, Status(None, [], truncated));
  }

  // ----- Nothing else is accepted

  lemma {:induction false} JoinSplitN(s: Bytes, n: nat, sep: byte)
    requires n > 0
    ensures 0 < |SplitN(s, n, sep)| <= n && Join(SplitN(s, n, sep), sep) == s
    ensures forall i | 0 <= i < |SplitN(s, n, sep)| - 1 :: sep !in SplitN(s, n, sep)[i]
  {
    IndexOfBounds(s, sep);
    NoneBefore(s, sep);
    if IndexOf(s, sep).Some? && n > 1 {
      var i := IndexOf(s, sep).value;
      JoinSplitN(s[i + 1..], n - 1, sep);
      hide IndexOf;
      var rest := SplitN(s[i + 1..], n - 1, sep);
      assert SplitN(s, n, sep)[1..] == rest;
      assert s == s[..i] + [sep] + s[i + 1..];
    }
  }

  lemma {:induction false} NoneBefore(s: Bytes, sep: byte)
    ensures IndexOf(s, sep).Some? ==> IndexOf(s, sep).value < |s| && sep !in s[..IndexOf(s, sep).value]
  {
    if s != [] && s[0] != sep {
      NoneBefore(s[1..], sep);
      if IndexOf(s[1..], sep).Some? {
        var i := IndexOf(s[1..], sep).value;
        assert s[..i + 1] == [s[0]] + s[1..][..i];
      }
    }
  }

  /** A record that parses is an untracked path, or as many fields as its kind has,
      with two letters second and the path last; only a rename takes an original
      path, and that from the next record. */
  lemma AcceptedIsPrinted(record: Bytes, rest: seq<Bytes>, change: FileChange) returns (fields: seq<Bytes>)
    requires ParseFile(record, rest) == Some(change)
    ensures change.path != [] && Utf8.Valid(change.path) && record != []
    ensures record[0] == 63 ==> record == [63, 32] + change.path
                                && change == FileChange(change.path, None, Some(63), Some(63), false)
    ensures record[0] != 63 ==>
              && |fields| == (match record[0] case 49 => 9 case 50 => 10 case 117 => 11 case _ => 0)
              && |fields| > 0 && record == Join(fields, 32) && fields[0] == [record[0]] && |fields[1]| == 2
              && (forall i | 0 <= i < |fields| - 1 :: 32 !in fields[i])
              && fields[|fields| - 1] == change.path && (change.conflict <==> record[0] == 117)
              && (if record[0] == 50 then rest != [] && change.originalPath == Some(rest[0]) && Utf8.Valid(rest[0])
                  else change.originalPath == None)
              && change.indexStatus == (if fields[1][0] == 46 || fields[1][0] == 32 then None else Some(fields[1][0]))
              && change.worktreeStatus ==
                   (if fields[1][1] != 46 && fields[1][1] != 32 then Some(fields[1][1])
                    else if ChangedInside(fields[2]) then Some(77) else None)
  {
    fields := [];
    if record[0] == 63 {
      UntrackedIs(record, rest, change);
    } else {
      hide ParseFile, Change, Join, SplitN, ChangedInside, Utf8.Valid;
      fields := TrackedFields(record, rest);
      ChangeSays(fields[1], fields[2], fields[|fields| - 1], if record[0] == 50 then Some(rest[0]) else None,
                 record[0] == 117, change);
    }
  }

  lemma UntrackedIs(record: Bytes, rest: seq<Bytes>, change: FileChange)
    requires record != [] && record[0] == 63 && ParseFile(record, rest) == Some(change)
    ensures record == [63, 32] + change.path && change.path != [] && Utf8.Valid(change.path)
    ensures change == FileChange(change.path, None, Some(63), Some(63), false)
  {
    hide Utf8.Valid;
    assert record == [63, 32] + record[2..];
  }

  lemma OfNoKind(record: Bytes, rest: seq<Bytes>)
    requires record != [] && record[0] != 49 && record[0] != 50 && record[0] != 117 && record[0] != 63
    ensures ParseFile(record, rest) == None
  {
    hide SplitN, Change;
  }

  lemma TrackedIs(record: Bytes, rest: seq<Bytes>, n: nat)
    requires record != [] && n == match record[0] case 49 => 9 case 50 => 10 case 117 => 11 case _ => 0
    requires n > 0 && ParseFile(record, rest).Some?
    ensures var fields := SplitN(record, n, SPACE);
            && |fields| == n && fields[0] == [record[0]] && (record[0] == 50 ==> rest != [])
            && ParseFile(record, rest) ==
                 Change(fields[1], fields[2], fields[n - 1], if record[0] == 50 then Some(rest[0]) else None,
                        record[0] == 117)
  {
    hide SplitN, Change;
  }

  lemma {:induction false} TrackedFields(record: Bytes, rest: seq<Bytes>) returns (fields: seq<Bytes>)
    requires record != [] && record[0] != 63 && ParseFile(record, rest).Some?
    ensures |fields| == (match record[0] case 49 => 9 case 50 => 10 case 117 => 11 case _ => 0) && |fields| > 0
    ensures record == Join(fields, 32) && fields[0] == [record[0]]
    ensures forall i | 0 <= i < |fields| - 1 :: 32 !in fields[i]
    ensures record[0] == 50 ==> rest != []
    ensures ParseFile(record, rest) ==
              Change(fields[1], fields[2], fields[|fields| - 1], if record[0] == 50 then Some(rest[0]) else None,
                     record[0] == 117)
  {
    hide SplitN, Change, Join, ParseFile;
    var n := match record[0] case 49 => 9 case 50 => 10 case 117 => 11 case _ => 0;
    if n == 0 {
      OfNoKind(record, rest);
    } else {
      TrackedIs(record, rest, n);
      JoinSplitN(record, n, SPACE);
      fields := SplitN(record, n, SPACE);
    }
  }

  lemma ChangeSays(xy: Bytes, submodule: Bytes, path: Bytes, original: Option<Bytes>, conflict: bool, change: FileChange)
    requires Change(xy, submodule, path, original, conflict) == Some(change)
    ensures |xy| == 2 && path != [] && Utf8.Valid(path) && (original.Some? ==> Utf8.Valid(original.value))
    ensures change.path == path && change.originalPath == original && change.conflict == conflict
    ensures change.indexStatus == if xy[0] == 46 || xy[0] == 32 then None else Some(xy[0])
    ensures change.worktreeStatus == if xy[1] != 46 && xy[1] != 32 then Some(xy[1])
                                     else if ChangedInside(submodule) then Some(77) else None
  {
    hide Utf8.Valid, SubmoduleChanged, ChangedInside;
    ChangedInsideIff(submodule);
  }

  /** An `S` and three flags, one of which is up. */
  predicate ChangedInside(field: Bytes) {
    |field| == 4 && field[0] == 83 && (field[1] != 46 || field[2] != 46 || field[3] != 46)
  }

  lemma ChangedInsideIff(field: Bytes)
    ensures SubmoduleChanged(field) <==> ChangedInside(field)
  {
    if |field| == 4 {
      assert field[1..] == [field[1], field[2], field[3]];
      assert field[1] in field[1..] && field[2] in field[1..] && field[3] in field[1..];
    }
  }

  lemma ChangeIff(xy: Bytes, submodule: Bytes, path: Bytes, original: Option<Bytes>, conflict: bool)
    ensures Change(xy, submodule, path, original, conflict).Some? <==>
            |xy| == 2 && path != [] && Utf8.Valid(path) && (original.Some? ==> Utf8.Valid(original.value))
  {
    hide Utf8.Valid, SubmoduleChanged;
  }

  lemma FieldsAreParsed(record: Bytes, fields: seq<Bytes>, rest: seq<Bytes>)
    requires record != [] && |fields| > 2 && fields[0] == [record[0]] && record[0] in [49, 50, 117]
    requires |fields| == if record[0] == 49 then 9 else if record[0] == 50 then 10 else 11
    requires SplitN(record, |fields|, SPACE) == fields
    ensures ParseFile(record, rest) ==
              if record[0] == 50 && rest == [] then None
              else Change(fields[1], fields[2], fields[|fields| - 1], if record[0] == 50 then Some(rest[0]) else None,
                          record[0] == 117)
  {
    hide SplitN, Change;
  }

  /** Fields that are as many as their kind has parse exactly if there are two
      letters and the paths are text, the first of them not empty. */
  lemma {:induction false} FieldsParseIff(fields: seq<Bytes>, rest: seq<Bytes>)
    requires |fields| > 2 && fields[0] in [[49], [50], [117]]
    requires |fields| == if fields[0] == [49] then 9 else if fields[0] == [50] then 10 else 11
    requires forall i | 0 <= i < |fields| - 1 :: 32 !in fields[i]
    ensures var path := fields[|fields| - 1];
            ParseFile(Join(fields, 32), rest).Some? <==>
            && |fields[1]| == 2 && path != [] && Utf8.Valid(path)
            && (fields[0] == [50] ==> rest != [] && Utf8.Valid(rest[0]))
  {
    var record := Join(fields, 32);
    assert record == fields[0] + [32] + Join(fields[1..], 32);
    assert record[0] == fields[0][0] && fields[0] == [record[0]];
    hide Join, SplitN, Change, Utf8.Valid, ParseFile;
    SplitNJoin(fields, SPACE);
    FieldsAreParsed(record, fields, rest);
    ChangeIff(fields[1], fields[2], fields[|fields| - 1],
              if record[0] == 50 && rest != [] then Some(rest[0]) else None, record[0] == 117);
  }

  // ----- Why the original path must be there

  /** A rename without its original path takes the next record instead. */
  lemma RenameTakesNext(e: Entry, next: Bytes)
    requires EntryOk(e) && e.Renamed? && PathOk(next)
    ensures Parsed(RecordOf(e) + [NUL] + [NUL] + (next + [NUL]), false).Some?
  {
    var record, taken := RecordOf(e), e.(original := next);
    assert FieldsOf(taken) == FieldsOf(e);
    EntryParses(taken, [next]);
    TwoRecords(record, next);
    hide Records, RecordOf, ParseFile, ParseFrom, EntryOk, FieldsOf, Described;
    FirstParses(record, [next], Status(None, [], false));
    assert [record] + [next] == [record, next];
    NothingParses([next][1..], Status(None, [Described(taken)], false));
  }

  lemma NothingParses(none: seq<Bytes>, acc: Status)
    requires none == []
    ensures ParseFrom(none, acc) == Some(acc)
  {
  }

  lemma TwoRecords(record: Bytes, next: Bytes)
    requires NUL !in record && NUL !in next && record != [] && next != []
    ensures Records(record + [NUL] + [NUL] + (next + [NUL])) == [record, next]
  {
    var none: Bytes := [];
    var tail := none + [NUL] + (next + [NUL]);
    assert record + [NUL] + tail == record + [NUL] + [NUL] + (next + [NUL]);
    hide Records;
    RecordsAt(record, tail);
    RecordsAt(none, next + [NUL]);
    RecordsOfOne(record);
    RecordsOfOne(next);
    RecordsOfOne(none);
    assert [] + [next] == [next] && [record] + [next] == [record, next];
  }

  lemma GroupWithoutOriginal(record: Bytes, next: Bytes)
    requires NUL !in record && StartsRename(record)
    ensures var group := record + [NUL] + [NUL];
            FirstGroup(group + (next + [NUL])) == Some(|group|)
            && !OriginalPresent(group + (next + [NUL]), |group|)
  {
    var tail := [NUL] + (next + [NUL]);
    FirstRecordAfter(record, tail);
    var input := record + [NUL] + [NUL] + (next + [NUL]);
    assert input == record + [NUL] + tail;
    var m := |record| + 1;
    assert input[..m] == record + [NUL] && input[m..] == tail;
    assert FirstRecord(tail) == Some(1);
  }

  /** If the collector stops between the rename and the record it took, what is
      kept no longer parses. */
  lemma EmptyOriginalBreaksTruncation(e: Entry, next: Bytes)
    requires EntryOk(e) && e.Renamed? && PathOk(next)
    ensures var group := RecordOf(e) + [NUL] + [NUL];
            var input := group + (next + [NUL]);
            && Parsed(input, false).Some?
            && Collected(input, |input|, 1) == (group, true)
            && Parsed(group, true).None?
  {
    var group := RecordOf(e) + [NUL] + [NUL];
    var input := group + (next + [NUL]);
    RecordShape(e);
    RenameTakesNext(e, next);
    GroupWithoutOriginal(RecordOf(e), next);
    hide RecordOf, Records, ParseFrom, FirstGroup, EntryOk, Collected, KeptLength, Admissible, OriginalPresent;
    assert input[..|group|] == group && StartsFile(group);
    LoneRename(input, |group|, Status(None, [], true));
    CollectedIsLongestPrefix(input, |input|, 1);
    KeptStep(input, |input|, 1);
    KeptStep(input[|group|..], |input| - |group|, 0);
  }

  lemma {:induction false} FirstRecordAfter(record: Bytes, tail: Bytes)
    requires NUL !in record
    ensures FirstRecord(record + [NUL] + tail) == Some(|record| + 1)
  {
    var s := record + [NUL] + tail;
    if record == [] {
      assert s[0] == NUL;
    } else {
      FirstRecordAfter(record[1..], tail);
      assert record[0] in record;
      assert s[1..] == record[1..] + [NUL] + tail;
    }
  }
}
