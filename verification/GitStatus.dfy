/** Parsing NUL-separated `git status` output in Porcelain Format Version 2. */
module GitStatus {
  import opened Wrappers
  import opened Bytes
  import opened GitCollector
  import Utf8

  datatype FileChange = FileChange(
    path: Bytes, originalPath: Option<Bytes>,
    indexStatus: Option<byte>, worktreeStatus: Option<byte>, conflict: bool)

  /** `branch` is the name before its lossy decoding. */
  datatype Status = Status(branch: Option<Bytes>, files: seq<FileChange>, truncated: bool)

  const BRANCH_HEAD: Bytes := [35, 32, 98, 114, 97, 110, 99, 104, 46, 104, 101, 97, 100, 32]
  const HEADER: Bytes := [35, 32]
  const IGNORED: Bytes := [33, 32]
  const DOT: byte := 46
  const MODIFIED: byte := 77

  function IndexOf(s: Bytes, b: byte): Option<nat> {
    if s == [] then None
    else if s[0] == b then Some(0)
    else match IndexOf(s[1..], b) case None => None case Some(i) => Some(i + 1)
  }

  lemma {:induction false} IndexOfBounds(s: Bytes, b: byte)
    ensures IndexOf(s, b).Some? ==> IndexOf(s, b).value < |s| && s[IndexOf(s, b).value] == b
  {
    if s != [] {
      IndexOfBounds(s[1..], b);
    }
  }

  /** `splitn`: at most `n` fields, the last of which keeps its separators. */
  function SplitN(s: Bytes, n: nat, sep: byte): seq<Bytes>
    requires n > 0
    decreases n
  {
    IndexOfBounds(s, sep);
    match IndexOf(s, sep)
    case None => [s]
    case Some(i) => if n == 1 then [s] else [s[..i]] + SplitN(s[i + 1..], n - 1, sep)
  }

  function StatusCharacter(b: byte): Option<byte> {
    if b == DOT || b == SPACE then None else Some(b)
  }

  /** A submodule with changes of its own counts as modified in the work tree. */
  predicate SubmoduleChanged(submodule: Bytes) {
    |submodule| == 4 && submodule[0] == 83 && exists b | b in submodule[1..] :: b != DOT
  }

  function Change(xy: Bytes, submodule: Bytes, path: Bytes, originalPath: Option<Bytes>, conflict: bool)
    : Option<FileChange>
  {
    if |xy| != 2 || path == [] || !Utf8.Valid(path)
       || (originalPath.Some? && !Utf8.Valid(originalPath.value)) then None
    else
      var worktree := StatusCharacter(xy[1]);
      Some(FileChange(path, originalPath, StatusCharacter(xy[0]),
                      if worktree.None? && SubmoduleChanged(submodule) then Some(MODIFIED) else worktree,
                      conflict))
  }

  /** `parse_file_status`; a rename takes its original path from the next record. */
  function ParseFile(record: Bytes, rest: seq<Bytes>): Option<FileChange> {
    if record == [] then None
    else if record[0] == 49 then
      var fields := SplitN(record, 9, SPACE);
      if |fields| != 9 || fields[0] != [49] then None
      else Change(fields[1], fields[2], fields[8], None, false)
    else if record[0] == 50 then
      var fields := SplitN(record, 10, SPACE);
      if |fields| != 10 || fields[0] != [50] || rest == [] then None
      else Change(fields[1], fields[2], fields[9], Some(rest[0]), false)
    else if record[0] == 117 then
      var fields := SplitN(record, 11, SPACE);
      if |fields| != 11 || fields[0] != [117] then None
      else Change(fields[1], fields[2], fields[10], None, true)
    else if record[0] == 63 && |record| > 1 && record[1] == SPACE then
      Change([63, 63], [78, 46, 46, 46], record[2..], None, false)
    else None
  }

  function NonEmpty(records: seq<Bytes>): seq<Bytes> {
    if records == [] then []
    else if records[0] == [] then NonEmpty(records[1..])
    else [records[0]] + NonEmpty(records[1..])
  }

  function Records(output: Bytes): seq<Bytes> {
    NonEmpty(Split(output, NUL))
  }

  /** A detached head is printed in parentheses and is no branch. */
  function HeadBranch(name: Bytes): Option<Bytes> {
    if name != [] && name[0] == 40 then None else Some(name)
  }

  function ParseFrom(records: seq<Bytes>, acc: Status): Option<Status>
    decreases |records|
  {
    if records == [] then Some(acc)
    else
      var record, rest := records[0], records[1..];
      if BRANCH_HEAD <= record then
        ParseFrom(rest, acc.(branch := HeadBranch(record[|BRANCH_HEAD|..])))
      else if HEADER <= record || IGNORED <= record then ParseFrom(rest, acc)
      else
        match ParseFile(record, rest)
        case None => None
        case Some(change) =>
          ParseFrom(if change.originalPath.Some? && rest != [] then rest[1..] else rest,
                    acc.(files := acc.files + [change]))
  }

  function Parsed(output: Bytes, truncated: bool): Option<Status> {
    ParseFrom(Records(output), Status(None, [], truncated))
  }

  method ParseStatus(output: Bytes, truncated: bool) returns (status: Option<Status>)
    ensures status == Parsed(output, truncated)
  {
    var records := Records(output);
    var branch: Option<Bytes> := None;
    var files: seq<FileChange> := [];
    var i := 0;
    while i < |records|
      invariant 0 <= i <= |records|
      invariant Parsed(output, truncated) == ParseFrom(records[i..], Status(branch, files, truncated))
      decreases |records| - i
    {
      var record := records[i];
      i := i + 1;
      if BRANCH_HEAD <= record {
        branch := HeadBranch(record[|BRANCH_HEAD|..]);
      } else if !(HEADER <= record || IGNORED <= record) {
        var change := ParseFile(record, records[i..]);
        if change.None? {
          return None;
        }
        if change.value.originalPath.Some? && i < |records| {
          assert records[i..][1..] == records[i + 1..];
          i := i + 1;
        }
        files := files + [change.value];
      }
    }
    return Some(Status(branch, files, truncated));
  }

  // ----- Truncating never breaks the parse

  lemma NonEmptyCons(first: Bytes, rest: seq<Bytes>)
    ensures NonEmpty([first] + rest) == (if first == [] then [] else [first]) + NonEmpty(rest)
  {
    assert ([first] + rest)[1..] == rest;
  }

  lemma {:induction false} NonEmptyConcat(a: seq<Bytes>, b: seq<Bytes>)
    ensures NonEmpty(a + b) == NonEmpty(a) + NonEmpty(b)
  {
    if a == [] {
      assert a + b == b;
    } else {
      hide NonEmpty;
      var first, rest := a[0], a[1..];
      NonEmptyConcat(rest, b);
      NonEmptyCons(first, rest);
      NonEmptyCons(first, rest + b);
      assert a == [first] + rest;
      Associative([first], rest, b);
      Associative(if first == [] then [] else [first], NonEmpty(rest), NonEmpty(b));
    }
  }

  /** Output that ends at a NUL splits cleanly there. */
  lemma RecordsAt(a: Bytes, b: Bytes)
    ensures Records(a + [NUL] + b) == Records(a + [NUL]) + Records(b)
    ensures Records(a + [NUL]) == NonEmpty(Split(a, NUL))
  {
    RecordsBefore(a);
    SplitAtSeparator(a, NUL, b);
    NonEmptyConcat(Split(a, NUL), Split(b, NUL));
    hide Split, NonEmpty;
  }

  lemma RecordsBefore(a: Bytes)
    ensures Records(a + [NUL]) == NonEmpty(Split(a, NUL))
  {
    var none: Bytes := [];
    var blank: seq<Bytes> := [[]];
    SplitAtSeparator(a, NUL, none);
    assert a + [NUL] + none == a + [NUL];
    NonEmptyConcat(Split(a, NUL), blank);
    assert Split(none, NUL) == blank && blank[1..] == [] && NonEmpty(blank) == [];
    hide Split, NonEmpty;
    assert NonEmpty(Split(a, NUL)) + [] == NonEmpty(Split(a, NUL));
  }

  lemma RecordsOfOne(record: Bytes)
    requires NUL !in record
    ensures Records(record + [NUL]) == if record == [] then [] else [record]
  {
    RecordsAt(record, []);
    SplitPiece(record, NUL);
    var one: seq<Bytes> := [record];
    assert one[1..] == [];
  }

  lemma RecordsOfTwo(record: Bytes, original: Bytes)
    requires NUL !in record && NUL !in original && record != [] && original != []
    ensures Records(record + [NUL] + (original + [NUL])) == [record, original]
  {
    RecordsAt(record, original + [NUL]);
    SplitPiece(record, NUL);
    RecordsOfOne(original);
    RecordsOfOne(record);
  }

  /** The record of a plain group, if it is not empty. */
  lemma PlainGroupRecords(s: Bytes, n: nat)
    requires FirstRecord(s) == Some(n)
    ensures 0 < n <= |s| && Records(s[..n]) == if n == 1 then [] else [s[..n - 1]]
  {
    hide Records, FirstRecord;
    FirstRecordBounds(s);
    RecordsOfOne(s[..n - 1]);
    SliceLast(s, n);
  }

  /** The two records of a rename group. */
  lemma {:induction false} RenameGroupRecords(s: Bytes, m: nat, n: nat)
    requires 1 < m <= |s| && FirstRecord(s) == Some(m) && m + 1 < n && FirstRecord(s[m..]) == Some(n - m)
    ensures n <= |s| && Records(s[..n]) == [s[..m - 1], s[m..][..n - m - 1]]
  {
    hide Records, FirstRecord;
    var rest := s[m..];
    FirstRecordBounds(s);
    FirstRecordBounds(rest);
    RecordsOfTwo(s[..m - 1], rest[..n - m - 1]);
    SliceAt(s, m, n);
    SliceLast(s, m);
    SliceLast(rest, n - m);
  }

  lemma {:induction false} GroupBounds(s: Bytes, n: nat)
    requires FirstGroup(s) == Some(n)
    ensures FirstRecord(s).Some? && 0 < n <= |s| && s[n - 1] == NUL
    ensures var m := FirstRecord(s).value;
            0 < m <= n && if StartsRename(s[..m]) then m < n && FirstRecord(s[m..]) == Some(n - m) else m == n
  {
    FirstRecordBounds(s);
    FirstRecordBounds(s[FirstRecord(s).value..]);
  }

  /** Groups split off cleanly. */
  lemma GroupRecords(s: Bytes, n: nat)
    requires FirstGroup(s) == Some(n)
    ensures Records(s) == Records(s[..n]) + Records(s[n..])
  {
    KeptGroup(s, n, |s|);
    assert s[..|s|] == s && s[n..][..|s| - n] == s[n..];
  }

  lemma KeptGroup(s: Bytes, n: nat, k: nat)
    requires FirstGroup(s) == Some(n) && n <= k <= |s|
    ensures Records(s[..k]) == Records(s[..n]) + Records(s[n..][..k - n])
  {
    GroupBounds(s, n);
    var body, rest := s[..n - 1], s[n..][..k - n];
    assert body + [NUL] == s[..n];
    assert body + [NUL] + rest == s[..k];
    RecordsAt(body, rest);
  }

  /** The first group, of `n` bytes, is no rename or names its original path. */
  predicate OriginalPresent(s: Bytes, n: nat) {
    var m := FirstRecord(s).GetOr(0);
    m <= n && m <= |s| && StartsRename(s[..m]) ==> m + 1 < n
  }

  /** Every whole rename group names its original path. */
  predicate OriginalsPresent(s: Bytes)
    decreases |s|
  {
    match FirstGroup(s)
    case None => true
    case Some(n) => OriginalPresent(s, n) && OriginalsPresent(s[n..])
  }

  /** A record that does not start a rename is parsed from itself alone. */
  lemma ParseAlone(record: Bytes, rest: seq<Bytes>)
    requires !StartsRename(record) && record != []
    ensures ParseFile(record, rest) == ParseFile(record, [])
    ensures ParseFile(record, rest).Some? ==> ParseFile(record, rest).value.originalPath.None?
  {
    if record[0] == 50 {
      IndexOfBounds(record, SPACE);
      SplitFirst(record);
    }
  }

  lemma SplitFirst(record: Bytes)
    requires record != [] && record[0] == 50 && !StartsRename(record)
    ensures var fields := SplitN(record, 10, SPACE); |fields| != 10 || fields[0] != [50]
  {
    IndexOfBounds(record, SPACE);
    if IndexOf(record, SPACE).Some? {
      var i := IndexOf(record, SPACE).value;
      assert i > 1;
      assert record[..i] != [50];
    }
  }

  lemma {:induction false} ParseFromExtends(records: seq<Bytes>, acc: Status)
    requires ParseFrom(records, acc).Some?
    ensures acc.files <= ParseFrom(records, acc).value.files
    ensures ParseFrom(records, acc).value.truncated == acc.truncated
    decreases |records|
  {
    if records != [] {
      var record, rest := records[0], records[1..];
      if BRANCH_HEAD <= record {
        ParseFromExtends(rest, acc.(branch := HeadBranch(record[|BRANCH_HEAD|..])));
      } else if HEADER <= record || IGNORED <= record {
        ParseFromExtends(rest, acc);
      } else {
        var change := ParseFile(record, rest).value;
        ParseFromExtends(if change.originalPath.Some? && rest != [] then rest[1..] else rest,
                         acc.(files := acc.files + [change]));
      }
    }
  }

  /** What parsing `records` and then `tail` comes to, if the first part stands alone. */
  predicate StandsAlone(records: seq<Bytes>, tail: seq<Bytes>, acc: Status, files: nat) {
    var alone := ParseFrom(records, acc);
    && ParseFrom(records + tail, acc)
       == (match alone case None => None case Some(after) => ParseFrom(tail, after))
    && (alone.Some? ==> acc.files <= alone.value.files && |alone.value.files| == |acc.files| + files)
  }

  lemma RenameStandsAlone(record: Bytes, original: Bytes, tail: seq<Bytes>, acc: Status)
    requires StartsRename(record)
    ensures StandsAlone([record, original], tail, acc, 1)
  {
    var both, all := [record, original], [record, original] + tail;
    assert both[1..] == [original] && [original][1..] == [];
    assert all[1..] == [original] + tail && ([original] + tail)[1..] == tail;
  }

  lemma RecordStandsAlone(record: Bytes, tail: seq<Bytes>, acc: Status)
    requires record != [] && !StartsRename(record)
    ensures StandsAlone([record], tail, acc, if StartsFile(record) then 1 else 0)
  {
    assert ([record] + tail)[1..] == tail && [record][1..] == [];
    ParseAlone(record, tail);
  }

  /** A group whose original path is there is parsed from itself alone, and adds a
      file exactly if it starts like one. */
  lemma ParseGroup(s: Bytes, n: nat, tail: seq<Bytes>, acc: Status)
    requires FirstGroup(s) == Some(n) && OriginalPresent(s, n)
    ensures StandsAlone(Records(s[..n]), tail, acc, if StartsFile(s[..n]) then 1 else 0)
  {
    GroupBounds(s, n);
    var m := FirstRecord(s).value;
    var record := s[..m - 1];
    assert s[m - 1] == NUL by {
      FirstRecordBounds(s);
    }
    hide StandsAlone, Records, FirstGroup;
    if StartsRename(s[..m]) {
      RenameGroupRecords(s, m, n);
      RenameStandsAlone(record, s[m..][..n - m - 1], tail, acc);
    } else {
      PlainGroupRecords(s, n);
      if record == [] {
        assert s[..n][0] == NUL;
        NothingStandsAlone(tail, acc);
      } else {
        assert s[..n][0] == record[0];
        RecordStandsAlone(record, tail, acc);
      }
    }
  }

  lemma NothingStandsAlone(tail: seq<Bytes>, acc: Status)
    ensures StandsAlone([], tail, acc, 0)
  {
    var none: seq<Bytes> := [];
    assert none + tail == tail;
  }

  /** What was kept of output that parses, parses too, to a prefix of its files. */
  lemma {:induction false} KeptParses(s: Bytes, maxBytes: nat, maxRecords: nat, acc: Status)
    requires OriginalsPresent(s) && ParseFrom(Records(s), acc).Some?
    ensures KeptLength(s, maxBytes, maxRecords) <= |s|
    ensures var kept := ParseFrom(Records(s[..KeptLength(s, maxBytes, maxRecords)]), acc);
            kept.Some? && kept.value.files <= ParseFrom(Records(s), acc).value.files
            && |kept.value.files| <= |acc.files| + maxRecords
    decreases |s|
  {
    hide KeptLength, FirstGroup, Admissible;
    KeptStep(s, maxBytes, maxRecords);
    var k := KeptLength(s, maxBytes, maxRecords);
    if k == 0 {
      var blank: seq<Bytes> := [[]];
      assert blank[1..] == [];
      assert s[..0] == [] && Records([]) == [];
      ParseFromExtends(Records(s), acc);
    } else {
      var n := FirstGroup(s).value;
      var left := maxRecords - if StartsFile(s[..n]) then 1 else 0;
      GroupRecords(s, n);
      ParseGroup(s, n, Records(s[n..]), acc);
      assert OriginalPresent(s, n) && OriginalsPresent(s[n..]);
      hide OriginalsPresent, ParseFrom, Records;
      var after := ParseFrom(Records(s[..n]), acc).value;
      KeptParses(s[n..], maxBytes - n, left, after);
      KeptGroup(s, n, k);
      ParseGroup(s, n, Records(s[n..][..k - n]), acc);
    }
  }

  /** Truncation never breaks a parse: if the whole output parses and its renames
      name their original paths, what the collector keeps parses to a prefix of
      the same files, at most the allowed number of them. */
  lemma TruncatedStatusIsAPrefix(input: Bytes, maxBytes: nat, maxRecords: nat)
    requires OriginalsPresent(input) && Parsed(input, false).Some?
    ensures var (output, truncated) := Collected(input, maxBytes, maxRecords);
            var status := Parsed(output, truncated);
            status.Some? && status.value.files <= Parsed(input, false).value.files
            && |status.value.files| <= maxRecords
            && (!truncated ==> status == Parsed(input, false))
  {
    CollectedIsLongestPrefix(input, maxBytes, maxRecords);
    var k := KeptLength(input, maxBytes, maxRecords);
    KeptParses(input, maxBytes, maxRecords, Status(None, [], false));
    if k < |input| {
      FlagIsCarried(Records(input[..k]), Status(None, [], false));
    } else {
      assert input[..k] == input;
    }
  }

  /** The truncation flag is only passed through. */
  lemma {:induction false} FlagIsCarried(records: seq<Bytes>, acc: Status)
    ensures ParseFrom(records, acc.(truncated := true))
         == match ParseFrom(records, acc) case None => None case Some(s) => Some(s.(truncated := true))
    decreases |records|
  {
    if records != [] {
      var record, rest := records[0], records[1..];
      if BRANCH_HEAD <= record {
        FlagIsCarried(rest, acc.(branch := HeadBranch(record[|BRANCH_HEAD|..])));
      } else if HEADER <= record || IGNORED <= record {
        FlagIsCarried(rest, acc);
      } else if ParseFile(record, rest).Some? {
        var change := ParseFile(record, rest).value;
        FlagIsCarried(if change.originalPath.Some? && rest != [] then rest[1..] else rest,
                      acc.(files := acc.files + [change]));
      }
    }
  }

  // ----- Without the original paths it does

  lemma NoOriginalNoParse(record: Bytes, acc: Status)
    requires StartsRename(record)
    ensures ParseFrom([record], acc).None?
  {
    hide SplitN, Change;
    assert [record][1..] == [];
  }

  /** A group without its original path is a record that does not parse. */
  lemma LoneRename(s: Bytes, n: nat, acc: Status)
    requires FirstGroup(s) == Some(n) && !OriginalPresent(s, n)
    ensures ParseFrom(Records(s[..n]), acc).None?
  {
    GroupBounds(s, n);
    var m := FirstRecord(s).value;
    FirstRecordBounds(s);
    FirstRecordBounds(s[m..]);
    hide Records, FirstGroup, FirstRecord, ParseFrom;
    var record := s[..m - 1];
    SliceLast(s, m);
    SliceLast(s, n);
    assert n == m + 1 && s[..n] == record + [NUL] + [NUL];
    RecordsAt(record, [NUL]);
    RecordsOfOne(record);
    var none: Bytes := [];
    RecordsOfOne(none);
    assert none + [NUL] == [NUL];
    assert [record] + [] == [record];
    NoOriginalNoParse(record, acc);
  }

  /** Output can be cut right after the first group without its original path. */
  lemma {:induction false} CutDoesNotParse(s: Bytes, maxRecords: nat, acc: Status) returns (k: nat)
    requires !OriginalsPresent(s) && maxRecords >= |s|
    ensures k <= |s| && KeptLength(s, k, maxRecords) == k
    ensures ParseFrom(Records(s[..k]), acc).None?
    decreases |s|
  {
    hide KeptLength, Records, ParseFrom, FirstGroup;
    var n := FirstGroup(s).value;
    GroupBounds(s, n);
    if !OriginalPresent(s, n) {
      k := n;
      KeptStep(s, n, maxRecords);
      KeptStep(s[n..], 0, maxRecords - if StartsFile(s[..n]) then 1 else 0);
      LoneRename(s, n, acc);
    } else {
      var left := maxRecords - if StartsFile(s[..n]) then 1 else 0;
      var after := ParseFrom(Records(s[..n]), acc);
      var rest := CutDoesNotParse(s[n..], left, after.GetOr(acc));
      k := n + rest;
      KeptStep(s, k, maxRecords);
      KeptGroup(s, n, k);
      ParseGroup(s, n, Records(s[n..][..rest]), acc);
    }
  }

  /** What the collector keeps under any limits parses. */
  ghost predicate SurvivesTruncation(input: Bytes) {
    forall maxBytes: nat, maxRecords: nat ::
      var (output, truncated) := Collected(input, maxBytes, maxRecords);
      Parsed(output, truncated).Some?
  }

  /** Output that parses survives every truncation exactly if its renames name
      their original paths. */
  lemma SurvivesIffOriginalsPresent(input: Bytes)
    requires Parsed(input, false).Some?
    ensures SurvivesTruncation(input) <==> OriginalsPresent(input)
  {
    hide OriginalsPresent, ParseFrom, Records, KeptLength, Collected, Admissible;
    if OriginalsPresent(input) {
      forall maxBytes: nat, maxRecords: nat
        ensures var (output, truncated) := Collected(input, maxBytes, maxRecords);
                Parsed(output, truncated).Some?
      {
        TruncatedStatusIsAPrefix(input, maxBytes, maxRecords);
      }
    } else {
      var k := CutDoesNotParse(input, |input|, Status(None, [], false));
      CollectedIsLongestPrefix(input, k, |input|);
      FlagIsCarried(Records(input[..k]), Status(None, [], false));
      var (output, truncated) := Collected(input, k, |input|);
      assert Parsed(output, truncated).None?;
    }
  }
}
