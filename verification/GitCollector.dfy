/** The bounded collector of `git status` output. It keeps whole records only:
    a record ends at a NUL, and a rename record takes its original path with it. */
module GitCollector {
  import opened Wrappers
  import opened Bytes

  datatype Collector = Collector(
    output: Bytes, pending: Bytes, fileRecords: nat, awaitingOriginalPath: bool, truncated: bool)

  const EMPTY := Collector([], [], 0, false, false)

  predicate AtLimit(c: Collector, maxBytes: nat, maxRecords: nat) {
    c.fileRecords >= maxRecords || |c.output| + |c.pending| >= maxBytes
  }

  predicate StartsRename(record: Bytes) {
    |record| >= 2 && record[0] == 50 && record[1] == SPACE
  }

  /** `1`, `2`, `u` and `?` start records of files. */
  predicate StartsFile(record: Bytes) {
    record != [] && (record[0] == 49 || record[0] == 50 || record[0] == 117 || record[0] == 63)
  }

  function TakeByte(c: Collector, b: byte): Collector {
    var pending := c.pending + [b];
    if b != NUL then c.(pending := pending)
    else if !c.awaitingOriginalPath && StartsRename(pending) then
      c.(pending := pending, awaitingOriginalPath := true)
    else
      c.(output := c.output + pending, pending := [], awaitingOriginalPath := false,
         fileRecords := c.fileRecords + if StartsFile(pending) then 1 else 0)
  }

  function TakeAll(c: Collector, bytes: Bytes, maxBytes: nat, maxRecords: nat): (Collector, bool)
    decreases |bytes|
  {
    if bytes == [] then (c, true)
    else if AtLimit(c, maxBytes, maxRecords) then (c.(truncated := true), false)
    else TakeAll(TakeByte(c, bytes[0]), bytes[1..], maxBytes, maxRecords)
  }

  /** What is kept of the whole output, and whether something was left out. */
  function Collected(input: Bytes, maxBytes: nat, maxRecords: nat): (Bytes, bool) {
    var (c, _) := TakeAll(EMPTY, input, maxBytes, maxRecords);
    (c.output, c.truncated || c.pending != [])
  }

  class StatusOutputCollector {
    var output: Bytes
    var pending: Bytes
    var fileRecords: nat
    var awaitingOriginalPath: bool
    var truncated: bool
    const maxBytes: nat
    const maxRecords: nat

    ghost function View(): Collector
      reads this
    {
      Collector(output, pending, fileRecords, awaitingOriginalPath, truncated)
    }

    constructor (maxBytes: nat, maxRecords: nat)
      ensures View() == EMPTY && this.maxBytes == maxBytes && this.maxRecords == maxRecords
    {
      this.maxBytes, this.maxRecords := maxBytes, maxRecords;
      output, pending, fileRecords, awaitingOriginalPath, truncated := [], [], 0, false, false;
    }

    method Push(bytes: Bytes) returns (more: bool)
      modifies this
      ensures (View(), more) == TakeAll(old(View()), bytes, maxBytes, maxRecords)
    {
      var i := 0;
      while i < |bytes|
        invariant 0 <= i <= |bytes|
        invariant TakeAll(old(View()), bytes, maxBytes, maxRecords)
               == TakeAll(View(), bytes[i..], maxBytes, maxRecords)
      {
        if fileRecords >= maxRecords || |output| + |pending| >= maxBytes {
          truncated := true;
          return false;
        }
        pending := pending + [bytes[i]];
        if bytes[i] == NUL {
          if !awaitingOriginalPath && StartsRename(pending) {
            awaitingOriginalPath := true;
          } else {
            if StartsFile(pending) {
              fileRecords := fileRecords + 1;
            }
            output, pending := output + pending, [];
            awaitingOriginalPath := false;
          }
        }
        i := i + 1;
      }
      return true;
    }

    method Finish() returns (kept: Bytes, cut: bool)
      modifies `truncated
      ensures kept == old(output) && cut == (old(truncated) || old(pending) != [])
    {
      if pending != [] {
        truncated := true;
      }
      return output, truncated;
    }
  }

  function Concat(chunks: seq<Bytes>): Bytes {
    if chunks == [] then [] else chunks[0] + Concat(chunks[1..])
  }

  lemma {:induction false} TakeAllConcat(c: Collector, a: Bytes, b: Bytes, maxBytes: nat, maxRecords: nat)
    ensures var (d, more) := TakeAll(c, a, maxBytes, maxRecords);
            TakeAll(c, a + b, maxBytes, maxRecords)
            == if more then TakeAll(d, b, maxBytes, maxRecords) else (d, false)
    decreases |a|
  {
    if a == [] {
      assert a + b == b;
    } else {
      assert (a + b)[1..] == a[1..] + b;
      if !AtLimit(c, maxBytes, maxRecords) {
        TakeAllConcat(TakeByte(c, a[0]), a[1..], b, maxBytes, maxRecords);
      }
    }
  }

  /** The read loop: chunks are pushed until the collector refuses one. What it
      keeps is a function of the whole output, however it was cut into chunks. */
  method CollectStatusOutput(chunks: seq<Bytes>, maxBytes: nat, maxRecords: nat)
    returns (output: Bytes, truncated: bool)
    ensures (output, truncated) == Collected(Concat(chunks), maxBytes, maxRecords)
  {
    var collector := new StatusOutputCollector(maxBytes, maxRecords);
    var more, i := true, 0;
    assert chunks[0..] == chunks;
    while i < |chunks| && more
      invariant 0 <= i <= |chunks|
      invariant collector.maxBytes == maxBytes && collector.maxRecords == maxRecords
      invariant fresh(collector)
      invariant TakeAll(EMPTY, Concat(chunks), maxBytes, maxRecords)
             == if more then TakeAll(collector.View(), Concat(chunks[i..]), maxBytes, maxRecords)
                else (collector.View(), false)
    {
      TakeAllConcat(collector.View(), chunks[i], Concat(chunks[i + 1..]), maxBytes, maxRecords);
      assert chunks[i..][1..] == chunks[i + 1..];
      more := collector.Push(chunks[i]);
      i := i + 1;
    }
    output, truncated := collector.Finish();
  }

  // ----- Reference: the longest prefix of whole groups within the limits

  /** The length up to and including the first NUL, if there is one. */
  function FirstRecord(s: Bytes): Option<nat> {
    if s == [] then None
    else if s[0] == NUL then Some(1)
    else
      match FirstRecord(s[1..])
      case None => None
      case Some(n) => Some(n + 1)
  }

  lemma {:induction false} FirstRecordBounds(s: Bytes)
    ensures FirstRecord(s).Some? ==>
              var n := FirstRecord(s).value;
              0 < n <= |s| && s[n - 1] == NUL && NUL !in s[..n - 1]
    ensures FirstRecord(s).None? ==> NUL !in s
  {
    if s != [] && s[0] != NUL {
      FirstRecordBounds(s[1..]);
      if FirstRecord(s).Some? {
        var n := FirstRecord(s).value;
        assert s[..n - 1] == [s[0]] + s[1..][..n - 2];
      }
      assert s == [s[0]] + s[1..];
    }
  }

  /** The length of the first group: a record, with its original path if a rename. */
  function FirstGroup(s: Bytes): (g: Option<nat>)
    ensures g.Some? ==> 0 < g.value <= |s|
  {
    FirstRecordBounds(s);
    match FirstRecord(s)
    case None => None
    case Some(n) =>
      if !StartsRename(s[..n]) then Some(n)
      else
        FirstRecordBounds(s[n..]);
        match FirstRecord(s[n..])
        case None => None
        case Some(m) => Some(n + m)
  }

  /** The prefix of length `k` consists of whole groups, the last of which may be
      the `records`-th of a file but none comes after it. */
  predicate Admissible(s: Bytes, k: nat, records: nat)
    decreases k
  {
    k == 0
    || (records > 0 && FirstGroup(s).Some? && FirstGroup(s).value <= k
        && var n := FirstGroup(s).value;
           Admissible(s[n..], k - n, records - if StartsFile(s[..n]) then 1 else 0))
  }

  function KeptLength(s: Bytes, maxBytes: nat, maxRecords: nat): nat
    decreases |s|
  {
    match FirstGroup(s)
    case None => 0
    case Some(n) =>
      if maxRecords == 0 || n > maxBytes then 0
      else n + KeptLength(s[n..], maxBytes - n, maxRecords - if StartsFile(s[..n]) then 1 else 0)
  }

  lemma {:induction false} KeptIsLongest(s: Bytes, maxBytes: nat, maxRecords: nat)
    ensures KeptLength(s, maxBytes, maxRecords) <= maxBytes
    ensures KeptLength(s, maxBytes, maxRecords) <= |s|
    ensures Admissible(s, KeptLength(s, maxBytes, maxRecords), maxRecords)
    ensures forall k: nat | k <= maxBytes && Admissible(s, k, maxRecords) ::
              k <= KeptLength(s, maxBytes, maxRecords)
    decreases |s|
  {
    if FirstGroup(s).Some? && maxRecords > 0 && FirstGroup(s).value <= maxBytes {
      var n := FirstGroup(s).value;
      var left := maxRecords - if StartsFile(s[..n]) then 1 else 0;
      KeptIsLongest(s[n..], maxBytes - n, left);
      forall k: nat | k <= maxBytes && Admissible(s, k, maxRecords)
        ensures k <= KeptLength(s, maxBytes, maxRecords)
      {
        if k > 0 {
          assert Admissible(s[n..], k - n, left);
        }
      }
    }
  }

  /** While no NUL comes, bytes only queue up as pending. */
  lemma {:induction false} TakePlain(c: Collector, plain: Bytes, maxBytes: nat, maxRecords: nat)
    requires NUL !in plain
    ensures var room := maxBytes - |c.output| - |c.pending|;
            TakeAll(c, plain, maxBytes, maxRecords)
            == if plain == [] then (c, true)
               else if c.fileRecords >= maxRecords || room <= 0 then (c.(truncated := true), false)
               else if |plain| <= room then (c.(pending := c.pending + plain), true)
               else (c.(pending := c.pending + plain[..room], truncated := true), false)
    decreases |plain|
  {
    if plain != [] && !AtLimit(c, maxBytes, maxRecords) {
      var d := TakeByte(c, plain[0]);
      assert plain[0] in plain;
      TakePlain(d, plain[1..], maxBytes, maxRecords);
      var room := maxBytes - |c.output| - |c.pending|;
      assert plain == [plain[0]] + plain[1..];
      if |plain| <= room {
        assert plain[1..] == [] ==> d.pending == c.pending + plain;
        assert d.pending + plain[1..] == c.pending + plain;
      } else {
        assert d.pending + plain[1..][..room - 1] == c.pending + plain[..room];
      }
    }
  }

  /** Between groups the collector is in this state. */
  predicate Resting(c: Collector) {
    c.pending == [] && !c.awaitingOriginalPath && !c.truncated
  }

  /** A whole record taken from `c`, or a refusal on the way that keeps nothing of it. */
  lemma TakeRecord(c: Collector, s: Bytes, n: nat, maxBytes: nat, maxRecords: nat)
    requires FirstRecord(s) == Some(n)
    requires c.fileRecords < maxRecords
    ensures n <= |s|
    ensures |c.output| + |c.pending| + n <= maxBytes ==>
              TakeAll(c, s[..n], maxBytes, maxRecords) == (TakeByte(c.(pending := c.pending + s[..n - 1]), NUL), true)
    ensures |c.output| + |c.pending| + n > maxBytes ==>
              var (d, more) := TakeAll(c, s[..n], maxBytes, maxRecords);
              !more && d.truncated && d.output == c.output
  {
    FirstRecordBounds(s);
    var plain := s[..n - 1];
    assert s[..n] == plain + [NUL];
    TakePlain(c, plain, maxBytes, maxRecords);
    TakeAllConcat(c, plain, [NUL], maxBytes, maxRecords);
    var (d, more) := TakeAll(c, plain, maxBytes, maxRecords);
    if more {
      assert d == c.(pending := c.pending + plain);
      assert TakeAll(d, [NUL], maxBytes, maxRecords)
          == if AtLimit(d, maxBytes, maxRecords) then (d.(truncated := true), false) else (TakeByte(d, NUL), true) by {
        assert [NUL][1..] == [];
      }
    }
  }

  /** A whole group taken, or a refusal on the way that keeps nothing of it. */
  lemma TakeGroup(c: Collector, s: Bytes, n: nat, maxBytes: nat, maxRecords: nat)
    requires Resting(c) && c.fileRecords < maxRecords && FirstGroup(s) == Some(n)
    ensures |c.output| + n <= maxBytes ==>
              TakeAll(c, s[..n], maxBytes, maxRecords)
              == (c.(output := c.output + s[..n],
                     fileRecords := c.fileRecords + if StartsFile(s[..n]) then 1 else 0), true)
    ensures |c.output| + n > maxBytes ==>
              var (d, more) := TakeAll(c, s[..n], maxBytes, maxRecords);
              !more && d.truncated && d.output == c.output
  {
    hide TakeAll;
    FirstRecordBounds(s);
    var m := FirstRecord(s).value;
    var record := s[..m];
    assert s[..m - 1] + [NUL] == record;
    assert c.pending + s[..m - 1] == s[..m - 1];
    TakeRecord(c, s, m, maxBytes, maxRecords);
    assert StartsFile(s[..n]) <==> StartsFile(record);
    if StartsRename(record) {
      TakeRename(c, s, record, n, maxBytes, maxRecords);
    }
  }

  lemma TakeRename(c: Collector, s: Bytes, record: Bytes, n: nat, maxBytes: nat, maxRecords: nat)
    requires Resting(c) && c.fileRecords < maxRecords && record <= s
    requires FirstRecord(s) == Some(|record|) && StartsRename(record)
    requires FirstRecord(s[|record|..]) == Some(n - |record|)
    ensures n <= |s|
    ensures |c.output| + n <= maxBytes ==>
              TakeAll(c, s[..n], maxBytes, maxRecords)
              == (c.(output := c.output + s[..n], fileRecords := c.fileRecords + 1), true)
    ensures |c.output| + n > maxBytes ==>
              var (d, more) := TakeAll(c, s[..n], maxBytes, maxRecords);
              !more && d.truncated && d.output == c.output
  {
    hide TakeAll;
    var m, rest := |record|, s[|record|..];
    FirstRecordBounds(s);
    FirstRecordBounds(rest);
    var body := rest[..n - m - 1];
    var original := body + [NUL];
    assert s[..m] == record;
    assert original == rest[..n - m] && s[..n] == record + original;
    Associative(record, body, [NUL]);
    assert s[..m - 1] + [NUL] == record && c.pending + s[..m - 1] == s[..m - 1];
    TakeRecord(c, s, m, maxBytes, maxRecords);
    TakeAllConcat(c, record, original, maxBytes, maxRecords);
    if |c.output| + m <= maxBytes {
      var d := c.(pending := record, awaitingOriginalPath := true);
      assert TakeAll(c, record, maxBytes, maxRecords) == (d, true);
      TakeRecord(d, rest, n - m, maxBytes, maxRecords);
      assert |original| == n - m;
    }
  }

  /** Bytes that do not hold a whole group leave the output as it is. */
  lemma TakeTail(c: Collector, s: Bytes, maxBytes: nat, maxRecords: nat)
    requires Resting(c) && c.fileRecords < maxRecords && FirstGroup(s) == None
    ensures var (d, _) := TakeAll(c, s, maxBytes, maxRecords);
            d.output == c.output && (s != [] <==> d.truncated || d.pending != [])
  {
    FirstRecordBounds(s);
    if FirstRecord(s).None? {
      TakePlain(c, s, maxBytes, maxRecords);
    } else {
      var m := FirstRecord(s).value;
      var record, rest := s[..m], s[m..];
      assert s == record + rest && s[..m - 1] + [NUL] == record;
      assert c.pending + s[..m - 1] == s[..m - 1];
      FirstRecordBounds(rest);
      TakeRecord(c, s, m, maxBytes, maxRecords);
      TakeAllConcat(c, record, rest, maxBytes, maxRecords);
      if |c.output| + m <= maxBytes {
        TakePlain(c.(pending := record, awaitingOriginalPath := true), rest, maxBytes, maxRecords);
      }
    }
  }

  lemma {:induction false} TakesWhatIsKept(c: Collector, s: Bytes, maxBytes: nat, maxRecords: nat)
    requires Resting(c) && c.fileRecords <= maxRecords && |c.output| <= maxBytes
    ensures var k := KeptLength(s, maxBytes - |c.output|, maxRecords - c.fileRecords);
            var (d, _) := TakeAll(c, s, maxBytes, maxRecords);
            k <= |s| && d.output == c.output + s[..k]
            && (d.truncated || d.pending != [] <==> k < |s|)
    decreases |s|
  {
    hide TakeAll, FirstGroup, KeptLength;
    var bytes, records := maxBytes - |c.output|, maxRecords - c.fileRecords;
    KeptStep(s, bytes, records);
    assert c.output + s[..0] == c.output;
    if records == 0 {
      TakeNothing(c, s, maxBytes, maxRecords);
    } else if FirstGroup(s).None? {
      TakeTail(c, s, maxBytes, maxRecords);
    } else {
      var n := FirstGroup(s).value;
      TakeGroup(c, s, n, maxBytes, maxRecords);
      TakeAllConcat(c, s[..n], s[n..], maxBytes, maxRecords);
      assert s == s[..n] + s[n..];
      if n <= bytes {
        var d := TakeAll(c, s[..n], maxBytes, maxRecords).0;
        TakesWhatIsKept(d, s[n..], maxBytes, maxRecords);
        var k := KeptLength(s[n..], maxBytes - |d.output|, maxRecords - d.fileRecords);
        assert c.output + s[..n] + s[n..][..k] == c.output + s[..n + k];
      }
    }
  }

  lemma TakeNothing(c: Collector, s: Bytes, maxBytes: nat, maxRecords: nat)
    requires c.fileRecords >= maxRecords
    ensures TakeAll(c, s, maxBytes, maxRecords) == if s == [] then (c, true) else (c.(truncated := true), false)
  {
  }

  lemma KeptStep(s: Bytes, maxBytes: nat, maxRecords: nat)
    ensures KeptLength(s, maxBytes, maxRecords)
         == if maxRecords == 0 || FirstGroup(s).None? || FirstGroup(s).value > maxBytes then 0
            else var n := FirstGroup(s).value;
                 n + KeptLength(s[n..], maxBytes - n, maxRecords - if StartsFile(s[..n]) then 1 else 0)
    ensures FirstGroup(s).Some? ==> 0 < FirstGroup(s).value <= |s|
  {
  }

  /** The collector keeps the longest prefix of whole groups within both limits,
      ending at the last file record allowed, and reports truncation exactly if
      that is not everything. */
  lemma CollectedIsLongestPrefix(input: Bytes, maxBytes: nat, maxRecords: nat)
    ensures var k := KeptLength(input, maxBytes, maxRecords);
            && k <= |input| && k <= maxBytes
            && Collected(input, maxBytes, maxRecords) == (input[..k], k < |input|)
            && Admissible(input, k, maxRecords)
            && forall j: nat | j <= maxBytes && Admissible(input, j, maxRecords) :: j <= k
  {
    KeptIsLongest(input, maxBytes, maxRecords);
    assert EMPTY.output + input[..KeptLength(input, maxBytes, maxRecords)]
        == input[..KeptLength(input, maxBytes, maxRecords)];
    TakesWhatIsKept(EMPTY, input, maxBytes, maxRecords);
  }
}
