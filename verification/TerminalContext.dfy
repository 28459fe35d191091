/** The bounded text a terminal capture keeps. */
module TerminalContext {
  import opened Wrappers
  import opened Bytes
  import Utf8

  const MAX_TERMINAL_CONTEXT_BYTES := 16 * 1024
  const MAX_TERMINAL_CONTEXT_LINES := 120

  datatype CaptureKind = Selection | Recent

  datatype Bounded = Bounded(content: Bytes, lineCount: nat, byteCount: nat, truncated: bool)

  function LineCount(content: Bytes): nat {
    if content == [] then 0 else |Split(content, LF)|
  }

  function CharStart(s: Bytes, i: nat): (j: nat)
    requires i <= |s|
    ensures i <= j <= |s| && Utf8.Boundary(s, j)
    ensures forall k | i <= k < j :: !Utf8.Boundary(s, k)
    decreases |s| - i
  {
    if Utf8.Boundary(s, i) then i else CharStart(s, i + 1)
  }

  /** The last lines of `content`, before the byte limit. */
  function LastLines(content: Bytes): Bytes {
    var lines := Split(content, LF);
    var firstLine := if |lines| > MAX_TERMINAL_CONTEXT_LINES then |lines| - MAX_TERMINAL_CONTEXT_LINES else 0;
    Join(lines[firstLine..], LF)
  }

  function BoundedRecent(content: Bytes): Bounded {
    var tail := LastLines(content);
    var cut := if |tail| > MAX_TERMINAL_CONTEXT_BYTES
               then CharStart(tail, |tail| - MAX_TERMINAL_CONTEXT_BYTES) else 0;
    var kept := tail[cut..];
    Bounded(kept, LineCount(kept), |kept|,
            |Split(content, LF)| > MAX_TERMINAL_CONTEXT_LINES || |tail| > MAX_TERMINAL_CONTEXT_BYTES)
  }

  /** `bounded_terminal_context`; `None` is the over-limit error. */
  function BoundedContext(content: Bytes, kind: CaptureKind): Option<Bounded> {
    match kind
    case Selection =>
      if |content| > MAX_TERMINAL_CONTEXT_BYTES || LineCount(content) > MAX_TERMINAL_CONTEXT_LINES then None
      else Some(Bounded(content, LineCount(content), |content|, false))
    case Recent => Some(BoundedRecent(content))
  }

  method BoundTerminalContext(content: Bytes, kind: CaptureKind) returns (r: Option<Bounded>)
    ensures r == BoundedContext(content, kind)
  {
    if kind == Selection {
      if |content| > MAX_TERMINAL_CONTEXT_BYTES || LineCount(content) > MAX_TERMINAL_CONTEXT_LINES {
        return None;
      }
      return Some(Bounded(content, LineCount(content), |content|, false));
    }
    hide Split, Join, LineCount;
    var lines := Split(content, LF);
    var firstLine := if |lines| > MAX_TERMINAL_CONTEXT_LINES then |lines| - MAX_TERMINAL_CONTEXT_LINES else 0;
    var bounded := Join(lines[firstLine..], LF);
    var truncated := firstLine > 0;
    if |bounded| > MAX_TERMINAL_CONTEXT_BYTES {
      var start := NextBoundary(bounded, |bounded| - MAX_TERMINAL_CONTEXT_BYTES);
      bounded := bounded[start..];
      truncated := true;
    }
    return Some(Bounded(bounded, LineCount(bounded), |bounded|, truncated));
  }

  method NextBoundary(s: Bytes, from: nat) returns (start: nat)
    requires from <= |s|
    ensures start == CharStart(s, from)
  {
    start := from;
    while !Utf8.Boundary(s, start)
      invariant start <= |s|
      invariant CharStart(s, from) == CharStart(s, start)
      decreases |s| - start
    {
      start := start + 1;
    }
  }

  // ----- A recent capture is the longest tail within the limits

  predicate Fits(tail: Bytes) {
    |tail| <= MAX_TERMINAL_CONTEXT_BYTES && LineCount(tail) <= MAX_TERMINAL_CONTEXT_LINES
  }

  function Feeds(s: Bytes): nat {
    if s == [] then 0 else (if s[0] == LF then 1 else 0) + Feeds(s[1..])
  }

  lemma {:induction false} PiecesAreFeeds(s: Bytes)
    ensures |Split(s, LF)| == 1 + Feeds(s)
  {
    if s != [] {
      PiecesAreFeeds(s[1..]);
    }
  }

  lemma {:induction false} FeedsShrink(s: Bytes, i: nat, j: nat)
    requires i <= j <= |s|
    ensures Feeds(s[j..]) <= Feeds(s[i..])
    ensures i < j && s[j - 1] == LF ==> Feeds(s[j..]) < Feeds(s[i..])
    decreases j - i
  {
    if i < j {
      FeedsShrink(s, i + 1, j);
      assert s[i..][1..] == s[i + 1..];
    }
  }

  /** Dropping whole lines drops what lies before some line feed. */
  lemma {:induction false} LinesAreATail(s: Bytes, n: nat) returns (k: nat)
    requires n < |Split(s, LF)|
    ensures k <= |s| && Join(Split(s, LF)[n..], LF) == s[k..]
    ensures n == 0 ==> k == 0
    ensures n > 0 ==> k > 0 && s[k - 1] == LF && Feeds(s[k..]) == |Split(s, LF)| - n - 1
  {
    if n == 0 {
      JoinSplit(s, LF);
      k := 0;
    } else {
      assert s != [];
      var below := s[1..];
      var rest := Split(below, LF);
      WithoutFirst(s);
      SplitCons(s[0], below, LF);
      assert Feeds(below[0..]) == Feeds(below) by {
        assert below[0..] == below;
      }
      hide Split, Join, Feeds;
      PiecesAreFeeds(below);
      if s[0] == LF {
        k := LinesAreATail(below, n - 1);
        ConsDrop([], rest, n - 1);
      } else {
        k := LinesAreATail(below, n);
        ConsDrop([s[0]] + rest[0], rest[1..], n - 1);
        DropDrop(rest, 1, n - 1);
      }
      DropDrop(s, 1, k);
      assert k > 0 ==> s[k] == below[k - 1];
      k := k + 1;
    }
  }

  /** A recent capture keeps the longest tail of whole characters that fits both
      limits, and says it was truncated exactly if that is not everything. */
  lemma {:induction false} RecentIsLongestTail(content: Bytes) returns (k: nat)
    requires Utf8.Valid(content)
    ensures k <= |content| && Utf8.Boundary(content, k)
    ensures BoundedRecent(content).content == content[k..] && Fits(content[k..])
    ensures BoundedRecent(content).truncated <==> k > 0
    ensures forall j | 0 <= j < k && Utf8.Boundary(content, j) :: !Fits(content[j..])
  {
    hide Split, Feeds, Fits, LineCount, Utf8.Valid, CharStart, Utf8.Boundary, LastLines;
    var at, n := LastLinesAreATail(content);
    var tail := content[at..];
    var cut := if |tail| > MAX_TERMINAL_CONTEXT_BYTES
               then CharStart(tail, |tail| - MAX_TERMINAL_CONTEXT_BYTES) else 0;
    k := at + cut;
    DropDrop(content, at, cut);
    TailStartsACharacter(content, at, cut, n);
    TailFits(content, at, k, n);
    forall j | 0 <= j < k && Utf8.Boundary(content, j)
      ensures !Fits(content[j..])
    {
      LongerDoesNotFit(content, at, k, n, j);
    }
  }

  /** The last lines start behind the line feeds of the `n` before. */
  lemma LastLinesAreATail(content: Bytes) returns (at: nat, n: nat)
    ensures at <= |content| && LastLines(content) == content[at..]
    ensures n > 0 <==> |Split(content, LF)| > MAX_TERMINAL_CONTEXT_LINES
    ensures n == 0 ==> at == 0 && Feeds(content) < MAX_TERMINAL_CONTEXT_LINES
    ensures n > 0 ==> at > 0 && content[at - 1] == LF && Feeds(content[at..]) == MAX_TERMINAL_CONTEXT_LINES - 1
  {
    hide Split, Join, Feeds;
    PiecesAreFeeds(content);
    var pieces := |Split(content, LF)|;
    n := if pieces > MAX_TERMINAL_CONTEXT_LINES then pieces - MAX_TERMINAL_CONTEXT_LINES else 0;
    at := LinesAreATail(content, n);
  }

  lemma TailStartsACharacter(content: Bytes, at: nat, cut: nat, n: nat)
    requires Utf8.Valid(content) && at + cut <= |content|
    requires n == 0 ==> at == 0
    requires n > 0 ==> at > 0 && content[at - 1] == LF
    requires var tail := content[at..];
             cut == if |tail| > MAX_TERMINAL_CONTEXT_BYTES
                    then CharStart(tail, |tail| - MAX_TERMINAL_CONTEXT_BYTES) else 0
    ensures Utf8.Boundary(content, at + cut)
  {
    if cut == 0 {
      Utf8.FirstIsBoundary(content);
      if n > 0 && at < |content| {
        Utf8.AfterAscii(content, at);
      }
    }
  }

  lemma TailFits(content: Bytes, at: nat, k: nat, n: nat)
    requires at <= k <= |content| && |content| - k <= MAX_TERMINAL_CONTEXT_BYTES
    requires n == 0 ==> at == 0 && Feeds(content) < MAX_TERMINAL_CONTEXT_LINES
    requires n > 0 ==> Feeds(content[at..]) == MAX_TERMINAL_CONTEXT_LINES - 1
    ensures Fits(content[k..])
  {
    FeedsShrink(content, at, k);
    assert content[0..] == content;
    PiecesAreFeeds(content[k..]);
  }

  /** A longer tail has a line or bytes too many. */
  lemma LongerDoesNotFit(content: Bytes, at: nat, k: nat, n: nat, j: nat)
    requires at <= k <= |content| && j < k && Utf8.Boundary(content, j)
    requires n == 0 ==> at == 0
    requires n > 0 ==> at > 0 && content[at - 1] == LF && Feeds(content[at..]) == MAX_TERMINAL_CONTEXT_LINES - 1
    requires var tail := content[at..];
             k - at == if |tail| > MAX_TERMINAL_CONTEXT_BYTES
                       then CharStart(tail, |tail| - MAX_TERMINAL_CONTEXT_BYTES) else 0
    ensures !Fits(content[j..])
  {
    if j < at {
      FeedsShrink(content, j, at);
      PiecesAreFeeds(content[j..]);
    } else {
      assert Utf8.Boundary(content[at..], j - at);
    }
  }
}
