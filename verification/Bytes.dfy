/** Bytes, byte strings and the splitting functions the parsers share. */
module Bytes {

  newtype byte = x: int | 0 <= x < 256

  type Bytes = seq<byte>

  const NUL: byte := 0
  const TAB: byte := 9
  const LF: byte := 10
  const CR: byte := 13
  const SPACE: byte := 32
  const SLASH: byte := 47

  /** The pieces of `s` between occurrences of `sep`; always at least one. */
  function Split(s: Bytes, sep: byte): (pieces: seq<Bytes>)
    ensures |pieces| > 0
  {
    if s == [] then [[]]
    else
      var rest := Split(s[1..], sep);
      if s[0] == sep then [[]] + rest
      else [[s[0]] + rest[0]] + rest[1..]
  }

  /** The pieces with one `sep` between each two. */
  function Join(pieces: seq<Bytes>, sep: byte): Bytes {
    if pieces == [] then []
    else if |pieces| == 1 then pieces[0]
    else pieces[0] + [sep] + Join(pieces[1..], sep)
  }

  lemma {:induction false} JoinSplit(s: Bytes, sep: byte)
    ensures Join(Split(s, sep), sep) == s
  {
    if s == [] {
    } else {
      JoinSplit(s[1..], sep);
      var rest := Split(s[1..], sep);
      if s[0] == sep {
        assert Split(s, sep)[1..] == rest;
        assert [sep] + s[1..] == s;
      } else {
        var pieces := Split(s, sep);
        assert pieces[1..] == rest[1..];
        assert Join(pieces, sep) == [s[0]] + Join(rest, sep);
      }
    }
  }

  lemma {:induction false} SplitPiece(s: Bytes, sep: byte)
    requires sep !in s
    ensures Split(s, sep) == [s]
  {
    if s == [] {
    } else {
      SplitPiece(s[1..], sep);
      assert [s[0]] + s[1..] == s;
    }
  }

  lemma SplitCons(first: byte, s: Bytes, sep: byte)
    ensures var rest := Split(s, sep);
            Split([first] + s, sep) == if first == sep then [[]] + rest
                                       else [[first] + rest[0]] + rest[1..]
  {
    assert ([first] + s)[1..] == s;
  }

  /** Splitting at a separator that is there: the pieces before it, then those after. */
  lemma SplitAtSeparator(a: Bytes, sep: byte, b: Bytes)
    ensures Split(a + [sep] + b, sep) == Split(a, sep) + Split(b, sep)
  {
    SplitAtTail(a, sep, [sep] + b, b);
    assert a + [sep] + b == a + ([sep] + b);
  }

  lemma {:induction false} SplitAtTail(a: Bytes, sep: byte, tail: Bytes, b: Bytes)
    requires tail == [sep] + b
    ensures Split(a + tail, sep) == Split(a, sep) + Split(b, sep)
  {
    if a == [] {
      assert Split([], sep) == [[]];
      hide Split;
      SplitCons(sep, b, sep);
      assert a + tail == tail;
    } else {
      hide Split;
      var first, below := a[0], a[1..];
      SplitAtTail(below, sep, tail, b);
      SplitCons(first, below, sep);
      SplitCons(first, below + tail, sep);
      assert a == [first] + below && a + tail == [first] + (below + tail);
      HeadOfPieces(first, sep, Split(below, sep), Split(b, sep));
    }
  }

  lemma HeadOfPieces(first: byte, sep: byte, before: seq<Bytes>, after: seq<Bytes>)
    requires before != []
    ensures var all := before + after;
            [[]] + all == ([[]] + before) + after
            && [[first] + all[0]] + all[1..] == ([[first] + before[0]] + before[1..]) + after
  {
  }

  predicate OccursAt(text: Bytes, part: Bytes, i: int) {
    0 <= i <= |text| - |part| && text[i..i + |part|] == part
  }

  predicate Contains(text: Bytes, part: Bytes) {
    exists i | 0 <= i <= |text| - |part| :: OccursAt(text, part, i)
  }

  ghost predicate Within(text: Bytes, word: Bytes) {
    exists before, after :: text == before + word + after
  }

  lemma OccursIffWithin(text: Bytes, word: Bytes)
    ensures Contains(text, word) <==> Within(text, word)
  {
    if Contains(text, word) {
      var i :| 0 <= i <= |text| - |word| && OccursAt(text, word, i);
      assert text == text[..i] + word + text[i + |word|..];
    }
    if before, after :| text == before + word + after {
      var i := |before|;
      assert text[i..i + |word|] == word;
      assert OccursAt(text, word, i);
    }
  }

  lemma Associative<T>(a: seq<T>, b: seq<T>, c: seq<T>)
    ensures (a + b) + c == a + (b + c)
  {
  }

  lemma SliceLast<T>(s: seq<T>, n: nat)
    requires 0 < n <= |s|
    ensures s[..n] == s[..n - 1] + [s[n - 1]]
  {
  }

  lemma SliceAt<T>(s: seq<T>, m: nat, n: nat)
    requires m <= n <= |s|
    ensures s[..n] == s[..m] + s[m..][..n - m]
  {
  }

  lemma DropDrop<T>(s: seq<T>, m: nat, n: nat)
    requires m + n <= |s|
    ensures s[m..][n..] == s[m + n..]
  {
  }

  lemma ShorterTake<T>(s: seq<T>, m: nat, n: nat)
    requires m <= n <= |s|
    ensures s[..n][..m] == s[..m]
  {
  }

  lemma ConsTake<T>(first: T, s: seq<T>, n: nat)
    requires n <= |s|
    ensures ([first] + s)[..n + 1] == [first] + s[..n]
  {
  }

  lemma ConsDrop<T>(first: T, s: seq<T>, n: nat)
    requires n <= |s|
    ensures ([first] + s)[n + 1..] == s[n..]
  {
  }

  lemma WithoutFirst<T>(s: seq<T>)
    requires s != []
    ensures s == [s[0]] + s[1..] && multiset(s[1..]) == multiset(s) - multiset{s[0]}
  {
    assert s == [s[0]] + s[1..];
  }

  lemma WithoutLast<T>(s: seq<T>)
    requires s != []
    ensures multiset(s[..|s| - 1]) == multiset(s) - multiset{s[|s| - 1]}
  {
    assert s == s[..|s| - 1] + [s[|s| - 1]];
  }

  /** A sequence cut at `n`, and what lies before `k`. */
  lemma CutParts<T>(s: seq<T>, n: nat, k: nat)
    requires n <= k <= |s|
    ensures s == s[..n] + s[n..]
    ensures s[..k][..n] == s[..n] && s[..k][n..] == s[n..k] && s[n..][..k - n] == s[n..k]
  {
  }

  lemma SliceTake<T>(s: seq<T>, m: nat, n: nat, k: nat)
    requires m + k <= n <= |s|
    ensures s[m..n][..k] == s[m..m + k]
  {
  }

  lemma SliceDrop<T>(s: seq<T>, m: nat, n: nat, k: nat)
    requires m + k <= n <= |s|
    ensures s[m..n][k..] == s[m + k..n]
  {
  }

  lemma {:induction false} SplitJoin(pieces: seq<Bytes>, sep: byte)
    requires |pieces| > 0
    requires forall piece | piece in pieces :: sep !in piece
    ensures Split(Join(pieces, sep), sep) == pieces
  {
    SplitPiece(pieces[0], sep);
    if |pieces| > 1 {
      SplitJoin(pieces[1..], sep);
      SplitAtSeparator(pieces[0], sep, Join(pieces[1..], sep));
    }
  }

  lemma {:induction false} JoinConcat(a: seq<Bytes>, b: seq<Bytes>, sep: byte)
    requires |a| > 0 && |b| > 0
    ensures Join(a + b, sep) == Join(a, sep) + [sep] + Join(b, sep)
  {
    if |a| == 1 {
      assert (a + b)[1..] == b;
    } else {
      JoinConcat(a[1..], b, sep);
      assert (a + b)[1..] == a[1..] + b;
    }
  }
}
