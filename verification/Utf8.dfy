/** UTF-8 as section 4 of RFC 3629 defines it, on bytes, with the answers of
    Rust's `str::from_utf8`: valid, or valid up to some length and then either
    malformed or merely cut short. */
module Utf8 {
  import opened Bytes

  /** A byte that continues a character, and never starts one. */
  predicate Continuation(b: byte) {
    0x80 <= b < 0xC0
  }

  /** How many bytes the character that `lead` starts has; 0 if it starts none. */
  function Width(lead: byte): nat {
    if lead < 0x80 then 1
    else if lead < 0xC2 then 0
    else if lead < 0xE0 then 2
    else if lead < 0xF0 then 3
    else if lead < 0xF5 then 4
    else 0
  }

  predicate SecondByte(lead: byte, second: byte) {
    && Continuation(second)
    && (lead == 0xE0 ==> 0xA0 <= second)
    && (lead == 0xED ==> second < 0xA0)
    && (lead == 0xF0 ==> 0x90 <= second)
    && (lead == 0xF4 ==> second < 0x90)
  }

  /** What is there of the character `s` starts with is well formed. */
  predicate StartsWell(s: Bytes)
    requires s != []
  {
    && Width(s[0]) > 0
    && (|s| > 1 && Width(s[0]) > 1 ==> SecondByte(s[0], s[1]))
    && (|s| > 2 && Width(s[0]) > 2 ==> Continuation(s[2]))
    && (|s| > 3 && Width(s[0]) > 3 ==> Continuation(s[3]))
  }

  /** The first character of `s` is whole. */
  predicate WholeFirst(s: Bytes) {
    s != [] && StartsWell(s) && Width(s[0]) <= |s|
  }

  /** `s` is a proper part of one character: an end, not an error. */
  predicate Incomplete(s: Bytes) {
    s != [] && StartsWell(s) && |s| < Width(s[0])
  }

  predicate Valid(s: Bytes) {
    s == [] || (WholeFirst(s) && Valid(s[Width(s[0])..]))
  }

  function ValidUpTo(s: Bytes): (n: nat)
    ensures n <= |s|
  {
    if WholeFirst(s) then Width(s[0]) + ValidUpTo(s[Width(s[0])..]) else 0
  }

  lemma {:induction false} ValidUpToIsLongest(s: Bytes)
    ensures var n := ValidUpTo(s);
            Valid(s[..n]) && !WholeFirst(s[n..]) && (Valid(s) <==> n == |s|)
  {
    if WholeFirst(s) {
      var w, n := Width(s[0]), ValidUpTo(s);
      ValidUpToIsLongest(s[w..]);
      WholePrefix(s, n);
      hide WholeFirst;
      CutParts(s, w, n);
      assert s[..n][w..] == s[w..][..n - w];
      DropDrop(s, w, n - w);
    } else {
      assert s[0..] == s;
    }
  }

  /** A first character is that of every prefix it fits in. */
  lemma WholePrefix(s: Bytes, n: nat)
    requires WholeFirst(s) && Width(s[0]) <= n <= |s|
    ensures WholeFirst(s[..n]) && s[..n][0] == s[0]
  {
  }

  lemma {:induction false} ValidConcat(a: Bytes, b: Bytes)
    requires Valid(a)
    ensures Valid(a + b) <==> Valid(b)
  {
    if a == [] {
      assert a + b == b;
    } else {
      var w := Width(a[0]);
      ValidConcat(a[w..], b);
      assert (a + b)[w..] == a[w..] + b;
    }
  }

  /** `i` lies between two characters of the valid string `s`. */
  predicate Boundary(s: Bytes, i: int) {
    i == |s| || (0 <= i < |s| && !Continuation(s[i]))
  }

  lemma {:induction false} SplitAtBoundary(s: Bytes, i: nat)
    requires Valid(s) && Boundary(s, i)
    ensures Valid(s[..i]) && Valid(s[i..])
  {
    if i == |s| {
      assert s[..i] == s;
    } else if i > 0 {
      var w := Width(s[0]);
      assert w <= i;
      SplitAtBoundary(s[w..], i - w);
      assert s[w..][i - w..] == s[i..];
      assert s[..i][w..] == s[w..][..i - w];
    }
  }

  /** A character has at most three continuation bytes. */
  lemma {:induction false} BoundaryNear(s: Bytes, i: nat) returns (j: nat)
    requires Valid(s) && i <= |s|
    ensures i <= j <= |s| && j <= i + 3 && Boundary(s, j)
    ensures forall k | i <= k < j :: Continuation(s[k])
  {
    if s == [] || i == 0 {
      j := i;
    } else {
      var w := Width(s[0]);
      if i < w {
        j := w;
        if w < |s| {
          assert WholeFirst(s[w..]);
        }
      } else {
        var rest := BoundaryNear(s[w..], i - w);
        j := rest + w;
        forall k | i <= k < j
          ensures Continuation(s[k])
        {
          assert s[k] == s[w..][k - w];
        }
      }
    }
  }

  lemma CutInFirst(s: Bytes, k: nat)
    requires WholeFirst(s) && 0 < k <= |s| && !WholeFirst(s[..k])
    ensures k < 4 && Incomplete(s[..k])
  {
    var cut := s[..k];
    assert cut[0] == s[0];
  }

  /** Cutting a valid string anywhere leaves whole characters and at most part of one. */
  lemma CutIsIncomplete(s: Bytes, k: nat, n: nat)
    requires Valid(s) && k <= |s| && n == ValidUpTo(s[..k])
    ensures k - n < 4 && Boundary(s, n) && Valid(s[..n]) && Valid(s[n..])
    ensures n < k ==> Incomplete(s[n..k])
  {
    hide Valid, ValidUpTo, WholeFirst, Incomplete, Continuation, Boundary;
    var rest := s[n..];
    ValidUpToIsLongest(s[..k]);
    CutParts(s, n, k);
    ValidConcat(s[..n], rest);
    TailIsBoundary(s, n);
    if n < k {
      WholeIfValid(rest);
      CutInFirst(rest, k - n);
    }
  }

  lemma TailIsBoundary(s: Bytes, n: nat)
    requires n <= |s| && Valid(s[n..])
    ensures Boundary(s, n)
  {
    FirstIsBoundary(s[n..]);
  }

  lemma WholeIfValid(s: Bytes)
    requires Valid(s) && s != []
    ensures WholeFirst(s)
  {
  }

  lemma FirstIsBoundary(s: Bytes)
    requires Valid(s)
    ensures Boundary(s, 0)
  {
  }

  /** A character starts after every byte below 0x80. */
  lemma {:induction false} AfterAscii(s: Bytes, i: nat)
    requires Valid(s) && 0 < i <= |s| && s[i - 1] < 0x80
    ensures Boundary(s, i)
  {
    if i < |s| {
      var w := Width(s[0]);
      if w < i {
        AfterAscii(s[w..], i - w);
      } else {
        assert w == i;
        FirstIsBoundary(s[w..]);
      }
    }
  }

  /** Bytes below 0x80 are characters of their own. */
  lemma {:induction false} AsciiValid(s: Bytes)
    requires forall i | 0 <= i < |s| :: s[i] < 0x80
    ensures Valid(s)
  {
    if s != [] {
      AsciiValid(s[1..]);
    }
  }
}
