/** Strings as the server holds them: Unicode characters, as UTF-8 of fewer than
    2^64 bytes. */
module Text {
  import opened Bytes
  import opened Digests
  import Utf8

  /** The UTF-8 of a character (section 3 of RFC 3629). */
  function EncodeChar(c: char): (bytes: Bytes)
    ensures bytes != [] && |bytes| == Utf8.Width(bytes[0])
  {
    var n := c as int;
    var q := n / 64;
    var r := q / 64;
    if n < 0x80 then [n as byte]
    else if n < 0x800 then [(0xC0 + q) as byte, (0x80 + n % 64) as byte]
    else if n < 0x10000 then [(0xE0 + r) as byte, (0x80 + q % 64) as byte, (0x80 + n % 64) as byte]
    else [(0xF0 + r / 64) as byte, (0x80 + r % 64) as byte, (0x80 + q % 64) as byte, (0x80 + n % 64) as byte]
  }

  function Encode(s: string): Bytes {
    if s == "" then [] else EncodeChar(s[0]) + Encode(s[1..])
  }

  function ByteLength(s: string): nat {
    |Encode(s)|
  }

  type Text = s: string | Fits(Encode(s)) witness ""

  lemma EncodeCharInjective(c: char, d: char)
    requires EncodeChar(c) == EncodeChar(d)
    ensures c == d
  {
    assert |EncodeChar(c)| == |EncodeChar(d)|;
    forall i | 0 <= i < |EncodeChar(c)|
      ensures EncodeChar(c)[i] as int == EncodeChar(d)[i] as int
    {
    }
  }

  /** Strings with the same UTF-8 are the same. */
  lemma {:induction false} EncodeInjective(s: string, t: string)
    requires Encode(s) == Encode(t)
    ensures s == t
  {
    if s != "" && t != "" {
      hide EncodeChar;
      var a, b := EncodeChar(s[0]), EncodeChar(t[0]);
      assert Encode(s)[0] == a[0] && Encode(t)[0] == b[0];
      assert Encode(s)[..|a|] == a && Encode(t)[..|b|] == b;
      assert Encode(s)[|a|..] == Encode(s[1..]) && Encode(t)[|b|..] == Encode(t[1..]);
      EncodeCharInjective(s[0], t[0]);
      EncodeInjective(s[1..], t[1..]);
      WithoutFirst(s);
      WithoutFirst(t);
    }
  }

  // ----- Text is valid UTF-8, and valid UTF-8 is text

  /** The number a well-formed sequence of its length stands for. */
  function CodePoint(s: Bytes): int
    requires 1 <= |s| <= 4
  {
    if |s| == 1 then s[0] as int
    else if |s| == 2 then (s[0] as int - 0xC0) * 0x40 + (s[1] as int - 0x80)
    else if |s| == 3 then (s[0] as int - 0xE0) * 0x1000 + (s[1] as int - 0x80) * 0x40 + (s[2] as int - 0x80)
    else (s[0] as int - 0xF0) * 0x40000 + (s[1] as int - 0x80) * 0x1000 + (s[2] as int - 0x80) * 0x40
         + (s[3] as int - 0x80)
  }

  lemma CharIsWhole(c: char)
    ensures var s := EncodeChar(c);
            CodePoint(s) == c as int && Utf8.WholeFirst(s) && |s| == Utf8.Width(s[0])
  {
  }

  lemma Digits(high: int, low: int)
    requires 0 <= high && 0 <= low < 64
    ensures (high * 64 + low) / 64 == high && (high * 64 + low) % 64 == low
  {
  }

  lemma TwoBytes(c: char, high: int, low: int)
    requires 2 <= high < 32 && 0 <= low < 64 && c as int == high * 64 + low
    ensures EncodeChar(c) == [(0xC0 + high) as byte, (0x80 + low) as byte]
  {
    Digits(high, low);
  }

  lemma ThreeBytes(c: char, high: int, middle: int, low: int)
    requires 0 <= high < 16 && 0 <= middle < 64 && 0 <= low < 64 && (high == 0 ==> middle >= 32)
    requires c as int == high * 4096 + middle * 64 + low
    ensures EncodeChar(c) == [(0xE0 + high) as byte, (0x80 + middle) as byte, (0x80 + low) as byte]
  {
    Digits(high * 64 + middle, low);
    Digits(high, middle);
  }

  lemma {:induction false} FourBytes(c: char, high: int, second: int, third: int, low: int)
    requires 0 <= high < 5 && 0 <= second < 64 && 0 <= third < 64 && 0 <= low < 64 && (high == 0 ==> second >= 16)
    requires c as int == high * 262144 + second * 4096 + third * 64 + low
    ensures EncodeChar(c) ==
              [(0xF0 + high) as byte, (0x80 + second) as byte, (0x80 + third) as byte, (0x80 + low) as byte]
  {
    Digits(high * 4096 + second * 64 + third, low);
    Digits(high * 64 + second, third);
    Digits(high, second);
  }

  lemma WholeIsChar(s: Bytes) returns (c: char)
    requires s != [] && Utf8.WholeFirst(s) && |s| == Utf8.Width(s[0])
    ensures EncodeChar(c) == s
  {
    assert CodePoint(s) < 0xD800 || 0xE000 <= CodePoint(s) < 0x110000;
    c := CodePoint(s) as char;
    hide EncodeChar;
    if |s| == 1 {
      OneByte(c);
    } else if |s| == 2 {
      TwoBytes(c, s[0] as int - 0xC0, s[1] as int - 0x80);
    } else if |s| == 3 {
      ThreeBytes(c, s[0] as int - 0xE0, s[1] as int - 0x80, s[2] as int - 0x80);
    } else {
      FourBytes(c, s[0] as int - 0xF0, s[1] as int - 0x80, s[2] as int - 0x80, s[3] as int - 0x80);
    }
  }

  lemma OneByte(c: char)
    requires c as int < 0x80
    ensures EncodeChar(c) == [c as byte]
  {
  }

  /** A string's bytes are valid UTF-8, and all valid UTF-8 are a string's. */
  lemma {:induction false} EncodedIsValid(s: string)
    ensures Utf8.Valid(Encode(s))
  {
    if s != "" {
      var first, rest := EncodeChar(s[0]), Encode(s[1..]);
      CharIsWhole(s[0]);
      EncodedIsValid(s[1..]);
      hide EncodeChar;
      assert first[|first|..] == [];
      assert Utf8.Valid(first);
      Utf8.ValidConcat(first, rest);
    }
  }

  lemma EncodeCons(c: char, s: string)
    ensures Encode([c] + s) == EncodeChar(c) + Encode(s)
  {
    assert ([c] + s)[1..] == s;
  }

  lemma FirstCharacter(bytes: Bytes) returns (w: nat, c: char)
    requires Utf8.WholeFirst(bytes)
    ensures 0 < w == Utf8.Width(bytes[0]) <= |bytes| && EncodeChar(c) == bytes[..w]
  {
    w := Utf8.Width(bytes[0]);
    Utf8.WholePrefix(bytes, w);
    hide EncodeChar;
    c := WholeIsChar(bytes[..w]);
  }

  lemma {:induction false} ValidIsEncoded(bytes: Bytes) returns (s: string)
    requires Utf8.Valid(bytes)
    ensures Encode(s) == bytes
    decreases |bytes|
  {
    s := "";
    if bytes != [] {
      hide EncodeChar, Utf8.WholeFirst, Utf8.Width;
      var w, c := FirstCharacter(bytes);
      var rest := ValidIsEncoded(bytes[w..]);
      s := [c] + rest;
      EncodeCons(c, rest);
      assert bytes == bytes[..w] + bytes[w..];
    }
  }
}
