/** Local paths from `file:` URIs, with percent escapes as in section 2.1 of
    RFC 3986. A URI is a string: valid UTF-8. */
module FileUri {
  import opened Wrappers
  import opened Bytes
  import opened WorkspacePaths
  import Utf8

  const PERCENT: byte := 37
  const PLUS: byte := 43
  const QUESTION: byte := 63
  const HASH: byte := 35

  function HexValue(c: byte): Option<byte> {
    if 48 <= c <= 57 then Some(c - 48)
    else if 65 <= c <= 70 then Some(c - 55)
    else if 97 <= c <= 102 then Some(c - 87)
    else None
  }

  /** Two characters as a number of base 16. As the source parses them, a plus
      sign may stand for the first. */
  function HexByte(a: byte, b: byte, sign: bool): Option<byte> {
    if HexValue(b).None? then None
    else if HexValue(a).Some? then Some(HexValue(a).value * 16 + HexValue(b).value)
    else if sign && a == PLUS then HexValue(b)
    else None
  }

  /** The escape that `value` starts with; it ends between two characters. */
  function EscapeAt(value: Bytes, sign: bool): Option<byte> {
    if |value| < 3 || (|value| > 3 && Utf8.Continuation(value[3])) then None
    else HexByte(value[1], value[2], sign)
  }

  function After(before: Bytes, rest: Option<Bytes>): Option<Bytes> {
    if rest.Some? then Some(before + rest.value) else None
  }

  function Decode(value: Bytes, sign: bool): Option<Bytes> {
    if value == [] then Some([])
    else if value[0] == PERCENT then
      var escape := EscapeAt(value, sign);
      if escape.None? then None else After([escape.value], Decode(value[3..], sign))
    else After([value[0]], Decode(value[1..], sign))
  }

  lemma AfterAfter(a: Bytes, b: byte, rest: Option<Bytes>)
    ensures After(a, After([b], rest)) == After(a + [b], rest)
  {
    if rest.Some? {
      Associative(a, [b], rest.value);
    }
  }

  /** Decodes escapes; what they decode to must be text again. */
  method PercentDecode(value: Bytes) returns (r: Option<Bytes>)
    ensures var decoded := Decode(value, true);
            r == if decoded.Some? && Utf8.Valid(decoded.value) then decoded else None
  {
    var out: Bytes := [];
    var index := 0;
    DecodeNothing(value, Decode(value, true));
    hide Utf8.Valid, HexByte;
    while index < |value|
      invariant 0 <= index <= |value|
      invariant Decode(value, true) == After(out, Decode(value[index..], true))
    {
      ghost var rest := value[index..];
      if value[index] == PERCENT {
        if index + 3 > |value| || (index + 3 < |value| && Utf8.Continuation(value[index + 3])) {
          return None;
        }
        var byte := HexByte(value[index + 1], value[index + 2], true);
        assert EscapeAt(rest, true) == byte;
        if byte.None? {
          return None;
        }
        AfterAfter(out, byte.value, Decode(rest[3..], true));
        DropDrop(value, index, 3);
        out := out + [byte.value];
        index := index + 3;
      } else {
        AfterAfter(out, value[index], Decode(rest[1..], true));
        DropDrop(value, index, 1);
        out := out + [value[index]];
        index := index + 1;
      }
    }
    DecodeEnd(value, out);
    r := if Utf8.ValidUpTo(out) == |out| then Some(out) else None;
    Utf8.ValidUpToIsLongest(out);
  }

  lemma DecodeNothing(value: Bytes, decoded: Option<Bytes>)
    ensures value[0..] == value && After([], decoded) == decoded
  {
    assert decoded.Some? ==> [] + decoded.value == decoded.value;
  }

  lemma DecodeEnd(value: Bytes, out: Bytes)
    ensures After(out, Decode(value[|value|..], true)) == Some(out)
  {
    assert value[|value|..] == [];
    assert out + [] == out;
  }

  function StripPrefix(s: Bytes, prefix: Bytes): Option<Bytes> {
    if prefix <= s then Some(s[|prefix|..]) else None
  }

  /** The path part of a URI without authority, or of `localhost`. */
  function PathPart(uri: Bytes): Option<Bytes> {
    var rest := StripPrefix(uri, Ascii("file://"));
    if rest.None? then None
    else
      var path := if [SLASH] <= rest.value then rest else StripPrefix(rest.value, Ascii("localhost"));
      if path.None? || !([SLASH] <= path.value) || QUESTION in path.value || HASH in path.value then None
      else path
  }

  function PathOf(uri: Bytes): Option<Bytes> {
    var path := PathPart(uri);
    if path.None? then None
    else
      var decoded := Decode(path.value, true);
      if decoded.None? || !Utf8.Valid(decoded.value) || NUL in decoded.value then None else decoded
  }

  method FileUriPath(uri: Bytes) returns (r: Option<Bytes>)
    ensures r == PathOf(uri)
  {
    hide Utf8.Valid, Decode, Ascii;
    var rest := StripPrefix(uri, Ascii("file://"));
    if rest.None? {
      return None;
    }
    var path := rest.value;
    if !([SLASH] <= path) {
      var remote := StripPrefix(path, Ascii("localhost"));
      if remote.None? {
        return None;
      }
      path := remote.value;
    }
    if !([SLASH] <= path) || QUESTION in path || HASH in path {
      return None;
    }
    var decoded := PercentDecode(path);
    if decoded.None? || NUL in decoded.value {
      return None;
    }
    return decoded;
  }

  // ----- Encoding

  /** How a byte of a path is written. */
  datatype Style = Raw | Escaped(upperHigh: bool, upperLow: bool)

  function HexDigit(n: byte, upper: bool): byte
    requires n < 16
  {
    if n < 10 then 48 + n else if upper then 55 + n else 87 + n
  }

  function Written(b: byte, style: Style): Bytes {
    match style
    case Raw => [b]
    case Escaped(high, low) => [PERCENT, HexDigit(b / 16, high), HexDigit(b % 16, low)]
  }

  function Encoded(path: Bytes, styles: seq<Style>): Bytes
    requires |styles| == |path|
  {
    if path == [] then [] else Written(path[0], styles[0]) + Encoded(path[1..], styles[1..])
  }

  predicate Reserved(b: byte) {
    b == PERCENT || b == QUESTION || b == HASH
  }

  /** Reserved bytes are escaped, and a character whole or not at all. */
  predicate Proper(path: Bytes, styles: seq<Style>)
    requires |styles| == |path|
  {
    && (forall i | 0 <= i < |path| && Reserved(path[i]) :: styles[i].Escaped?)
    && (forall i | 0 < i < |path| && Utf8.Continuation(path[i]) :: styles[i].Raw? == styles[i - 1].Raw?)
  }

  lemma ProperRest(path: Bytes, styles: seq<Style>)
    requires path != [] && |styles| == |path| && Proper(path, styles)
    ensures Proper(path[1..], styles[1..])
  {
  }

  lemma EncodedFirst(path: Bytes, styles: seq<Style>)
    requires path != [] && |styles| == |path|
    ensures Encoded(path, styles) != []
    ensures Encoded(path, styles)[0] == if styles[0].Raw? then path[0] else PERCENT
  {
  }

  lemma HexRoundTrip(b: byte, high: bool, low: bool, sign: bool)
    ensures HexByte(HexDigit(b / 16, high), HexDigit(b % 16, low), sign) == Some(b)
  {
    HexDigitValue(b / 16, high);
    HexDigitValue(b % 16, low);
    hide HexDigit, HexValue;
  }

  lemma HexDigitValue(n: byte, upper: bool)
    requires n < 16
    ensures HexValue(HexDigit(n, upper)) == Some(n)
  {
  }

  lemma DecodeRaw(b: byte, rest: Bytes, sign: bool)
    requires b != PERCENT
    ensures Decode([b] + rest, sign) == After([b], Decode(rest, sign))
  {
    assert ([b] + rest)[1..] == rest;
  }

  lemma DecodeEscape(a: byte, b: byte, rest: Bytes, sign: bool)
    requires rest == [] || !Utf8.Continuation(rest[0])
    ensures Decode([PERCENT, a, b] + rest, sign) ==
              if HexByte(a, b, sign).None? then None else After([HexByte(a, b, sign).value], Decode(rest, sign))
  {
    hide HexByte;
    var value := [PERCENT, a, b] + rest;
    assert value[3..] == rest;
    assert value[1] == a && value[2] == b;
    assert |value| > 3 ==> value[3] == rest[0];
  }

  /** Decoding gives back the path, however it was escaped. */
  lemma {:induction false} DecodesEncoded(path: Bytes, styles: seq<Style>, sign: bool)
    requires |styles| == |path| && Proper(path, styles)
    ensures Decode(Encoded(path, styles), sign) == Some(path)
  {
    if path != [] {
      var b, rest := path[0], Encoded(path[1..], styles[1..]);
      ProperRest(path, styles);
      DecodesEncoded(path[1..], styles[1..], sign);
      assert styles[0].Raw? ==> b != PERCENT;
      assert styles[0].Escaped? ==> rest == [] || !Utf8.Continuation(rest[0]) by {
        if path[1..] != [] {
          EncodedFirst(path[1..], styles[1..]);
        }
      }
      hide Decode, Proper;
      match styles[0] {
        case Raw =>
          DecodeRaw(b, rest, sign);
        case Escaped(high, low) =>
          HexRoundTrip(b, high, low, sign);
          DecodeEscape(HexDigit(b / 16, high), HexDigit(b % 16, low), rest, sign);
      }
      WithoutFirst(path);
    }
  }

  lemma {:induction false} EncodedConcat(a: Bytes, b: Bytes, s: seq<Style>, t: seq<Style>)
    requires |s| == |a| && |t| == |b|
    ensures Encoded(a + b, s + t) == Encoded(a, s) + Encoded(b, t)
  {
    hide Written;
    if a == [] {
      assert a + b == b && s + t == t;
    } else {
      EncodedConcat(a[1..], b, s[1..], t);
      assert (a + b)[1..] == a[1..] + b && (s + t)[1..] == s[1..] + t;
      Associative(Written(a[0], s[0]), Encoded(a[1..], s[1..]), Encoded(b, t));
    }
  }

  lemma {:induction false} AllRaw(path: Bytes, styles: seq<Style>)
    requires |styles| == |path| && forall i | 0 <= i < |path| :: styles[i].Raw?
    ensures Encoded(path, styles) == path
  {
    if path != [] {
      AllRaw(path[1..], styles[1..]);
      WithoutFirst(path);
    }
  }

  lemma {:induction false} AllEscaped(path: Bytes, styles: seq<Style>)
    requires |styles| == |path| && forall i | 0 <= i < |path| :: styles[i].Escaped?
    ensures forall i | 0 <= i < |Encoded(path, styles)| :: Encoded(path, styles)[i] < 0x80
  {
    if path != [] {
      AllEscaped(path[1..], styles[1..]);
    }
  }

  /** Of one character, all bytes have the same style. */
  lemma {:induction false} OneStyle(path: Bytes, styles: seq<Style>, w: nat)
    requires |styles| == |path| && Proper(path, styles) && 0 < w <= |path|
    requires forall i | 0 < i < w :: Utf8.Continuation(path[i])
    ensures forall i | 0 <= i < w :: styles[i].Raw? == styles[0].Raw?
  {
    if w > 1 {
      OneStyle(path, styles, w - 1);
      assert Utf8.Continuation(path[w - 1]);
      assert styles[w - 1].Raw? == styles[w - 2].Raw?;
    }
  }

  lemma CharacterContinues(path: Bytes)
    requires Utf8.WholeFirst(path)
    ensures var w := Utf8.Width(path[0]);
            0 < w <= |path| && Utf8.Valid(path[..w]) && forall i | 0 < i < w :: Utf8.Continuation(path[i])
  {
    var w := Utf8.Width(path[0]);
    var first := path[..w];
    assert first[w..] == [];
    assert Utf8.WholeFirst(first);
  }

  lemma ProperSplit(path: Bytes, styles: seq<Style>, w: nat)
    requires |styles| == |path| && Proper(path, styles) && w <= |path|
    ensures Proper(path[w..], styles[w..])
    ensures path == path[..w] + path[w..] && styles == styles[..w] + styles[w..]
  {
  }

  /** Escaping whole characters keeps a path text. */
  lemma {:induction false} EncodedIsText(path: Bytes, styles: seq<Style>)
    requires |styles| == |path| && Proper(path, styles) && Utf8.Valid(path)
    ensures Utf8.Valid(Encoded(path, styles))
  {
    if path != [] {
      var w := Utf8.Width(path[0]);
      CharacterContinues(path);
      ProperSplit(path, styles, w);
      EncodedIsText(path[w..], styles[w..]);
      hide Utf8.Valid, Utf8.WholeFirst, Encoded, Utf8.Width;
      OneStyle(path, styles, w);
      var first, firstStyles := path[..w], styles[..w];
      if styles[0].Raw? {
        AllRaw(first, firstStyles);
      } else {
        AllEscaped(first, firstStyles);
        Utf8.AsciiValid(Encoded(first, firstStyles));
      }
      EncodedConcat(first, path[w..], firstStyles, styles[w..]);
      Utf8.ValidConcat(Encoded(first, firstStyles), Encoded(path[w..], styles[w..]));
    }
  }

  lemma {:induction false} EncodedHasNoReserved(path: Bytes, styles: seq<Style>)
    requires |styles| == |path| && Proper(path, styles)
    ensures QUESTION !in Encoded(path, styles) && HASH !in Encoded(path, styles)
  {
    if path != [] {
      ProperRest(path, styles);
      EncodedHasNoReserved(path[1..], styles[1..]);
      assert QUESTION !in Written(path[0], styles[0]) && HASH !in Written(path[0], styles[0]);
    }
  }

  /** The URI of an absolute path, without an authority or of `localhost`. */
  function UriOf(path: Bytes, styles: seq<Style>, local: bool): Bytes
    requires |styles| == |path|
  {
    Ascii(if local then "file://localhost" else "file://") + Encoded(path, styles)
  }

  lemma PathPartIs(encoded: Bytes, local: bool)
    requires [SLASH] <= encoded && QUESTION !in encoded && HASH !in encoded
    ensures PathPart(Ascii(if local then "file://localhost" else "file://") + encoded) == Some(encoded)
  {
    hide Ascii, PathPart;
    AsciiConcat("file://", "localhost");
    assert "file://" + "localhost" == "file://localhost";
    assert Ascii("localhost")[0] == 108;
    var scheme, host := Ascii("file://"), Ascii("localhost");
    Stripped(scheme, encoded);
    Stripped(scheme, host + encoded);
    Stripped(host, encoded);
    if local {
      Associative(scheme, host, encoded);
      PathAfter(scheme + (host + encoded), host + encoded, encoded);
    } else {
      PathAfter(scheme + encoded, encoded, encoded);
    }
  }

  lemma Stripped(prefix: Bytes, rest: Bytes)
    ensures StripPrefix(prefix + rest, prefix) == Some(rest)
  {
    assert (prefix + rest)[|prefix|..] == rest;
  }

  lemma PathAfter(uri: Bytes, rest: Bytes, encoded: Bytes)
    requires StripPrefix(uri, Ascii("file://")) == Some(rest)
    requires rest == encoded || (!([SLASH] <= rest) && StripPrefix(rest, Ascii("localhost")) == Some(encoded))
    requires [SLASH] <= encoded && QUESTION !in encoded && HASH !in encoded
    ensures PathPart(uri) == Some(encoded)
  {
    hide Ascii, StripPrefix;
  }

  /** Every absolute path of text without NUL comes back from every URI of it. */
  lemma {:induction false} RoundTrip(path: Bytes, styles: seq<Style>, local: bool)
    requires [SLASH] <= path && Utf8.Valid(path) && NUL !in path
    requires |styles| == |path| && styles[0].Raw? && Proper(path, styles)
    ensures PathOf(UriOf(path, styles, local)) == Some(path)
    ensures Utf8.Valid(Encoded(path, styles))
  {
    hide Utf8.Valid, Proper, Ascii, Decode, PathPart, Encoded;
    EncodedFirst(path, styles);
    EncodedHasNoReserved(path, styles);
    EncodedIsText(path, styles);
    PathPartIs(Encoded(path, styles), local);
    DecodesEncoded(path, styles, true);
  }

  /** Whatever is accepted is an absolute path of text without NUL. */
  lemma ResultIsAbsolute(uri: Bytes)
    requires PathOf(uri).Some?
    ensures var path := PathOf(uri).value;
            [SLASH] <= path && NUL !in path && Utf8.Valid(path)
  {
    hide Ascii, Utf8.Valid;
  }

  // ----- What counts as an escape

  /** A percent sign before a plus sign. */
  predicate SignedEscape(value: Bytes) {
    exists i | 0 <= i < |value| - 1 :: value[i] == PERCENT && value[i + 1] == PLUS
  }

  lemma SignedCons(first: Bytes, rest: Bytes)
    requires 0 < |first| && forall k | 0 < k < |first| :: first[k] != PERCENT
    requires first[0] == PERCENT ==> |first| > 1
    ensures SignedEscape(first + rest) <==> (first[0] == PERCENT && first[1] == PLUS) || SignedEscape(rest)
  {
    var value := first + rest;
    assert forall k | 0 <= k < |first| :: value[k] == first[k];
    if SignedEscape(value) {
      var i :| 0 <= i < |value| - 1 && value[i] == PERCENT && value[i + 1] == PLUS;
      if i >= |first| {
        assert rest[i - |first|] == PERCENT && rest[i - |first| + 1] == PLUS;
      }
    }
    if SignedEscape(rest) {
      var i :| 0 <= i < |rest| - 1 && rest[i] == PERCENT && rest[i + 1] == PLUS;
      assert value[i + |first|] == PERCENT && value[i + |first| + 1] == PLUS;
    }
    if first[0] == PERCENT && first[1] == PLUS {
      assert value[0] == PERCENT && value[0 + 1] == PLUS;
    }
  }

  /** What section 2.1 of RFC 3986 decodes is decoded the same. A value that has
      a plus sign for a digit is accepted beyond that, and only such. */
  lemma {:induction false} AcceptsSignedBeyondRfc(value: Bytes)
    ensures Decode(value, false).Some? <==> Decode(value, true).Some? && !SignedEscape(value)
    ensures Decode(value, false).Some? ==> Decode(value, true) == Decode(value, false)
  {
    if value != [] {
      var n := if value[0] == PERCENT then 3 else 1;
      if n <= |value| {
        var first, rest := value[..n], value[n..];
        AcceptsSignedBeyondRfc(rest);
        assert value == first + rest;
        if n == 1 || HexByte(value[1], value[2], true).Some? {
          SignedCons(first, rest);
        }
        hide SignedEscape, HexValue;
      }
    }
  }

  lemma SignedExample()
    ensures Decode([SLASH, PERCENT, PLUS, 53], true) == Some([SLASH, 5])
    ensures Decode([SLASH, PERCENT, PLUS, 53], false) == None
  {
    var escape: Bytes := [PERCENT, PLUS, 53];
    assert [SLASH, PERCENT, PLUS, 53] == [SLASH] + escape;
    assert escape == escape + [];
    DecodeRaw(SLASH, escape, true);
    DecodeRaw(SLASH, escape, false);
    DecodeEscape(PLUS, 53, [], true);
    DecodeEscape(PLUS, 53, [], false);
    var five: Bytes := [5];
    assert five + [] == five && [SLASH] + five == [SLASH, 5];
  }

  // ----- What is refused

  /** Exactly these are accepted: the scheme, no host or `localhost`, and an
      encoded absolute path. */
  lemma AcceptedIff(uri: Bytes, path: Bytes)
    ensures PathOf(uri) == Some(path) <==>
            && Utf8.Valid(path) && NUL !in path
            && exists encoded ::
                 && (uri == Ascii("file://") + encoded || uri == Ascii("file://") + (Ascii("localhost") + encoded))
                 && encoded != [] && encoded[0] == 47 && 63 !in encoded && 35 !in encoded
                 && Decode(encoded, true) == Some(path)
  {
    hide Utf8.Valid, Decode, PathPart, Ascii;
    if PathOf(uri) == Some(path) {
      PathPartFrom(uri);
    }
    if encoded :| (uri == Ascii("file://") + encoded || uri == Ascii("file://") + (Ascii("localhost") + encoded))
                  && encoded != [] && encoded[0] == 47 && 63 !in encoded && 35 !in encoded
                  && Decode(encoded, true) == Some(path) {
      UriParts(uri, encoded);
      PathPartIs(encoded, uri != Ascii("file://") + encoded);
    }
  }

  lemma UriParts(uri: Bytes, encoded: Bytes)
    requires uri == Ascii("file://") + encoded || uri == Ascii("file://") + (Ascii("localhost") + encoded)
    ensures uri == Ascii(if uri != Ascii("file://") + encoded then "file://localhost" else "file://") + encoded
  {
    hide Ascii;
    AsciiConcat("file://", "localhost");
    assert "file://" + "localhost" == "file://localhost";
    Associative(Ascii("file://"), Ascii("localhost"), encoded);
  }

  lemma PathPartFrom(uri: Bytes)
    requires PathPart(uri).Some?
    ensures var encoded := PathPart(uri).value;
            && (uri == Ascii("file://") + encoded || uri == Ascii("file://") + (Ascii("localhost") + encoded))
            && encoded != [] && encoded[0] == 47 && 63 !in encoded && 35 !in encoded
  {
    hide Ascii;
  }

  /** A query, a fragment, any other scheme and any other host are refused. */
  lemma Refused(uri: Bytes, host: Bytes, below: Bytes)
    requires || 63 in uri || 35 in uri
             || !(Ascii("file://") <= uri)
             || (uri == Ascii("file://") + (host + ([47] + below)) && 47 !in host && host != []
                 && host != Ascii("localhost"))
    ensures PathOf(uri) == None
  {
    hide Utf8.Valid, Decode, PathPart;
    if PathPart(uri).Some? {
      PathPartFrom(uri);
      var encoded := PathPart(uri).value;
      hide Ascii;
      NoReserved("file://");
      NoReserved("localhost");
      assert 63 !in uri && 35 !in uri;
      HostIs(uri, host, below, encoded);
    }
  }

  lemma NoReserved(s: string)
    requires '?' !in s && '#' !in s && forall i | 0 <= i < |s| :: s[i] as int < 128
    ensures 63 !in Ascii(s) && 35 !in Ascii(s)
  {
    assert forall i | 0 <= i < |s| :: s[i] in s;
  }

  lemma HostIs(uri: Bytes, host: Bytes, below: Bytes, encoded: Bytes)
    requires uri == Ascii("file://") + encoded || uri == Ascii("file://") + (Ascii("localhost") + encoded)
    requires encoded != [] && encoded[0] == 47
    requires uri == Ascii("file://") + (host + ([47] + below)) && 47 !in host
    ensures host == [] || host == Ascii("localhost")
  {
    var rest := host + ([47] + below);
    var scheme, name := Ascii("file://"), Ascii("localhost");
    assert uri[|scheme|..] == rest;
    if uri == scheme + encoded {
      assert uri[|scheme|..] == encoded;
    } else {
      var all := name + encoded;
      assert uri[|scheme|..] == all;
      assert 47 !in name by {
        NoSlash("localhost");
      }
      hide Ascii;
      SameHead(host, [47] + below, name, encoded);
    }
  }

  lemma NoSlash(s: string)
    requires '/' !in s && forall i | 0 <= i < |s| :: s[i] as int < 128
    ensures 47 !in Ascii(s)
  {
    assert forall i | 0 <= i < |s| :: s[i] in s;
  }

  /** What comes before the first slash. */
  lemma SameHead(a: Bytes, x: Bytes, b: Bytes, y: Bytes)
    requires a + x == b + y && x != [] && y != [] && x[0] == 47 == y[0] && 47 !in a && 47 !in b
    ensures a == b
  {
    var s := a + x;
    assert s[|a|] == 47 && s[|b|] == 47;
    assert forall i | 0 <= i < |a| :: s[i] == a[i] && a[i] in a;
    assert forall i | 0 <= i < |b| :: s[i] == b[i] && b[i] in b;
    assert a == s[..|a|] && b == s[..|b|];
  }
}
