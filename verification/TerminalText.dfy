/** What the sanitizer leaves of terminal output: the output read as a list of
    characters, line ends, controls and whole escape sequences (ECMA-48 sections
    5.4 and 5.6), and what each of these comes to. */
module TerminalText {
  import opened Wrappers
  import opened Bytes
  import opened Sanitizer
  import Utf8

  /** A piece of a control string: one byte, or an escape that does not end it. */
  datatype Chunk = Plain(b: byte) | Escaped(b: byte)

  datatype Item =
    | Shown(b: byte)
    | Return
    | ReturnFeed
    | Unsafe(b: byte)
    | ControlSequence(parameters: Bytes, final: byte)
    | Command(text: seq<Chunk>, bell: bool)
    | ControlString(introducer: byte, text: seq<Chunk>)
    | ShortEscape(b: byte)

  /** A sequence that the output ends inside of. */
  datatype Tail =
    | Finished
    | CutEscape
    | CutSequence(parameters: Bytes)
    | CutCommand(text: seq<Chunk>, escape: bool)
    | CutString(introducer: byte, text: seq<Chunk>, escape: bool)

  predicate CommandChunk(c: Chunk) {
    match c
    case Plain(b) => b != 0x07 && b != 0x1b && b != 0
    case Escaped(b) => b != 92 && b != 0
  }

  predicate StringChunk(c: Chunk) {
    match c
    case Plain(b) => b != 0x1b && b != 0
    case Escaped(b) => b != 92 && b != 0
  }

  predicate Parameter(b: byte) {
    b != 0 && (b < 0x40 || b > 0x7e)
  }

  predicate ItemOk(item: Item) {
    match item
    case Shown(b) => b == 0x09 || b == 0x0a || (b >= 0x20 && b != 0x7f)
    case Return => true
    case ReturnFeed => true
    case Unsafe(b) => b == 0x7f || (0 < b < 0x20 && b != 0x09 && b != 0x0a && b != 0x0d && b != 0x1b)
    case ControlSequence(parameters, final) =>
      0x40 <= final <= 0x7e && forall i | 0 <= i < |parameters| :: Parameter(parameters[i])
    case Command(text, _) => forall i | 0 <= i < |text| :: CommandChunk(text[i])
    case ControlString(introducer, text) =>
      (introducer == 80 || introducer == 94 || introducer == 95)
      && forall i | 0 <= i < |text| :: StringChunk(text[i])
    case ShortEscape(b) => b != 0 && b != 91 && b != 93 && b != 80 && b != 94 && b != 95
  }

  predicate TailOk(tail: Tail) {
    match tail
    case Finished => true
    case CutEscape => true
    case CutSequence(parameters) => forall i | 0 <= i < |parameters| :: Parameter(parameters[i])
    case CutCommand(text, _) => forall i | 0 <= i < |text| :: CommandChunk(text[i])
    case CutString(introducer, text, _) =>
      (introducer == 80 || introducer == 94 || introducer == 95)
      && forall i | 0 <= i < |text| :: StringChunk(text[i])
  }

  function ChunkBytes(text: seq<Chunk>): Bytes {
    if text == [] then []
    else (match text[0] case Plain(b) => [b] case Escaped(b) => [0x1b, b]) + ChunkBytes(text[1..])
  }

  function ItemBytes(item: Item): Bytes {
    match item
    case Shown(b) => [b]
    case Return => [0x0d]
    case ReturnFeed => [0x0d, 0x0a]
    case Unsafe(b) => [b]
    case ControlSequence(parameters, final) => [0x1b, 91] + (parameters + [final])
    case Command(text, bell) => [0x1b, 93] + (ChunkBytes(text) + if bell then [0x07] else [0x1b, 92])
    case ControlString(introducer, text) => [0x1b, introducer] + (ChunkBytes(text) + [0x1b, 92])
    case ShortEscape(b) => [0x1b, b]
  }

  function TailBytes(tail: Tail): Bytes {
    match tail
    case Finished => []
    case CutEscape => [0x1b]
    case CutSequence(parameters) => [0x1b, 91] + parameters
    case CutCommand(text, escape) => [0x1b, 93] + (ChunkBytes(text) + if escape then [0x1b] else [])
    case CutString(introducer, text, escape) =>
      [0x1b, introducer] + (ChunkBytes(text) + if escape then [0x1b] else [])
  }

  function Rendered(items: seq<Item>, tail: Tail): Bytes {
    if items == [] then TailBytes(tail) else ItemBytes(items[0]) + Rendered(items[1..], tail)
  }

  /** A return and a feed that come together are one line end. */
  predicate ItemsOk(items: seq<Item>) {
    && (forall i | 0 <= i < |items| :: ItemOk(items[i]))
    && (forall i | 0 < i < |items| :: items[i] == Shown(0x0a) ==> items[i - 1] != Return)
  }

  function ItemText(item: Item): Bytes {
    match item
    case Shown(b) => [b]
    case Return => [0x0a]
    case ReturnFeed => [0x0a]
    case _ => []
  }

  function Texts(items: seq<Item>): Bytes {
    if items == [] then [] else ItemText(items[0]) + Texts(items[1..])
  }

  // ----- Sequences vanish

  lemma CleanCons(first: byte, rest: Bytes, state: State)
    requires state != Ground
    ensures Clean([first] + rest, state) == Clean(rest, StepEscape(state, first))
  {
    assert ([first] + rest)[1..] == rest;
  }

  lemma CleanPair(first: byte, second: byte, rest: Bytes, state: State)
    requires state != Ground && StepEscape(state, first) != Ground
    ensures Clean([first, second] + rest, state) == Clean(rest, StepEscape(StepEscape(state, first), second))
  {
    assert [first, second] + rest == [first] + ([second] + rest);
    CleanCons(first, [second] + rest, state);
    CleanCons(second, rest, StepEscape(state, first));
  }

  lemma CleanEscape(second: byte, rest: Bytes)
    ensures Clean([0x1b, second] + rest, Ground) == Clean(rest, StepEscape(State.Escape, second))
  {
    assert ([0x1b, second] + rest)[1..] == [second] + rest;
    CleanCons(second, rest, State.Escape);
  }

  lemma {:induction false} ParametersVanish(parameters: Bytes, rest: Bytes)
    requires forall i | 0 <= i < |parameters| :: Parameter(parameters[i])
    ensures Clean(parameters + rest, Csi) == Clean(rest, Csi)
  {
    if parameters == [] {
      assert parameters + rest == rest;
    } else {
      WithoutFirst(parameters);
      Associative([parameters[0]], parameters[1..], rest);
      ParametersVanish(parameters[1..], rest);
      hide Clean;
      CleanCons(parameters[0], parameters[1..] + rest, Csi);
    }
  }

  lemma {:induction false} CommandTextVanishes(text: seq<Chunk>, rest: Bytes)
    requires forall i | 0 <= i < |text| :: CommandChunk(text[i])
    ensures Clean(ChunkBytes(text) + rest, Osc) == Clean(rest, Osc)
  {
    if text == [] {
      assert ChunkBytes(text) + rest == rest;
    } else {
      CommandTextVanishes(text[1..], rest);
      hide Clean;
      var below := ChunkBytes(text[1..]) + rest;
      match text[0] {
        case Plain(b) =>
          Associative([b], ChunkBytes(text[1..]), rest);
          CleanCons(b, below, Osc);
        case Escaped(b) =>
          Associative([0x1b, b], ChunkBytes(text[1..]), rest);
          CleanPair(0x1b, b, below, Osc);
      }
    }
  }

  lemma {:induction false} StringTextVanishes(text: seq<Chunk>, rest: Bytes)
    requires forall i | 0 <= i < |text| :: StringChunk(text[i])
    ensures Clean(ChunkBytes(text) + rest, Dcs) == Clean(rest, Dcs)
  {
    if text == [] {
      assert ChunkBytes(text) + rest == rest;
    } else {
      StringTextVanishes(text[1..], rest);
      hide Clean;
      var below := ChunkBytes(text[1..]) + rest;
      match text[0] {
        case Plain(b) =>
          Associative([b], ChunkBytes(text[1..]), rest);
          CleanCons(b, below, Dcs);
        case Escaped(b) =>
          Associative([0x1b, b], ChunkBytes(text[1..]), rest);
          CleanPair(0x1b, b, below, Dcs);
      }
    }
  }

  // ----- Each item comes to its text

  lemma PlainItem(item: Item, rest: Bytes)
    requires ItemOk(item) && (item.Shown? || item.Return? || item.ReturnFeed? || item.Unsafe?)
    requires item == Return ==> rest == [] || rest[0] != 0x0a
    ensures Clean(ItemBytes(item) + rest, Ground) == ItemText(item) + Clean(rest, Ground)
  {
    var s := ItemBytes(item) + rest;
    match item {
      case Shown(b) =>
        assert s[1..] == rest;
      case Return =>
        assert s[1..] == rest;
      case ReturnFeed =>
        assert s[2..] == rest;
      case Unsafe(b) =>
        assert s[1..] == rest;
    }
  }

  lemma ControlSequenceVanishes(parameters: Bytes, final: byte, rest: Bytes)
    requires ItemOk(ControlSequence(parameters, final))
    ensures Clean(ItemBytes(ControlSequence(parameters, final)) + rest, Ground) == Clean(rest, Ground)
  {
    hide Clean;
    Associative([0x1b, 91], parameters + [final], rest);
    Associative(parameters, [final], rest);
    CleanEscape(91, parameters + ([final] + rest));
    ParametersVanish(parameters, [final] + rest);
    CleanCons(final, rest, Csi);
  }

  lemma CommandVanishes(text: seq<Chunk>, bell: bool, rest: Bytes)
    requires ItemOk(Command(text, bell))
    ensures Clean(ItemBytes(Command(text, bell)) + rest, Ground) == Clean(rest, Ground)
  {
    hide Clean, ChunkBytes;
    var end := if bell then [0x07] else [0x1b, 92];
    Associative([0x1b, 93], ChunkBytes(text) + end, rest);
    Associative(ChunkBytes(text), end, rest);
    CleanEscape(93, ChunkBytes(text) + (end + rest));
    CommandTextVanishes(text, end + rest);
    if bell {
      CleanCons(0x07, rest, Osc);
    } else {
      CleanPair(0x1b, 92, rest, Osc);
    }
  }

  lemma ControlStringVanishes(introducer: byte, text: seq<Chunk>, rest: Bytes)
    requires ItemOk(ControlString(introducer, text))
    ensures Clean(ItemBytes(ControlString(introducer, text)) + rest, Ground) == Clean(rest, Ground)
  {
    hide Clean, ChunkBytes;
    var end: Bytes := [0x1b, 92];
    Associative([0x1b, introducer], ChunkBytes(text) + end, rest);
    Associative(ChunkBytes(text), end, rest);
    CleanEscape(introducer, ChunkBytes(text) + (end + rest));
    StringTextVanishes(text, end + rest);
    CleanPair(0x1b, 92, rest, Dcs);
  }

  lemma SequenceItem(item: Item, rest: Bytes)
    requires ItemOk(item) && !(item.Shown? || item.Return? || item.ReturnFeed? || item.Unsafe?)
    ensures Clean(ItemBytes(item) + rest, Ground) == Clean(rest, Ground)
  {
    hide Clean, ChunkBytes;
    match item {
      case ControlSequence(parameters, final) => ControlSequenceVanishes(parameters, final, rest);
      case Command(text, bell) => CommandVanishes(text, bell, rest);
      case ControlString(introducer, text) => ControlStringVanishes(introducer, text, rest);
      case ShortEscape(b) => CleanEscape(b, rest);
    }
  }

  lemma NothingLeft(none: Bytes, state: State)
    requires none == []
    ensures Clean(none, state) == []
  {
  }

  lemma CutVanishes(tail: Tail)
    requires TailOk(tail)
    ensures Clean(TailBytes(tail), Ground) == []
  {
    var none: Bytes := [];
    forall state: State
      ensures Clean(none, state) == []
    {
      NothingLeft(none, state);
    }
    var escape: Bytes := [0x1b];
    assert escape + none == escape;
    assert Clean(escape, Ground) == [] by {
      assert escape[1..] == none;
    }
    hide Clean, ChunkBytes;
    CleanCons(0x1b, none, Osc);
    CleanCons(0x1b, none, Dcs);
    match tail {
      case Finished =>
      case CutEscape =>
      case CutSequence(parameters) =>
        CleanEscape(91, parameters);
        ParametersVanish(parameters, none);
        assert parameters + none == parameters;
      case CutCommand(text, cut) =>
        CleanEscape(93, ChunkBytes(text) + if cut then escape else none);
        CommandTextVanishes(text, if cut then escape else none);
      case CutString(introducer, text, cut) =>
        CleanEscape(introducer, ChunkBytes(text) + if cut then escape else none);
        StringTextVanishes(text, if cut then escape else none);
    }
  }

  lemma StartsWithFeed(items: seq<Item>, tail: Tail)
    requires ItemsOk(items) && Rendered(items, tail) != [] && Rendered(items, tail)[0] == 0x0a
    ensures items != [] && items[0] == Shown(0x0a)
  {
    if items != [] {
      assert ItemOk(items[0]) && ItemBytes(items[0]) != [];
      assert Rendered(items, tail)[0] == ItemBytes(items[0])[0];
    }
    hide Rendered, ChunkBytes;
  }

  lemma {:induction false} ItemsComeToText(items: seq<Item>, tail: Tail)
    requires ItemsOk(items) && TailOk(tail)
    ensures Clean(Rendered(items, tail), Ground) == Texts(items)
  {
    if items == [] {
      CutVanishes(tail);
    } else {
      var item, rest := items[0], items[1..];
      var below := Rendered(rest, tail);
      ItemsComeToText(rest, tail);
      assert ItemOk(item) && (rest != [] ==> rest[0] == items[1]);
      if below != [] && below[0] == 0x0a {
        StartsWithFeed(rest, tail);
      }
      hide Clean, ItemOk, ItemBytes;
      if item.Shown? || item.Return? || item.ReturnFeed? || item.Unsafe? {
        PlainItem(item, below);
      } else {
        SequenceItem(item, below);
      }
    }
  }

  /** Sanitizing output gives the text of its items, or says it is binary if that
      is not UTF-8: characters, tabs and feeds pass, a line end is one feed, and
      controls and whole sequences vanish, the last one even if it is cut short. */
  lemma SanitizedIsText(items: seq<Item>, tail: Tail)
    requires ItemsOk(items) && TailOk(tail)
    ensures Sanitized(Rendered(items, tail))
         == if Utf8.Valid(Texts(items)) then Some(Texts(items)) else None
  {
    ItemsComeToText(items, tail);
    RenderedHasNoNul(items, tail);
    hide Clean, Rendered, Texts, Utf8.Valid;
  }

  lemma {:induction false} ChunksHaveNoNul(text: seq<Chunk>)
    requires forall i | 0 <= i < |text| :: text[i].b != 0
    ensures 0 !in ChunkBytes(text)
  {
    if text != [] {
      ChunksHaveNoNul(text[1..]);
    }
  }

  lemma ItemHasNoNul(item: Item)
    requires ItemOk(item)
    ensures 0 !in ItemBytes(item)
  {
    if item.Command? || item.ControlString? {
      ChunksHaveNoNul(item.text);
    }
    hide ChunkBytes;
  }

  lemma TailHasNoNul(tail: Tail)
    requires TailOk(tail)
    ensures 0 !in TailBytes(tail)
  {
    if tail.CutCommand? || tail.CutString? {
      ChunksHaveNoNul(tail.text);
    }
    hide ChunkBytes;
  }

  lemma {:induction false} RenderedHasNoNul(items: seq<Item>, tail: Tail)
    requires ItemsOk(items) && TailOk(tail)
    ensures NUL !in Rendered(items, tail)
  {
    if items == [] {
      TailHasNoNul(tail);
    } else {
      assert ItemOk(items[0]) && ItemsOk(items[1..]);
      ItemHasNoNul(items[0]);
      RenderedHasNoNul(items[1..], tail);
      hide ItemBytes;
    }
  }

  // ----- All output is such a list

  lemma {:induction false} ReadParameters(s: Bytes) returns (parameters: Bytes, rest: Bytes)
    requires NUL !in s
    ensures s == parameters + rest && forall i | 0 <= i < |parameters| :: Parameter(parameters[i])
    ensures rest == [] || 0x40 <= rest[0] <= 0x7e
  {
    if s == [] || 0x40 <= s[0] <= 0x7e {
      parameters, rest := [], s;
    } else {
      assert s[0] in s;
      WithoutFirst(s);
      var more;
      more, rest := ReadParameters(s[1..]);
      parameters := [s[0]] + more;
      Associative([s[0]], more, rest);
    }
  }

  /** The text of a control string up to what ends it, or the output does. */
  lemma {:induction false} ReadText(s: Bytes, command: bool) returns (text: seq<Chunk>, rest: Bytes)
    requires NUL !in s
    ensures s == ChunkBytes(text) + rest
    ensures forall i | 0 <= i < |text| :: if command then CommandChunk(text[i]) else StringChunk(text[i])
    ensures rest == [] || rest == [0x1b] || [0x1b, 92] <= rest || (command && rest[0] == 0x07)
  {
    assert |s| > 1 && s[0] == 0x1b && s[1] == 92 ==> s[..2] == [0x1b, 92];
    if s == [] || s == [0x1b] || [0x1b, 92] <= s || (command && s[0] == 0x07) {
      text, rest := [], s;
      assert ChunkBytes(text) + rest == s;
    } else {
      var n := if s[0] == 0x1b then 2 else 1;
      var chunk := if s[0] == 0x1b then Escaped(s[1]) else Plain(s[0]);
      assert s[0] in s && (n == 2 ==> s[1] in s);
      assert s[..n] == (match chunk case Plain(b) => [b] case Escaped(b) => [0x1b, b]);
      var more;
      more, rest := ReadText(s[n..], command);
      text := [chunk] + more;
      assert text[1..] == more;
      assert s == s[..n] + s[n..];
      Associative(s[..n], ChunkBytes(more), rest);
    }
  }

  /** The first item of output, or the tail that is all of it. */
  lemma ReadSequence(s: Bytes) returns (item: Item, rest: Bytes, tail: Tail)
    requires NUL !in s && s != [] && s[0] == 0x1b
    ensures tail == Finished ==> ItemOk(item) && !item.Shown? && item != Return && s == ItemBytes(item) + rest
    ensures tail != Finished ==> TailOk(tail) && s == TailBytes(tail)
  {
    item, rest, tail := ReturnFeed, [], CutEscape;
    if |s| == 1 {
      assert s == [0x1b];
    } else {
      var below := s[2..];
      assert s == [0x1b, s[1]] + below && s[1] in s;
      if s[1] == 91 {
        var parameters, more := ReadParameters(below);
        if more == [] {
          assert parameters + more == parameters;
          tail := CutSequence(parameters);
        } else {
          item, rest, tail := ControlSequence(parameters, more[0]), more[1..], Finished;
          WithoutFirst(more);
          Associative(parameters, [more[0]], rest);
          Associative([0x1b, 91], parameters + [more[0]], rest);
        }
      } else if s[1] == 93 || s[1] == 80 || s[1] == 94 || s[1] == 95 {
        item, rest, tail := ReadString(s);
      } else {
        item, rest, tail := ShortEscape(s[1]), below, Finished;
      }
    }
  }

  lemma ReadString(s: Bytes) returns (item: Item, rest: Bytes, tail: Tail)
    requires NUL !in s && |s| > 1 && s[0] == 0x1b && (s[1] == 93 || s[1] == 80 || s[1] == 94 || s[1] == 95)
    ensures tail == Finished ==> ItemOk(item) && !item.Shown? && item != Return && s == ItemBytes(item) + rest
    ensures tail != Finished ==> TailOk(tail) && s == TailBytes(tail)
  {
    var command, start, below := s[1] == 93, [0x1b, s[1]], s[2..];
    assert s == start + below;
    var text, more := ReadText(below, command);
    var bytes := ChunkBytes(text);
    hide ChunkBytes;
    item, rest := ReturnFeed, [];
    if more == [] || more == [0x1b] {
      tail := if command then CutCommand(text, more != []) else CutString(s[1], text, more != []);
    } else {
      var bell := more[0] == 0x07;
      var end := if bell then [0x07] else [0x1b, 92];
      rest, tail := more[|end|..], Finished;
      item := if command then Command(text, bell) else ControlString(s[1], text);
      assert more == end + rest;
      Associative(bytes, end, rest);
      Associative(start, bytes + end, rest);
    }
  }

  /** Every output without NUL reads as a list of items and a tail. */
  lemma {:induction false} OutputIsItems(s: Bytes) returns (items: seq<Item>, tail: Tail)
    requires NUL !in s
    ensures ItemsOk(items) && TailOk(tail) && s == Rendered(items, tail)
    decreases |s|
  {
    if s == [] {
      items, tail := [], Finished;
    } else {
      var item, rest, cut := ReadSequenceOrByte(s);
      if cut != Finished {
        items, tail := [], cut;
      } else {
        var more;
        more, tail := OutputIsItems(rest);
        items := [item] + more;
        assert items[1..] == more;
        assert more != [] && more[0] == Shown(0x0a) ==> rest[0] == 0x0a;
      }
    }
  }

  /** Exactly output without NUL whose items come to UTF-8 is sanitized, to that. */
  lemma SanitizedIff(s: Bytes, text: Bytes)
    ensures Sanitized(s) == Some(text) <==>
            && 0 !in s && Utf8.Valid(text)
            && exists items, tail :: ItemsOk(items) && TailOk(tail) && s == Rendered(items, tail) && text == Texts(items)
  {
    if 0 !in s {
      var items, tail := OutputIsItems(s);
      SanitizedIsText(items, tail);
    }
    forall items, tail | ItemsOk(items) && TailOk(tail) && s == Rendered(items, tail)
      ensures Sanitized(s) == if Utf8.Valid(Texts(items)) then Some(Texts(items)) else None
    {
      SanitizedIsText(items, tail);
    }
    hide ItemsOk, TailOk, Rendered, Texts, Clean, Utf8.Valid;
  }

  lemma ReadSequenceOrByte(s: Bytes) returns (item: Item, rest: Bytes, tail: Tail)
    requires NUL !in s && s != []
    ensures tail == Finished ==> ItemOk(item) && s == ItemBytes(item) + rest && |rest| < |s| && NUL !in rest
    ensures tail == Finished && item == Return ==> rest == [] || rest[0] != 0x0a
    ensures tail != Finished ==> TailOk(tail) && s == TailBytes(tail)
  {
    var b := s[0];
    assert b in s;
    if b == 0x1b {
      item, rest, tail := ReadSequence(s);
      if tail == Finished {
        assert ItemBytes(item) != [];
      }
    } else {
      tail := Finished;
      if b == 0x0d && |s| > 1 && s[1] == 0x0a {
        item, rest := ReturnFeed, s[2..];
      } else {
        item := if b == 0x0d then Return
                else if b == 0x09 || b == 0x0a || (b >= 0x20 && b != 0x7f) then Shown(b)
                else Unsafe(b);
        rest := s[1..];
      }
    }
    hide ChunkBytes;
  }
}
