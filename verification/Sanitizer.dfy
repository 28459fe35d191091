/** Terminal output made plain: escape sequences (ECMA-48 sections 5.4 and 5.6)
    and unsafe controls removed, line ends normalised, then checked to be text. */
module Sanitizer {
  import opened Wrappers
  import opened Bytes
  import Utf8

  const ESC: byte := 0x1b
  const BEL: byte := 0x07
  const BACKSLASH: byte := 92

  datatype State = Ground | Escape | Csi | Osc | OscEscape | Dcs | DcsEscape

  /** The state after a byte inside an escape sequence. */
  function StepEscape(state: State, b: byte): State {
    match state
    case Ground => Ground
    case Escape =>
      if b == 91 then Csi
      else if b == 93 then Osc
      else if b == 80 || b == 94 || b == 95 then Dcs
      else Ground
    case Csi => if 0x40 <= b <= 0x7e then Ground else Csi
    case Osc => if b == BEL then Ground else if b == ESC then OscEscape else Osc
    case OscEscape => if b == BACKSLASH then Ground else Osc
    case Dcs => if b == ESC then DcsEscape else Dcs
    case DcsEscape => if b == BACKSLASH then Ground else Dcs
  }

  predicate Printed(b: byte) {
    b == LF || b == TAB || (b >= 0x20 && b != 0x7f)
  }

  /** The bytes the scan outputs from `state` on; a CR looks ahead for its LF. */
  function Clean(s: Bytes, state: State): Bytes
    decreases |s|
  {
    if s == [] then []
    else if state != Ground then Clean(s[1..], StepEscape(state, s[0]))
    else if s[0] == ESC then Clean(s[1..], Escape)
    else if s[0] == CR then
      [LF] + Clean(if |s| > 1 && s[1] == LF then s[2..] else s[1..], Ground)
    else if Printed(s[0]) then [s[0]] + Clean(s[1..], Ground)
    else Clean(s[1..], Ground)
  }

  function Sanitized(s: Bytes): Option<Bytes> {
    if NUL in s || !Utf8.Valid(Clean(s, Ground)) then None else Some(Clean(s, Ground))
  }

  /** `sanitize_terminal_context`; `None` is the binary-data error. */
  method SanitizeTerminalContext(bytes: Bytes) returns (r: Option<Bytes>)
    ensures r == Sanitized(bytes)
  {
    if NUL in bytes {
      return None;
    }
    var output, state, index := [], Ground, 0;
    while index < |bytes|
      invariant 0 <= index <= |bytes|
      invariant Clean(bytes, Ground) == output + Clean(bytes[index..], state)
    {
      var b := bytes[index];
      if state == Ground {
        if b == ESC {
          state := Escape;
        } else if b == CR {
          output := output + [LF];
          if index + 1 < |bytes| && bytes[index + 1] == LF {
            assert bytes[index..][2..] == bytes[index + 2..];
            index := index + 1;
          }
        } else if Printed(b) {
          output := output + [b];
        }
      } else {
        state := StepEscape(state, b);
      }
      index := index + 1;
    }
    assert bytes[index..] == [] && output + [] == output;
    if Utf8.Valid(output) {
      r := Some(output);
    } else {
      r := None;
    }
  }

  // ----- The scan is sequential: no look-ahead, one mode carried along

  /** The state, and whether the last byte was a CR whose LF is still to skip. */
  datatype Mode = Mode(state: State, afterCr: bool)

  function Emit(b: byte, m: Mode): Bytes {
    if m.state != Ground || (m.afterCr && b == LF) || b == ESC then []
    else if b == CR then [LF]
    else if Printed(b) then [b]
    else []
  }

  function Advance(b: byte, m: Mode): Mode {
    if m.state != Ground then Mode(StepEscape(m.state, b), false)
    else if b == ESC then Mode(Escape, false)
    else Mode(Ground, b == CR)
  }

  function Fed(s: Bytes, m: Mode): Bytes {
    if s == [] then [] else Emit(s[0], m) + Fed(s[1..], Advance(s[0], m))
  }

  function After(s: Bytes, m: Mode): Mode {
    if s == [] then m else After(s[1..], Advance(s[0], m))
  }

  lemma {:induction false} FedConcat(a: Bytes, b: Bytes, m: Mode)
    ensures Fed(a + b, m) == Fed(a, m) + Fed(b, After(a, m))
  {
    if a == [] {
      assert a + b == b;
    } else {
      var first, rest := a[0], a[1..];
      FedConcat(rest, b, Advance(first, m));
      assert (a + b)[0] == first && (a + b)[1..] == rest + b;
      hide Emit, Advance;
      Associative(Emit(first, m), Fed(rest, Advance(first, m)), Fed(b, After(rest, Advance(first, m))));
    }
  }

  /** The scan with look-ahead computes what the transducer does. */
  lemma {:induction false} CleanIsFed(s: Bytes, state: State, afterCr: bool)
    requires afterCr ==> state == Ground
    ensures Fed(s, Mode(state, afterCr))
         == Clean(if afterCr && s != [] && s[0] == LF then s[1..] else s, state)
    decreases |s|
  {
    if s != [] {
      var m := Advance(s[0], Mode(state, afterCr));
      CleanIsFed(s[1..], m.state, m.afterCr);
      if s[0] == CR && |s| > 1 {
        assert s[1..][1..] == s[2..];
      }
    }
  }

  /** What was clean stays so as more output arrives: the text of a longer output
      extends the text of a shorter one, wherever the cut falls. */
  lemma CleanIsSequential(a: Bytes, b: Bytes)
    ensures Clean(a, Ground) <= Clean(a + b, Ground)
  {
    CleanIsFed(a, Ground, false);
    CleanIsFed(a + b, Ground, false);
    FedConcat(a, b, Mode(Ground, false));
  }

  lemma SanitizedIsSequential(a: Bytes, b: Bytes)
    requires Sanitized(a).Some? && Sanitized(a + b).Some?
    ensures Sanitized(a).value <= Sanitized(a + b).value
  {
    CleanIsSequential(a, b);
  }

  /** Nothing unsafe comes out: no escape, no carriage return, no other control
      but line feed and tab. */
  lemma {:induction false} CleanIsPrinted(s: Bytes, state: State)
    ensures forall b | b in Clean(s, state) :: Printed(b)
    decreases |s|
  {
    if s != [] {
      if state != Ground {
        CleanIsPrinted(s[1..], StepEscape(state, s[0]));
      } else if s[0] == ESC {
        CleanIsPrinted(s[1..], Escape);
      } else if s[0] == CR {
        CleanIsPrinted(if |s| > 1 && s[1] == LF then s[2..] else s[1..], Ground);
      } else {
        CleanIsPrinted(s[1..], Ground);
      }
    }
  }
}
