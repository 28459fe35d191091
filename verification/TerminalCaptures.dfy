/** Captures of terminal output: taken from the ring's window, retained, and
    resolved later only if the observed bytes are still there. */
module TerminalCaptures {
  import opened Wrappers
  import opened Bytes
  import opened TerminalRing
  import opened Sanitizer
  import opened TerminalContext
  import opened WorkspacePaths
  import D = Digests
  import T = Text
  import Utf8

  const MAX_TERMINAL_SELECTION_INPUT_BYTES := 64 * 1024
  const MAX_TERMINAL_CONTEXT_CAPTURES := 2048

  type Id = string

  datatype Error = NotFound | ContextStale | ContextSelectionUnavailable | ContextOverLimit | ContextBinary | Io

  /** A live terminal: its output ring and whether its process runs. */
  datatype Session = Session(ring: Ring, running: bool)

  datatype Capture = Capture(
    terminal: Id, conversation: Id, kind: CaptureKind, bounded: Bounded, revision: Bytes,
    observedStart: nat, observedEnd: nat)

  function KindName(kind: CaptureKind): Bytes {
    match kind case Selection => Ascii("selection") case Recent => Ascii("recent")
  }

  /** What the revision of a capture is a digest of. */
  function CaptureRevision(terminal: Id, kind: CaptureKind, cursor: nat, content: Bytes): Bytes {
    Ascii("kubecode-terminal-context-v1") + [NUL]
    + (D.Part(T.Encode(terminal)) + (KindName(kind) + (D.BigEndian(cursor, 8) + D.Part(content))))
  }

  function RevisionOf(c: Capture): Bytes {
    CaptureRevision(c.terminal, c.kind, c.observedEnd, c.bounded.content)
  }

  function TrimFeeds(s: Bytes): Bytes {
    if s != [] && s[0] == LF then TrimFeeds(s[1..])
    else if s != [] && s[|s| - 1] == LF then TrimFeeds(s[..|s| - 1])
    else s
  }

  method FindPart(text: Bytes, part: Bytes) returns (found: bool)
    ensures found <==> Contains(text, part)
  {
    var i := 0;
    while i + |part| <= |text|
      invariant forall k | 0 <= k < i :: !OccursAt(text, part, k)
    {
      if OccursAt(text, part, i) {
        return true;
      }
      i := i + 1;
    }
    return false;
  }

  /** What a capture of `window` keeps. */
  ghost function Taken(window: Bytes, kind: CaptureKind, selected: Option<Bytes>): Result<Bounded, Error> {
    var buffer := Sanitized(window);
    if buffer.None? then Err(ContextBinary)
    else if kind == Selection then
      if selected.None? || selected.value == [] then Err(ContextSelectionUnavailable)
      else if |selected.value| > MAX_TERMINAL_SELECTION_INPUT_BYTES then Err(ContextOverLimit)
      else
        var text := Sanitized(selected.value);
        if text.None? then Err(ContextBinary)
        else
          var bounded := BoundedContext(TrimFeeds(text.value), Selection);
          if bounded.None? then Err(ContextOverLimit)
          else if bounded.value.content == [] || !Contains(buffer.value, bounded.value.content)
          then Err(ContextSelectionUnavailable)
          else Ok(bounded.value)
    else if selected.Some? then Err(ContextSelectionUnavailable)
    else
      var bounded := BoundedRecent(buffer.value);
      if bounded.content == [] then Err(ContextSelectionUnavailable) else Ok(bounded)
  }

  ghost function CaptureFrom(terminal: Id, conversation: Id, session: Session,
                             kind: CaptureKind, selected: Option<Bytes>): Result<Capture, Error>
  {
    if !session.running then Err(ContextStale)
    else
      match Taken(session.ring.bytes, kind, selected)
      case Err(error) => Err(error)
      case Ok(bounded) =>
        Ok(Capture(terminal, conversation, kind, bounded,
                   CaptureRevision(terminal, kind, session.ring.end, bounded.content),
                   session.ring.start, session.ring.end))
  }

  ghost function Resolved(sessions: map<Id, Session>, captures: map<Id, Capture>,
                          id: Id, conversation: Id): Result<Capture, Error>
  {
    if id !in captures || captures[id].conversation != conversation then Err(ContextStale)
    else
      var capture := captures[id];
      if capture.terminal !in sessions || !sessions[capture.terminal].running then Err(ContextStale)
      else
        var ring := sessions[capture.terminal].ring;
        if ring.start > capture.observedStart || ring.end < capture.observedEnd then Err(ContextStale)
        else if capture.kind == Recent then Ok(capture)
        else if Sanitized(ring.bytes).None? then Err(ContextBinary)
        else if Contains(Sanitized(ring.bytes).value, capture.bounded.content) then Ok(capture)
        else Err(ContextStale)
  }

  class TerminalManager {
    var sessions: map<Id, Session>
    var captures: map<Id, Capture>

    constructor ()
      ensures sessions == map[] && captures == map[]
    {
      sessions, captures := map[], map[];
    }

    method CaptureContext(terminal: Id, conversation: Id, kind: CaptureKind, selected: Option<Bytes>)
      returns (r: Result<Capture, Error>)
      ensures terminal !in sessions ==> r == Err(NotFound)
      ensures terminal in sessions ==>
                r == CaptureFrom(terminal, conversation, sessions[terminal], kind, selected)
    {
      if terminal !in sessions {
        return Err(NotFound);
      }
      var session := sessions[terminal];
      if !session.running {
        return Err(ContextStale);
      }
      var buffer := SanitizeTerminalContext(session.ring.bytes);
      if buffer.None? {
        return Err(ContextBinary);
      }
      var bounded: Option<Bounded>;
      if kind == Selection {
        if selected.None? || selected.value == [] {
          return Err(ContextSelectionUnavailable);
        }
        if |selected.value| > MAX_TERMINAL_SELECTION_INPUT_BYTES {
          return Err(ContextOverLimit);
        }
        var text := SanitizeTerminalContext(selected.value);
        if text.None? {
          return Err(ContextBinary);
        }
        bounded := BoundTerminalContext(TrimFeeds(text.value), Selection);
        if bounded.None? {
          return Err(ContextOverLimit);
        }
        var found := FindPart(buffer.value, bounded.value.content);
        if bounded.value.content == [] || !found {
          return Err(ContextSelectionUnavailable);
        }
      } else {
        if selected.Some? {
          return Err(ContextSelectionUnavailable);
        }
        bounded := BoundTerminalContext(buffer.value, Recent);
      }
      if bounded.value.content == [] {
        return Err(ContextSelectionUnavailable);
      }
      var revision := CaptureRevision(terminal, kind, session.ring.end, bounded.value.content);
      r := Ok(Capture(terminal, conversation, kind, bounded.value, revision, session.ring.start, session.ring.end));
    }

    /** Keep a capture under a new id; false if the id is taken. */
    method RetainContextCapture(id: Id, capture: Capture) returns (r: Result<bool, Error>)
      modifies `captures
      ensures id in old(captures) ==> r == Ok(false) && captures == old(captures)
      ensures id !in old(captures) && |old(captures)| >= 2048 ==>
                r == Err(ContextOverLimit) && captures == old(captures)
      ensures id !in old(captures) && |old(captures)| < 2048 ==>
                r == Ok(true) && captures == old(captures)[id := capture]
    {
      if id in captures {
        return Ok(false);
      }
      if |captures| >= MAX_TERMINAL_CONTEXT_CAPTURES {
        return Err(ContextOverLimit);
      }
      captures := captures[id := capture];
      return Ok(true);
    }

    method DiscardContextCapture(id: Id)
      modifies `captures
      ensures captures == old(captures) - {id}
    {
      captures := captures - {id};
    }

    method ResolveContextCapture(id: Id, conversation: Id) returns (r: Result<Capture, Error>)
      ensures r == Resolved(sessions, captures, id, conversation)
    {
      if id !in captures || captures[id].conversation != conversation {
        return Err(ContextStale);
      }
      var capture := captures[id];
      if capture.terminal !in sessions || !sessions[capture.terminal].running {
        return Err(ContextStale);
      }
      var ring := sessions[capture.terminal].ring;
      if ring.start > capture.observedStart || ring.end < capture.observedEnd {
        return Err(ContextStale);
      }
      if capture.kind == Selection {
        var text := SanitizeTerminalContext(ring.bytes);
        if text.None? {
          return Err(ContextBinary);
        }
        var found := FindPart(text.value, capture.bounded.content);
        if !found {
          return Err(ContextStale);
        }
      }
      return Ok(capture);
    }

    /** Closing a terminal drops its captures with it; a failed kill keeps them. */
    method Close(id: Id, killed: bool) returns (r: Result<(), Error>)
      modifies this
      ensures id !in old(sessions) ==> r == Err(NotFound) && sessions == old(sessions) && captures == old(captures)
      ensures id in old(sessions) ==> sessions == old(sessions) - {id}
      ensures id in old(sessions) ==>
                r == if old(sessions)[id].running && !killed then Err(Io) else Ok(())
      ensures id in old(sessions) && (old(sessions)[id].running ==> killed) ==>
                captures == map c | c in old(captures) && old(captures)[c].terminal != id :: old(captures)[c]
      ensures id in old(sessions) && old(sessions)[id].running && !killed ==> captures == old(captures)
    {
      if id !in sessions {
        return Err(NotFound);
      }
      var session := sessions[id];
      sessions := sessions - {id};
      if session.running && !killed {
        return Err(Io);
      }
      captures := map c | c in captures && captures[c].terminal != id :: captures[c];
      return Ok(());
    }
  }

  // ----- Runs: output arrives, captures are taken, kept and resolved, in any order

  /** The manager with each terminal's whole output, the captures taken but not
      yet retained, and the terminal ids ever used (they are fresh UUIDs). */
  datatype World = World(
    sessions: map<Id, Session>, streams: map<Id, Bytes>,
    captures: map<Id, Capture>, drafts: set<Capture>, used: set<Id>)

  const START := World(map[], map[], map[], {}, {})

  datatype Action =
    | Open(id: Id, capacity: nat)
    | Output(id: Id, data: Bytes)
    | Exit(id: Id)
    | Take(id: Id, conversation: Id, kind: CaptureKind, selected: Option<Bytes>)
    | Retain(captureId: Id, capture: Capture)
    | Discard(captureId: Id)
    | Shut(id: Id, killed: bool)

  predicate Enabled(w: World, a: Action) {
    match a
    case Open(id, _) => id !in w.used
    case Output(id, _) => id in w.sessions && id in w.streams
    case Exit(id) => id in w.sessions
    case Take(id, _, _, _) => id in w.sessions
    case Retain(id, capture) => capture in w.drafts && id !in w.captures
                             && |w.captures| < MAX_TERMINAL_CONTEXT_CAPTURES
    case Discard(_) => true
    case Shut(id, _) => id in w.sessions
  }

  ghost function Next(w: World, a: Action): World
    requires Enabled(w, a)
  {
    match a
    case Open(id, capacity) =>
      w.(sessions := w.sessions[id := Session(EmptyRing(capacity), true)],
         streams := w.streams[id := []], used := w.used + {id})
    case Output(id, data) =>
      var s := w.sessions[id];
      w.(sessions := w.sessions[id := s.(ring := Pushed(s.ring, data))],
         streams := w.streams[id := w.streams[id] + data])
    case Exit(id) => w.(sessions := w.sessions[id := w.sessions[id].(running := false)])
    case Take(id, conversation, kind, selected) =>
      (match CaptureFrom(id, conversation, w.sessions[id], kind, selected)
       case Ok(capture) => w.(drafts := w.drafts + {capture})
       case Err(_) => w)
    case Retain(id, capture) => w.(captures := w.captures[id := capture])
    case Discard(id) => w.(captures := w.captures - {id})
    case Shut(id, killed) =>
      w.(sessions := w.sessions - {id},
         captures := if w.sessions[id].running && !killed then w.captures
                     else map c | c in w.captures && w.captures[c].terminal != id :: w.captures[c])
  }

  ghost predicate Runnable(w: World, actions: seq<Action>)
    decreases |actions|
  {
    actions == [] || (Enabled(w, actions[0]) && Runnable(Next(w, actions[0]), actions[1..]))
  }

  ghost function Run(w: World, actions: seq<Action>): World
    requires Runnable(w, actions)
    decreases |actions|
  {
    if actions == [] then w else Run(Next(w, actions[0]), actions[1..])
  }

  /** The capture's content is text of the window it observed, which was the
      terminal's window when the output had reached `observedEnd`; its revision is
      its own. */
  ghost predicate Observed(c: Capture, capacity: nat, stream: Bytes) {
    && c.observedEnd <= |stream| && c.revision == RevisionOf(c)
    && c.observedStart == (if c.observedEnd > capacity then c.observedEnd - capacity else 0)
    && var text := Sanitized(stream[c.observedStart..c.observedEnd]);
       text.Some? && Contains(text.value, c.bounded.content)
  }

  ghost predicate Sound(w: World, c: Capture) {
    && c.terminal in w.used
    && (c.terminal in w.sessions && c.terminal in w.streams ==>
          Observed(c, w.sessions[c.terminal].ring.capacity, w.streams[c.terminal]))
  }

  ghost predicate Inv(w: World) {
    && w.sessions.Keys <= w.used && w.sessions.Keys <= w.streams.Keys
    && (forall id | id in w.sessions :: Holds(w.sessions[id].ring, w.streams[id]))
    && (forall c | c in w.drafts :: Sound(w, c))
    && (forall id | id in w.captures :: Sound(w, w.captures[id]))
  }

  lemma LongerStreamObserves(c: Capture, capacity: nat, stream: Bytes, data: Bytes)
    requires Observed(c, capacity, stream)
    ensures Observed(c, capacity, stream + data)
  {
    assert (stream + data)[c.observedStart..c.observedEnd] == stream[c.observedStart..c.observedEnd];
  }

  lemma ContentIsInWindow(window: Bytes, kind: CaptureKind, selected: Option<Bytes>)
    requires Taken(window, kind, selected).Ok?
    ensures Sanitized(window).Some?
         && Contains(Sanitized(window).value, Taken(window, kind, selected).value.content)
  {
    if kind == Recent {
      var text := Sanitized(window).value;
      var content := Taken(window, kind, selected).value.content;
      var k := RecentIsLongestTail(text);
      assert OccursAt(text, content, k);
    }
  }

  lemma TakenIsObserved(terminal: Id, conversation: Id, session: Session, kind: CaptureKind,
                        selected: Option<Bytes>, stream: Bytes)
    requires Holds(session.ring, stream)
    requires CaptureFrom(terminal, conversation, session, kind, selected).Ok?
    ensures Observed(CaptureFrom(terminal, conversation, session, kind, selected).value,
                     session.ring.capacity, stream)
  {
    ContentIsInWindow(session.ring.bytes, kind, selected);
    assert session.ring.bytes == stream[session.ring.start..|stream|];
    hide Taken, Sanitized, Contains;
  }

  lemma StepSound(w: World, a: Action, c: Capture)
    requires Inv(w) && Enabled(w, a) && Sound(w, c)
    ensures Sound(Next(w, a), c)
  {
    hide CaptureFrom, Contains;
    if a.Output? && a.id == c.terminal {
      LongerStreamObserves(c, w.sessions[a.id].ring.capacity, w.streams[a.id], a.data);
    }
    hide Observed, Holds;
  }

  lemma StepHolds(w: World, a: Action)
    requires Inv(w) && Enabled(w, a)
    ensures var n := Next(w, a);
            && n.sessions.Keys <= n.used && n.sessions.Keys <= n.streams.Keys
            && forall id | id in n.sessions :: Holds(n.sessions[id].ring, n.streams[id])
  {
    if a.Output? {
      PushHolds(w.sessions[a.id].ring, w.streams[a.id], a.data);
    }
    NewRingHolds(if a.Open? then a.capacity else 0);
    hide Sound, CaptureFrom, Holds, Pushed, EmptyRing;
  }

  lemma StepInv(w: World, a: Action)
    requires Inv(w) && Enabled(w, a)
    ensures Inv(Next(w, a))
  {
    var n := Next(w, a);
    StepHolds(w, a);
    forall c | Sound(w, c)
      ensures Sound(n, c)
    {
      StepSound(w, a, c);
    }
    if a.Take? && CaptureFrom(a.id, a.conversation, w.sessions[a.id], a.kind, a.selected).Ok? {
      TakenIsSound(w, a);
    }
    hide Sound, CaptureFrom, Holds, Pushed, EmptyRing;
  }

  lemma TakenIsSound(w: World, a: Action)
    requires Inv(w) && Enabled(w, a) && a.Take?
    requires CaptureFrom(a.id, a.conversation, w.sessions[a.id], a.kind, a.selected).Ok?
    ensures Sound(Next(w, a), CaptureFrom(a.id, a.conversation, w.sessions[a.id], a.kind, a.selected).value)
  {
    TakenIsObserved(a.id, a.conversation, w.sessions[a.id], a.kind, a.selected, w.streams[a.id]);
    TakenIsOf(a.id, a.conversation, w.sessions[a.id], a.kind, a.selected);
    hide Observed, CaptureFrom, Holds;
  }

  lemma NewRingHolds(capacity: nat)
    ensures Holds(EmptyRing(capacity), [])
  {
  }

  lemma TakenIsOf(terminal: Id, conversation: Id, session: Session, kind: CaptureKind, selected: Option<Bytes>)
    requires CaptureFrom(terminal, conversation, session, kind, selected).Ok?
    ensures CaptureFrom(terminal, conversation, session, kind, selected).value.terminal == terminal
  {
    hide Taken, CaptureRevision;
  }

  lemma {:induction false} RunInv(w: World, actions: seq<Action>)
    requires Inv(w) && Runnable(w, actions)
    ensures Inv(Run(w, actions))
    decreases |actions|
  {
    if actions != [] {
      StepInv(w, actions[0]);
      RunInv(Next(w, actions[0]), actions[1..]);
    }
  }

  /** Once the cursor check passes, the observed bytes are still in the ring,
      verbatim, at its front. */
  lemma ObservedBytesAreStillThere(ring: Ring, stream: Bytes, c: Capture)
    requires Holds(ring, stream) && Observed(c, ring.capacity, stream)
    requires ring.start <= c.observedStart
    ensures ring.start == c.observedStart && ring.end >= c.observedEnd
    ensures stream[c.observedStart..c.observedEnd] <= ring.bytes
  {
    hide Sanitized, Contains, CaptureRevision;
    CutParts(stream, c.observedStart, c.observedEnd);
  }

  /** The text of a window that kept the observed bytes still contains the content. */
  lemma ContentStays(window: Bytes, ring: Bytes, content: Bytes)
    requires window <= ring && Sanitized(window).Some? && Sanitized(ring).Some?
    requires Contains(Sanitized(window).value, content)
    ensures Contains(Sanitized(ring).value, content)
  {
    var before, after := Sanitized(window).value, Sanitized(ring).value;
    assert ring == window + ring[|window|..];
    SanitizedIsSequential(window, ring[|window|..]);
    var i :| 0 <= i <= |before| - |content| && OccursAt(before, content, i);
    assert after[i..i + |content|] == before[i..i + |content|];
    assert OccursAt(after, content, i);
  }

  /** In every reachable world a capture resolves exactly when it is retained for
      the conversation, its terminal still runs, none of the bytes it observed
      has left the ring and, for a selection, the ring's output is text now. The
      substring check never fails by itself. */
  lemma ResolvesExactly(actions: seq<Action>, id: Id, conversation: Id)
    requires Runnable(START, actions)
    requires id in Run(START, actions).captures
    ensures var w := Run(START, actions);
            var c := w.captures[id];
            Resolved(w.sessions, w.captures, id, conversation)
            == if c.conversation != conversation || c.terminal !in w.sessions
                  || !w.sessions[c.terminal].running
                  || w.sessions[c.terminal].ring.start != c.observedStart then Err(ContextStale)
               else if c.kind == Selection && Sanitized(w.sessions[c.terminal].ring.bytes).None?
               then Err(ContextBinary)
               else Ok(c)
    ensures var w := Run(START, actions);
            var c := w.captures[id];
            Resolved(w.sessions, w.captures, id, conversation).Ok? ==>
              c.terminal in w.streams
              && c.observedStart <= c.observedEnd <= |w.streams[c.terminal]|
              && w.streams[c.terminal][c.observedStart..c.observedEnd] <= w.sessions[c.terminal].ring.bytes
  {
    RunInv(START, actions);
    var w := Run(START, actions);
    var c := w.captures[id];
    assert Sound(w, c);
    if c.terminal in w.sessions {
      var ring, stream := w.sessions[c.terminal].ring, w.streams[c.terminal];
      if ring.start <= c.observedStart {
        ObservedBytesAreStillThere(ring, stream, c);
        if Sanitized(ring.bytes).Some? {
          ContentStays(stream[c.observedStart..c.observedEnd], ring.bytes, c.bounded.content);
        }
      } else {
        assert ring.start != c.observedStart;
      }
    }
    hide Sanitized, Contains, Runnable, Run;
  }

  // ----- What a revision tells

  lemma KindNamesDiffer(rest: Bytes, other: Bytes)
    ensures KindName(Selection) + rest != KindName(Recent) + other
  {
    assert (KindName(Selection) + rest)[0] == 115 && (KindName(Recent) + other)[0] == 114;
  }

  lemma CursorAndContent(m: nat, a: Bytes, n: nat, b: Bytes)
    requires m < D.Pow256(8) && n < D.Pow256(8) && D.Fits(a) && D.Fits(b)
    requires D.BigEndian(m, 8) + D.Part(a) == D.BigEndian(n, 8) + D.Part(b)
    ensures m == n && a == b
  {
    var whole := D.BigEndian(m, 8) + D.Part(a);
    hide D.Part, D.BigEndian;
    assert whole[..8] == D.BigEndian(m, 8) && whole[..8] == D.BigEndian(n, 8);
    assert whole[8..] == D.Part(a) && whole[8..] == D.Part(b);
    D.BigEndianInjective(m, n, 8);
    var none: Bytes := [];
    assert D.Part(a) + none == D.Part(a) && D.Part(b) + none == D.Part(b);
    D.PartInjective(a, b, none, none);
  }

  /** The revision of a capture determines its terminal, its kind, how far the
      output had come and what was kept of it. */
  lemma RevisionDetermines(a: Capture, b: Capture)
    requires D.Fits(T.Encode(a.terminal)) && D.Fits(T.Encode(b.terminal))
    requires a.observedEnd < D.Pow256(8) && b.observedEnd < D.Pow256(8)
    requires D.Fits(a.bounded.content) && D.Fits(b.bounded.content)
    ensures RevisionOf(a) == RevisionOf(b) ==>
              a.terminal == b.terminal && a.kind == b.kind && a.observedEnd == b.observedEnd
              && a.bounded.content == b.bounded.content
  {
    var tag := Ascii("kubecode-terminal-context-v1") + [NUL];
    var endA := D.BigEndian(a.observedEnd, 8) + D.Part(a.bounded.content);
    var endB := D.BigEndian(b.observedEnd, 8) + D.Part(b.bounded.content);
    var restA, restB := KindName(a.kind) + endA, KindName(b.kind) + endB;
    var whole, other := RevisionOf(a), RevisionOf(b);
    hide D.Part, D.BigEndian, D.Fits, D.Pow256, T.Encode, Ascii, KindName;
    if whole == other {
      assert whole[|tag|..] == D.Part(T.Encode(a.terminal)) + restA;
      assert other[|tag|..] == D.Part(T.Encode(b.terminal)) + restB;
      D.PartInjective(T.Encode(a.terminal), T.Encode(b.terminal), restA, restB);
      T.EncodeInjective(a.terminal, b.terminal);
      KindNamesDiffer(endA, endB);
      KindNamesDiffer(endB, endA);
      assert restA[|KindName(a.kind)|..] == endA && restB[|KindName(b.kind)|..] == endB;
      CursorAndContent(a.observedEnd, a.bounded.content, b.observedEnd, b.bounded.content);
    }
  }

  // ----- A selection can hide for a while

  /** The window `[97]`, and a capture of all of it. */
  function PlainRing(capacity: nat): Ring {
    Pushed(EmptyRing(capacity), [97])
  }

  function PlainCapture(): Capture {
    Capture("t", "c", Selection, Bounded([97], 1, 1, false), CaptureRevision("t", Selection, 1, [97]), 0, 1)
  }

  ghost function ResolvedAt(ring: Ring): Result<Capture, Error> {
    Resolved(map["t" := Session(ring, true)], map["x" := PlainCapture()], "x", "c")
  }

  lemma PlainRings(capacity: nat)
    requires capacity >= 3
    ensures var ring := PlainRing(capacity);
            && ring == Ring([97], 0, 1, capacity)
            && Pushed(ring, [0xC3]) == Ring([97, 0xC3], 0, 2, capacity)
            && Pushed(Pushed(ring, [0xC3]), [0xA9]) == Ring([97, 0xC3, 0xA9], 0, 3, capacity)
  {
  }

  lemma PlainIsCaptured(capacity: nat)
    requires capacity >= 3
    ensures CaptureFrom("t", "c", Session(PlainRing(capacity), true), Selection, Some([97])) == Ok(PlainCapture())
  {
    PlainRings(capacity);
    SanitizedSplitCharacter();
    hide Sanitized, PlainRing, CaptureRevision;
    var plain: Bytes := [97];
    assert OccursAt(plain, plain, 0);
    assert Split(plain, LF) == [plain] && TrimFeeds(plain) == plain;
  }

  /** Output that stops inside a character makes a selection unresolvable for the
      moment, though nothing it observed has changed; the rest of the character
      makes it resolvable again. */
  lemma SplitCharacterHidesASelection(capacity: nat)
    requires capacity >= 3
    ensures var ring := PlainRing(capacity);
            CaptureFrom("t", "c", Session(ring, true), Selection, Some([97])) == Ok(PlainCapture())
            && ResolvedAt(ring) == Ok(PlainCapture())
            && ResolvedAt(Pushed(ring, [0xC3])) == Err(ContextBinary)
            && ResolvedAt(Pushed(Pushed(ring, [0xC3]), [0xA9])) == Ok(PlainCapture())
  {
    PlainIsCaptured(capacity);
    PlainRings(capacity);
    SanitizedSplitCharacter();
    var plain: Bytes, whole: Bytes := [97], [97, 0xC3, 0xA9];
    assert OccursAt(plain, plain, 0) && OccursAt(whole, plain, 0);
    hide Sanitized, Pushed, PlainRing, CaptureRevision, OccursAt, CaptureFrom;
  }

  lemma SanitizedSplitCharacter()
    ensures Sanitized([97]) == Some([97])
    ensures Sanitized([97, 0xC3]) == None
    ensures Sanitized([97, 0xC3, 0xA9]) == Some([97, 0xC3, 0xA9])
  {
    var plain: Bytes, cut: Bytes, whole: Bytes := [97], [97, 0xC3], [97, 0xC3, 0xA9];
    assert whole[1..] == [0xC3, 0xA9] && whole[1..][1..] == [0xA9] && whole[1..][1..][1..] == [];
    assert cut[1..] == [0xC3] && cut[1..][1..] == [];
    assert Clean(whole, Ground) == whole && Clean(cut, Ground) == cut && Clean(plain, Ground) == plain;
    assert whole[1..][2..] == [];
    assert Utf8.Valid(whole[1..]) && Utf8.Valid(whole) && !Utf8.Valid(cut[1..]) && !Utf8.Valid(cut);
  }
}
