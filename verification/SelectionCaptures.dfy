/** What a capture of terminal output keeps, in terms of the sanitized text. */
module SelectionCaptures {
  import opened Wrappers
  import opened Bytes
  import opened Sanitizer
  import opened TerminalContext
  import opened TerminalCaptures
  import Utf8

  ghost predicate OnlyFeeds(s: Bytes) {
    forall i | 0 <= i < |s| :: s[i] == 10
  }

  ghost predicate NoOuterFeeds(s: Bytes) {
    s != [] ==> s[0] != 10 && s[|s| - 1] != 10
  }

  /** `content` is `text` without its outer line feeds. */
  ghost predicate Trimmed(text: Bytes, content: Bytes) {
    NoOuterFeeds(content) && exists before, after ::
      text == before + content + after && OnlyFeeds(before) && OnlyFeeds(after)
  }

  lemma FeedFirst(text: Bytes, before: Bytes, kept: Bytes, after: Bytes) returns (longer: Bytes)
    requires text != [] && text[0] == 10 && text[1..] == before + kept + after && OnlyFeeds(before)
    ensures text == longer + kept + after && OnlyFeeds(longer)
  {
    longer := [text[0]] + before;
    WithoutFirst(text);
    Associative([text[0]], before, kept);
    Associative([text[0]], before + kept, after);
  }

  lemma FeedLast(text: Bytes, before: Bytes, kept: Bytes, after: Bytes) returns (longer: Bytes)
    requires text != [] && text[|text| - 1] == 10 && text[..|text| - 1] == before + kept + after && OnlyFeeds(after)
    ensures text == before + kept + longer && OnlyFeeds(longer)
  {
    longer := after + [text[|text| - 1]];
    SliceLast(text, |text|);
    assert text[..|text|] == text;
    Associative(before + kept, after, [text[|text| - 1]]);
  }

  lemma {:induction false} TrimFeedsIs(text: Bytes) returns (before: Bytes, after: Bytes)
    ensures text == before + TrimFeeds(text) + after
    ensures OnlyFeeds(before) && OnlyFeeds(after) && NoOuterFeeds(TrimFeeds(text))
  {
    before, after := [], [];
    if text != [] && text[0] == LF {
      before, after := TrimFeedsIs(text[1..]);
      hide OnlyFeeds, NoOuterFeeds;
      before := FeedFirst(text, before, TrimFeeds(text), after);
    } else if text != [] && text[|text| - 1] == LF {
      before, after := TrimFeedsIs(text[..|text| - 1]);
      hide OnlyFeeds, NoOuterFeeds;
      after := FeedLast(text, before, TrimFeeds(text), after);
    } else {
      assert [] + text + [] == text;
    }
  }

  lemma TrimmedOnce(text: Bytes, a: Bytes, b: Bytes)
    requires Trimmed(text, a) && Trimmed(text, b)
    ensures a == b
  {
    var x, y :| text == x + a + y && OnlyFeeds(x) && OnlyFeeds(y);
    var v, w :| text == v + b + w && OnlyFeeds(v) && OnlyFeeds(w);
    EndsAgree(text, x, a, y, v, b, w);
  }

  lemma EndsAgree(text: Bytes, x: Bytes, a: Bytes, y: Bytes, v: Bytes, b: Bytes, w: Bytes)
    requires text == x + a + y && OnlyFeeds(x) && OnlyFeeds(y) && NoOuterFeeds(a)
    requires text == v + b + w && OnlyFeeds(v) && OnlyFeeds(w) && NoOuterFeeds(b)
    ensures a == b
  {
    FirstKept(text, x, a, y);
    FirstKept(text, v, b, w);
    assert a == text[|x|..|x| + |a|] && b == text[|v|..|v| + |b|];
  }

  /** Outside of what is kept there are only line feeds. */
  lemma FirstKept(text: Bytes, x: Bytes, a: Bytes, y: Bytes)
    requires text == x + a + y && OnlyFeeds(x) && OnlyFeeds(y) && NoOuterFeeds(a)
    ensures a == [] <==> OnlyFeeds(text)
    ensures a != [] ==> text[|x|] != 10 && text[|x| + |a| - 1] != 10
    ensures forall i | 0 <= i < |x| || |x| + |a| <= i < |text| :: text[i] == 10
  {
    assert forall i | 0 <= i < |x| :: text[i] == x[i];
    assert forall i | |x| + |a| <= i < |text| :: text[i] == y[i - |x| - |a|];
    assert a != [] ==> text[|x|] == a[0] && text[|x| + |a| - 1] == a[|a| - 1];
  }

  lemma TrimFeedsIff(text: Bytes, content: Bytes)
    ensures TrimFeeds(text) == content <==> Trimmed(text, content)
  {
    var before, after := TrimFeedsIs(text);
    assert Trimmed(text, TrimFeeds(text));
    hide TrimFeeds, Trimmed;
    if Trimmed(text, content) {
      TrimmedOnce(text, content, TrimFeeds(text));
    }
  }

  /** One more than there are line feeds, unless the text is empty. */
  ghost function Lines(text: Bytes): nat {
    if text == [] then 0 else 1 + multiset(text)[10]
  }

  lemma {:induction false} FeedsAreCounted(s: Bytes)
    ensures Feeds(s) == multiset(s)[10]
  {
    if s != [] {
      FeedsAreCounted(s[1..]);
      WithoutFirst(s);
    }
  }

  lemma LinesAre(text: Bytes)
    ensures LineCount(text) == Lines(text)
  {
    PiecesAreFeeds(text);
    FeedsAreCounted(text);
    hide Split, Feeds;
  }

  /** A selection is kept exactly if it is neither empty nor too long, and what is
      left of its text without the outer line feeds is not empty, fits, and stands
      in the text of the window; that is what is kept. */
  lemma SelectionTaken(window: Bytes, selected: Option<Bytes>, bounded: Bounded)
    ensures Taken(window, Selection, selected) == Ok(bounded) <==>
            && selected.Some? && selected.value != [] && |selected.value| <= 65536
            && Sanitized(window).Some? && Sanitized(selected.value).Some?
            && Trimmed(Sanitized(selected.value).value, bounded.content) && bounded.content != []
            && Within(Sanitized(window).value, bounded.content)
            && |bounded.content| <= 16384 && Lines(bounded.content) <= 120
            && bounded == Bounded(bounded.content, Lines(bounded.content), |bounded.content|, false)
  {
    LinesAre(bounded.content);
    if selected.Some? && Sanitized(selected.value).Some? {
      var text := Sanitized(selected.value).value;
      TrimFeedsIff(text, bounded.content);
      LinesAre(TrimFeeds(text));
    }
    if Sanitized(window).Some? {
      OccursIffWithin(Sanitized(window).value, bounded.content);
    }
    hide Sanitized, Trimmed, TrimFeeds, Contains, Within, LineCount, Lines;
  }

  ghost predicate FitsContext(tail: Bytes) {
    |tail| <= 16384 && Lines(tail) <= 120
  }

  /** Without a selection the longest tail of whole characters that fits is kept,
      unless that is nothing; it says whether it is everything. */
  lemma RecentTaken(window: Bytes, bounded: Bounded, selected: Bytes)
    ensures Taken(window, Recent, Some(selected)).Err?
    ensures Taken(window, Recent, None) == Ok(bounded) <==>
            && Sanitized(window).Some? && bounded.content != []
            && exists k :: IsLongestTail(Sanitized(window).value, k, bounded)
  {
    var text := Sanitized(window);
    assert text.Some? ==> Utf8.Valid(text.value);
    hide Sanitized, BoundedRecent, IsLongestTail, Utf8.Valid;
    if text.Some? {
      var k := RecentIs(text.value);
      if j :| IsLongestTail(text.value, j, bounded) {
        OneLongestTail(text.value, k, BoundedRecent(text.value), j, bounded);
      }
    }
  }

  lemma OneLongestTail(text: Bytes, j: nat, a: Bounded, k: nat, b: Bounded)
    requires IsLongestTail(text, j, a) && IsLongestTail(text, k, b)
    ensures a == b
  {
    hide FitsContext, Lines, Utf8.Boundary;
  }

  ghost predicate IsLongestTail(text: Bytes, k: nat, bounded: Bounded) {
    && k <= |text| && Utf8.Boundary(text, k) && FitsContext(text[k..])
    && (forall j | 0 <= j < k && Utf8.Boundary(text, j) :: !FitsContext(text[j..]))
    && bounded == Bounded(text[k..], Lines(text[k..]), |text| - k, k > 0)
  }

  lemma {:induction false} RecentIs(text: Bytes) returns (k: nat)
    requires Utf8.Valid(text)
    ensures IsLongestTail(text, k, BoundedRecent(text))
  {
    k := RecentIsLongestTail(text);
    forall j | 0 <= j <= |text|
      ensures FitsContext(text[j..]) <==> Fits(text[j..])
    {
      LinesAre(text[j..]);
    }
    LinesAre(text[k..]);
    hide LineCount, Lines, FitsContext, Fits, Utf8.Valid, Utf8.Boundary, LastLines, CharStart;
  }

  /** Why nothing is captured: the terminal no longer runs, its output is not text,
      or, in this order, there is no selection, it is too long, it is not text, what
      is left of it does not fit, or it is nothing that stands in the output. */
  ghost predicate Refused(session: Session, kind: CaptureKind, selected: Option<Bytes>, error: Error) {
    if !session.running then error == ContextStale
    else if Sanitized(session.ring.bytes) == None then error == ContextBinary
    else if kind == Recent then
      error == ContextSelectionUnavailable
      && (selected.Some? || exists k, bounded ::
            IsLongestTail(Sanitized(session.ring.bytes).value, k, bounded) && bounded.content == [])
    else if selected.None? || selected.value == [] then error == ContextSelectionUnavailable
    else if |selected.value| > 65536 then error == ContextOverLimit
    else if Sanitized(selected.value) == None then error == ContextBinary
    else exists content :: Trimmed(Sanitized(selected.value).value, content) && Unfit(session, content, error)
  }

  ghost predicate Unfit(session: Session, content: Bytes, error: Error)
    requires Sanitized(session.ring.bytes).Some?
  {
    if |content| > 16384 || Lines(content) > 120 then error == ContextOverLimit
    else
      && error == ContextSelectionUnavailable
      && (content == [] || !Within(Sanitized(session.ring.bytes).value, content))
  }

  lemma WhyNotCaptured(terminal: Id, conversation: Id, session: Session, kind: CaptureKind, selected: Option<Bytes>)
    requires CaptureFrom(terminal, conversation, session, kind, selected).Err?
    ensures Refused(session, kind, selected, CaptureFrom(terminal, conversation, session, kind, selected).error)
  {
    var window := session.ring.bytes;
    if session.running && Sanitized(window).Some? {
      var text := Sanitized(window).value;
      if kind == Recent {
        var k := RecentIs(text);
      } else if selected.Some? && Sanitized(selected.value).Some? {
        var content := TrimFeeds(Sanitized(selected.value).value);
        TrimFeedsIff(Sanitized(selected.value).value, content);
        OccursIffWithin(text, content);
        LinesAre(content);
      }
    }
    hide Sanitized, Trimmed, TrimFeeds, Contains, Within, LineCount, Lines, BoundedRecent, IsLongestTail;
  }

  /** A capture is of a running terminal, with what was taken of its window and
      where that lies in the output. */
  lemma CapturedIs(terminal: Id, conversation: Id, session: Session, kind: CaptureKind, selected: Option<Bytes>)
    requires CaptureFrom(terminal, conversation, session, kind, selected).Ok?
    ensures var c := CaptureFrom(terminal, conversation, session, kind, selected).value;
            && session.running && Taken(session.ring.bytes, kind, selected) == Ok(c.bounded)
            && c.terminal == terminal && c.conversation == conversation && c.kind == kind
            && c.observedStart == session.ring.start && c.observedEnd == session.ring.end
            && c.revision == CaptureRevision(terminal, kind, session.ring.end, c.bounded.content)
  {
    hide Taken, CaptureRevision;
  }
}
