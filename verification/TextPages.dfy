/** Reading text files page by page, and the tail of a terminal transcript. A
    file is its bytes; nothing changes it between two reads. */
module TextPages {
  import opened Wrappers
  import opened Bytes
  import opened Utf8

  const MAX_ASSET_BYTES := 8 * 1024 * 1024

  /** Without the revision, which a read returns beside it. */
  datatype TextPage = TextPage(text: Bytes, utf8: bool, nextOffset: Option<nat>, size: nat)

  function Min(a: int, b: int): int {
    if a < b then a else b
  }

  function Max(a: int, b: int): int {
    if a < b then b else a
  }

  // ----- One page

  /** The continuation bytes at `offset`, at most `limit` of them. */
  function Skipped(file: Bytes, offset: nat, limit: nat): (n: nat)
    ensures n <= limit
    ensures offset <= |file| ==> offset + n <= |file|
    decreases limit
  {
    if limit == 0 || offset >= |file| || !Continuation(file[offset]) then 0
    else 1 + Skipped(file, offset + 1, limit - 1)
  }

  /** Where the page asked for at `offset` starts. */
  function Start(file: Bytes, offset: nat): (start: nat)
    ensures Min(offset, |file|) <= start <= |file|
  {
    if offset == 0 then 0
    else if offset >= |file| then |file|
    else offset + Skipped(file, offset, 3)
  }

  /** The page that shows the bytes `page` at `start` of a file of `size` bytes. */
  function PageShowing(page: Bytes, start: nat, size: nat): TextPage {
    var valid := ValidUpTo(page);
    if valid == |page| || (start + |page| < size && Incomplete(page[valid..])) then
      TextPage(page[..valid], true, if start + valid < size then Some(start + valid) else None, size)
    else
      TextPage([], false, None, size)
  }

  function TextFrom(file: Bytes, start: nat, max: nat): TextPage
    requires start <= |file|
  {
    PageShowing(file[start..Min(start + max, |file|)], start, |file|)
  }

  function PageAt(file: Bytes, offset: nat, maxBytes: nat): TextPage {
    TextFrom(file, Start(file, offset), Max(maxBytes, 4))
  }

  /** A revision is a digest of the whole file, or of a large one says only its
      size and when it was modified. */
  datatype Revision = OfContent(bytes: Bytes) | Large(size: nat, modified: nat)

  function RevisionOf(file: Bytes, modified: Option<nat>): Revision {
    if |file| > MAX_ASSET_BYTES then Large(|file|, modified.GetOr(0)) else OfContent(file)
  }

  /** The bytes at `offset`: read by seeking if the file is large, and else cut
      from the whole, which then is hashed. */
  method ReadWindow(file: Bytes, modified: Option<nat>, offset: nat, window: nat)
    returns (bytes: Bytes, revision: Revision)
    ensures var from := Min(offset, |file|); bytes == file[from..Min(from + window, |file|)]
    ensures revision == RevisionOf(file, modified)
  {
    var size := |file|;
    if size > MAX_ASSET_BYTES {
      var tail := file[Min(offset, size)..];
      return tail[..Min(window, |tail|)], Large(size, modified.GetOr(0));
    }
    var whole := file[..Min(MAX_ASSET_BYTES + 1, size)];
    assert whole == file;
    var start := Min(offset, |whole|);
    return whole[start..Min(start + window, |whole|)], OfContent(whole);
  }

  method SkipPartial(bytes: Bytes, offset: nat) returns (skip: nat)
    ensures skip == if offset == 0 then 0 else Skipped(bytes, 0, 3)
  {
    skip := 0;
    if offset != 0 {
      while skip < Min(3, |bytes|) && Continuation(bytes[skip])
        invariant skip <= Min(3, |bytes|)
        invariant Skipped(bytes, 0, 3) == skip + Skipped(bytes, skip, 3 - skip)
      {
        skip := skip + 1;
      }
    }
  }

  /** Skipping looks no further than its limit. */
  lemma {:induction false} SkippedInWindow(file: Bytes, from: nat, to: nat, at: nat, limit: nat)
    requires from + at <= to <= |file| && (to == |file| || from + at + limit <= to)
    ensures Skipped(file[from..to], at, limit) == Skipped(file, from + at, limit)
    decreases limit
  {
    if limit > 0 && from + at < to {
      SkippedInWindow(file, from, to, at + 1, limit - 1);
    }
  }

  method ReadTextPage(file: Bytes, modified: Option<nat>, offset: nat, maxBytes: nat)
    returns (r: TextPage, revision: Revision)
    ensures r == PageAt(file, offset, maxBytes)
    ensures revision == RevisionOf(file, modified)
  {
    hide Skipped, Continuation, PageShowing, RevisionOf;
    var maxPage := Max(maxBytes, 4);
    var size := |file|;
    var bytes;
    bytes, revision := ReadWindow(file, modified, offset, maxPage + 3);
    var skip := SkipPartial(bytes, offset);
    StartOfWindow(file, offset, maxPage + 3);
    var start := Min(offset, size) + skip;
    var page := bytes[skip..];
    page := page[..Min(maxPage, |page|)];
    PageOfWindow(file, Min(offset, size), maxPage, skip);
    r := PageOf(page, start, size);
  }

  /** What is skipped in the window is what is skipped in the file. */
  lemma StartOfWindow(file: Bytes, offset: nat, window: nat)
    requires window >= 3
    ensures var from := Min(offset, |file|);
            var bytes := file[from..Min(from + window, |file|)];
            Start(file, offset) == from + if offset == 0 then 0 else Skipped(bytes, 0, 3)
  {
    hide Continuation;
    var from := Min(offset, |file|);
    SkippedInWindow(file, from, Min(from + window, |file|), 0, 3);
    NothingSkippedAtEnd(file, 3);
    hide Skipped;
  }

  /** Three bytes more than a page are a page after any skip. */
  lemma PageOfWindow(file: Bytes, from: nat, max: nat, skip: nat)
    requires from + skip <= |file| && skip <= 3
    ensures var bytes := file[from..Min(from + max + 3, |file|)];
            skip <= |bytes| && bytes[skip..][..Min(max, |bytes| - skip)]
                               == file[from + skip..Min(from + skip + max, |file|)]
  {
    var to := Min(from + max + 3, |file|);
    SliceDrop(file, from, to, skip);
    SliceTake(file, from + skip, to, Min(max, to - from - skip));
  }

  lemma NothingSkippedAtEnd(file: Bytes, limit: nat)
    ensures Skipped(file, |file|, limit) == 0
  {
  }

  method PageOf(page: Bytes, start: nat, size: nat) returns (r: TextPage)
    ensures r == PageShowing(page, start, size)
  {
    var cut := start + |page| < size;
    var text := page;
    var valid := ValidUpTo(page);
    if valid != |page| {
      if cut && Incomplete(page[valid..]) && |page| - valid < 4 {
        text := page[..valid];
      } else {
        return TextPage([], false, None, size);
      }
    }
    var after := start + |text|;
    return TextPage(text, true, if after < size then Some(after) else None, size);
  }

  /** Pages with one revision, of two files that are not large, show one text. */
  lemma RevisionTellsText(a: Bytes, b: Bytes, modifiedA: Option<nat>, modifiedB: Option<nat>, offset: nat, maxBytes: nat)
    requires RevisionOf(a, modifiedA) == RevisionOf(b, modifiedB)
    ensures |a| == |b|
    ensures |a| <= 8388608 ==> PageAt(a, offset, maxBytes) == PageAt(b, offset, maxBytes)
    ensures |a| > 8388608 ==> modifiedA.GetOr(0) == modifiedB.GetOr(0)
  {
    hide PageAt;
  }

  // ----- From any offset

  /** In text, a page may start inside a character: it then starts with the next one. */
  lemma {:induction false} SkipsToBoundary(file: Bytes, offset: nat, limit: nat, boundary: nat)
    requires offset <= boundary <= |file| && boundary <= offset + limit
    requires boundary < |file| ==> !Continuation(file[boundary])
    requires forall k | offset <= k < boundary :: Continuation(file[k])
    ensures offset + Skipped(file, offset, limit) == boundary
    decreases limit
  {
    if offset < boundary {
      SkipsToBoundary(file, offset + 1, limit - 1, boundary);
    }
  }

  /** The start is the first boundary at or after the offset. */
  lemma StartIsFirstBoundary(file: Bytes, offset: nat)
    requires Valid(file)
    ensures Boundary(file, Start(file, offset))
    ensures forall k | Min(offset, |file|) <= k < Start(file, offset) :: !Boundary(file, k)
  {
    if offset == 0 {
      FirstIsBoundary(file);
    } else if offset < |file| {
      var boundary := BoundaryNear(file, offset);
      SkipsToBoundary(file, offset, 3, boundary);
    }
  }

  /** Every text page but the last makes progress, of any file. */
  lemma NextIsLater(file: Bytes, offset: nat, maxBytes: nat)
    ensures var next := PageAt(file, offset, maxBytes).nextOffset;
            next.Some? ==> offset <= Start(file, offset) < next.value < |file|
  {
    hide Start, PageShowing;
    var start, max := Start(file, offset), Max(maxBytes, 4);
    ShownNextIsLater(file[start..Min(start + max, |file|)], start, |file|);
  }

  /** A page that is not the last has at least four bytes, so a whole character. */
  lemma ShownNextIsLater(page: Bytes, start: nat, size: nat)
    requires start + |page| == size || |page| >= 4
    ensures var next := PageShowing(page, start, size).nextOffset;
            next.Some? ==> start < next.value < size
  {
    hide ValidUpTo;
    if Incomplete(page[ValidUpTo(page)..]) {
      IncompleteIsShort(page[ValidUpTo(page)..]);
    }
    hide Incomplete;
  }

  lemma IncompleteIsShort(s: Bytes)
    requires Incomplete(s)
    ensures |s| < 4
  {
  }

  /** From any offset of a text file, the page starts at the first character at
      or after the offset, holds the characters that fit, and ends between two. */
  lemma PageOfText(file: Bytes, offset: nat, maxBytes: nat)
    requires Valid(file)
    ensures var page := PageAt(file, offset, maxBytes);
            var start := Start(file, offset);
            var end := page.nextOffset.GetOr(|file|);
            && page.utf8 && start <= end <= |file| && page.text == file[start..end]
            && Boundary(file, start) && Boundary(file, end) && Valid(page.text)
            && |page.text| <= Max(maxBytes, 4)
            && (forall k | end < k <= start + Max(maxBytes, 4) :: !Boundary(file, k))
  {
    StartIsFirstBoundary(file, offset);
    hide Start, Valid, TextFrom, Boundary;
    TextFromOfText(file, Start(file, offset), Max(maxBytes, 4));
  }

  lemma TextFromOfText(file: Bytes, start: nat, max: nat)
    requires Valid(file) && start <= |file| && Boundary(file, start)
    ensures var page := TextFrom(file, start, max);
            var end := page.nextOffset.GetOr(|file|);
            && page.utf8 && start <= end <= |file| && page.text == file[start..end]
            && Boundary(file, end) && Valid(page.text) && |page.text| <= max
            && (forall k | end < k <= start + max :: !Boundary(file, k))
  {
    hide Valid, ValidUpTo, WholeFirst, Incomplete, Continuation, Boundary, PageShowing;
    var end := Min(start + max, |file|);
    var valid := ValidUpTo(file[start..end]);
    TextFromBoundary(file, start, end, valid);
    SliceTake(file, start, end, valid);
    ShownText(file[start..end], start, |file|, valid);
    forall k | start + valid < k <= start + max
      ensures !Boundary(file, k)
    {
      if k > end {
        NoBoundaryBeyond(file, k);
      }
    }
  }

  lemma NoBoundaryBeyond(file: Bytes, k: nat)
    requires k > |file|
    ensures !Boundary(file, k)
  {
  }

  lemma ShownText(page: Bytes, start: nat, size: nat, valid: nat)
    requires valid == ValidUpTo(page) && start + |page| <= size
    requires valid == |page| || (start + |page| < size && Incomplete(page[valid..]))
    ensures PageShowing(page, start, size)
         == TextPage(page[..valid], true, if start + valid < size then Some(start + valid) else None, size)
  {
    hide ValidUpTo, Incomplete;
  }

  /** Between two ends, the first at a boundary: whole characters, then part of one. */
  lemma TextFromBoundary(file: Bytes, start: nat, end: nat, valid: nat)
    requires Valid(file) && start <= end <= |file| && Boundary(file, start)
    requires valid == ValidUpTo(file[start..end])
    ensures Valid(file[start..start + valid]) && Boundary(file, start + valid)
    ensures start + valid == end || (end < |file| && Incomplete(file[start..end][valid..]))
    ensures forall k | start + valid < k <= end :: !Boundary(file, k)
  {
    hide ValidUpTo, Incomplete, Valid;
    var rest := file[start..];
    SplitAtBoundary(file, start);
    assert rest[..end - start] == file[start..end];
    CutIsIncomplete(rest, end - start, valid);
    SliceTake(file, start, |file|, valid);
    DropDrop(file, start, valid);
    assert file[start..|file|] == rest;
    assert Boundary(rest, valid) ==> Boundary(file, start + valid);
    var tail := file[start + valid..];
    if start + valid < end {
      SliceDrop(file, start, |file|, valid);
      SliceDrop(file, start, end, valid);
      var cut := end - start - valid;
      assert rest[valid..end - start] == tail[..cut] == file[start..end][valid..];
      CutCharacter(tail, cut);
      forall k | start + valid < k <= end
        ensures !Boundary(file, k)
      {
        assert tail[k - start - valid] == file[k];
      }
    }
  }

  lemma CutCharacter(tail: Bytes, cut: nat)
    requires Valid(tail) && 0 < cut <= |tail| && Incomplete(tail[..cut])
    ensures cut < |tail| && forall k | 0 < k <= cut :: Continuation(tail[k])
  {
    assert tail[..cut][0] == tail[0];
  }

  // ----- Reading a whole file

  /** The pages a reader sees that follows the next offsets, choosing a page
      size at every offset. */
  function Follow(file: Bytes, sizes: nat -> nat, offset: nat): (pages: seq<TextPage>)
    ensures pages != []
    decreases |file| - offset
  {
    var page := PageAt(file, offset, sizes(offset));
    NextIsLater(file, offset, sizes(offset));
    [page] + if page.nextOffset.Some? then Follow(file, sizes, page.nextOffset.value) else []
  }

  function Texts(pages: seq<TextPage>): Bytes {
    if pages == [] then [] else pages[0].text + Texts(pages[1..])
  }

  predicate AllText(pages: seq<TextPage>) {
    forall i | 0 <= i < |pages| :: pages[i].utf8
  }

  /** Following a text file from any boundary gives the rest of it. */
  lemma {:induction false} FollowingReadsTheRest(file: Bytes, sizes: nat -> nat, offset: nat)
    requires Valid(file) && offset <= |file| && Boundary(file, offset)
    ensures AllText(Follow(file, sizes, offset))
    ensures Texts(Follow(file, sizes, offset)) == file[offset..]
    decreases |file| - offset
  {
    var page := PageAt(file, offset, sizes(offset));
    StartAtBoundary(file, offset);
    PageOfText(file, offset, sizes(offset));
    NextIsLater(file, offset, sizes(offset));
    hide PageAt, Valid, Start, Boundary, Texts, AllText;
    if page.nextOffset.Some? {
      var next := page.nextOffset.value;
      FollowingReadsTheRest(file, sizes, next);
      TextsCons(page, Follow(file, sizes, next));
      JoinedSlices(file, offset, next);
    } else {
      TextsCons(page, []);
      JoinedSlices(file, offset, |file|);
    }
  }

  lemma TextsCons(page: TextPage, pages: seq<TextPage>)
    ensures Texts([page] + pages) == page.text + Texts(pages)
    ensures AllText([page] + pages) <==> page.utf8 && AllText(pages)
  {
    var all := [page] + pages;
    assert all[1..] == pages;
    assert forall i | 0 <= i < |pages| :: all[i + 1] == pages[i];
  }

  lemma JoinedSlices(s: Bytes, m: nat, n: nat)
    requires m <= n <= |s|
    ensures s[m..n] + s[n..] == s[m..]
    ensures s[|s|..] == []
  {
  }

  lemma StartAtBoundary(file: Bytes, offset: nat)
    requires Valid(file) && offset <= |file| && Boundary(file, offset)
    ensures Start(file, offset) == offset
  {
    StartIsFirstBoundary(file, offset);
  }

  /** What pages say is text is text, of any file. */
  lemma {:induction false} TextsAreText(pages: seq<TextPage>)
    requires forall i | 0 <= i < |pages| :: Valid(pages[i].text)
    ensures Valid(Texts(pages))
  {
    if pages != [] {
      TextsAreText(pages[1..]);
      ValidConcat(pages[0].text, Texts(pages[1..]));
    }
  }

  lemma ShownIsText(page: Bytes, start: nat, size: nat)
    ensures Valid(PageShowing(page, start, size).text)
  {
    var none: Bytes := [];
    assert Valid(none);
    hide Valid, ValidUpTo, WholeFirst, Incomplete;
    ValidUpToIsLongest(page);
  }

  lemma PageTextIsText(file: Bytes, offset: nat, maxBytes: nat)
    ensures Valid(PageAt(file, offset, maxBytes).text)
  {
    hide Valid, PageShowing, Start;
    var start := Start(file, offset);
    ShownIsText(file[start..Min(start + Max(maxBytes, 4), |file|)], start, |file|);
  }

  lemma {:induction false} FollowedTextIsText(file: Bytes, sizes: nat -> nat, offset: nat)
    ensures forall i | 0 <= i < |Follow(file, sizes, offset)| :: Valid(Follow(file, sizes, offset)[i].text)
    decreases |file| - offset
  {
    hide PageAt;
    var page := PageAt(file, offset, sizes(offset));
    PageTextIsText(file, offset, sizes(offset));
    NextIsLater(file, offset, sizes(offset));
    if page.nextOffset.Some? {
      FollowedTextIsText(file, sizes, page.nextOffset.value);
    }
  }

  /** A reader gets a whole file as text, page by page, exactly if it is text. */
  lemma PagesAreTheFileIffText(file: Bytes, sizes: nat -> nat)
    ensures (AllText(Follow(file, sizes, 0)) && Texts(Follow(file, sizes, 0)) == file) <==> Valid(file)
  {
    if Valid(file) {
      FirstIsBoundary(file);
      FollowingReadsTheRest(file, sizes, 0);
      assert file[0..] == file;
    }
    FollowedTextIsText(file, sizes, 0);
    TextsAreText(Follow(file, sizes, 0));
  }

  /** No page of a reader starts later than asked for: none is asked for at a
      continuation byte. */
  predicate NoSkip(file: Bytes, sizes: nat -> nat, offset: nat)
    decreases |file| - offset
  {
    var next := PageAt(file, offset, sizes(offset)).nextOffset;
    NextIsLater(file, offset, sizes(offset));
    Start(file, offset) == offset && (next.Some? ==> NoSkip(file, sizes, next.value))
  }

  lemma {:induction false} TextIsNotSkipped(file: Bytes, sizes: nat -> nat, offset: nat)
    requires Valid(file) && offset <= |file| && Boundary(file, offset)
    ensures NoSkip(file, sizes, offset)
    decreases |file| - offset
  {
    var page := PageAt(file, offset, sizes(offset));
    StartAtBoundary(file, offset);
    PageOfText(file, offset, sizes(offset));
    NextIsLater(file, offset, sizes(offset));
    hide PageAt, Valid, Start, Boundary;
    if page.nextOffset.Some? {
      TextIsNotSkipped(file, sizes, page.nextOffset.value);
    }
  }

  /** Where nothing is skipped, text pages are the text of the file. */
  lemma {:induction false} UnskippedTextIsTheRest(file: Bytes, sizes: nat -> nat, offset: nat)
    requires offset <= |file| && NoSkip(file, sizes, offset) && AllText(Follow(file, sizes, offset))
    ensures Valid(file[offset..])
    decreases |file| - offset
  {
    var page := PageAt(file, offset, sizes(offset));
    var pages := Follow(file, sizes, offset);
    assert pages[0] == page;
    PageTextIsText(file, offset, sizes(offset));
    NextIsLater(file, offset, sizes(offset));
    TextPageIsSlice(file, offset, sizes(offset));
    var end := page.nextOffset.GetOr(|file|);
    if page.nextOffset.Some? {
      TextsCons(page, Follow(file, sizes, end));
      hide PageAt, Start, Valid;
      UnskippedTextIsTheRest(file, sizes, end);
    } else {
      var none: Bytes := [];
      assert file[end..] == none && Valid(none);
    }
    ValidConcat(page.text, file[end..]);
    JoinedSlices(file, offset, end);
  }

  /** A text page shows the bytes between its start and its end. */
  lemma TextPageIsSlice(file: Bytes, offset: nat, maxBytes: nat)
    requires PageAt(file, offset, maxBytes).utf8
    ensures var page := PageAt(file, offset, maxBytes);
            var start, end := Start(file, offset), page.nextOffset.GetOr(|file|);
            start <= end <= |file| && page.text == file[start..end]
  {
    var start, max := Start(file, offset), Max(maxBytes, 4);
    var end := Min(start + max, |file|);
    var valid := ValidUpTo(file[start..end]);
    hide ValidUpTo, Start, Incomplete;
    SliceTake(file, start, end, valid);
  }

  /** If all its pages are text, a file is text exactly if no page was asked for at
      a continuation byte: the bytes skipped there are what the pages hide. */
  lemma TextIffNothingSkipped(file: Bytes, sizes: nat -> nat)
    requires AllText(Follow(file, sizes, 0))
    ensures Valid(file) <==> NoSkip(file, sizes, 0)
  {
    hide Valid, NoSkip, Follow, AllText;
    if Valid(file) {
      FirstIsBoundary(file);
      TextIsNotSkipped(file, sizes, 0);
    }
    if NoSkip(file, sizes, 0) {
      UnskippedTextIsTheRest(file, sizes, 0);
      assert file[0..] == file;
    }
  }

  /** A stray continuation byte right at a page start is taken for the tail of a
      character, and no page reports it. */
  lemma StrayByteIsDropped()
    ensures var file: Bytes := [97, 97, 97, 97, 0x80, 98];
            !Valid(file) && AllText(Follow(file, offset => 4, 0))
            && Texts(Follow(file, offset => 4, 0)) == [97, 97, 97, 97, 98]
  {
    var file: Bytes := [97, 97, 97, 97, 0x80, 98];
    var sizes: nat -> nat := offset => 4;
    var first: Bytes := [97, 97, 97, 97];
    var second: Bytes := [98];
    StrayIsNotText(file);
    assert file[0..4] == first && file[5..6] == second;
    AsciiIsText(first);
    AsciiIsText(second);
    assert PageAt(file, 0, 4) == TextPage(first, true, Some(4), 6);
    assert Skipped(file, 5, 2) == 0;
    assert Start(file, 4) == 5;
    assert PageAt(file, 4, 4) == TextPage(second, true, None, 6);
    hide PageAt;
    assert Follow(file, sizes, 4) == [TextPage(second, true, None, 6)];
    assert Follow(file, sizes, 0) == [TextPage(first, true, Some(4), 6), TextPage(second, true, None, 6)];
    assert Texts([TextPage(second, true, None, 6)]) == second;
    assert first + second == [97, 97, 97, 97, 98];
  }

  lemma StrayIsNotText(file: Bytes)
    requires file == [97, 97, 97, 97, 0x80, 98]
    ensures !Valid(file)
  {
    if Valid(file) {
      AfterAscii(file, 4);
    }
  }

  lemma AsciiIsText(s: Bytes)
    requires forall i | 0 <= i < |s| :: s[i] < 0x80
    ensures Valid(s) && ValidUpTo(s) == |s| && s[..|s|] == s
  {
    AsciiValid(s);
    ValidUpToIsLongest(s);
  }

  // ----- The transcript of a terminal

  function LastBytes(log: Bytes, maxBytes: nat): Bytes {
    log[Max(|log| - maxBytes, 0)..]
  }

  /** The longest suffix that is text. */
  ghost predicate LongestTextSuffix(s: Bytes, text: Bytes) {
    && |text| <= |s| && text == s[|s| - |text|..] && Valid(text)
    && forall k | 0 <= k < |s| - |text| :: !Valid(s[k..])
  }

  method ReadTerminalTranscript(log: Bytes, maxBytes: nat) returns (bytes: Bytes)
    ensures LongestTextSuffix(LastBytes(log, maxBytes), bytes)
  {
    bytes := LastBytes(log, maxBytes);
    ghost var window := bytes;
    ghost var removed := 0;
    hide Valid, ValidUpTo, WholeFirst, LastBytes;
    while bytes != [] && ValidUpTo(bytes) != |bytes|
      invariant removed <= |window| && bytes == window[removed..]
      invariant NoTextBefore(window, removed)
    {
      hide NoTextBefore;
      OneMoreRemoved(window, removed);
      DropDrop(window, removed, 1);
      bytes := bytes[1..];
      removed := removed + 1;
    }
    TrimmedIsLongest(window, removed);
  }

  ghost predicate NoTextBefore(s: Bytes, end: nat)
    requires end <= |s|
  {
    forall k | 0 <= k < end :: !Valid(s[k..])
  }

  lemma OneMoreRemoved(s: Bytes, removed: nat)
    requires removed < |s| && NoTextBefore(s, removed) && ValidUpTo(s[removed..]) != |s| - removed
    ensures NoTextBefore(s, removed + 1)
  {
    ValidUpToIsLongest(s[removed..]);
  }

  lemma TrimmedIsLongest(s: Bytes, removed: nat)
    requires removed <= |s| && NoTextBefore(s, removed)
    requires s[removed..] == [] || ValidUpTo(s[removed..]) == |s| - removed
    ensures LongestTextSuffix(s, s[removed..])
  {
    ValidUpToIsLongest(s[removed..]);
  }

  /** Of a log that is text, only the part of a character cut at the front is lost. */
  lemma TextTailLosesOnlyTheCut(log: Bytes, maxBytes: nat, bytes: Bytes)
    requires Valid(log) && LongestTextSuffix(LastBytes(log, maxBytes), bytes)
    ensures |bytes| >= |LastBytes(log, maxBytes)| - 3
    ensures Boundary(log, |log| - |bytes|)
    ensures forall k | |log| - |LastBytes(log, maxBytes)| <= k < |log| - |bytes| :: !Boundary(log, k)
  {
    var window := LastBytes(log, maxBytes);
    var skip := |log| - |window|;
    assert window == log[skip..];
    var boundary := BoundaryNear(log, skip);
    SplitAtBoundary(log, boundary);
    hide Valid, LongestTextSuffix, LastBytes, Continuation;
    SuffixFrom(log, skip, boundary, bytes);
  }

  lemma SuffixFrom(log: Bytes, skip: nat, boundary: nat, bytes: Bytes)
    requires skip <= boundary <= |log| && Valid(log[boundary..]) && LongestTextSuffix(log[skip..], bytes)
    ensures |log| - boundary <= |bytes| <= |log| - skip && Boundary(log, |log| - |bytes|)
  {
    hide Valid, LongestTextSuffix, Continuation, Boundary;
    var window := log[skip..];
    DropDrop(log, skip, boundary - skip);
    LongestBeats(window, bytes, boundary - skip);
    DropDrop(log, skip, |window| - |bytes|);
    TailIsBoundary(log, |log| - |bytes|);
  }

  lemma LongestBeats(s: Bytes, text: Bytes, k: nat)
    requires LongestTextSuffix(s, text) && k <= |s| && Valid(s[k..])
    ensures |s| - k <= |text| <= |s|
    ensures text == s[|s| - |text|..] && Valid(text)
  {
    hide Valid, Continuation;
  }

  /** The last character of `s` is whole, and has `k` bytes. */
  predicate WholeLast(s: Bytes, k: nat) {
    0 < k <= |s| && WholeFirst(s[|s| - k..]) && Width(s[|s| - k]) == k
  }

  predicate EndsWhole(s: Bytes) {
    exists k | 1 <= k <= 4 :: WholeLast(s, k)
  }

  lemma {:induction false} TextEndsWhole(s: Bytes)
    requires Valid(s) && s != []
    ensures EndsWhole(s)
  {
    var w := Width(s[0]);
    hide Valid;
    if w == |s| {
      assert s[|s| - w..] == s;
      assert WholeLast(s, w);
    } else {
      var rest := s[w..];
      TextEndsWhole(rest);
      hide WholeFirst;
      var k :| 1 <= k <= 4 && WholeLast(rest, k);
      WholeLastOfSuffix(s, rest, k);
    }
  }

  lemma WholeLastOfSuffix(s: Bytes, suffix: Bytes, k: nat)
    requires |suffix| <= |s| && suffix == s[|s| - |suffix|..] && 0 < k <= |suffix|
    ensures WholeLast(s, k) <==> WholeLast(suffix, k)
  {
    hide WholeFirst;
    DropDrop(s, |s| - |suffix|, |suffix| - k);
  }

  lemma LongestIsText(s: Bytes, text: Bytes)
    requires LongestTextSuffix(s, text)
    ensures |text| <= |s| && text == s[|s| - |text|..] && Valid(text)
  {
    hide Valid;
  }

  lemma LastCharacterIsText(s: Bytes, k: nat)
    requires WholeLast(s, k)
    ensures 1 <= k <= |s| && Valid(s[|s| - k..])
  {
    assert s[|s| - k..][k..] == [];
  }

  /** Trimming only the front, a log that stops inside a character reads as
      nothing at all: something is left exactly if the last character is whole. */
  lemma TailSurvivesIffItEndsWhole(log: Bytes, maxBytes: nat, bytes: Bytes)
    requires LongestTextSuffix(LastBytes(log, maxBytes), bytes)
    ensures bytes != [] <==> EndsWhole(LastBytes(log, maxBytes))
  {
    var window := LastBytes(log, maxBytes);
    hide Valid, WholeFirst, LastBytes, LongestTextSuffix, WholeLast;
    LongestIsText(window, bytes);
    if bytes != [] {
      TextEndsWhole(bytes);
      var k :| 1 <= k <= 4 && WholeLast(bytes, k);
      LastCharacterIsText(bytes, k);
      WholeLastOfSuffix(window, bytes, k);
    }
    if EndsWhole(window) {
      var k :| 1 <= k <= 4 && WholeLast(window, k);
      LastCharacterIsText(window, k);
      LongestBeats(window, bytes, |window| - k);
    }
  }

  lemma CutLogDoesNotEndWhole(log: Bytes)
    requires log == [97, 98, 0xC3]
    ensures !EndsWhole(log)
  {
    hide WholeFirst;
    assert !WholeLast(log, 1) && !WholeLast(log, 2) && !WholeLast(log, 3) && !WholeLast(log, 4);
  }

  /** A log that stops after the first byte of a two-byte character is empty. */
  lemma CutLogReadsAsNothing(bytes: Bytes)
    requires LongestTextSuffix(LastBytes([97, 98, 0xC3], 4096), bytes)
    ensures bytes == []
  {
    var log: Bytes := [97, 98, 0xC3];
    assert LastBytes(log, 4096) == log;
    hide LastBytes, LongestTextSuffix, EndsWhole;
    CutLogDoesNotEndWhole(log);
    TailSurvivesIffItEndsWhole(log, 4096, bytes);
  }
}
