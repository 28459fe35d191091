/** Why diff contexts are not offered, and what their revisions tell then. */
module DiffReasons {
  import opened Wrappers
  import opened Bytes
  import opened GitStatus
  import opened GitDiff
  import opened DiffAnswers
  import opened WorkspacePaths

  // ----- Why one is not offered

  ghost predicate OverLong(run: GitRun, limit: nat) {
    run.Ran? && |run.stdout| > limit
  }

  /** The patch of a file does not fit: it is not read to its end. */
  ghost predicate TooLong(git: Git, change: FileChange, limit: nat) {
    if change.indexStatus == Some(63) && change.worktreeStatus == Some(63)
    then OverLong(git(AgainstNull, change.path), limit)
    else
      || (change.indexStatus.Some? && OverLong(git(Cached, change.path), limit))
      || exists staged ::
           && (if change.indexStatus.Some? then Printed(git(Cached, change.path), limit, false, staged)
               else staged == [])
           && change.worktreeStatus.Some?
           && (|staged| >= limit || OverLong(git(WorkTree, change.path), limit - |staged|))
  }

  /** When rendering fails for the path, and when for the length. */
  lemma WhyNotRendered(git: Git, change: FileChange, limit: nat)
    ensures RenderFile(git, change, limit) == Err(InvalidPath(change.path)) <==> !Inside(change.path)
    ensures RenderFile(git, change, limit).Ok? && RenderFile(git, change, limit).value.Err? <==>
            Inside(change.path) && TooLong(git, change, limit)
    ensures forall reason | RenderFile(git, change, limit) == Ok(Err(reason)) :: reason == "git_diff_too_large"
  {
    InsideIff(change.path);
    if PathAccepted(change.path) {
      RenderedOrTooLong(git, change, limit);
    }
    hide PathAccepted, Inside, TooLong, AppendBounded, IsUntracked;
  }

  lemma RenderedOrTooLong(git: Git, change: FileChange, limit: nat)
    requires PathAccepted(change.path)
    ensures var rendered := RenderFile(git, change, limit);
            && rendered != Err(InvalidPath(change.path))
            && (rendered == Ok(Err("git_diff_too_large")) <==> TooLong(git, change, limit))
            && (rendered.Ok? && rendered.value.Err? ==> rendered.value.error == "git_diff_too_large")
  {
    hide PathAccepted;
    if !IsUntracked(change) && change.indexStatus.None? {
      assert forall patch: Bytes :: [] + patch == patch;
    }
  }

  /** Why the content of a file is not offered. */
  ghost predicate Refuses(content: Bytes, reason: Option<string>) {
    reason == if !Readable(content) then Some("git_diff_binary")
              else if content == [] then Some("git_diff_empty")
              else if |Hunks(content)| > 64 then Some("git_diff_too_many_hunks")
              else None
  }

  lemma ContentRefused(git: Git, change: FileChange, content: Bytes)
    requires !Built(change.path) && Inside(change.path) && IsPatchOf(git, change, 32768, content)
    ensures FileCandidate(git, change).Ok?
    ensures Refuses(content, FileCandidate(git, change).value.disabledReason)
  {
    hide RenderFile, Unsupported, Built, GeneratedPath, Readable, IsPatchOf, HunkCount, Hunks, Inside, RevisionInput;
    BuiltIff(change.path);
    FileIsRenderedAs(git, change, 32768, content);
    ReadableIff(content);
    HunksAre(content);
  }

  /** Why a listed file is not offered: it is built, its patch is too long, or
      what the patch is. */
  lemma {:induction false} WhyNotOffered(git: Git, change: FileChange, candidate: Candidate)
    requires FileCandidate(git, change) == Ok(candidate)
    ensures candidate.path == Some(change.path)
    ensures var reason := candidate.disabledReason;
            if Built(change.path) then reason == Some("git_diff_generated")
            else if TooLong(git, change, 32768) then reason == Some("git_diff_too_large")
            else exists content :: IsPatchOf(git, change, 32768, content) && Refuses(content, reason)
  {
    hide RenderFile, Unsupported, Built, GeneratedPath, IsPatchOf, FromContent, Inside, RevisionInput, TooLong, Refuses;
    BuiltIff(change.path);
    WhyNotRendered(git, change, 32768);
    var rendered := RenderFile(git, change, 32768);
    if !Built(change.path) && rendered.Ok? && rendered.value.Ok? {
      FileIsRenderedAs(git, change, 32768, rendered.value.value);
      ContentRefused(git, change, rendered.value.value);
    }
    if !Built(change.path) {
      CandidateHasPath(git, change, candidate);
    }
  }

  lemma CandidateHasPath(git: Git, change: FileChange, candidate: Candidate)
    requires FileCandidate(git, change) == Ok(candidate)
    ensures candidate.path == Some(change.path)
  {
    hide RenderFile, Unsupported, GeneratedPath, HunkCount, RevisionInput;
  }

  // ----- Why all files are not offered at once

  /** Rendering gives up at the first file that is built, does not fit, or whose
      patch cannot be shown. */
  ghost predicate Stops(git: Git, files: seq<FileChange>, before: nat, reason: string)
    decreases |files|
  {
    files != [] &&
    if Built(files[0].path) then reason == "git_diff_contains_unsupported"
    else if before >= 65536 then reason == "git_diff_too_large"
    else
      Inside(files[0].path) &&
      if TooLong(git, files[0], 65536 - before) then reason == "git_diff_too_large"
      else exists patch :: IsPatchOf(git, files[0], 65536 - before, patch) &&
             if !Readable(patch) then reason == "git_diff_contains_unsupported"
             else Stops(git, files[1..], before + |patch|, reason)
  }

  /** Or there are patches for all of them, with too many hunks. */
  ghost predicate TooManyHunks(git: Git, files: seq<FileChange>, content: Bytes) {
    exists patches :: PatchesFit(git, files, |content|, patches) && |Hunks(content + Concat(patches))| > 128
  }

  /** What the loop does with the first file, when it gives up in the end. */
  lemma {:induction false} GivesUp(git: Git, files: seq<FileChange>, content: Bytes, reason: string) returns (patch: Option<Bytes>)
    requires files != [] && RenderChanges(git, files, content) == Ok(Err(reason))
    ensures GeneratedPath(files[0].path) ==> reason == "git_diff_contains_unsupported"
    ensures !GeneratedPath(files[0].path) && |content| >= 65536 ==> reason == "git_diff_too_large"
    ensures !GeneratedPath(files[0].path) && |content| < 65536 ==>
              RenderFile(git, files[0], 65536 - |content|) == Ok(if patch.Some? then Ok(patch.value) else Err(reason))
    ensures !GeneratedPath(files[0].path) && |content| < 65536 && patch.Some? ==>
              if Unsupported(patch.value) then reason == "git_diff_contains_unsupported"
              else |content + patch.value| > 65536
                   || RenderChanges(git, files[1..], content + patch.value) == Ok(Err(reason))
  {
    hide RenderFile, Unsupported, GeneratedPath, HunkCount;
    var rendered := RenderFile(git, files[0], if |content| < 65536 then 65536 - |content| else 0);
    patch := if rendered.Ok? && rendered.value.Ok? then Some(rendered.value.value) else None;
  }

  ghost predicate StopsOrTooMany(git: Git, files: seq<FileChange>, content: Bytes, reason: string) {
    Stops(git, files, |content|, reason)
    || (TooManyHunks(git, files, content) && reason == "git_diff_too_many_hunks")
  }

  lemma {:induction false} WhyNotAllRendered(git: Git, files: seq<FileChange>, content: Bytes, reason: string)
    requires RenderChanges(git, files, content) == Ok(Err(reason))
    ensures StopsOrTooMany(git, files, content, reason)
    decreases |files|
  {
    if files == [] {
      TooManyAtLast(git, files, content, reason);
    } else {
      hide Unsupported, Built, GeneratedPath, Readable, IsPatchOf, HunkCount, Inside, TooLong, RenderFile, RenderChanges,
           StopsOrTooMany;
      BuiltIff(files[0].path);
      var patch := GivesUp(git, files, content, reason);
      if Built(files[0].path) || |content| >= 65536 || patch.None? {
        StopsHere(git, files, content, reason);
      } else {
        var room := 65536 - |content|;
        FileIsRenderedAs(git, files[0], room, patch.value);
        IsPatchFits(git, files[0], room, patch.value);
        ReadableIff(patch.value);
        if Readable(patch.value) {
          WhyNotAllRendered(git, files[1..], content + patch.value, reason);
        }
        StopsLater(git, files, content, patch.value, reason);
      }
    }
  }

  lemma TooManyAtLast(git: Git, none: seq<FileChange>, content: Bytes, reason: string)
    requires none == [] && RenderChanges(git, none, content) == Ok(Err(reason))
    ensures StopsOrTooMany(git, none, content, reason)
  {
    HunksAre(content);
    hide HunkCount, Hunks;
    var patches: seq<Bytes> := [];
    assert content + Concat(patches) == content && PatchesFit(git, none, |content|, patches);
  }

  lemma StopsHere(git: Git, files: seq<FileChange>, content: Bytes, reason: string)
    requires files != []
    requires Built(files[0].path) ==> reason == "git_diff_contains_unsupported"
    requires !Built(files[0].path) && |content| >= 65536 ==> reason == "git_diff_too_large"
    requires !Built(files[0].path) && |content| < 65536 ==>
               RenderFile(git, files[0], 65536 - |content|) == Ok(Err(reason))
    ensures StopsOrTooMany(git, files, content, reason)
  {
    hide Built, Inside, TooLong, RenderFile, TooManyHunks, IsPatchOf, Readable;
    if |content| < 65536 {
      WhyNotRendered(git, files[0], 65536 - |content|);
    }
  }

  lemma {:induction false} StopsLater(git: Git, files: seq<FileChange>, content: Bytes, patch: Bytes, reason: string)
    requires files != [] && !Built(files[0].path) && |content| < 65536
    requires RenderFile(git, files[0], 65536 - |content|) == Ok(Ok(patch))
    requires if Readable(patch) then StopsOrTooMany(git, files[1..], content + patch, reason)
             else reason == "git_diff_contains_unsupported"
    ensures StopsOrTooMany(git, files, content, reason)
  {
    hide Built, Inside, TooLong, RenderFile, TooManyHunks, IsPatchOf, Readable;
    var room := 65536 - |content|;
    WhyNotRendered(git, files[0], room);
    FileIsRenderedAs(git, files[0], room, patch);
    if Readable(patch) && !Stops(git, files[1..], |content + patch|, reason) {
      MoreHunks(git, files, content, patch);
    }
  }

  lemma MoreHunks(git: Git, files: seq<FileChange>, content: Bytes, patch: Bytes)
    requires files != [] && !Built(files[0].path) && |content| < 65536 && Inside(files[0].path)
    requires IsPatchOf(git, files[0], 65536 - |content|, patch) && Readable(patch)
    requires TooManyHunks(git, files[1..], content + patch)
    ensures TooManyHunks(git, files, content)
  {
    hide Built, Readable, IsPatchOf, Inside, Hunks;
    var patches :| PatchesFit(git, files[1..], |content + patch|, patches)
                && |Hunks(content + patch + Concat(patches))| > 128;
    var all := [patch] + patches;
    assert all[1..] == patches;
    ConcatIs(all, content);
    assert PatchesFit(git, files, |content|, all);
  }

  /** Why the candidate for all files is not offered. */
  lemma {:induction false} WhyNotAllOffered(git: Git, files: seq<FileChange>, candidate: Candidate)
    requires FullCandidate(git, files) == Ok(candidate)
    ensures candidate.path == None
    ensures var reason := candidate.disabledReason;
            || reason == None
            || (reason == Some("git_diff_too_many_files") && |files| > 32)
            || (|files| <= 32 &&
                (StopsOrTooMany(git, files, [], reason.value)
                 || (reason == Some("git_diff_empty")
                     && exists patches :: PatchesFit(git, files, 0, patches) && Concat(patches) == [])))
  {
    hide RenderChanges, StatusIdentity, RevisionInput, HunkCount, StopsOrTooMany, PatchesFit;
    if |files| <= 32 {
      var rendered := RenderChanges(git, files, []);
      if rendered.Ok? && rendered.value.Err? {
        WhyNotAllRendered(git, files, [], rendered.value.error);
      } else if rendered.Ok? {
        var patches := RenderedArePatches(git, files, [], rendered.value.value);
        assert [] + Concat(patches) == Concat(patches);
      }
    }
  }

  // ----- What the revision of a refused list tells

  ghost function Fields(f: FileChange): seq<Bytes> {
    [[f.indexStatus.GetOr(32)], [f.worktreeStatus.GetOr(32)], Ascii(if f.conflict then "true" else "false"),
     f.originalPath.GetOr([]), f.path]
  }

  ghost function Line(f: FileChange): Bytes {
    Join(Fields(f), 58)
  }

  ghost function Lines(files: seq<FileChange>): (lines: seq<Bytes>)
    ensures |lines| == |files|
    ensures forall i | 0 <= i < |files| :: lines[i] == Line(files[i])
  {
    seq(|files|, i requires 0 <= i < |files| => Line(files[i]))
  }

  /** A file whose fields are without colons and line feeds, as are all but odd ones. */
  ghost predicate Tellable(f: FileChange) {
    && f.indexStatus !in [Some(10), Some(32), Some(58)] && f.worktreeStatus !in [Some(10), Some(32), Some(58)]
    && 10 !in f.path && 58 !in f.path
    && (f.originalPath.Some? ==> f.originalPath.value != [] && 10 !in f.originalPath.value && 58 !in f.originalPath.value)
  }

  lemma JoinTwo(first: Bytes, rest: seq<Bytes>, sep: byte)
    requires rest != []
    ensures Join([first] + rest, sep) == first + [sep] + Join(rest, sep)
  {
    assert ([first] + rest)[1..] == rest;
  }

  lemma JoinFive(a: Bytes, b: Bytes, c: Bytes, d: Bytes, e: Bytes, sep: byte)
    ensures Join([a, b, c, d, e], sep) == a + [sep] + (b + [sep] + (c + [sep] + (d + [sep] + e)))
  {
    assert Join([e], sep) == e;
    hide Join;
    JoinTwo(d, [e], sep);
    JoinTwo(c, [d, e], sep);
    JoinTwo(b, [c, d, e], sep);
    JoinTwo(a, [b, c, d, e], sep);
    assert [d] + [e] == [d, e] && [c] + [d, e] == [c, d, e];
    assert [b] + [c, d, e] == [b, c, d, e] && [a] + [b, c, d, e] == [a, b, c, d, e];
  }

  lemma Flat(head: Bytes, c: Bytes, d: Bytes, e: Bytes, sep: Bytes)
    ensures head + (c + sep + (d + sep + e)) == head + c + sep + d + sep + e
  {
    Associative(head, c + sep, d + sep + e);
    Associative(head, c, sep);
    Associative(head + c + sep, d + sep, e);
    Associative(head + c + sep, d, sep);
  }

  lemma LineIs(f: FileChange)
    ensures Line(f) == [f.indexStatus.GetOr(32), 58, f.worktreeStatus.GetOr(32), 58]
                       + Ascii(if f.conflict then "true" else "false") + [58] + f.originalPath.GetOr([]) + [58] + f.path
  {
    var x, y := f.indexStatus.GetOr(32), f.worktreeStatus.GetOr(32);
    var c, d, e := Ascii(if f.conflict then "true" else "false"), f.originalPath.GetOr([]), f.path;
    hide Ascii, Join;
    JoinFive([x], [y], c, d, e, 58);
    var below := c + [58] + (d + [58] + e);
    var sep: Bytes := [58];
    Associative([x] + sep, [y] + sep, below);
    assert [x] + sep + ([y] + sep) == [x, 58, y, 58];
    Flat([x, 58, y, 58], c, d, e, sep);
  }

  lemma {:induction false} IdentityIsLines(files: seq<FileChange>)
    ensures StatusIdentity(files) == Join(Lines(files), 10)
  {
    if files != [] {
      LineIs(files[0]);
      assert Lines(files)[1..] == Lines(files[1..]);
      hide Line, Ascii;
      if |files| > 1 {
        IdentityIsLines(files[1..]);
      }
    }
  }

  lemma LineTells(a: FileChange, b: FileChange)
    requires Tellable(a) && Tellable(b) && Line(a) == Line(b)
    ensures a == b
  {
    FieldsAreFree(a);
    FieldsAreFree(b);
    var x, y := Fields(a), Fields(b);
    SplitJoin(x, 58);
    SplitJoin(y, 58);
    assert |Ascii("true")| == 4 && |Ascii("false")| == 5;
    hide Split, Join, Ascii;
    assert x[0] == y[0] && x[1] == y[1] && x[2] == y[2] && x[3] == y[3] && x[4] == y[4];
  }

  lemma FieldsAreFree(f: FileChange)
    requires Tellable(f)
    ensures forall piece: Bytes | piece in Fields(f) :: 58 !in piece && 10 !in piece
  {
    assert 58 !in Ascii("true") && 58 !in Ascii("false") && 10 !in Ascii("true") && 10 !in Ascii("false");
    hide Ascii;
  }

  lemma {:induction false} JoinedIsFree(pieces: seq<Bytes>, sep: byte, b: byte)
    requires b != sep && forall piece | piece in pieces :: b !in piece
    ensures b !in Join(pieces, sep)
  {
    if |pieces| > 1 {
      JoinedIsFree(pieces[1..], sep, b);
    }
  }

  lemma {:induction false} SameLines(a: seq<FileChange>, b: seq<FileChange>)
    requires (forall f | f in a :: Tellable(f)) && (forall f | f in b :: Tellable(f)) && Lines(a) == Lines(b)
    ensures a == b
  {
    hide Line, Tellable;
    forall i | 0 <= i < |a|
      ensures a[i] == b[i]
    {
      assert Line(a[i]) == Lines(a)[i] == Lines(b)[i] == Line(b[i]);
      assert a[i] in a && b[i] in b;
      LineTells(a[i], b[i]);
    }
    assert |a| == |Lines(a)| == |b|;
  }

  lemma LinesAreFree(files: seq<FileChange>)
    requires forall f | f in files :: Tellable(f)
    ensures forall line | line in Lines(files) :: LF !in line
  {
    hide Tellable, Line, Fields, Join;
    forall line | line in Lines(files)
      ensures LF !in line
    {
      var i :| 0 <= i < |files| && Lines(files)[i] == line;
      assert files[i] in files;
      LineIsFree(files[i]);
    }
  }

  lemma LineIsFree(f: FileChange)
    requires Tellable(f)
    ensures 10 !in Line(f)
  {
    FieldsAreFree(f);
    hide Tellable, Fields, Join;
    JoinedIsFree(Fields(f), 58, 10);
  }

  lemma IdentityTells(a: seq<FileChange>, b: seq<FileChange>)
    requires a != [] && b != [] && StatusIdentity(a) == StatusIdentity(b)
    requires (forall f | f in a :: Tellable(f)) && (forall f | f in b :: Tellable(f))
    ensures a == b
  {
    hide Tellable, Line, StatusIdentity, Join, Split;
    IdentityIsLines(a);
    IdentityIsLines(b);
    LinesAreFree(a);
    LinesAreFree(b);
    SplitJoin(Lines(a), 10);
    SplitJoin(Lines(b), 10);
    SameLines(a, b);
  }

  lemma RefusedRevision(git: Git, files: seq<FileChange>, candidate: Candidate)
    requires FullCandidate(git, files) == Ok(candidate) && !candidate.Enabled()
    requires candidate.disabledReason != Some("git_diff_empty")
    ensures candidate.revision == RevisionInput(None, Ascii(candidate.disabledReason.value) + StatusIdentity(files))
  {
    hide StatusIdentity, RevisionInput, HunkCount, Ascii, RenderChanges;
    if |files| <= 32 {
      var rendered := RenderChanges(git, files, []);
      if rendered.Ok? && rendered.value.Ok? {
        var patches := RenderedArePatches(git, files, [], rendered.value.value);
      }
    }
  }

  /** Two lists of changes refused for one reason, but for having no content, have
      the same revision only if they are the same. */
  lemma RefusedRevisionTells(git: Git, a: seq<FileChange>, x: Candidate, other: Git, b: seq<FileChange>, y: Candidate)
    requires a != [] && FullCandidate(git, a) == Ok(x) && !x.Enabled()
    requires b != [] && FullCandidate(other, b) == Ok(y) && !y.Enabled()
    requires x.disabledReason == y.disabledReason && x.disabledReason != Some("git_diff_empty")
    requires x.revision == y.revision
    requires (forall f | f in a :: Tellable(f)) && (forall f | f in b :: Tellable(f))
    ensures a == b
  {
    hide StatusIdentity, RevisionInput, Tellable, FullCandidate, Ascii;
    RefusedRevision(git, a, x);
    RefusedRevision(other, b, y);
    var reason := Ascii(x.disabledReason.value);
    RevisionTells(None, reason + StatusIdentity(a), None, reason + StatusIdentity(b));
    assert (reason + StatusIdentity(a))[|reason|..] == StatusIdentity(a);
    assert (reason + StatusIdentity(b))[|reason|..] == StatusIdentity(b);
    IdentityTells(a, b);
  }
}
