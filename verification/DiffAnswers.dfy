/** Which patches diff contexts consist of, and which of them are offered. */
module DiffAnswers {
  import opened Wrappers
  import opened Bytes
  import opened GitStatus
  import opened GitDiff
  import opened WorkspacePaths
  import Utf8

  // ----- The patch of one file

  /** Git printed the patch, and its exit code says so. */
  ghost predicate Printed(run: GitRun, limit: nat, mayDiffer: bool, patch: Bytes) {
    run.Ran? && run.stdout == patch && |patch| <= limit
    && (run.exit == Success || (mayDiffer && run.exit == Difference))
  }

  ghost predicate Inside(path: Bytes) {
    && path != [] && path[0] != 47 && Split(path, 47)[0] != [46]
    && [46, 46] !in Split(path, 47)
  }

  /** An untracked file is compared with nothing; any other gives its staged
      changes, then those of the work tree, of which there must be room. */
  ghost predicate IsPatchOf(git: Git, change: FileChange, limit: nat, content: Bytes) {
    if change.indexStatus == Some(63) && change.worktreeStatus == Some(63)
    then Printed(git(AgainstNull, change.path), limit, true, content)
    else exists staged, unstaged :: content == staged + unstaged && AreParts(git, change, limit, staged, unstaged)
  }

  ghost predicate AreParts(git: Git, change: FileChange, limit: nat, staged: Bytes, unstaged: Bytes) {
    && (if change.indexStatus.Some? then Printed(git(Cached, change.path), limit, false, staged) else staged == [])
    && (if change.worktreeStatus.Some?
        then |staged| < limit && Printed(git(WorkTree, change.path), limit - |staged|, false, unstaged)
        else unstaged == [])
  }

  lemma InsideIff(path: Bytes)
    ensures PathAccepted(path) <==> Inside(path)
  {
    assert Ascii(".") == [46] && Ascii("..") == [46, 46];
    hide Split;
  }

  lemma AppendedIs(git: Git, kind: DiffKind, path: Bytes, limit: nat, before: Bytes, content: Bytes)
    ensures AppendBounded(git, kind, path, limit, before) == Ok(Ok(content)) <==>
            exists patch :: content == before + patch && Printed(git(kind, path), limit, kind == AgainstNull, patch)
  {
    var run := git(kind, path);
    if AppendBounded(git, kind, path, limit, before) == Ok(Ok(content)) {
      assert content == before + run.stdout && Printed(run, limit, kind == AgainstNull, run.stdout);
    }
  }

  lemma FileIsRenderedAs(git: Git, change: FileChange, limit: nat, content: Bytes)
    ensures RenderFile(git, change, limit) == Ok(Ok(content)) <==>
            Inside(change.path) && IsPatchOf(git, change, limit, content)
  {
    InsideIff(change.path);
    hide PathAccepted, Inside;
    if PathAccepted(change.path) {
      if IsUntracked(change) {
        AppendedIs(git, AgainstNull, change.path, limit, [], content);
        assert forall patch: Bytes :: [] + patch == patch;
      } else {
        TrackedIs(git, change, limit, content);
      }
    }
  }

  lemma TrackedIs(git: Git, change: FileChange, limit: nat, content: Bytes)
    requires PathAccepted(change.path) && !IsUntracked(change)
    ensures RenderFile(git, change, limit) == Ok(Ok(content)) <==>
            exists staged, unstaged :: content == staged + unstaged && AreParts(git, change, limit, staged, unstaged)
  {
    hide PathAccepted;
    assert forall patch: Bytes :: [] + patch == patch && patch + [] == patch;
    var rendered := RenderFile(git, change, limit);
    if rendered == Ok(Ok(content)) {
      var staged := if change.indexStatus.Some? then git(Cached, change.path).stdout else [];
      var unstaged := if change.worktreeStatus.Some? then git(WorkTree, change.path).stdout else [];
      assert AreParts(git, change, limit, staged, unstaged) && content == staged + unstaged;
    }
  }

  // ----- The patches of all files

  ghost predicate MentionsBinary(patch: Bytes) {
    exists line | line in Split(patch, 10) ::
      || line == Ascii("GIT binary patch")
      || (Ascii("Binary files ") <= line && |line| >= 7 && line[|line| - 7..] == Ascii(" differ"))
  }

  ghost predicate Built(path: Bytes) {
    exists piece | piece in Split(path, 47) ::
      exists name | name in [".git", ".next", ".pytest_cache", ".venv", "__pycache__", "build", "coverage", "dist",
                             "node_modules", "target"] :: piece == Ascii(name)
  }

  ghost predicate Readable(patch: Bytes) {
    Utf8.Valid(patch) && !MentionsBinary(patch)
  }

  ghost function Concat(patches: seq<Bytes>): Bytes {
    if patches == [] then [] else patches[0] + Concat(patches[1..])
  }

  /** The lines that start a hunk. */
  ghost function Hunks(content: Bytes): set<int> {
    set i | 0 <= i < |Split(content, 10)| && [64, 64, 32] <= Split(content, 10)[i]
  }

  /** A patch for each file, none of which is built, as there is room. */
  ghost predicate PatchesFit(git: Git, files: seq<FileChange>, before: nat, patches: seq<Bytes>)
    decreases |files|
  {
    if files == [] || patches == [] then files == [] && patches == []
    else
      && !Built(files[0].path) && before < 65536
      && Inside(files[0].path) && IsPatchOf(git, files[0], 65536 - before, patches[0]) && Readable(patches[0])
      && PatchesFit(git, files[1..], before + |patches[0]|, patches[1..])
  }

  lemma BuiltIff(path: Bytes)
    ensures GeneratedPath(path) <==> Built(path)
  {
    hide Split, Ascii;
    assert GENERATED == [".git", ".next", ".pytest_cache", ".venv", "__pycache__", "build", "coverage", "dist",
                         "node_modules", "target"];
  }

  lemma ReadableIff(patch: Bytes)
    ensures Unsupported(patch) <==> !Readable(patch)
  {
    hide Split, Ascii, Utf8.Valid;
    assert |Ascii(" differ")| == 7;
    assert forall line :: EndsWith(line, Ascii(" differ")) <==>
                          |line| >= 7 && line[|line| - 7..] == Ascii(" differ");
  }

  lemma {:induction false} HunkLinesSnoc(lines: seq<Bytes>, last: Bytes)
    ensures HunkLines(lines + [last]) == HunkLines(lines) + if [64, 64, 32] <= last then 1 else 0
  {
    assert Ascii("@@ ") == [64, 64, 32];
    if lines == [] {
      assert [last][1..] == [];
    } else {
      HunkLinesSnoc(lines[1..], last);
      assert (lines + [last])[1..] == lines[1..] + [last];
    }
  }

  ghost function HunksBelow(lines: seq<Bytes>, n: nat): set<int>
    requires n <= |lines|
  {
    set i | 0 <= i < n && [64, 64, 32] <= lines[i]
  }

  lemma {:induction false} HunkLinesAre(lines: seq<Bytes>, n: nat)
    requires n <= |lines|
    ensures HunkLines(lines[..n]) == |HunksBelow(lines, n)|
  {
    if n > 0 {
      HunkLinesAre(lines, n - 1);
      SliceLast(lines, n);
      HunkLinesSnoc(lines[..n - 1], lines[n - 1]);
      var before := HunksBelow(lines, n - 1);
      assert HunksBelow(lines, n) == if [64, 64, 32] <= lines[n - 1] then before + {n - 1} else before;
    } else {
      assert HunksBelow(lines, 0) == {};
    }
  }

  lemma HunksAre(content: Bytes)
    ensures HunkCount(content) == |Hunks(content)|
  {
    hide Split;
    var lines := Split(content, 10);
    HunkLinesAre(lines, |lines|);
    assert lines[..|lines|] == lines;
    assert Hunks(content) == HunksBelow(lines, |lines|);
  }

  lemma ConcatIs(patches: seq<Bytes>, content: Bytes)
    requires patches != []
    ensures content + Concat(patches) == (content + patches[0]) + Concat(patches[1..])
  {
    Associative(content, patches[0], Concat(patches[1..]));
  }

  lemma {:induction false} RenderedArePatches(git: Git, files: seq<FileChange>, content: Bytes, all: Bytes)
    returns (patches: seq<Bytes>)
    requires RenderChanges(git, files, content) == Ok(Ok(all))
    ensures PatchesFit(git, files, |content|, patches) && all == content + Concat(patches)
    ensures HunkCount(all) <= 128
    decreases |files|
  {
    patches := [];
    if files == [] {
      assert content + [] == content;
    } else {
      BuiltIff(files[0].path);
      var room := MAX_GIT_DIFF_CONTEXT_BYTES - |content|;
      hide RenderFile, Unsupported, Built, GeneratedPath, Readable, IsPatchOf, HunkCount, Inside;
      var patch := RenderFile(git, files[0], room).value.value;
      FileIsRenderedAs(git, files[0], room, patch);
      ReadableIff(patch);
      var rest := RenderedArePatches(git, files[1..], content + patch, all);
      patches := [patch] + rest;
      assert patches[1..] == rest;
      ConcatIs(patches, content);
    }
  }

  lemma IsPatchFits(git: Git, change: FileChange, limit: nat, content: Bytes)
    requires IsPatchOf(git, change, limit, content)
    ensures |content| <= limit
  {
  }

  lemma {:induction false} RenderedFirst(git: Git, files: seq<FileChange>, content: Bytes, patch: Bytes)
    requires files != [] && !GeneratedPath(files[0].path) && |content + patch| <= 65536 && |content| < 65536
    requires RenderFile(git, files[0], 65536 - |content|) == Ok(Ok(patch)) && !Unsupported(patch)
    ensures RenderChanges(git, files, content) == RenderChanges(git, files[1..], content + patch)
  {
    hide RenderFile, Unsupported, GeneratedPath, HunkCount;
  }

  lemma RenderedNone(git: Git, none: seq<FileChange>, content: Bytes)
    requires none == [] && HunkCount(content) <= 128
    ensures RenderChanges(git, none, content) == Ok(Ok(content))
  {
    hide HunkCount;
  }

  lemma {:induction false} PatchesAreRendered(git: Git, files: seq<FileChange>, content: Bytes, patches: seq<Bytes>)
    requires PatchesFit(git, files, |content|, patches) && HunkCount(content + Concat(patches)) <= 128
    ensures RenderChanges(git, files, content) == Ok(Ok(content + Concat(patches)))
    decreases |files|
  {
    hide RenderFile, Unsupported, Built, GeneratedPath, Readable, IsPatchOf, HunkCount, Inside, RenderChanges;
    if files == [] {
      assert content + [] == content;
      RenderedNone(git, files, content);
    } else {
      hide Concat;
      BuiltIff(files[0].path);
      var room := 65536 - |content|;
      FileIsRenderedAs(git, files[0], room, patches[0]);
      ReadableIff(patches[0]);
      IsPatchFits(git, files[0], room, patches[0]);
      ConcatIs(patches, content);
      RenderedFirst(git, files, content, patches[0]);
      PatchesAreRendered(git, files[1..], content + patches[0], patches[1..]);
    }
  }

  /** All of a work tree is the patches of its files one after the other. */
  lemma AllAreRenderedAs(git: Git, files: seq<FileChange>, content: Bytes)
    ensures RenderChanges(git, files, []) == Ok(Ok(content)) <==>
            |Hunks(content)| <= 128 && exists patches :: PatchesFit(git, files, 0, patches) && content == Concat(patches)
  {
    HunksAre(content);
    assert forall patches :: [] + Concat(patches) == Concat(patches);
    hide RenderChanges, PatchesFit, Hunks, HunkCount, Concat;
    if RenderChanges(git, files, []) == Ok(Ok(content)) {
      var patches := RenderedArePatches(git, files, [], content);
    }
    if patches :| |Hunks(content)| <= 128 && PatchesFit(git, files, 0, patches) && content == Concat(patches) {
      PatchesAreRendered(git, files, [], patches);
    }
  }

  // ----- What is offered

  /** The candidate offers this content. */
  ghost predicate Offer(candidate: Candidate, path: Option<Bytes>, files: nat, content: Bytes) {
    candidate == Candidate(path, RevisionInput(path, content), files, |Hunks(content)|, |content|, None)
  }

  /** A file is offered exactly if it is not built and its patch is not empty,
      text without a binary part, and within 32 KiB and 64 hunks. */
  lemma {:induction false} FileIsOffered(git: Git, change: FileChange, candidate: Candidate)
    ensures FileCandidate(git, change) == Ok(candidate) && candidate.Enabled() <==>
            !Built(change.path) && Inside(change.path) &&
            exists content ::
              && IsPatchOf(git, change, 32768, content) && content != [] && Readable(content) && |Hunks(content)| <= 64
              && Offer(candidate, Some(change.path), 1, content)
  {
    BuiltIff(change.path);
    forall content
      ensures RenderFile(git, change, 32768) == Ok(Ok(content)) <==>
              Inside(change.path) && IsPatchOf(git, change, 32768, content)
      ensures Unsupported(content) <==> !Readable(content)
      ensures HunkCount(content) == |Hunks(content)|
    {
      FileIsRenderedAs(git, change, 32768, content);
      ReadableIff(content);
      HunksAre(content);
    }
    hide RenderFile, Unsupported, Built, GeneratedPath, Readable, IsPatchOf, HunkCount, Hunks, Inside, RevisionInput;
  }

  /** All files are offered at once exactly if there are at most 32 and their
      patches together are not empty and within 64 KiB and 128 hunks. */
  lemma {:induction false} AllAreOffered(git: Git, files: seq<FileChange>, candidate: Candidate)
    ensures FullCandidate(git, files) == Ok(candidate) && candidate.Enabled() <==>
            |files| <= 32 &&
            exists patches ::
              && PatchesFit(git, files, 0, patches) && Concat(patches) != [] && |Hunks(Concat(patches))| <= 128
              && Offer(candidate, None, |files|, Concat(patches))
  {
    hide RenderChanges, PatchesFit, Concat, HunkCount, Hunks, RevisionInput, StatusIdentity, Offer;
    FullIsOffered(git, files, candidate);
    if content :| RenderedOffer(git, files, content, candidate) {
      AllAreRenderedAs(git, files, content);
    }
    if |files| <= 32 {
      if patches :| PatchesFit(git, files, 0, patches) && Concat(patches) != [] && |Hunks(Concat(patches))| <= 128
                    && Offer(candidate, None, |files|, Concat(patches)) {
        AllAreRenderedAs(git, files, Concat(patches));
        assert RenderedOffer(git, files, Concat(patches), candidate);
      }
    }
  }

  ghost predicate RenderedOffer(git: Git, files: seq<FileChange>, content: Bytes, candidate: Candidate) {
    && RenderChanges(git, files, []) == Ok(Ok(content)) && content != [] && |Hunks(content)| <= 128
    && Offer(candidate, None, |files|, content)
  }

  lemma FullIsOffered(git: Git, files: seq<FileChange>, candidate: Candidate)
    ensures FullCandidate(git, files) == Ok(candidate) && candidate.Enabled() <==>
            |files| <= 32 && exists content :: RenderedOffer(git, files, content, candidate)
  {
    hide RenderChanges, HunkCount, Hunks, RevisionInput, StatusIdentity;
    var rendered := RenderChanges(git, files, []);
    if rendered.Ok? && rendered.value.Ok? {
      var content := rendered.value.value;
      HunksAre(content);
      assert FromContent(None, |files|, content, 128) == candidate && candidate.Enabled() <==>
             RenderedOffer(git, files, content, candidate);
    }
  }

  /** The first candidate is for all files, the rest for the first 128, one each. */
  lemma OneForEach(git: Git, files: seq<FileChange>)
    ensures Candidates(git, files).Ok? ==>
              |Candidates(git, files).value| == 1 + if |files| < 128 then |files| else 128
  {
    if Candidates(git, files).Ok? && files != [] {
      FileCandidateAt(git, Listed(files), 0);
    }
    hide FileCandidates, FullCandidate, Disabled;
  }

  /** What the revision digests tells the path and the content. */
  lemma RevisionTells(a: Option<Bytes>, x: Bytes, b: Option<Bytes>, y: Bytes)
    requires RevisionInput(a, x) == RevisionInput(b, y)
    requires (a.Some? ==> 0 !in a.value && Inside(a.value)) && (b.Some? ==> 0 !in b.value && Inside(b.value))
    ensures a == b && x == y
  {
    var p, q := a.GetOr([46]), b.GetOr([46]);
    assert Ascii(".") == [46];
    assert 0 !in p && 0 !in q;
    SameBefore(p, x, q, y);
    SplitPiece([46], 47);
  }

  lemma SameBefore(p: Bytes, x: Bytes, q: Bytes, y: Bytes)
    requires p + [0] + x == q + [0] + y && 0 !in p && 0 !in q
    ensures p == q && x == y
  {
    var s := p + [0] + x;
    assert s[|p|] == 0 && s[|q|] == 0;
    assert forall i | 0 <= i < |p| :: s[i] == p[i] && p[i] in p;
    assert forall i | 0 <= i < |q| :: s[i] == q[i] && q[i] in q;
    assert p == s[..|p|] && q == s[..|q|];
    assert x == s[|p| + 1..] && y == s[|q| + 1..];
  }
}
