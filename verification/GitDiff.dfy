/** Diff contexts: listing the candidates of a repository, and resolving one to
    its content later. Both read git through the same bounded runs; what git
    prints is a parameter. */
module GitDiff {
  import opened Wrappers
  import opened Bytes
  import opened GitStatus
  import opened WorkspacePaths
  import Utf8

  const MAX_GIT_DIFF_CONTEXT_FILES := 32
  const MAX_GIT_DIFF_CONTEXT_HUNKS := 128
  const MAX_GIT_DIFF_CONTEXT_BYTES := 64 * 1024
  const MAX_GIT_DIFF_FILE_CONTEXT_HUNKS := 64
  const MAX_GIT_DIFF_FILE_CONTEXT_BYTES := 32 * 1024
  const MAX_GIT_DIFF_CANDIDATES := 128

  datatype GitError = InvalidPath(path: Bytes) | Command(message: string) | Io

  // ----- Git as an oracle

  datatype DiffKind = AgainstNull | Cached | WorkTree

  datatype ExitCode = Success | Difference | Failure

  datatype GitRun = NotStarted | Ran(stdout: Bytes, exit: ExitCode)

  type Git = (DiffKind, Bytes) -> GitRun

  datatype BoundedOutput = Complete(bytes: Bytes) | OverLimit(prefix: Bytes)

  /** `blocking_git_output`: over the limit, the run is killed and its status ignored. */
  function RunBounded(run: GitRun, limit: nat, acceptDifference: bool): Result<BoundedOutput, GitError> {
    if run.NotStarted? then Err(Io)
    else if |run.stdout| > limit then Ok(OverLimit(run.stdout[..limit]))
    else if run.exit == Success || (acceptDifference && run.exit == Difference) then Ok(Complete(run.stdout))
    else Err(Command("git diff exited"))
  }

  // ----- Lines, paths, candidates

  predicate StartsWith(s: Bytes, prefix: Bytes) {
    prefix <= s
  }

  predicate EndsWith(s: Bytes, suffix: Bytes) {
    |suffix| <= |s| && s[|s| - |suffix|..] == suffix
  }

  predicate BinaryMarker(content: Bytes) {
    exists line | line in Split(content, LF) ::
      || line == Ascii("GIT binary patch")
      || (StartsWith(line, Ascii("Binary files ")) && EndsWith(line, Ascii(" differ")))
  }

  function HunkCount(content: Bytes): nat {
    HunkLines(Split(content, LF))
  }

  function HunkLines(lines: seq<Bytes>): nat {
    if lines == [] then 0
    else (if StartsWith(lines[0], Ascii("@@ ")) then 1 else 0) + HunkLines(lines[1..])
  }

  /** Relative, and without a component that leads elsewhere. */
  predicate PathAccepted(path: Bytes) {
    path != [] && path[0] != SLASH && Split(path, SLASH)[0] != Ascii(".")
    && Ascii("..") !in Split(path, SLASH)
  }

  /** The revision is a digest of these bytes. */
  function RevisionInput(path: Option<Bytes>, content: Bytes): Bytes {
    path.GetOr(Ascii(".")) + [NUL] + content
  }

  datatype Candidate = Candidate(
    path: Option<Bytes>, revision: Bytes, fileCount: nat, hunkCount: nat, byteCount: nat,
    disabledReason: Option<string>)
  {
    predicate Enabled() {
      disabledReason.None?
    }
  }

  function Disabled(path: Option<Bytes>, reason: string, identity: Bytes): Candidate {
    Candidate(path, RevisionInput(path, Ascii(reason) + identity), 0, 0, 0, Some(reason))
  }

  function FromContent(path: Option<Bytes>, fileCount: nat, content: Bytes, maxHunks: nat): Candidate {
    if content == [] then Disabled(path, "git_diff_empty", content)
    else if HunkCount(content) > maxHunks then Disabled(path, "git_diff_too_many_hunks", content)
    else Candidate(path, RevisionInput(path, content), fileCount, HunkCount(content), |content|, None)
  }

  function StatusIdentity(files: seq<FileChange>): Bytes {
    if files == [] then []
    else
      var f := files[0];
      [f.indexStatus.GetOr(SPACE), 58, f.worktreeStatus.GetOr(SPACE), 58]
      + Ascii(if f.conflict then "true" else "false") + [58] + f.originalPath.GetOr([]) + [58] + f.path
      + (if |files| > 1 then [LF] + StatusIdentity(files[1..]) else [])
  }

  // ----- Rendering

  /** A patch, or why there is none; git failing is an error of its own. */
  type Rendered = Result<Result<Bytes, string>, GitError>

  predicate IsUntracked(change: FileChange) {
    change.indexStatus == Some(63) && change.worktreeStatus == Some(63)
  }

  function AppendBounded(git: Git, kind: DiffKind, path: Bytes, limit: nat, content: Bytes): Rendered {
    match RunBounded(git(kind, path), limit, kind == AgainstNull)
    case Err(error) => Err(error)
    case Ok(Complete(patch)) => Ok(Ok(content + patch))
    case Ok(OverLimit(_)) => Ok(Err("git_diff_too_large"))
  }

  function RenderFile(git: Git, change: FileChange, limit: nat): Rendered {
    if !PathAccepted(change.path) then Err(InvalidPath(change.path))
    else if IsUntracked(change) then AppendBounded(git, AgainstNull, change.path, limit, [])
    else
      var staged := if change.indexStatus.Some? then AppendBounded(git, Cached, change.path, limit, [])
                    else Ok(Ok([]));
      if staged.Err? || staged.value.Err? || change.worktreeStatus.None? then staged
      else
        var content := staged.value.value;
        if |content| >= limit then Ok(Err("git_diff_too_large"))
        else AppendBounded(git, WorkTree, change.path, limit - |content|, content)
  }

  predicate Unsupported(patch: Bytes) {
    BinaryMarker(patch) || !Utf8.Valid(patch)
  }

  function RenderChanges(git: Git, changes: seq<FileChange>, content: Bytes): Rendered
    decreases |changes|
  {
    if changes == [] then
      if HunkCount(content) > MAX_GIT_DIFF_CONTEXT_HUNKS then Ok(Err("git_diff_too_many_hunks"))
      else Ok(Ok(content))
    else if GeneratedPath(changes[0].path) then Ok(Err("git_diff_contains_unsupported"))
    else if |content| >= MAX_GIT_DIFF_CONTEXT_BYTES then Ok(Err("git_diff_too_large"))
    else
      match RenderFile(git, changes[0], MAX_GIT_DIFF_CONTEXT_BYTES - |content|)
      case Err(error) => Err(error)
      case Ok(Err(reason)) => Ok(Err(reason))
      case Ok(Ok(patch)) =>
        if Unsupported(patch) then Ok(Err("git_diff_contains_unsupported"))
        else if |content + patch| > MAX_GIT_DIFF_CONTEXT_BYTES then Ok(Err("git_diff_too_large"))
        else RenderChanges(git, changes[1..], content + patch)
  }

  method RenderFileDiff(git: Git, change: FileChange, limit: nat) returns (r: Rendered)
    ensures r == RenderFile(git, change, limit)
  {
    if !PathAccepted(change.path) {
      return Err(InvalidPath(change.path));
    }
    if IsUntracked(change) {
      return AppendBounded(git, AgainstNull, change.path, limit, []);
    }
    var content := [];
    if change.indexStatus.Some? {
      r := AppendBounded(git, Cached, change.path, limit, content);
      if r.Err? || r.value.Err? {
        return;
      }
      content := r.value.value;
    }
    if change.worktreeStatus.Some? {
      if |content| >= limit {
        return Ok(Err("git_diff_too_large"));
      }
      r := AppendBounded(git, WorkTree, change.path, limit - |content|, content);
      if r.Err? || r.value.Err? {
        return;
      }
      content := r.value.value;
    }
    return Ok(Ok(content));
  }

  method RenderFullDiff(git: Git, changes: seq<FileChange>) returns (r: Rendered)
    ensures r == RenderChanges(git, changes, [])
  {
    var content: Bytes := [];
    for i := 0 to |changes|
      invariant RenderChanges(git, changes, []) == RenderChanges(git, changes[i..], content)
    {
      if GeneratedPath(changes[i].path) {
        return Ok(Err("git_diff_contains_unsupported"));
      }
      if |content| >= MAX_GIT_DIFF_CONTEXT_BYTES {
        return Ok(Err("git_diff_too_large"));
      }
      r := RenderFileDiff(git, changes[i], MAX_GIT_DIFF_CONTEXT_BYTES - |content|);
      if r.Err? || r.value.Err? {
        return;
      }
      var patch := r.value.value;
      if Unsupported(patch) {
        return Ok(Err("git_diff_contains_unsupported"));
      }
      content := content + patch;
      if |content| > MAX_GIT_DIFF_CONTEXT_BYTES {
        return Ok(Err("git_diff_too_large"));
      }
    }
    if HunkCount(content) > MAX_GIT_DIFF_CONTEXT_HUNKS {
      return Ok(Err("git_diff_too_many_hunks"));
    }
    return Ok(Ok(content));
  }

  // ----- Listing

  function FileCandidate(git: Git, change: FileChange): Result<Candidate, GitError> {
    if GeneratedPath(change.path) then
      Ok(Disabled(Some(change.path), "git_diff_generated", change.path))
    else
      match RenderFile(git, change, MAX_GIT_DIFF_FILE_CONTEXT_BYTES)
      case Err(error) => Err(error)
      case Ok(Err(reason)) => Ok(Disabled(Some(change.path), reason, change.path))
      case Ok(Ok(content)) =>
        if Unsupported(content) then Ok(Disabled(Some(change.path), "git_diff_binary", content))
        else Ok(FromContent(Some(change.path), 1, content, MAX_GIT_DIFF_FILE_CONTEXT_HUNKS))
  }

  function FileCandidates(git: Git, changes: seq<FileChange>): Result<seq<Candidate>, GitError> {
    if changes == [] then Ok([])
    else
      var last := |changes| - 1;
      match FileCandidates(git, changes[..last])
      case Err(error) => Err(error)
      case Ok(before) =>
        match FileCandidate(git, changes[last])
        case Err(error) => Err(error)
        case Ok(candidate) => Ok(before + [candidate])
  }

  function FullCandidate(git: Git, files: seq<FileChange>): Result<Candidate, GitError> {
    if |files| > MAX_GIT_DIFF_CONTEXT_FILES then
      Ok(Disabled(None, "git_diff_too_many_files", StatusIdentity(files)))
    else
      match RenderChanges(git, files, [])
      case Err(error) => Err(error)
      case Ok(Err(reason)) => Ok(Disabled(None, reason, StatusIdentity(files)))
      case Ok(Ok(content)) => Ok(FromContent(None, |files|, content, MAX_GIT_DIFF_CONTEXT_HUNKS))
  }

  function Listed(files: seq<FileChange>): seq<FileChange> {
    if |files| > MAX_GIT_DIFF_CANDIDATES then files[..MAX_GIT_DIFF_CANDIDATES] else files
  }

  function Candidates(git: Git, files: seq<FileChange>): Result<seq<Candidate>, GitError> {
    if files == [] then Ok([Disabled(None, "git_diff_empty", [])])
    else
      match FileCandidates(git, Listed(files))
      case Err(error) => Err(error)
      case Ok(each) =>
        match FullCandidate(git, files)
        case Err(error) => Err(error)
        case Ok(full) => Ok([full] + each)
  }

  method BuildDiffCandidates(git: Git, files: seq<FileChange>) returns (r: Result<seq<Candidate>, GitError>)
    ensures r == Candidates(git, files)
  {
    hide RenderFile, RenderChanges, FromContent, Disabled, StatusIdentity, FileCandidate;
    if files == [] {
      return Ok([Disabled(None, "git_diff_empty", [])]);
    }
    var each: seq<Candidate> := [];
    var listed := Listed(files);
    for i := 0 to |listed|
      invariant FileCandidates(git, listed[..i]) == Ok(each)
    {
      assert listed[..i + 1][..i] == listed[..i];
      var candidate := FileCandidate(git, listed[i]);
      if candidate.Err? {
        FirstErrorDecides(git, listed, i + 1, candidate.error);
        return Err(candidate.error);
      }
      each := each + [candidate.value];
    }
    assert listed[..|listed|] == listed;
    var full: Candidate;
    if |files| > MAX_GIT_DIFF_CONTEXT_FILES {
      full := Disabled(None, "git_diff_too_many_files", StatusIdentity(files));
    } else {
      var rendered := RenderFullDiff(git, files);
      match rendered {
        case Err(error) => return Err(error);
        case Ok(Err(reason)) => full := Disabled(None, reason, StatusIdentity(files));
        case Ok(Ok(content)) => full := FromContent(None, |files|, content, MAX_GIT_DIFF_CONTEXT_HUNKS);
      }
    }
    return Ok([full] + each);
  }

  lemma {:induction false} FirstErrorDecides(git: Git, changes: seq<FileChange>, i: nat, error: GitError)
    requires i <= |changes| && FileCandidates(git, changes[..i]) == Err(error)
    ensures FileCandidates(git, changes) == Err(error)
    decreases |changes| - i
  {
    hide FileCandidate;
    if i == |changes| {
      assert changes[..i] == changes;
    } else {
      assert changes[..i + 1][..i] == changes[..i];
      FirstErrorDecides(git, changes, i + 1, error);
    }
  }

  // ----- Resolving

  function FindChange(files: seq<FileChange>, path: Bytes): Option<FileChange> {
    if files == [] then None
    else if files[0].path == path then Some(files[0])
    else FindChange(files[1..], path)
  }

  function Resolve(git: Git, files: seq<FileChange>, path: Option<Bytes>)
    : Result<(Candidate, Bytes), GitError>
  {
    if files == [] then Err(Command("git_diff_empty"))
    else
      var found := match path case None => None case Some(p) => FindChange(files, p);
      if path.Some? && found.None? then Err(InvalidPath(path.value))
      else if path.Some? && GeneratedPath(found.value.path) then Err(Command("git_diff_generated"))
      else if path.None? && |files| > MAX_GIT_DIFF_CONTEXT_FILES then Err(Command("git_diff_too_many_files"))
      else
        var rendered := if path.Some? then RenderFile(git, found.value, MAX_GIT_DIFF_FILE_CONTEXT_BYTES)
                        else RenderChanges(git, files, []);
        match rendered
        case Err(error) => Err(error)
        case Ok(Err(reason)) => Err(Command(reason))
        case Ok(Ok(content)) =>
          if path.Some? && Unsupported(content) then Err(Command("git_diff_binary"))
          else
            var candidate :=
              if path.Some? then FromContent(Some(found.value.path), 1, content, MAX_GIT_DIFF_FILE_CONTEXT_HUNKS)
              else FromContent(None, |files|, content, MAX_GIT_DIFF_CONTEXT_HUNKS);
            if candidate.disabledReason.Some? then Err(Command(candidate.disabledReason.value))
            else Ok((candidate, content))
  }

  // ----- Listing and resolving agree

  predicate DistinctPaths(files: seq<FileChange>) {
    forall i, j | 0 <= i < j < |files| :: files[i].path != files[j].path
  }

  lemma {:induction false} FindsItself(files: seq<FileChange>, i: nat)
    requires DistinctPaths(files) && i < |files|
    ensures FindChange(files, files[i].path) == Some(files[i])
  {
    if i > 0 {
      FindsItself(files[1..], i - 1);
    }
  }

  lemma {:induction false} FileCandidateAt(git: Git, changes: seq<FileChange>, i: nat)
    requires FileCandidates(git, changes).Ok?
    ensures |FileCandidates(git, changes).value| == |changes|
    ensures i < |changes| ==> FileCandidate(git, changes[i]) == Ok(FileCandidates(git, changes).value[i])
  {
    hide FileCandidate;
    if changes != [] {
      FileCandidateAt(git, changes[..|changes| - 1], if i < |changes| - 1 then i else 0);
    }
  }

  /** The candidate stands for exactly what resolving gives, or says why not. */
  predicate Agree(candidate: Candidate, resolved: Result<(Candidate, Bytes), GitError>) {
    && (candidate.Enabled() <==> resolved.Ok?)
    && (resolved.Ok? ==> resolved.value.0 == candidate)
    && (candidate.disabledReason.Some? ==> resolved == Err(Command(candidate.disabledReason.value)))
  }

  /** For one state of the repository, a listed candidate, of one file or of all,
      is enabled exactly if resolving it succeeds, and then with the same
      candidate and revision; otherwise it fails for the reason listed. */
  lemma ListingAndResolvingAgree(git: Git, files: seq<FileChange>)
    requires DistinctPaths(files)
    ensures Candidates(git, files).Ok? ==>
              var list := Candidates(git, files).value;
              |list| == 1 + |Listed(files)| && list[0].path == None
              && Agree(list[0], Resolve(git, files, None))
              && forall i | 0 <= i < |Listed(files)| ::
                   list[i + 1].path == Some(files[i].path)
                   && Agree(list[i + 1], Resolve(git, files, Some(files[i].path)))
  {
    if Candidates(git, files).Ok? {
      ListedAgree(git, files);
    }
  }

  lemma ListedAgree(git: Git, files: seq<FileChange>)
    requires DistinctPaths(files) && Candidates(git, files).Ok?
    ensures var list := Candidates(git, files).value;
            |list| == 1 + |Listed(files)| && list[0].path == None
            && Agree(list[0], Resolve(git, files, None))
            && forall i | 0 <= i < |Listed(files)| ::
                 list[i + 1].path == Some(files[i].path)
                 && Agree(list[i + 1], Resolve(git, files, Some(files[i].path)))
  {
    hide FileCandidate, FileCandidates, FullCandidate, Disabled, Agree, Resolve;
    var list := Candidates(git, files).value;
    if files == [] {
      NothingAgrees(git, files, Disabled(None, "git_diff_empty", []));
    } else {
      FileCandidateAt(git, Listed(files), 0);
      forall i | 0 <= i < |Listed(files)|
        ensures list[i + 1].path == Some(files[i].path)
        ensures Agree(list[i + 1], Resolve(git, files, Some(files[i].path)))
      {
        FileCandidateAt(git, Listed(files), i);
        FindsItself(files, i);
        OneFileAgrees(git, files, i, list[i + 1]);
      }
      FullAgrees(git, files, list[0]);
    }
  }

  lemma OneFileAgrees(git: Git, files: seq<FileChange>, i: nat, candidate: Candidate)
    requires i < |files| && FindChange(files, files[i].path) == Some(files[i])
    requires FileCandidate(git, files[i]) == Ok(candidate)
    ensures candidate.path == Some(files[i].path)
    ensures Agree(candidate, Resolve(git, files, Some(files[i].path)))
  {
    hide FindChange, RenderFile, RenderChanges, HunkCount, Unsupported, GeneratedPath, RevisionInput, Ascii;
  }

  lemma NothingAgrees(git: Git, files: seq<FileChange>, candidate: Candidate)
    requires files == [] && candidate == Disabled(None, "git_diff_empty", [])
    ensures candidate.path == None && Agree(candidate, Resolve(git, files, None))
  {
    hide RevisionInput, Ascii;
  }

  lemma FullAgrees(git: Git, files: seq<FileChange>, candidate: Candidate)
    requires files != [] && FullCandidate(git, files) == Ok(candidate)
    ensures candidate.path == None && Agree(candidate, Resolve(git, files, None))
  {
    hide RenderChanges, HunkCount, BinaryMarker, GeneratedPath, Ascii, Utf8.Valid;
  }

  /** Only changed files can be resolved. */
  lemma {:induction false} FindsNothing(files: seq<FileChange>, path: Bytes)
    ensures FindChange(files, path) == None <==> forall change | change in files :: change.path != path
  {
    if files != [] {
      FindsNothing(files[1..], path);
      WithoutFirst(files);
    }
  }

  lemma OthersAreInvalid(git: Git, files: seq<FileChange>, path: Bytes)
    requires files != []
    ensures Resolve(git, files, Some(path)) == Err(InvalidPath(path)) <==>
            (forall change | change in files :: change.path != path)
            || (!GeneratedPath(path) && !PathAccepted(path))
  {
    FindsNothing(files, path);
    FoundHasPath(files, path);
    hide FindChange, PathAccepted, GeneratedPath, HunkCount, Unsupported, RevisionInput;
  }

  /** A rendered file stays within its limit. */
  lemma RenderFileWithin(git: Git, change: FileChange, limit: nat)
    ensures var r := RenderFile(git, change, limit);
            r.Ok? && r.value.Ok? ==> |r.value.value| <= limit
  {
    hide PathAccepted, Ascii;
  }

  lemma {:induction false} RenderChangesWithin(git: Git, changes: seq<FileChange>, content: Bytes)
    requires |content| <= MAX_GIT_DIFF_CONTEXT_BYTES && Utf8.Valid(content)
    ensures var r := RenderChanges(git, changes, content);
            r.Ok? && r.value.Ok? ==>
              |r.value.value| <= MAX_GIT_DIFF_CONTEXT_BYTES && Utf8.Valid(r.value.value)
              && HunkCount(r.value.value) <= MAX_GIT_DIFF_CONTEXT_HUNKS
    decreases |changes|
  {
    if changes != [] {
      var rendered := RenderFile(git, changes[0], if |content| < MAX_GIT_DIFF_CONTEXT_BYTES
                                                  then MAX_GIT_DIFF_CONTEXT_BYTES - |content| else 0);
      hide RenderFile, HunkCount, BinaryMarker, GeneratedPath, Utf8.Valid;
      if rendered.Ok? && rendered.value.Ok? {
        var patch := rendered.value.value;
        if Utf8.Valid(patch) {
          Utf8.ValidConcat(content, patch);
        }
        if |content + patch| <= MAX_GIT_DIFF_CONTEXT_BYTES && Utf8.Valid(patch) {
          RenderChangesWithin(git, changes[1..], content + patch);
        }
      }
    }
  }

  /** What resolving hands out is text within its byte and hunk limits, and its
      candidate describes exactly that text. */
  lemma ResolvedContentIsBounded(git: Git, files: seq<FileChange>, path: Option<Bytes>)
    requires Resolve(git, files, path).Ok?
    ensures var (candidate, content) := Resolve(git, files, path).value;
            && content != [] && Utf8.Valid(content)
            && |content| <= (if path.Some? then MAX_GIT_DIFF_FILE_CONTEXT_BYTES else MAX_GIT_DIFF_CONTEXT_BYTES)
            && HunkCount(content) <= (if path.Some? then MAX_GIT_DIFF_FILE_CONTEXT_HUNKS
                                      else MAX_GIT_DIFF_CONTEXT_HUNKS)
            && candidate == Candidate(path, RevisionInput(path, content),
                                      if path.Some? then 1 else |files|, HunkCount(content), |content|, None)
  {
    if path.Some? {
      FoundHasPath(files, path.value);
      RenderFileWithin(git, FindChange(files, path.value).value, MAX_GIT_DIFF_FILE_CONTEXT_BYTES);
      hide RenderFile, HunkCount, BinaryMarker, GeneratedPath, Ascii, Utf8.Valid;
    } else {
      RenderChangesWithin(git, files, []);
      hide RenderChanges, HunkCount, BinaryMarker, GeneratedPath, Ascii, Utf8.Valid;
    }
  }

  lemma {:induction false} FoundHasPath(files: seq<FileChange>, path: Bytes)
    ensures FindChange(files, path).Some? ==> FindChange(files, path).value.path == path
  {
    if files != [] {
      FoundHasPath(files[1..], path);
    }
  }
}
