/** What the ids of catalog items and contexts are digests of. */
module OpaqueIds {
  import opened Bytes
  import opened Digests
  import opened WorkspacePaths
  import opened ComposerAgreement
  import opened ComposerCatalog
  import opened Text

  // ----- Items

  function ItemKindKey(kind: ItemKind): Bytes {
    match kind
    case Command => Ascii("command")
    case Skill => Ascii("skill")
    case PluginAction => Ascii("plugin_action")
    case ProviderApp => Ascii("provider_app")
  }

  function AgentKey(agent: AgentId): Bytes {
    match agent
    case ClaudeCode => Ascii("claude_code")
    case Codex => Ascii("codex")
    case OpenCode => Ascii("opencode")
  }

  function SourceKindKey(kind: SourceKind): Bytes {
    match kind
    case StandardAcp => Ascii("standard-acp")
    case TrustedAdapter => Ascii("trusted-adapter")
  }

  function ItemParts(key: ItemKey): seq<Bytes> {
    [ItemKindKey(key.kind), SourceKindKey(key.sourceKind), Encode(key.owner.projectId),
     Encode(key.owner.conversationId), AgentKey(key.owner.agent), Encode(key.identity)]
  }

  function ItemPreimage(key: ItemKey): Bytes {
    Ascii("kubecode-composer-item-v1") + [NUL] + Parts(ItemParts(key))
  }

  method OpaqueItemPreimage(key: ItemKey) returns (fed: Bytes)
    ensures fed == ItemPreimage(key)
  {
    hide Ascii;
    fed := FeedParts(Ascii("kubecode-composer-item-v1") + [NUL], ItemParts(key));
  }

  function ItemKindLength(kind: ItemKind): nat {
    match kind case Command => 7 case Skill => 5 case PluginAction => 13 case ProviderApp => 12
  }

  lemma ItemKindKeyShape(kind: ItemKind)
    ensures |ItemKindKey(kind)| == ItemKindLength(kind)
  {
    hide Ascii;
  }

  lemma ItemKindKeyInjective(a: ItemKind, b: ItemKind)
    ensures ItemKindKey(a) == ItemKindKey(b) ==> a == b
  {
    hide ItemKindKey;
    ItemKindKeyShape(a);
    ItemKindKeyShape(b);
  }

  lemma KeysInjective(a: ItemKey, b: ItemKey)
    ensures SourceKindKey(a.sourceKind) == SourceKindKey(b.sourceKind) ==> a.sourceKind == b.sourceKind
    ensures AgentKey(a.owner.agent) == AgentKey(b.owner.agent) ==> a.owner.agent == b.owner.agent
  {
    assert |SourceKindKey(StandardAcp)| == 12 && |SourceKindKey(TrustedAdapter)| == 15;
    assert |AgentKey(ClaudeCode)| == 11 && |AgentKey(Codex)| == 5 && |AgentKey(OpenCode)| == 8;
    hide Ascii;
  }

  lemma ItemPartsFit(key: ItemKey)
    ensures AllFit(ItemParts(key))
  {
    ItemKindKeyShape(key.kind);
    hide Ascii, Encode, ItemKindKey;
    assert |SourceKindKey(key.sourceKind)| <= 15 && |AgentKey(key.owner.agent)| <= 11;
  }

  /** The bytes an item id is a digest of determine all six parts of its key. */
  lemma ItemPreimageInjective(a: ItemKey, b: ItemKey)
    ensures ItemPreimage(a) == ItemPreimage(b) ==> a == b
  {
    hide Ascii, ItemKindKey, AgentKey, SourceKindKey, Fits, Parts, Encode;
    var tag := Ascii("kubecode-composer-item-v1") + [NUL];
    assert ItemPreimage(a)[|tag|..] == Parts(ItemParts(a)) && ItemPreimage(b)[|tag|..] == Parts(ItemParts(b));
    ItemPartsFit(a);
    ItemPartsFit(b);
    if ItemPreimage(a) == ItemPreimage(b) {
      var x, y := ItemParts(a), ItemParts(b);
      PartsInjective(x, y);
      assert x[0] == y[0] && x[1] == y[1] && x[2] == y[2] && x[3] == y[3] && x[4] == y[4] && x[5] == y[5];
      ItemKindKeyInjective(a.kind, b.kind);
      KeysInjective(a, b);
      EncodeInjective(a.owner.projectId, b.owner.projectId);
      EncodeInjective(a.owner.conversationId, b.owner.conversationId);
      EncodeInjective(a.identity, b.identity);
    }
  }

  function ItemIdPrefix(kind: ItemKind): string {
    match kind
    case Command => "cmd:"
    case Skill | ProviderApp => "cap:"
    case PluginAction => "plugin:"
  }

  function ItemId(digest: Bytes -> string, key: ItemKey): string {
    ItemIdPrefix(key.kind) + digest(ItemPreimage(key))
  }

  /** An id begins with what kind of item it is of. */
  lemma PrefixTells(digest: Bytes -> string, key: ItemKey)
    ensures var id := ItemId(digest, key);
            && ("cmd:" <= id <==> key.kind == Command)
            && ("cap:" <= id <==> key.kind == Skill || key.kind == ProviderApp)
            && ("plugin:" <= id <==> key.kind == PluginAction)
  {
    hide ItemPreimage;
    var id := ItemId(digest, key);
    assert id[0] == ItemIdPrefix(key.kind)[0] && id[1] == ItemIdPrefix(key.kind)[1];
    assert ItemIdPrefix(key.kind) <= id;
  }

  /** No two keys have preimages with the same digest. */
  ghost predicate CollisionFree(digest: Bytes -> string) {
    forall a: ItemKey, b: ItemKey ::
      digest(ItemPreimage(a)) == digest(ItemPreimage(b)) ==> ItemPreimage(a) == ItemPreimage(b)
  }

  lemma SamePrefix(a: ItemKind, b: ItemKind, x: string, y: string)
    requires ItemIdPrefix(a) + x == ItemIdPrefix(b) + y
    ensures ItemIdPrefix(a) == ItemIdPrefix(b) && x == y
  {
    var s, t := ItemIdPrefix(a), ItemIdPrefix(b);
    assert (s + x)[0] == s[0] && (t + y)[0] == t[0];
    assert (s + x)[1] == s[1] && (t + y)[1] == t[1];
    assert (s + x)[|s|..] == x && (t + y)[|t|..] == y;
  }

  /** What the catalog assumes of its ids holds of these, if the digest does not
      collide. */
  lemma ItemIdsInjective(digest: Bytes -> string)
    requires CollisionFree(digest)
    ensures Injective(key => ItemId(digest, key))
  {
    var ids := (key: ItemKey) => ItemId(digest, key);
    hide ItemPreimage, ItemIdPrefix;
    forall a, b | ids(a) == ids(b)
      ensures a == b
    {
      SamePrefix(a.kind, b.kind, digest(ItemPreimage(a)), digest(ItemPreimage(b)));
      ItemPreimageInjective(a, b);
    }
  }

  // ----- Contexts

  datatype ContextKind = File | Directory | GitDiff | Terminal | SessionTurn | ProjectContext | Diagnostics

  function ContextKindKey(kind: ContextKind): Bytes {
    match kind
    case File => Ascii("file")
    case Directory => Ascii("directory")
    case GitDiff => Ascii("git_diff")
    case Terminal => Ascii("terminal")
    case SessionTurn => Ascii("session_turn")
    case ProjectContext => Ascii("project_context")
    case Diagnostics => Ascii("diagnostics")
  }

  /** What of a project a context stands for: a path, or a selector at a revision. */
  datatype Subject = Plain(path: Bytes) | Revised(selector: Bytes, revision: Bytes)

  datatype ContextIdentity = ContextIdentity(
    projectId: Bytes, conversationId: Bytes, kind: ContextKind, subject: Subject)

  /** The one part a subject makes up. */
  function Source(subject: Subject): Bytes {
    match subject
    case Plain(path) => path
    case Revised(selector, revision) => selector + [NUL] + revision
  }

  const REVISION_BYTES := 64

  /** The contexts that are ever registered: files and directories by their path,
      the others at a digest in hexadecimal. */
  predicate Registered(context: ContextIdentity) {
    match context.kind
    case File | Directory => context.subject.Plain?
    case GitDiff | Terminal | SessionTurn | ProjectContext =>
      context.subject.Revised? && |context.subject.revision| == REVISION_BYTES
    case Diagnostics => false
  }

  predicate ContextFits(context: ContextIdentity) {
    Fits(context.projectId) && Fits(context.conversationId) && Fits(Source(context.subject))
  }

  function ContextParts(context: ContextIdentity): seq<Bytes> {
    [context.projectId, context.conversationId, ContextKindKey(context.kind), Source(context.subject)]
  }

  function ContextPreimage(context: ContextIdentity): Bytes {
    Ascii("kubecode-composer-context-v1") + [NUL] + Parts(ContextParts(context))
  }

  method OpaqueContextPreimage(projectId: Bytes, conversationId: Bytes, kind: ContextKind, path: Bytes)
    returns (fed: Bytes)
    ensures fed == ContextPreimage(ContextIdentity(projectId, conversationId, kind, Plain(path)))
  {
    hide Ascii;
    fed := FeedParts(Ascii("kubecode-composer-context-v1") + [NUL],
                     [projectId, conversationId, ContextKindKey(kind), path]);
  }

  /** The wrappers for contexts with a revision. */
  method OpaqueRevisedPreimage(projectId: Bytes, conversationId: Bytes, kind: ContextKind, selector: Bytes,
                               revision: Bytes) returns (fed: Bytes)
    ensures fed == ContextPreimage(ContextIdentity(projectId, conversationId, kind, Revised(selector, revision)))
  {
    hide Ascii, Parts;
    fed := OpaqueContextPreimage(projectId, conversationId, kind, selector + [NUL] + revision);
  }

  function ContextKindLength(kind: ContextKind): nat {
    match kind
    case File => 4 case Directory => 9 case GitDiff => 8 case Terminal => 8
    case SessionTurn => 12 case ProjectContext => 15 case Diagnostics => 11
  }

  lemma ContextKindKeyShape(kind: ContextKind)
    ensures |ContextKindKey(kind)| == ContextKindLength(kind)
  {
    hide Ascii;
  }

  lemma SameLengthKeys()
    ensures ContextKindKey(GitDiff) != ContextKindKey(Terminal)
  {
    assert "git_diff"[0] != "terminal"[0];
    assert Ascii("git_diff")[0] != Ascii("terminal")[0];
  }

  lemma ContextKindKeyInjective(a: ContextKind, b: ContextKind)
    ensures Fits(ContextKindKey(a))
    ensures ContextKindKey(a) == ContextKindKey(b) ==> a == b
  {
    SameLengthKeys();
    hide ContextKindKey;
    ContextKindKeyShape(a);
    ContextKindKeyShape(b);
  }

  lemma ContextSources(a: ContextIdentity, b: ContextIdentity)
    requires ContextFits(a) && ContextFits(b) && ContextPreimage(a) == ContextPreimage(b)
    ensures a.projectId == b.projectId && a.conversationId == b.conversationId && a.kind == b.kind
    ensures Source(a.subject) == Source(b.subject)
  {
    hide Ascii, ContextKindKey, Fits, Parts, Source;
    var tag := Ascii("kubecode-composer-context-v1") + [NUL];
    assert ContextPreimage(a)[|tag|..] == Parts(ContextParts(a));
    assert ContextPreimage(b)[|tag|..] == Parts(ContextParts(b));
    ContextKindKeyInjective(a.kind, b.kind);
    ContextKindKeyInjective(b.kind, a.kind);
    var x, y := ContextParts(a), ContextParts(b);
    PartsInjective(x, y);
    assert x[0] == y[0] && x[1] == y[1] && x[2] == y[2] && x[3] == y[3];
  }

  /** The bytes the id of a registered context is a digest of determine project,
      conversation, kind and path, or selector and revision: the revision has its
      own length, whatever the selector holds. */
  lemma RegisteredPreimageInjective(a: ContextIdentity, b: ContextIdentity)
    requires Registered(a) && Registered(b) && ContextFits(a) && ContextFits(b)
    ensures ContextPreimage(a) == ContextPreimage(b) ==> a == b
  {
    if ContextPreimage(a) == ContextPreimage(b) {
      ContextSources(a, b);
      hide ContextPreimage, Fits;
      if a.subject.Revised? {
        CutsAlike(a.subject.selector, a.subject.revision, b.subject.selector, b.subject.revision);
      }
    }
  }

  /** Of the encoding alone: selectors without a NUL are told apart from their
      revisions, however long these are. */
  lemma RevisedPreimageInjective(a: ContextIdentity, b: ContextIdentity)
    requires ContextFits(a) && ContextFits(b) && a.subject.Revised? && b.subject.Revised?
    requires NUL !in a.subject.selector && NUL !in b.subject.selector
    ensures ContextPreimage(a) == ContextPreimage(b) ==> a == b
  {
    if ContextPreimage(a) == ContextPreimage(b) {
      ContextSources(a, b);
      var (x, y) := (a.subject, b.subject);
      hide ContextPreimage, Fits;
      NulIsNotIn(x.selector, x.revision, |y.selector|);
      NulIsNotIn(y.selector, y.revision, |x.selector|);
      CutsAlike(x.selector, x.revision, y.selector, y.revision);
    }
  }

  lemma NulIsNotIn(s: Bytes, r: Bytes, i: nat)
    requires i < |s| + 1 + |r| && (s + [NUL] + r)[i] == NUL && NUL !in s
    ensures |s| <= i
    ensures NUL !in r ==> i == |s|
  {
    ElementIn(s, NUL, r, i);
  }

  lemma ElementIn(s: Bytes, sep: byte, r: Bytes, i: nat)
    requires i < |s| + 1 + |r|
    ensures i < |s| ==> (s + [sep] + r)[i] in s
    ensures i > |s| ==> (s + [sep] + r)[i] in r
  {
  }

  lemma CutsAlike(s: Bytes, r: Bytes, t: Bytes, q: Bytes)
    requires s + [NUL] + r == t + [NUL] + q
    requires |s| == |t| || |r| == |q|
    ensures s == t && r == q
  {
    var whole := s + [NUL] + r;
    assert |whole| == |t| + 1 + |q|;
    assert whole[..|s|] == s && whole[..|t|] == t;
    assert whole[|s| + 1..] == r && whole[|t| + 1..] == q;
  }

  ghost predicate Shares(a: ContextIdentity, b: ContextIdentity) {
    b != a && b.subject.Revised? && ContextFits(b) && ContextPreimage(b) == ContextPreimage(a)
  }

  /** Selector and revision may be cut at any NUL of the part they make up. */
  lemma CutElsewhere(a: ContextIdentity, i: nat) returns (b: ContextIdentity)
    requires ContextFits(a) && a.subject.Revised? && i < |Source(a.subject)| && Source(a.subject)[i] == NUL
    requires i != |a.subject.selector|
    ensures Shares(a, b)
  {
    hide Fits;
    var whole := Source(a.subject);
    b := a.(subject := Revised(whole[..i], whole[i + 1..]));
    assert Source(b.subject) == whole;
    assert |b.subject.selector| != |a.subject.selector|;
    hide Source, Parts;
    assert ContextParts(a) == ContextParts(b);
  }

  /** Were revisions of any length registered, a selector and revision would share
      their bytes with others exactly if one of them had a NUL. */
  lemma SharedIffNul(a: ContextIdentity)
    requires ContextFits(a) && a.subject.Revised?
    ensures (exists b :: Shares(a, b)) <==> NUL in a.subject.selector || NUL in a.subject.revision
  {
    hide Shares, Fits;
    var selector, revision := a.subject.selector, a.subject.revision;
    if NUL in selector {
      var i :| 0 <= i < |selector| && selector[i] == NUL;
      var b := CutElsewhere(a, i);
    }
    if NUL in revision {
      var i :| 0 <= i < |revision| && revision[i] == NUL;
      var b := CutElsewhere(a, |selector| + 1 + i);
    }
    if b :| Shares(a, b) {
      SharedHasNul(a, b);
    }
  }

  lemma SharedHasNul(a: ContextIdentity, b: ContextIdentity)
    requires ContextFits(a) && a.subject.Revised? && Shares(a, b)
    ensures NUL in a.subject.selector || NUL in a.subject.revision
  {
    ContextSources(a, b);
    hide ContextPreimage, Fits;
    if NUL !in a.subject.selector && NUL !in a.subject.revision {
      NulIsNotIn(a.subject.selector, a.subject.revision, |b.subject.selector|);
      CutsAlike(a.subject.selector, a.subject.revision, b.subject.selector, b.subject.revision);
    }
  }
}
