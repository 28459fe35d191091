/** What a payload says of commands and skills, value by value. */
module ComposerPayload {
  import opened Wrappers
  import opened Json
  import opened Text
  import opened ComposerCatalog
  import opened ComposerAgreement

  // ----- What a payload advertises

  ghost predicate Says(value: Option<Json>, text: string) {
    value.Some? && value.value.Str? && value.value.s == text
  }

  /** The value is a well-formed advertisement of the command. */
  ghost predicate Declares(value: Json, command: AcpCommand) {
    && Says(Get(value, "name"), command.name) && Says(Get(value, "description"), command.description)
    && Takes(Get(value, "input"), command.input)
    && command.name != "" && ByteLength(command.name) <= 256
    && forall c | c in command.name :: !IsControl(c) && !IsWhitespace(c) && c != '/'
  }

  ghost predicate Takes(input: Option<Json>, taken: CommandInput) {
    match taken
    case NoInput => input == None || input == Some(Null)
    case TextInput(hint) =>
      && input.Some? && input.value.Object?
      && (forall kind :: Says(Get(input.value, "type"), kind) ==> kind == "text")
      && if hint.None? then Get(input.value, "hint") == None else Says(Get(input.value, "hint"), hint.value)
    case UnsupportedInput =>
      && input.Some? && input.value != Null
      && (input.value.Object? ==>
            || (exists kind :: Says(Get(input.value, "type"), kind) && kind != "text")
            || exists hint :: Get(input.value, "hint") == Some(hint) && !hint.Str?)
  }

  lemma ParsedIffTaken(input: Option<Json>, taken: CommandInput)
    ensures ParseInput(input) == taken <==> Takes(input, taken)
  {
    if input.Some? && input.value.Object? {
      var kind, hint := Get(input.value, "type"), Get(input.value, "hint");
      assert AsStr(kind).Some? ==> Says(kind, AsStr(kind).value);
      assert forall text :: Says(kind, text) ==> AsStr(kind) == Some(text);
      assert hint.Some? ==> Get(input.value, "hint") == Some(hint.value);
      hide Get;
    }
  }

  lemma ValidNameIs(name: string)
    ensures ValidCommandName(name) <==>
            && name != "" && ByteLength(name) <= 256
            && forall c | c in name :: !IsControl(c) && !IsWhitespace(c) && c != '/'
  {
    hide ByteLength, IsControl, IsWhitespace;
    if forall c | c in name :: !IsControl(c) && !IsWhitespace(c) && c != '/' {
      assert forall i | 0 <= i < |name| :: name[i] in name;
    }
  }

  lemma ParsedIffDeclared(value: Json, command: AcpCommand)
    ensures ParseCommand(value) == Some(command) <==> Declares(value, command)
  {
    ParsedIffTaken(Get(value, "input"), command.input);
    var name := command.name;
    ValidNameIs(name);
    hide ParseInput, Takes, ValidCommandName, ByteLength, IsControl, IsWhitespace, Get;
  }

  ghost predicate Ascending(at: seq<nat>) {
    forall i, j | 0 <= i < j < |at| :: at[i] < at[j]
  }

  lemma {:induction false} FilterMapSnoc<A, B>(items: seq<A>, f: A -> Option<B>)
    requires items != []
    ensures var before, last := items[..|items| - 1], f(items[|items| - 1]);
            FilterMap(items, f) == FilterMap(before, f) + if last.Some? then [last.value] else []
  {
    if |items| > 1 {
      var below := items[1..];
      FilterMapSnoc(below, f);
      assert items[..|items| - 1] == [items[0]] + below[..|below| - 1];
    } else {
      assert items[1..] == [];
    }
  }

  /** The places of the items that come through a filter. */
  lemma {:induction false} FilterMapAt<A, B>(items: seq<A>, f: A -> Option<B>) returns (at: seq<nat>)
    ensures Ascending(at) && |at| == |FilterMap(items, f)|
    ensures forall k: nat :: k in at <==> k < |items| && f(items[k]).Some?
    ensures forall i | 0 <= i < |at| :: at[i] < |items| && f(items[at[i]]) == Some(FilterMap(items, f)[i])
  {
    at := [];
    if items != [] {
      var n := |items| - 1;
      FilterMapSnoc(items, f);
      hide FilterMap;
      at := FilterMapAt(items[..n], f);
      if f(items[n]).Some? {
        AscendingSnoc(at, n);
        at := at + [n];
      }
    }
  }

  lemma AscendingSnoc(at: seq<nat>, n: nat)
    requires Ascending(at) && forall i | 0 <= i < |at| :: at[i] < n
    ensures Ascending(at + [n])
    ensures forall k: nat :: k in at + [n] <==> k in at || k == n
  {
  }

  ghost function Entries(payload: Json, key: string): seq<Json> {
    match Get(payload, key)
    case Some(Array(items)) => items
    case _ => []
  }

  ghost predicate DeclaresSome(value: Json) {
    exists command :: Declares(value, command)
  }

  lemma ParsesIffDeclaresSome(value: Json)
    ensures ParseCommand(value).Some? <==> DeclaresSome(value)
    ensures ParseCommand(value).Some? ==> Declares(value, ParseCommand(value).value)
  {
    if ParseCommand(value).Some? {
      ParsedIffDeclared(value, ParseCommand(value).value);
    }
    if command :| Declares(value, command) {
      ParsedIffDeclared(value, command);
    }
    hide Declares, ParseCommand;
  }

  /** The commands are those declared by the first 256 entries, in their order. */
  lemma CommandsAre(payload: Json) returns (at: seq<nat>)
    ensures var entries, commands := Entries(payload, "availableCommands"), Commands(payload);
            && Ascending(at) && |at| == |commands|
            && (forall k: nat :: k in at <==> k < |entries| && k < 256 && DeclaresSome(entries[k]))
            && (forall i | 0 <= i < |at| :: at[i] < |entries| && Declares(entries[at[i]], commands[i]))
  {
    var entries := Entries(payload, "availableCommands");
    assert AsArray(Get(payload, "availableCommands")) == entries;
    var items := Take(entries, 256);
    assert FilterMap(items, ParseCommand) == Commands(payload);
    hide Commands, ParseCommand, Declares, DeclaresSome, Entries, FilterMap, Ascending;
    at := FilterMapAt(items, ParseCommand);
    forall k | 0 <= k < |items|
      ensures items[k] == entries[k] && (ParseCommand(items[k]).Some? <==> DeclaresSome(entries[k]))
      ensures ParseCommand(items[k]).Some? ==> Declares(entries[k], ParseCommand(items[k]).value)
    {
      ParsesIffDeclaresSome(entries[k]);
    }
  }

  ghost predicate Advertised(payload: Json, name: string) {
    exists k :: 0 <= k < |Entries(payload, "availableCommands")| && k < 256
             && exists command :: Declares(Entries(payload, "availableCommands")[k], command) && command.name == name
  }

  lemma AdvertisedIffParsed(payload: Json, name: string)
    ensures Advertised(payload, name) <==> exists k :: 0 <= k < |Commands(payload)| && Commands(payload)[k].name == name
  {
    var entries := Entries(payload, "availableCommands");
    var at := CommandsAre(payload);
    hide Commands, Entries, Declares;
    if k :| 0 <= k < |Commands(payload)| && Commands(payload)[k].name == name {
      assert at[k] in at;
    }
    if Advertised(payload, name) {
      var k, command :| 0 <= k < |entries| && k < 256 && Declares(entries[k], command) && command.name == name;
      assert k in at;
      var i :| 0 <= i < |at| && at[i] == k;
      SameDeclared(entries[k], command, Commands(payload)[i]);
    }
  }

  lemma SameDeclared(value: Json, a: AcpCommand, b: AcpCommand)
    requires Declares(value, a) && Declares(value, b)
    ensures a == b
  {
    ParsedIffDeclared(value, a);
    ParsedIffDeclared(value, b);
    hide Declares, ParseCommand;
  }

  // ----- How many

  lemma {:induction false} AscendingBelow(at: seq<nat>, limit: nat)
    requires Ascending(at) && forall i | 0 <= i < |at| :: at[i] < limit
    ensures |at| <= limit
  {
    if at != [] {
      AscendingBelow(at[..|at| - 1], at[|at| - 1]);
    }
  }

  lemma FewCommands(payload: Json)
    ensures |Commands(payload)| <= 256
  {
    var at := CommandsAre(payload);
    AscendingBelow(at, 256);
    hide Commands, Declares, Entries;
  }

  lemma {:induction false} OccursTwice<K>(keys: seq<K>, k: nat)
    requires k < |keys|
    ensures Occurrences(keys, keys[k]) > 1 <==> exists j :: 0 <= j < |keys| && j != k && keys[j] == keys[k]
  {
    var n := |keys| - 1;
    var key, before := keys[k], keys[..n];
    NoOccurrences(before, key);
    if k < n {
      OccursTwice(before, k);
    } else if key in before {
      var j :| 0 <= j < n && before[j] == key;
      assert keys[j] == key;
    }
  }

  // ----- What a payload says of skills

  ghost predicate SaysIfAny(value: Option<Json>, text: Option<string>) {
    if text.Some? then Says(value, text.value) else forall t :: !Says(value, t)
  }

  /** The metadata of the skills of a provider, if it declares to support them. */
  ghost predicate SupportsSkills(payload: Json, provider: string, metadata: Json) {
    && (exists meta, kubecode ::
          && Get(payload, "_meta") == Some(meta) && Get(meta, "kubecode") == Some(kubecode)
          && Get(kubecode, provider) == Some(metadata))
    && Get(metadata, "version") == Some(Number(1)) && Get(metadata, "supported") == Some(Bool(true))
  }

  ghost function ScopeName(scope: ItemScope): string {
    match scope
    case Session => "session"
    case Project => "project"
    case User => "user"
    case Bundled => "bundled"
    case Plugin => "plugin"
  }

  /** A Claude skill: it runs the command of its identity, if there is just one
      and its input is supported. */
  ghost predicate ClaudeDeclares(commands: seq<AcpCommand>, value: Json, row: Contribution) {
    && Says(Get(value, "identity"), row.identity) && Says(Get(value, "name"), row.name)
    && Says(Get(value, "sourceLabel"), row.sourceLabel)
    && Says(Get(value, "scope"), ScopeName(row.scope))
    && SaysIfAny(Get(value, "description"), row.description) && SaysIfAny(Get(value, "inputHint"), row.inputHint)
    && row.kind == Skill && row.invocation == Some(AcpPromptTemplate(row.identity))
    && ClaudeDisables(commands, value, row.identity, row.disabledReason)
  }

  ghost predicate ClaudeDisables(commands: seq<AcpCommand>, value: Json, name: string, reason: Option<string>) {
    && (Get(value, "enabled") == Some(Bool(true)) ==> Runs(commands, name, reason))
    && (Get(value, "enabled") != Some(Bool(true)) ==>
          && reason.Some?
          && (Says(Get(value, "disabledReason"), reason.value)
              || (SaysIfAny(Get(value, "disabledReason"), None) && reason.value == "provider_disabled")))
  }

  ghost predicate Runs(commands: seq<AcpCommand>, name: string, reason: Option<string>) {
    match reason
    case None => exists k :: OnlyAt(commands, name, k) && !commands[k].input.UnsupportedInput?
    case Some(text) =>
      || (text == "command_unavailable" && forall k | 0 <= k < |commands| :: commands[k].name != name)
      || (text == "unsupported_input" && exists k :: OnlyAt(commands, name, k) && commands[k].input.UnsupportedInput?)
      || (text == "ambiguous_source_identity" &&
          exists j, k :: 0 <= j < k < |commands| && commands[j].name == commands[k].name == name)
  }

  ghost predicate OnlyAt(commands: seq<AcpCommand>, name: string, k: int) {
    && 0 <= k < |commands| && commands[k].name == name
    && forall j | 0 <= j < |commands| && j != k :: commands[j].name != name
  }

  /** A Codex skill: it is known by its absolute path and passed on as input. */
  ghost predicate CodexDeclares(value: Json, row: Contribution) {
    && Says(Get(value, "identity"), row.identity) && Says(Get(value, "path"), row.identity)
    && row.identity != "" && row.identity[0] == '/'
    && Says(Get(value, "name"), row.name)
    && (exists scope :: Says(Get(value, "providerScope"), scope)
          && IsCodexScope(scope, row.scope, row.sourceLabel))
    && SaysIfAny(Get(value, "description"), row.description) && row.inputHint == None
    && row.disabledReason == (if Get(value, "enabled") == Some(Bool(true)) then None else Some("provider_disabled"))
    && row.kind == Skill
    && exists input :: row.invocation == Some(ProviderStructuredInput("codex", Object(input))) && IsCodexInput(input, row)
  }

  ghost predicate IsCodexScope(scope: string, itemScope: ItemScope, shown: string) {
    (scope, itemScope, shown) in
      [("repo", Project, "Project skill"), ("user", User, "User skill"), ("system", Bundled, "System skill"),
       ("admin", Bundled, "Admin skill"), ("bundled", Bundled, "Bundled skill"), ("plugin", Plugin, "Plugin skill")]
  }

  ghost predicate IsCodexInput(input: map<string, Json>, row: Contribution) {
    && input.Keys == {"type", "name", "path"}
    && Says(Some(input["type"]), "skill") && Says(Some(input["name"]), row.name)
    && Says(Some(input["path"]), row.identity)
  }

  lemma NamedIs(commands: seq<AcpCommand>, name: string)
    ensures Named(commands, name) == [] <==> forall k | 0 <= k < |commands| :: commands[k].name != name
    ensures |Named(commands, name)| == 1 <==> exists k :: OnlyAt(commands, name, k)
    ensures |Named(commands, name)| > 1 <==>
            exists j, k :: 0 <= j < k < |commands| && commands[j].name == commands[k].name == name
    ensures forall k | OnlyAt(commands, name, k) :: Named(commands, name)[0] == commands[k]
  {
    var names := Names(commands);
    NamedCount(commands, name);
    NoOccurrences(names, name);
    hide Named, Occurrences;
    if k :| 0 <= k < |commands| && commands[k].name == name {
      OccursTwice(names, k);
      assert names[k] in names;
      if OnlyAt(commands, name, k) {
        NamedHas(commands, k);
      }
    }
  }

  lemma SaysIfAnyIs(value: Option<Json>, text: Option<string>)
    ensures AsStr(value) == text <==> SaysIfAny(value, text)
  {
    if value.Some? && value.value.Str? {
      assert Says(value, value.value.s);
    }
  }

  lemma ClaudeScopeIs(scope: string, itemScope: ItemScope)
    ensures ClaudeScope(scope) == Some(itemScope) <==> scope == ScopeName(itemScope)
  {
  }

  lemma {:induction false} ReasonIffRuns(commands: seq<AcpCommand>, name: string, reason: Option<string>)
    ensures CommandReason(Named(commands, name)) == reason <==> Runs(commands, name, reason)
  {
    NamedIs(commands, name);
    hide Named;
  }

  lemma ReasonIffDisables(commands: seq<AcpCommand>, value: Json, name: string, reason: Option<string>)
    ensures (if Get(value, "enabled") == Some(Bool(true)) then CommandReason(Named(commands, name))
             else ProviderReason(AsStr(Get(value, "disabledReason")))) == reason
            <==> ClaudeDisables(commands, value, name, reason)
  {
    ReasonIffRuns(commands, name, reason);
    SaysIfAnyIs(Get(value, "disabledReason"), reason);
    SaysIfAnyIs(Get(value, "disabledReason"), None);
    hide Runs, CommandReason, Named, Get;
  }

  lemma ClaudeSkillIffDeclared(commands: seq<AcpCommand>, value: Json, row: Contribution)
    ensures ClaudeSkill(commands, value) == Some(row) <==> ClaudeDeclares(commands, value, row)
  {
    hide CommandReason, ProviderReason, Named, ClaudeScope, ScopeName, SaysIfAny, Get, ClaudeDisables;
    ReasonIffDisables(commands, value, row.identity, row.disabledReason);
    SaysIfAnyIs(Get(value, "description"), row.description);
    SaysIfAnyIs(Get(value, "inputHint"), row.inputHint);
    var scope := AsStr(Get(value, "scope"));
    if scope.Some? {
      ClaudeScopeIs(scope.value, row.scope);
    }
  }

  lemma CodexScopeIs(scope: string, itemScope: ItemScope, shown: string)
    ensures CodexScope(scope) == Some((itemScope, shown)) <==> IsCodexScope(scope, itemScope, shown)
  {
  }

  ghost function CodexInput(name: Text, path: Text): map<string, Json> {
    map["type" := Str("skill"), "name" := Str(name), "path" := Str(path)]
  }

  lemma CodexInputIs(name: Text, path: Text, input: map<string, Json>, row: Contribution)
    requires row.name == name && row.identity == path
    ensures IsCodexInput(input, row) <==> input == CodexInput(name, path)
  {
  }

  lemma CodexFieldsAre(value: Json, row: Contribution)
    requires CodexSkill(value) == Some(row)
    ensures CodexDeclares(value, row)
  {
    hide CodexScope, IsCodexScope, SaysIfAny, Get;
    CodexInputFieldsAre(value, row);
    SaysIfAnyIs(Get(value, "description"), row.description);
    var scope := AsStr(Get(value, "providerScope"));
    CodexScopeIs(scope.value, row.scope, row.sourceLabel);
    assert Says(Get(value, "providerScope"), scope.value);
    assert Says(Get(value, "identity"), row.identity) && Says(Get(value, "path"), row.identity);
    assert Says(Get(value, "name"), row.name);
    var pair := CodexScope(scope.value).value;
    assert pair == (pair.0, pair.1) && pair.0 == row.scope && pair.1 == row.sourceLabel;
  }

  lemma CodexInputFieldsAre(value: Json, row: Contribution)
    requires CodexSkill(value) == Some(row)
    ensures exists input ::
              row.invocation == Some(ProviderStructuredInput("codex", Object(input))) && IsCodexInput(input, row)
  {
    hide CodexScope, SaysIfAny, IsCodexInput;
    var name := AsStr(Get(value, "name")).value;
    CodexInputIs(name, row.identity, CodexInput(name, row.identity), row);
    assert row.invocation == Some(ProviderStructuredInput("codex", Object(CodexInput(name, row.identity))));
  }

  lemma CodexRowParses(value: Json, row: Contribution)
    requires CodexDeclares(value, row)
    ensures CodexSkill(value) == Some(row)
  {
    hide IsCodexScope;
    SaysIfAnyIs(Get(value, "description"), row.description);
    var scope :| Says(Get(value, "providerScope"), scope) && IsCodexScope(scope, row.scope, row.sourceLabel);
    CodexScopeIs(scope, row.scope, row.sourceLabel);
    var input :| row.invocation == Some(ProviderStructuredInput("codex", Object(input))) && IsCodexInput(input, row);
    var name := AsStr(Get(value, "name"));
    CodexInputIs(name.value, row.identity, input, row);
    assert input == map["type" := Str("skill"), "name" := Str(name.value), "path" := Str(row.identity)];
    hide CodexScope, IsCodexScope, SaysIfAny, Get, IsCodexInput, CodexInput;
    assert "/" <= row.identity;
    assert CodexSkill(value).Some?;
  }

  ghost predicate ClaudeRowsAt(commands: seq<AcpCommand>, skills: seq<Json>, rows: seq<Contribution>, at: seq<nat>) {
    && Ascending(at) && |at| == |rows|
    && (forall k: nat :: k in at <==> k < |skills| && k < 64 && exists row :: ClaudeDeclares(commands, skills[k], row))
    && (forall i | 0 <= i < |at| :: at[i] < |skills| && ClaudeDeclares(commands, skills[at[i]], rows[i]))
  }

  ghost predicate CodexRowsAt(skills: seq<Json>, rows: seq<Contribution>, at: seq<nat>) {
    && Ascending(at) && |at| == |rows|
    && (forall k: nat :: k in at <==> k < |skills| && k < 64 && exists row :: CodexDeclares(skills[k], row))
    && (forall i | 0 <= i < |at| :: at[i] < |skills| && CodexDeclares(skills[at[i]], rows[i]))
  }

  lemma ClaudePlaces(commands: seq<AcpCommand>, skills: seq<Json>, parse: Json -> Option<Contribution>)
    returns (at: seq<nat>)
    requires forall value :: parse(value) == ClaudeSkill(commands, value)
    ensures ClaudeRowsAt(commands, skills, FilterMap(Take(skills, 64), parse), at)
  {
    hide ClaudeSkill, ClaudeDeclares, FilterMap, Ascending;
    var items := Take(skills, 64);
    at := FilterMapAt(items, parse);
    forall k | 0 <= k < |items|
      ensures items[k] == skills[k]
      ensures parse(items[k]).Some? <==> exists row :: ClaudeDeclares(commands, skills[k], row)
      ensures parse(items[k]).Some? ==> ClaudeDeclares(commands, skills[k], parse(items[k]).value)
    {
      forall row
        ensures ClaudeSkill(commands, skills[k]) == Some(row) <==> ClaudeDeclares(commands, skills[k], row)
      {
        ClaudeSkillIffDeclared(commands, skills[k], row);
      }
    }
  }

  lemma CodexPlaces(skills: seq<Json>) returns (at: seq<nat>)
    ensures CodexRowsAt(skills, FilterMap(Take(skills, 64), CodexSkill), at)
  {
    hide CodexSkill, CodexDeclares, FilterMap, Ascending;
    var items := Take(skills, 64);
    at := FilterMapAt(items, CodexSkill);
    forall k | 0 <= k < |items|
      ensures items[k] == skills[k]
      ensures CodexSkill(items[k]).Some? <==> exists row :: CodexDeclares(skills[k], row)
      ensures CodexSkill(items[k]).Some? ==> CodexDeclares(skills[k], CodexSkill(items[k]).value)
    {
      forall row
        ensures CodexSkill(skills[k]) == Some(row) <==> CodexDeclares(skills[k], row)
      {
        CodexSkillIffDeclared(skills[k], row);
      }
    }
  }

  lemma CodexSkillIffDeclared(value: Json, row: Contribution)
    ensures CodexSkill(value) == Some(row) <==> CodexDeclares(value, row)
  {
    if CodexSkill(value) == Some(row) {
      CodexFieldsAre(value, row);
    }
    if CodexDeclares(value, row) {
      CodexRowParses(value, row);
    }
    hide CodexSkill, CodexDeclares;
  }

  /** The rows of a Claude agent are those its first 64 skills declare. */
  lemma ClaudeRowsAre(payload: Json) returns (at: seq<nat>)
    ensures forall metadata | SupportsSkills(payload, "claudeSkills", metadata) ::
              ClaudeRowsAt(Commands(payload), Entries(metadata, "skills"), Contributions(ClaudeCode, payload), at)
    ensures (forall metadata :: !SupportsSkills(payload, "claudeSkills", metadata)) ==>
              Contributions(ClaudeCode, payload) == []
  {
    hide Commands, ClaudeRowsAt, ClaudeSkill, Entries, FilterMap, SupportsSkills, Declared, Skills, Take;
    SupportedIs(payload, "claudeSkills");
    var commands := Commands(payload);
    var parse := value => ClaudeSkill(commands, value);
    at := ClaudePlaces(commands, AsArray(GetIn(Skills(payload, "claudeSkills"), "skills")), parse);
  }

  /** Those of a Codex agent, if it also takes structured input and no text. */
  lemma {:induction false} CodexRowsAre(payload: Json) returns (at: seq<nat>)
    ensures forall metadata | SupportsSkills(payload, "codexSkills", metadata) ::
              if Get(metadata, "structuredInput") == Some(Bool(true))
                 && Get(metadata, "textFallback") == Some(Bool(false))
              then CodexRowsAt(Entries(metadata, "skills"), Contributions(Codex, payload), at)
              else Contributions(Codex, payload) == []
    ensures (forall metadata :: !SupportsSkills(payload, "codexSkills", metadata)) ==>
              Contributions(Codex, payload) == []
  {
    hide CodexRowsAt, CodexSkill, Entries, FilterMap, SupportsSkills, Declared, Skills, Take, Get;
    SupportedIs(payload, "codexSkills");
    at := CodexPlaces(AsArray(GetIn(Skills(payload, "codexSkills"), "skills")));
  }

  lemma SupportedIs(payload: Json, provider: string)
    ensures var found := Skills(payload, provider);
            && (Declared(found) ==> found.Some? && SupportsSkills(payload, provider, found.value))
            && (forall metadata | SupportsSkills(payload, provider, metadata) ::
                  Declared(found) && found == Some(metadata)
                  && AsArray(GetIn(found, "skills")) == Entries(metadata, "skills"))
  {
    hide Get;
  }
}
