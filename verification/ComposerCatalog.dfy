/** The composer catalog: what an agent advertises is projected into items a
    user may pick, and picking one is resolved against what the agent
    advertises, from the raw payload. */
module ComposerCatalog {
  import opened Wrappers
  import opened Bytes
  import opened Json
  import opened Text

  const MAX_ACP_COMMAND_NAME_BYTES := 256
  const MAX_ACP_COMMAND_ARGUMENT_BYTES := 8 * 1024
  const MAX_ACP_COMMAND_ITEMS := 256
  const MAX_COMPOSER_ITEMS := 256
  const MAX_TRUSTED_COMPOSER_ITEMS := 64
  const MAX_TRUSTED_SOURCE_IDENTITY_BYTES := 512
  const MAX_TRUSTED_ITEM_NAME_BYTES := 256
  const MAX_DESCRIPTION_CHARS := 512
  const MAX_INPUT_HINT_CHARS := 160

  datatype AgentId = ClaudeCode | Codex | OpenCode
  datatype ItemKind = Command | Skill | PluginAction | ProviderApp
  datatype ItemScope = Session | Project | User | Bundled | Plugin

  /** Whose catalog it is. */
  datatype Owner = Owner(projectId: Text, conversationId: Text, agent: AgentId)

  // ----- Commands

  datatype CommandInput = NoInput | TextInput(hint: Option<string>) | UnsupportedInput

  datatype AcpCommand = AcpCommand(name: Text, description: string, input: CommandInput)

  predicate ValidCommandName(name: string) {
    && name != "" && ByteLength(name) <= MAX_ACP_COMMAND_NAME_BYTES
    && forall i | 0 <= i < |name| :: !IsControl(name[i]) && !IsWhitespace(name[i]) && name[i] != '/'
  }

  function ParseInput(input: Option<Json>): CommandInput {
    match input
    case None | Some(Null) => NoInput
    case Some(Object(_)) =>
      var kind := AsStr(Get(input.value, "type"));
      var hint := Get(input.value, "hint");
      if kind != None && kind != Some("text") then UnsupportedInput
      else if hint == None then TextInput(None)
      else if hint.value.Str? then TextInput(Some(hint.value.s))
      else UnsupportedInput
    case _ => UnsupportedInput
  }

  function ParseCommand(value: Json): Option<AcpCommand> {
    var name, description := AsStr(Get(value, "name")), AsStr(Get(value, "description"));
    if name.None? || !ValidCommandName(name.value) || description.None? then None
    else Some(AcpCommand(name.value, description.value, ParseInput(Get(value, "input"))))
  }

  function Commands(payload: Json): seq<AcpCommand> {
    FilterMap(Take(AsArray(Get(payload, "availableCommands")), MAX_ACP_COMMAND_ITEMS), ParseCommand)
  }

  function Named(commands: seq<AcpCommand>, name: string): seq<AcpCommand> {
    if commands == [] then []
    else
      var last := commands[|commands| - 1];
      Named(commands[..|commands| - 1], name) + if last.name == name then [last] else []
  }

  datatype CatalogError =
    | StaleRevision | ItemMissing | ItemDisabled | ItemUnsupported
    | CommandUnavailable | CommandAmbiguous | InputUnsupported | InputRequired | UnexpectedInput
    | ArgumentsTooLong

  function CommandMessage(payload: Json, name: string, arguments: string): Result<string, CatalogError> {
    var matching := Named(Commands(payload), name);
    if matching == [] then Err(CommandUnavailable)
    else if |matching| > 1 then Err(CommandAmbiguous)
    else
      match matching[0].input
      case NoInput => if arguments == "" then Ok("/" + name) else Err(UnexpectedInput)
      case TextInput(_) => if arguments == "" then Err(InputRequired) else Ok("/" + name + " " + arguments)
      case UnsupportedInput => Err(InputUnsupported)
  }

  // ----- Contributions of a provider

  datatype Invocation =
    | AcpPromptTemplate(commandName: string)
    | AcpPrivateMethod(method_: string, payload: Json)
    | ProviderStructuredInput(adapterKind: string, payload: Json)
    | HostAction(action: string)

  datatype Contribution = Contribution(
    kind: ItemKind, identity: Text, name: Text, description: Option<string>, sourceLabel: string,
    scope: ItemScope, inputHint: Option<string>, disabledReason: Option<string>, invocation: Option<Invocation>)

  function Skills(payload: Json, provider: string): Option<Json> {
    GetIn(GetIn(Get(payload, "_meta"), "kubecode"), provider)
  }

  predicate Declared(metadata: Option<Json>) {
    GetIn(metadata, "version") == Some(Number(1)) && GetIn(metadata, "supported") == Some(Bool(true))
  }

  function ClaudeScope(scope: string): Option<ItemScope> {
    if scope == "session" then Some(Session)
    else if scope == "project" then Some(Project)
    else if scope == "user" then Some(User)
    else if scope == "bundled" then Some(Bundled)
    else if scope == "plugin" then Some(Plugin)
    else None
  }

  /** Why the command a Claude skill stands for cannot be run. */
  function CommandReason(matching: seq<AcpCommand>): Option<string> {
    if matching == [] then Some("command_unavailable")
    else if |matching| > 1 then Some("ambiguous_source_identity")
    else if matching[0].input.UnsupportedInput? then Some("unsupported_input")
    else None
  }

  function ProviderReason(reason: Option<string>): Option<string> {
    if reason.Some? then reason else Some("provider_disabled")
  }

  function ClaudeSkill(commands: seq<AcpCommand>, skill: Json): Option<Contribution> {
    var identity, name := AsStr(Get(skill, "identity")), AsStr(Get(skill, "name"));
    var scope, source := AsStr(Get(skill, "scope")), AsStr(Get(skill, "sourceLabel"));
    if identity.None? || name.None? || scope.None? || ClaudeScope(scope.value).None? || source.None? then None
    else
      var reason :=
        if Get(skill, "enabled") == Some(Bool(true)) then CommandReason(Named(commands, identity.value))
        else ProviderReason(AsStr(Get(skill, "disabledReason")));
      Some(Contribution(Skill, identity.value, name.value, AsStr(Get(skill, "description")), source.value,
                        ClaudeScope(scope.value).value, AsStr(Get(skill, "inputHint")), reason,
                        Some(AcpPromptTemplate(identity.value))))
  }

  function CodexScope(scope: string): Option<(ItemScope, string)> {
    if scope == "repo" then Some((Project, "Project skill"))
    else if scope == "user" then Some((User, "User skill"))
    else if scope == "system" then Some((Bundled, "System skill"))
    else if scope == "admin" then Some((Bundled, "Admin skill"))
    else if scope == "bundled" then Some((Bundled, "Bundled skill"))
    else if scope == "plugin" then Some((Plugin, "Plugin skill"))
    else None
  }

  function CodexSkill(skill: Json): Option<Contribution> {
    var identity, path := AsStr(Get(skill, "identity")), AsStr(Get(skill, "path"));
    var name, scope := AsStr(Get(skill, "name")), AsStr(Get(skill, "providerScope"));
    if identity.None? || path.None? || identity != path || !("/" <= path.value) then None
    else if name.None? || scope.None? || CodexScope(scope.value).None? then None
    else
      var (itemScope, source) := CodexScope(scope.value).value;
      var reason := if Get(skill, "enabled") == Some(Bool(true)) then None else Some("provider_disabled");
      var input := Object(map["type" := Str("skill"), "name" := Str(name.value), "path" := Str(path.value)]);
      Some(Contribution(Skill, identity.value, name.value, AsStr(Get(skill, "description")), source, itemScope,
                        None, reason, Some(ProviderStructuredInput("codex", input))))
  }

  /** What the payload says of skills, in its order. */
  function Contributions(agent: AgentId, payload: Json): seq<Contribution> {
    match agent
    case ClaudeCode =>
      var metadata := Skills(payload, "claudeSkills");
      if !Declared(metadata) then []
      else
        var commands := Commands(payload);
        FilterMap(Take(AsArray(GetIn(metadata, "skills")), MAX_TRUSTED_COMPOSER_ITEMS),
                  skill => ClaudeSkill(commands, skill))
    case Codex =>
      var metadata := Skills(payload, "codexSkills");
      if !Declared(metadata) || GetIn(metadata, "structuredInput") != Some(Bool(true))
         || GetIn(metadata, "textFallback") != Some(Bool(false)) then []
      else FilterMap(Take(AsArray(GetIn(metadata, "skills")), MAX_TRUSTED_COMPOSER_ITEMS), CodexSkill)
    case OpenCode => []
  }

  // ----- Items

  datatype SourceKind = StandardAcp | TrustedAdapter

  /** What an item id is the digest of. */
  datatype ItemKey = ItemKey(owner: Owner, kind: ItemKind, sourceKind: SourceKind, identity: Text)

  type ItemIds = ItemKey -> string

  datatype Item = Item(
    id: string, kind: ItemKind, name: string, description: Option<string>, sourceLabel: string,
    scope: ItemScope, inputHint: Option<string>, disabledReason: Option<string>)
  {
    predicate Enabled() {
      disabledReason.None?
    }
  }

  datatype Snapshot = Snapshot(conversationId: string, revision: nat, items: seq<Item>)

  function CommandId(ids: ItemIds, owner: Owner, name: Text): string {
    ids(ItemKey(owner, Command, StandardAcp, name))
  }

  function TrustedId(ids: ItemIds, owner: Owner, row: Contribution): string {
    ids(ItemKey(owner, row.kind, TrustedAdapter, row.identity))
  }

  function Display(text: Option<string>, maxChars: nat): Option<string> {
    if text.Some? then Some(Take(text.value, maxChars)) else None
  }

  function AgentLabel(agent: AgentId): string {
    match agent
    case ClaudeCode => "Claude Code command"
    case Codex => "Codex command"
    case OpenCode => "OpenCode command"
  }

  function CommandItem(ids: ItemIds, owner: Owner, command: AcpCommand, duplicate: bool): Item {
    Item(CommandId(ids, owner, command.name), Command, command.name,
         Some(Take(command.description, MAX_DESCRIPTION_CHARS)), AgentLabel(owner.agent), Session,
         if command.input.TextInput? then Display(command.input.hint, MAX_INPUT_HINT_CHARS) else None,
         if duplicate then Some("ambiguous_source_identity")
         else if command.input.UnsupportedInput? then Some("unsupported_input")
         else None)
  }

  function TrustedItem(ids: ItemIds, owner: Owner, row: Contribution, duplicate: bool): Item {
    Item(TrustedId(ids, owner, row), row.kind, row.name, Display(row.description, MAX_DESCRIPTION_CHARS),
         Take(row.sourceLabel, MAX_INPUT_HINT_CHARS), row.scope, Display(row.inputHint, MAX_INPUT_HINT_CHARS),
         if duplicate then Some("ambiguous_source_identity")
         else if row.kind == Command then Some("unsupported_invocation")
         else if row.disabledReason.Some? then Display(row.disabledReason, MAX_INPUT_HINT_CHARS)
         else if row.invocation.None? then Some("invocation_unavailable")
         else None)
  }

  // ----- Projection

  predicate ValidText(s: string, maxBytes: nat) {
    Trim(s) != "" && ByteLength(s) <= maxBytes && NoControl(s)
  }

  predicate ValidRow(row: Contribution) {
    ValidText(row.identity, MAX_TRUSTED_SOURCE_IDENTITY_BYTES) && ValidText(row.name, MAX_TRUSTED_ITEM_NAME_BYTES)
  }

  /** A command that a valid row presents as a skill is not listed as a command. */
  predicate Reclassifies(row: Contribution, name: string) {
    ValidRow(row) && row.kind == Skill && row.invocation == Some(AcpPromptTemplate(name))
  }

  predicate Reclassified(rows: seq<Contribution>, name: string) {
    exists i | 0 <= i < |rows| :: Reclassifies(rows[i], name)
  }

  function PlainCommands(commands: seq<AcpCommand>, rows: seq<Contribution>): seq<AcpCommand> {
    if commands == [] then []
    else
      var last := commands[|commands| - 1];
      PlainCommands(commands[..|commands| - 1], rows) + if Reclassified(rows, last.name) then [] else [last]
  }

  function ValidRows(rows: seq<Contribution>): seq<Contribution> {
    if rows == [] then []
    else (if ValidRow(rows[0]) then [rows[0]] else []) + ValidRows(rows[1..])
  }

  function Occurrences<K(==)>(keys: seq<K>, key: K): nat {
    if keys == [] then 0
    else Occurrences(keys[..|keys| - 1], key) + if keys[|keys| - 1] == key then 1 else 0
  }

  function Names(commands: seq<AcpCommand>): (names: seq<string>)
    ensures |names| == |commands| && forall i | 0 <= i < |names| :: names[i] == commands[i].name
  {
    seq(|commands|, i requires 0 <= i < |commands| => commands[i].name)
  }

  function RowKeys(rows: seq<Contribution>): (keys: seq<(ItemKind, string)>)
    ensures |keys| == |rows| && forall i | 0 <= i < |keys| :: keys[i] == (rows[i].kind, rows[i].identity)
  {
    seq(|rows|, i requires 0 <= i < |rows| => (rows[i].kind, rows[i].identity))
  }

  /** One item for each name among the first `n` commands, disabled if several
      commands have the name. */
  function CommandItems(ids: ItemIds, owner: Owner, commands: seq<AcpCommand>, n: nat): seq<Item>
    requires n <= |commands|
  {
    if n == 0 then []
    else
      var command, names := commands[n - 1], Names(commands);
      CommandItems(ids, owner, commands, n - 1) +
        if command.name in names[..n - 1] then []
        else [CommandItem(ids, owner, command, Occurrences(names, command.name) > 1)]
  }

  function TrustedItems(ids: ItemIds, owner: Owner, rows: seq<Contribution>, n: nat): seq<Item>
    requires n <= |rows|
  {
    if n == 0 then []
    else
      var row, keys := rows[n - 1], RowKeys(rows);
      TrustedItems(ids, owner, rows, n - 1) +
        if keys[n - 1] in keys[..n - 1] then []
        else [TrustedItem(ids, owner, row, Occurrences(keys, keys[n - 1]) > 1)]
  }

  /** The rows that get an item: valid ones, as far as there is room. */
  function ListedRows(rows: seq<Contribution>, commandItems: nat): seq<Contribution> {
    var room := if commandItems >= MAX_COMPOSER_ITEMS then 0 else MAX_COMPOSER_ITEMS - commandItems;
    Take(ValidRows(Take(rows, MAX_TRUSTED_COMPOSER_ITEMS)),
         if room < MAX_TRUSTED_COMPOSER_ITEMS then room else MAX_TRUSTED_COMPOSER_ITEMS)
  }

  function ItemsOf(ids: ItemIds, owner: Owner, commands: seq<AcpCommand>, rows: seq<Contribution>): seq<Item> {
    var plain := PlainCommands(commands, rows);
    var commandItems := CommandItems(ids, owner, plain, |plain|);
    var listed := ListedRows(rows, |commandItems|);
    commandItems + TrustedItems(ids, owner, listed, |listed|)
  }

  /** How often each key occurs. */
  method CountKeys<K(==)>(keys: seq<K>) returns (counts: map<K, nat>)
    ensures forall k :: k in counts <==> k in keys
    ensures forall k | k in counts :: counts[k] == Occurrences(keys, k)
  {
    counts := map[];
    for i := 0 to |keys|
      invariant forall k :: k in counts <==> k in keys[..i]
      invariant forall k | k in counts :: counts[k] == Occurrences(keys[..i], k)
    {
      OccurrencesSnoc(keys, i);
      var before := if keys[i] in counts then counts[keys[i]] else 0;
      if keys[i] !in counts {
        NoOccurrences(keys[..i], keys[i]);
      }
      counts := counts[keys[i] := before + 1];
    }
    assert keys[..|keys|] == keys;
  }

  lemma OccurrencesSnoc<K>(keys: seq<K>, i: nat)
    requires i < |keys|
    ensures forall k ::
              Occurrences(keys[..i + 1], k) == Occurrences(keys[..i], k) + if keys[i] == k then 1 else 0
    ensures forall k :: k in keys[..i + 1] <==> k in keys[..i] || k == keys[i]
  {
    assert keys[..i + 1][..i] == keys[..i];
  }

  lemma {:induction false} NoOccurrences<K>(keys: seq<K>, key: K)
    ensures Occurrences(keys, key) == 0 <==> key !in keys
  {
    if keys != [] {
      NoOccurrences(keys[..|keys| - 1], key);
      assert keys == keys[..|keys| - 1] + [keys[|keys| - 1]];
    }
  }

  lemma CommandItemsSnoc(ids: ItemIds, owner: Owner, commands: seq<AcpCommand>, i: nat)
    requires i < |commands|
    ensures var names, name := Names(commands), commands[i].name;
            name in names && names[i] == name &&
            CommandItems(ids, owner, commands, i + 1) == CommandItems(ids, owner, commands, i) +
              if name in names[..i] then [] else [CommandItem(ids, owner, commands[i], Occurrences(names, name) > 1)]
  {
    hide CommandItem, Occurrences;
    assert Names(commands)[i] == commands[i].name;
  }

  method ProjectCommands(ids: ItemIds, owner: Owner, commands: seq<AcpCommand>) returns (items: seq<Item>)
    ensures items == CommandItems(ids, owner, commands, |commands|)
  {
    var names := Names(commands);
    var counts := CountKeys(names);
    var emitted := {};
    items := [];
    assert CommandItems(ids, owner, commands, 0) == [];
    hide Names, CommandItem, CommandItems, Occurrences;
    for i := 0 to |commands|
      invariant forall name :: name in emitted <==> name in names[..i]
      invariant items == CommandItems(ids, owner, commands, i)
    {
      var command := commands[i];
      CommandItemsSnoc(ids, owner, commands, i);
      SliceLast(names, i + 1);
      if command.name in emitted {
        continue;
      }
      emitted := emitted + {command.name};
      items := items + [CommandItem(ids, owner, command, counts[command.name] > 1)];
    }
  }

  lemma TrustedItemsSnoc(ids: ItemIds, owner: Owner, rows: seq<Contribution>, i: nat)
    requires i < |rows|
    ensures var keys := RowKeys(rows);
            TrustedItems(ids, owner, rows, i + 1) == TrustedItems(ids, owner, rows, i) +
              if keys[i] in keys[..i] then [] else [TrustedItem(ids, owner, rows[i], Occurrences(keys, keys[i]) > 1)]
  {
    hide TrustedItem, Occurrences, RowKeys;
  }

  method ProjectTrusted(ids: ItemIds, owner: Owner, rows: seq<Contribution>) returns (items: seq<Item>)
    ensures items == TrustedItems(ids, owner, rows, |rows|)
  {
    var keys := RowKeys(rows);
    var counts := CountKeys(keys);
    var emitted := {};
    items := [];
    assert TrustedItems(ids, owner, rows, 0) == [];
    hide RowKeys, TrustedItem, TrustedItems, Occurrences;
    for i := 0 to |rows|
      invariant forall key :: key in emitted <==> key in keys[..i]
      invariant items == TrustedItems(ids, owner, rows, i)
    {
      TrustedItemsSnoc(ids, owner, rows, i);
      SliceLast(keys, i + 1);
      if keys[i] in emitted {
        continue;
      }
      emitted := emitted + {keys[i]};
      items := items + [TrustedItem(ids, owner, rows[i], counts[keys[i]] > 1)];
    }
  }

  method ProjectCatalog(ids: ItemIds, owner: Owner, revision: nat, payload: Json, rows: seq<Contribution>)
    returns (snapshot: Snapshot)
    ensures snapshot == Snapshot(owner.conversationId, revision, ItemsOf(ids, owner, Commands(payload), rows))
  {
    hide Commands, CommandItems, TrustedItems, ListedRows;
    var commands := PlainCommands(Commands(payload), rows);
    var items := ProjectCommands(ids, owner, commands);
    var more := ProjectTrusted(ids, owner, ListedRows(rows, |items|));
    snapshot := Snapshot(owner.conversationId, revision, items + more);
  }

  // ----- Dispatch

  datatype Dispatched = Dispatched(display: string, prompt: string, providerInput: Option<Invocation>)

  function FindItem(items: seq<Item>, id: string): Option<Item> {
    if items == [] then None
    else if items[0].id == id then Some(items[0])
    else FindItem(items[1..], id)
  }

  function WithId(ids: ItemIds, owner: Owner, rows: seq<Contribution>, id: string): seq<Contribution> {
    if rows == [] then []
    else (if TrustedId(ids, owner, rows[0]) == id then [rows[0]] else []) + WithId(ids, owner, rows[1..], id)
  }

  function Message(message: Result<string, CatalogError>): Result<Dispatched, CatalogError> {
    match message
    case Ok(text) => Ok(Dispatched(text, text, None))
    case Err(error) => Err(error)
  }

  function Invoke(agent: AgentId, payload: Json, row: Contribution, arguments: string)
    : Result<Dispatched, CatalogError>
  {
    match row.invocation
    case Some(AcpPromptTemplate(commandName)) => Message(CommandMessage(payload, commandName, Trim(arguments)))
    case Some(ProviderStructuredInput(adapterKind, _)) =>
      if agent == Codex && adapterKind == "codex" then
        var trimmed := Trim(arguments);
        Ok(Dispatched("$" + row.name + if trimmed == "" then "" else " " + trimmed, trimmed, row.invocation))
      else Err(ItemUnsupported)
    case _ => Err(ItemUnsupported)
  }

  function Dispatch(ids: ItemIds, owner: Owner, snapshot: Snapshot, payload: Json, revision: nat, id: string,
                    arguments: string): Result<Dispatched, CatalogError>
  {
    if ByteLength(arguments) > MAX_ACP_COMMAND_ARGUMENT_BYTES then Err(ArgumentsTooLong)
    else if snapshot.revision != revision then Err(StaleRevision)
    else
      var item := FindItem(snapshot.items, id);
      if item.None? then Err(ItemMissing)
      else if !item.value.Enabled() then Err(ItemDisabled)
      else if item.value.kind == Command then Message(CommandMessage(payload, item.value.name, Trim(arguments)))
      else if item.value.kind != Skill || owner.agent == OpenCode then Err(ItemUnsupported)
      else
        var matching := WithId(ids, owner, Contributions(owner.agent, payload), id);
        if matching == [] then Err(ItemMissing)
        else if |matching| > 1 || matching[0].disabledReason.Some? then Err(ItemDisabled)
        else Invoke(owner.agent, payload, matching[0], arguments)
  }
}
