/** Projecting a catalog and resolving a pick from it agree. */
module ComposerAgreement {
  import opened Wrappers
  import opened Json
  import opened Text
  import opened ComposerCatalog

  /** Distinct keys get distinct ids: the digest does not collide on them. */
  ghost predicate Injective(ids: ItemIds) {
    forall a, b :: ids(a) == ids(b) ==> a == b
  }

  function CommandText(name: string, arguments: string): string {
    if arguments == "" then "/" + name else "/" + name + " " + arguments
  }

  // ----- Whatever is dispatched is advertised

  /** Whatever the snapshot, dispatching succeeds only for a current revision and
      an enabled item, within the length cap; a command, or a Claude skill, then
      stands for exactly one command the agent advertises. */
  lemma {:induction false} DispatchedIsAdvertised(ids: ItemIds, owner: Owner, snapshot: Snapshot, payload: Json, revision: nat,
                               id: string, arguments: string)
    requires Dispatch(ids, owner, snapshot, payload, revision, id, arguments).Ok?
    ensures snapshot.revision == revision && ByteLength(arguments) <= MAX_ACP_COMMAND_ARGUMENT_BYTES
    ensures FindItem(snapshot.items, id).Some? && FindItem(snapshot.items, id).value.Enabled()
    ensures var item := FindItem(snapshot.items, id).value;
            var dispatched := Dispatch(ids, owner, snapshot, payload, revision, id, arguments).value;
            var rows := WithId(ids, owner, Contributions(owner.agent, payload), id);
            && item.kind in {Command, Skill}
            && (item.kind == Command ==>
                  |Named(Commands(payload), item.name)| == 1
                  && dispatched.display == dispatched.prompt == CommandText(item.name, Trim(arguments)))
            && (item.kind == Skill ==> |rows| == 1 && rows[0].disabledReason.None?)
            && (item.kind == Skill && owner.agent == ClaudeCode ==>
                  |Named(Commands(payload), rows[0].identity)| == 1
                  && dispatched.display == dispatched.prompt == CommandText(rows[0].identity, Trim(arguments)))
  {
    var item := FindItem(snapshot.items, id).value;
    var rows := WithId(ids, owner, Contributions(owner.agent, payload), id);
    if item.kind == Skill && owner.agent == ClaudeCode {
      WithIdIsFiltered(ids, owner, Contributions(owner.agent, payload), id, rows[0]);
      ClaudeRowIs(payload, rows[0]);
      MessageIs(payload, rows[0].identity, Trim(arguments));
    }
    MessageIs(payload, item.name, Trim(arguments));
    hide Commands, Contributions, Named, FindItem, WithId, ByteLength, Trim, CommandMessage, CommandText;
  }

  lemma MessageIs(payload: Json, name: string, arguments: string)
    ensures var message := CommandMessage(payload, name, arguments);
            message.Ok? ==> |Named(Commands(payload), name)| == 1 && message.value == CommandText(name, arguments)
  {
    hide Commands, Named;
  }

  lemma {:induction false} WithIdIsFiltered(ids: ItemIds, owner: Owner, rows: seq<Contribution>, id: string,
                                            row: Contribution)
    ensures row in WithId(ids, owner, rows, id) <==> row in rows && TrustedId(ids, owner, row) == id
  {
    hide TrustedId;
    if rows != [] {
      WithIdIsFiltered(ids, owner, rows[1..], id, row);
      assert rows == [rows[0]] + rows[1..];
    }
  }

  lemma {:induction false} FilterMapFrom<A, B>(items: seq<A>, f: A -> Option<B>, b: B) returns (a: A)
    requires b in FilterMap(items, f)
    ensures f(a) == Some(b)
  {
    if f(items[0]) == Some(b) {
      a := items[0];
    } else {
      a := FilterMapFrom(items[1..], f, b);
    }
  }

  /** A Claude skill invokes the command of its identity, and is not disabled
      only if there is just one, whose input is supported. */
  lemma ClaudeRowIs(payload: Json, row: Contribution)
    requires row in Contributions(ClaudeCode, payload)
    ensures row.kind == Skill && row.invocation == Some(AcpPromptTemplate(row.identity))
    ensures row.disabledReason.None? ==>
              |Named(Commands(payload), row.identity)| == 1
              && !Named(Commands(payload), row.identity)[0].input.UnsupportedInput?
  {
    hide Commands, Named, Take;
    var commands := Commands(payload);
    var f := skill => ClaudeSkill(commands, skill);
    var items := Take(AsArray(GetIn(Skills(payload, "claudeSkills"), "skills")), MAX_TRUSTED_COMPOSER_ITEMS);
    assert Contributions(ClaudeCode, payload) == FilterMap(items, f);
    var skill := FilterMapFrom(items, f, row);
    assert ClaudeSkill(commands, skill) == Some(row);
  }

  lemma CodexRowIs(payload: Json, row: Contribution)
    requires row in Contributions(Codex, payload)
    ensures row.kind == Skill && row.invocation.Some?
    ensures row.invocation.value.ProviderStructuredInput? && row.invocation.value.adapterKind == "codex"
  {
    hide Take, CodexScope;
    var items := Take(AsArray(GetIn(Skills(payload, "codexSkills"), "skills")), MAX_TRUSTED_COMPOSER_ITEMS);
    assert Contributions(Codex, payload) == FilterMap(items, CodexSkill);
    var skill := FilterMapFrom(items, CodexSkill, row);
  }

  // ----- Items have ids of their own

  lemma {:induction false} CommandItemFrom(ids: ItemIds, owner: Owner, commands: seq<AcpCommand>, n: nat, item: Item)
    returns (k: nat)
    requires n <= |commands| && item in CommandItems(ids, owner, commands, n)
    ensures k < n
    ensures item == CommandItem(ids, owner, commands[k], Occurrences(Names(commands), commands[k].name) > 1)
  {
    hide CommandItem, Occurrences, Names;
    if item in CommandItems(ids, owner, commands, n - 1) {
      k := CommandItemFrom(ids, owner, commands, n - 1, item);
    } else {
      k := n - 1;
    }
  }

  lemma {:induction false} TrustedItemFrom(ids: ItemIds, owner: Owner, rows: seq<Contribution>, n: nat, item: Item)
    returns (k: nat)
    requires n <= |rows| && item in TrustedItems(ids, owner, rows, n)
    ensures k < n
    ensures item == TrustedItem(ids, owner, rows[k], Occurrences(RowKeys(rows), RowKeys(rows)[k]) > 1)
  {
    hide TrustedItem, Occurrences, RowKeys;
    if item in TrustedItems(ids, owner, rows, n - 1) {
      k := TrustedItemFrom(ids, owner, rows, n - 1, item);
    } else {
      k := n - 1;
    }
  }

  predicate DistinctIds(items: seq<Item>) {
    forall i, j | 0 <= i < j < |items| :: items[i].id != items[j].id
  }

  lemma SameCommandId(ids: ItemIds, owner: Owner, a: Text, b: Text)
    requires Injective(ids) && CommandId(ids, owner, a) == CommandId(ids, owner, b)
    ensures a == b
  {
  }

  lemma SameTrustedId(ids: ItemIds, owner: Owner, a: Contribution, b: Contribution)
    requires Injective(ids) && TrustedId(ids, owner, a) == TrustedId(ids, owner, b)
    ensures a.kind == b.kind && a.identity == b.identity
  {
  }

  lemma CommandIdIsNotTrusted(ids: ItemIds, owner: Owner, name: Text, row: Contribution)
    requires Injective(ids)
    ensures CommandId(ids, owner, name) != TrustedId(ids, owner, row)
  {
    assert ItemKey(owner, Command, StandardAcp, name) != ItemKey(owner, row.kind, TrustedAdapter, row.identity);
  }

  lemma {:induction false} CommandIdsDistinct(ids: ItemIds, owner: Owner, commands: seq<AcpCommand>, n: nat)
    requires Injective(ids) && n <= |commands|
    ensures DistinctIds(CommandItems(ids, owner, commands, n))
  {
    hide Injective, Occurrences;
    if n > 0 {
      CommandIdsDistinct(ids, owner, commands, n - 1);
      var before := CommandItems(ids, owner, commands, n - 1);
      var name := commands[n - 1].name;
      forall item | item in before && item.id == CommandId(ids, owner, name)
        ensures name in Names(commands)[..n - 1]
      {
        var k := CommandItemFrom(ids, owner, commands, n - 1, item);
        SameCommandId(ids, owner, commands[k].name, name);
        assert Names(commands)[..n - 1][k] == name;
      }
    }
  }

  lemma {:induction false} TrustedIdsDistinct(ids: ItemIds, owner: Owner, rows: seq<Contribution>, n: nat)
    requires Injective(ids) && n <= |rows|
    ensures DistinctIds(TrustedItems(ids, owner, rows, n))
  {
    hide Injective, Occurrences;
    if n > 0 {
      TrustedIdsDistinct(ids, owner, rows, n - 1);
      var before := TrustedItems(ids, owner, rows, n - 1);
      var row := rows[n - 1];
      forall item | item in before && item.id == TrustedId(ids, owner, row)
        ensures RowKeys(rows)[n - 1] in RowKeys(rows)[..n - 1]
      {
        var k := TrustedItemFrom(ids, owner, rows, n - 1, item);
        SameTrustedId(ids, owner, rows[k], row);
        assert RowKeys(rows)[..n - 1][k] == RowKeys(rows)[n - 1];
      }
    }
  }

  lemma ItemIdsDistinct(ids: ItemIds, owner: Owner, commands: seq<AcpCommand>, rows: seq<Contribution>)
    requires Injective(ids)
    ensures DistinctIds(ItemsOf(ids, owner, commands, rows))
  {
    var plain := PlainCommands(commands, rows);
    var front := CommandItems(ids, owner, plain, |plain|);
    var listed := ListedRows(rows, |front|);
    var back := TrustedItems(ids, owner, listed, |listed|);
    hide Injective, Occurrences, PlainCommands, ListedRows, CommandItems, TrustedItems, Names, RowKeys;
    CommandIdsDistinct(ids, owner, plain, |plain|);
    TrustedIdsDistinct(ids, owner, listed, |listed|);
    forall i, j | 0 <= i < |front| && 0 <= j < |back|
      ensures front[i].id != back[j].id
    {
      var k := CommandItemFrom(ids, owner, plain, |plain|, front[i]);
      var r := TrustedItemFrom(ids, owner, listed, |listed|, back[j]);
      CommandIdIsNotTrusted(ids, owner, plain[k].name, listed[r]);
    }
  }

  lemma {:induction false} FindsItem(items: seq<Item>, item: Item)
    requires DistinctIds(items) && item in items
    ensures FindItem(items, item.id) == Some(item)
  {
    if items[0] != item {
      assert items == [items[0]] + items[1..];
      var i :| 0 <= i < |items| && items[i] == item;
      FindsItem(items[1..], item);
    }
  }

  // ----- Commands

  lemma {:induction false} NamedCount(commands: seq<AcpCommand>, name: string)
    ensures |Named(commands, name)| == Occurrences(Names(commands), name)
  {
    if commands != [] {
      var before := commands[..|commands| - 1];
      NamedCount(before, name);
      assert Names(commands)[..|commands| - 1] == Names(before);
      assert Names(commands)[|commands| - 1] == commands[|commands| - 1].name;
    }
  }

  lemma {:induction false} PlainCommandIs(commands: seq<AcpCommand>, rows: seq<Contribution>, name: string)
    ensures Named(PlainCommands(commands, rows), name) == if Reclassified(rows, name) then [] else Named(commands, name)
  {
    hide Reclassified;
    if commands != [] {
      var before, last := commands[..|commands| - 1], commands[|commands| - 1];
      PlainCommandIs(before, rows, name);
      var plain := PlainCommands(before, rows);
      NamedSnoc(plain, last, name);
      assert plain + [] == plain;
    }
  }

  lemma NamedSnoc(commands: seq<AcpCommand>, last: AcpCommand, name: string)
    ensures Named(commands + [last], name) == Named(commands, name) + if last.name == name then [last] else []
  {
    assert (commands + [last])[..|commands|] == commands;
  }

  lemma {:induction false} NamedHas(commands: seq<AcpCommand>, k: nat)
    requires k < |commands|
    ensures commands[k] in Named(commands, commands[k].name)
  {
    if k < |commands| - 1 {
      NamedHas(commands[..|commands| - 1], k);
    }
  }

  /** An enabled item of a command stands for one command, with a supported input. */
  lemma EnabledCommandIs(ids: ItemIds, owner: Owner, commands: seq<AcpCommand>, rows: seq<Contribution>, item: Item)
    requires item in ItemsOf(ids, owner, commands, rows) && item.kind == Command && item.Enabled()
    ensures |Named(commands, item.name)| == 1 && !Named(commands, item.name)[0].input.UnsupportedInput?
  {
    var plain := PlainCommands(commands, rows);
    var front := CommandItems(ids, owner, plain, |plain|);
    var listed := ListedRows(rows, |front|);
    hide Occurrences, PlainCommands, ListedRows, CommandItems, TrustedItems, Names, RowKeys, Named, Reclassified;
    if item in front {
      PlainItemIs(ids, owner, plain, item);
      PlainCommandIs(commands, rows, item.name);
    } else {
      var k := TrustedItemFrom(ids, owner, listed, |listed|, item);
      hide Display;
    }
  }

  lemma PlainItemIs(ids: ItemIds, owner: Owner, plain: seq<AcpCommand>, item: Item)
    requires item in CommandItems(ids, owner, plain, |plain|) && item.Enabled()
    ensures |Named(plain, item.name)| == 1 && !Named(plain, item.name)[0].input.UnsupportedInput?
  {
    hide Occurrences, CommandItems, Names, Named;
    var k := CommandItemFrom(ids, owner, plain, |plain|, item);
    NamedHas(plain, k);
    NamedCount(plain, item.name);
    assert Named(plain, item.name)[0] == plain[k];
  }

  /** The snapshot that a payload projects to. */
  function Projected(ids: ItemIds, owner: Owner, payload: Json, rows: seq<Contribution>, revision: nat): Snapshot {
    Snapshot(owner.conversationId, revision, ItemsOf(ids, owner, Commands(payload), rows))
  }

  /** Arguments succeed for an enabled command exactly if they are not too long
      and there are any just when the command takes input. */
  lemma {:induction false} EnabledCommandDispatches(ids: ItemIds, owner: Owner, payload: Json, rows: seq<Contribution>, revision: nat,
                                 item: Item, arguments: string)
    requires Injective(ids) && item in Projected(ids, owner, payload, rows, revision).items
    requires item.kind == Command && item.Enabled()
    ensures var snapshot := Projected(ids, owner, payload, rows, revision);
            && |Named(Commands(payload), item.name)| == 1
            && (Dispatch(ids, owner, snapshot, payload, revision, item.id, arguments).Ok? <==>
                  && ByteLength(arguments) <= MAX_ACP_COMMAND_ARGUMENT_BYTES
                  && (Trim(arguments) == "" <==> Named(Commands(payload), item.name)[0].input.NoInput?))
  {
    var snapshot := Projected(ids, owner, payload, rows, revision);
    ItemIdsDistinct(ids, owner, Commands(payload), rows);
    FindsItem(snapshot.items, item);
    EnabledCommandIs(ids, owner, Commands(payload), rows, item);
    hide Injective, Commands, Named, ItemsOf, FindItem, Trim, ByteLength, Contributions, WithId, DistinctIds;
  }

  lemma ShortArguments()
    ensures Trim("") == "" && ByteLength("") == 0
    ensures Trim("x") == "x" && ByteLength("x") == 1
  {
  }

  /** A listed command is enabled exactly if some arguments dispatch it. */
  lemma CommandEnabledIffDispatchable(ids: ItemIds, owner: Owner, payload: Json, rows: seq<Contribution>,
                                      revision: nat, item: Item)
    requires Injective(ids) && item in Projected(ids, owner, payload, rows, revision).items && item.kind == Command
    ensures var snapshot := Projected(ids, owner, payload, rows, revision);
            item.Enabled() <==>
            exists arguments :: Dispatch(ids, owner, snapshot, payload, revision, item.id, arguments).Ok?
  {
    var snapshot := Projected(ids, owner, payload, rows, revision);
    ItemIdsDistinct(ids, owner, Commands(payload), rows);
    FindsItem(snapshot.items, item);
    ShortArguments();
    hide Injective, DistinctIds, FindItem, Projected, Dispatch, Trim, ByteLength, Commands, Named;
    if item.Enabled() {
      EnabledCommandDispatches(ids, owner, payload, rows, revision, item, "");
      EnabledCommandDispatches(ids, owner, payload, rows, revision, item, "x");
    }
    if arguments :| Dispatch(ids, owner, snapshot, payload, revision, item.id, arguments).Ok? {
      DispatchedIsAdvertised(ids, owner, snapshot, payload, revision, item.id, arguments);
    }
  }

  // ----- Skills

  lemma {:induction false} ValidRowsAre(rows: seq<Contribution>, row: Contribution)
    ensures row in ValidRows(rows) <==> row in rows && ValidRow(row)
  {
    hide ValidRow;
    if rows != [] {
      ValidRowsAre(rows[1..], row);
      assert rows == [rows[0]] + rows[1..];
    }
  }

  lemma ListedRowIs(rows: seq<Contribution>, commandItems: nat, row: Contribution)
    requires row in ListedRows(rows, commandItems)
    ensures row in rows && ValidRow(row)
  {
    hide ValidRow, ValidRows;
    ValidRowsAre(Take(rows, MAX_TRUSTED_COMPOSER_ITEMS), row);
  }

  /** Every item but a command's stands for a row. */
  lemma SkillItemHasRow(ids: ItemIds, owner: Owner, commands: seq<AcpCommand>, rows: seq<Contribution>, item: Item)
    returns (row: Contribution)
    requires item in ItemsOf(ids, owner, commands, rows) && item.kind != Command
    ensures row in rows && ValidRow(row) && item.id == TrustedId(ids, owner, row) && item.kind == row.kind
    ensures item.Enabled() ==> row.disabledReason.None? && row.invocation.Some?
  {
    var plain := PlainCommands(commands, rows);
    var front := CommandItems(ids, owner, plain, |plain|);
    var listed := ListedRows(rows, |front|);
    hide Occurrences, PlainCommands, ListedRows, CommandItems, TrustedItems, Names, RowKeys, ValidRow;
    if item in front {
      var k := CommandItemFrom(ids, owner, plain, |plain|, item);
    } else {
      var k := TrustedItemFrom(ids, owner, listed, |listed|, item);
      row := listed[k];
      ListedRowIs(rows, |front|, row);
    }
  }

  /** How many rows of the payload have an identity, whatever else they say. */
  function WithIdentity(rows: seq<Contribution>, identity: string): nat {
    if rows == [] then 0
    else (if rows[0].identity == identity then 1 else 0) + WithIdentity(rows[1..], identity)
  }

  predicate AllSkills(rows: seq<Contribution>) {
    forall i | 0 <= i < |rows| :: rows[i].kind == Skill
  }

  lemma {:induction false} IdentityIsId(ids: ItemIds, owner: Owner, rows: seq<Contribution>, row: Contribution)
    requires Injective(ids) && AllSkills(rows) && row.kind == Skill
    ensures |WithId(ids, owner, rows, TrustedId(ids, owner, row))| == WithIdentity(rows, row.identity)
  {
    if rows != [] {
      IdentityIsId(ids, owner, rows[1..], row);
      if TrustedId(ids, owner, rows[0]) == TrustedId(ids, owner, row) {
        SameTrustedId(ids, owner, rows[0], row);
      }
    }
  }

  lemma ContributedRowIs(agent: AgentId, payload: Json, row: Contribution)
    requires row in Contributions(agent, payload)
    ensures row.kind == Skill && agent != OpenCode
  {
    if agent == ClaudeCode {
      ClaudeRowIs(payload, row);
    } else if agent == Codex {
      CodexRowIs(payload, row);
    }
  }

  lemma ContributionsAreSkills(agent: AgentId, payload: Json)
    ensures AllSkills(Contributions(agent, payload))
  {
    hide Contributions;
    var rows := Contributions(agent, payload);
    forall i | 0 <= i < |rows|
      ensures rows[i].kind == Skill
    {
      ContributedRowIs(agent, payload, rows[i]);
    }
  }

  /** A row that is not disabled can be invoked, given fitting arguments. */
  lemma RowInvokes(agent: AgentId, payload: Json, row: Contribution) returns (arguments: string)
    requires row in Contributions(agent, payload) && row.disabledReason.None?
    ensures Invoke(agent, payload, row, arguments).Ok? && ByteLength(arguments) <= 1
  {
    ShortArguments();
    arguments := "";
    if agent == ClaudeCode {
      ClaudeRowIs(payload, row);
      if Named(Commands(payload), row.identity)[0].input.TextInput? {
        arguments := "x";
      }
    } else if agent == Codex {
      CodexRowIs(payload, row);
    }
    hide Contributions, Commands, Named, Trim, ByteLength;
  }

  /** Projection checks rows before it looks for duplicates, dispatch does not:
      an enabled skill can be dispatched exactly if no other row of the payload,
      valid or not, has its identity. */
  lemma {:induction false} SkillDispatchableIffIdentityUnique(ids: ItemIds, owner: Owner, payload: Json, revision: nat, item: Item,
                                           row: Contribution)
    requires var rows := Contributions(owner.agent, payload);
             && Injective(ids) && item in Projected(ids, owner, payload, rows, revision).items
             && item.kind == Skill && item.Enabled()
             && row in rows && item.id == TrustedId(ids, owner, row)
    ensures var rows := Contributions(owner.agent, payload);
            var snapshot := Projected(ids, owner, payload, rows, revision);
            (exists arguments :: Dispatch(ids, owner, snapshot, payload, revision, item.id, arguments).Ok?)
            <==> WithIdentity(rows, row.identity) == 1
  {
    var rows := Contributions(owner.agent, payload);
    var snapshot := Projected(ids, owner, payload, rows, revision);
    ContributionsAreSkills(owner.agent, payload);
    ContributedRowIs(owner.agent, payload, row);
    IdentityIsId(ids, owner, rows, row);
    if arguments :| Dispatch(ids, owner, snapshot, payload, revision, item.id, arguments).Ok? {
      ItemIsFound(ids, owner, payload, rows, revision, item);
      hide Dispatch;
      DispatchedIsAdvertised(ids, owner, snapshot, payload, revision, item.id, arguments);
    }
    if WithIdentity(rows, row.identity) == 1 {
      var arguments := UniqueSkillDispatches(ids, owner, payload, revision, item, row);
    }
  }

  lemma ItemIsFound(ids: ItemIds, owner: Owner, payload: Json, rows: seq<Contribution>, revision: nat, item: Item)
    requires Injective(ids) && item in Projected(ids, owner, payload, rows, revision).items
    ensures FindItem(Projected(ids, owner, payload, rows, revision).items, item.id) == Some(item)
  {
    ItemIdsDistinct(ids, owner, Commands(payload), rows);
    hide ItemsOf, Injective, Commands, FindItem;
    FindsItem(Projected(ids, owner, payload, rows, revision).items, item);
  }

  lemma UniqueSkillDispatches(ids: ItemIds, owner: Owner, payload: Json, revision: nat, item: Item, row: Contribution)
    returns (arguments: string)
    requires var rows := Contributions(owner.agent, payload);
             && Injective(ids) && item in Projected(ids, owner, payload, rows, revision).items
             && item.kind == Skill && item.Enabled()
             && row in rows && item.id == TrustedId(ids, owner, row)
             && |WithId(ids, owner, rows, item.id)| == 1
    ensures var snapshot := Projected(ids, owner, payload, Contributions(owner.agent, payload), revision);
            Dispatch(ids, owner, snapshot, payload, revision, item.id, arguments).Ok?
  {
    var rows := Contributions(owner.agent, payload);
    hide Contributions, Commands, ItemsOf, WithId, FindItem, TrustedId, Injective;
    ItemIsFound(ids, owner, payload, rows, revision, item);
    var shown := SkillItemHasRow(ids, owner, Commands(payload), rows, item);
    WithIdIsFiltered(ids, owner, rows, item.id, shown);
    ContributedRowIs(owner.agent, payload, shown);
    arguments := RowInvokes(owner.agent, payload, shown);
    hide Invoke, ByteLength;
  }

  // ----- Two rows of one identity

  const COMMAND: AcpCommand := AcpCommand("a", "", NoInput)
  const SKILL: Contribution :=
    Contribution(Skill, "a", "a", None, "", User, None, None, Some(AcpPromptTemplate("a")))
  const NAMELESS: Contribution := SKILL.(name := "")

  function SkillJson(name: Text): Json {
    Object(map["identity" := Str("a"), "name" := Str(name), "scope" := Str("user"), "sourceLabel" := Str(""),
               "enabled" := Bool(true)])
  }

  function CommandsJson(): Json {
    Array([Object(map["name" := Str("a"), "description" := Str("")])])
  }

  function SkillsJson(): Json {
    Object(map["version" := Number(1), "supported" := Bool(true),
               "skills" := Array([SkillJson("a"), SkillJson("")])])
  }

  function TwoRows(): Json {
    Object(map["availableCommands" := CommandsJson(),
               "_meta" := Object(map["kubecode" := Object(map["claudeSkills" := SkillsJson()])])])
  }

  lemma FilterMapPair<A, B>(a: A, b: A, f: A -> Option<B>, x: B, y: B)
    requires f(a) == Some(x) && f(b) == Some(y)
    ensures FilterMap([a, b], f) == [x, y] && FilterMap([a], f) == [x]
  {
    assert [a, b][1..] == [b] && [b][1..] == [] && [a][1..] == [];
    assert FilterMap([b], f) == [y];
  }

  lemma CommandParses(value: Json)
    requires value == Object(map["name" := Str("a"), "description" := Str("")])
    ensures ParseCommand(value) == Some(COMMAND)
  {
    assert ByteLength("a") == 1;
  }

  lemma TwoRowsCommands()
    ensures Commands(TwoRows()) == [COMMAND]
  {
    var value := Object(map["name" := Str("a"), "description" := Str("")]);
    CommandParses(value);
    assert AsArray(Get(TwoRows(), "availableCommands")) == [value];
    FilterMapPair(value, value, ParseCommand, COMMAND, COMMAND);
  }

  lemma SkillFields(name: Text)
    ensures var skill := SkillJson(name);
            && AsStr(Get(skill, "identity")) == Some("a") && AsStr(Get(skill, "name")) == Some(name)
            && AsStr(Get(skill, "scope")) == Some("user") && AsStr(Get(skill, "sourceLabel")) == Some("")
            && Get(skill, "enabled") == Some(Bool(true))
  {
  }

  lemma SkillLacks(name: Text)
    ensures var skill := SkillJson(name);
            AsStr(Get(skill, "description")) == None && AsStr(Get(skill, "inputHint")) == None
  {
  }

  lemma SkillParses(name: Text)
    ensures ClaudeSkill([COMMAND], SkillJson(name)) == Some(SKILL.(name := name))
  {
    SkillFields(name);
    SkillLacks(name);
    assert Named([COMMAND], "a") == [COMMAND];
    assert ClaudeScope("user") == Some(User);
    hide SkillJson, Named, ClaudeScope, AsStr, Get;
  }

  lemma TwoRowsMetadata()
    ensures var metadata := Skills(TwoRows(), "claudeSkills");
            Declared(metadata) && AsArray(GetIn(metadata, "skills")) == [SkillJson("a"), SkillJson("")]
  {
    hide SkillJson, CommandsJson;
    assert Skills(TwoRows(), "claudeSkills") == Some(SkillsJson());
  }

  lemma {:induction false} TwoRowsSkills()
    ensures Contributions(ClaudeCode, TwoRows()) == [SKILL, NAMELESS]
  {
    TwoRowsCommands();
    TwoRowsMetadata();
    SkillParses("a");
    SkillParses("");
    hide TwoRows, Commands, ClaudeSkill, SkillJson, Declared, Skills, GetIn, AsArray, FilterMap;
    var commands := [COMMAND];
    FilterMapPair(SkillJson("a"), SkillJson(""), skill => ClaudeSkill(commands, skill), SKILL, NAMELESS);
  }

  lemma TwoRowsListed(commandItems: nat)
    requires commandItems <= 1
    ensures ListedRows([SKILL, NAMELESS], commandItems) == [SKILL] && WithIdentity([SKILL, NAMELESS], "a") == 2
  {
    var rows := [SKILL, NAMELESS];
    assert Trim("a") == "a" && ByteLength("a") == 1;
    assert ValidRow(SKILL) && !ValidRow(NAMELESS);
    assert rows[1..] == [NAMELESS] && [NAMELESS][1..] == [];
    assert ValidRows([NAMELESS]) == [];
    assert ValidRows(rows) == [SKILL];
    assert WithIdentity([NAMELESS], "a") == 1;
  }

  /** A row without a name is not listed, but counts when a skill of its identity
      is dispatched: that skill is listed as enabled and never runs. */
  lemma {:induction false} EnabledSkillNeverRuns(ids: ItemIds, projectId: Text, conversationId: Text, revision: nat)
    returns (item: Item)
    requires Injective(ids)
    ensures var owner := Owner(projectId, conversationId, ClaudeCode);
            var rows := Contributions(ClaudeCode, TwoRows());
            var snapshot := Projected(ids, owner, TwoRows(), rows, revision);
            item in snapshot.items && item.kind == Skill && item.Enabled()
            && forall arguments :: Dispatch(ids, owner, snapshot, TwoRows(), revision, item.id, arguments).Err?
  {
    var owner := Owner(projectId, conversationId, ClaudeCode);
    var rows := [SKILL, NAMELESS];
    TwoRowsCommands();
    TwoRowsSkills();
    hide Contributions, TwoRows, Commands, Dispatch, Injective;
    item := TrustedItem(ids, owner, SKILL, false);
    OneListed(ids, owner, rows);
    SkillDispatchableIffIdentityUnique(ids, owner, TwoRows(), revision, item, SKILL);
    TwoRowsListed(0);
  }

  lemma OneListed(ids: ItemIds, owner: Owner, rows: seq<Contribution>)
    requires rows == [SKILL, NAMELESS]
    ensures TrustedItem(ids, owner, SKILL, false) in ItemsOf(ids, owner, [COMMAND], rows)
  {
    hide ListedRows, PlainCommands, Names, TrustedItem, CommandItem, Reclassified;
    var plain := PlainCommands([COMMAND], rows);
    var front := CommandItems(ids, owner, plain, |plain|);
    PlainShrinks([COMMAND], rows);
    CommandItemsShrink(ids, owner, plain, |plain|);
    TwoRowsListed(|front|);
    var listed := [SKILL];
    var key := (Skill, "a");
    assert RowKeys(listed) == [key];
    assert [key][..0] == [];
    assert Occurrences([key], key) == 1;
    assert TrustedItems(ids, owner, listed, 0) == [];
    assert TrustedItems(ids, owner, listed, 1) == [TrustedItem(ids, owner, SKILL, false)];
  }

  lemma {:induction false} PlainShrinks(commands: seq<AcpCommand>, rows: seq<Contribution>)
    ensures |PlainCommands(commands, rows)| <= |commands|
  {
    hide Reclassified;
    if commands != [] {
      PlainShrinks(commands[..|commands| - 1], rows);
    }
  }

  lemma {:induction false} CommandItemsShrink(ids: ItemIds, owner: Owner, commands: seq<AcpCommand>, n: nat)
    requires n <= |commands|
    ensures |CommandItems(ids, owner, commands, n)| <= n
  {
    hide CommandItem;
    if n > 0 {
      CommandItemsShrink(ids, owner, commands, n - 1);
    }
  }
}
