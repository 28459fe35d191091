/** Which items a catalog lists, in which order and what they show, in terms of
    the payload and the rows alone. */
module ComposerListing {
  import opened Wrappers
  import opened Bytes
  import opened Json
  import opened Text
  import opened ComposerCatalog
  import opened ComposerAgreement
  import opened ComposerPayload

  // ----- Which rows are fit to be shown

  ghost predicate Fit(text: string, maxBytes: nat) {
    && (exists c | c in text :: !IsWhitespace(c))
    && (forall c | c in text :: !IsControl(c))
    && ByteLength(text) <= maxBytes
  }

  ghost predicate Presentable(row: Contribution) {
    Fit(row.identity, 512) && Fit(row.name, 256)
  }

  /** The row shows the command of this name as a skill. */
  ghost predicate Presents(row: Contribution, name: string) {
    Presentable(row) && row.kind == Skill && row.invocation == Some(AcpPromptTemplate(name))
  }

  ghost predicate Presented(rows: seq<Contribution>, name: string) {
    exists row | row in rows :: Presents(row, name)
  }

  lemma {:induction false} TrimStartIs(s: string) returns (before: string)
    ensures s == before + TrimStart(s) && forall c | c in before :: IsWhitespace(c)
    ensures TrimStart(s) != "" ==> !IsWhitespace(TrimStart(s)[0])
  {
    hide IsWhitespace;
    before := "";
    if s != "" && IsWhitespace(s[0]) {
      before := TrimStartIs(s[1..]);
      before := [s[0]] + before;
      assert s == [s[0]] + s[1..];
    }
  }

  lemma {:induction false} TrimEndIs(s: string) returns (after: string)
    ensures s == TrimEnd(s) + after && forall c | c in after :: IsWhitespace(c)
    ensures TrimEnd(s) != "" ==> TrimEnd(s)[0] == s[0] && !IsWhitespace(TrimEnd(s)[|TrimEnd(s)| - 1])
  {
    hide IsWhitespace;
    after := "";
    if s != "" && IsWhitespace(s[|s| - 1]) {
      after := TrimEndIs(s[..|s| - 1]);
      after := after + [s[|s| - 1]];
      SliceLast(s, |s|);
    }
  }

  /** Trimming takes the white space at both ends and nothing else. */
  lemma TrimIs(s: string) returns (before: string, after: string)
    ensures s == before + Trim(s) + after
    ensures (forall c | c in before :: IsWhitespace(c)) && (forall c | c in after :: IsWhitespace(c))
    ensures Trim(s) != "" ==> !IsWhitespace(Trim(s)[0]) && !IsWhitespace(Trim(s)[|Trim(s)| - 1])
  {
    hide IsWhitespace, TrimStart, TrimEnd;
    before := TrimStartIs(s);
    after := TrimEndIs(TrimStart(s));
    Associative(before, Trim(s), after);
  }

  lemma FitIff(text: string, maxBytes: nat)
    ensures ValidText(text, maxBytes) <==> Fit(text, maxBytes)
  {
    var before, after := TrimIs(text);
    hide IsWhitespace, IsControl, ByteLength, Trim;
    if Trim(text) != "" {
      assert Trim(text)[0] in text;
    }
    assert forall i | 0 <= i < |text| :: text[i] in text;
  }

  lemma PresentableIff(row: Contribution)
    ensures ValidRow(row) <==> Presentable(row)
  {
    FitIff(row.identity, 512);
    FitIff(row.name, 256);
    hide Fit, ValidText;
  }

  lemma PresentedIff(rows: seq<Contribution>, name: string)
    ensures Reclassified(rows, name) <==> Presented(rows, name)
  {
    hide ValidRow, Presentable;
    forall row
      ensures Reclassifies(row, name) <==> Presents(row, name)
    {
      PresentableIff(row);
    }
  }

  // ----- What items show

  /** As much of a text as a display has room for. */
  ghost predicate Capped(text: string, maxChars: nat, shown: string) {
    shown <= text && |shown| == if |text| <= maxChars then |text| else maxChars
  }

  ghost predicate CappedOption(text: Option<string>, maxChars: nat, shown: Option<string>) {
    if text.None? then shown.None? else shown.Some? && Capped(text.value, maxChars, shown.value)
  }

  /** The item stands for command `k`. */
  ghost predicate ShowsCommand(ids: ItemIds, owner: Owner, commands: seq<AcpCommand>, k: nat, item: Item)
    requires k < |commands|
  {
    var command := commands[k];
    && item.id == ids(ItemKey(owner, Command, StandardAcp, command.name))
    && item.kind == Command && item.name == command.name && item.scope == Session
    && CappedOption(Some(command.description), 512, item.description)
    && CappedOption(if command.input.TextInput? then command.input.hint else None, 160, item.inputHint)
    && item.sourceLabel == (match owner.agent
                            case ClaudeCode => "Claude Code command"
                            case Codex => "Codex command"
                            case OpenCode => "OpenCode command")
    && item.disabledReason ==
         if exists j :: 0 <= j < |commands| && j != k && commands[j].name == command.name
         then Some("ambiguous_source_identity")
         else if command.input.UnsupportedInput? then Some("unsupported_input")
         else None
  }

  /** The item stands for row `k`, one of those listed. */
  ghost predicate ShowsRow(ids: ItemIds, owner: Owner, rows: seq<Contribution>, listed: seq<nat>, k: nat, item: Item)
    requires k < |rows| && forall i | 0 <= i < |listed| :: listed[i] < |rows|
  {
    var row := rows[k];
    && item.id == ids(ItemKey(owner, row.kind, TrustedAdapter, row.identity))
    && item.kind == row.kind && item.name == row.name && item.scope == row.scope
    && CappedOption(row.description, 512, item.description)
    && CappedOption(row.inputHint, 160, item.inputHint)
    && Capped(row.sourceLabel, 160, item.sourceLabel)
    && if exists i :: 0 <= i < |listed| && listed[i] != k && SameKey(rows[listed[i]], row)
       then item.disabledReason == Some("ambiguous_source_identity")
       else if row.kind == Command then item.disabledReason == Some("unsupported_invocation")
       else if row.disabledReason.Some? then CappedOption(row.disabledReason, 160, item.disabledReason)
       else if row.invocation.None? then item.disabledReason == Some("invocation_unavailable")
       else item.disabledReason == None
  }

  ghost predicate SameKey(a: Contribution, b: Contribution) {
    a.kind == b.kind && a.identity == b.identity
  }

  /** The first of each name that no row presents gets an item, in their order. */
  ghost predicate ListsCommands(ids: ItemIds, owner: Owner, commands: seq<AcpCommand>, rows: seq<Contribution>,
                                items: seq<Item>, at: seq<nat>)
  {
    && Ascending(at) && |at| == |items|
    && (forall k: nat :: k in at <==>
          && k < |commands| && !Presented(rows, commands[k].name)
          && forall j | 0 <= j < k :: commands[j].name != commands[k].name)
    && forall i | 0 <= i < |at| :: at[i] < |commands| && ShowsCommand(ids, owner, commands, at[i], items[i])
  }

  /** Of the first 64 rows those fit to be shown are listed, as many as there is
      room for; the first of each kind and identity gets an item. */
  ghost predicate ListsRows(ids: ItemIds, owner: Owner, rows: seq<Contribution>, room: nat, items: seq<Item>,
                            listed: seq<nat>, at: seq<nat>)
  {
    && Listable(rows, room, listed)
    && Ascending(at) && |at| == |items|
    && (forall k: nat :: k in at <==>
          && k in listed && k < |rows|
          && forall j | j in listed && j < k :: !(j < |rows| && SameKey(rows[j], rows[k])))
    && forall i | 0 <= i < |at| :: at[i] < |rows| && ShowsRow(ids, owner, rows, listed, at[i], items[i])
  }

  ghost predicate Listable(rows: seq<Contribution>, room: nat, listed: seq<nat>) {
    && Ascending(listed) && |listed| <= room
    && (forall i | 0 <= i < |listed| :: listed[i] < |rows| && listed[i] < 64 && Presentable(rows[listed[i]]))
    && forall k: nat | k < |rows| && k < 64 && Presentable(rows[k]) && k !in listed ::
         |listed| == room && forall j | j in listed :: j < k
  }

  // ----- The catalog is listed so

  /** Those of the first `n` that are to be kept. */
  ghost function Kept<T>(all: seq<T>, n: nat, keep: iset<nat>): seq<T>
    requires n <= |all|
  {
    if n == 0 then [] else Kept(all, n - 1, keep) + if n - 1 in keep then [all[n - 1]] else []
  }

  lemma {:induction false} KeptAt<T>(all: seq<T>, n: nat, keep: iset<nat>) returns (at: seq<nat>)
    requires n <= |all|
    ensures Ascending(at) && |at| == |Kept(all, n, keep)|
    ensures forall k: nat :: k in at <==> k < n && k in keep
    ensures forall i | 0 <= i < |at| :: at[i] < n && Kept(all, n, keep)[i] == all[at[i]]
  {
    at := [];
    if n > 0 {
      at := KeptAt(all, n - 1, keep);
      if n - 1 in keep {
        AscendingSnoc(at, n - 1);
        at := at + [n - 1];
      }
    }
  }

  ghost function Unhidden(commands: seq<AcpCommand>, rows: seq<Contribution>): iset<nat> {
    iset k: nat | k < |commands| && !Reclassified(rows, commands[k].name)
  }

  lemma {:induction false} PlainIsKept(commands: seq<AcpCommand>, rows: seq<Contribution>, n: nat)
    requires n <= |commands|
    ensures PlainCommands(commands[..n], rows) == Kept(commands, n, Unhidden(commands, rows))
  {
    hide Reclassified;
    if n > 0 {
      PlainIsKept(commands, rows, n - 1);
      assert commands[..n][..n - 1] == commands[..n - 1];
    }
  }

  ghost function Firsts<T(!new)>(s: seq<T>): iset<nat> {
    iset k: nat | k < |s| && forall j | 0 <= j < k :: s[j] != s[k]
  }

  lemma FirstsAre<T(!new)>(s: seq<T>, k: nat)
    requires k < |s|
    ensures k in Firsts(s) <==> s[k] !in s[..k]
  {
  }

  ghost function AllCommandItems(ids: ItemIds, owner: Owner, commands: seq<AcpCommand>): (items: seq<Item>)
    ensures |items| == |commands|
  {
    var names := Names(commands);
    seq(|commands|, k requires 0 <= k < |commands| =>
      CommandItem(ids, owner, commands[k], Occurrences(names, names[k]) > 1))
  }

  ghost function AllTrustedItems(ids: ItemIds, owner: Owner, rows: seq<Contribution>): (items: seq<Item>)
    ensures |items| == |rows|
  {
    var keys := RowKeys(rows);
    seq(|rows|, k requires 0 <= k < |rows| =>
      TrustedItem(ids, owner, rows[k], Occurrences(keys, keys[k]) > 1))
  }

  lemma CommandItemAt(ids: ItemIds, owner: Owner, commands: seq<AcpCommand>, k: nat)
    requires k < |commands|
    ensures var names := Names(commands);
            AllCommandItems(ids, owner, commands)[k]
            == CommandItem(ids, owner, commands[k], Occurrences(names, names[k]) > 1)
  {
    hide CommandItem, Occurrences;
  }

  lemma TrustedItemAt(ids: ItemIds, owner: Owner, rows: seq<Contribution>, k: nat)
    requires k < |rows|
    ensures var keys := RowKeys(rows);
            AllTrustedItems(ids, owner, rows)[k]
            == TrustedItem(ids, owner, rows[k], Occurrences(keys, keys[k]) > 1)
  {
    hide TrustedItem, Occurrences;
  }

  lemma KeptSnoc<T>(all: seq<T>, n: nat, keep: iset<nat>)
    requires n < |all|
    ensures Kept(all, n + 1, keep) == Kept(all, n, keep) + if n in keep then [all[n]] else []
  {
  }

  lemma CommandItemKept(ids: ItemIds, owner: Owner, commands: seq<AcpCommand>, n: nat)
    requires n < |commands|
    requires CommandItems(ids, owner, commands, n)
          == Kept(AllCommandItems(ids, owner, commands), n, Firsts(Names(commands)))
    ensures CommandItems(ids, owner, commands, n + 1)
         == Kept(AllCommandItems(ids, owner, commands), n + 1, Firsts(Names(commands)))
  {
    hide CommandItem, Occurrences, Names, Firsts, CommandItems, Kept, AllCommandItems;
    FirstsAre(Names(commands), n);
    CommandItemAt(ids, owner, commands, n);
    CommandItemsSnoc(ids, owner, commands, n);
    KeptSnoc(AllCommandItems(ids, owner, commands), n, Firsts(Names(commands)));
  }

  lemma {:induction false} CommandItemsAreKept(ids: ItemIds, owner: Owner, commands: seq<AcpCommand>, n: nat)
    requires n <= |commands|
    ensures CommandItems(ids, owner, commands, n)
         == Kept(AllCommandItems(ids, owner, commands), n, Firsts(Names(commands)))
  {
    hide CommandItem, Occurrences, Names, Firsts, AllCommandItems;
    if n > 0 {
      CommandItemsAreKept(ids, owner, commands, n - 1);
      CommandItemKept(ids, owner, commands, n - 1);
    }
  }

  lemma TrustedItemKept(ids: ItemIds, owner: Owner, rows: seq<Contribution>, n: nat)
    requires n < |rows|
    requires TrustedItems(ids, owner, rows, n)
          == Kept(AllTrustedItems(ids, owner, rows), n, Firsts(RowKeys(rows)))
    ensures TrustedItems(ids, owner, rows, n + 1)
         == Kept(AllTrustedItems(ids, owner, rows), n + 1, Firsts(RowKeys(rows)))
  {
    hide TrustedItem, Occurrences, RowKeys, Firsts, TrustedItems, Kept, AllTrustedItems;
    FirstsAre(RowKeys(rows), n);
    TrustedItemAt(ids, owner, rows, n);
    TrustedItemsSnoc(ids, owner, rows, n);
    KeptSnoc(AllTrustedItems(ids, owner, rows), n, Firsts(RowKeys(rows)));
  }

  lemma {:induction false} TrustedItemsAreKept(ids: ItemIds, owner: Owner, rows: seq<Contribution>, n: nat)
    requires n <= |rows|
    ensures TrustedItems(ids, owner, rows, n)
         == Kept(AllTrustedItems(ids, owner, rows), n, Firsts(RowKeys(rows)))
  {
    hide TrustedItem, Occurrences, RowKeys, Firsts, AllTrustedItems;
    if n > 0 {
      TrustedItemsAreKept(ids, owner, rows, n - 1);
      TrustedItemKept(ids, owner, rows, n - 1);
    }
  }

  lemma TakeIsCapped(text: string, maxChars: nat)
    ensures Capped(text, maxChars, Take(text, maxChars))
  {
  }

  lemma DisplayIsCapped(text: Option<string>, maxChars: nat)
    ensures CappedOption(text, maxChars, Display(text, maxChars))
  {
  }

  lemma CommandIsShown(ids: ItemIds, owner: Owner, commands: seq<AcpCommand>, k: nat, duplicate: bool)
    requires k < |commands|
    requires duplicate <==> exists j :: 0 <= j < |commands| && j != k && commands[j].name == commands[k].name
    ensures ShowsCommand(ids, owner, commands, k, CommandItem(ids, owner, commands[k], duplicate))
  {
    TakeIsCapped(commands[k].description, 512);
    hide Capped, Take;
    var input := commands[k].input;
    if input.TextInput? {
      DisplayIsCapped(input.hint, 160);
    }
    hide Display;
  }

  lemma RowIsShown(ids: ItemIds, owner: Owner, rows: seq<Contribution>, listed: seq<nat>, k: nat, duplicate: bool)
    requires k < |rows| && forall i | 0 <= i < |listed| :: listed[i] < |rows|
    requires duplicate <==> exists i :: 0 <= i < |listed| && listed[i] != k && SameKey(rows[listed[i]], rows[k])
    ensures ShowsRow(ids, owner, rows, listed, k, TrustedItem(ids, owner, rows[k], duplicate))
  {
    var row := rows[k];
    TakeIsCapped(row.sourceLabel, 160);
    DisplayIsCapped(row.description, 512);
    DisplayIsCapped(row.inputHint, 160);
    DisplayIsCapped(row.disabledReason, 160);
    hide Capped, Take, Display, CappedOption, SameKey;
  }

  // ----- Together

  ghost predicate FirstAmong<T(!new)>(all: seq<T>, places: seq<nat>, k: nat) {
    k in places && k < |all| && forall j | j in places && j < k :: j < |all| ==> all[j] != all[k]
  }

  /** The first among those at some places are at the places of the first. */
  lemma FirstsAmong<T(!new)>(all: seq<T>, places: seq<nat>, picked: seq<T>, firsts: seq<nat>) returns (at: seq<nat>)
    requires Ascending(places) && |picked| == |places|
    requires forall i | 0 <= i < |places| :: places[i] < |all| && picked[i] == all[places[i]]
    requires Ascending(firsts) && forall k: nat :: k in firsts <==> k < |picked| && k in Firsts(picked)
    ensures |at| == |firsts| && forall i | 0 <= i < |at| :: firsts[i] < |places| && at[i] == places[firsts[i]]
    ensures Ascending(at)
    ensures forall k: nat :: k in at <==> FirstAmong(all, places, k)
  {
    assert forall i | 0 <= i < |firsts| :: firsts[i] in firsts;
    at := seq(|firsts|, i requires 0 <= i < |firsts| => places[firsts[i]]);
    assert Ascending(at);
    forall k: nat
      ensures k in at <==> FirstAmong(all, places, k)
    {
      if k in at {
        var i :| 0 <= i < |at| && at[i] == k;
        FirstStays(all, places, picked, firsts[i]);
      }
      if FirstAmong(all, places, k) {
        var m := FirstWas(all, places, picked, k);
        var i :| 0 <= i < |firsts| && firsts[i] == m;
        assert at[i] == k;
      }
    }
  }

  lemma FirstStays<T(!new)>(all: seq<T>, places: seq<nat>, picked: seq<T>, m: nat)
    requires Ascending(places) && |picked| == |places|
    requires forall i | 0 <= i < |places| :: places[i] < |all| && picked[i] == all[places[i]]
    requires m < |picked| && m in Firsts(picked)
    ensures FirstAmong(all, places, places[m])
  {
    forall j | j in places && j < places[m]
      ensures all[j] != all[places[m]]
    {
      var i :| 0 <= i < |places| && places[i] == j;
      assert i < m;
      assert picked[i] != picked[m];
    }
  }

  lemma FirstWas<T(!new)>(all: seq<T>, places: seq<nat>, picked: seq<T>, k: nat) returns (m: nat)
    requires Ascending(places) && |picked| == |places|
    requires forall i | 0 <= i < |places| :: places[i] < |all| && picked[i] == all[places[i]]
    requires FirstAmong(all, places, k)
    ensures m < |places| && places[m] == k && m in Firsts(picked)
  {
    m :| 0 <= m < |places| && places[m] == k;
    forall j | 0 <= j < m
      ensures picked[j] != picked[m]
    {
      assert places[j] in places && places[j] < k;
    }
  }

  /** Where the plain commands are among all, and where the first of each name
      are among the plain ones. */
  lemma PlainPlaces(commands: seq<AcpCommand>, rows: seq<Contribution>) returns (places: seq<nat>)
    ensures var plain := PlainCommands(commands, rows);
            && Ascending(places) && |places| == |plain|
            && (forall k: nat :: k in places <==> k < |commands| && !Reclassified(rows, commands[k].name))
            && forall i | 0 <= i < |places| :: places[i] < |commands| && plain[i] == commands[places[i]]
  {
    hide Reclassified;
    PlainIsKept(commands, rows, |commands|);
    assert commands[..|commands|] == commands;
    places := KeptAt(commands, |commands|, Unhidden(commands, rows));
  }

  lemma {:induction false} CommandsListed(ids: ItemIds, owner: Owner, commands: seq<AcpCommand>, rows: seq<Contribution>)
    returns (at: seq<nat>)
    ensures var plain := PlainCommands(commands, rows);
            ListsCommands(ids, owner, commands, rows, CommandItems(ids, owner, plain, |plain|), at)
  {
    hide PlainCommands, Kept, Firsts, CommandItems, CommandItem, ShowsCommand, Occurrences, Reclassified, Presented,
         Names, AllCommandItems, FirstAmong, Ascending;
    var plain := PlainCommands(commands, rows);
    var all := AllCommandItems(ids, owner, plain);
    var places := PlainPlaces(commands, rows);
    CommandItemsAreKept(ids, owner, plain, |plain|);
    var firsts := KeptAt(all, |plain|, Firsts(Names(plain)));
    at := FirstsAmong(Names(commands), places, Names(plain), firsts);
    forall i | 0 <= i < |at|
      ensures at[i] < |commands| && ShowsCommand(ids, owner, commands, at[i], all[firsts[i]])
    {
      PlainIsShown(ids, owner, commands, rows, places, firsts[i]);
    }
    forall k: nat
      ensures k in at <==>
              && k < |commands| && !Presented(rows, commands[k].name)
              && forall j | 0 <= j < k :: commands[j].name != commands[k].name
    {
      FirstOfNames(commands, rows, places, k);
    }
  }

  lemma PlainIsShown(ids: ItemIds, owner: Owner, commands: seq<AcpCommand>, rows: seq<Contribution>,
                     places: seq<nat>, m: nat)
    requires Ascending(places) && m < |places|
    requires forall k: nat :: k in places <==> k < |commands| && !Reclassified(rows, commands[k].name)
    requires |places| == |PlainCommands(commands, rows)|
    requires forall i | 0 <= i < |places| ::
               places[i] < |commands| && PlainCommands(commands, rows)[i] == commands[places[i]]
    ensures ShowsCommand(ids, owner, commands, places[m],
                         AllCommandItems(ids, owner, PlainCommands(commands, rows))[m])
  {
    var plain := PlainCommands(commands, rows);
    var names := Names(plain);
    CommandItemAt(ids, owner, plain, m);
    OccursTwice(names, m);
    SameNameElsewhere(commands, rows, places, m);
    hide PlainCommands, AllCommandItems, CommandItem, ShowsCommand, Occurrences, Reclassified, Names;
    CommandIsShown(ids, owner, commands, places[m], Occurrences(names, names[m]) > 1);
  }

  /** Whether a command is hidden depends on its name alone. */
  lemma FirstOfNames(commands: seq<AcpCommand>, rows: seq<Contribution>, places: seq<nat>, k: nat)
    requires forall k: nat :: k in places <==> k < |commands| && !Reclassified(rows, commands[k].name)
    ensures FirstAmong(Names(commands), places, k) <==>
            && k < |commands| && !Presented(rows, commands[k].name)
            && forall j | 0 <= j < k :: commands[j].name != commands[k].name
  {
    if k < |commands| {
      PresentedIff(rows, commands[k].name);
    }
    hide Reclassified, Presented;
    var names := Names(commands);
    if FirstAmong(names, places, k) {
      forall j | 0 <= j < k
        ensures commands[j].name != commands[k].name
      {
        assert j in places ==> names[j] != names[k];
      }
    }
  }

  lemma SameNameElsewhere(commands: seq<AcpCommand>, rows: seq<Contribution>, places: seq<nat>, m: nat)
    requires Ascending(places) && m < |places|
    requires forall k: nat :: k in places <==> k < |commands| && !Reclassified(rows, commands[k].name)
    requires |places| == |PlainCommands(commands, rows)|
    requires forall i | 0 <= i < |places| ::
               places[i] < |commands| && PlainCommands(commands, rows)[i] == commands[places[i]]
    ensures var names := Names(PlainCommands(commands, rows));
            (exists j :: 0 <= j < |names| && j != m && names[j] == names[m]) <==>
            exists j :: 0 <= j < |commands| && j != places[m] && commands[j].name == commands[places[m]].name
  {
    hide Reclassified, PlainCommands;
    var names := Names(PlainCommands(commands, rows));
    var k := places[m];
    if j :| 0 <= j < |names| && j != m && names[j] == names[m] {
      assert places[j] != k && commands[places[j]].name == commands[k].name;
    }
    if j :| 0 <= j < |commands| && j != k && commands[j].name == commands[k].name {
      assert k in places;
      assert j in places;
      var i :| 0 <= i < |places| && places[i] == j;
      assert names[i] == names[m];
    }
  }

  function WhenValid(row: Contribution): Option<Contribution> {
    if ValidRow(row) then Some(row) else None
  }

  lemma {:induction false} ValidRowsAreKept(rows: seq<Contribution>)
    ensures ValidRows(rows) == FilterMap(rows, WhenValid)
  {
    hide ValidRow;
    if rows != [] {
      ValidRowsAreKept(rows[1..]);
    }
  }

  lemma ValidPlaces(rows: seq<Contribution>) returns (valid: seq<nat>)
    ensures var kept := ValidRows(Take(rows, 64));
            && Ascending(valid) && |valid| == |kept| && |valid| <= 64
            && (forall k: nat :: k in valid <==> k < |rows| && k < 64 && Presentable(rows[k]))
            && forall i | 0 <= i < |valid| :: valid[i] < |rows| && kept[i] == rows[valid[i]]
  {
    hide ValidRow, Presentable, Ascending, FilterMap, ValidRows;
    var front := Take(rows, 64);
    ValidRowsAreKept(front);
    valid := FilterMapAt(front, WhenValid);
    AscendingBelow(valid, 64);
    forall k: nat
      ensures k in valid <==> k < |rows| && k < 64 && Presentable(rows[k])
    {
      if k < |rows| {
        PresentableIff(rows[k]);
      }
    }
  }

  lemma TakenBefore(valid: seq<nat>, room: nat)
    requires Ascending(valid)
    ensures Ascending(Take(valid, room))
    ensures forall k | k in valid && k !in Take(valid, room) ::
              |Take(valid, room)| == room && forall j | j in Take(valid, room) :: j < k
  {
    if |valid| > room {
      SliceAt(valid, room, |valid|);
    }
  }

  lemma ListedRowsAre(rows: seq<Contribution>, commandItems: nat)
    requires commandItems <= 256 && |ValidRows(Take(rows, 64))| <= 64
    ensures ListedRows(rows, commandItems) == Take(ValidRows(Take(rows, 64)), 256 - commandItems)
  {
    hide ValidRows;
  }

  lemma TakenIsListable(rows: seq<Contribution>, valid: seq<nat>, room: nat)
    requires Ascending(valid)
    requires forall k: nat :: k in valid <==> k < |rows| && k < 64 && Presentable(rows[k])
    ensures Listable(rows, room, Take(valid, room))
  {
    hide Presentable, Ascending;
    TakenBefore(valid, room);
    var listed := Take(valid, room);
    forall i | 0 <= i < |listed|
      ensures listed[i] in valid
    {
      assert listed[i] == valid[i];
    }
  }

  lemma RowPlaces(rows: seq<Contribution>, commandItems: nat) returns (listed: seq<nat>)
    requires commandItems <= 256
    ensures Listable(rows, 256 - commandItems, listed) && |listed| == |ListedRows(rows, commandItems)|
    ensures forall i | 0 <= i < |listed| :: listed[i] < |rows| && ListedRows(rows, commandItems)[i] == rows[listed[i]]
  {
    hide Presentable, ValidRows, ListedRows, Ascending, Listable;
    var valid := ValidPlaces(rows);
    ListedRowsAre(rows, commandItems);
    TakenIsListable(rows, valid, 256 - commandItems);
    listed := Take(valid, 256 - commandItems);
    assert forall i | 0 <= i < |listed| :: listed[i] == valid[i];
  }

  lemma SameKeyElsewhere(rows: seq<Contribution>, shown: seq<Contribution>, listed: seq<nat>, m: nat)
    requires Ascending(listed) && |listed| == |shown| && m < |listed|
    requires forall i | 0 <= i < |listed| :: listed[i] < |rows| && shown[i] == rows[listed[i]]
    ensures var keys := RowKeys(shown);
            (exists i :: 0 <= i < |keys| && i != m && keys[i] == keys[m]) <==>
            exists i :: 0 <= i < |listed| && listed[i] != listed[m] && SameKey(rows[listed[i]], rows[listed[m]])
  {
    var keys := RowKeys(shown);
    forall i | 0 <= i < |keys|
      ensures keys[i] == keys[m] <==> SameKey(rows[listed[i]], rows[listed[m]])
      ensures i != m <==> listed[i] != listed[m]
    {
    }
  }

  lemma ListedIsShown(ids: ItemIds, owner: Owner, rows: seq<Contribution>, shown: seq<Contribution>, listed: seq<nat>,
                      m: nat)
    requires Ascending(listed) && |listed| == |shown| && m < |listed|
    requires forall i | 0 <= i < |listed| :: listed[i] < |rows| && shown[i] == rows[listed[i]]
    ensures ShowsRow(ids, owner, rows, listed, listed[m], AllTrustedItems(ids, owner, shown)[m])
  {
    var keys := RowKeys(shown);
    TrustedItemAt(ids, owner, shown, m);
    OccursTwice(keys, m);
    SameKeyElsewhere(rows, shown, listed, m);
    hide AllTrustedItems, TrustedItem, ShowsRow, Occurrences, RowKeys, Ascending, SameKey;
    RowIsShown(ids, owner, rows, listed, listed[m], Occurrences(keys, keys[m]) > 1);
  }

  lemma FirstOfKeys(rows: seq<Contribution>, listed: seq<nat>, k: nat)
    ensures FirstAmong(RowKeys(rows), listed, k) <==>
            && k in listed && k < |rows|
            && forall j | j in listed && j < k :: !(j < |rows| && SameKey(rows[j], rows[k]))
  {
    var keys := RowKeys(rows);
    assert k < |rows| ==> forall j | 0 <= j < k :: keys[j] == keys[k] <==> SameKey(rows[j], rows[k]);
  }

  lemma RowsListed(ids: ItemIds, owner: Owner, rows: seq<Contribution>, commandItems: nat)
    returns (listed: seq<nat>, at: seq<nat>)
    requires commandItems <= 256
    ensures var shown := ListedRows(rows, commandItems);
            ListsRows(ids, owner, rows, 256 - commandItems, TrustedItems(ids, owner, shown, |shown|), listed, at)
  {
    hide ListedRows, Kept, Firsts, TrustedItems, TrustedItem, ShowsRow, Occurrences, RowKeys, AllTrustedItems,
         FirstAmong, SameKey, Presentable;
    var shown := ListedRows(rows, commandItems);
    var all := AllTrustedItems(ids, owner, shown);
    listed := RowPlaces(rows, commandItems);
    TrustedItemsAreKept(ids, owner, shown, |shown|);
    var firsts := KeptAt(all, |shown|, Firsts(RowKeys(shown)));
    hide Ascending, Listable;
    at := FirstsAmong(RowKeys(rows), listed, RowKeys(shown), firsts);
    forall i | 0 <= i < |at|
      ensures at[i] < |rows| && ShowsRow(ids, owner, rows, listed, at[i], all[firsts[i]])
    {
      ListedIsShown(ids, owner, rows, shown, listed, firsts[i]);
    }
    forall k: nat
      ensures k in at <==>
              && k in listed && k < |rows|
              && forall j | j in listed && j < k :: !(j < |rows| && SameKey(rows[j], rows[k]))
    {
      FirstOfKeys(rows, listed, k);
    }
  }

  /** The catalog lists the commands no row presents, then the rows there is
      room for. */
  lemma CatalogIs(ids: ItemIds, owner: Owner, payload: Json, rows: seq<Contribution>, revision: nat)
    returns (front: seq<Item>, back: seq<Item>, commandsAt: seq<nat>, listed: seq<nat>, rowsAt: seq<nat>)
    ensures Projected(ids, owner, payload, rows, revision).items == front + back && |front| <= 256
    ensures ListsCommands(ids, owner, Commands(payload), rows, front, commandsAt)
    ensures ListsRows(ids, owner, rows, 256 - |front|, back, listed, rowsAt)
  {
    hide PlainCommands, CommandItems, TrustedItems, ListsCommands, ListsRows, ListedRows, FilterMap;
    var commands := Commands(payload);
    var plain := PlainCommands(commands, rows);
    front := CommandItems(ids, owner, plain, |plain|);
    FewCommands(payload);
    PlainShrinks(commands, rows);
    CommandItemsShrink(ids, owner, plain, |plain|);
    commandsAt := CommandsListed(ids, owner, commands, rows);
    listed, rowsAt := RowsListed(ids, owner, rows, |front|);
    back := TrustedItems(ids, owner, ListedRows(rows, |front|), |ListedRows(rows, |front|)|);
  }

  // ----- Who has an item

  lemma {:induction false} FirstOfName(commands: seq<AcpCommand>, n: nat) returns (k: nat)
    requires n < |commands|
    ensures k <= n && commands[k].name == commands[n].name
    ensures forall j | 0 <= j < k :: commands[j].name != commands[n].name
  {
    k := n;
    if j :| 0 <= j < n && commands[j].name == commands[n].name {
      k := FirstOfName(commands, j);
    }
  }

  /** A name has an item as a command exactly if the agent advertises it and no
      row shows that very name as a skill. */
  lemma ListedIffAdvertised(ids: ItemIds, owner: Owner, payload: Json, rows: seq<Contribution>, revision: nat, name: Text)
    requires Injective(ids)
    ensures var items := Projected(ids, owner, payload, rows, revision).items;
            (exists item :: item in items && item.id == ids(ItemKey(owner, Command, StandardAcp, name))) <==>
            Advertised(payload, name) && !Presented(rows, name)
  {
    AdvertisedIffParsed(payload, name);
    hide Advertised, Presented, Projected, Commands, Ascending, ShowsRow, Listable;
    var commands := Commands(payload);
    var front, back, at, listed, rowsAt := CatalogIs(ids, owner, payload, rows, revision);
    var id := ids(ItemKey(owner, Command, StandardAcp, name));
    if item: Item :| item in front + back && item.id == id {
      if item in front {
        ItemIsCommand(ids, owner, commands, rows, front, at, item, name);
      } else {
        NoRowHasId(ids, owner, rows, 256 - |front|, back, listed, rowsAt, item, name);
      }
    }
    if n :| 0 <= n < |commands| && commands[n].name == name && !Presented(rows, name) {
      var item := CommandHasItem(ids, owner, commands, rows, front, at, n);
      assert item in front + back;
    }
  }

  lemma ItemIsCommand(ids: ItemIds, owner: Owner, commands: seq<AcpCommand>, rows: seq<Contribution>,
                      items: seq<Item>, at: seq<nat>, item: Item, name: Text)
    requires Injective(ids) && ListsCommands(ids, owner, commands, rows, items, at)
    requires item in items && item.id == ids(ItemKey(owner, Command, StandardAcp, name))
    ensures !Presented(rows, name) && exists k :: 0 <= k < |commands| && commands[k].name == name
  {
    hide Presented;
    var i :| 0 <= i < |items| && items[i] == item;
    assert at[i] in at;
    SameCommandId(ids, owner, commands[at[i]].name, name);
  }

  lemma CommandHasItem(ids: ItemIds, owner: Owner, commands: seq<AcpCommand>, rows: seq<Contribution>,
                       items: seq<Item>, at: seq<nat>, n: nat) returns (item: Item)
    requires ListsCommands(ids, owner, commands, rows, items, at)
    requires n < |commands| && !Presented(rows, commands[n].name)
    ensures item in items && item.id == ids(ItemKey(owner, Command, StandardAcp, commands[n].name))
  {
    hide Presented, Ascending;
    var k := FirstOfName(commands, n);
    assert k in at;
    var i :| 0 <= i < |at| && at[i] == k;
    item := items[i];
  }

  lemma {:induction false} NoRowHasId(ids: ItemIds, owner: Owner, rows: seq<Contribution>, room: nat, items: seq<Item>,
                   listed: seq<nat>, at: seq<nat>, item: Item, name: Text)
    requires Injective(ids) && ListsRows(ids, owner, rows, room, items, listed, at) && item in items
    ensures item.id != ids(ItemKey(owner, Command, StandardAcp, name))
  {
    hide Listable, Ascending, SameKey, CappedOption, Capped;
    var i :| 0 <= i < |items| && items[i] == item;
    CommandIdIsNotTrusted(ids, owner, name, rows[at[i]]);
  }

  /** Every command a Codex or OpenCode agent advertises has an item. */
  lemma OthersListAll(ids: ItemIds, owner: Owner, payload: Json, revision: nat, name: Text)
    requires Injective(ids) && owner.agent != ClaudeCode
    ensures var items := Projected(ids, owner, payload, Contributions(owner.agent, payload), revision).items;
            (exists item :: item in items && item.id == ids(ItemKey(owner, Command, StandardAcp, name))) <==>
            Advertised(payload, name)
  {
    var rows := Contributions(owner.agent, payload);
    hide Contributions, Presentable, Projected, Advertised, Injective;
    ListedIffAdvertised(ids, owner, payload, rows, revision, name);
    forall row | row in rows
      ensures !Presents(row, name)
    {
      ContributedRowIs(owner.agent, payload, row);
      CodexRowIs(payload, row);
    }
  }

  lemma {:induction false} FirstOfKey(rows: seq<Contribution>, listed: seq<nat>, n: nat) returns (k: nat)
    requires n in listed && n < |rows|
    ensures k <= n && k in listed && SameKey(rows[k], rows[n])
    ensures forall j | j in listed && j < k :: !SameKey(rows[j], rows[k])
  {
    k := n;
    if j :| j in listed && j < n && SameKey(rows[j], rows[n]) {
      k := FirstOfKey(rows, listed, j);
    }
  }

  /** A row fit to be shown, among the first 64, has an item of its kind and
      identity while there is room for it. */
  lemma RowIsListed(ids: ItemIds, owner: Owner, payload: Json, rows: seq<Contribution>, revision: nat, k: nat)
    requires k < |rows| && k < 64 && Presentable(rows[k]) && |Commands(payload)| + k < 256
    ensures exists item :: item in Projected(ids, owner, payload, rows, revision).items
                        && item.id == ids(ItemKey(owner, rows[k].kind, TrustedAdapter, rows[k].identity))
  {
    hide Projected, Presentable, ShowsCommand, CappedOption, Capped, Commands, Presented;
    var front, back, at, listed, rowsAt := CatalogIs(ids, owner, payload, rows, revision);
    AscendingBelow(at, |Commands(payload)|);
    if k !in listed {
      AscendingBelow(listed, k);
    }
    hide Ascending, ListsCommands, Listable;
    var first := FirstOfKey(rows, listed, k);
    assert first in rowsAt;
    var i :| 0 <= i < |rowsAt| && rowsAt[i] == first;
    assert ShowsRow(ids, owner, rows, listed, first, back[i]);
    assert (front + back)[|front| + i] == back[i];
  }

  // ----- What a pick sends, and when it is refused

  /** A Codex skill is shown as its name after a dollar sign; the agent gets the
      arguments, and the skill itself as structured input. */
  lemma CodexSkillSends(ids: ItemIds, owner: Owner, snapshot: Snapshot, payload: Json, revision: nat, id: string,
                        arguments: string) returns (row: Contribution)
    requires owner.agent == Codex && Dispatch(ids, owner, snapshot, payload, revision, id, arguments).Ok?
    requires FindItem(snapshot.items, id).Some? && FindItem(snapshot.items, id).value.kind == Skill
    ensures row in Contributions(Codex, payload) && row.kind == Skill && row.disabledReason == None
    ensures id == ids(ItemKey(owner, Skill, TrustedAdapter, row.identity))
    ensures var sent := Dispatch(ids, owner, snapshot, payload, revision, id, arguments).value;
            && sent.prompt == Trim(arguments)
            && sent.display == (if Trim(arguments) == "" then "$" + row.name else "$" + row.name + " " + Trim(arguments))
            && exists input ::
                 sent.providerInput == Some(ProviderStructuredInput("codex", Object(input))) && IsCodexInput(input, row)
  {
    hide Contributions, Commands, Trim, ByteLength, FindItem, WithId, CommandMessage, IsCodexInput;
    var rows := Contributions(Codex, payload);
    row := WithId(ids, owner, rows, id)[0];
    WithIdIsFiltered(ids, owner, rows, id, row);
    CodexRowIs(payload, row);
    CodexRowDeclared(payload, row);
    assert "$" + row.name + "" == "$" + row.name;
    assert "$" + row.name + (" " + Trim(arguments)) == "$" + row.name + " " + Trim(arguments);
  }

  lemma CodexRowDeclared(payload: Json, row: Contribution)
    requires row in Contributions(Codex, payload)
    ensures exists input ::
              row.invocation == Some(ProviderStructuredInput("codex", Object(input))) && IsCodexInput(input, row)
  {
    var skills := Take(AsArray(GetIn(Skills(payload, "codexSkills"), "skills")), MAX_TRUSTED_COMPOSER_ITEMS);
    assert Contributions(Codex, payload) == FilterMap(skills, CodexSkill);
    hide Contributions, CodexSkill, FilterMap, IsCodexInput;
    var skill := FilterMapFrom(skills, CodexSkill, row);
    CodexInputFieldsAre(skill, row);
  }

  lemma {:induction false} Finds(items: seq<Item>, id: string)
    ensures FindItem(items, id) == None <==> forall item | item in items :: item.id != id
    ensures FindItem(items, id).Some? ==> FindItem(items, id).value in items && FindItem(items, id).value.id == id
  {
    if items != [] {
      Finds(items[1..], id);
      assert items == [items[0]] + items[1..];
    }
  }

  /** Picks are refused for, in this order, too long arguments, a revision that
      is not current, an item that is not there, and one that is disabled. */
  lemma RefusedFor(ids: ItemIds, owner: Owner, snapshot: Snapshot, payload: Json, revision: nat, id: string,
                   arguments: string)
    ensures var result := Dispatch(ids, owner, snapshot, payload, revision, id, arguments);
            var missing := forall item | item in snapshot.items :: item.id != id;
            && (result == Err(ArgumentsTooLong) <==> ByteLength(arguments) > 8192)
            && (result == Err(StaleRevision) <==> ByteLength(arguments) <= 8192 && snapshot.revision != revision)
            && (ByteLength(arguments) <= 8192 && snapshot.revision == revision ==>
                  && (missing ==> result == Err(ItemMissing))
                  && (FindItem(snapshot.items, id).Some? && !FindItem(snapshot.items, id).value.Enabled() ==>
                        result == Err(ItemDisabled)))
  {
    Finds(snapshot.items, id);
    hide FindItem, ByteLength, Trim, Contributions, WithId, Commands, Named;
  }

  /** An enabled command refuses just missing and needless arguments. */
  lemma CommandRefuses(ids: ItemIds, owner: Owner, payload: Json, rows: seq<Contribution>, revision: nat, item: Item,
                       arguments: string)
    requires Injective(ids) && item in Projected(ids, owner, payload, rows, revision).items
    requires item.kind == Command && item.Enabled() && ByteLength(arguments) <= 8192
    ensures var result := Dispatch(ids, owner, Projected(ids, owner, payload, rows, revision), payload, revision,
                                   item.id, arguments);
            var bare := exists k :: OnlyAt(Commands(payload), item.name, k) && Commands(payload)[k].input.NoInput?;
            result == if bare && Trim(arguments) != "" then Err(UnexpectedInput)
                      else if !bare && Trim(arguments) == "" then Err(InputRequired)
                      else Ok(Dispatched(CommandText(item.name, Trim(arguments)),
                                         CommandText(item.name, Trim(arguments)), None))
  {
    ItemIsFound(ids, owner, payload, rows, revision, item);
    EnabledCommandIs(ids, owner, Commands(payload), rows, item);
    NamedIs(Commands(payload), item.name);
    hide Injective, Commands, Named, ItemsOf, FindItem, Trim, ByteLength, Contributions, WithId;
  }

  /** Items of other kinds are not supported, nor are skills of other agents. */
  lemma UnsupportedPick(ids: ItemIds, owner: Owner, snapshot: Snapshot, payload: Json, revision: nat, id: string,
                        arguments: string)
    requires ByteLength(arguments) <= 8192 && snapshot.revision == revision
    requires var item := FindItem(snapshot.items, id);
             item.Some? && item.value.Enabled() && item.value.kind != Command
             && (item.value.kind != Skill || owner.agent == OpenCode)
    ensures Dispatch(ids, owner, snapshot, payload, revision, id, arguments) == Err(ItemUnsupported)
  {
    hide FindItem, ByteLength, Trim, Contributions, WithId, Commands, Named;
  }

  lemma {:induction false} WithIdIsKept(ids: ItemIds, owner: Owner, rows: seq<Contribution>, id: string,
                                        keep: Contribution -> Option<Contribution>)
    requires forall row :: keep(row) == if TrustedId(ids, owner, row) == id then Some(row) else None
    ensures WithId(ids, owner, rows, id) == FilterMap(rows, keep)
  {
    hide TrustedId;
    if rows != [] {
      WithIdIsKept(ids, owner, rows[1..], id, keep);
    }
  }

  ghost predicate Twice(ids: ItemIds, owner: Owner, rows: seq<Contribution>, id: string) {
    exists j, k :: 0 <= j < k < |rows| && TrustedId(ids, owner, rows[j]) == id == TrustedId(ids, owner, rows[k])
  }

  lemma WithIdCounts(ids: ItemIds, owner: Owner, rows: seq<Contribution>, id: string)
    ensures |WithId(ids, owner, rows, id)| > 1 <==> Twice(ids, owner, rows, id)
  {
    hide TrustedId, WithId, FilterMap;
    var keep := (row: Contribution) => if TrustedId(ids, owner, row) == id then Some(row) else None;
    WithIdIsKept(ids, owner, rows, id, keep);
    var at := FilterMapAt(rows, keep);
    if |at| > 1 {
      assert at[0] in at && at[1] in at && at[0] < at[1];
      assert keep(rows[at[0]]).Some? && keep(rows[at[1]]).Some?;
    }
    if j, k :| 0 <= j < k < |rows| && TrustedId(ids, owner, rows[j]) == id == TrustedId(ids, owner, rows[k]) {
      assert j in at && k in at;
    }
  }

  /** An enabled skill is missing once no row of the payload has its id, and
      disabled once two have it, or one that is disabled. */
  lemma {:induction false} SkillRefuses(ids: ItemIds, owner: Owner, snapshot: Snapshot, payload: Json, revision: nat, id: string,
                     arguments: string)
    requires ByteLength(arguments) <= 8192 && snapshot.revision == revision && owner.agent != OpenCode
    requires var item := FindItem(snapshot.items, id);
             item.Some? && item.value.Enabled() && item.value.kind == Skill
    ensures var rows := Contributions(owner.agent, payload);
            var result := Dispatch(ids, owner, snapshot, payload, revision, id, arguments);
            && ((forall row | row in rows :: TrustedId(ids, owner, row) != id) <==> result == Err(ItemMissing))
            && (result == Err(ItemDisabled) <==>
                  || Twice(ids, owner, rows, id)
                  || exists row :: row in rows && TrustedId(ids, owner, row) == id && row.disabledReason.Some?)
  {
    hide FindItem, ByteLength, Trim, Contributions, WithId, Commands, Named, TrustedId, Twice, Invoke;
    var rows := Contributions(owner.agent, payload);
    var matching := WithId(ids, owner, rows, id);
    WithIdCounts(ids, owner, rows, id);
    forall row
      ensures row in matching <==> row in rows && TrustedId(ids, owner, row) == id
    {
      WithIdIsFiltered(ids, owner, rows, id, row);
    }
    if |matching| == 1 {
      assert forall row :: row in matching <==> row == matching[0];
      InvokeRefuses(owner.agent, payload, matching[0], arguments);
    }
    assert matching != [] ==> matching[0] in matching;
  }

  lemma InvokeRefuses(agent: AgentId, payload: Json, row: Contribution, arguments: string)
    ensures Invoke(agent, payload, row, arguments) != Err(ItemMissing)
    ensures Invoke(agent, payload, row, arguments) != Err(ItemDisabled)
  {
    hide Commands, Named, Trim;
  }
}
