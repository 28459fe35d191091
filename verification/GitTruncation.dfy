/** What is left of `git status` output that is cut at a limit, entry by entry. */
module GitTruncation {
  import opened Wrappers
  import opened Bytes
  import opened GitCollector
  import opened GitStatus
  import opened GitPrint
  import Utf8

  ghost predicate AllOk(items: seq<Item>) {
    forall i | 0 <= i < |items| :: ItemOk(items[i])
  }

  ghost function Files(items: seq<Item>): nat {
    if items == [] then 0 else (if items[0].File? then 1 else 0) + Files(items[1..])
  }

  ghost function ItemBytes(item: Item): Bytes {
    Terminated(RecordsOf(item))
  }

  lemma {:induction false} TerminatedConcat(a: seq<Bytes>, b: seq<Bytes>)
    ensures Terminated(a + b) == Terminated(a) + Terminated(b)
  {
    if a == [] {
      assert a + b == b;
    } else {
      TerminatedConcat(a[1..], b);
      assert (a + b)[0] == a[0] && (a + b)[1..] == a[1..] + b;
      Associative(a[0] + [NUL], Terminated(a[1..]), Terminated(b));
    }
  }

  lemma PrintedCons(items: seq<Item>)
    requires items != []
    ensures Printed(items) == ItemBytes(items[0]) + Printed(items[1..])
  {
    TerminatedConcat(RecordsOf(items[0]), AllRecords(items[1..]));
  }

  lemma OneRecord(record: Bytes)
    ensures Terminated([record]) == record + [NUL]
  {
    assert [record][1..] == [];
  }

  lemma TwoRecordsTerminated(record: Bytes, original: Bytes)
    ensures Terminated([record] + [original]) == record + [NUL] + (original + [NUL])
  {
    assert ([record] + [original])[1..] == [original];
    OneRecord(original);
  }

  /** What the first bytes of any record say. */
  lemma FirstBytes(record: Bytes)
    ensures StartsRename(record) <==> [50, 32] <= record
    ensures StartsFile(record) <==> record != [] && record[0] in [49, 50, 117, 63]
  {
  }

  /** What they say of its item. */
  lemma RecordStarts(item: Item)
    requires ItemOk(item)
    ensures var record := RecordsOf(item)[0];
            && NUL !in record && record != []
            && (StartsFile(record + [NUL]) <==> item.File?)
            && (StartsRename(record + [NUL]) <==> item.File? && item.entry.Renamed?)
  {
    var record := RecordsOf(item)[0];
    ItemRecordsOk(item);
    assert record in RecordsOf(item);
    if item.File? {
      RecordShape(item.entry);
    }
    hide RecordOf, ItemOk, EntryOk;
    assert (record + [NUL])[0] == record[0];
  }

  /** An item is the first group of what it starts. */
  lemma ItemIsGroup(item: Item, tail: Bytes)
    requires ItemOk(item)
    ensures var group := ItemBytes(item);
            && group != [] && FirstGroup(group + tail) == Some(|group|)
            && (StartsFile(group) <==> item.File?)
  {
    RecordStarts(item);
    var record, group := RecordsOf(item)[0], ItemBytes(item);
    ItemRecordsOk(item);
    if item.File? && item.entry.Renamed? {
      var original := item.entry.original;
      assert original in RecordsOf(item);
      TwoRecordsTerminated(record, original);
      hide RecordsOf, ItemOk, StartsFile;
      RenameIsGroup(record, original, tail);
    } else {
      assert RecordsOf(item) == [record];
      OneRecord(record);
      hide RecordsOf, ItemOk, StartsFile;
      PlainIsGroup(record, tail);
    }
    StartOfGroup(record, group);
  }

  lemma StartOfGroup(record: Bytes, group: Bytes)
    requires record != [] && record <= group
    ensures StartsFile(group) <==> StartsFile(record + [NUL])
  {
  }

  lemma PlainIsGroup(record: Bytes, tail: Bytes)
    requires NUL !in record && !StartsRename(record + [NUL])
    ensures FirstGroup(record + [NUL] + tail) == Some(|record| + 1)
  {
    FirstRecordAfter(record, tail);
    hide StartsRename, FirstRecord;
    assert (record + [NUL] + tail)[..|record| + 1] == record + [NUL];
  }

  lemma RenameIsGroup(record: Bytes, original: Bytes, tail: Bytes)
    requires NUL !in record && NUL !in original && StartsRename(record + [NUL])
    ensures FirstGroup(record + [NUL] + (original + [NUL]) + tail) == Some(|record| + 1 + (|original| + 1))
  {
    var input := record + [NUL] + (original + [NUL]) + tail;
    var below := original + [NUL] + tail;
    assert input == record + [NUL] + below;
    FirstRecordAfter(record, below);
    FirstRecordAfter(original, tail);
    hide StartsRename, FirstRecord;
    assert input[..|record| + 1] == record + [NUL] && input[|record| + 1..] == below;
  }

  /** These items are kept: they fit, and none comes after the last file allowed. */
  ghost predicate IsKept(items: seq<Item>, k: nat, maxBytes: nat, maxRecords: nat) {
    && k <= |items| && |Printed(items[..k])| <= maxBytes && Files(items[..k]) <= maxRecords
    && (forall j | 0 <= j < k :: Files(items[..j]) < maxRecords)
    && (k < |items| ==> Files(items[..k]) == maxRecords || |Printed(items[..k + 1])| > maxBytes)
  }

  lemma FrontCons(items: seq<Item>, k: nat)
    requires 0 < k <= |items|
    ensures Printed(items[..k]) == ItemBytes(items[0]) + Printed(items[1..][..k - 1])
    ensures Files(items[..k]) == (if items[0].File? then 1 else 0) + Files(items[1..][..k - 1])
  {
    assert items[..k][1..] == items[1..][..k - 1];
    PrintedCons(items[..k]);
  }

  lemma IsKeptCons(items: seq<Item>, k: nat, maxBytes: nat, maxRecords: nat)
    requires items != [] && maxRecords > 0 && |ItemBytes(items[0])| <= maxBytes
    requires IsKept(items[1..], k, maxBytes - |ItemBytes(items[0])|, maxRecords - if items[0].File? then 1 else 0)
    ensures IsKept(items, k + 1, maxBytes, maxRecords)
    ensures Printed(items[..k + 1]) == ItemBytes(items[0]) + Printed(items[1..][..k])
  {
    hide ItemBytes, Printed;
    FrontCons(items, k + 1);
    if k + 1 < |items| {
      FrontCons(items, k + 2);
    }
    forall j | 0 <= j < k + 1
      ensures Files(items[..j]) < maxRecords
    {
      if j > 0 {
        FrontCons(items, j);
        assert Files(items[1..][..j - 1]) < maxRecords - if items[0].File? then 1 else 0;
      }
    }
  }

  lemma NoneKept(items: seq<Item>, maxBytes: nat, maxRecords: nat)
    requires items == [] || maxRecords == 0 || |ItemBytes(items[0])| > maxBytes
    ensures IsKept(items, 0, maxBytes, maxRecords) && Printed(items[..0]) == []
  {
    assert items[..0] == [];
    assert Printed([]) == [];
    if items != [] {
      FrontCons(items, 1);
      hide ItemBytes, Printed;
    }
  }

  lemma KeptGroup(group: Bytes, below: Bytes, maxBytes: nat, maxRecords: nat)
    requires FirstGroup(group + below) == Some(|group|)
    ensures KeptLength(group + below, maxBytes, maxRecords) ==
              if maxRecords == 0 || |group| > maxBytes then 0
              else |group| + KeptLength(below, maxBytes - |group|, maxRecords - if StartsFile(group) then 1 else 0)
  {
    hide FirstGroup, KeptLength, StartsFile;
    KeptStep(group + below, maxBytes, maxRecords);
    assert (group + below)[..|group|] == group && (group + below)[|group|..] == below;
  }

  lemma KeptCons(items: seq<Item>, maxBytes: nat, maxRecords: nat)
    requires items != [] && ItemOk(items[0])
    ensures var group := ItemBytes(items[0]);
            && Printed(items) == group + Printed(items[1..])
            && KeptLength(Printed(items), maxBytes, maxRecords) ==
                 if maxRecords == 0 || |group| > maxBytes then 0
                 else |group| + KeptLength(Printed(items[1..]), maxBytes - |group|,
                                           maxRecords - if items[0].File? then 1 else 0)
  {
    hide ItemBytes, Printed, FirstGroup, KeptLength, StartsFile, ItemOk;
    PrintedCons(items);
    ItemIsGroup(items[0], Printed(items[1..]));
    KeptGroup(ItemBytes(items[0]), Printed(items[1..]), maxBytes, maxRecords);
  }

  lemma NothingKept(none: seq<Item>, maxBytes: nat, maxRecords: nat)
    requires none == []
    ensures Printed(none) == [] && KeptLength(Printed(none), maxBytes, maxRecords) == 0
  {
    assert FirstGroup([]) == None;
  }

  lemma {:induction false} KeptAreItems(items: seq<Item>, maxBytes: nat, maxRecords: nat) returns (k: nat)
    requires AllOk(items)
    ensures k <= |items| && IsKept(items, k, maxBytes, maxRecords)
    ensures KeptLength(Printed(items), maxBytes, maxRecords) == |Printed(items[..k])|
    ensures Printed(items[..k]) <= Printed(items) && (Printed(items[..k]) == Printed(items) <==> k == |items|)
  {
    hide ItemBytes, Printed, KeptLength, IsKept, ItemOk;
    k := 0;
    if items == [] {
      NoneKept(items, maxBytes, maxRecords);
      NothingKept(items, maxBytes, maxRecords);
    } else {
      KeptCons(items, maxBytes, maxRecords);
      GroupIsNotEmpty(items[0]);
      if maxRecords == 0 || |ItemBytes(items[0])| > maxBytes {
        NoneKept(items, maxBytes, maxRecords);
      } else {
        var group := ItemBytes(items[0]);
        var n := KeptAreItems(items[1..], maxBytes - |group|, maxRecords - if items[0].File? then 1 else 0);
        IsKeptCons(items, n, maxBytes, maxRecords);
        SamePrefix(group, Printed(items[1..][..n]), Printed(items[1..]));
        k := n + 1;
      }
    }
  }

  lemma GroupIsNotEmpty(item: Item)
    requires ItemOk(item)
    ensures ItemBytes(item) != []
  {
    ItemIsGroup(item, []);
  }

  lemma PrefixIs(part: Bytes, whole: Bytes)
    requires part <= whole
    ensures whole[..|part|] == part && (|part| < |whole| <==> part != whole)
  {
  }

  lemma SamePrefix(group: Bytes, part: Bytes, whole: Bytes)
    requires part <= whole
    ensures group + part <= group + whole && (group + part == group + whole <==> part == whole)
  {
    assert (group + part)[|group|..] == part && (group + whole)[|group|..] == whole;
  }

  /** Of what git prints, the collector keeps the items that fit, up to the last
      file allowed, and says whether there were more; and they parse to what they
      tell. */
  lemma TruncatedStatusIs(items: seq<Item>, maxBytes: nat, maxRecords: nat) returns (k: nat)
    requires AllOk(items)
    ensures k <= |items| && IsKept(items, k, maxBytes, maxRecords)
    ensures Collected(Printed(items), maxBytes, maxRecords) == (Printed(items[..k]), k < |items|)
    ensures var (output, truncated) := Collected(Printed(items), maxBytes, maxRecords);
            Parsed(output, truncated) == Some(Told(items[..k], Status(None, [], k < |items|)))
  {
    hide Printed, Collected, Parsed, Told, IsKept, KeptLength, Admissible, ItemOk;
    k := KeptAreItems(items, maxBytes, maxRecords);
    CollectedIsLongestPrefix(Printed(items), maxBytes, maxRecords);
    PrefixIs(Printed(items[..k]), Printed(items));
    assert forall item | item in items[..k] :: ItemOk(item);
    ParsingUndoesPrinting(items[..k], k < |items|);
  }
}
