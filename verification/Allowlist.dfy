/** The source-address allowlist of the agent listener (idp-agent-gateway/src/allowlist.js). */
module Allowlist {
  import opened Wrappers
  import opened IpMatch

  const MAX_ENTRIES := 256
  const MAX_NOTE_LENGTH := 120

  datatype Item = Item(entry: string, note: string, addedBy: Option<string>)

  /** An element of the file: its `entry` need not be a rule, and may not even be a text. */
  datatype FileItem = FileItem(entry: Option<string>, note: string, addedBy: Option<string>)

  function Clip(note: string): string {
    if |note| <= MAX_NOTE_LENGTH then note else note[..MAX_NOTE_LENGTH]
  }

  function Entries(items: seq<Item>): seq<string> {
    seq(|items|, i requires 0 <= i < |items| => items[i].entry)
  }

  predicate Listed(items: seq<Item>, entry: string) {
    exists i :: 0 <= i < |items| && items[i].entry == entry
  }

  predicate Distinct(items: seq<Item>) {
    forall i, j | 0 <= i < j < |items| :: items[i].entry != items[j].entry
  }

  predicate IsCanonical(x: Item) {
    NormalizeRule(x.entry) == Some(x.entry) && |x.note| <= MAX_NOTE_LENGTH
  }

  predicate Canonical(items: seq<Item>) {
    forall i {:trigger IsCanonical(items[i])} | 0 <= i < |items| :: IsCanonical(items[i])
  }

  /** Canonical, without duplicates. */
  predicate ItemsOk(items: seq<Item>) {
    Canonical(items) && Distinct(items)
  }

  function LoadOne(items: seq<Item>, f: FileItem): seq<Item> {
    var entry := if f.entry.None? then None else NormalizeRule(f.entry.value);
    if entry.None? || Listed(items, entry.value) then items
    else items + [Item(entry.value, Clip(f.note), f.addedBy)]
  }

  function Load(file: seq<FileItem>): seq<Item>
    decreases |file|
  {
    if file == [] then [] else LoadOne(Load(file[..|file| - 1]), file[|file| - 1])
  }

  /** What `persist` writes. */
  function Write(items: seq<Item>): seq<FileItem> {
    seq(|items|, i requires 0 <= i < |items| => FileItem(Some(items[i].entry), items[i].note, items[i].addedBy))
  }

  lemma Renormalized(entry: string)
    requires NormalizeRule(entry).Some?
    ensures NormalizeRule(NormalizeRule(entry).value) == NormalizeRule(entry)
  {
    NormalizingKeepsTheRule(entry, entry, "");
  }

  lemma LoadOneIsOk(items: seq<Item>, f: FileItem)
    requires ItemsOk(items)
    ensures ItemsOk(LoadOne(items, f))
  {
    if f.entry.Some? && NormalizeRule(f.entry.value).Some? {
      Renormalized(f.entry.value);
      var x := Item(NormalizeRule(f.entry.value).value, Clip(f.note), f.addedBy);
      if !Listed(items, x.entry) {
        OneMoreItem(items, x);
      }
    }
  }

  lemma {:induction false} LoadedIsOk(file: seq<FileItem>)
    ensures ItemsOk(Load(file))
    decreases |file|
  {
    if file != [] {
      LoadedIsOk(file[..|file| - 1]);
      LoadOneIsOk(Load(file[..|file| - 1]), file[|file| - 1]);
    }
  }

  // ------------------------------------------------------------- how many there are

  function RuleOf(f: FileItem): set<string> {
    if f.entry.Some? && NormalizeRule(f.entry.value).Some? then {NormalizeRule(f.entry.value).value} else {}
  }

  /** The different rules of a file, as they are normalized. */
  function Rules(file: seq<FileItem>): set<string> {
    set f, entry | f in file && entry in RuleOf(f) :: entry
  }

  lemma RulesOfOneMore(file: seq<FileItem>)
    requires file != []
    ensures Rules(file) == Rules(file[..|file| - 1]) + RuleOf(file[|file| - 1])
  {
    var front, last := file[..|file| - 1], file[|file| - 1];
    assert file == front + [last];
    assert forall f :: f in file <==> f in front || f == last;
  }

  lemma ListedInOneMore(items: seq<Item>, f: FileItem, entry: string)
    ensures Listed(LoadOne(items, f), entry) <==> Listed(items, entry) || entry in RuleOf(f)
  {
    var more := LoadOne(items, f);
    if more != items {
      assert more[|items|].entry in RuleOf(f);
      if Listed(items, entry) {
        var i :| 0 <= i < |items| && items[i].entry == entry;
        assert more[i].entry == entry;
      }
    }
  }

  /** Each of these rules, and no other, is listed, once. */
  ghost predicate Holds(items: seq<Item>, rules: set<string>) {
    |items| == |rules| && forall entry :: Listed(items, entry) <==> entry in rules
  }

  lemma LoadOneHolds(items: seq<Item>, rules: set<string>, f: FileItem)
    requires Holds(items, rules)
    ensures Holds(LoadOne(items, f), rules + RuleOf(f))
  {
    forall entry ensures Listed(LoadOne(items, f), entry) <==> entry in rules + RuleOf(f) {
      ListedInOneMore(items, f, entry);
    }
    if LoadOne(items, f) == items {
      assert rules + RuleOf(f) == rules;
    } else {
      var entry := NormalizeRule(f.entry.value).value;
      assert entry !in rules && RuleOf(f) == {entry};
    }
  }

  /** Loading lists every rule of the file once, however many there are. */
  lemma {:induction false} LoadedAreTheRules(file: seq<FileItem>)
    ensures Holds(Load(file), Rules(file))
    decreases |file|
  {
    if file != [] {
      var front, last := file[..|file| - 1], file[|file| - 1];
      LoadedAreTheRules(front);
      RulesOfOneMore(file);
      LoadOneHolds(Load(front), Rules(front), last);
    }
  }

  /** The cap is not one of `load`: what is loaded is within it exactly when the file's rules are. */
  lemma LoadedWithinCapExactly(file: seq<FileItem>)
    ensures |Load(file)| <= MAX_ENTRIES <==> |Rules(file)| <= MAX_ENTRIES
  {
    LoadedAreTheRules(file);
  }

  /** The host rules 10.0.0.0, 10.0.0.1, ... */
  function Host(i: nat): Rule
    requires i < 0x1_0000
  {
    var bytes := [10, 0, i / 256, i % 256];
    Rule(bytes, 32, RuleText(bytes, 32))
  }

  function Hosts(n: nat): seq<FileItem>
    requires n <= 0x1_0000
  {
    seq(n, i requires 0 <= i < n => FileItem(Some(Host(i).text), "", None))
  }

  lemma HostIsRead(i: nat)
    requires i < 0x1_0000
    ensures ParseRule(Host(i).text) == Some(Host(i)) && NormalizeRule(Host(i).text) == Some(Host(i).text)
  {
    RuleIsRead(Host(i));
  }

  lemma HostsDiffer(i: nat, j: nat)
    requires i < j < 0x1_0000
    ensures Host(i).text != Host(j).text
  {
    HostIsRead(i);
    HostIsRead(j);
    assert Host(i).bytes[2] * 256 + Host(i).bytes[3] == i && Host(j).bytes[2] * 256 + Host(j).bytes[3] == j;
  }

  lemma HostIsAnother(n: nat, f: FileItem)
    requires n < 0x1_0000 && f in Hosts(n)
    ensures Host(n).text !in RuleOf(f)
  {
    var i :| 0 <= i < n && Hosts(n)[i] == f;
    HostIsRead(i);
    HostsDiffer(i, n);
  }

  lemma HostIsNew(n: nat)
    requires n < 0x1_0000
    ensures Host(n).text !in Rules(Hosts(n))
  {
    forall f | f in Hosts(n) ensures Host(n).text !in RuleOf(f) {
      HostIsAnother(n, f);
    }
  }

  lemma {:induction false} HostsAreRules(n: nat)
    requires n <= 0x1_0000
    ensures |Rules(Hosts(n))| == n
  {
    if n > 0 {
      assert Hosts(n)[..n - 1] == Hosts(n - 1);
      HostsAreRules(n - 1);
      RulesOfOneMore(Hosts(n));
      HostIsRead(n - 1);
      HostIsNew(n - 1);
    }
  }

  /** A file of one rule more than `add` would take is loaded whole. */
  lemma TooManyAreLoaded()
    ensures |Load(Hosts(MAX_ENTRIES + 1))| == MAX_ENTRIES + 1
  {
    HostsAreRules(MAX_ENTRIES + 1);
    LoadedAreTheRules(Hosts(MAX_ENTRIES + 1));
  }

  lemma ItemIsLoaded(items: seq<Item>, x: Item)
    requires IsCanonical(x) && !Listed(items, x.entry)
    ensures LoadOne(items, FileItem(Some(x.entry), x.note, x.addedBy)) == items + [x]
  {
  }

  lemma FrontIsOk(items: seq<Item>)
    requires ItemsOk(items) && items != []
    ensures ItemsOk(items[..|items| - 1]) && IsCanonical(items[|items| - 1])
    ensures !Listed(items[..|items| - 1], items[|items| - 1].entry)
  {
    var front := items[..|items| - 1];
    assert IsCanonical(items[|items| - 1]);
    forall i | 0 <= i < |front| ensures IsCanonical(front[i]) {
      assert IsCanonical(items[i]);
    }
  }

  lemma WrittenFront(items: seq<Item>)
    requires items != []
    ensures var front, last := items[..|items| - 1], items[|items| - 1];
      Load(Write(items)) == LoadOne(Load(Write(front)), FileItem(Some(last.entry), last.note, last.addedBy))
  {
    assert Write(items)[..|items| - 1] == Write(items[..|items| - 1]);
  }

  lemma LastPutBack(items: seq<Item>)
    requires items != []
    ensures items[..|items| - 1] + [items[|items| - 1]] == items
  {
  }

  /** A list without flaws is what its own file loads as. */
  lemma {:induction false} WrittenIsLoaded(items: seq<Item>)
    requires ItemsOk(items)
    ensures Load(Write(items)) == items
    decreases |items|
  {
    if items != [] {
      var front, last := items[..|items| - 1], items[|items| - 1];
      WrittenFront(items);
      FrontIsOk(items);
      WrittenIsLoaded(front);
      ItemIsLoaded(front, last);
      LastPutBack(items);
    }
  }

  datatype Added = Accepted(item: Item) | InvalidEntry | Duplicate | LimitReached | AddNotWritten
  datatype Removed = Gone | NotListed | RemoveNotWritten

  class List {
    var entries: seq<Item>
    var file: seq<FileItem>

    /** In memory is what a restart would load, after a write that failed as well. */
    ghost predicate Valid()
      reads this
    {
      ItemsOk(entries) && entries == Load(file)
    }

    constructor (stored: seq<FileItem>)
      ensures Valid() && file == stored
    {
      file := stored;
      entries := [];
      new;
      for i := 0 to |stored|
        invariant entries == Load(stored[..i]) && file == stored
      {
        assert stored[..i + 1][..i] == stored[..i];
        entries := LoadOne(entries, stored[i]);
      }
      assert stored[..|stored|] == stored;
      LoadedIsOk(stored);
    }

    /** A temporary file and a rename: the file is replaced, or it stays. */
    method Persist() returns (ok: bool)
      modifies this`file
      ensures file == if ok then Write(entries) else old(file)
    {
      ok := *;
      if ok {
        file := Write(entries);
      }
    }

    method Add(rawEntry: string, note: string, addedBy: Option<string>) returns (r: Added)
      requires Valid()
      modifies this
      ensures Valid()
      ensures r.InvalidEntry? <==> NormalizeRule(rawEntry).None?
      ensures r.Duplicate? <==> NormalizeRule(rawEntry).Some? && Listed(old(entries), NormalizeRule(rawEntry).value)
      ensures r.LimitReached? <==> NormalizeRule(rawEntry).Some? && !Listed(old(entries), NormalizeRule(rawEntry).value) && |old(entries)| >= MAX_ENTRIES
      ensures r.Accepted? ==> Some(r.item.entry) == NormalizeRule(rawEntry) && r.item.note == Clip(note) && r.item.addedBy == addedBy
      ensures entries == if r.Accepted? then old(entries) + [r.item] else old(entries)
      ensures !r.Accepted? ==> file == old(file)
      ensures |entries| > |old(entries)| ==> |entries| <= MAX_ENTRIES
    {
      var entry := NormalizeRule(rawEntry);
      if entry.None? {
        return InvalidEntry;
      }
      if Listed(entries, entry.value) {
        return Duplicate;
      }
      if |entries| >= MAX_ENTRIES {
        return LimitReached;
      }
      Renormalized(rawEntry);
      var record := Item(entry.value, Clip(note), addedBy);
      OneMoreItem(entries, record);
      entries := entries + [record];
      var ok := Persist();
      if !ok {
        entries := entries[..|entries| - 1];
        return AddNotWritten;
      }
      WrittenIsLoaded(entries);
      r := Accepted(record);
    }

    method FindIndex(entry: string) returns (index: int)
      ensures -1 <= index < |entries|
      ensures index == -1 <==> !Listed(entries, entry)
      ensures index >= 0 ==> entries[index].entry == entry
    {
      for i := 0 to |entries|
        invariant forall j | 0 <= j < i :: entries[j].entry != entry
      {
        if entries[i].entry == entry {
          return i;
        }
      }
      return -1;
    }

    method Remove(rawEntry: string) returns (r: Removed)
      requires Valid()
      modifies this
      ensures Valid()
      ensures r.NotListed? <==> NormalizeRule(rawEntry).None? || !Listed(old(entries), NormalizeRule(rawEntry).value)
      ensures r.Gone? ==> exists i :: 0 <= i < |old(entries)| && Some(old(entries)[i].entry) == NormalizeRule(rawEntry) && entries == old(entries)[..i] + old(entries)[i + 1..]
      ensures !r.Gone? ==> entries == old(entries) && file == old(file)
      ensures r.Gone? ==> !Listed(entries, NormalizeRule(rawEntry).value)
    {
      var entry := NormalizeRule(rawEntry);
      if entry.None? {
        return NotListed;
      }
      var index := FindIndex(entry.value);
      if index == -1 {
        return NotListed;
      }
      var ok := TakeOut(index);
      r := if ok then Gone else RemoveNotWritten;
    }

    /** The splice of `remove`, undone in place when the write fails. */
    method TakeOut(index: nat) returns (ok: bool)
      requires Valid() && index < |entries|
      modifies this
      ensures Valid()
      ensures entries == if ok then old(entries)[..index] + old(entries)[index + 1..] else old(entries)
      ensures if ok then !Listed(entries, old(entries)[index].entry) else file == old(file)
    {
      var removed := entries[index];
      ghost var was := entries;
      entries := entries[..index] + entries[index + 1..];
      Without(was, index);
      ok := Persist();
      if ok {
        WrittenIsLoaded(entries);
      } else {
        entries := entries[..index] + [removed] + entries[index..];
        assert entries == was;
      }
    }

    /** An empty list lets everyone in. */
    method Allows(address: string) returns (ok: bool)
      requires Valid()
      ensures ok <==> entries == [] || exists x :: x in entries && RuleCovers(x.entry, address)
    {
      if |entries| == 0 {
        return true;
      }
      ok := MatchesAny(Entries(entries), address);
      CoveredByOne(entries, address);
    }
  }

  lemma CoveredByOne(items: seq<Item>, address: string)
    ensures SomeRuleCovers(Entries(items), address) <==> exists x :: x in items && RuleCovers(x.entry, address)
  {
    assert forall i | 0 <= i < |items| :: Entries(items)[i] == items[i].entry;
    if entry :| entry in Entries(items) && RuleCovers(entry, address) {
      var i :| 0 <= i < |items| && Entries(items)[i] == entry;
      assert items[i] in items;
    }
    if x :| x in items && RuleCovers(x.entry, address) {
      var i :| 0 <= i < |items| && items[i] == x;
      assert Entries(items)[i] == x.entry;
    }
  }

  lemma Without(items: seq<Item>, index: nat)
    requires ItemsOk(items) && index < |items|
    ensures ItemsOk(items[..index] + items[index + 1..])
    ensures !Listed(items[..index] + items[index + 1..], items[index].entry)
  {
    var rest := items[..index] + items[index + 1..];
    assert forall i | 0 <= i < |rest| :: rest[i] == items[if i < index then i else i + 1];
    forall i | 0 <= i < |rest| ensures IsCanonical(rest[i]) {
      assert IsCanonical(items[if i < index then i else i + 1]);
    }
  }

  lemma OneMoreCanonical(items: seq<Item>, x: Item)
    requires Canonical(items) && IsCanonical(x)
    ensures Canonical(items + [x])
  {
    var more := items + [x];
    forall i | 0 <= i < |more| ensures IsCanonical(more[i]) {
      assert i < |items| ==> IsCanonical(items[i]);
    }
  }

  lemma OneMoreDistinct(items: seq<Item>, x: Item)
    requires Distinct(items) && !Listed(items, x.entry)
    ensures Distinct(items + [x])
  {
  }

  lemma OneMoreItem(items: seq<Item>, x: Item)
    requires ItemsOk(items) && IsCanonical(x) && !Listed(items, x.entry)
    ensures ItemsOk(items + [x])
  {
    OneMoreCanonical(items, x);
    OneMoreDistinct(items, x);
  }

  /** Adding a rule and removing it, in any spelling, gives the same list. */
  method AddThenRemove(list: List, rawEntry: string, spelling: string, note: string, addedBy: Option<string>) returns (added: Added, removed: Removed)
    requires list.Valid() && NormalizeRule(rawEntry) == NormalizeRule(spelling)
    modifies list
    ensures list.Valid()
    ensures added.Accepted? && removed.Gone? ==> list.entries == old(list.entries)
  {
    ghost var was := list.entries;
    added := list.Add(rawEntry, note, addedBy);
    ghost var longer := list.entries;
    removed := list.Remove(spelling);
    if added.Accepted? && removed.Gone? {
      ghost var i :| 0 <= i < |longer| && Some(longer[i].entry) == NormalizeRule(spelling) && list.entries == longer[..i] + longer[i + 1..];
      assert i == |longer| - 1;
      assert longer[..i] == was && longer[i + 1..] == [];
    }
  }

  datatype Request = AddRule(entry: string, note: string, addedBy: Option<string>) | RemoveRule(entry: string)

  /** Whatever is added and removed, the list stays within the cap, or what the file brought. */
  method Serve(stored: seq<FileItem>, requests: seq<Request>) returns (list: List)
    ensures list.Valid()
    ensures |list.entries| <= if |Rules(stored)| <= MAX_ENTRIES then MAX_ENTRIES else |Rules(stored)|
  {
    list := new List(stored);
    LoadedAreTheRules(stored);
    for i := 0 to |requests|
      invariant fresh(list) && list.Valid()
      invariant |list.entries| <= if |Rules(stored)| <= MAX_ENTRIES then MAX_ENTRIES else |Rules(stored)|
    {
      match requests[i]
      case AddRule(entry, note, addedBy) => var _ := list.Add(entry, note, addedBy);
      case RemoveRule(entry) => var _ := list.Remove(entry);
    }
  }
}
