/**
 * What a successful deploy writes on its target, `recordDeployedVersions` of
 * backend/src/core/artifacts/artifactDeployService.js, and what that protects from deletion.
 */
module DeployedVersions {
  import opened Wrappers
  import opened ArtifactReleases

  const HISTORY := 10

  datatype Entry = Entry(version: string, deployedAt: string, previousVersions: seq<string>)

  type Versions = map<string, Entry>

  /** `reports` are the previous versions the agent reports, by component. */
  datatype Deploy = Deploy(id: ReleaseId, version: string, at: string, components: seq<string>, reports: map<string, string>)

  function Without(vs: seq<string>, v: string): seq<string> {
    if vs == [] then [] else (if vs[0] == v then [] else [vs[0]]) + Without(vs[1..], v)
  }

  /** `new Set`: first occurrences only. */
  function Dedup(vs: seq<string>): seq<string>
    decreases |vs|
  {
    if vs == [] then []
    else
      WithoutIsShorter(vs[1..], vs[0]);
      [vs[0]] + Dedup(Without(vs[1..], vs[0]))
  }

  function Take(vs: seq<string>, n: nat): seq<string> {
    if |vs| <= n then vs else vs[..n]
  }

  lemma {:induction false} WithoutIsShorter(vs: seq<string>, v: string)
    ensures |Without(vs, v)| <= |vs|
  {
    if vs != [] {
      WithoutIsShorter(vs[1..], v);
    }
  }

  /** What was installed before, newest first: as reported, or else as recorded. */
  function Before(last: Option<Entry>, reported: string): seq<string> {
    var recorded := if last.Some? then last.value.version else "";
    [if reported != "" then reported else recorded] + if last.Some? then last.value.previousVersions else []
  }

  function Reported(d: Deploy, component: string): string {
    if component in d.reports then d.reports[component] else ""
  }

  function NewEntry(last: Option<Entry>, d: Deploy, component: string): Entry {
    Entry(d.version, d.at, Take(Dedup(Without(Without(Before(last, Reported(d, component)), ""), d.version)), HISTORY))
  }

  function Find(current: Versions, component: string): Option<Entry> {
    if component in current then Some(current[component]) else None
  }

  function Record(current: Versions, d: Deploy, components: seq<string>): Versions
    decreases |components|
  {
    if components == [] then current
    else
      var done := Record(current, d, components[..|components| - 1]);
      var component := components[|components| - 1];
      done[component := NewEntry(Find(done, component), d, component)]
  }

  /** No version twice, none that is installed, and at most ten. */
  predicate TidyEntry(e: Entry) {
    Distinct(e.previousVersions) && e.version !in e.previousVersions && |e.previousVersions| <= HISTORY
  }

  lemma {:induction false} WithoutMembers(vs: seq<string>, v: string)
    ensures forall x :: x in Without(vs, v) <==> x in vs && x != v
  {
    if vs != [] {
      WithoutMembers(vs[1..], v);
    }
  }

  lemma DistinctFrom(vs: seq<string>)
    requires vs != []
    ensures Distinct(vs) <==> Distinct(vs[1..]) && vs[0] !in vs[1..]
  {
    if Distinct(vs[1..]) && vs[0] !in vs[1..] {
      forall i, j | 0 <= i < j < |vs| ensures vs[i] != vs[j] {
        assert vs[j] == vs[1..][j - 1] && vs[j] in vs[1..];
        assert i > 0 ==> vs[i] == vs[1..][i - 1];
      }
    }
  }

  lemma {:induction false} DedupIsDistinct(vs: seq<string>)
    ensures Distinct(Dedup(vs)) && forall x :: x in Dedup(vs) <==> x in vs
    decreases |vs|
  {
    if vs != [] {
      WithoutIsShorter(vs[1..], vs[0]);
      WithoutMembers(vs[1..], vs[0]);
      DedupIsDistinct(Without(vs[1..], vs[0]));
      DistinctFrom(Dedup(vs));
    }
  }

  lemma NewEntryIsTidy(last: Option<Entry>, d: Deploy, component: string)
    ensures TidyEntry(NewEntry(last, d, component))
  {
    var others := Without(Without(Before(last, Reported(d, component)), ""), d.version);
    WithoutMembers(Without(Before(last, Reported(d, component)), ""), d.version);
    DedupIsDistinct(others);
    assert forall x | x in Take(Dedup(others), HISTORY) :: x in Dedup(others);
  }

  predicate IsRecorded(current: Versions, d: Deploy, component: string) {
    component in current && current[component].version == d.version && TidyEntry(current[component])
  }

  lemma {:induction false} RecordSets(stored: Versions, d: Deploy, components: seq<string>, component: string)
    ensures component in components ==> IsRecorded(Record(stored, d, components), d, component)
    ensures component !in components ==> Find(Record(stored, d, components), component) == Find(stored, component)
    decreases |components|
  {
    if components != [] {
      var front, last := components[..|components| - 1], components[|components| - 1];
      assert components == front + [last];
      RecordSets(stored, d, front, component);
      NewEntryIsTidy(Find(Record(stored, d, front), last), d, last);
    }
  }

  // ------------------------------------------------------- which entry that is

  /** The index of the first `x`, or the length. */
  function First(vs: seq<string>, x: string): nat {
    if vs == [] then 0 else if vs[0] == x then 0 else 1 + First(vs[1..], x)
  }

  /**
   * Each version listed before, once, but for the one that is deployed and the empty one, in the order
   * of the list; all of them, unless there are ten and the others come later.
   */
  ghost predicate IsHistory(history: seq<string>, before: seq<string>, deployed: string) {
    && Distinct(history) && |history| <= 10 && "" !in history && deployed !in history
    && (forall x | x in history :: x in before)
    && (forall i, j | 0 <= i < j < |history| :: First(before, history[i]) < First(before, history[j]))
    && (forall x | x in before && x != "" && x != deployed && x !in history ::
          |history| == 10 && forall p | p in history :: First(before, p) < First(before, x))
  }

  lemma {:induction false} FirstInWithout(vs: seq<string>, v: string, x: string, y: string)
    requires x != v && y != v
    ensures First(Without(vs, v), x) < First(Without(vs, v), y) <==> First(vs, x) < First(vs, y)
  {
    if vs != [] {
      FirstInWithout(vs[1..], v, x, y);
      var rest := Without(vs[1..], v);
      assert Without(vs, v) == if vs[0] == v then rest else [vs[0]] + rest;
      assert vs[0] != v ==> Without(vs, v)[1..] == rest;
    }
  }

  lemma {:induction false} FirstInDedup(vs: seq<string>, x: string, y: string)
    ensures First(Dedup(vs), x) < First(Dedup(vs), y) <==> First(vs, x) < First(vs, y)
    decreases |vs|
  {
    if vs != [] {
      var rest := Without(vs[1..], vs[0]);
      WithoutIsShorter(vs[1..], vs[0]);
      assert Dedup(vs)[1..] == Dedup(rest);
      if x != vs[0] && y != vs[0] {
        FirstInWithout(vs[1..], vs[0], x, y);
        FirstInDedup(rest, x, y);
      }
    }
  }

  lemma {:induction false} FirstOfDistinct(vs: seq<string>, i: nat)
    requires Distinct(vs) && i < |vs|
    ensures First(vs, vs[i]) == i
  {
    if i > 0 {
      assert vs[0] != vs[i] && vs[1..][i - 1] == vs[i];
      FirstOfDistinct(vs[1..], i - 1);
    }
  }

  lemma TakenFirst(whole: seq<string>, x: string, y: string)
    requires Distinct(whole) && x in Take(whole, 10) && y in whole && y !in Take(whole, 10)
    ensures First(whole, x) < First(whole, y) && |Take(whole, 10)| == 10
  {
    var taken := Take(whole, 10);
    var i :| 0 <= i < |taken| && taken[i] == x;
    var j :| 0 <= j < |whole| && whole[j] == y;
    forall k | 0 <= k < |taken| ensures whole[k] in taken {
      assert taken[k] == whole[k];
    }
    FirstOfDistinct(whole, i);
    FirstOfDistinct(whole, j);
  }

  lemma CleanedMembers(vs: seq<string>, v: string)
    ensures Distinct(Cleaned(vs, v)) && forall x :: x in Cleaned(vs, v) <==> x in vs && x != "" && x != v
  {
    WithoutMembers(vs, "");
    WithoutMembers(Without(vs, ""), v);
    DedupIsDistinct(Without(Without(vs, ""), v));
  }

  lemma CleanedOrder(vs: seq<string>, v: string, x: string, y: string)
    requires x != "" && y != "" && x != v && y != v
    ensures First(Cleaned(vs, v), x) < First(Cleaned(vs, v), y) <==> First(vs, x) < First(vs, y)
  {
    FirstInWithout(vs, "", x, y);
    FirstInWithout(Without(vs, ""), v, x, y);
    FirstInDedup(Without(Without(vs, ""), v), x, y);
  }

  lemma TakenInOrder(whole: seq<string>, i: nat, j: nat)
    requires Distinct(whole) && i < j < |Take(whole, 10)|
    ensures First(whole, Take(whole, 10)[i]) < First(whole, Take(whole, 10)[j])
  {
    FirstOfDistinct(whole, i);
    FirstOfDistinct(whole, j);
  }

  lemma HistoryOfCleaned(before: seq<string>, deployed: string)
    ensures IsHistory(Take(Cleaned(before, deployed), 10), before, deployed)
  {
    var whole := Cleaned(before, deployed);
    var history := Take(whole, 10);
    CleanedMembers(before, deployed);
    assert forall x | x in history :: x in whole;
    forall i, j | 0 <= i < j < |history| ensures First(before, history[i]) < First(before, history[j]) {
      TakenInOrder(whole, i, j);
      assert history[i] in history && history[j] in history;
      CleanedOrder(before, deployed, history[i], history[j]);
    }
    forall x | x in whole && x !in history
      ensures |history| == 10 && forall p | p in history :: First(before, p) < First(before, x)
    {
      assert |whole| > 10;
      forall p | p in history ensures First(before, p) < First(before, x) {
        TakenFirst(whole, p, x);
        CleanedOrder(before, deployed, p, x);
      }
    }
  }

  /** The entry of a component: the version the agent reports, or else the recorded one, goes to the front of its history. */
  ghost predicate IsEntry(e: Entry, last: Option<Entry>, d: Deploy, component: string) {
    && e.version == d.version && e.deployedAt == d.at
    && (component in d.reports && d.reports[component] != "" && last.None? ==>
          IsHistory(e.previousVersions, [d.reports[component]], d.version))
    && (component in d.reports && d.reports[component] != "" && last.Some? ==>
          IsHistory(e.previousVersions, [d.reports[component]] + last.value.previousVersions, d.version))
    && ((component !in d.reports || d.reports[component] == "") && last.Some? ==>
          IsHistory(e.previousVersions, [last.value.version] + last.value.previousVersions, d.version))
    && ((component !in d.reports || d.reports[component] == "") && last.None? ==> e.previousVersions == [])
  }

  lemma NewEntryMeans(last: Option<Entry>, d: Deploy, component: string)
    ensures IsEntry(NewEntry(last, d, component), last, d, component)
  {
    var before := Before(last, Reported(d, component));
    HistoryOfCleaned(before, d.version);
    if last.None? {
      assert before == [before[0]];
      if before == [""] {
        NothingBefore(NewEntry(last, d, component).previousVersions, d.version);
      }
    }
  }

  lemma NothingBefore(history: seq<string>, deployed: string)
    requires IsHistory(history, [""], deployed)
    ensures history == []
  {
    SomeMember(history);
  }

  lemma SomeMember(vs: seq<string>)
    ensures vs == [] || exists x :: x in vs
  {
    if vs != [] {
      assert vs[0] in vs;
    }
  }

  lemma RecordLast(stored: Versions, d: Deploy, front: seq<string>, component: string)
    ensures var done := Record(stored, d, front);
      Record(stored, d, front + [component]) == done[component := NewEntry(Find(done, component), d, component)]
  {
    var all := front + [component];
    assert all[..|all| - 1] == front && all[|all| - 1] == component;
  }

  lemma RecordNext(stored: Versions, d: Deploy, i: nat)
    requires i < |d.components|
    ensures var done := Record(stored, d, d.components[..i]);
      Record(stored, d, d.components[..i + 1]) == done[d.components[i] := NewEntry(Find(done, d.components[i]), d, d.components[i])]
  {
    assert d.components[..i + 1] == d.components[..i] + [d.components[i]];
    RecordLast(stored, d, d.components[..i], d.components[i]);
  }

  /** Whatever was recorded before: the deployed components have the new version and a tidy history, the others stay. */
  method RecordDeployedVersions(stored: Versions, d: Deploy) returns (current: Versions)
    ensures current == Record(stored, d, d.components)
    ensures forall component :: component in current <==> component in stored || component in d.components
    ensures forall component | component in d.components && component in current ::
      IsEntry(current[component], Find(stored, component), d, component) && TidyEntry(current[component])
    ensures forall component | component !in d.components && component in current :: current[component] == stored[component]
  {
    current := RecordEach(stored, d);
    forall component
      ensures component in current <==> component in stored || component in d.components
      ensures component in d.components && component in current ==>
        IsEntry(current[component], Find(stored, component), d, component) && TidyEntry(current[component])
      ensures component !in d.components && component in current ==> current[component] == stored[component]
    {
      RecordOf(stored, d, d.components, component);
      NewEntryMeans(Find(stored, component), d, component);
      NewEntryIsTidy(Find(stored, component), d, component);
    }
  }

  method RecordEach(stored: Versions, d: Deploy) returns (current: Versions)
    ensures current == Record(stored, d, d.components)
  {
    current := stored;
    for i := 0 to |d.components|
      invariant current == Record(stored, d, d.components[..i])
    {
      var component := d.components[i];
      RecordNext(stored, d, i);
      current := current[component := NewEntry(Find(current, component), d, component)];
    }
    assert d.components[..|d.components|] == d.components;
  }

  // ------------------------------------------------------------- lists of versions

  /** The versions deployed, newest first, each once. */
  function Recent(deployed: seq<string>): seq<string>
    decreases |deployed|
  {
    if deployed == [] then []
    else
      var last := deployed[|deployed| - 1];
      [last] + Without(Recent(deployed[..|deployed| - 1]), last)
  }

  lemma {:induction false} WithoutAbsent(vs: seq<string>, v: string)
    requires v !in vs
    ensures Without(vs, v) == vs
  {
    if vs != [] {
      WithoutAbsent(vs[1..], v);
    }
  }

  lemma {:induction false} WithoutPrefix(vs: seq<string>, ws: seq<string>, v: string)
    requires vs <= ws
    ensures Without(vs, v) <= Without(ws, v)
  {
    if vs != [] {
      WithoutPrefix(vs[1..], ws[1..], v);
    }
  }

  lemma {:induction false} WithoutKeepsDistinct(vs: seq<string>, v: string)
    requires Distinct(vs)
    ensures Distinct(Without(vs, v)) && |Without(vs, v)| >= |vs| - 1
  {
    if vs != [] {
      DistinctFrom(vs);
      WithoutMembers(vs[1..], v);
      if vs[0] == v {
        WithoutAbsent(vs[1..], v);
      } else {
        WithoutKeepsDistinct(vs[1..], v);
        DistinctFrom(Without(vs, v));
      }
    }
  }

  lemma {:induction false} DedupOfDistinct(vs: seq<string>)
    requires Distinct(vs)
    ensures Dedup(vs) == vs
    decreases |vs|
  {
    if vs != [] {
      DistinctFrom(vs);
      WithoutAbsent(vs[1..], vs[0]);
      DedupOfDistinct(vs[1..]);
    }
  }

  lemma {:induction false} RecentIsDistinct(deployed: seq<string>)
    requires "" !in deployed
    ensures Distinct(Recent(deployed)) && "" !in Recent(deployed)
    decreases |deployed|
  {
    if deployed != [] {
      var front, last := deployed[..|deployed| - 1], deployed[|deployed| - 1];
      assert forall x | x in front :: x in deployed;
      RecentIsDistinct(front);
      WithoutMembers(Recent(front), last);
      WithoutKeepsDistinct(Recent(front), last);
      DistinctFrom(Recent(deployed));
    }
  }

  lemma ListStep(listed: seq<string>, recent: seq<string>, last: string)
    requires listed <= recent && Distinct(recent) && (listed == recent <==> |recent| <= HISTORY + 1)
    ensures var listed', recent' := [last] + Take(Without(listed, last), HISTORY), [last] + Without(recent, last);
      listed' <= recent' && (listed' == recent' <==> |recent'| <= HISTORY + 1)
  {
    WithoutPrefix(listed, recent, last);
    WithoutKeepsDistinct(recent, last);
  }

  lemma PrefixOfDistinct(vs: seq<string>, ws: seq<string>)
    requires vs <= ws && Distinct(ws)
    ensures Distinct(vs) && forall x | x in vs :: x in ws
  {
    assert forall i | 0 <= i < |vs| :: vs[i] == ws[i];
  }

  // ------------------------------------------------------------- on one target

  function VersionsOf(current: Versions): set<string> {
    set component | component in current :: current[component].version
  }

  function VersionsAfter(stored: Versions, deploys: seq<Deploy>): Versions
    decreases |deploys|
  {
    if deploys == [] then stored
    else
      var d := deploys[|deploys| - 1];
      Record(VersionsAfter(stored, deploys[..|deploys| - 1]), d, d.components)
  }

  /** The target's row after these deploys. */
  function TargetAfter(project: string, stored: Versions, deploys: seq<Deploy>): Target
    requires deploys != []
  {
    Target(project, Some(deploys[|deploys| - 1].id), VersionsOf(VersionsAfter(stored, deploys)))
  }

  function EntryOf(stored: Versions, deploys: seq<Deploy>, component: string): Option<Entry> {
    Find(VersionsAfter(stored, deploys), component)
  }

  lemma OneDeploy(stored: Versions, deploys: seq<Deploy>, component: string)
    requires deploys != []
    ensures var d := deploys[|deploys| - 1];
      if component in d.components
      then EntryOf(stored, deploys, component).Some? && EntryOf(stored, deploys, component).value.version == d.version
      else EntryOf(stored, deploys, component) == EntryOf(stored, deploys[..|deploys| - 1], component)
  {
    var d := deploys[|deploys| - 1];
    RecordSets(VersionsAfter(stored, deploys[..|deploys| - 1]), d, d.components, component);
  }

  /** Deploy `i` is the last one that had the component. */
  predicate IsLast(deploys: seq<Deploy>, i: nat, component: string) {
    i < |deploys| && component in deploys[i].components && forall j | i < j < |deploys| :: component !in deploys[j].components
  }

  /** The component has the version of the last deploy that had the component. */
  lemma {:induction false} LastDeployCounts(stored: Versions, deploys: seq<Deploy>, i: nat, component: string)
    requires IsLast(deploys, i, component)
    ensures EntryOf(stored, deploys, component).Some? && EntryOf(stored, deploys, component).value.version == deploys[i].version
    decreases |deploys|
  {
    OneDeploy(stored, deploys, component);
    if i < |deploys| - 1 {
      LastDeployCounts(stored, deploys[..|deploys| - 1], i, component);
    }
  }

  // ---------------------------------------------------------- a component's history

  lemma HistoryMembers(last: Option<Entry>, d: Deploy, component: string)
    ensures var entry := NewEntry(last, d, component);
      Distinct(entry.previousVersions) && |entry.previousVersions| <= HISTORY && d.version !in entry.previousVersions
      && "" !in entry.previousVersions
      && forall x | x in entry.previousVersions :: x in Before(last, Reported(d, component))
  {
    NewEntryIsTidy(last, d, component);
    var all := Before(last, Reported(d, component));
    WithoutMembers(all, "");
    WithoutMembers(Without(all, ""), d.version);
    DedupIsDistinct(Without(Without(all, ""), d.version));
    var whole := Dedup(Without(Without(all, ""), d.version));
    assert forall x | x in Take(whole, HISTORY) :: x in whole;
  }

  lemma WithoutFirst(first: string, rest: seq<string>, v: string)
    ensures Without([first] + rest, v) == (if first == v then [] else [first]) + Without(rest, v)
  {
    assert ([first] + rest)[1..] == rest;
  }

  lemma DedupFirst(first: string, rest: seq<string>)
    ensures Dedup([first] + rest) == [first] + Dedup(Without(rest, first))
  {
    assert ([first] + rest)[1..] == rest;
  }

  function Cleaned(vs: seq<string>, v: string): seq<string> {
    Dedup(Without(Without(vs, ""), v))
  }

  lemma FirstIsDropped(first: string, rest: seq<string>, v: string)
    requires Distinct(rest) && "" !in rest && v !in rest && (first == "" || first == v)
    ensures Cleaned([first] + rest, v) == rest
  {
    WithoutAbsent(rest, "");
    WithoutAbsent(rest, v);
    WithoutFirst(first, rest, "");
    WithoutFirst(first, rest, v);
    var none: seq<string> := [];
    assert none + rest == rest;
    assert Without(Without([first] + rest, ""), v) == rest;
    DedupOfDistinct(rest);
  }

  lemma FirstIsMoved(first: string, rest: seq<string>, v: string)
    requires Distinct(rest) && "" !in rest && v !in rest && first != "" && first != v
    ensures Cleaned([first] + rest, v) == [first] + Without(rest, first)
  {
    WithoutAbsent(rest, "");
    WithoutAbsent(rest, v);
    WithoutFirst(first, rest, "");
    WithoutFirst(first, rest, v);
    DedupFirst(first, rest);
    WithoutKeepsDistinct(rest, first);
    DedupOfDistinct(Without(rest, first));
  }

  lemma FirstIsKept(first: string, rest: seq<string>, v: string)
    requires first != "" && first != v
    ensures Cleaned([first] + rest, v) != [] && Cleaned([first] + rest, v)[0] == first
  {
    WithoutFirst(first, rest, "");
    WithoutFirst(first, Without(rest, ""), v);
    DedupFirst(first, Without(Without(rest, ""), v));
  }

  lemma NewHistory(last: Option<Entry>, d: Deploy, component: string)
    ensures NewEntry(last, d, component).previousVersions == Take(Cleaned(Before(last, Reported(d, component)), d.version), HISTORY)
  {
  }

  /** A reported version that is kept comes first. */
  lemma ReportedIsFirst(last: Option<Entry>, d: Deploy, component: string)
    requires Reported(d, component) != "" && Reported(d, component) != d.version
    ensures var h := NewEntry(last, d, component).previousVersions; h != [] && h[0] == Reported(d, component)
  {
    var reported := Reported(d, component);
    NewHistory(last, d, component);
    FirstIsKept(reported, Before(last, reported)[1..], d.version);
    assert Before(last, reported) == [reported] + Before(last, reported)[1..];
  }

  /** Recording the same deploy again, as for a component that is named twice, changes nothing. */
  lemma NewEntryTwice(last: Option<Entry>, d: Deploy, component: string)
    ensures NewEntry(Some(NewEntry(last, d, component)), d, component) == NewEntry(last, d, component)
  {
    var h, reported := NewEntry(last, d, component).previousVersions, Reported(d, component);
    HistoryMembers(last, d, component);
    NewHistory(Some(NewEntry(last, d, component)), d, component);
    if reported == "" || reported == d.version {
      FirstIsDropped(d.version, h, d.version);
    } else {
      ReportedIsFirst(last, d, component);
      FirstIsMoved(reported, h, d.version);
      WithoutHead(h);
    }
  }

  lemma WithoutHead(vs: seq<string>)
    requires vs != [] && Distinct(vs)
    ensures [vs[0]] + Without(vs, vs[0]) == vs
  {
    DistinctFrom(vs);
    WithoutAbsent(vs[1..], vs[0]);
  }

  lemma {:induction false} RecordOf(stored: Versions, d: Deploy, components: seq<string>, component: string)
    ensures Find(Record(stored, d, components), component) ==
      if component in components then Some(NewEntry(Find(stored, component), d, component)) else Find(stored, component)
    decreases |components|
  {
    if components != [] {
      var front, last := components[..|components| - 1], components[|components| - 1];
      assert components == front + [last];
      RecordOf(stored, d, front, component);
      NewEntryTwice(Find(stored, component), d, component);
    }
  }

  lemma EntryNext(stored: Versions, deploys: seq<Deploy>, component: string)
    requires deploys != []
    ensures var d, before := deploys[|deploys| - 1], EntryOf(stored, deploys[..|deploys| - 1], component);
      EntryOf(stored, deploys, component) == if component in d.components then Some(NewEntry(before, d, component)) else before
  {
    var d := deploys[|deploys| - 1];
    RecordOf(VersionsAfter(stored, deploys[..|deploys| - 1]), d, d.components, component);
  }

  /** The versions of the component that were deployed, oldest first. */
  function DeployedOf(deploys: seq<Deploy>, component: string): seq<string>
    decreases |deploys|
  {
    if deploys == [] then []
    else
      var d := deploys[|deploys| - 1];
      DeployedOf(deploys[..|deploys| - 1], component) + if component in d.components then [d.version] else []
  }

  lemma DeployedNext(deploys: seq<Deploy>, component: string)
    requires deploys != []
    ensures var before, d := DeployedOf(deploys[..|deploys| - 1], component), deploys[|deploys| - 1];
      DeployedOf(deploys, component) == (if component in d.components then before + [d.version] else before)
      && forall x | x in before :: x in DeployedOf(deploys, component)
  {
  }

  /** The agent reports nothing on the component, or the version that is recorded. */
  predicate Agrees(last: Option<Entry>, d: Deploy, component: string) {
    Reported(d, component) == "" || (last.Some? && Reported(d, component) == last.value.version)
  }

  predicate AllAgree(deploys: seq<Deploy>, component: string)
    decreases |deploys|
  {
    deploys == []
    || (AllAgree(deploys[..|deploys| - 1], component)
        && (component in deploys[|deploys| - 1].components ==>
              Agrees(EntryOf(map[], deploys[..|deploys| - 1], component), deploys[|deploys| - 1], component)))
  }

  /** The installed version and those before it. */
  function Listed(e: Entry): seq<string> {
    [e.version] + e.previousVersions
  }

  lemma HistoryOf(last: Option<Entry>, d: Deploy, component: string)
    requires Agrees(last, d, component)
    requires last.Some? ==> Distinct(Listed(last.value)) && "" !in Listed(last.value)
    ensures NewEntry(last, d, component).previousVersions ==
      if last.Some? then Take(Without(Listed(last.value), d.version), HISTORY) else []
  {
    if last.Some? {
      var listed := Listed(last.value);
      assert Before(last, Reported(d, component)) == listed;
      WithoutAbsent(listed, "");
      WithoutKeepsDistinct(listed, d.version);
      DedupOfDistinct(Without(listed, d.version));
    } else {
      assert Before(last, "") == [""] && Without([""], "") == [];
    }
  }

  lemma RecentOfOneMore(deployed: seq<string>, v: string)
    ensures Recent(deployed + [v]) == [v] + Without(Recent(deployed), v)
  {
    assert (deployed + [v])[..|deployed|] == deployed;
  }

  /** The list is that of the recent versions, as far as it goes. */
  predicate ListsRecent(e: Option<Entry>, recent: seq<string>) {
    if e.None? then recent == []
    else
      recent != [] && Listed(e.value) <= recent && (Listed(e.value) == recent <==> |recent| <= HISTORY + 1)
  }

  lemma OneMoreVersion(last: Option<Entry>, d: Deploy, component: string, recent: seq<string>)
    requires ListsRecent(last, recent) && Distinct(recent) && "" !in recent && Agrees(last, d, component)
    ensures ListsRecent(Some(NewEntry(last, d, component)), [d.version] + Without(recent, d.version))
  {
    if last.Some? {
      PrefixOfDistinct(Listed(last.value), recent);
      HistoryOf(last, d, component);
      ListStep(Listed(last.value), recent, d.version);
    } else {
      HistoryOf(last, d, component);
    }
  }

  /**
   * After any deploys to a target, of any components, by agents that report nothing or what is
   * recorded: a component that was deployed lists its versions newest first, each once, and all of
   * them exactly as long as there were at most eleven in all.
   */
  lemma {:induction false} HistoryIsRecent(deploys: seq<Deploy>, component: string)
    requires AllAgree(deploys, component) && "" !in DeployedOf(deploys, component)
    ensures ListsRecent(EntryOf(map[], deploys, component), Recent(DeployedOf(deploys, component)))
    decreases |deploys|
  {
    if deploys != [] {
      var front, d := deploys[..|deploys| - 1], deploys[|deploys| - 1];
      var before := DeployedOf(front, component);
      DeployedNext(deploys, component);
      HistoryIsRecent(front, component);
      EntryNext(map[], deploys, component);
      if component in d.components {
        RecentIsDistinct(before);
        RecentOfOneMore(before, d.version);
        OneMoreVersion(EntryOf(map[], front, component), d, component, Recent(before));
      }
    }
  }

  /** A report other than the recorded version drops the version that was installed: it is listed exactly when they agree. */
  lemma InstalledIsListedExactly(deploys: seq<Deploy>, d: Deploy, component: string)
    requires component in d.components && EntryOf(map[], deploys, component).Some?
    requires var installed := EntryOf(map[], deploys, component).value.version; installed != "" && installed != d.version
    ensures var last := EntryOf(map[], deploys, component); var next := EntryOf(map[], deploys + [d], component);
      next.Some? && (last.value.version in next.value.previousVersions <==> Agrees(last, d, component))
  {
    var last := EntryOf(map[], deploys, component);
    assert (deploys + [d])[..|deploys|] == deploys;
    EntryNext(map[], deploys + [d], component);
    EntriesAreTidy(deploys, component);
    HistoryMembers(last, d, component);
    if Agrees(last, d, component) {
      NewHistory(last, d, component);
      FirstIsKept(last.value.version, last.value.previousVersions, d.version);
      var h := NewEntry(last, d, component).previousVersions;
      assert h[0] == last.value.version;
    }
  }

  lemma {:induction false} EntriesAreTidy(deploys: seq<Deploy>, component: string)
    ensures EntryOf(map[], deploys, component).Some? ==> TidyEntry(EntryOf(map[], deploys, component).value)
    decreases |deploys|
  {
    if deploys != [] {
      EntriesAreTidy(deploys[..|deploys| - 1], component);
      EntryNext(map[], deploys, component);
      NewEntryIsTidy(EntryOf(map[], deploys[..|deploys| - 1], component), deploys[|deploys| - 1], component);
    }
  }

  // ------------------------------------------------------------- what is protected

  /**
   * After any deploys to a target, no prune deletes a release that some component was last deployed
   * from, nor the release deployed last.
   */
  lemma InstalledReleasesStay(
      rs: Releases, ts: Targets, busy: set<ReleaseId>, list: seq<ReleaseId>, retention: nat,
      t: TargetId, project: string, stored: Versions, deploys: seq<Deploy>, i: nat, component: string)
    requires IsListing(rs, project, list) && i < |deploys|
    requires t in ts && ts[t] == TargetAfter(project, stored, deploys)
    requires deploys[i].id in rs && rs[deploys[i].id].version == deploys[i].version
    requires i == |deploys| - 1 || IsLast(deploys, i, component)
    ensures deploys[i].id !in Pruned(rs, ts, busy, list, retention)
  {
    var id := deploys[i].id;
    if i < |deploys| - 1 {
      LastDeployCounts(stored, deploys, i, component);
      assert VersionsAfter(stored, deploys)[component].version in ts[t].versions;
    }
    assert rs[id].project == project ==> IsCurrent(rs, ts, id);
    if id in Pruned(rs, ts, busy, list, retention) {
      ProtectedReleasesStay(rs, ts, busy, project, list, retention, id);
    }
  }
}
