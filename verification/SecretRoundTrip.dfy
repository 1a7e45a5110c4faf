/** Persisting a project's secrets and resolving them again (backend/src/secrets/projectSecrets.js). */
module SecretRoundTrip {
  import opened Wrappers
  import opened Text
  import opened ConfigTree
  import opened SecretPaths
  import opened ProjectSecrets
  import ConfigRedaction

  function TextPaths(c: Json): set<Path> {
    set p | p in SecretPathsOf(c) && Get(c, p).Some? && Get(c, p).value.Str?
  }

  /** A secret that goes into the store. */
  predicate Moves(c: Json, p: Path) {
    p in TextPaths(c) && Storable(Get(c, p))
  }

  function TextOf(c: Json, p: Path): string
    requires p in TextPaths(c)
  {
    Get(c, p).value.s
  }

  lemma LookupText(j: Json, p: Path)
    ensures Storable(Lookup(j, p)) == Storable(Get(j, p))
    ensures HoldsRef(Lookup(j, p)) == HoldsRef(Get(j, p))
    ensures Storable(Get(j, p)) || HoldsRef(Get(j, p)) ==> Lookup(j, p) == Get(j, p)
  {
    LookupIsGet(j, p);
  }

  lemma StartsTheSame(c: Json)
    ensures AreTexts(c, TextPaths(c)) && TextsDiffer(c, c, TextPaths(c))
  {
    DiffersFromItself(c, TextPaths(c));
  }

  /** Two trees that differ in secret texts only list the same secret paths. */
  lemma SameSecretPaths(a: Json, c: Json)
    requires TextsDiffer(a, c, TextPaths(c))
    ensures SecretPathsOf(a) == SecretPathsOf(c)
  {
    forall name, base | base in BASE_PATHS
      ensures Overrides(a, name, base) == Overrides(c, name, base)
    {
      SameOverride(a, c, name, base);
      SameOverride(c, a, name, base);
    }
    SameSets(a, c);
    SameSets(c, a);
  }

  lemma SameSets(a: Json, c: Json)
    requires forall name, base | base in BASE_PATHS :: Overrides(a, name, base) == Overrides(c, name, base)
    ensures SecretPathsOf(a) <= SecretPathsOf(c)
  {
    forall p | p in SecretPathsOf(a) && p !in BASE_PATHS ensures p in SecretPathsOf(c) {
      var name, base :| base in BASE_PATHS && Overrides(a, name, base) && p == EnvPath(name, base);
      assert Overrides(c, name, base);
    }
  }

  lemma OverrideIsPath(c: Json, name: string, base: Path)
    requires base != []
    ensures Overrides(c, name, base) <==> Get(c, TruePath(name, base)).Some?
  {
    var t := TruePath(name, base);
    assert t[0] == ENVIRONMENTS && t[1..] == [name] + base;
    assert t[1..][0] == name && t[1..][1..] == base;
    if c.Obj? && ENVIRONMENTS in c.fields {
      var e := c.fields[ENVIRONMENTS];
      assert Get(c, t) == Get(e, t[1..]);
      if e.Obj? && name in e.fields {
        assert Get(e, t[1..]) == Get(e.fields[name], base);
      }
    }
  }

  lemma SameOverride(a: Json, b: Json, name: string, base: Path)
    requires base in BASE_PATHS
    requires TextsDiffer(a, b, TextPaths(b)) || TextsDiffer(b, a, TextPaths(a))
    ensures Overrides(a, name, base) ==> Overrides(b, name, base)
  {
    OverrideIsPath(a, name, base);
    OverrideIsPath(b, name, base);
    if TextsDiffer(a, b, TextPaths(b)) {
      SamePaths(a, b, TextPaths(b), TruePath(name, base));
    } else {
      SamePaths(b, a, TextPaths(a), TruePath(name, base));
    }
  }

  /** Writing one secret text leaves the other secret texts. */
  lemma WriteOneText(now: Json, c: Json, p: Path, t: string)
    requires TextsDiffer(now, c, TextPaths(c)) && p in TextPaths(c)
    ensures Get(now, p).Some? && Get(now, p).value.Str?
    ensures TextsDiffer(SetExisting(now, p, Str(t)), c, TextPaths(c))
    ensures Get(SetExisting(now, p, Str(t)), p) == Some(Str(t))
    ensures forall q | q in TextPaths(c) && q != p :: Get(SetExisting(now, p, Str(t)), q) == Get(now, q)
  {
    SamePaths(now, c, TextPaths(c), p);
    ListedPathsDotFree(c, p);
    WriteText(now, c, TextPaths(c), p, t);
    forall q | q in TextPaths(c) && q != p ensures Get(SetExisting(now, p, Str(t)), q) == Get(now, q) {
      TextsApart(c, p, q);
      SetExistingElsewhere(now, p, Str(t), q);
    }
  }

  lemma NoTextThere(now: Json, c: Json, p: Path)
    requires TextsDiffer(now, c, TextPaths(c)) && p in SecretPathsOf(c) && p !in TextPaths(c)
    ensures !Storable(Get(now, p)) && !HoldsRef(Get(now, p))
  {
    SamePaths(now, c, TextPaths(c), p);
  }

  // ------------------------------------------------------------------ persisting

  ghost predicate ConfigSaved(id: string, c: Json, now: Json, done: seq<Path>) {
    && TextsDiffer(now, c, TextPaths(c))
    && forall p | p in TextPaths(c) ::
         Get(now, p) == if p in done && Moves(c, p) then Some(Str(MakeRef(id, p))) else Get(c, p)
  }

  /**
   * The entry of a secret that moved. A reference that does not read as one is moved once more
   * whenever its path comes again, over the secret.
   */
  function Kept(id: string, c: Json, p: Path, done: seq<Path>): string
    requires p in TextPaths(c)
  {
    if IsRef(MakeRef(id, p)) || multiset(done)[p] == 1 then TextOf(c, p) else MakeRef(id, p)
  }

  ghost predicate EntriesSaved(id: string, c: Json, entries: Entries, done: seq<Path>) {
    forall p | p in TextPaths(c) && p in done && Moves(c, p) ::
      MakeRef(id, p) in entries && entries[MakeRef(id, p)] == Kept(id, c, p, done)
  }

  /** The store is as before but for the references of the secrets that move. */
  ghost predicate OthersKept(id: string, c: Json, before: Entries, after: Entries) {
    forall k | (forall p | p in TextPaths(c) && Moves(c, p) :: k != MakeRef(id, p)) ::
      (k in before <==> k in after) && (k in before ==> before[k] == after[k])
  }

  lemma {:induction false} TrimRightKeeps(s: string)
    requires s != "" && !IsSpace(s[0])
    ensures TrimRight(s) != ""
    decreases |s|
  {
    if IsSpace(s[|s| - 1]) {
      TrimRightKeeps(s[..|s| - 1]);
    }
  }

  /** A reference is never blank: it goes into the store itself unless it reads as one. */
  lemma RefIsStorable(id: string, p: Path)
    ensures Storable(Some(Str(MakeRef(id, p)))) <==> !IsRef(MakeRef(id, p))
  {
    assert MakeRef(id, p)[0] == 's';
    TrimRightKeeps(MakeRef(id, p));
  }

  lemma PersistOneConfig(id: string, c: Json, now: Saved, done: seq<Path>, p: Path)
    requires ConfigSaved(id, c, now.config, done) && p in SecretPathsOf(c)
    ensures ConfigSaved(id, c, PersistOne(id, now, p).config, done + [p])
  {
    LookupText(now.config, p);
    if p !in TextPaths(c) {
      NoTextThere(now.config, c, p);
    } else if Storable(Get(now.config, p)) {
      WriteOneText(now.config, c, p, MakeRef(id, p));
      assert Moves(c, p);
    }
  }

  lemma RefsOfOthers(id: string, c: Json, p: Path)
    requires p in SecretPathsOf(c)
    ensures forall q | q in SecretPathsOf(c) && q != p :: MakeRef(id, q) != MakeRef(id, p)
  {
    forall q | q in SecretPathsOf(c) && q != p ensures MakeRef(id, q) != MakeRef(id, p) {
      ListedPathsDotFree(c, p);
      ListedPathsDotFree(c, q);
      if MakeRef(id, q) == MakeRef(id, p) { RefsDiffer(id, p, q); }
    }
  }

  lemma PersistOneEntries(id: string, c: Json, now: Saved, done: seq<Path>, p: Path)
    requires ConfigSaved(id, c, now.config, done) && EntriesSaved(id, c, now.entries, done) && p in SecretPathsOf(c)
    ensures EntriesSaved(id, c, PersistOne(id, now, p).entries, done + [p])
  {
    LookupText(now.config, p);
    RefsOfOthers(id, c, p);
    RefIsStorable(id, p);
    if p !in TextPaths(c) {
      NoTextThere(now.config, c, p);
    }
    assert forall q | q != p :: multiset(done + [p])[q] == multiset(done)[q];
    assert multiset(done + [p])[p] == multiset(done)[p] + 1;
  }

  lemma PersistOneOthers(id: string, c: Json, before: Entries, now: Saved, done: seq<Path>, p: Path)
    requires ConfigSaved(id, c, now.config, done) && p in SecretPathsOf(c)
    requires OthersKept(id, c, before, now.entries)
    ensures OthersKept(id, c, before, PersistOne(id, now, p).entries)
  {
    LookupText(now.config, p);
    if p !in TextPaths(c) {
      NoTextThere(now.config, c, p);
    }
  }

  lemma {:induction false} PersistAlongSaves(id: string, c: Json, before: Entries, paths: seq<Path>)
    requires forall p | p in paths :: p in SecretPathsOf(c)
    ensures var now := PersistAlong(id, Saved(c, before), paths);
      ConfigSaved(id, c, now.config, paths) && EntriesSaved(id, c, now.entries, paths) && OthersKept(id, c, before, now.entries)
    decreases |paths|
  {
    if paths == [] {
      StartsTheSame(c);
    } else {
      var front, p := paths[..|paths| - 1], paths[|paths| - 1];
      assert paths == front + [p];
      PersistAlongSaves(id, c, before, front);
      var now := PersistAlong(id, Saved(c, before), front);
      PersistOneConfig(id, c, now, front, p);
      PersistOneEntries(id, c, now, front, p);
      PersistOneOthers(id, c, before, now, front, p);
    }
  }

  /**
   * What is written to disk has the same secret paths. At each of them a text that had to move is
   * replaced by its reference, and any other text is as it was; so no plaintext is left.
   */
  lemma NoPlaintextOnDisk(id: string, c: Json, before: Entries, paths: seq<Path>, p: Path)
    requires Lists(paths, SecretPathsOf(c)) && p in SecretPathsOf(c)
    ensures SecretPathsOf(PersistAlong(id, Saved(c, before), paths).config) == SecretPathsOf(c)
    ensures Storable(Get(c, p)) ==> Get(PersistAlong(id, Saved(c, before), paths).config, p) == Some(Str(MakeRef(id, p)))
    ensures p in TextPaths(c) && !Storable(Get(c, p)) ==> Get(PersistAlong(id, Saved(c, before), paths).config, p) == Get(c, p)
    ensures IsRef(MakeRef(id, p)) ==> !Storable(Get(PersistAlong(id, Saved(c, before), paths).config, p))
  {
    PersistAlongSaves(id, c, before, paths);
    var now := PersistAlong(id, Saved(c, before), paths).config;
    SameSecretPaths(now, c);
    if p !in TextPaths(c) {
      NoTextThere(now, c, p);
    }
  }

  /**
   * For every text at a listed path: one that is not all white space and no reference is replaced by
   * its reference, and is the entry if that reads as one; any other text is as it was.
   */
  lemma PlaintextLeaves(id: string, c: Json, before: Entries, paths: seq<Path>, p: Path, s: string)
    requires Lists(paths, SecretPathsOf(c)) && p in SecretPathsOf(c) && Get(c, p) == Some(Str(s))
    ensures var after, ref := PersistAlong(id, Saved(c, before), paths), "secret://" + id + "/" + Join(p, '.');
      if (forall ch | ch in s :: IsSpace(ch)) || IsReference(s) then Get(after.config, p) == Some(Str(s))
      else
        Get(after.config, p) == Some(Str(ref))
        && (IsReference(ref) ==> ref in after.entries && after.entries[ref] == s)
  {
    NoPlaintextOnDisk(id, c, before, paths, p);
    PersistAlongSaves(id, c, before, paths);
    BlankMeans(s);
    RefMeans(s);
    RefMeans(MakeRef(id, p));
    assert p in TextPaths(c) && Storable(Get(c, p)) == Moves(c, p);
  }

  // -------------------------------------------------------------- saving again

  /** What moves out of a saved config: the references that do not read as references. */
  lemma MovesAgain(id: string, c: Json, saved: Json, paths: seq<Path>)
    requires Lists(paths, SecretPathsOf(c)) && ConfigSaved(id, c, saved, paths)
    ensures SecretPathsOf(saved) == SecretPathsOf(c) && TextPaths(saved) == TextPaths(c)
    ensures forall p | p in TextPaths(c) :: Moves(saved, p) <==> Moves(c, p) && !IsRef(MakeRef(id, p))
    ensures forall p | p in TextPaths(c) && Moves(c, p) :: TextOf(saved, p) == MakeRef(id, p)
  {
    SameSecretPaths(saved, c);
    forall p | p in SecretPathsOf(c) ensures p in TextPaths(saved) <==> p in TextPaths(c) {
      SamePaths(saved, c, TextPaths(c), p);
    }
    assert TextPaths(saved) == TextPaths(c);
    forall p | p in TextPaths(c) ensures Moves(saved, p) <==> Moves(c, p) && !IsRef(MakeRef(id, p)) {
      RefIsStorable(id, p);
    }
  }

  /** Saving a saved config leaves the config; an unreadable reference is stored over its secret. */
  lemma SavingAgainStores(id: string, c: Json, before: Entries, first: seq<Path>, second: seq<Path>)
    requires Lists(first, SecretPathsOf(c))
    requires Lists(second, SecretPathsOf(PersistAlong(id, Saved(c, before), first).config))
    ensures var saved := PersistAlong(id, Saved(c, before), first);
      var again := PersistAlong(id, saved, second);
      && again.config == saved.config && OthersKept(id, saved.config, saved.entries, again.entries)
      && forall p | p in TextPaths(c) && Moves(c, p) && !IsRef(MakeRef(id, p)) ::
           MakeRef(id, p) in again.entries && again.entries[MakeRef(id, p)] == MakeRef(id, p)
  {
    var saved := PersistAlong(id, Saved(c, before), first);
    var again := PersistAlong(id, saved, second);
    PersistAlongSaves(id, c, before, first);
    MovesAgain(id, c, saved.config, first);
    PersistAlongSaves(id, saved.config, saved.entries, second);
    assert Saved(saved.config, saved.entries) == saved;
    SameTextsSameTree(again.config, saved.config, TextPaths(c));
  }

  /** A second save changes nothing about this secret: its reference reads as one, or is all there is. */
  predicate Settles(id: string, c: Json, p: Path, first: seq<Path>)
    requires p in TextPaths(c)
  {
    IsRef(MakeRef(id, p)) || MakeRef(id, p) == TextOf(c, p) || multiset(first)[p] > 1
  }

  lemma SettlesMeans(id: string, c: Json, entries: Entries, first: seq<Path>)
    requires Lists(first, SecretPathsOf(c)) && EntriesSaved(id, c, entries, first)
    ensures forall p | p in TextPaths(c) && Moves(c, p) ::
      MakeRef(id, p) in entries
      && (Settles(id, c, p, first) <==> IsRef(MakeRef(id, p)) || entries[MakeRef(id, p)] == MakeRef(id, p))
  {
    forall p | p in TextPaths(c) && Moves(c, p)
      ensures MakeRef(id, p) in entries
        && (Settles(id, c, p, first) <==> IsRef(MakeRef(id, p)) || entries[MakeRef(id, p)] == MakeRef(id, p))
    {
      assert p in first && multiset(first)[p] >= 1;
    }
  }

  /**
   * Saving what is saved already changes nothing exactly when each reference reads as one, is the
   * secret itself, or was stored over the secret before (its path was listed twice).
   */
  lemma SavingAgainExactly(id: string, c: Json, before: Entries, first: seq<Path>, second: seq<Path>)
    requires Lists(first, SecretPathsOf(c))
    requires Lists(second, SecretPathsOf(PersistAlong(id, Saved(c, before), first).config))
    ensures PersistAlong(id, PersistAlong(id, Saved(c, before), first), second) == PersistAlong(id, Saved(c, before), first)
      <==> forall p | p in TextPaths(c) && Moves(c, p) :: Settles(id, c, p, first)
  {
    var saved := PersistAlong(id, Saved(c, before), first);
    var again := PersistAlong(id, saved, second);
    PersistAlongSaves(id, c, before, first);
    MovesAgain(id, c, saved.config, first);
    SavingAgainStores(id, c, before, first, second);
    SettlesMeans(id, c, saved.entries, first);
    if forall p | p in TextPaths(c) && Moves(c, p) :: Settles(id, c, p, first) {
      SameEntries(id, c, saved, again);
    }
  }

  lemma SameEntries(id: string, c: Json, saved: Saved, again: Saved)
    requires TextPaths(saved.config) == TextPaths(c) && OthersKept(id, saved.config, saved.entries, again.entries)
    requires forall p | p in TextPaths(c) :: Moves(saved.config, p) <==> Moves(c, p) && !IsRef(MakeRef(id, p))
    requires forall p | p in TextPaths(c) && Moves(c, p) && !IsRef(MakeRef(id, p)) ::
      && MakeRef(id, p) in saved.entries && saved.entries[MakeRef(id, p)] == MakeRef(id, p)
      && MakeRef(id, p) in again.entries && again.entries[MakeRef(id, p)] == MakeRef(id, p)
    ensures again.entries == saved.entries
  {
    forall k ensures (k in saved.entries <==> k in again.entries) && (k in saved.entries ==> saved.entries[k] == again.entries[k]) {
      if p :| p in TextPaths(c) && Moves(saved.config, p) && k == MakeRef(id, p) {
      } else {
        assert forall p | p in TextPaths(saved.config) && Moves(saved.config, p) :: k != MakeRef(id, p);
      }
    }
  }

  /** With a line end in an environment's name, the second save loses the secret. */
  lemma LineEndLosesTheSecret(id: string, c: Json, before: Entries, first: seq<Path>, second: seq<Path>, p: Path)
    requires id != "" && '/' !in id && p in TextPaths(c) && Moves(c, p)
    requires exists piece :: piece in p && !OneLine(piece)
    requires Lists(first, SecretPathsOf(c))
    requires Lists(second, SecretPathsOf(PersistAlong(id, Saved(c, before), first).config))
    ensures var again := PersistAlong(id, PersistAlong(id, Saved(c, before), first), second);
      MakeRef(id, p) in again.entries && again.entries[MakeRef(id, p)] == MakeRef(id, p)
  {
    ReferableExactly(id, c, p);
    SavingAgainStores(id, c, before, first, second);
  }

  lemma {:induction false} RefsOfMember(id: string, paths: seq<Path>, k: string)
    ensures k in RefsOf(id, paths) <==> exists p | p in paths :: k == MakeRef(id, p)
    decreases |paths|
  {
    if paths != [] {
      assert paths == paths[..|paths| - 1] + [paths[|paths| - 1]];
      RefsOfMember(id, paths[..|paths| - 1], k);
    }
  }

  /** Deleting a project that was persisted leaves none of its secrets, and every entry of others. */
  lemma DeletingForgets(id: string, c: Json, before: Entries, saving: seq<Path>, deleting: seq<Path>)
    requires Lists(saving, SecretPathsOf(c))
    requires Lists(deleting, SecretPathsOf(PersistAlong(id, Saved(c, before), saving).config))
    ensures var after := PersistAlong(id, Saved(c, before), saving).entries - RefsOf(id, deleting);
      after == before - (set p | p in SecretPathsOf(c) :: MakeRef(id, p))
  {
    var saved := PersistAlong(id, Saved(c, before), saving);
    var refs := set p | p in SecretPathsOf(c) :: MakeRef(id, p);
    PersistAlongSaves(id, c, before, saving);
    SameSecretPaths(saved.config, c);
    forall k ensures k in RefsOf(id, deleting) <==> k in refs {
      RefsOfMember(id, deleting, k);
    }
    assert RefsOf(id, deleting) == refs;
    forall k | k !in refs ensures (k in before <==> k in saved.entries) && (k in before ==> before[k] == saved.entries[k]) {
      assert forall p | p in TextPaths(c) :: MakeRef(id, p) in refs;
    }
  }

  // ------------------------------------------------------------------- resolving

  /** No secret is a reference already. */
  predicate Plain(c: Json) {
    forall p | p in SecretPathsOf(c) :: !HoldsRef(Get(c, p))
  }

  ghost predicate Restored(id: string, c: Json, now: Json, done: seq<Path>) {
    && TextsDiffer(now, c, TextPaths(c))
    && forall p | p in TextPaths(c) ::
         Get(now, p) == if Moves(c, p) && !(p in done && IsRef(MakeRef(id, p))) then Some(Str(MakeRef(id, p))) else Get(c, p)
  }

  lemma ResolveOneRestores(id: string, c: Json, entries: Entries, now: Json, done: seq<Path>, p: Path)
    requires Plain(c) && Restored(id, c, now, done) && p in SecretPathsOf(c)
    requires p in TextPaths(c) && Moves(c, p) && IsRef(MakeRef(id, p)) ==> MakeRef(id, p) in entries && entries[MakeRef(id, p)] == TextOf(c, p)
    ensures ResolveOne(entries, now, p).Some? && Restored(id, c, ResolveOne(entries, now, p).value, done + [p])
  {
    LookupText(now, p);
    if p !in TextPaths(c) {
      NoTextThere(now, c, p);
    } else if HoldsRef(Get(now, p)) {
      WriteOneText(now, c, p, TextOf(c, p));
    }
  }

  ghost predicate EntriesReadable(id: string, c: Json, entries: Entries) {
    forall p | p in TextPaths(c) && Moves(c, p) && IsRef(MakeRef(id, p)) ::
      MakeRef(id, p) in entries && entries[MakeRef(id, p)] == TextOf(c, p)
  }

  lemma {:induction false} ResolveAlongRestores(id: string, c: Json, saved: Saved, paths: seq<Path>)
    requires Plain(c) && Restored(id, c, saved.config, [])
    requires EntriesReadable(id, c, saved.entries)
    requires forall p | p in paths :: p in SecretPathsOf(c)
    ensures ResolveAlong(saved.entries, saved.config, paths).Some?
    ensures Restored(id, c, ResolveAlong(saved.entries, saved.config, paths).value, paths)
    decreases |paths|
  {
    if paths != [] {
      var front, p := paths[..|paths| - 1], paths[|paths| - 1];
      assert paths == front + [p];
      ResolveAlongRestores(id, c, saved, front);
      ResolveOneRestores(id, c, saved.entries, ResolveAlong(saved.entries, saved.config, front).value, front, p);
    }
  }

  /** Every reference this project needs is one the pattern accepts (or is itself the secret). */
  predicate Referable(id: string, c: Json) {
    forall p | p in TextPaths(c) && Moves(c, p) :: IsRef(MakeRef(id, p)) || MakeRef(id, p) == TextOf(c, p)
  }

  /**
   * Resolving the persisted config against the same store never fails, and gives the config back
   * exactly when every reference reads as a reference: for an id without slashes, when the
   * environment names hold no line ends (`ReferableExactly`).
   */
  lemma ResolvingUndoesPersisting(id: string, c: Json, before: Entries, saving: seq<Path>, loading: seq<Path>)
    requires Plain(c) && Lists(saving, SecretPathsOf(c))
    requires Lists(loading, SecretPathsOf(PersistAlong(id, Saved(c, before), saving).config))
    ensures var saved := PersistAlong(id, Saved(c, before), saving);
      ResolveAlong(saved.entries, saved.config, loading).Some?
      && (ResolveAlong(saved.entries, saved.config, loading) == Some(c) <==> Referable(id, c))
  {
    var saved := PersistAlong(id, Saved(c, before), saving);
    PersistAlongSaves(id, c, before, saving);
    SameSecretPaths(saved.config, c);
    ResolveAlongRestores(id, c, saved, loading);
    var r := ResolveAlong(saved.entries, saved.config, loading).value;
    if Referable(id, c) {
      forall p | p in TextPaths(c) ensures Get(r, p) == Get(c, p) {
      }
      SameTextsSameTree(r, c, TextPaths(c));
    } else {
      var p :| p in TextPaths(c) && Moves(c, p) && !IsRef(MakeRef(id, p)) && MakeRef(id, p) != TextOf(c, p);
      assert Get(r, p) == Some(Str(MakeRef(id, p)));
    }
  }

  lemma {:induction false} JoinedLines(p: Path)
    requires p != []
    ensures OneLine(Join(p, '.')) <==> forall piece | piece in p :: OneLine(piece)
    ensures Join(p, '.') == "" <==> p == [""]
  {
    assert p == [p[0]] + p[1..];
    if |p| > 1 {
      JoinedLines(p[1..]);
      OneLineConcat(p[0] + ['.'], Join(p[1..], '.'));
      OneLineConcat(p[0], ['.']);
    }
  }

  lemma OneLineConcat(a: string, b: string)
    ensures OneLine(a + b) <==> OneLine(a) && OneLine(b)
  {
    assert forall i | 0 <= i < |a| :: a[i] == (a + b)[i];
    assert forall i | 0 <= i < |b| :: b[i] == (a + b)[|a| + i];
  }

  lemma BasePieces(base: Path)
    requires base in BASE_PATHS
    ensures base != [""] && forall piece | piece in base :: OneLine(piece)
  {
  }

  /** For an id without slashes only a line end in an environment's name can spoil a reference. */
  lemma ReferableExactly(id: string, c: Json, p: Path)
    requires id != "" && '/' !in id && p in SecretPathsOf(c)
    ensures IsRef(MakeRef(id, p)) <==> forall piece | piece in p :: OneLine(piece)
    ensures p in BASE_PATHS ==> IsRef(MakeRef(id, p))
  {
    ListedPathsDotFree(c, p);
    JoinedLines(p);
    if p in BASE_PATHS {
      BasePieces(p);
    } else {
      var name, base :| base in BASE_PATHS && p == EnvPath(name, base);
      assert |p| > 1;
    }
    RefIsRead(id, p);
  }

  // ---------------------------------------------------- resolving, for any config

  ghost predicate PlainEntries(entries: Entries) {
    forall k | k in entries :: !IsRef(entries[k])
  }

  /** The reference at this path has no entry. */
  predicate Dangling(entries: Entries, c: Json, p: Path) {
    HoldsRef(Get(c, p)) && Get(c, p).value.s !in entries
  }

  ghost predicate ResolvedSoFar(entries: Entries, c: Json, now: Json, done: seq<Path>) {
    && TextsDiffer(now, c, TextPaths(c))
    && forall p | p in TextPaths(c) ::
         if p in done && HoldsRef(Get(c, p))
         then TextOf(c, p) in entries && Get(now, p) == Some(Str(entries[TextOf(c, p)]))
         else Get(now, p) == Get(c, p)
  }

  lemma ResolveOneExactly(entries: Entries, c: Json, now: Json, done: seq<Path>, p: Path)
    requires PlainEntries(entries) && ResolvedSoFar(entries, c, now, done) && p in SecretPathsOf(c)
    ensures ResolveOne(entries, now, p).None? ==> Dangling(entries, c, p)
    ensures ResolveOne(entries, now, p).Some? ==> ResolvedSoFar(entries, c, ResolveOne(entries, now, p).value, done + [p])
    ensures HoldsRef(Get(now, p)) ==> Lookup(now, p) == Get(now, p) == Get(c, p)
  {
    LookupText(now, p);
    if p !in TextPaths(c) {
      NoTextThere(now, c, p);
    } else if HoldsRef(Get(now, p)) {
      if p !in done && TextOf(c, p) in entries {
        WriteOneText(now, c, p, entries[TextOf(c, p)]);
      }
    }
  }

  /**
   * Whatever the config: resolving fails exactly when some secret path holds a reference without
   * an entry; otherwise every reference, and nothing else, is replaced by its entry.
   */
  lemma {:induction false} ResolvingReplacesReferences(entries: Entries, c: Json, paths: seq<Path>)
    requires PlainEntries(entries) && forall p | p in paths :: p in SecretPathsOf(c)
    ensures ResolveAlong(entries, c, paths) == None <==> exists p | p in paths :: Dangling(entries, c, p)
    ensures ResolveAlong(entries, c, paths).Some? ==> ResolvedSoFar(entries, c, ResolveAlong(entries, c, paths).value, paths)
    decreases |paths|
  {
    if paths == [] {
      StartsTheSame(c);
    } else {
      var front, p := paths[..|paths| - 1], paths[|paths| - 1];
      assert paths == front + [p];
      ResolvingReplacesReferences(entries, c, front);
      if ResolveAlong(entries, c, front).Some? {
        var now := ResolveAlong(entries, c, front).value;
        ResolveOneExactly(entries, c, now, front, p);
        if Dangling(entries, c, p) {
          assert p in TextPaths(c) && Get(now, p) == Get(c, p);
          LookupText(now, p);
        }
      }
    }
  }

  // ------------------------------------------------------------- many projects

  lemma {:induction false} SameEntriesSameResult(one: Entries, two: Entries, c: Json, paths: seq<Path>)
    requires PlainEntries(one) && forall p | p in paths :: p in SecretPathsOf(c)
    requires forall p | p in TextPaths(c) && HoldsRef(Get(c, p)) :: (TextOf(c, p) in one <==> TextOf(c, p) in two)
    requires forall p | p in TextPaths(c) && HoldsRef(Get(c, p)) && TextOf(c, p) in one :: one[TextOf(c, p)] == two[TextOf(c, p)]
    ensures ResolveAlong(one, c, paths) == ResolveAlong(two, c, paths)
    decreases |paths|
  {
    if paths != [] {
      var front, p := paths[..|paths| - 1], paths[|paths| - 1];
      assert paths == front + [p];
      SameEntriesSameResult(one, two, c, front);
      ResolvingReplacesReferences(one, c, front);
      if ResolveAlong(one, c, front).Some? {
        var now := ResolveAlong(one, c, front).value;
        LookupText(now, p);
        ResolveOneExactly(one, c, now, front, p);
        assert HoldsRef(Get(now, p)) ==> p in TextPaths(c);
      }
    }
  }

  /** A config whose references are its own project's. */
  ghost predicate OwnRefs(id: string, c: Json) {
    forall p | p in TextPaths(c) && HoldsRef(Get(c, p)) :: exists q :: TextOf(c, p) == MakeRef(id, q)
  }

  /** Saving one project's secrets never changes what another project resolves to. */
  lemma ProjectsAreSeparate(id: string, c: Json, other: string, d: Json, before: Entries, saving: seq<Path>, loading: seq<Path>)
    requires '/' !in id && '/' !in other && id != other
    requires Lists(saving, SecretPathsOf(c)) && Lists(loading, SecretPathsOf(d))
    requires PlainEntries(before) && OwnRefs(other, d)
    ensures ResolveAlong(PersistAlong(id, Saved(c, before), saving).entries, d, loading) == ResolveAlong(before, d, loading)
  {
    var after := PersistAlong(id, Saved(c, before), saving).entries;
    PersistAlongSaves(id, c, before, saving);
    forall p | p in TextPaths(d) && HoldsRef(Get(d, p))
      ensures forall q | q in TextPaths(c) :: TextOf(d, p) != MakeRef(id, q)
    {
      var r :| TextOf(d, p) == MakeRef(other, r);
      forall q | q in TextPaths(c) ensures TextOf(d, p) != MakeRef(id, q) {
        if TextOf(d, p) == MakeRef(id, q) { ProjectsDiffer(id, q, other, r); }
      }
    }
    SameEntriesSameResult(before, after, d, loading);
  }

  /** Only plain texts are ever stored. */
  lemma {:induction false} OnlyPlainTextsAreStored(id: string, start: Saved, paths: seq<Path>)
    requires PlainEntries(start.entries)
    ensures PlainEntries(PersistAlong(id, start, paths).entries)
    decreases |paths|
  {
    if paths != [] {
      OnlyPlainTextsAreStored(id, start, paths[..|paths| - 1]);
    }
  }

  // ---------------------------------------------- environment names with dots

  lemma {:induction false} DotsKeptAlong(id: string, c: Json, start: Saved, paths: seq<Path>, name: string, base: Path)
    requires '.' in name && base != [] && forall p | p in paths :: p in SecretPathsOf(c)
    ensures Get(PersistAlong(id, start, paths).config, TruePath(name, base)) == Get(start.config, TruePath(name, base))
    decreases |paths|
  {
    if paths != [] {
      var front, p := paths[..|paths| - 1], paths[|paths| - 1];
      assert paths == front + [p];
      DotsKeptAlong(id, c, start, front, name, base);
      ConfigRedaction.ListedPathsMissDots(c, p, name, base);
      SetExistingElsewhere(PersistAlong(id, start, front).config, p, Str(MakeRef(id, p)), TruePath(name, base));
    }
  }

  /** An environment's plaintext leaves the config exactly when the environment's name has no dot. */
  lemma StoredExactlyWithoutDots(id: string, c: Json, before: Entries, paths: seq<Path>, name: string, base: Path)
    requires Lists(paths, SecretPathsOf(c)) && base in BASE_PATHS
    requires Storable(Get(c, TruePath(name, base))) && Get(c, TruePath(name, base)).value.s != MakeRef(id, TruePath(name, base))
    ensures Get(PersistAlong(id, Saved(c, before), paths).config, TruePath(name, base)) == Get(c, TruePath(name, base)) <==> '.' in name
  {
    if '.' in name {
      DotsKeptAlong(id, c, Saved(c, before), paths, name, base);
    } else {
      OverrideIsPath(c, name, base);
      EnvPathOfPlainName(name, base);
      assert TruePath(name, base) in SecretPathsOf(c);
      NoPlaintextOnDisk(id, c, before, paths, TruePath(name, base));
    }
  }
}
