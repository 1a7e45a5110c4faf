/**
 * Secrets of a project move into the secret store and back (backend/src/secrets/projectSecrets.js, secretRef.js).
 * The store's encryption is not part of the model: an entry is read as it was written.
 */
module ProjectSecrets {
  import opened Wrappers
  import opened Text
  import opened ConfigTree
  import opened SecretPaths

  const REF_PREFIX := "secret://"

  type Entries = map<string, string>

  function MakeRef(id: string, p: Path): string {
    REF_PREFIX + id + "/" + Join(p, '.')
  }

  /** What `.` in a regular expression does not match. */
  predicate IsLineEnd(c: char) {
    c == '\n' || c == '\r' || c == 0x2028 as char || c == 0x2029 as char
  }

  predicate OneLine(s: string) {
    forall i | 0 <= i < |s| :: !IsLineEnd(s[i])
  }

  datatype Ref = Ref(projectId: string, fieldPath: string)

  /** `REF_PATTERN`: an id up to the first slash, then one line of text. */
  function ParseRef(text: string): Option<Ref> {
    if REF_PREFIX <= text then
      var rest := text[|REF_PREFIX|..];
      var slash := IndexOf(rest, '/');
      if 0 < slash < |rest| - 1 && OneLine(rest[slash + 1..])
      then Some(Ref(rest[..slash], rest[slash + 1..]))
      else None
    else None
  }

  predicate IsRef(text: string) {
    ParseRef(text).Some?
  }

  /** A text that goes into the store: not blank, and not a reference already. */
  predicate Storable(v: Option<Json>) {
    v.Some? && v.value.Str? && !IsRef(v.value.s) && Trim(v.value.s) != ""
  }

  predicate HoldsRef(v: Option<Json>) {
    v.Some? && v.value.Str? && IsRef(v.value.s)
  }

  datatype Saved = Saved(config: Json, entries: Entries)

  /** `setAtPath` is used only where a text was found, so every parent is an object there. */
  function PersistOne(id: string, now: Saved, p: Path): Saved {
    var v := Lookup(now.config, p);
    if Storable(v) then
      Saved(SetExisting(now.config, p, Str(MakeRef(id, p))), now.entries[MakeRef(id, p) := v.value.s])
    else now
  }

  function PersistAlong(id: string, start: Saved, paths: seq<Path>): Saved
    decreases |paths|
  {
    if paths == [] then start
    else PersistOne(id, PersistAlong(id, start, paths[..|paths| - 1]), paths[|paths| - 1])
  }

  /** None when a reference has no entry: the source throws. */
  function ResolveOne(entries: Entries, config: Json, p: Path): Option<Json> {
    var v := Lookup(config, p);
    if !HoldsRef(v) then Some(config)
    else if v.value.s in entries then Some(SetExisting(config, p, Str(entries[v.value.s])))
    else None
  }

  function ResolveAlong(entries: Entries, config: Json, paths: seq<Path>): Option<Json>
    decreases |paths|
  {
    if paths == [] then Some(config)
    else
      var before := ResolveAlong(entries, config, paths[..|paths| - 1]);
      if before.None? then None else ResolveOne(entries, before.value, paths[|paths| - 1])
  }

  function RefsOf(id: string, paths: seq<Path>): set<string>
    decreases |paths|
  {
    if paths == [] then {} else RefsOf(id, paths[..|paths| - 1]) + {MakeRef(id, paths[|paths| - 1])}
  }

  class SecretStore {
    var entries: Entries

    constructor ()
      ensures entries == map[]
    {
      entries := map[];
    }

    /**
     * `persistProjectSecrets`. Nothing comes back, and nothing is stored, when a reference would be
     * needed and the project has a blank id.
     */
    method Persist(id: string, config: Json) returns (saved: Option<Json>, ghost paths: seq<Path>)
      modifies this
      ensures Lists(paths, SecretPathsOf(config))
      ensures saved.None? <==> Trim(id) == "" && exists p | p in paths :: Storable(Lookup(config, p))
      ensures saved.None? ==> entries == old(entries)
      ensures saved.Some? ==> Saved(saved.value, entries) == PersistAlong(id, Saved(config, old(entries)), paths)
    {
      var all := GetSecretFieldPaths(config);
      paths := all;
      var now := config;
      for i := 0 to |all|
        invariant Saved(now, entries) == PersistAlong(id, Saved(config, old(entries)), all[..i])
        invariant Trim(id) == "" ==> now == config && entries == old(entries)
        invariant Trim(id) == "" ==> forall j | 0 <= j < i :: !Storable(Lookup(config, all[j]))
      {
        assert all[..i + 1][..i] == all[..i];
        var v := Lookup(now, all[i]);
        if Storable(v) {
          if Trim(id) == "" {
            assert all[i] in all;
            return None, all;
          }
          entries := entries[MakeRef(id, all[i]) := v.value.s];
          now := SetExisting(now, all[i], Str(MakeRef(id, all[i])));
        }
      }
      assert all[..|all|] == all;
      saved := Some(now);
    }

    /** `resolveProjectSecrets` */
    method Resolve(config: Json) returns (resolved: Option<Json>)
      ensures exists paths :: Lists(paths, SecretPathsOf(config)) && resolved == ResolveAlong(entries, config, paths)
    {
      var all := GetSecretFieldPaths(config);
      var now := config;
      for i := 0 to |all|
        invariant ResolveAlong(entries, config, all[..i]) == Some(now)
      {
        assert all[..i + 1][..i] == all[..i];
        var v := Lookup(now, all[i]);
        if HoldsRef(v) {
          if v.value.s !in entries {
            MissingEntryIsFinal(entries, config, all, i + 1);
            return None;
          }
          now := SetExisting(now, all[i], Str(entries[v.value.s]));
        }
      }
      assert all[..|all|] == all;
      resolved := Some(now);
    }

    method DeleteEntry(key: string) returns (existed: bool)
      modifies this
      ensures existed <==> key in old(entries)
      ensures entries == old(entries) - {key}
      ensures |old(entries)| - |entries| == if existed then 1 else 0
    {
      existed := key in entries;
      if existed {
        RemoveOne(entries, key);
      } else {
        assert entries == entries - {key};
      }
      entries := entries - {key};
    }

    /** `deleteProjectSecrets`; without a config the base paths are meant. A blank id is an error. */
    method Delete(id: string, config: Option<Json>) returns (removed: Option<nat>, ghost paths: seq<Path>)
      modifies this
      ensures if config.Some? then Lists(paths, SecretPathsOf(config.value)) else paths == BASE_PATHS
      ensures removed.None? <==> Trim(id) == ""
      ensures entries == if removed.Some? then old(entries) - RefsOf(id, paths) else old(entries)
      ensures removed.Some? ==> removed.value == |old(entries)| - |entries|
    {
      var all := BASE_PATHS;
      if config.Some? {
        all := GetSecretFieldPaths(config.value);
      }
      paths := all;
      if Trim(id) == "" { return None, all; }
      var count := DeleteAll(id, all);
      removed := Some(count);
    }

    method DeleteAll(id: string, all: seq<Path>) returns (removed: nat)
      modifies this
      ensures entries == old(entries) - RefsOf(id, all)
      ensures removed == |old(entries)| - |entries|
    {
      removed := 0;
      for i := 0 to |all|
        invariant entries == old(entries) - RefsOf(id, all[..i])
        invariant removed == |old(entries)| - |entries|
      {
        MinusOneMore(old(entries), RefsOf(id, all[..i]), MakeRef(id, all[i]));
        var existed := DeleteEntry(MakeRef(id, all[i]));
        if existed {
          removed := removed + 1;
        }
        assert all[..i + 1][..i] == all[..i];
      }
      assert all[..|all|] == all;
    }
  }

  lemma MinusOneMore(m: Entries, ks: set<string>, k: string)
    ensures m - ks - {k} == m - (ks + {k})
  {
  }

  lemma RemoveOne(m: Entries, k: string)
    requires k in m
    ensures |m - {k}| == |m| - 1
  {
    assert (m - {k}).Keys == m.Keys - {k};
    assert |m| == |m.Keys| && |m - {k}| == |(m - {k}).Keys|;
  }

  lemma {:induction false} MissingEntryIsFinal(entries: Entries, config: Json, paths: seq<Path>, n: nat)
    requires n <= |paths| && ResolveAlong(entries, config, paths[..n]) == None
    ensures ResolveAlong(entries, config, paths) == None
    decreases |paths| - n
  {
    if n == |paths| {
      assert paths[..n] == paths;
    } else {
      assert paths[..n + 1][..n] == paths[..n];
      MissingEntryIsFinal(entries, config, paths, n + 1);
    }
  }

  // ------------------------------------------------------------- what is a reference

  ghost predicate IsReferenceTo(s: string, id: string, line: string) {
    && s == "secret://" + id + "/" + line && id != "" && '/' !in id && line != ""
    && forall c | c in line :: c !in {'\n', '\r', 0x2028 as char, 0x2029 as char}
  }

  /** The prefix, an id without a slash, a slash, and one line of text. */
  ghost predicate IsReference(s: string) {
    exists id, line :: IsReferenceTo(s, id, line)
  }

  lemma ReferenceIsRead(s: string, id: string, line: string)
    requires IsReferenceTo(s, id, line)
    ensures ParseRef(s) == Some(Ref(id, line))
  {
    var rest := s[|REF_PREFIX|..];
    assert s == REF_PREFIX + (id + ['/'] + line);
    assert rest == id + ['/'] + line;
    IndexOfAt(id, '/', line);
    assert rest[..|id|] == id && rest[|id| + 1..] == line;
    forall i | 0 <= i < |line| ensures !IsLineEnd(line[i]) {
      assert line[i] in line;
    }
  }

  lemma ReadIsReference(s: string)
    requires IsRef(s)
    ensures IsReferenceTo(s, ParseRef(s).value.projectId, ParseRef(s).value.fieldPath)
  {
    var rest := s[|REF_PREFIX|..];
    var slash := IndexOf(rest, '/');
    assert s == REF_PREFIX + rest && rest == rest[..slash] + "/" + rest[slash + 1..];
  }

  lemma RefMeans(s: string)
    ensures IsRef(s) <==> IsReference(s)
  {
    if IsRef(s) {
      ReadIsReference(s);
    }
    if id, line :| IsReferenceTo(s, id, line) {
      ReferenceIsRead(s, id, line);
    }
  }

  // ------------------------------------------------------------------ references

  lemma RefIsRead(id: string, p: Path)
    requires id != "" && '/' !in id && p != [] && Join(p, '.') != ""
    ensures ParseRef(MakeRef(id, p)) == if OneLine(Join(p, '.')) then Some(Ref(id, Join(p, '.'))) else None
  {
    var path := Join(p, '.');
    var rest := MakeRef(id, p)[|REF_PREFIX|..];
    assert rest == id + ['/'] + path;
    IndexOfAt(id, '/', path);
    assert rest[..|id|] == id && rest[|id| + 1..] == path;
  }

  ghost predicate DotFree(p: Path) {
    p != [] && forall piece | piece in p :: '.' !in piece
  }

  /** Two paths of one project never share a reference. */
  lemma RefsDiffer(id: string, p: Path, q: Path)
    requires DotFree(p) && DotFree(q) && MakeRef(id, p) == MakeRef(id, q)
    ensures p == q
  {
    var n := |REF_PREFIX + id + "/"|;
    assert Join(p, '.') == MakeRef(id, p)[n..] == Join(q, '.');
    SplitOfJoin(p, '.');
    SplitOfJoin(q, '.');
  }

  /** Two projects never share a reference, if their ids hold no slash. */
  lemma ProjectsDiffer(id: string, p: Path, id': string, q: Path)
    requires '/' !in id && '/' !in id' && MakeRef(id, p) == MakeRef(id', q)
    ensures id == id'
  {
    var a, b := Join(p, '.'), Join(q, '.');
    assert MakeRef(id, p)[|REF_PREFIX|..] == id + ['/'] + a;
    assert MakeRef(id', q)[|REF_PREFIX|..] == id' + ['/'] + b;
    IndexOfAt(id, '/', a);
    IndexOfAt(id', '/', b);
    assert id == (id + ['/'] + a)[..|id|] && id' == (id' + ['/'] + b)[..|id'|];
  }

  lemma DotFreeConcat(p: Path, q: Path)
    requires DotFree(p) && DotFree(q)
    ensures DotFree(p + q)
  {
  }

  lemma BasePathsDotFree(base: Path)
    requires base in BASE_PATHS
    ensures DotFree(base)
  {
  }

  lemma EnvPathDotFree(name: string, base: Path)
    requires base in BASE_PATHS
    ensures DotFree(EnvPath(name, base))
  {
    BasePathsDotFree(base);
    JoinOfSplit(name, '.');
    assert DotFree(Split(name, '.'));
    assert '.' !in ENVIRONMENTS && DotFree([ENVIRONMENTS]);
    DotFreeConcat([ENVIRONMENTS], Split(name, '.'));
    DotFreeConcat([ENVIRONMENTS] + Split(name, '.'), base);
  }

  lemma ListedPathsDotFree(c: Json, p: Path)
    requires p in SecretPathsOf(c)
    ensures DotFree(p)
  {
    if p in BASE_PATHS {
      BasePathsDotFree(p);
    } else {
      var name, base :| base in BASE_PATHS && p == EnvPath(name, base);
      EnvPathDotFree(name, base);
    }
  }

  // ------------------------------------------- trees that differ in texts only

  lemma UnderHas(ps: set<Path>, p: Path)
    requires p in ps && p != []
    ensures p[1..] in Under(ps, p[0])
  {
  }

  lemma UnderFrom(ps: set<Path>, k: string, q: Path)
    requires q in Under(ps, k)
    ensures [k] + q in ps
  {
    var p :| p in ps && p != [] && p[0] == k && p[1..] == q;
    assert p == [k] + q;
  }

  /** The same tree, but for the texts at `ps`. */
  ghost predicate TextsDiffer(a: Json, b: Json, ps: set<Path>)
    decreases a
  {
    if [] in ps then a.Str? && b.Str?
    else if a.Obj? && b.Obj? then
      a.fields.Keys == b.fields.Keys && forall k | k in a.fields :: TextsDiffer(a.fields[k], b.fields[k], Under(ps, k))
    else a == b
  }

  ghost predicate AreTexts(c: Json, ps: set<Path>) {
    forall p | p in ps :: Get(c, p).Some? && Get(c, p).value.Str?
  }

  lemma AreTextsBelow(c: Json, ps: set<Path>, k: string)
    requires AreTexts(c, ps) && c.Obj? && k in c.fields
    ensures AreTexts(c.fields[k], Under(ps, k))
  {
    forall q | q in Under(ps, k) ensures Get(c.fields[k], q).Some? && Get(c.fields[k], q).value.Str? {
      UnderFrom(ps, k, q);
      assert ([k] + q)[1..] == q;
      assert Get(c, [k] + q) == Get(c.fields[k], q);
    }
  }

  lemma {:induction false} DiffersFromItself(c: Json, ps: set<Path>)
    requires AreTexts(c, ps)
    ensures TextsDiffer(c, c, ps)
    decreases c
  {
    if [] in ps {
      assert Get(c, []) == Some(c);
    } else if c.Obj? {
      forall k | k in c.fields ensures TextsDiffer(c.fields[k], c.fields[k], Under(ps, k)) {
        AreTextsBelow(c, ps, k);
        DiffersFromItself(c.fields[k], Under(ps, k));
      }
    }
  }

  /** The texts are all there is to the difference. */
  lemma {:induction false} SameTextsSameTree(a: Json, b: Json, ps: set<Path>)
    requires TextsDiffer(a, b, ps)
    requires forall p | p in ps :: Get(a, p) == Get(b, p)
    ensures a == b
    decreases a
  {
    if [] in ps {
      assert Get(a, []) == Get(b, []);
    } else if a.Obj? && b.Obj? {
      forall k | k in a.fields ensures a.fields[k] == b.fields[k] {
        forall q | q in Under(ps, k) ensures Get(a.fields[k], q) == Get(b.fields[k], q) {
          UnderFrom(ps, k, q);
          assert ([k] + q)[1..] == q;
          assert Get(a, [k] + q) == Get(b, [k] + q);
        }
        SameTextsSameTree(a.fields[k], b.fields[k], Under(ps, k));
      }
      assert a.fields == b.fields;
    }
  }

  /** Both trees have the same paths; what is there is the same, or a text, or an object. */
  lemma {:induction false} SamePaths(a: Json, b: Json, ps: set<Path>, q: Path)
    requires TextsDiffer(a, b, ps)
    ensures Get(a, q).Some? == Get(b, q).Some?
    ensures Get(a, q).Some? ==> Get(a, q).value.Obj? == Get(b, q).value.Obj? && Get(a, q).value.Str? == Get(b, q).value.Str?
    ensures NullOnTheWay(a, q) == NullOnTheWay(b, q)
    decreases |q|
  {
    if q != [] && [] !in ps && a.Obj? && b.Obj? && q[0] in a.fields {
      SamePaths(a.fields[q[0]], b.fields[q[0]], Under(ps, q[0]), q[1..]);
    }
  }

  lemma {:induction false} WriteText(a: Json, b: Json, ps: set<Path>, p: Path, t: string)
    requires TextsDiffer(a, b, ps) && p in ps && p != []
    requires Get(a, p).Some? && Get(a, p).value.Str?
    ensures TextsDiffer(SetExisting(a, p, Str(t)), b, ps)
    ensures Get(SetExisting(a, p, Str(t)), p) == Some(Str(t))
    decreases |p|
  {
    var k := p[0];
    UnderHas(ps, p);
    if |p| == 1 {
      assert p[1..] == [];
    } else {
      WriteText(a.fields[k], b.fields[k], Under(ps, k), p[1..], t);
    }
    var a' := SetExisting(a, p, Str(t));
    assert forall k' | k' in a'.fields && k' != k :: a'.fields[k'] == a.fields[k'];
  }

  lemma {:induction false} TextsApart(c: Json, p: Path, q: Path)
    requires Get(c, p).Some? && Get(c, p).value.Str?
    requires Get(c, q).Some? && Get(c, q).value.Str? && p != q
    ensures Apart(p, q)
    decreases |p|
  {
    if p != [] && q != [] && p[0] == q[0] {
      assert p == [p[0]] + p[1..] && q == [q[0]] + q[1..];
      TextsApart(c.fields[p[0]], p[1..], q[1..]);
    }
  }
}
