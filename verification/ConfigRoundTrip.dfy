/** Saving back what was read: merging a config's redacted form into it (backend/src/api/projectSerialization.js). */
module ConfigRoundTrip {
  import opened Wrappers
  import opened ConfigTree
  import opened SecretPaths
  import opened ConfigRedaction
  import opened ConfigMerge

  lemma UnderMember(ps: set<Path>, k: string, q: Path)
    ensures q in Under(ps, k) <==> [k] + q in ps
  {
    var p := [k] + q;
    assert p[1..] == q;
    assert forall other: Path | other != [] && other[0] == k && other[1..] == q :: other == p;
  }

  /** `m` is `c`, except that values at paths of `ps` may be left out. */
  ghost predicate LeavesOut(m: Json, c: Json, ps: set<Path>)
    decreases c
  {
    m == c || (
      && m.Obj? && c.Obj? && m.fields.Keys <= c.fields.Keys
      && forall k | k in c.fields ::
           if k in m.fields then LeavesOut(m.fields[k], c.fields[k], Under(ps, k)) else [k] in ps)
  }

  /** As `LeavesOut`, but with presence flags put in anywhere except below a `ciConfig` key. */
  ghost predicate Flagged(r: Json, c: Json, ps: set<Path>)
    decreases c
  {
    r == c || (
      && r.Obj? && c.Obj?
      && (forall k | k in r.fields && k !in c.fields :: IsFlag(k) && r.fields[k].Bool?)
      && forall k | k in c.fields ::
           if k in r.fields then
             if k == CI_CONFIG then r.fields[k] == c.fields[k] else Flagged(r.fields[k], c.fields[k], Under(ps, k))
           else [k] in ps)
  }

  /** No key looks like a presence flag, except below a `ciConfig` key. */
  ghost predicate FlagFree(c: Json) {
    match c
    case Obj(fields) => forall k | k in fields :: !IsFlag(k) && (k == CI_CONFIG || FlagFree(fields[k]))
    case Arr(items) => forall i | 0 <= i < |items| :: FlagFree(items[i])
    case _ => true
  }

  lemma StripFlagFree(c: Json)
    requires FlagFree(c)
    ensures Strip(c) == c
  {
    match c
    case Obj(fields) =>
      forall k | k in fields && k != CI_CONFIG ensures Strip(fields[k]) == fields[k] {
        StripFlagFree(fields[k]);
      }
      assert Strip(c).fields == fields;
    case Arr(items) =>
      forall i | 0 <= i < |items| ensures Strip(items[i]) == items[i] {
        StripFlagFree(items[i]);
      }
    case _ =>
  }

  /** Stripping takes the flags out again. */
  lemma {:induction false} StripFlagged(r: Json, c: Json, ps: set<Path>)
    requires FlagFree(c) && Flagged(r, c, ps)
    ensures LeavesOut(Strip(r), c, ps)
    decreases c
  {
    if r == c {
      StripFlagFree(c);
    } else {
      var s := Strip(r);
      forall k | k in c.fields
        ensures if k in s.fields then LeavesOut(s.fields[k], c.fields[k], Under(ps, k)) else [k] in ps
      {
        assert k in s.fields <==> k in r.fields;
        if k in r.fields && k != CI_CONFIG {
          StripFlagged(r.fields[k], c.fields[k], Under(ps, k));
        }
      }
      assert s.fields.Keys <= c.fields.Keys;
    }
  }

  // -------------------------------------------------------- redaction keeps the rest

  lemma {:induction false} DeleteFlagged(r: Json, c: Json, ps: set<Path>, p: Path)
    requires Flagged(r, c, ps) && p in ps && p != [] && CI_CONFIG !in p
    ensures Flagged(Delete(r, p), c, ps)
    decreases |p|
  {
    if r.Obj? && p[0] in r.fields {
      var r' := Delete(r, p);
      if |p| == 1 {
        assert p == [p[0]];
        SelfFlagged(r, c, ps);
      } else {
        SelfFlagged(r, c, ps);
        assert p[1..] in Under(ps, p[0]);
        assert forall k | k in p[1..] :: k in p;
        if p[0] in c.fields {
          DeleteFlagged(r.fields[p[0]], c.fields[p[0]], Under(ps, p[0]), p[1..]);
        }
      }
    }
  }

  /** The two ways of being flagged agree on equal trees. */
  lemma SelfFlagged(r: Json, c: Json, ps: set<Path>)
    requires Flagged(r, c, ps) && r.Obj?
    ensures c.Obj?
    ensures forall k | k in r.fields && k !in c.fields :: IsFlag(k) && r.fields[k].Bool?
    ensures forall k | k in c.fields ::
      if k in r.fields then
        if k == CI_CONFIG then r.fields[k] == c.fields[k] else Flagged(r.fields[k], c.fields[k], Under(ps, k))
      else [k] in ps
  {
  }

  lemma {:induction false} SetFlagFlagged(r: Json, c: Json, ps: set<Path>, p: Path, v: Json)
    requires Flagged(r, c, ps) && FlagFree(c) && CI_CONFIG !in p && v.Bool?
    requires p != [] && IsFlag(p[|p| - 1])
    ensures Flagged(SetExisting(r, p, v), c, ps)
    decreases |p|
  {
    if r.Obj? {
      SelfFlagged(r, c, ps);
      assert p[0] in p;
      if |p| > 1 && p[0] in c.fields && p[0] in r.fields {
        assert forall k | k in p[1..] :: k in p;
        SetFlagFlagged(r.fields[p[0]], c.fields[p[0]], Under(ps, p[0]), p[1..], v);
      } else if |p| > 1 && p[0] in r.fields {
        assert SetExisting(r, p, v).fields == r.fields;
      }
    }
  }

  /**
   * A config that a round trip can be asked about: no key looks like a flag, and the listed paths keep
   * away from one another and from `ciConfig`.
   */
  ghost predicate WellFormed(c: Json) {
    && c.Obj? && FlagFree(c)
    && (forall p | p in SecretPathsOf(c) :: CI_CONFIG !in p)
    && (forall p, q | p in SecretPathsOf(c) && q in SecretPathsOf(c) :: p == q || Apart(p, q))
  }

  /** As every config is whose environments have plain names. */
  lemma PlainlyNamedIsWellFormed(c: Json)
    requires c.Obj? && FlagFree(c) && forall name | name in Environments(c) :: '.' !in name && name != CI_CONFIG
    ensures WellFormed(c)
  {
    FlagFreeNames(c);
    SecretPathsAreTrue(c);
    forall p | p in SecretPathsOf(c) ensures CI_CONFIG !in p {
      AwayFromCi(c, p);
    }
    forall p, q | p in SecretPathsOf(c) && q in SecretPathsOf(c) && p != q ensures Apart(p, q) {
      SecretPathsApart(p, q);
    }
  }

  lemma FlagFreeNames(c: Json)
    requires c.Obj? && FlagFree(c)
    ensures forall name | name in Environments(c) :: !IsFlag(name)
  {
    if ENVIRONMENTS in c.fields && c.fields[ENVIRONMENTS].Obj? {
      assert FlagFree(c.fields[ENVIRONMENTS]);
    }
  }

  lemma BaseAwayFromCi(name: string, base: Path)
    requires base in BASE_PATHS && name != CI_CONFIG
    ensures CI_CONFIG !in base && CI_CONFIG !in TruePath(name, base)
  {
    assert forall k | k in TruePath(name, base) :: k == ENVIRONMENTS || k == name || k in base;
  }

  lemma AwayFromCi(c: Json, p: Path)
    requires WellNamed(c) && CI_CONFIG !in Environments(c) && p in SecretPathsOf(c)
    ensures CI_CONFIG !in p
  {
    if p in BASE_PATHS {
      BaseAwayFromCi("", p);
    } else {
      var name, base :| name in Environments(c) && base in BASE_PATHS && Overrides(c, name, base) && p == EnvPath(name, base);
      EnvPathOfPlainName(name, base);
      BaseAwayFromCi(name, base);
    }
  }

  lemma FlagOfSecret(p: Path)
    requires EndsInSecret(p)
    ensures IsFlag(FlagName(p[|p| - 1]))
  {
    var leaf := p[|p| - 1];
    assert 'a' <= leaf[0] <= 'z';
    assert FlagName(leaf)[..3] == "has" && FlagName(leaf)[3] == Capital(leaf[0]);
  }

  lemma RedactOneFlagged(r: Json, c: Json, ps: set<Path>, p: Path)
    requires Flagged(r, c, ps) && FlagFree(c) && p in ps && EndsInSecret(p) && CI_CONFIG !in p
    ensures Flagged(RedactOne(r, p), c, ps)
  {
    DeleteFlagged(r, c, ps, p);
    FlagOfSecret(p);
    FlagStartsWithH(CI_CONFIG);
    assert forall k | k in FlagPath(p) :: k in p || k == FlagPath(p)[|p| - 1];
    SetFlagFlagged(Delete(r, p), c, ps, FlagPath(p), Bool(Truthy(Lookup(r, p))));
  }

  lemma {:induction false} RedactAlongFlagged(c: Json, paths: seq<Path>)
    requires WellFormed(c) && forall p | p in paths :: p in SecretPathsOf(c)
    ensures Flagged(RedactAlong(c, paths), c, SecretPathsOf(c))
    decreases |paths|
  {
    if paths != [] {
      var front, p := paths[..|paths| - 1], paths[|paths| - 1];
      assert p in paths && forall q | q in front :: q in paths;
      RedactAlongFlagged(c, front);
      ListedEndsInSecret(c, p);
      RedactOneFlagged(RedactAlong(c, front), c, SecretPathsOf(c), p);
    }
  }

  // ------------------------------------------------------------- merging it back

  /** Merging a tree into the tree it came from changes nothing. */
  lemma {:induction false} MergeOfPart(c: Json, x: Json, ps: set<Path>)
    requires LeavesOut(x, c, ps)
    ensures DeepMerge(Some(c), x) == c
    decreases c
  {
    if c.Obj? {
      forall k | k in x.fields && x.fields[k].Obj? ensures DeepMerge(Field(c, k), x.fields[k]) == c.fields[k] {
        MergeOfPart(c.fields[k], x.fields[k], Under(ps, k));
      }
      assert DeepMerge(Some(c), x).fields == c.fields;
    }
  }

  lemma {:induction false} LeavesOutItself(c: Json, ps: set<Path>)
    ensures LeavesOut(c, c, ps)
  {
  }

  /** Below a key that is itself no path of `ps`. */
  lemma LeavesOutBelow(x: Json, c: Json, ps: set<Path>, k: string)
    requires LeavesOut(x, c, ps) && x.Obj? && [k] !in ps
    ensures c.Obj? && (k in x.fields <==> k in c.fields)
    ensures k in c.fields ==> LeavesOut(x.fields[k], c.fields[k], Under(ps, k))
  {
  }

  lemma ReplaceKeyOfPart(m: Json, c: Json, x: Json, ps: set<Path>, key: string)
    requires LeavesOut(m, c, ps) && LeavesOut(x, c, ps)
    ensures LeavesOut(ReplaceKey(m, x, key), c, ps)
  {
    var m' := ReplaceKey(m, x, key);
    if m' != m {
      assert LeavesOut(x.fields[key], c.fields[key], Under(ps, key));
      assert forall k | k in c.fields && k != key ::
        if k in m.fields then LeavesOut(m.fields[k], c.fields[k], Under(ps, k)) else [k] in ps;
    }
  }

  lemma ReplaceKeysOfPart(m: Json, c: Json, x: Json, ps: set<Path>)
    requires LeavesOut(m, c, ps) && LeavesOut(x, c, ps)
    ensures LeavesOut(ReplaceKeys(m, x), c, ps)
  {
    ReplaceKeyOfPart(m, c, x, ps, CI_CONFIG);
    ReplaceKeyOfPart(ReplaceKey(m, x, CI_CONFIG), c, x, ps, ARTIFACT_DEPLOY);
  }

  lemma ReplaceEnvironmentsOfPart(m: Json, c: Json, x: Json, ps: set<Path>)
    requires LeavesOut(m, c, ps) && LeavesOut(x, c, ps)
    requires [ENVIRONMENTS] !in ps && forall name :: [ENVIRONMENTS, name] !in ps
    ensures LeavesOut(ReplaceInEnvironments(m, x), c, ps)
  {
    var m' := ReplaceInEnvironments(m, x);
    if m' != m {
      LeavesOutBelow(m, c, ps, ENVIRONMENTS);
      LeavesOutBelow(x, c, ps, ENVIRONMENTS);
      var below := Under(ps, ENVIRONMENTS);
      var es, ms, xs, ms' := c.fields[ENVIRONMENTS], m.fields[ENVIRONMENTS], x.fields[ENVIRONMENTS], m'.fields[ENVIRONMENTS];
      forall name ensures [name] !in below {
        UnderMember(ps, ENVIRONMENTS, [name]);
        assert [ENVIRONMENTS] + [name] == [ENVIRONMENTS, name];
      }
      forall name | name in es.fields
        ensures name in ms'.fields && LeavesOut(ms'.fields[name], es.fields[name], Under(below, name))
      {
        LeavesOutBelow(ms, es, below, name);
        LeavesOutBelow(xs, es, below, name);
        ReplaceKeysOfPart(ms.fields[name], es.fields[name], xs.fields[name], Under(below, name));
      }
      LeavesOutBelow(ms, es, below, "");
      assert ms'.fields.Keys == ms.fields.Keys;
      assert LeavesOut(ms', es, below);
    }
  }

  /** Before the loop, only secrets can be missing. */
  lemma MergedTreesLeaveOut(c: Json, r: Json, ps: set<Path>)
    requires c.Obj? && FlagFree(c) && Flagged(r, c, ps)
    requires [ENVIRONMENTS] !in ps && forall name :: [ENVIRONMENTS, name] !in ps
    ensures LeavesOut(MergedTrees(c, r), c, ps)
  {
    StripFlagFree(c);
    StripFlagged(r, c, ps);
    MergeOfPart(c, Strip(r), ps);
    LeavesOutItself(c, ps);
    ReplaceKeysOfPart(c, c, Strip(r), ps);
    ReplaceEnvironmentsOfPart(ReplaceKeys(c, Strip(r)), c, Strip(r), ps);
  }

  // --------------------------------------------------- the source is the same one

  /** Only keys of secrets are at the end of these paths. */
  ghost predicate EndInSecrets(ps: set<Path>) {
    forall p | p in ps && p != [] :: EndsInSecret(p)
  }

  lemma BelowEndsInSecrets(ps: set<Path>, k: string)
    requires EndInSecrets(ps)
    ensures EndInSecrets(Under(ps, k))
  {
    forall q | q in Under(ps, k) && q != [] ensures EndsInSecret(q) {
      UnderMember(ps, k, q);
      assert ([k] + q)[|[k] + q| - 1] == q[|q| - 1];
    }
  }

  const IDENTITY_KEYS: set<string> := {"platform", "owner", "repo", "baseUrl", "authType", "username"}

  /** Same text under every key the source identity looks at. */
  predicate SameTexts(a: Json, b: Json) {
    forall k | k in IDENTITY_KEYS ::
      TextField(a, k) == TextField(b, k) && (Field(a, k) == Some(Str("basic")) <==> Field(b, k) == Some(Str("basic")))
  }

  lemma SameTextsSameIdentity(a: Option<Json>, b: Option<Json>)
    requires SameTexts(SourceOf(a), SourceOf(b))
    ensures Identity(a) == Identity(b)
  {
    var k0, k1, k2, k3, k4, k5 := "platform", "owner", "repo", "baseUrl", "authType", "username";
    assert {k0, k1, k2, k3, k4, k5} <= IDENTITY_KEYS;
  }

  /** Redaction keeps the identity of a scope's source. */
  lemma FlaggedKeepsIdentity(r: Json, c: Json, ps: set<Path>)
    requires Flagged(r, c, ps)
    requires EndInSecrets(ps)
    ensures Identity(Some(r)) == Identity(Some(c))
  {
    assert !EndsInSecret([ARTIFACT_DEPLOY]);
    if r.Obj? && r != c {
      FlaggedField(r, c, ps, ARTIFACT_DEPLOY);
      if ARTIFACT_DEPLOY in c.fields {
        BelowEndsInSecrets(ps, ARTIFACT_DEPLOY);
        FlaggedDeploy(r.fields[ARTIFACT_DEPLOY], c.fields[ARTIFACT_DEPLOY], Under(ps, ARTIFACT_DEPLOY));
      }
    }
    SameTextsSameIdentity(Some(r), Some(c));
  }

  lemma FlaggedDeploy(rd: Json, cd: Json, ps: set<Path>)
    requires EndInSecrets(ps) && Flagged(rd, cd, ps)
    ensures rd.Obj? == cd.Obj?
    ensures rd.Obj? ==> ("source" in rd.fields <==> "source" in cd.fields)
    ensures rd.Obj? && "source" in cd.fields ==> SameTexts(rd.fields["source"], cd.fields["source"])
  {
    assert !EndsInSecret(["source"]);
    if rd.Obj? {
      FlaggedField(rd, cd, ps, "source");
      if "source" in cd.fields {
        BelowEndsInSecrets(ps, "source");
        FlaggedSource(rd.fields["source"], cd.fields["source"], Under(ps, "source"));
      }
    }
  }

  lemma FlaggedField(r: Json, c: Json, ps: set<Path>, k: string)
    requires Flagged(r, c, ps) && r.Obj? && [k] !in ps && !IsFlag(k) && k != CI_CONFIG
    ensures c.Obj? && (k in r.fields <==> k in c.fields)
    ensures k in c.fields ==> Flagged(r.fields[k], c.fields[k], Under(ps, k)) && (r.fields[k].Obj? <==> c.fields[k].Obj?)
  {
    SelfFlagged(r, c, ps);
  }

  lemma IdentityIsNoSecret(k: string)
    requires k in IDENTITY_KEYS
    ensures !EndsInSecret([k])
  {
  }

  lemma FlaggedSource(rs: Json, cs: Json, ps: set<Path>)
    requires Flagged(rs, cs, ps) && EndInSecrets(ps)
    ensures SameTexts(rs, cs)
  {
    forall k | k in IDENTITY_KEYS
      ensures TextField(rs, k) == TextField(cs, k)
      ensures Field(rs, k) == Some(Str("basic")) <==> Field(cs, k) == Some(Str("basic"))
    {
      IdentityIsNoSecret(k);
      FlaggedText(rs, cs, ps, k);
    }
  }

  lemma FlaggedText(r: Json, c: Json, ps: set<Path>, k: string)
    requires Flagged(r, c, ps) && [k] !in ps && k in IDENTITY_KEYS
    ensures TextField(r, k) == TextField(c, k)
    ensures Field(r, k) == Some(Str("basic")) <==> Field(c, k) == Some(Str("basic"))
  {
    if r.Obj? && r != c {
      FlagStartsWithH(k);
      assert k[0] != 'h' && k != CI_CONFIG;
      FlaggedField(r, c, ps, k);
    }
  }

  // ------------------------------------------------------------- putting secrets back

  lemma LeavesOutParts(m: Json, c: Json, ps: set<Path>)
    requires LeavesOut(m, c, ps) && c.Obj?
    ensures m.Obj? && m.fields.Keys <= c.fields.Keys
    ensures forall k | k in c.fields ::
      if k in m.fields then LeavesOut(m.fields[k], c.fields[k], Under(ps, k)) else [k] in ps
  {
    if m == c {
      forall k | k in c.fields ensures LeavesOut(m.fields[k], c.fields[k], Under(ps, k)) {
        LeavesOutItself(c.fields[k], Under(ps, k));
      }
    }
  }

  lemma UnderWithout(ps: set<Path>, p: Path, k: string)
    requires p != []
    ensures Under(ps - {p}, k) == if p[0] == k then Under(ps, k) - {p[1..]} else Under(ps, k)
  {
    if p[0] == k {
      assert p == [k] + p[1..];
      forall q: Path ensures q in Under(ps - {p}, k) <==> q in Under(ps, k) - {p[1..]} {
        UnderMember(ps - {p}, k, q);
        UnderMember(ps, k, q);
        assert ([k] + q)[1..] == q;
      }
      assert Under(ps - {p}, k) == Under(ps, k) - {p[1..]};
    } else {
      forall q: Path ensures q in Under(ps - {p}, k) <==> q in Under(ps, k) {
        UnderMember(ps - {p}, k, q);
        UnderMember(ps, k, q);
        assert ([k] + q)[0] == k;
      }
      assert Under(ps - {p}, k) == Under(ps, k);
    }
  }

  ghost predicate NothingThrough(ps: set<Path>, p: Path) {
    forall q | q in ps :: q == p || Apart(q, p)
  }

  lemma NothingThroughBelow(ps: set<Path>, p: Path)
    requires |p| > 1 && NothingThrough(ps, p)
    ensures NothingThrough(Under(ps, p[0]), p[1..]) && [p[0]] !in ps
  {
    assert [p[0]][1..] == [] && !Apart([p[0]], p);
    forall q | q in Under(ps, p[0]) ensures q == p[1..] || Apart(q, p[1..]) {
      UnderMember(ps, p[0], q);
      assert ([p[0]] + q)[1..] == q;
    }
  }

  /** Setting a stored secret back where it was. */
  lemma {:induction false} RestoreOne(m: Json, c: Json, ps: set<Path>, p: Path)
    requires LeavesOut(m, c, ps) && p != [] && NothingThrough(ps, p) && Get(c, p).Some?
    ensures LeavesOut(SetDeep(m, p, Get(c, p).value), c, ps - {p})
    decreases |p|
  {
    LeavesOutParts(m, c, ps);
    var k, m' := p[0], SetDeep(m, p, Get(c, p).value);
    forall other | other in c.fields
      ensures if other in m'.fields then LeavesOut(m'.fields[other], c.fields[other], Under(ps - {p}, other)) else [other] in ps - {p}
    {
      UnderWithout(ps, p, other);
      if other == k {
        if |p| > 1 {
          NothingThroughBelow(ps, p);
          RestoreOne(m.fields[k], c.fields[k], Under(ps, k), p[1..]);
        } else {
          LeavesOutItself(c.fields[k], Under(ps - {p}, k));
        }
      } else {
        assert [other] != p;
      }
    }
  }

  /** Where nothing was stored, there is nothing to delete. */
  lemma {:induction false} NothingToDelete(m: Json, c: Json, ps: set<Path>, p: Path)
    requires LeavesOut(m, c, ps) && p != [] && Get(c, p).None?
    ensures Delete(m, p) == m && LeavesOut(m, c, ps - {p})
    decreases |p|
  {
    if c.Obj? {
      LeavesOutParts(m, c, ps);
      var k := p[0];
      assert |p| == 1 ==> p[1..] == [];
      forall other | other in c.fields
        ensures if other in m.fields then LeavesOut(m.fields[other], c.fields[other], Under(ps - {p}, other)) else [other] in ps - {p}
      {
        UnderWithout(ps, p, other);
        if other == k && |p| > 1 && k in m.fields {
          NothingToDelete(m.fields[k], c.fields[k], Under(ps, k), p[1..]);
        }
      }
      if k in m.fields {
        NothingToDelete(m.fields[k], c.fields[k], Under(ps, k), p[1..]);
        assert Delete(m, p).fields == m.fields;
      } else {
        assert Delete(m, p).fields == m.fields;
      }
    }
  }

  lemma {:induction false} NothingLeftOut(m: Json, c: Json)
    requires LeavesOut(m, c, {})
    ensures m == c
    decreases c
  {
    if c.Obj? {
      LeavesOutParts(m, c, {});
      forall k | k in c.fields ensures k in m.fields && m.fields[k] == c.fields[k] {
        assert Under({}, k) == {};
        NothingLeftOut(m.fields[k], c.fields[k]);
      }
      assert m.fields == c.fields;
    }
  }

  // ------------------------------------------------------------------ the round trip

  lemma {:induction false} FlaggedHasNoMore(r: Json, c: Json, ps: set<Path>, p: Path)
    requires Flagged(r, c, ps) && forall k | k in p :: !IsFlag(k)
    ensures Get(r, p).Some? ==> Get(c, p).Some?
    ensures ArrayOnTheWay(r, p) ==> ArrayOnTheWay(c, p)
    decreases |p|
  {
    if p != [] && r.Obj? && r != c && p[0] in r.fields {
      assert p[0] in p;
      SelfFlagged(r, c, ps);
      if p[0] != CI_CONFIG {
        FlaggedHasNoMore(r.fields[p[0]], c.fields[p[0]], Under(ps, p[0]), p[1..]);
      }
    }
  }

  lemma {:induction false} FlaggedHasNoMoreArrays(r: Json, c: Json, ps: set<Path>, p: Path)
    requires Flagged(r, c, ps)
    ensures ArrayOnTheWay(r, p) ==> ArrayOnTheWay(c, p)
    decreases |p|
  {
    if p != [] && r.Obj? && r != c && p[0] in r.fields {
      SelfFlagged(r, c, ps);
      var rest := r.fields[p[0]];
      if p[0] !in c.fields {
        assert rest.Bool? && !ArrayOnTheWay(rest, p[1..]);
      } else if p[0] != CI_CONFIG {
        FlaggedHasNoMoreArrays(rest, c.fields[p[0]], Under(ps, p[0]), p[1..]);
      }
    }
  }

  /** What saving back relies on: the redacted form brings no secret and no new path. */
  ghost predicate Emptied(r: Json, c: Json) {
    && Flagged(r, c, SecretPathsOf(c)) && SecretPathsOf(r) <= SecretPathsOf(c)
    && forall p | p in SecretPathsOf(c) :: p != [] && Get(r, p) == None
  }

  lemma FlaggedEnvironments(r: Json, c: Json, ps: set<Path>)
    requires Flagged(r, c, ps) && FlagFree(c) && c.Obj?
    requires [ENVIRONMENTS] !in ps && forall name :: [ENVIRONMENTS, name] !in ps
    ensures forall name | name in Environments(r) && Environments(r)[name].Obj? :: name in Environments(c)
    ensures forall name | name in Environments(c) :: name in Environments(r)
    ensures forall name | name in Environments(c) ::
      Flagged(Environments(r)[name], Environments(c)[name], Under(Under(ps, ENVIRONMENTS), name))
  {
    FlagStartsWithH(ENVIRONMENTS);
    FlaggedField(r, c, ps, ENVIRONMENTS);
    if ENVIRONMENTS in c.fields && c.fields[ENVIRONMENTS].Obj? {
      SelfFlagged(r.fields[ENVIRONMENTS], c.fields[ENVIRONMENTS], Under(ps, ENVIRONMENTS));
      forall name ensures [name] !in Under(ps, ENVIRONMENTS) {
        UnderMember(ps, ENVIRONMENTS, [name]);
        assert [ENVIRONMENTS] + [name] == [ENVIRONMENTS, name];
      }
      SelfFlaggedAll(c.fields[ENVIRONMENTS], r.fields[ENVIRONMENTS], Under(ps, ENVIRONMENTS));
    }
  }

  lemma SelfFlaggedAll(c: Json, r: Json, ps: set<Path>)
    requires Flagged(r, c, ps) && c.Obj? && r.Obj?
    ensures forall k | k in c.fields && k in r.fields :: Flagged(r.fields[k], c.fields[k], Under(ps, k))
  {
  }

  lemma SecretsOfWellFormed(c: Json)
    ensures EndInSecrets(SecretPathsOf(c)) && forall p | p in SecretPathsOf(c) :: p != []
    ensures [ENVIRONMENTS] !in SecretPathsOf(c) && forall name :: [ENVIRONMENTS, name] !in SecretPathsOf(c)
  {
    forall p | p in SecretPathsOf(c) ensures EndsInSecret(p) && (p[0] == ENVIRONMENTS ==> |p| > 2) {
      ListedEndsInSecret(c, p);
      ListedShape(c, p);
    }
  }

  lemma OverridesOfFlagged(r: Json, c: Json, name: string, base: Path)
    requires WellFormed(c) && Flagged(r, c, SecretPathsOf(c))
    requires base in BASE_PATHS && name in Environments(r) && Overrides(r, name, base)
    ensures name in Environments(c) && Overrides(c, name, base)
  {
    SecretsOfWellFormed(c);
    FlaggedEnvironments(r, c, SecretPathsOf(c));
    NoFlagsInBase(base);
    assert forall k | k in base :: !IsFlag(k);
    FlaggedHasNoMore(Environments(r)[name], Environments(c)[name], Under(Under(SecretPathsOf(c), ENVIRONMENTS), name), base);
  }

  lemma RedactionEmpties(c: Json, paths: seq<Path>)
    requires WellFormed(c) && Lists(paths, SecretPathsOf(c))
    ensures Emptied(RedactAlong(c, paths), c)
  {
    var r := RedactAlong(c, paths);
    RedactAlongFlagged(c, paths);
    SecretsOfWellFormed(c);
    NothingSecretLeft(c, paths);
    forall p | p in SecretPathsOf(r) && p !in BASE_PATHS ensures p in SecretPathsOf(c) {
      var name, base :| name in Environments(r) && base in BASE_PATHS && Overrides(r, name, base) && p == EnvPath(name, base);
      OverridesOfFlagged(r, c, name, base);
    }
  }

  lemma SameEnvironmentSource(c: Json, r: Json, name: string)
    requires WellFormed(c) && Emptied(r, c) && name in Environments(r) && name in Environments(c)
    ensures Identity(Some(Environments(r)[name])) == Identity(Some(Environments(c)[name]))
  {
    var ps := SecretPathsOf(c);
    SecretsOfWellFormed(c);
    FlaggedEnvironments(r, c, ps);
    BelowEndsInSecrets(ps, ENVIRONMENTS);
    BelowEndsInSecrets(Under(ps, ENVIRONMENTS), name);
    FlaggedKeepsIdentity(Environments(r)[name], Environments(c)[name], Under(Under(ps, ENVIRONMENTS), name));
  }

  /** The source has not changed, so no token is dropped. */
  lemma NoTokenToReplace(c: Json, r: Json)
    requires WellFormed(c) && Emptied(r, c)
    ensures TokensToReplace(c, r) == {}
  {
    SecretsOfWellFormed(c);
    FlaggedKeepsIdentity(r, c, SecretPathsOf(c));
    FlaggedEnvironments(r, c, SecretPathsOf(c));
    forall name | name in Environments(r)
      ensures !SourceChanged(Field(Obj(Environments(c)), name), Environments(r)[name])
    {
      if name in Environments(c) {
        SameEnvironmentSource(c, r, name);
      }
    }
  }

  /** No null stands where the parent object of a listed secret would. */
  ghost predicate NoNullParents(c: Json) {
    forall p | p in SecretPathsOf(c) :: !NullOnTheWay(c, p)
  }

  /** The paths the loop has not come to yet. */
  function Left(ps: set<Path>, done: seq<Path>): set<Path> {
    set p | p in ps && p !in done
  }

  lemma LeftWithoutOne(ps: set<Path>, done: seq<Path>, p: Path)
    ensures Left(ps, done + [p]) == Left(ps, done) - {p}
  {
  }

  lemma {:induction false} KeepAlongRestores(c: Json, r: Json, m0: Json, ps: set<Path>, paths: seq<Path>)
    requires WellFormed(c) && NoNullParents(c) && Emptied(r, c) && ps == SecretPathsOf(c)
    requires LeavesOut(m0, c, ps)
    requires forall p | p in paths :: p in ps + SecretPathsOf(r)
    ensures LeavesOut(KeepAlong(c, r, m0, paths), c, Left(ps, paths))
    decreases |paths|
  {
    if paths == [] {
      assert Left(ps, []) == ps;
    } else {
      var front, p := paths[..|paths| - 1], paths[|paths| - 1];
      FrontAndLast(paths);
      LeftWithoutOne(ps, front, p);
      KeepAlongRestores(c, r, m0, ps, front);
      KeepRestoresOne(c, r, KeepAlong(c, r, m0, front), Left(ps, front), p);
    }
  }

  lemma KeepRestoresOne(c: Json, r: Json, m: Json, left: set<Path>, p: Path)
    requires WellFormed(c) && NoNullParents(c) && Emptied(r, c) && left <= SecretPathsOf(c)
    requires LeavesOut(m, c, left) && p in SecretPathsOf(c) + SecretPathsOf(r)
    ensures LeavesOut(KeepSecret(c, r, m, p), c, left - {p})
  {
    NoTokenToReplace(c, r);
    LookupIsGet(r, p);
    assert !IsReplacement(Lookup(r, p));
    LookupIsGet(c, p);
    assert forall q | q in left :: q == p || Apart(q, p);
    if Get(c, p).Some? {
      RestoreOne(m, c, left, p);
    } else {
      NothingToDelete(m, c, left, p);
    }
  }

  /** Saving back a well-formed config gives it back, when no null is where a secret's parent would be. */
  lemma SaveBackKeeps(c: Json, redactPaths: seq<Path>, mergePaths: seq<Path>)
    requires WellFormed(c) && NoNullParents(c) && Lists(redactPaths, SecretPathsOf(c))
    requires Lists(mergePaths, SecretPathsOf(c) + SecretPathsOf(RedactAlong(c, redactPaths)))
    ensures Merge(c, RedactAlong(c, redactPaths), mergePaths) == c
  {
    var r, ps := RedactAlong(c, redactPaths), SecretPathsOf(c);
    RedactionEmpties(c, redactPaths);
    SecretsOfWellFormed(c);
    MergedTreesLeaveOut(c, r, ps);
    KeepAlongRestores(c, r, MergedTrees(c, r), ps, mergePaths);
    assert Left(ps, mergePaths) == {};
    NothingLeftOut(Merge(c, r, mergePaths), c);
  }

  lemma NullInTheWay(c: Json, r: Json, p: Path)
    requires Emptied(r, c) && p in SecretPathsOf(c) && NullOnTheWay(c, p)
    ensures Get(c, p) == None && Lookup(c, p) == Some(Null)
    ensures !IsReplacement(Lookup(r, p)) && !ArrayOnTheWay(Strip(r), p)
  {
    LookupIsGet(c, p);
    LookupIsGet(r, p);
    FlaggedHasNoMoreArrays(r, c, SecretPathsOf(c), p);
    if ArrayOnTheWay(c, p) { ArrayHides(c, p); }
    StripAddsNoArray(r, p);
  }

  /** A null parent comes back as an object, with a null for the secret. */
  lemma SaveBackFillsNull(c: Json, redactPaths: seq<Path>, mergePaths: seq<Path>, p: Path)
    requires WellFormed(c) && p in SecretPathsOf(c) && NullOnTheWay(c, p) && Lists(redactPaths, SecretPathsOf(c))
    requires Lists(mergePaths, SecretPathsOf(c) + SecretPathsOf(RedactAlong(c, redactPaths)))
    ensures Get(c, p) == None && Get(Merge(c, RedactAlong(c, redactPaths), mergePaths), p) == Some(Null)
  {
    var r := RedactAlong(c, redactPaths);
    RedactionEmpties(c, redactPaths);
    NoTokenToReplace(c, r);
    NullInTheWay(c, r, p);
    MergedTreesAt(c, r, p);
    assert forall q | q in mergePaths :: Misses(c, q, p);
    KeepAlongAt(c, r, MergedTrees(c, r), mergePaths, p);
  }

  /**
   * Saving back what was read is the identity on a well-formed config, with every base and
   * per-environment secret restored, exactly when no parent of a listed secret is null.
   */
  lemma SaveBackIsIdentity(c: Json, redactPaths: seq<Path>, mergePaths: seq<Path>)
    requires WellFormed(c) && Lists(redactPaths, SecretPathsOf(c))
    requires Lists(mergePaths, SecretPathsOf(c) + SecretPathsOf(RedactAlong(c, redactPaths)))
    ensures Merge(c, RedactAlong(c, redactPaths), mergePaths) == c <==> NoNullParents(c)
  {
    if NoNullParents(c) {
      SaveBackKeeps(c, redactPaths, mergePaths);
    } else {
      var p :| p in SecretPathsOf(c) && NullOnTheWay(c, p);
      SaveBackFillsNull(c, redactPaths, mergePaths, p);
    }
  }
}
