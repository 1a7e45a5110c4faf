/** What a redacted config says instead of its secrets (`redactProject` of backend/src/api/projectSerialization.js). */
module ConfigFlags {
  import opened Wrappers
  import opened ConfigTree
  import opened SecretPaths
  import opened ConfigRedaction

  /** Keys that look like presence flags are the flags of keys that start with a small letter, and no others. */
  lemma FlagsAreNames(k: string)
    ensures IsFlag(k) <==> exists leaf: string :: leaf != "" && 'a' <= leaf[0] <= 'z' && k == FlagName(leaf)
  {
    if IsFlag(k) {
      var leaf := [(k[3] as int + 32) as char] + k[4..];
      assert k == k[..3] + [k[3]] + k[4..];
      assert FlagName(leaf) == k;
    }
  }

  lemma FlagTexts()
    ensures FlagName("password") == "hasPassword" && FlagName("apiToken") == "hasApiToken" && FlagName("authToken") == "hasAuthToken"
    ensures FlagName("secret") == "hasSecret" && FlagName("token") == "hasToken"
  {
  }

  lemma FlagBeside(front: Path, leaf: string)
    ensures FlagPath(front + [leaf]) == front + [FlagName(leaf)]
  {
  }

  lemma FlagsOfSecrets()
    ensures FlagPath([] + ["password"]) == [] + ["hasPassword"] && FlagPath([] + ["apiToken"]) == [] + ["hasApiToken"]
    ensures FlagPath(["pmpConfig"] + ["authToken"]) == ["pmpConfig"] + ["hasAuthToken"]
    ensures FlagPath(["vpnConfig"] + ["password"]) == ["vpnConfig"] + ["hasPassword"]
    ensures FlagPath(["vpnConfig", "mfaConfig"] + ["secret"]) == ["vpnConfig", "mfaConfig"] + ["hasSecret"]
    ensures FlagPath(["artifactDeploy", "source"] + ["token"]) == ["artifactDeploy", "source"] + ["hasToken"]
  {
    FlagTexts();
    FlagBeside([], "password");
    FlagBeside([], "apiToken");
    FlagBeside(["pmpConfig"], "authToken");
    FlagBeside(["vpnConfig"], "password");
    FlagBeside(["vpnConfig", "mfaConfig"], "secret");
    FlagBeside(["artifactDeploy", "source"], "token");
  }

  // ------------------------------------------------------------ flags keep apart

  /** A listed path as it is in configs without flag-like keys. */
  predicate IsPlainSecret(p: Path) {
    EndsInSecret(p) && forall k | k in p :: !IsFlag(k)
  }

  lemma FlagBelow(p: Path)
    requires |p| > 1
    ensures FlagPath(p)[0] == p[0] && FlagPath(p)[1..] == FlagPath(p[1..])
  {
  }

  lemma PlainBelow(p: Path)
    requires |p| > 1 && IsPlainSecret(p)
    ensures IsPlainSecret(p[1..])
  {
    assert p[1..][|p| - 2] == p[|p| - 1] && forall k | k in p[1..] :: k in p;
  }

  lemma SecretKeyHasFlag(leaf: string)
    requires leaf in SECRET_KEYS
    ensures IsFlag(FlagName(leaf)) && leaf != "" && 'a' <= leaf[0] <= 'z'
  {
    NameIsFlag(leaf);
  }

  lemma NameIsFlag(leaf: string)
    requires leaf != "" && 'a' <= leaf[0] <= 'z'
    ensures IsFlag(FlagName(leaf))
  {
    assert FlagName(leaf)[..3] == "has" && 'A' <= FlagName(leaf)[3] <= 'Z';
  }

  lemma FlagNamesOfTwo(a: string, b: string)
    requires a != "" && b != "" && 'a' <= a[0] <= 'z' && 'a' <= b[0] <= 'z' && FlagName(a) == FlagName(b)
    ensures a == b
  {
    assert FlagName(a)[3] == FlagName(b)[3] && FlagName(a)[4..] == a[1..] && FlagName(b)[4..] == b[1..];
    assert a == [a[0]] + a[1..] && b == [b[0]] + b[1..];
  }

  lemma FlagNamesDiffer(a: string, b: string)
    requires a in SECRET_KEYS && b in SECRET_KEYS && a != b
    ensures FlagName(a) != FlagName(b)
  {
    SecretKeyHasFlag(a);
    SecretKeyHasFlag(b);
    if FlagName(a) == FlagName(b) {
      FlagNamesOfTwo(a, b);
    }
  }

  /** The flags of two secrets that keep apart keep apart from both, and from each other. */
  lemma {:induction false} FlagsApart(p: Path, q: Path)
    requires IsPlainSecret(p) && IsPlainSecret(q) && Apart(p, q)
    ensures Apart(FlagPath(p), q) && Apart(p, FlagPath(q)) && Apart(FlagPath(p), FlagPath(q))
    decreases |p|
  {
    assert p[0] in p && q[0] in q;
    SecretKeyHasFlag(p[|p| - 1]);
    SecretKeyHasFlag(q[|q| - 1]);
    if p[0] == q[0] {
      FlagBelow(p);
      FlagBelow(q);
      PlainBelow(p);
      PlainBelow(q);
      FlagsApart(p[1..], q[1..]);
    } else if |p| == 1 && |q| == 1 {
      FlagNamesDiffer(p[0], q[0]);
    }
  }

  /** A secret and its own flag. */
  lemma {:induction false} FlagApartFromOwn(p: Path)
    requires IsPlainSecret(p)
    ensures Apart(FlagPath(p), p) && Apart(p, FlagPath(p))
    decreases |p|
  {
    SecretKeyHasFlag(p[|p| - 1]);
    if |p| > 1 {
      FlagBelow(p);
      PlainBelow(p);
      FlagApartFromOwn(p[1..]);
    }
  }

  // ------------------------------------------------------------ one secret, then all

  /** Something else than nothing, null, false, 0 and the empty text. */
  predicate IsPresent(v: Option<Json>) {
    v.Some? && v.value != Null && v.value != Bool(false) && v.value != Num(0.0) && v.value != Str("")
  }

  lemma PresentMeans(j: Json, p: Path)
    ensures Truthy(Lookup(j, p)) <==> IsPresent(Get(j, p))
  {
    LookupIsGet(j, p);
  }

  /** Beside a value that is there a flag can be set. */
  lemma {:induction false} SetBeside(j: Json, p: Path, v: Json)
    requires p != [] && (Get(j, p).Some? || (|p| == 1 && j.Obj?)) && EndsInSecret(p)
    ensures Get(SetExisting(Delete(j, p), FlagPath(p), v), FlagPath(p)) == Some(v)
    decreases |p|
  {
    if |p| > 1 {
      FlagBelow(p);
      assert p[1..][|p| - 2] == p[|p| - 1];
      SetBeside(j.fields[p[0]], p[1..], v);
      assert FlagPath(p)[1..] == FlagPath(p[1..]);
    } else {
      assert FlagPath(p)[1..] == [];
    }
  }

  lemma RedactOneFlag(j: Json, p: Path)
    requires IsPlainSecret(p) && j.Obj?
    ensures Get(RedactOne(j, p), FlagPath(p)) ==
      if IsPresent(Get(j, p)) then Some(Bool(true))
      else if |p| == 1 then Some(Bool(false))
      else Get(j, FlagPath(p))
    ensures RedactOne(j, p).Obj?
  {
    PresentMeans(j, p);
    FlagApartFromOwn(p);
    if IsPresent(Get(j, p)) || |p| == 1 {
      SetBeside(j, p, Bool(IsPresent(Get(j, p))));
    } else {
      DeleteElsewhere(j, p, FlagPath(p));
    }
  }

  lemma RedactOneApart(j: Json, p: Path, q: Path)
    requires Apart(p, q) && Apart(FlagPath(p), q)
    ensures Get(RedactOne(j, p), q) == Get(j, q)
  {
    RedactOneElsewhere(j, p, q);
  }

  /** The listed paths, each once, keep apart and have no flag-like keys. */
  ghost predicate KeepApart(paths: seq<Path>) {
    && (forall p | p in paths :: IsPlainSecret(p))
    && (forall i, j | 0 <= i < j < |paths| :: Apart(paths[i], paths[j]))
  }

  lemma FrontKeepsApart(paths: seq<Path>)
    requires KeepApart(paths) && paths != []
    ensures var front, last := paths[..|paths| - 1], paths[|paths| - 1];
      KeepApart(front) && IsPlainSecret(last) && last !in front && forall q | q in front :: Apart(q, last) && Apart(last, q)
  {
    var front, last := paths[..|paths| - 1], paths[|paths| - 1];
    assert forall q | q in front :: q in paths;
    forall q | q in front ensures q != last && Apart(q, last) && Apart(last, q) {
      var i :| 0 <= i < |front| && front[i] == q;
      assert Apart(paths[i], paths[|paths| - 1]);
      ApartSymmetric(q, last);
      NotApartFromItself(last);
    }
  }

  lemma {:induction false} NotApartFromItself(p: Path)
    ensures !Apart(p, p)
  {
    if p != [] {
      NotApartFromItself(p[1..]);
    }
  }

  lemma {:induction false} RedactedElsewhere(config: Json, paths: seq<Path>, q: Path)
    requires forall p | p in paths :: Apart(p, q) && Apart(FlagPath(p), q)
    ensures Get(RedactAlong(config, paths), q) == Get(config, q)
    decreases |paths|
  {
    if paths != [] {
      var front, last := paths[..|paths| - 1], paths[|paths| - 1];
      FrontAndLast(paths);
      RedactedElsewhere(config, front, q);
      RedactOneApart(RedactAlong(config, front), last, q);
    }
  }

  lemma {:induction false} StaysObject(config: Json, paths: seq<Path>)
    requires config.Obj? && forall p | p in paths :: IsPlainSecret(p)
    ensures RedactAlong(config, paths).Obj?
    decreases |paths|
  {
    if paths != [] {
      FrontAndLast(paths);
      StaysObject(config, paths[..|paths| - 1]);
      RedactOneFlag(RedactAlong(config, paths[..|paths| - 1]), paths[|paths| - 1]);
    }
  }

  /** The front of the paths leaves the last one and its flag alone. */
  lemma LastIsUntouched(config: Json, paths: seq<Path>)
    requires KeepApart(paths) && paths != []
    ensures var front, last := paths[..|paths| - 1], paths[|paths| - 1];
      Get(RedactAlong(config, front), last) == Get(config, last)
      && Get(RedactAlong(config, front), FlagPath(last)) == Get(config, FlagPath(last))
  {
    var front, last := paths[..|paths| - 1], paths[|paths| - 1];
    FrontKeepsApart(paths);
    forall q | q in front
      ensures Apart(q, last) && Apart(FlagPath(q), last) && Apart(q, FlagPath(last)) && Apart(FlagPath(q), FlagPath(last))
    {
      FlagsApart(q, last);
    }
    RedactedElsewhere(config, front, last);
    RedactedElsewhere(config, front, FlagPath(last));
  }

  /**
   * For listed paths that keep apart: the secret is gone, its flag says whether it was there, and at
   * the top also that it was not; every path apart from the secrets and their flags is as it was.
   */
  lemma {:induction false} FlagSaysWhetherPresent(config: Json, paths: seq<Path>, p: Path)
    requires config.Obj? && KeepApart(paths) && p in paths
    ensures Get(RedactAlong(config, paths), p) == None
    ensures Get(RedactAlong(config, paths), FlagPath(p)) ==
      if IsPresent(Get(config, p)) then Some(Bool(true))
      else if |p| == 1 then Some(Bool(false))
      else Get(config, FlagPath(p))
    decreases |paths|
  {
    var front, last := paths[..|paths| - 1], paths[|paths| - 1];
    FrontAndLast(paths);
    FrontKeepsApart(paths);
    StaysObject(config, front);
    var before := RedactAlong(config, front);
    if p == last {
      LastIsUntouched(config, paths);
      RedactOneFlag(before, p);
      RedactOneKeepsNone(before, p, p);
    } else {
      FlagSaysWhetherPresent(config, front, p);
      FlagsApart(last, p);
      RedactOneApart(before, last, p);
      RedactOneApart(before, last, FlagPath(p));
    }
  }

  /** The paths of a config with plainly named environments do keep apart. */
  lemma PlainNamesKeepApart(config: Json, paths: seq<Path>)
    requires WellNamed(config) && Lists(paths, SecretPathsOf(config))
    requires forall i, j | 0 <= i < j < |paths| :: paths[i] != paths[j]
    ensures KeepApart(paths)
  {
    SecretPathsAreTrue(config);
    forall p | p in paths ensures IsPlainSecret(p) {
      ListedEndsInSecret(config, p);
      NoFlagLikeKeys(p);
    }
    forall i, j | 0 <= i < j < |paths| ensures Apart(paths[i], paths[j]) {
      assert paths[i] in paths && paths[j] in paths;
      SecretPathsApart(paths[i], paths[j]);
    }
  }

  lemma NoFlagLikeKeys(p: Path)
    requires IsSecretPath(p)
    ensures forall k | k in p :: !IsFlag(k)
  {
    forall base, k: string | base in BASE_PATHS && k in base ensures !IsFlag(k) {
      FlagStartsWithH(k);
      assert k[0] != 'h';
    }
    if p !in BASE_PATHS {
      var name, base :| IsEnvSecret(p, name, base);
      assert forall k | k in p :: k == ENVIRONMENTS || k == name || k in base;
      FlagStartsWithH(ENVIRONMENTS);
    }
  }
}
