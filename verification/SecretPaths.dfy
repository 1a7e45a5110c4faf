/** Which paths of a project config hold secrets (backend/src/secrets/secretRef.js). */
module SecretPaths {
  import opened Wrappers
  import opened Text
  import opened ConfigTree

  const BASE_PATHS: seq<Path> := [
    ["password"],
    ["apiToken"],
    ["pmpConfig", "authToken"],
    ["vpnConfig", "password"],
    ["vpnConfig", "mfaConfig", "secret"],
    ["artifactDeploy", "source", "token"]
  ]

  const ENVIRONMENTS := "environments"

  /** `environments.<name>.<base>`, split at its dots: a name with dots falls apart. */
  function EnvPath(name: string, base: Path): Path {
    [ENVIRONMENTS] + Split(name, '.') + base
  }

  /** Where an environment's value really is. */
  function TruePath(name: string, base: Path): Path {
    [ENVIRONMENTS, name] + base
  }

  function Environments(config: Json): map<string, Json> {
    if config.Obj? && ENVIRONMENTS in config.fields && config.fields[ENVIRONMENTS].Obj?
    then config.fields[ENVIRONMENTS].fields else map[]
  }

  /** The environment overrides at least the parent objects and the key of this secret. */
  predicate Overrides(config: Json, name: string, base: Path) {
    name in Environments(config) && Environments(config)[name].Obj? && Get(Environments(config)[name], base).Some?
  }

  /** The paths `getSecretFieldPaths` lists. */
  function SecretPathsOf(config: Json): set<Path> {
    (set base | base in BASE_PATHS)
    + (set name, base | name in Environments(config).Keys && base in BASE_PATHS && Overrides(config, name, base) :: EnvPath(name, base))
  }

  /** A list of the set, in any order: the order of an object's keys is left open. */
  ghost predicate Lists(paths: seq<Path>, all: set<Path>) {
    (forall p | p in paths :: p in all) && (forall p | p in all :: p in paths)
  }

  method ListPaths(todo: set<Path>) returns (paths: seq<Path>)
    ensures Lists(paths, todo)
  {
    var rest := todo;
    paths := [];
    while rest != {}
      invariant rest <= todo && Lists(paths, todo - rest)
      decreases rest
    {
      var p :| p in rest;
      paths, rest := paths + [p], rest - {p};
    }
  }

  method GetSecretFieldPaths(config: Json) returns (paths: seq<Path>)
    ensures Lists(paths, SecretPathsOf(config))
  {
    paths := BASE_PATHS;
    var todo := Environments(config).Keys;
    while todo != {}
      invariant todo <= Environments(config).Keys
      invariant forall p | p in paths :: p in SecretPathsOf(config)
      invariant forall base | base in BASE_PATHS :: base in paths
      invariant forall name, base | name in Environments(config).Keys - todo && base in BASE_PATHS && Overrides(config, name, base) ::
        EnvPath(name, base) in paths
      decreases todo
    {
      var name :| name in todo;
      todo := todo - {name};
      paths := AddOverrides(config, name, paths);
    }
  }

  method AddOverrides(config: Json, name: string, before: seq<Path>) returns (paths: seq<Path>)
    requires name in Environments(config)
    ensures before <= paths
    ensures forall p | p in paths :: p in before || p in SecretPathsOf(config)
    ensures forall base | base in BASE_PATHS && Overrides(config, name, base) :: EnvPath(name, base) in paths
  {
    paths := before;
    for i := 0 to |BASE_PATHS|
      invariant before <= paths
      invariant forall p | p in paths :: p in before || p in SecretPathsOf(config)
      invariant forall j | 0 <= j < i && Overrides(config, name, BASE_PATHS[j]) :: EnvPath(name, BASE_PATHS[j]) in paths
    {
      if Environments(config)[name].Obj? && Get(Environments(config)[name], BASE_PATHS[i]).Some? {
        assert BASE_PATHS[i] in BASE_PATHS;
        paths := paths + [EnvPath(name, BASE_PATHS[i])];
      }
    }
  }

  // --------------------------------------------------------- well-named configs

  /** `/^has[A-Z]/` */
  predicate IsFlag(key: string) {
    |key| >= 4 && key[..3] == "has" && 'A' <= key[3] <= 'Z'
  }

  lemma FlagStartsWithH(k: string)
    ensures IsFlag(k) ==> k[0] == 'h'
  {
    if IsFlag(k) {
      assert k[..3][0] == k[0];
    }
  }

  /** Environment names that a dotted path can name and that no presence flag looks like. */
  predicate WellNamed(config: Json) {
    forall name | name in Environments(config) && Environments(config)[name].Obj? :: '.' !in name && !IsFlag(name)
  }

  lemma EnvPathOfPlainName(name: string, base: Path)
    requires '.' !in name
    ensures EnvPath(name, base) == TruePath(name, base)
  {
    SplitStep(name, '.', "");
  }

  /** A secret path, as where it is: a base path, or a base path inside one environment. */
  ghost predicate IsSecretPath(p: Path) {
    p in BASE_PATHS || exists name, base :: IsEnvSecret(p, name, base)
  }

  ghost predicate IsEnvSecret(p: Path, name: string, base: Path) {
    base in BASE_PATHS && !IsFlag(name) && p == TruePath(name, base)
  }

  ghost predicate IsPlaceOf(p: Path, name: string, base: Path) {
    base in BASE_PATHS && p == TruePath(name, base)
  }

  /** Where a secret is: a base path, or a base path inside an environment whose name has no dot. */
  ghost predicate IsPlainPlace(p: Path) {
    p in BASE_PATHS || exists name, base :: IsPlaceOf(p, name, base) && '.' !in name
  }

  /** As `IsPlainPlace`, for any environment name. */
  ghost predicate IsPlace(p: Path) {
    p in BASE_PATHS || exists name, base :: IsPlaceOf(p, name, base)
  }

  const SECRET_KEYS := {"password", "apiToken", "authToken", "secret", "token"}

  predicate EndsInSecret(p: Path) {
    p != [] && p[|p| - 1] in SECRET_KEYS
  }

  lemma BaseEndsInSecret(front: Path, base: Path)
    requires base in BASE_PATHS
    ensures EndsInSecret(base) && EndsInSecret(front + base)
  {
    assert (front + base)[|front + base| - 1] == base[|base| - 1];
  }

  lemma ListedEndsInSecret(config: Json, p: Path)
    requires p in SecretPathsOf(config) || IsPlace(p)
    ensures EndsInSecret(p)
  {
    if p in BASE_PATHS {
      BaseEndsInSecret([], p);
    } else if p in SecretPathsOf(config) {
      var name, base :| base in BASE_PATHS && p == EnvPath(name, base);
      BaseEndsInSecret([ENVIRONMENTS] + Split(name, '.'), base);
    } else {
      var name, base :| IsPlaceOf(p, name, base);
      BaseEndsInSecret([ENVIRONMENTS, name], base);
    }
  }

  lemma TruePathIn(config: Json, name: string, base: Path)
    ensures Get(config, TruePath(name, base)) ==
      if name in Environments(config) then Get(Environments(config)[name], base) else None
  {
    var t := TruePath(name, base);
    assert t[1..] == [name] + base && t[1..][1..] == base;
  }

  lemma EnvPathPieces(name: string, base: Path)
    ensures |EnvPath(name, base)| > 1 && EnvPath(name, base)[0] == ENVIRONMENTS && '.' !in EnvPath(name, base)[1]
  {
    JoinOfSplit(name, '.');
    assert EnvPath(name, base)[1] == Split(name, '.')[0];
  }

  lemma {:induction false} ApartOrPrefix(q: Path, p: Path)
    ensures Apart(q, p) || q <= p || p <= q
  {
    if q != [] && p != [] && q[0] == p[0] {
      ApartOrPrefix(q[1..], p[1..]);
    }
  }

  lemma SecretKeyIsLast(base: Path, i: nat)
    requires base in BASE_PATHS && i < |base| && base[i] in SECRET_KEYS
    ensures i == |base| - 1
  {
  }

  lemma ListedShape(config: Json, q: Path)
    requires q in SecretPathsOf(config)
    ensures q != [] && (q[0] == ENVIRONMENTS ==> |q| > 2 && '.' !in q[1])
  {
    if q !in BASE_PATHS {
      var name, base :| base in BASE_PATHS && q == EnvPath(name, base);
      EnvPathPieces(name, base);
    }
  }

  lemma PlaceShape(p: Path, i: nat)
    requires IsPlace(p) && i < |p| && p[i] in SECRET_KEYS
    ensures p[0] == ENVIRONMENTS ==> i < 2 || i == |p| - 1
    ensures p[0] != ENVIRONMENTS ==> i == |p| - 1
  {
    if p in BASE_PATHS {
      SecretKeyIsLast(p, i);
    } else {
      var name, base :| IsPlaceOf(p, name, base);
      if i >= 2 { SecretKeyIsLast(base, i - 2); }
    }
  }

  lemma NoListedPrefix(config: Json, q: Path, p: Path)
    requires q in SecretPathsOf(config) && IsPlace(p) && q <= p
    ensures q == p
  {
    ListedEndsInSecret(config, q);
    ListedShape(config, q);
    PlaceShape(p, |q| - 1);
  }

  /** A listed path that is not the place of a secret itself leads elsewhere, or on below it. */
  lemma ListedApartOrBelow(config: Json, q: Path, p: Path)
    requires q in SecretPathsOf(config) && IsPlace(p) && q != p
    ensures Apart(q, p) || p < q
  {
    ApartOrPrefix(q, p);
    if q <= p { NoListedPrefix(config, q, p); }
  }

  /** A listed path never names an environment whose name has a dot. */
  lemma ListedMissesDots(config: Json, q: Path, name: string, base: Path)
    requires q in SecretPathsOf(config) && '.' in name
    ensures Apart(q, TruePath(name, base)) && (q[0] == ENVIRONMENTS ==> |q| > 2 && q[1] != name)
  {
    ListedShape(config, q);
    DotsTellApart(q, name, base);
  }

  lemma DotsTellApart(q: Path, name: string, base: Path)
    requires q != [] && (q[0] == ENVIRONMENTS ==> |q| > 2 && '.' !in q[1]) && '.' in name
    ensures Apart(q, TruePath(name, base)) && (q[0] == ENVIRONMENTS ==> q[1] != name)
  {
    if q[0] == ENVIRONMENTS {
      assert q[1..][0] == q[1] && TruePath(name, base)[1..][0] == name;
    }
  }

  lemma SecretPathsAreTrue(config: Json)
    requires WellNamed(config)
    ensures forall p | p in SecretPathsOf(config) :: p != [] && IsSecretPath(p)
    ensures forall name, base | base in BASE_PATHS && Overrides(config, name, base) :: TruePath(name, base) in SecretPathsOf(config)
  {
    forall name, base | base in BASE_PATHS && Overrides(config, name, base)
      ensures EnvPath(name, base) == TruePath(name, base) && IsEnvSecret(EnvPath(name, base), name, base)
      ensures TruePath(name, base) in SecretPathsOf(config)
    {
      EnvPathOfPlainName(name, base);
      assert EnvPath(name, base) in SecretPathsOf(config);
    }
  }

  lemma BasePathsApart(p: Path, q: Path)
    requires p in BASE_PATHS && q in BASE_PATHS && p != q
    ensures Apart(p, q)
  {
    if p[0] == q[0] {
      assert p[1] != q[1];
    }
  }

  /** No secret path leads through or to another. */
  lemma SecretPathsApart(p: Path, q: Path)
    requires IsSecretPath(p) && IsSecretPath(q) && p != q
    ensures Apart(p, q)
  {
    if p in BASE_PATHS && q in BASE_PATHS {
      BasePathsApart(p, q);
    } else if p in BASE_PATHS || q in BASE_PATHS {
      assert p[0] != q[0];
    } else {
      var name, base :| IsEnvSecret(p, name, base);
      var name', base' :| IsEnvSecret(q, name', base');
      if name == name' {
        BasePathsApart(base, base');
        ApartBelow([ENVIRONMENTS, name], base, base');
      } else {
        assert p[1..][0] != q[1..][0];
      }
    }
  }
}
