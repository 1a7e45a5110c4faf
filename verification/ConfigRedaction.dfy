/** `redactProject`: what of a project's config goes over the wire (backend/src/api/projectSerialization.js). */
module ConfigRedaction {
  import opened Wrappers
  import opened Text
  import opened ConfigTree
  import opened SecretPaths

  function Capital(c: char): char {
    if 'a' <= c <= 'z' then (c as int - 32) as char else c
  }

  /** `password` becomes `hasPassword`. */
  function FlagName(leaf: string): string {
    if leaf == "" then "has" else "has" + [Capital(leaf[0])] + leaf[1..]
  }

  function FlagPath(p: Path): Path {
    if p == [] then [] else p[..|p| - 1] + [FlagName(p[|p| - 1])]
  }

  function RedactOne(config: Json, p: Path): Json {
    var present := Truthy(Lookup(config, p));
    var without := Delete(config, p);
    if present || |p| == 1 then SetExisting(without, FlagPath(p), Bool(present)) else without
  }

  function RedactAlong(config: Json, paths: seq<Path>): Json {
    if paths == [] then config
    else RedactOne(RedactAlong(config, paths[..|paths| - 1]), paths[|paths| - 1])
  }

  /** The config half of `redactProject`; the rest of the project passes through. */
  method RedactConfig(config: Json) returns (redacted: Json)
    ensures exists paths :: Lists(paths, SecretPathsOf(config)) && redacted == RedactAlong(config, paths)
    ensures forall p | IsPlainPlace(p) || p in SecretPathsOf(config) :: Get(redacted, p) == None
  {
    var all := GetSecretFieldPaths(config);
    redacted := config;
    for i := 0 to |all|
      invariant redacted == RedactAlong(config, all[..i])
    {
      var present := Truthy(Lookup(redacted, all[i]));
      redacted := Delete(redacted, all[i]);
      if present || |all[i]| == 1 {
        redacted := SetExisting(redacted, FlagPath(all[i]), Bool(present));
      }
      assert all[..i + 1][..i] == all[..i];
    }
    assert all[..|all|] == all;
    NothingSecretLeft(config, all);
  }

  // ------------------------------------------------------------- completeness

  lemma {:induction false} DeleteKeepsNone(j: Json, q: Path, p: Path)
    requires Get(j, p) == None
    ensures Get(Delete(j, q), p) == None
    decreases |q|
  {
    if |q| > 1 && p != [] && j.Obj? && p[0] == q[0] && q[0] in j.fields {
      DeleteKeepsNone(j.fields[q[0]], q[1..], p[1..]);
    }
  }

  /** A flag is put at its own path only: it adds nothing below. */
  lemma {:induction false} SetFlagKeepsNone(j: Json, q: Path, v: Json, p: Path)
    requires Get(j, p) == None && q != p && !v.Obj?
    ensures Get(SetExisting(j, q, v), p) == None
    decreases |q|
  {
    if q != [] && p != [] && j.Obj? && p[0] == q[0] {
      if |q| > 1 && q[0] in j.fields {
        assert q == [q[0]] + q[1..] && p == [p[0]] + p[1..];
        SetFlagKeepsNone(j.fields[q[0]], q[1..], v, p[1..]);
      } else if |q| == 1 {
        assert q == [q[0]] && p == [p[0]] + p[1..];
        assert p[1..] != [];
      }
    }
  }

  lemma FlagIsNoSecret(q: Path, p: Path)
    requires EndsInSecret(q) && EndsInSecret(p)
    ensures FlagPath(q) != p
  {
    assert FlagPath(q)[|q| - 1] == FlagName(q[|q| - 1]) && FlagName(q[|q| - 1])[0] == 'h';
    assert forall key | key in SECRET_KEYS :: key[0] != 'h';
  }

  lemma RedactOneKeepsNone(j: Json, q: Path, p: Path)
    requires EndsInSecret(q) && EndsInSecret(p) && (Get(j, p) == None || p == q)
    ensures Get(RedactOne(j, q), p) == None
  {
    if p == q { DeleteThere(j, p); } else { DeleteKeepsNone(j, q, p); }
    FlagIsNoSecret(q, p);
    SetFlagKeepsNone(Delete(j, q), FlagPath(q), Bool(Truthy(Lookup(j, q))), p);
  }

  lemma {:induction false} RedactedAlong(config: Json, paths: seq<Path>, p: Path)
    requires forall q | q in paths :: EndsInSecret(q)
    requires EndsInSecret(p) && (p in paths || Get(config, p) == None)
    ensures Get(RedactAlong(config, paths), p) == None
    decreases |paths|
  {
    if paths != [] {
      var front, last := paths[..|paths| - 1], paths[|paths| - 1];
      FrontAndLast(paths);
      if p != last {
        RedactedAlong(config, front, p);
      }
      RedactOneKeepsNone(RedactAlong(config, front), last, p);
    }
  }

  /** A place that is not listed holds nothing. */
  lemma UnlistedPlace(config: Json, name: string, base: Path)
    requires base in BASE_PATHS && '.' !in name && TruePath(name, base) !in SecretPathsOf(config)
    ensures Get(config, TruePath(name, base)) == None
  {
    TruePathIn(config, name, base);
    EnvPathOfPlainName(name, base);
    assert Overrides(config, name, base) ==> EnvPath(name, base) in SecretPathsOf(config);
  }

  /**
   * For every config: the redacted config holds no value at any listed path, nor at any secret
   * path, base or environment, whose environment's name has no dot.
   */
  lemma NothingSecretLeft(config: Json, paths: seq<Path>)
    requires Lists(paths, SecretPathsOf(config))
    ensures forall p | IsPlainPlace(p) || p in SecretPathsOf(config) :: Get(RedactAlong(config, paths), p) == None
  {
    forall q | q in paths ensures EndsInSecret(q) {
      ListedEndsInSecret(config, q);
    }
    forall p | IsPlainPlace(p) || p in SecretPathsOf(config) ensures Get(RedactAlong(config, paths), p) == None {
      ListedEndsInSecret(config, p);
      if p !in SecretPathsOf(config) {
        var name, base :| IsPlaceOf(p, name, base) && '.' !in name;
        UnlistedPlace(config, name, base);
      }
      RedactedAlong(config, paths, p);
    }
  }

  lemma RedactOneElsewhere(j: Json, p: Path, q: Path)
    requires Apart(p, q) && Apart(FlagPath(p), q)
    ensures Get(RedactOne(j, p), q) == Get(j, q)
  {
    DeleteElsewhere(j, p, q);
    SetExistingElsewhere(Delete(j, p), FlagPath(p), Bool(Truthy(Lookup(j, p))), q);
  }

  // ---------------------------------------------- environment names with dots

  /** A listed path and its flag never name an environment whose name has a dot. */
  lemma ListedPathsMissDots(config: Json, p: Path, name: string, base: Path)
    requires p in SecretPathsOf(config) && '.' in name && base != []
    ensures Apart(p, TruePath(name, base)) && Apart(FlagPath(p), TruePath(name, base))
  {
    ListedMissesDots(config, p, name, base);
    var t, f := TruePath(name, base), FlagPath(p);
    if p[0] == ENVIRONMENTS {
      assert f[1..][0] != t[1..][0];
    } else {
      FlagStartsWithH(ENVIRONMENTS);
      assert f[0] != t[0];
    }
  }

  lemma {:induction false} DotsKeptAlong(config: Json, j: Json, paths: seq<Path>, name: string, base: Path)
    requires forall p | p in paths :: p in SecretPathsOf(config)
    requires '.' in name && base != []
    ensures Get(RedactAlong(j, paths), TruePath(name, base)) == Get(j, TruePath(name, base))
    decreases |paths|
  {
    if paths != [] {
      var front, last := paths[..|paths| - 1], paths[|paths| - 1];
      assert last in paths && forall p | p in front :: p in paths;
      DotsKeptAlong(config, j, front, name, base);
      ListedPathsMissDots(config, last, name, base);
      RedactOneElsewhere(RedactAlong(j, front), last, TruePath(name, base));
    }
  }

  /**
   * A secret an environment holds is taken out exactly when the environment's name has no dot;
   * with a dot in it the dotted path leads elsewhere, and the value stays in the response.
   */
  lemma RedactedExactlyWithoutDots(config: Json, paths: seq<Path>, name: string, base: Path)
    requires Lists(paths, SecretPathsOf(config)) && base in BASE_PATHS && Overrides(config, name, base)
    ensures Get(RedactAlong(config, paths), TruePath(name, base)) == None <==> '.' !in name
  {
    var t := TruePath(name, base);
    TruePathIn(config, name, base);
    if '.' in name {
      DotsKeptAlong(config, config, paths, name, base);
      assert Get(config, t).Some?;
    } else {
      NothingSecretLeft(config, paths);
      assert IsPlaceOf(t, name, base);
    }
  }
}
