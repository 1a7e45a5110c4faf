/**
 * `mergeProjectConfig`: a settings patch into the stored config, without losing saved secrets
 * (backend/src/api/projectSerialization.js).
 */
module ConfigMerge {
  import opened Wrappers
  import opened Text
  import opened ConfigTree
  import opened SecretPaths

  const CI_CONFIG := "ciConfig"
  const ARTIFACT_DEPLOY := "artifactDeploy"

  // -------------------------------------------------------------- tree merging

  /** `stripPresenceFlags`: everything below a `ciConfig` key is data and stays. */
  function Strip(j: Json): Json {
    match j
    case Obj(fields) =>
      Obj(map k | k in fields && !IsFlag(k) :: if k == CI_CONFIG then fields[k] else Strip(fields[k]))
    case Arr(items) => Arr(seq(|items|, i requires 0 <= i < |items| => Strip(items[i])))
    case _ => j
  }

  function Field(j: Json, key: string): Option<Json> {
    if j.Obj? && key in j.fields then Some(j.fields[key]) else None
  }

  /** `deepMerge`; `base` is None for undefined. */
  function DeepMerge(base: Option<Json>, patch: Json): Json
    decreases patch
  {
    if patch.Null? then base.GetOr(Null)
    else if !patch.Obj? || base.None? || !base.value.Obj? then patch
    else
      var b := base.value.fields;
      Obj(map k | k in b.Keys + patch.fields.Keys ::
        if k !in patch.fields then b[k]
        else if patch.fields[k].Obj? then DeepMerge(Field(base.value, k), patch.fields[k])
        else patch.fields[k])
  }

  /** The keys a save replaces as a whole, at one level. */
  function ReplaceKey(target: Json, source: Json, key: string): Json {
    if target.Obj? && Field(source, key).Some? && Field(source, key).value.Obj?
    then Obj(target.fields[key := source.fields[key]]) else target
  }

  function ReplaceKeys(target: Json, source: Json): Json {
    ReplaceKey(ReplaceKey(target, source, CI_CONFIG), source, ARTIFACT_DEPLOY)
  }

  function ReplaceInEnvironments(merged: Json, incoming: Json): Json {
    if Field(incoming, ENVIRONMENTS).GetOr(Null).Obj? && Field(merged, ENVIRONMENTS).GetOr(Null).Obj? then
      var envs, patches := merged.fields[ENVIRONMENTS].fields, incoming.fields[ENVIRONMENTS].fields;
      Obj(merged.fields[ENVIRONMENTS := Obj(map name | name in envs ::
        if name in patches && patches[name].Obj? && envs[name].Obj? then ReplaceKeys(envs[name], patches[name]) else envs[name])])
    else merged
  }

  /** `replaceWholesaleKeys` */
  function ReplaceWholesale(merged: Json, incoming: Json): Json {
    ReplaceInEnvironments(ReplaceKeys(merged, incoming), incoming)
  }

  // ----------------------------------------------------------- source identity

  function DropSlashes(s: string): string {
    if s != "" && s[|s| - 1] == '/' then DropSlashes(s[..|s| - 1]) else s
  }

  function DefaultBaseUrl(platform: string): string {
    if platform == "bitbucket" then "https://api.bitbucket.org/2.0"
    else if platform == "github" then "https://api.github.com"
    else ""
  }

  datatype SourceIdentity = SourceIdentity(
    platform: string, owner: string, repo: string, baseUrl: string, basicAuth: bool, username: string)

  function TextField(source: Json, key: string): string {
    match Field(source, key)
    case Some(Str(s)) => Trim(s)
    case _ => ""
  }

  function SourceOf(scope: Option<Json>): Json {
    var deploy := if scope.Some? then Field(scope.value, ARTIFACT_DEPLOY) else None;
    var source := if deploy.Some? then Field(deploy.value, "source") else None;
    if source.Some? && source.value.Obj? then source.value else Obj(map[])
  }

  /** `artifactSourceIdentity` */
  function Identity(scope: Option<Json>): SourceIdentity {
    var source := SourceOf(scope);
    var platform := TextField(source, "platform");
    SourceIdentity(
      platform, TextField(source, "owner"), TextField(source, "repo"),
      if TextField(source, "baseUrl") != "" then DropSlashes(TextField(source, "baseUrl")) else DefaultBaseUrl(platform),
      Field(source, "authType") == Some(Str("basic")), TextField(source, "username"))
  }

  const TOKEN_PATH: Path := [ARTIFACT_DEPLOY, "source", "token"]

  /** The patch's scope has an artifact deploy whose source is not the stored one. */
  predicate SourceChanged(existing: Option<Json>, incoming: Json) {
    Field(incoming, ARTIFACT_DEPLOY).GetOr(Null).Obj? && Identity(existing) != Identity(Some(incoming))
  }

  /** `artifactTokensRequiringReplacement` */
  function TokensToReplace(existing: Json, incoming: Json): set<Path> {
    (if SourceChanged(Some(existing), incoming) then {TOKEN_PATH} else {})
    + (set name | name in Environments(incoming)
         && SourceChanged(Field(Obj(Environments(existing)), name), Environments(incoming)[name]) :: EnvPath(name, TOKEN_PATH))
  }

  // ------------------------------------------------------------------ the merge

  predicate IsReplacement(incoming: Option<Json>) {
    incoming.Some? && incoming.value.Str? && Trim(incoming.value.s) != ""
  }

  /** One turn of the secret-preserving loop. */
  function KeepSecret(existing: Json, body: Json, merged: Json, p: Path): Json {
    if IsReplacement(Lookup(body, p)) then merged
    else if p in TokensToReplace(existing, body) then Delete(merged, p)
    else if Lookup(existing, p).None? then Delete(merged, p)
    else SetDeep(merged, p, Lookup(existing, p).value)
  }

  function KeepAlong(existing: Json, body: Json, merged: Json, paths: seq<Path>): Json {
    if paths == [] then merged
    else KeepSecret(existing, body, KeepAlong(existing, body, merged, paths[..|paths| - 1]), paths[|paths| - 1])
  }

  function MergedTrees(existing: Json, body: Json): Json {
    ReplaceWholesale(DeepMerge(Some(Strip(existing)), Strip(body)), Strip(body))
  }

  function Merge(existing: Json, body: Json, paths: seq<Path>): Json {
    KeepAlong(existing, body, MergedTrees(existing, body), paths)
  }

  /** `config || {}` */
  function OrEmpty(config: Option<Json>): Json {
    if Truthy(config) then config.value else Obj(map[])
  }

  ghost predicate IsMerge(existing: Json, body: Json, merged: Json, paths: seq<Path>) {
    Lists(paths, SecretPathsOf(existing) + SecretPathsOf(body)) && merged == Merge(existing, body, paths)
  }

  method MergeProjectConfig(existingConfig: Option<Json>, incoming: Option<Json>) returns (merged: Json)
    ensures exists paths :: IsMerge(OrEmpty(existingConfig), OrEmpty(incoming), merged, paths)
  {
    var existing, body := OrEmpty(existingConfig), OrEmpty(incoming);
    var cleanBody := Strip(body);
    merged := DeepMerge(Some(Strip(existing)), cleanBody);
    merged := ReplaceWholesale(merged, cleanBody);
    var requireNewToken := TokensToReplace(existing, body);
    var all := ListPaths(SecretPathsOf(existing) + SecretPathsOf(body));
    for i := 0 to |all|
      invariant merged == KeepAlong(existing, body, MergedTrees(existing, body), all[..i])
    {
      var p := all[i];
      assert all[..i + 1][..i] == all[..i];
      if IsReplacement(Lookup(body, p)) { continue; }
      if p in requireNewToken {
        merged := Delete(merged, p);
        continue;
      }
      match Lookup(existing, p)
      case None => merged := Delete(merged, p);
      case Some(v) => merged := SetDeep(merged, p, v);
    }
    assert all[..|all|] == all;
    assert IsMerge(existing, body, merged, all);
  }

  // ------------------------------------------------- every secret, on every patch

  /** Some key on the path looks like a presence flag: stripping takes out what is there. */
  predicate Hidden(p: Path) {
    exists k :: k in p && IsFlag(k)
  }

  /** A path in a config that can carry it: not hidden by a flag-like key. */
  lemma {:induction false} StripKeepsPath(j: Json, p: Path)
    requires !Hidden(p)
    ensures Get(j, p).Some? ==> Get(Strip(j), p).Some?
    ensures Get(j, p).Some? && Get(j, p).value.Str? ==> Get(Strip(j), p) == Get(j, p)
    ensures ArrayOnTheWay(Strip(j), p) == ArrayOnTheWay(j, p)
    decreases |p|
  {
    if p != [] && j.Obj? && p[0] in j.fields {
      assert p[0] in p;
      if p[0] != CI_CONFIG {
        assert forall k | k in p[1..] :: k in p;
        StripKeepsPath(j.fields[p[0]], p[1..]);
      }
    }
  }

  lemma {:induction false} StripAddsNoArray(j: Json, p: Path)
    ensures ArrayOnTheWay(Strip(j), p) ==> ArrayOnTheWay(j, p)
    decreases |p|
  {
    if p != [] && j.Obj? && p[0] in j.fields && p[0] != CI_CONFIG && !IsFlag(p[0]) {
      StripAddsNoArray(j.fields[p[0]], p[1..]);
    }
  }

  /** Stripping hides the places of an environment that is named like a flag. */
  lemma StripHides(j: Json, name: string, base: Path)
    requires IsFlag(name)
    ensures Get(Strip(j), TruePath(name, base)) == None
  {
    FlagStartsWithH(ENVIRONMENTS);
    TruePathIn(Strip(j), name, base);
  }

  lemma {:induction false} MergeAddsNothing(base: Option<Json>, patch: Json, p: Path)
    requires Get(patch, p) == None && (base.Some? ==> Get(base.value, p) == None)
    ensures Get(DeepMerge(base, patch), p) == None
    decreases |p|
  {
    if p != [] && patch.Obj? && p[0] in patch.fields && base.Some? && base.value.Obj? && patch.fields[p[0]].Obj? {
      MergeAddsNothing(Field(base.value, p[0]), patch.fields[p[0]], p[1..]);
    }
  }

  lemma {:induction false} MergeTakesPatch(base: Option<Json>, patch: Json, p: Path)
    ensures Get(patch, p).Some? && Get(patch, p).value.Str? ==> Get(DeepMerge(base, patch), p) == Get(patch, p)
    decreases |p|
  {
    if p != [] && patch.Obj? && p[0] in patch.fields && base.Some? && base.value.Obj? && patch.fields[p[0]].Obj? {
      MergeTakesPatch(Field(base.value, p[0]), patch.fields[p[0]], p[1..]);
    }
  }

  /** Arrays get in the way of a stored value only from the patch. */
  lemma {:induction false} MergeArrays(base: Option<Json>, patch: Json, p: Path)
    requires base.Some? ==> !ArrayOnTheWay(base.value, p)
    ensures ArrayOnTheWay(DeepMerge(base, patch), p) == ArrayOnTheWay(patch, p)
    decreases |p|
  {
    if p != [] && patch.Obj? && p[0] in patch.fields && base.Some? && base.value.Obj? && patch.fields[p[0]].Obj? {
      MergeArrays(Field(base.value, p[0]), patch.fields[p[0]], p[1..]);
    }
  }

  predicate TakesText(m: Json, patch: Json, p: Path) {
    Get(patch, p).Some? && Get(patch, p).value.Str? ==> Get(m, p) == Get(patch, p)
  }

  predicate BothLack(m: Json, patch: Json, p: Path) {
    Get(m, p) == None && Get(patch, p) == None
  }

  predicate SameArrays(m: Json, patch: Json, p: Path) {
    ArrayOnTheWay(m, p) == ArrayOnTheWay(patch, p)
  }

  lemma ReplaceKeysAt(m: Json, patch: Json, p: Path)
    ensures TakesText(m, patch, p) ==> TakesText(ReplaceKeys(m, patch), patch, p)
    ensures BothLack(m, patch, p) ==> BothLack(ReplaceKeys(m, patch), patch, p)
    ensures SameArrays(m, patch, p) ==> SameArrays(ReplaceKeys(m, patch), patch, p)
  {
    ReplaceKeyAt(m, patch, CI_CONFIG, p);
    ReplaceKeyAt(ReplaceKey(m, patch, CI_CONFIG), patch, ARTIFACT_DEPLOY, p);
  }

  lemma ReplaceKeyAt(m: Json, patch: Json, key: string, p: Path)
    ensures TakesText(m, patch, p) ==> TakesText(ReplaceKey(m, patch, key), patch, p)
    ensures BothLack(m, patch, p) ==> BothLack(ReplaceKey(m, patch, key), patch, p)
    ensures SameArrays(m, patch, p) ==> SameArrays(ReplaceKey(m, patch, key), patch, p)
  {
    if p != [] && p[0] == key {
      assert Get(patch, p) == if Field(patch, key).Some? then Get(patch.fields[key], p[1..]) else None;
    }
  }

  lemma Below(j: Json, p: Path)
    requires p != [] && j.Obj?
    ensures Get(j, p) == if p[0] in j.fields then Get(j.fields[p[0]], p[1..]) else None
    ensures ArrayOnTheWay(j, p) == (p[0] in j.fields && ArrayOnTheWay(j.fields[p[0]], p[1..]))
  {
  }

  lemma ReplaceInEnvironmentsAt(m: Json, patch: Json, p: Path)
    ensures TakesText(m, patch, p) ==> TakesText(ReplaceInEnvironments(m, patch), patch, p)
    ensures BothLack(m, patch, p) ==> BothLack(ReplaceInEnvironments(m, patch), patch, p)
    ensures SameArrays(m, patch, p) ==> SameArrays(ReplaceInEnvironments(m, patch), patch, p)
  {
    var m' := ReplaceInEnvironments(m, patch);
    if p != [] && p[0] == ENVIRONMENTS && m' != m {
      var envs, patches, done := m.fields[ENVIRONMENTS], patch.fields[ENVIRONMENTS], m'.fields[ENVIRONMENTS];
      Below(m, p); Below(patch, p); Below(m', p);
      if |p| > 1 {
        Below(envs, p[1..]); Below(patches, p[1..]); Below(done, p[1..]);
        var name, rest := p[1..][0], p[1..][1..];
        if name in envs.fields && name in patches.fields {
          ReplaceKeysAt(envs.fields[name], patches.fields[name], rest);
        }
      }
    }
  }

  /** Before the secrets are looked after: the patch's text wins, its arrays are in the way. */
  lemma MergedTreesAt(existing: Json, body: Json, p: Path)
    ensures TakesText(MergedTrees(existing, body), Strip(body), p)
    ensures Get(Strip(existing), p) == None && Get(Strip(body), p) == None ==> Get(MergedTrees(existing, body), p) == None
    ensures Lookup(existing, p).Some? ==> SameArrays(MergedTrees(existing, body), Strip(body), p)
  {
    var old', patch := Strip(existing), Strip(body);
    var deep := DeepMerge(Some(old'), patch);
    MergeTakesPatch(Some(old'), patch, p);
    if Get(old', p) == None && Get(patch, p) == None {
      MergeAddsNothing(Some(old'), patch, p);
    }
    if Lookup(existing, p).Some? {
      if ArrayOnTheWay(existing, p) { ArrayHides(existing, p); }
      StripAddsNoArray(existing, p);
      MergeArrays(Some(old'), patch, p);
    }
    ReplaceKeysAt(deep, patch, p);
    ReplaceInEnvironmentsAt(ReplaceKeys(deep, patch), patch, p);
  }

  /** A new text is in the merged trees exactly when no flag-like key hides it. */
  lemma NewTextAt(existing: Json, body: Json, p: Path)
    requires IsPlace(p) && Get(body, p).Some? && Get(body, p).value.Str?
    ensures Get(MergedTrees(existing, body), p) == if Hidden(p) then None else Get(body, p)
  {
    MergedTreesAt(existing, body, p);
    if Hidden(p) {
      HiddenPlace(p);
      var name, base :| IsPlaceOf(p, name, base) && IsFlag(name);
      StripHides(existing, name, base);
      StripHides(body, name, base);
    } else {
      StripKeepsPath(body, p);
    }
  }

  /** What the loop leaves at a path it has handled. */
  ghost predicate Settled(existing: Json, body: Json, merged0: Json, m: Json, p: Path) {
    Get(m, p) ==
      if IsReplacement(Lookup(body, p)) then Get(merged0, p)
      else if p in TokensToReplace(existing, body) || Lookup(existing, p).None? || ArrayOnTheWay(merged0, p) then None
      else Lookup(existing, p)
  }

  lemma KeepSecretElsewhere(existing: Json, body: Json, m: Json, q: Path, p: Path)
    requires Apart(q, p)
    ensures Get(KeepSecret(existing, body, m, q), p) == Get(m, p)
    ensures ArrayOnTheWay(KeepSecret(existing, body, m, q), p) == ArrayOnTheWay(m, p)
  {
    DeleteElsewhere(m, q, p);
    if Lookup(existing, q).Some? {
      SetDeepElsewhere(m, q, Lookup(existing, q).value, p);
    }
  }

  /** No object there, so that nothing can be deleted from it. */
  predicate NoTree(v: Option<Json>) {
    v.Some? ==> !v.value.Obj?
  }

  /** What the loop has made of the value at `p`, before or after handling it. */
  ghost predicate Tracked(existing: Json, body: Json, merged0: Json, m: Json, p: Path, handled: bool) {
    && m.Obj? && ArrayOnTheWay(m, p) == ArrayOnTheWay(merged0, p)
    && if handled then Settled(existing, body, merged0, m, p) else NoTree(Get(merged0, p)) ==> Get(m, p) == Get(merged0, p)
  }

  /** Neither an object nor null: no path leads through it. */
  predicate EndsThere(v: Option<Json>) {
    v.Some? ==> !v.value.Obj? && !v.value.Null?
  }

  lemma {:induction false} LookupBelow(j: Json, q: Path, p: Path)
    requires p < q && EndsThere(Lookup(j, p))
    ensures Lookup(j, q) == None
  {
    if p != [] && j.Obj? && p[0] in j.fields {
      LookupBelow(j.fields[p[0]], q[1..], p[1..]);
    }
  }

  lemma {:induction false} DeleteBelow(j: Json, q: Path, p: Path)
    requires p < q
    ensures NoTree(Get(j, p)) ==> Get(Delete(j, q), p) == Get(j, p)
    ensures ArrayOnTheWay(Delete(j, q), p) == ArrayOnTheWay(j, p)
    decreases |p|
  {
    if p != [] && j.Obj? && p[0] in j.fields {
      DeleteBelow(j.fields[p[0]], q[1..], p[1..]);
    }
  }

  /** Handling a path that leads on below `p`. */
  lemma KeepSecretBelow(existing: Json, body: Json, m: Json, q: Path, p: Path)
    requires p < q && EndsThere(Lookup(existing, p))
    ensures NoTree(Get(m, p)) ==> Get(KeepSecret(existing, body, m, q), p) == Get(m, p)
    ensures ArrayOnTheWay(KeepSecret(existing, body, m, q), p) == ArrayOnTheWay(m, p)
  {
    LookupBelow(existing, q, p);
    DeleteBelow(m, q, p);
  }

  lemma KeepSecretHere(existing: Json, body: Json, merged0: Json, m: Json, p: Path, handled: bool)
    requires p != [] && Tracked(existing, body, merged0, m, p, handled)
    requires IsReplacement(Lookup(body, p)) ==> NoTree(Get(merged0, p))
    ensures Tracked(existing, body, merged0, KeepSecret(existing, body, m, p), p, true)
  {
    DeleteThere(m, p);
    DeleteKeepsArrays(m, p);
    if Lookup(existing, p).Some? {
      SetDeepThere(m, p, Lookup(existing, p).value);
      SetDeepKeepsArrays(m, p, Lookup(existing, p).value);
    }
  }

  predicate Spares(existing: Json, q: Path, p: Path) {
    EndsThere(Lookup(existing, p)) || !(p < q)
  }

  /** Handling `q` does not touch what is stored at `p`. */
  predicate Misses(existing: Json, q: Path, p: Path) {
    q == p || Apart(q, p) || (p < q && EndsThere(Lookup(existing, p)))
  }

  /** No other listed path leads on through what is stored at `p`. */
  ghost predicate OutOfReach(existing: Json, paths: seq<Path>, p: Path) {
    forall q | q in paths :: Spares(existing, q, p)
  }

  lemma KeepSecretOther(existing: Json, body: Json, merged0: Json, m: Json, q: Path, p: Path, handled: bool)
    requires Apart(q, p) || (p < q && EndsThere(Lookup(existing, p)))
    requires IsReplacement(Lookup(body, p)) ==> NoTree(Get(merged0, p))
    requires Tracked(existing, body, merged0, m, p, handled)
    ensures Tracked(existing, body, merged0, KeepSecret(existing, body, m, q), p, handled)
  {
    if Apart(q, p) {
      KeepSecretElsewhere(existing, body, m, q, p);
    } else {
      KeepSecretBelow(existing, body, m, q, p);
    }
  }

  lemma KeepSecretAt(existing: Json, body: Json, merged0: Json, m: Json, q: Path, p: Path, handled: bool)
    requires p != [] && Misses(existing, q, p)
    requires IsReplacement(Lookup(body, p)) ==> NoTree(Get(merged0, p))
    requires Tracked(existing, body, merged0, m, p, handled)
    ensures Tracked(existing, body, merged0, KeepSecret(existing, body, m, q), p, handled || q == p)
  {
    if q != p {
      KeepSecretOther(existing, body, merged0, m, q, p, handled);
    } else {
      KeepSecretHere(existing, body, merged0, m, p, handled);
    }
  }

  lemma {:induction false} KeepAlongAt(existing: Json, body: Json, merged0: Json, paths: seq<Path>, p: Path)
    requires merged0.Obj? && p != [] && forall q | q in paths :: Misses(existing, q, p)
    requires IsReplacement(Lookup(body, p)) ==> NoTree(Get(merged0, p))
    ensures Tracked(existing, body, merged0, KeepAlong(existing, body, merged0, paths), p, p in paths)
    decreases |paths|
  {
    if paths != [] {
      var front, last := paths[..|paths| - 1], paths[|paths| - 1];
      FrontAndLast(paths);
      KeepAlongAt(existing, body, merged0, front, p);
      KeepSecretAt(existing, body, merged0, KeepAlong(existing, body, merged0, front), last, p, p in front);
    }
  }

  /** The other listed paths miss the place of a secret, if none leads on through what is stored there. */
  lemma PlacesAreMissed(existing: Json, body: Json, paths: seq<Path>, p: Path)
    requires IsPlace(p) && OutOfReach(existing, paths, p)
    requires forall q | q in paths :: q in SecretPathsOf(existing) + SecretPathsOf(body)
    ensures forall q | q in paths :: Misses(existing, q, p)
  {
    forall q | q in paths ensures Misses(existing, q, p) {
      assert Spares(existing, q, p);
      if q != p {
        ListedApartOrBelow(if q in SecretPathsOf(existing) then existing else body, q, p);
      }
    }
  }

  lemma ReplacementIsText(body: Json, p: Path)
    requires IsReplacement(Lookup(body, p))
    ensures Get(body, p) == Lookup(body, p)
  {
    LookupIsGet(body, p);
  }

  lemma LoopSettles(existing: Json, body: Json, paths: seq<Path>, p: Path)
    requires existing.Obj? && body.Obj? && IsPlace(p) && OutOfReach(existing, paths, p)
    requires Lists(paths, SecretPathsOf(existing) + SecretPathsOf(body))
    ensures Tracked(existing, body, MergedTrees(existing, body), Merge(existing, body, paths), p, p in paths)
  {
    ListedEndsInSecret(existing, p);
    if IsReplacement(Lookup(body, p)) {
      ReplacementIsText(body, p);
      NewTextAt(existing, body, p);
    }
    PlacesAreMissed(existing, body, paths, p);
    KeepAlongAt(existing, body, MergedTrees(existing, body), paths, p);
  }

  /**
   * For every settings patch and every listed place of a secret: a new non-blank value is taken,
   * unless the environment is named like a presence flag; the token of a changed source is
   * dropped; a secret that was not stored is not there; and a stored one is kept, exactly when
   * the patch, its flags taken out, has no array in its way.
   */
  lemma EverySecretIsSettled(existing: Json, body: Json, paths: seq<Path>, p: Path)
    requires existing.Obj? && body.Obj? && OutOfReach(existing, paths, p)
    requires Lists(paths, SecretPathsOf(existing) + SecretPathsOf(body)) && p in paths && IsPlace(p)
    ensures var incoming, stored, m := Lookup(body, p), Lookup(existing, p), Merge(existing, body, paths);
      if IsReplacement(incoming) then Get(m, p) == if Hidden(p) then None else incoming
      else if p in TokensToReplace(existing, body) || stored.None? then Get(m, p) == None
      else Get(m, p) == stored <==> !ArrayOnTheWay(Strip(body), p)
  {
    LoopSettles(existing, body, paths, p);
    if IsReplacement(Lookup(body, p)) {
      ReplacementIsText(body, p);
      NewTextAt(existing, body, p);
    } else {
      MergedTreesAt(existing, body, p);
    }
  }

  lemma {:induction false} ApartIsNoPrefix(p: Path, q: Path)
    requires Apart(p, q)
    ensures !(p <= q)
  {
    if p[0] == q[0] && p <= q {
      assert p[1..] <= q[1..];
      ApartIsNoPrefix(p[1..], q[1..]);
    }
  }

  /** With plainly named environments no listed path leads on through another. */
  lemma PlainNamesAreOutOfReach(existing: Json, body: Json, paths: seq<Path>, p: Path)
    requires WellNamed(existing) && WellNamed(body) && IsSecretPath(p)
    requires Lists(paths, SecretPathsOf(existing) + SecretPathsOf(body))
    ensures OutOfReach(existing, paths, p)
  {
    SecretPathsAreTrue(existing);
    SecretPathsAreTrue(body);
    forall q | q in paths ensures Spares(existing, q, p) {
      if q != p {
        SecretPathsApart(p, q);
        ApartIsNoPrefix(p, q);
      }
    }
  }

  // ------------------------------------------ names the loop does not look after

  lemma {:induction false} DotsLeftAlone(existing: Json, body: Json, m: Json, paths: seq<Path>, name: string, base: Path)
    requires forall q | q in paths :: q in SecretPathsOf(existing) + SecretPathsOf(body)
    requires '.' in name && base != []
    ensures Get(KeepAlong(existing, body, m, paths), TruePath(name, base)) == Get(m, TruePath(name, base))
    decreases |paths|
  {
    if paths != [] {
      var front, last := paths[..|paths| - 1], paths[|paths| - 1];
      FrontAndLast(paths);
      DotsLeftAlone(existing, body, m, front, name, base);
      ListedMissesDots(if last in SecretPathsOf(existing) then existing else body, last, name, base);
      KeepSecretElsewhere(existing, body, KeepAlong(existing, body, m, front), last, TruePath(name, base));
    }
  }

  lemma OverriddenIsListed(existing: Json, body: Json, config: Json, paths: seq<Path>, name: string, base: Path)
    requires Lists(paths, SecretPathsOf(existing) + SecretPathsOf(body)) && config in {existing, body}
    requires base in BASE_PATHS && '.' !in name && Get(config, TruePath(name, base)).Some?
    ensures TruePath(name, base) in paths && IsPlace(TruePath(name, base))
  {
    TruePathIn(config, name, base);
    EnvPathOfPlainName(name, base);
    assert Overrides(config, name, base) && EnvPath(name, base) in SecretPathsOf(config);
    assert IsPlaceOf(TruePath(name, base), name, base);
  }

  lemma TextEndsThere(j: Json, p: Path)
    requires Get(j, p).Some? && Get(j, p).value.Str?
    ensures Lookup(j, p) == Get(j, p) && !ArrayOnTheWay(Strip(j), p)
  {
    LookupIsGet(j, p);
    StripAddsNoArray(j, p);
    if ArrayOnTheWay(j, p) { ArrayHides(j, p); }
  }

  lemma NewSecretOfDotted(existing: Json, body: Json, paths: seq<Path>, name: string, base: Path)
    requires base in BASE_PATHS && '.' in name
    requires Lists(paths, SecretPathsOf(existing) + SecretPathsOf(body))
    requires Get(body, TruePath(name, base)).Some? && Get(body, TruePath(name, base)).value.Str?
    ensures var t := TruePath(name, base);
      Get(Merge(existing, body, paths), t) == if Hidden(t) then None else Get(body, t)
  {
    var t := TruePath(name, base);
    assert IsPlaceOf(t, name, base);
    NewTextAt(existing, body, t);
    DotsLeftAlone(existing, body, MergedTrees(existing, body), paths, name, base);
  }

  /**
   * An environment's saved secret survives a patch that blanks it exactly when the environment's
   * name has no dot and the patch does not ask for a new token; with a dot the blank is stored.
   */
  lemma BlankKeepsExactlyWithoutDots(existing: Json, body: Json, paths: seq<Path>, name: string, base: Path)
    requires existing.Obj? && body.Obj? && base in BASE_PATHS
    requires Lists(paths, SecretPathsOf(existing) + SecretPathsOf(body))
    requires var t := TruePath(name, base);
      Get(existing, t).Some? && Get(existing, t).value.Str? && Get(body, t).Some? && Get(body, t).value.Str?
      && Trim(Get(body, t).value.s) == "" && Get(body, t) != Get(existing, t)
    ensures var t := TruePath(name, base);
      Get(Merge(existing, body, paths), t) == Get(existing, t) <==> '.' !in name && t !in TokensToReplace(existing, body)
  {
    var t := TruePath(name, base);
    assert IsPlaceOf(t, name, base);
    TextEndsThere(body, t);
    TextEndsThere(existing, t);
    if '.' in name {
      NewSecretOfDotted(existing, body, paths, name, base);
    } else {
      OverriddenIsListed(existing, body, existing, paths, name, base);
      EverySecretIsSettled(existing, body, paths, t);
    }
  }

  lemma NewSecretOfPlain(existing: Json, body: Json, paths: seq<Path>, name: string, base: Path)
    requires existing.Obj? && body.Obj? && base in BASE_PATHS && '.' !in name
    requires Lists(paths, SecretPathsOf(existing) + SecretPathsOf(body))
    requires IsReplacement(Get(body, TruePath(name, base))) && OutOfReach(existing, paths, TruePath(name, base))
    ensures var t := TruePath(name, base);
      Get(Merge(existing, body, paths), t) == if Hidden(t) then None else Get(body, t)
  {
    var t := TruePath(name, base);
    TextEndsThere(body, t);
    OverriddenIsListed(existing, body, body, paths, name, base);
    EverySecretIsSettled(existing, body, paths, t);
  }

  /** A new secret of an environment is taken exactly when the environment is not named like a presence flag. */
  lemma NewSecretTakenExactly(existing: Json, body: Json, paths: seq<Path>, name: string, base: Path)
    requires existing.Obj? && body.Obj? && base in BASE_PATHS
    requires Lists(paths, SecretPathsOf(existing) + SecretPathsOf(body))
    requires IsReplacement(Get(body, TruePath(name, base))) && OutOfReach(existing, paths, TruePath(name, base))
    ensures var t := TruePath(name, base);
      Get(Merge(existing, body, paths), t) == Get(body, t) <==> !IsFlag(name)
  {
    HiddenTruePath(name, base);
    if '.' in name {
      NewSecretOfDotted(existing, body, paths, name, base);
    } else {
      NewSecretOfPlain(existing, body, paths, name, base);
    }
  }

  lemma ListedStartsPlainly(config: Json, q: Path)
    requires q in SecretPathsOf(config)
    ensures q != [] && !IsFlag(q[0])
  {
    ListedShape(config, q);
    if q in BASE_PATHS {
      NoFlagsInBase(q);
    } else {
      var name, base :| base in BASE_PATHS && q == EnvPath(name, base);
      EnvPathPieces(name, base);
      FlagStartsWithH(ENVIRONMENTS);
    }
  }

  lemma {:induction false} NoFlagComesBack(existing: Json, body: Json, m: Json, paths: seq<Path>, k: string)
    requires forall q | q in paths :: q in SecretPathsOf(existing) + SecretPathsOf(body)
    requires IsFlag(k) && Get(m, [k]) == None
    ensures Get(KeepAlong(existing, body, m, paths), [k]) == None
    decreases |paths|
  {
    if paths != [] {
      var front, last := paths[..|paths| - 1], paths[|paths| - 1];
      FrontAndLast(paths);
      NoFlagComesBack(existing, body, m, front, k);
      ListedStartsPlainly(if last in SecretPathsOf(existing) then existing else body, last);
      KeepSecretElsewhere(existing, body, KeepAlong(existing, body, m, front), last, [k]);
    }
  }

  /** A stored key that looks like a presence flag is dropped by every save. */
  lemma FlagLikeKeyIsDropped(existing: Json, body: Json, paths: seq<Path>, k: string)
    requires existing.Obj? && body.Obj? && IsFlag(k)
    requires Lists(paths, SecretPathsOf(existing) + SecretPathsOf(body))
    ensures Get(Merge(existing, body, paths), [k]) == None
  {
    assert [k][1..] == [];
    MergedTreesAt(existing, body, [k]);
    NoFlagComesBack(existing, body, MergedTrees(existing, body), paths, k);
  }

  lemma NoFlagsInBase(base: Path)
    requires base in BASE_PATHS
    ensures !Hidden(base)
  {
    forall k | k in base ensures !IsFlag(k) {
      FlagStartsWithH(k);
      assert k[0] != 'h';
    }
  }

  lemma HiddenTruePath(name: string, base: Path)
    requires base in BASE_PATHS
    ensures Hidden(TruePath(name, base)) <==> IsFlag(name)
  {
    NoFlagsInBase(base);
    FlagStartsWithH(ENVIRONMENTS);
    var t := TruePath(name, base);
    assert t[1] == name;
    assert forall k | k in t :: k == ENVIRONMENTS || k == name || k in base;
  }

  lemma HiddenPlace(p: Path)
    requires IsPlace(p) && Hidden(p)
    ensures exists name, base :: IsPlaceOf(p, name, base) && IsFlag(name)
  {
    if p in BASE_PATHS {
      NoFlagsInBase(p);
    } else {
      var name, base :| IsPlaceOf(p, name, base);
      HiddenTruePath(name, base);
    }
  }
}
