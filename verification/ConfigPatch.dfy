/**
 * What a settings patch does at every path of a project's config, told by `Get` alone
 * (`mergeProjectConfig` of backend/src/api/projectSerialization.js).
 */
module ConfigPatch {
  import opened Wrappers
  import opened Text
  import opened ConfigTree
  import opened SecretPaths
  import opened ConfigMerge

  predicate IsObject(v: Option<Json>) {
    v.Some? && v.value.Obj?
  }

  /** The patch has nothing at the path, and only objects on the way to where it ends. */
  predicate SaysNothing(patch: Json, p: Path) {
    p != [] && patch.Obj? && (p[0] !in patch.fields || SaysNothing(patch.fields[p[0]], p[1..]))
  }

  /** The path leads to or into a `ciConfig` or `artifactDeploy` object of the patch, at the top or in an environment. */
  predicate InReplaced(patch: Json, p: Path) {
    || (p != [] && p[0] in {"ciConfig", "artifactDeploy"} && IsObject(Get(patch, p[..1])))
    || (|p| > 2 && p[0] == "environments" && p[2] in {"ciConfig", "artifactDeploy"} && IsObject(Get(patch, p[..3])))
  }

  /** What is there after patching: the patch's value, or an object of both, or what was there. */
  ghost predicate Patched(m: Json, stored: Json, patch: Json, p: Path) {
    if Get(patch, p).Some? && !Get(patch, p).value.Obj? then Get(m, p) == Get(patch, p)
    else if IsObject(Get(patch, p)) then IsObject(Get(m, p))
    else if SaysNothing(patch, p) then Get(m, p) == Get(stored, p)
    else Get(m, p) == None
  }

  // ------------------------------------------------------------- merging the trees

  lemma PatchAlone(stored: Json, patch: Json, p: Path)
    requires p != [] && !stored.Obj?
    ensures Patched(patch, stored, patch, p)
  {
    SaysNothingHasNothing(patch, p);
  }

  lemma {:induction false} SaysNothingHasNothing(patch: Json, p: Path)
    ensures SaysNothing(patch, p) ==> Get(patch, p) == None
    decreases |p|
  {
    if SaysNothing(patch, p) && p[0] in patch.fields {
      SaysNothingHasNothing(patch.fields[p[0]], p[1..]);
    }
  }

  /** The field of a merged object. */
  lemma MergedField(stored: Json, patch: Json, k: string)
    requires stored.Obj? && patch.Obj?
    ensures DeepMerge(Some(stored), patch).Obj?
    ensures Field(DeepMerge(Some(stored), patch), k) ==
      if k !in patch.fields then Field(stored, k)
      else if patch.fields[k].Obj? then Some(DeepMerge(Field(stored, k), patch.fields[k]))
      else Some(patch.fields[k])
  {
  }

  /** One step down a path. */
  lemma PatchedBelow(m: Json, stored: Json, patch: Json, k: string, rest: Path)
    requires m.Obj? && stored.Obj? && patch.Obj? && k in patch.fields && k in m.fields
    requires if rest == [] then (if patch.fields[k].Obj? then m.fields[k].Obj? else m.fields[k] == patch.fields[k])
      else Patched(m.fields[k], Field(stored, k).GetOr(Null), patch.fields[k], rest)
    ensures Patched(m, stored, patch, [k] + rest)
  {
    var p := [k] + rest;
    assert p != [] && p[0] == k && p[1..] == rest;
    assert Get(m, p) == Get(m.fields[k], rest) && Get(patch, p) == Get(patch.fields[k], rest);
    assert Get(stored, p) == if k in stored.fields then Get(stored.fields[k], rest) else None;
    assert SaysNothing(patch, p) <==> SaysNothing(patch.fields[k], rest);
    if rest == [] {
      assert Get(patch, p) == Some(patch.fields[k]) && Get(m, p) == Some(m.fields[k]);
    }
  }

  lemma {:induction false} DeepMergeAt(stored: Json, patch: Json, p: Path)
    requires p != [] && patch.Obj? && stored.Obj?
    ensures Patched(DeepMerge(Some(stored), patch), stored, patch, p)
    decreases |p|
  {
    var k, rest := p[0], p[1..];
    var m := DeepMerge(Some(stored), patch);
    assert p == [k] + rest;
    MergedField(stored, patch, k);
    if k in patch.fields {
      var inner, before := patch.fields[k], Field(stored, k);
      if rest != [] && inner.Obj? && before.Some? && before.value.Obj? {
        DeepMergeAt(before.value, inner, rest);
      } else if rest != [] && inner.Obj? {
        assert DeepMerge(before, inner) == inner;
        PatchAlone(before.GetOr(Null), inner, rest);
      }
      PatchedBelow(m, stored, patch, k, rest);
    }
  }

  lemma ReplaceKeyAtPath(m: Json, patch: Json, key: string, p: Path)
    requires p != [] && m.Obj?
    ensures Get(ReplaceKey(m, patch, key), p) == if p[0] == key && IsObject(Get(patch, [key])) then Get(patch, p) else Get(m, p)
    ensures ReplaceKey(m, patch, key).Obj?
  {
    assert [key][1..] == [];
  }

  lemma ReplaceKeysAtPath(m: Json, patch: Json, p: Path)
    requires p != [] && m.Obj?
    ensures Get(ReplaceKeys(m, patch), p) ==
      if p[0] in {"ciConfig", "artifactDeploy"} && IsObject(Get(patch, p[..1])) then Get(patch, p) else Get(m, p)
    ensures ReplaceKeys(m, patch).Obj?
  {
    assert p[..1] == [p[0]];
    ReplaceKeyAtPath(m, patch, CI_CONFIG, p);
    ReplaceKeyAtPath(ReplaceKey(m, patch, CI_CONFIG), patch, ARTIFACT_DEPLOY, p);
  }

  lemma InEnvironment(j: Json, name: string, rest: Path)
    ensures Get(j, ["environments", name] + rest) ==
      if name in Environments(j) then Get(Environments(j)[name], rest) else None
  {
    var p := ["environments", name] + rest;
    assert p[1..] == [name] + rest && p[1..][1..] == rest;
  }

  lemma AnEnvironment(j: Json, name: string)
    ensures Get(j, ["environments", name]) == if name in Environments(j) then Some(Environments(j)[name]) else None
  {
    InEnvironment(j, name, []);
    assert ["environments", name] + [] == ["environments", name];
  }

  lemma AKeyOfAnEnvironment(j: Json, name: string, key: string)
    ensures Get(j, ["environments", name, key]) == if name in Environments(j) then Get(Environments(j)[name], [key]) else None
  {
    InEnvironment(j, name, [key]);
    assert ["environments", name] + [key] == ["environments", name, key];
  }

  /** The step on the environments: each that both have, as objects, has its keys replaced. */
  lemma EnvironmentsReplaced(m: Json, patch: Json, name: string)
    requires m.Obj?
    ensures var both := ReplaceInEnvironments(m, patch);
      if name in Environments(m) && name in Environments(patch) && Environments(m)[name].Obj? && Environments(patch)[name].Obj?
      then name in Environments(both) && Environments(both)[name] == ReplaceKeys(Environments(m)[name], Environments(patch)[name])
      else Get(both, ["environments", name]) == Get(m, ["environments", name])
    ensures var both := ReplaceInEnvironments(m, patch);
      both.Obj? && both.fields.Keys == m.fields.Keys
      && (forall k | k in m.fields && k != "environments" :: both.fields[k] == m.fields[k])
      && ("environments" in m.fields ==>
            if m.fields["environments"].Obj? then both.fields["environments"].Obj? else both.fields["environments"] == m.fields["environments"])
  {
    AnEnvironment(m, name);
    AnEnvironment(ReplaceInEnvironments(m, patch), name);
  }

  /** Inside one environment. */
  lemma EnvironmentReplaced(m: Json, patch: Json, name: string, rest: Path)
    requires m.Obj? && rest != []
    requires name in Environments(patch) && Environments(patch)[name].Obj? ==> IsObject(Get(m, ["environments", name]))
    ensures Get(ReplaceInEnvironments(m, patch), ["environments", name] + rest) ==
      if rest[0] in {"ciConfig", "artifactDeploy"} && IsObject(Get(patch, ["environments", name, rest[0]]))
      then Get(patch, ["environments", name] + rest) else Get(m, ["environments", name] + rest)
  {
    var both := ReplaceInEnvironments(m, patch);
    EnvironmentsReplaced(m, patch, name);
    AnEnvironment(m, name);
    AnEnvironment(both, name);
    AKeyOfAnEnvironment(patch, name, rest[0]);
    InEnvironment(m, name, rest);
    InEnvironment(patch, name, rest);
    InEnvironment(both, name, rest);
    assert [rest[0]] == rest[..1];
    if name in Environments(patch) && Environments(patch)[name].Obj? {
      ReplaceKeysAtPath(Environments(m)[name], Environments(patch)[name], rest);
    }
  }

  // -------------------------------------------------------------- the whole patch

  lemma NotInside(stored: Json, patch: Json, name: string)
    requires patch.Obj? && stored.Obj?
    ensures var m := ReplaceKeys(DeepMerge(Some(stored), patch), patch);
      m.Obj? && (name in Environments(patch) && Environments(patch)[name].Obj? ==> IsObject(Get(m, ["environments", name])))
      && Patched(m, stored, patch, ["environments", name])
  {
    var deep, p := DeepMerge(Some(stored), patch), ["environments", name];
    MergedField(stored, patch, "");
    DeepMergeAt(stored, patch, p);
    ReplaceKeysAtPath(deep, patch, p);
    AnEnvironment(patch, name);
  }

  /** The merged trees, at every path. */
  lemma TreesPatched(existing: Json, body: Json, p: Path)
    requires existing.Obj? && body.Obj? && p != []
    ensures if InReplaced(Strip(body), p) then Get(MergedTrees(existing, body), p) == Get(Strip(body), p)
      else Patched(MergedTrees(existing, body), Strip(existing), Strip(body), p)
  {
    var stored, patch := Strip(existing), Strip(body);
    var deep := DeepMerge(Some(stored), patch);
    var m := ReplaceKeys(deep, patch);
    MergedField(stored, patch, "");
    DeepMergeAt(stored, patch, p);
    ReplaceKeysAtPath(deep, patch, p);
    if p[0] == "environments" && |p| > 2 {
      NotInside(stored, patch, p[1]);
      assert p == ["environments", p[1]] + p[2..] && p[..3] == ["environments", p[1], p[2]];
      EnvironmentReplaced(m, patch, p[1], p[2..]);
    } else {
      OutsidePatched(m, stored, patch, p);
    }
  }

  lemma OtherKeysPatched(m: Json, stored: Json, patch: Json, p: Path)
    requires m.Obj? && p != [] && p[0] != "environments"
    ensures Get(ReplaceInEnvironments(m, patch), p) == Get(m, p)
  {
    EnvironmentsReplaced(m, patch, "");
  }

  lemma OneKey(j: Json, k: string)
    ensures Get(j, [k]) == Field(j, k)
  {
    assert [k][1..] == [];
  }

  lemma EnvironmentsPatched(m: Json, stored: Json, patch: Json)
    requires m.Obj? && patch.Obj? && Patched(m, stored, patch, ["environments"])
    ensures Patched(ReplaceInEnvironments(m, patch), stored, patch, ["environments"])
  {
    var both := ReplaceInEnvironments(m, patch);
    OneKey(both, "environments");
    OneKey(m, "environments");
    OneKey(patch, "environments");
    EnvironmentsReplaced(m, patch, "");
    if "environments" !in patch.fields || !patch.fields["environments"].Obj? {
      assert both == m;
    }
  }

  lemma EnvironmentPatched(m: Json, stored: Json, patch: Json, name: string)
    requires m.Obj? && patch.Obj? && Patched(m, stored, patch, ["environments", name])
    ensures Patched(ReplaceInEnvironments(m, patch), stored, patch, ["environments", name])
  {
    var both := ReplaceInEnvironments(m, patch);
    EnvironmentsReplaced(m, patch, name);
    AnEnvironment(m, name);
    AnEnvironment(patch, name);
    AnEnvironment(both, name);
    if name in Environments(m) && name in Environments(patch) && Environments(m)[name].Obj? && Environments(patch)[name].Obj? {
      ReplaceKeysAtPath(Environments(m)[name], Environments(patch)[name], [""]);
    }
  }

  lemma OutsidePatched(m: Json, stored: Json, patch: Json, p: Path)
    requires m.Obj? && stored.Obj? && patch.Obj? && p != [] && (p[0] == "environments" ==> |p| <= 2)
    ensures p[0] != "environments" ==> Get(ReplaceInEnvironments(m, patch), p) == Get(m, p)
    ensures Patched(m, stored, patch, p) && p[0] == "environments" ==> Patched(ReplaceInEnvironments(m, patch), stored, patch, p)
  {
    if p[0] != "environments" {
      OtherKeysPatched(m, stored, patch, p);
    } else if Patched(m, stored, patch, p) && |p| == 1 {
      assert p == ["environments"];
      EnvironmentsPatched(m, stored, patch);
    } else if Patched(m, stored, patch, p) {
      assert p == ["environments", p[1]];
      EnvironmentPatched(m, stored, patch, p[1]);
    }
  }

  lemma {:induction false} ElsewhereAlong(existing: Json, body: Json, m: Json, paths: seq<Path>, p: Path)
    requires forall q | q in paths :: Apart(q, p)
    ensures Get(KeepAlong(existing, body, m, paths), p) == Get(m, p)
    decreases |paths|
  {
    if paths != [] {
      var front, last := paths[..|paths| - 1], paths[|paths| - 1];
      FrontAndLast(paths);
      ElsewhereAlong(existing, body, m, front, p);
      KeepSecretElsewhere(existing, body, KeepAlong(existing, body, m, front), last, p);
    }
  }

  /**
   * For every patch and every path that keeps away from the listed ones, presence flags taken out:
   * below a `ciConfig` or `artifactDeploy` object of the patch everything is as the patch has it; a
   * value of the patch that is no object is taken; where the patch says nothing what was stored
   * stays; and where it has a value that is no object further up there is nothing.
   */
  lemma PatchMeans(existing: Json, body: Json, paths: seq<Path>, p: Path)
    requires existing.Obj? && body.Obj? && p != [] && forall q | q in paths :: Apart(q, p)
    ensures var m, stored, patch := Merge(existing, body, paths), Strip(existing), Strip(body);
      if InReplaced(patch, p) then Get(m, p) == Get(patch, p)
      else if Get(patch, p).Some? && !Get(patch, p).value.Obj? then Get(m, p) == Get(patch, p)
      else if Get(patch, p).Some? then Get(m, p).Some? && Get(m, p).value.Obj?
      else if SaysNothing(patch, p) then Get(m, p) == Get(stored, p)
      else Get(m, p) == None
  {
    TreesPatched(existing, body, p);
    ElsewhereAlong(existing, body, MergedTrees(existing, body), paths, p);
  }

  // -------------------------------------------------------------- the flags taken out

  predicate PlainKeys(p: Path) {
    forall k | k in p :: !IsFlag(k) && k != "ciConfig"
  }

  lemma {:induction false} GetOn(j: Json, front: Path, rest: Path)
    ensures Get(j, front + rest) == if Get(j, front).Some? then Get(Get(j, front).value, rest) else None
    decreases |front|
  {
    if front == [] {
      assert front + rest == rest;
    } else {
      assert (front + rest)[0] == front[0] && (front + rest)[1..] == front[1..] + rest;
      if j.Obj? && front[0] in j.fields {
        GetOn(j.fields[front[0]], front[1..], rest);
      }
    }
  }

  lemma {:induction false} StripAlong(j: Json, front: Path)
    requires PlainKeys(front)
    ensures Get(Strip(j), front) == if Get(j, front).Some? then Some(Strip(Get(j, front).value)) else None
    decreases |front|
  {
    if front != [] && j.Obj? && front[0] in j.fields {
      assert front[0] in front && forall k | k in front[1..] :: k in front;
      StripAlong(j.fields[front[0]], front[1..]);
    }
  }

  /**
   * What is left when the presence flags are taken out: nothing at and below a key that looks like
   * one, everything at and below a `ciConfig` key, and otherwise every value that is no object or array.
   */
  lemma StripMeans(j: Json, front: Path, k: string, rest: Path)
    requires PlainKeys(front)
    ensures k == "ciConfig" ==> Get(Strip(j), front + ([k] + rest)) == Get(j, front + ([k] + rest))
    ensures IsFlag(k) && k != "ciConfig" ==> Get(Strip(j), front + ([k] + rest)) == None
    ensures Get(Strip(j), front).Some? <==> Get(j, front).Some?
    ensures Get(j, front).Some? ==>
      var before, after := Get(j, front).value, Get(Strip(j), front).value;
      if before.Obj? then after.Obj? && after.fields.Keys == (set key | key in before.fields && !IsFlag(key))
      else if before.Arr? then after.Arr? && |after.items| == |before.items| && forall i | 0 <= i < |after.items| :: after.items[i] == Strip(before.items[i])
      else after == before
  {
    StripAlong(j, front);
    GetOn(j, front, [k] + rest);
    GetOn(Strip(j), front, [k] + rest);
    assert ([k] + rest)[1..] == rest;
  }

  // -------------------------------------------------------------------- the secrets

  /** A text with something else than white space in it. */
  ghost predicate IsNewText(v: Option<Json>) {
    v.Some? && v.value.Str? && exists c :: c in v.value.s && !IsSpace(c)
  }

  lemma NewTextMeans(body: Json, p: Path)
    ensures IsReplacement(Lookup(body, p)) <==> IsNewText(Get(body, p))
    ensures IsReplacement(Lookup(body, p)) ==> Lookup(body, p) == Get(body, p)
  {
    LookupIsGet(body, p);
    if Get(body, p).Some? && Get(body, p).value.Str? {
      BlankMeans(Get(body, p).value.s);
    }
  }

  /**
   * For every patch and every listed place of a secret: a text that is not all white space is taken,
   * unless a key on the way looks like a presence flag; otherwise the token of a changed source goes,
   * a secret that was not stored is not there, and a stored one is kept, exactly when the patch has
   * no array in its way.
   */
  lemma SecretMeans(existing: Json, body: Json, paths: seq<Path>, p: Path)
    requires existing.Obj? && body.Obj? && OutOfReach(existing, paths, p)
    requires Lists(paths, SecretPathsOf(existing) + SecretPathsOf(body)) && p in paths && IsPlace(p)
    requires !NullOnTheWay(existing, p)
    ensures var m, sent, stored := Merge(existing, body, paths), Get(body, p), Get(existing, p);
      if IsNewText(sent) then Get(m, p) == if exists k :: k in p && IsFlag(k) then None else sent
      else if p in TokensToReplace(existing, body) || stored.None? then Get(m, p) == None
      else Get(m, p) == stored <==> !ArrayOnTheWay(Strip(body), p)
  {
    NewTextMeans(body, p);
    LookupIsGet(existing, p);
    EverySecretIsSettled(existing, body, paths, p);
  }

  // ------------------------------------------------------------- when a source changed

  function SourceText(scope: Json, key: string): string {
    var v := Get(scope, ["artifactDeploy", "source", key]);
    if v.Some? && v.value.Str? then Trim(v.value.s) else ""
  }

  ghost predicate SameUrl(a: string, b: string) {
    exists url, i: nat, j: nat :: (url == "" || url[|url| - 1] != '/') && a == url + Slashes(i) && b == url + Slashes(j)
  }

  function Slashes(n: nat): string {
    seq(n, _ => '/')
  }

  function UrlOf(scope: Json): string {
    var url, platform := SourceText(scope, "baseUrl"), SourceText(scope, "platform");
    if url != "" then url
    else if platform == "bitbucket" then "https://api.bitbucket.org/2.0"
    else if platform == "github" then "https://api.github.com"
    else ""
  }

  lemma {:induction false} DropsTheSlashes(s: string) returns (n: nat)
    ensures s == DropSlashes(s) + Slashes(n)
    ensures DropSlashes(s) == "" || DropSlashes(s)[|DropSlashes(s)| - 1] != '/'
    decreases |s|
  {
    if s != "" && s[|s| - 1] == '/' {
      var m := DropsTheSlashes(s[..|s| - 1]);
      n := m + 1;
      assert Slashes(n) == Slashes(m) + "/" && s == s[..|s| - 1] + "/";
    } else {
      n := 0;
    }
  }

  lemma {:induction false} SlashesAreDropped(url: string, n: nat)
    requires url == "" || url[|url| - 1] != '/'
    ensures DropSlashes(url + Slashes(n)) == url
    decreases n
  {
    if n > 0 {
      var s := url + Slashes(n);
      assert s[|s| - 1] == '/' && s[..|s| - 1] == url + Slashes(n - 1);
      SlashesAreDropped(url, n - 1);
    } else {
      assert url + Slashes(0) == url;
    }
  }

  lemma SameUrlMeans(a: string, b: string)
    ensures DropSlashes(a) == DropSlashes(b) <==> SameUrl(a, b)
  {
    var i := DropsTheSlashes(a);
    var j := DropsTheSlashes(b);
    if url, i', j' :| (url == "" || url[|url| - 1] != '/') && a == url + Slashes(i') && b == url + Slashes(j') {
      SlashesAreDropped(url, i');
      SlashesAreDropped(url, j');
    }
  }

  /** The same place and the same credentials' owner: what a stored token may be used for again. */
  ghost predicate SameSource(a: Json, b: Json) {
    && (forall key | key in {"platform", "owner", "repo", "username"} :: SourceText(a, key) == SourceText(b, key))
    && (Get(a, ["artifactDeploy", "source", "authType"]) == Some(Str("basic"))
        <==> Get(b, ["artifactDeploy", "source", "authType"]) == Some(Str("basic")))
    && SameUrl(UrlOf(a), UrlOf(b))
  }

  lemma ThreeKeys(j: Json, a: string, b: string, c: string)
    ensures Get(j, [a, b, c]) ==
      var first := Field(j, a);
      var second := if first.Some? then Field(first.value, b) else None;
      if second.Some? then Field(second.value, c) else None
  {
    var p := [a, b, c];
    assert p[1..] == [b, c] && [b, c][1..] == [c] && [c][1..] == [];
    if Field(j, a).Some? {
      assert Get(j, p) == Get(j.fields[a], [b, c]);
      if Field(j.fields[a], b).Some? {
        OneKey(j.fields[a].fields[b], c);
      }
    }
  }

  lemma SourceField(scope: Json, key: string)
    ensures Field(SourceOf(Some(scope)), key) == Get(scope, ["artifactDeploy", "source", key])
    ensures TextField(SourceOf(Some(scope)), key) == SourceText(scope, key)
  {
    ThreeKeys(scope, "artifactDeploy", "source", key);
  }

  lemma IdentityUrl(scope: Json)
    ensures Identity(Some(scope)).baseUrl == DropSlashes(UrlOf(scope))
  {
    SourceField(scope, "platform");
    SourceField(scope, "baseUrl");
    NoSlashAtTheEnd("https://api.bitbucket.org/2.0");
    NoSlashAtTheEnd("https://api.github.com");
  }

  lemma NoSlashAtTheEnd(url: string)
    requires url != "" && url[|url| - 1] != '/'
    ensures DropSlashes(url) == url
  {
  }

  lemma IdentityParts(scope: Json)
    ensures var id := Identity(Some(scope));
      id.platform == SourceText(scope, "platform") && id.owner == SourceText(scope, "owner")
      && id.repo == SourceText(scope, "repo") && id.username == SourceText(scope, "username")
      && id.basicAuth == (Get(scope, ["artifactDeploy", "source", "authType"]) == Some(Str("basic")))
  {
    SourceField(scope, "platform");
    SourceField(scope, "owner");
    SourceField(scope, "repo");
    SourceField(scope, "username");
    SourceField(scope, "authType");
  }

  lemma SameParts(x: SourceIdentity, y: SourceIdentity)
    ensures x == y <==>
      x.platform == y.platform && x.owner == y.owner && x.repo == y.repo && x.baseUrl == y.baseUrl
      && x.basicAuth == y.basicAuth && x.username == y.username
  {
  }

  lemma FourTexts(a: Json, b: Json)
    ensures (forall key | key in {"platform", "owner", "repo", "username"} :: SourceText(a, key) == SourceText(b, key)) <==>
      SourceText(a, "platform") == SourceText(b, "platform") && SourceText(a, "owner") == SourceText(b, "owner")
      && SourceText(a, "repo") == SourceText(b, "repo") && SourceText(a, "username") == SourceText(b, "username")
  {
  }

  lemma IdentityMeans(a: Json, b: Json)
    ensures Identity(Some(a)) == Identity(Some(b)) <==> SameSource(a, b)
  {
    var x, y := Identity(Some(a)), Identity(Some(b));
    IdentityParts(a);
    IdentityParts(b);
    FourTexts(a, b);
    IdentityUrl(a);
    IdentityUrl(b);
    SameUrlMeans(UrlOf(a), UrlOf(b));
    SameParts(x, y);
  }

  lemma NoScope()
    ensures Identity(None) == Identity(Some(Obj(map[])))
  {
  }

  /** A scope of the patch asks for a new token exactly when it has an artifact deploy of another source. */
  lemma SourceMeans(existing: Option<Json>, incoming: Json)
    ensures SourceChanged(existing, incoming) <==>
      IsObject(Get(incoming, ["artifactDeploy"])) && !SameSource(existing.GetOr(Obj(map[])), incoming)
  {
    OneKey(incoming, "artifactDeploy");
    NoScope();
    IdentityMeans(existing.GetOr(Obj(map[])), incoming);
  }

  /** The tokens a patch asks for anew: at the top, and of each environment of the patch. */
  lemma TokensMean(existing: Json, incoming: Json, p: Path)
    ensures p in TokensToReplace(existing, incoming) <==>
      || (p == ["artifactDeploy", "source", "token"] && SourceChanged(Some(existing), incoming))
      || exists name :: name in Environments(incoming)
           && p == ["environments"] + Split(name, '.') + ["artifactDeploy", "source", "token"]
           && SourceChanged(if name in Environments(existing) then Some(Environments(existing)[name]) else None, Environments(incoming)[name])
  {
    assert forall name :: name in Environments(incoming) ==> EnvPath(name, TOKEN_PATH) == ["environments"] + Split(name, '.') + ["artifactDeploy", "source", "token"];
    assert forall name :: Field(Obj(Environments(existing)), name) == if name in Environments(existing) then Some(Environments(existing)[name]) else None;
  }
}
