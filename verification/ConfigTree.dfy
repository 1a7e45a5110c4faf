/**
 * JSON trees and the path operations of backend/src/api/projectSerialization.js.
 * Object keys are unordered here; a missing key is JavaScript's `undefined`.
 */
module ConfigTree {
  import opened Wrappers

  datatype Json = Null | Bool(b: bool) | Num(n: real) | Str(s: string) | Arr(items: seq<Json>) | Obj(fields: map<string, Json>)

  /** A dotted path, split at its dots. */
  type Path = seq<string>

  predicate Truthy(j: Option<Json>) {
    match j
    case None => false
    case Some(Null) => false
    case Some(Bool(b)) => b
    case Some(Num(n)) => n != 0.0
    case Some(Str(s)) => s != ""
    case Some(_) => true
  }

  /** The value at a path that runs through objects only. */
  function Get(j: Json, p: Path): Option<Json> {
    if p == [] then Some(j)
    else if j.Obj? && p[0] in j.fields then Get(j.fields[p[0]], p[1..])
    else None
  }

  /** `getAtPath`: a null on the way is the answer. */
  function Lookup(j: Json, p: Path): Option<Json> {
    if p == [] then Some(j)
    else if j.Null? then Some(Null)
    else if j.Obj? && p[0] in j.fields then Lookup(j.fields[p[0]], p[1..])
    else None
  }

  /** `deleteAtPath` */
  function Delete(j: Json, p: Path): Json {
    if p == [] || !j.Obj? then j
    else if |p| == 1 then Obj(j.fields - {p[0]})
    else if p[0] in j.fields then Obj(j.fields[p[0] := Delete(j.fields[p[0]], p[1..])])
    else j
  }

  /** `setAtPathInPlace`: only below an object that is there. */
  function SetExisting(j: Json, p: Path, v: Json): Json {
    if p == [] || !j.Obj? then j
    else if |p| == 1 then Obj(j.fields[p[0] := v])
    else if p[0] in j.fields then Obj(j.fields[p[0] := SetExisting(j.fields[p[0]], p[1..], v)])
    else j
  }

  /** The object a set goes on into; what is there stays only if it is an object or an array. */
  function Child(j: Json, key: string): Json
    requires j.Obj?
  {
    if key in j.fields && (j.fields[key].Obj? || j.fields[key].Arr?) then j.fields[key] else Obj(map[])
  }

  /** `setAtPathDeep`. A property set on an array is not part of its JSON text. */
  function SetDeep(j: Json, p: Path, v: Json): Json
    decreases |p|
  {
    if p == [] || !j.Obj? then j
    else if |p| == 1 then Obj(j.fields[p[0] := v])
    else Obj(j.fields[p[0] := SetDeep(Child(j, p[0]), p[1..], v)])
  }

  predicate ArrayOnTheWay(j: Json, p: Path) {
    p != [] && (j.Arr? || (j.Obj? && p[0] in j.fields && ArrayOnTheWay(j.fields[p[0]], p[1..])))
  }

  predicate NullOnTheWay(j: Json, p: Path) {
    p != [] && (j.Null? || (j.Obj? && p[0] in j.fields && NullOnTheWay(j.fields[p[0]], p[1..])))
  }

  /** Neither path leads through or to the other. */
  predicate Apart(p: Path, q: Path) {
    p != [] && q != [] && (p[0] != q[0] || Apart(p[1..], q[1..]))
  }

  lemma {:induction false} ApartSymmetric(p: Path, q: Path)
    ensures Apart(p, q) == Apart(q, p)
  {
    if p != [] && q != [] && p[0] == q[0] {
      ApartSymmetric(p[1..], q[1..]);
    }
  }

  lemma {:induction false} ApartBelow(prefix: Path, p: Path, q: Path)
    ensures Apart(prefix + p, prefix + q) == Apart(p, q)
  {
    if prefix == [] {
      assert prefix + p == p && prefix + q == q;
    } else {
      assert (prefix + p)[1..] == prefix[1..] + p && (prefix + q)[1..] == prefix[1..] + q;
      ApartBelow(prefix[1..], p, q);
    }
  }

  lemma {:induction false} LookupIsGet(j: Json, p: Path)
    ensures !NullOnTheWay(j, p) ==> Lookup(j, p) == Get(j, p)
    ensures NullOnTheWay(j, p) ==> Lookup(j, p) == Some(Null) && Get(j, p) == None
  {
    if p != [] && j.Obj? && p[0] in j.fields {
      LookupIsGet(j.fields[p[0]], p[1..]);
    }
  }

  // ----------------------------------------------- one path, then another

  lemma {:induction false} DeleteElsewhere(j: Json, q: Path, p: Path)
    requires Apart(q, p)
    ensures Get(Delete(j, q), p) == Get(j, p)
    ensures ArrayOnTheWay(Delete(j, q), p) == ArrayOnTheWay(j, p)
  {
    if j.Obj? && q[0] == p[0] && q[0] in j.fields {
      DeleteElsewhere(j.fields[q[0]], q[1..], p[1..]);
    }
  }

  lemma {:induction false} SetExistingElsewhere(j: Json, q: Path, v: Json, p: Path)
    requires Apart(q, p)
    ensures Get(SetExisting(j, q, v), p) == Get(j, p)
    ensures ArrayOnTheWay(SetExisting(j, q, v), p) == ArrayOnTheWay(j, p)
  {
    if j.Obj? && q[0] == p[0] && q[0] in j.fields {
      SetExistingElsewhere(j.fields[q[0]], q[1..], v, p[1..]);
    }
  }

  lemma {:induction false} SetDeepElsewhere(j: Json, q: Path, v: Json, p: Path)
    requires Apart(q, p)
    ensures Get(SetDeep(j, q, v), p) == Get(j, p)
    ensures ArrayOnTheWay(SetDeep(j, q, v), p) == ArrayOnTheWay(j, p)
    decreases |q|
  {
    if j.Obj? && q[0] == p[0] {
      assert |q| > 1;
      SetDeepElsewhere(Child(j, q[0]), q[1..], v, p[1..]);
    }
  }

  lemma {:induction false} DeleteThere(j: Json, p: Path)
    requires p != []
    ensures Get(Delete(j, p), p) == None
  {
    if |p| > 1 && j.Obj? && p[0] in j.fields {
      DeleteThere(j.fields[p[0]], p[1..]);
    }
  }

  /** Setting takes effect exactly when no array is on the way. */
  lemma {:induction false} SetDeepThere(j: Json, p: Path, v: Json)
    requires p != [] && (j.Obj? || j.Arr?)
    ensures Get(SetDeep(j, p, v), p) == if ArrayOnTheWay(j, p) then None else Some(v)
    decreases |p|
  {
    if |p| > 1 && j.Obj? {
      SetDeepThere(Child(j, p[0]), p[1..], v);
    }
  }

  lemma {:induction false} ArrayHides(j: Json, p: Path)
    requires ArrayOnTheWay(j, p)
    ensures Get(j, p) == None
    ensures !NullOnTheWay(j, p) && Lookup(j, p) == None
  {
    if j.Obj? {
      ArrayHides(j.fields[p[0]], p[1..]);
    }
  }

  lemma {:induction false} DeleteKeepsArrays(j: Json, p: Path)
    ensures ArrayOnTheWay(Delete(j, p), p) == ArrayOnTheWay(j, p)
    decreases |p|
  {
    if |p| > 1 && j.Obj? && p[0] in j.fields {
      DeleteKeepsArrays(j.fields[p[0]], p[1..]);
    }
  }

  lemma {:induction false} SetDeepKeepsArrays(j: Json, p: Path, v: Json)
    ensures ArrayOnTheWay(SetDeep(j, p, v), p) == ArrayOnTheWay(j, p)
    decreases |p|
  {
    if |p| > 1 && j.Obj? {
      SetDeepKeepsArrays(Child(j, p[0]), p[1..], v);
    }
  }

  /** What follows key `k` on the paths of `ps`. */
  function Under(ps: set<Path>, k: string): set<Path> {
    set p | p in ps && p != [] && p[0] == k :: p[1..]
  }

  /** A list of paths and its last one. */
  lemma FrontAndLast(paths: seq<Path>)
    requires paths != []
    ensures paths == paths[..|paths| - 1] + [paths[|paths| - 1]] && paths[|paths| - 1] in paths
    ensures forall p :: p in paths <==> p in paths[..|paths| - 1] || p == paths[|paths| - 1]
    ensures forall p | p in paths[..|paths| - 1] :: p in paths
  {
    assert paths == paths[..|paths| - 1] + [paths[|paths| - 1]];
  }
}
