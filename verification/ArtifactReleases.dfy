/**
 * Local releases and their retention (backend/src/core/artifacts/artifactUploadService.js and the
 * release and target tables of backend/src/store/artifactDeployRepository.js).
 */
module ArtifactReleases {
  import opened Wrappers

  type ReleaseId = string
  type TargetId = string

  /** `order` is the key releases are listed by: `ready_order` first. */
  datatype Release = Release(project: string, version: string, ready: bool, isLocal: bool, composed: bool, order: int)

  /** `versions` are the versions of `currentVersions`, over all components. */
  datatype Target = Target(project: string, currentRelease: Option<ReleaseId>, versions: set<string>)

  type Releases = map<ReleaseId, Release>
  type Targets = map<TargetId, Target>

  predicate IsPreview(r: Release) {
    r.composed || "0.0.0-" <= r.version
  }

  /** `isReleaseCurrent` */
  predicate IsCurrent(rs: Releases, ts: Targets, id: ReleaseId) {
    || (exists t | t in ts :: ts[t].currentRelease == Some(id))
    || (id in rs && exists t | t in ts :: ts[t].project == rs[id].project && rs[id].version in ts[t].versions)
  }

  predicate ReadyLocal(rs: Releases, project: string, id: ReleaseId) {
    id in rs && rs[id].project == project && rs[id].ready && rs[id].isLocal
  }

  predicate NewestFirst(rs: Releases, list: seq<ReleaseId>)
    requires forall id | id in list :: id in rs
  {
    forall i, j | 0 <= i < j < |list| :: rs[list[i]].order >= rs[list[j]].order
  }

  predicate Distinct(list: seq<ReleaseId>) {
    forall i, j | 0 <= i < j < |list| :: list[i] != list[j]
  }

  /** The result of `listReadyLocalReleases`. */
  ghost predicate IsListing(rs: Releases, project: string, list: seq<ReleaseId>) {
    && Distinct(list)
    && (forall id :: id in list <==> ReadyLocal(rs, project, id))
    && NewestFirst(rs, list)
  }

  /** The releases of one bucket, in the order of the list. */
  function Bucket(rs: Releases, list: seq<ReleaseId>, preview: bool): (b: seq<ReleaseId>)
    requires forall id | id in list :: id in rs
    ensures forall id :: id in b <==> id in list && IsPreview(rs[id]) == preview
  {
    if list == [] then []
    else (if IsPreview(rs[list[0]]) == preview then [list[0]] else []) + Bucket(rs, list[1..], preview)
  }

  function Beyond(list: seq<ReleaseId>, retention: nat): seq<ReleaseId> {
    if retention <= |list| then list[retention..] else []
  }

  /** What is past the retention of its bucket. */
  function Candidates(rs: Releases, list: seq<ReleaseId>, retention: nat): seq<ReleaseId>
    requires forall id | id in list :: id in rs
  {
    Beyond(Bucket(rs, list, true), retention) + Beyond(Bucket(rs, list, false), retention)
  }

  function Unprotected(rs: Releases, ts: Targets, busy: set<ReleaseId>, candidates: seq<ReleaseId>): set<ReleaseId> {
    set id | id in candidates && !IsCurrent(rs, ts, id) && id !in busy
  }

  function Pruned(rs: Releases, ts: Targets, busy: set<ReleaseId>, list: seq<ReleaseId>, retention: nat): set<ReleaseId>
    requires forall id | id in list :: id in rs
  {
    Unprotected(rs, ts, busy, Candidates(rs, list, retention))
  }

  /** `deleteRelease`, as far as these two tables go. */
  function Unlink(ts: Targets, id: ReleaseId): Targets {
    map t | t in ts :: if ts[t].currentRelease == Some(id) then ts[t].(currentRelease := None) else ts[t]
  }

  class ReleaseTable {
    var releases: Releases
    var targets: Targets

    constructor ()
      ensures releases == map[] && targets == map[]
    {
      releases, targets := map[], map[];
    }

    method DeleteRelease(id: ReleaseId)
      modifies this
      ensures releases == old(releases) - {id}
      ensures targets == Unlink(old(targets), id)
    {
      targets := Unlink(targets, id);
      releases := releases - {id};
    }

    /** Where a release goes in a list ordered newest first. */
    method Place(list: seq<ReleaseId>, id: ReleaseId) returns (i: nat)
      requires id in releases && forall x | x in list :: x in releases
      requires NewestFirst(releases, list)
      ensures i <= |list|
      ensures forall j | 0 <= j < i :: releases[list[j]].order >= releases[id].order
      ensures forall j | i <= j < |list| :: releases[list[j]].order <= releases[id].order
    {
      i := 0;
      while i < |list| && releases[list[i]].order >= releases[id].order
        invariant i <= |list|
        invariant forall j | 0 <= j < i :: releases[list[j]].order >= releases[id].order
      {
        i := i + 1;
      }
    }

    method ListReadyLocalReleases(project: string) returns (list: seq<ReleaseId>)
      ensures IsListing(releases, project, list)
      ensures forall id :: id in list <==>
        id in releases && releases[id].project == project && releases[id].ready && releases[id].isLocal
      ensures forall i, j | 0 <= i < j < |list| :: list[i] != list[j] && releases[list[i]].order >= releases[list[j]].order
    {
      var todo := releases.Keys;
      list := [];
      while todo != {}
        invariant todo <= releases.Keys && Distinct(list)
        invariant forall id :: id in list <==> ReadyLocal(releases, project, id) && id !in todo
        invariant NewestFirst(releases, list)
        decreases todo
      {
        var id :| id in todo;
        todo := todo - {id};
        if ReadyLocal(releases, project, id) {
          var i := Place(list, id);
          Inserted(releases, list, i, id);
          list := list[..i] + [id] + list[i..];
        }
      }
    }

    /** One turn of the loop of `prune`. */
    method PruneOne(id: ReleaseId, busy: set<ReleaseId>) returns (gone: bool)
      modifies this
      ensures gone == (!IsCurrent(old(releases), old(targets), id) && id !in busy)
      ensures releases == if gone then old(releases) - {id} else old(releases)
      ensures targets == old(targets)
    {
      gone := !IsCurrent(releases, targets, id) && id !in busy;
      if gone {
        NothingToUnlink(releases, targets, id);
        DeleteRelease(id);
      }
    }

    /** `prune`; `busy` are the releases `isReleaseBusy` holds of. */
    method Prune(project: string, busy: set<ReleaseId>, retention: nat) returns (pruned: seq<ReleaseId>, ghost list: seq<ReleaseId>)
      modifies this
      ensures IsListing(old(releases), project, list)
      ensures releases == old(releases) - Pruned(old(releases), old(targets), busy, list, retention)
      ensures forall id :: id in pruned <==> id in Pruned(old(releases), old(targets), busy, list, retention)
      ensures targets == old(targets)
    {
      var all := ListReadyLocalReleases(project);
      list := all;
      pruned := PruneAll(Candidates(releases, all, retention), busy);
    }

    method PruneAll(candidates: seq<ReleaseId>, busy: set<ReleaseId>) returns (pruned: seq<ReleaseId>)
      modifies this
      ensures releases == old(releases) - Unprotected(old(releases), old(targets), busy, candidates)
      ensures forall id :: id in pruned <==> id in Unprotected(old(releases), old(targets), busy, candidates)
      ensures targets == old(targets)
    {
      pruned := [];
      ghost var rs := releases;
      ghost var gone := {};
      for i := 0 to |candidates|
        invariant targets == old(targets)
        invariant gone == Unprotected(rs, targets, busy, candidates[..i])
        invariant forall id :: id in pruned <==> id in gone
        invariant releases == rs - gone
      {
        var id := candidates[i];
        StillCurrent(rs, targets, gone, id);
        OneMore(rs, targets, busy, candidates, i);
        var now := PruneOne(id, busy);
        if now {
          pruned := pruned + [id];
          assert rs - gone - {id} == rs - (gone + {id});
          gone := gone + {id};
        }
      }
      assert candidates[..|candidates|] == candidates;
    }

    /** `markReleaseFinalized`, with the status update that follows it. */
    method MarkFinalized(id: ReleaseId)
      requires id in releases
      modifies this`releases
      ensures releases.Keys == old(releases).Keys
      ensures forall x | x in releases && x != id :: releases[x] == old(releases)[x]
      ensures releases[id] == old(releases)[id].(ready := true, isLocal := true, order := releases[id].order)
      ensures forall x | x in releases && x != id && releases[x].project == releases[id].project ::
        releases[x].order < releases[id].order
    {
      var top := 0;
      var todo := releases.Keys;
      while todo != {}
        invariant todo <= releases.Keys
        invariant forall x | x in releases.Keys - todo && releases[x].project == releases[id].project :: releases[x].order <= top
        decreases todo
      {
        var x :| x in todo;
        todo := todo - {x};
        if releases[x].project == releases[id].project && releases[x].order > top {
          top := releases[x].order;
        }
      }
      releases := releases[id := releases[id].(ready := true, isLocal := true, order := top + 1)];
    }
  }

  lemma InsertedMembers(list: seq<ReleaseId>, i: nat, id: ReleaseId)
    requires i <= |list|
    ensures forall x :: x in list[..i] + [id] + list[i..] <==> x in list || x == id
  {
    assert list == list[..i] + list[i..];
  }

  lemma Inserted(rs: Releases, list: seq<ReleaseId>, i: nat, id: ReleaseId)
    requires id in rs && (forall x | x in list :: x in rs) && id !in list && i <= |list|
    requires NewestFirst(rs, list) && Distinct(list)
    requires forall j | 0 <= j < i :: rs[list[j]].order >= rs[id].order
    requires forall j | i <= j < |list| :: rs[list[j]].order <= rs[id].order
    ensures var longer := list[..i] + [id] + list[i..];
      Distinct(longer) && (forall x :: x in longer <==> x in list || x == id) && NewestFirst(rs, longer)
  {
    var longer := list[..i] + [id] + list[i..];
    InsertedMembers(list, i, id);
    assert forall j | 0 <= j < |list| :: list[j] in list;
    forall a, b | 0 <= a < b < |longer|
      ensures longer[a] != longer[b] && rs[longer[a]].order >= rs[longer[b]].order
    {
      if a != i && b != i {
        assert longer[a] == list[if a < i then a else a - 1] && longer[b] == list[if b < i then b else b - 1];
      }
    }
  }

  lemma OneMore(rs: Releases, ts: Targets, busy: set<ReleaseId>, candidates: seq<ReleaseId>, i: nat)
    requires i < |candidates|
    ensures var id := candidates[i];
      Unprotected(rs, ts, busy, candidates[..i + 1])
      == Unprotected(rs, ts, busy, candidates[..i]) + (if !IsCurrent(rs, ts, id) && id !in busy then {id} else {})
  {
    assert candidates[..i + 1] == candidates[..i] + [candidates[i]];
  }

  /** Deleting others does not change whether a release is current. */
  lemma StillCurrent(rs: Releases, ts: Targets, gone: set<ReleaseId>, id: ReleaseId)
    ensures id !in gone ==> IsCurrent(rs - gone, ts, id) == IsCurrent(rs, ts, id)
    ensures IsCurrent(rs - gone, ts, id) ==> IsCurrent(rs, ts, id)
  {
  }

  lemma NothingToUnlink(rs: Releases, ts: Targets, id: ReleaseId)
    requires !IsCurrent(rs, ts, id)
    ensures Unlink(ts, id) == ts
  {
  }

  // ------------------------------------------------------------------- retention

  lemma {:induction false} BucketInOrder(rs: Releases, list: seq<ReleaseId>, preview: bool)
    requires (forall id | id in list :: id in rs) && Distinct(list) && NewestFirst(rs, list)
    ensures Distinct(Bucket(rs, list, preview)) && NewestFirst(rs, Bucket(rs, list, preview))
  {
    if list != [] {
      var x, rest := list[0], list[1..];
      assert list == [x] + rest;
      assert forall i | 0 <= i < |rest| :: rest[i] == list[i + 1];
      BucketInOrder(rs, rest, preview);
      FirstIsNewest(rs, list);
      InFront(rs, x, Bucket(rs, rest, preview));
    }
  }

  lemma FirstIsNewest(rs: Releases, list: seq<ReleaseId>)
    requires (forall id | id in list :: id in rs) && list != [] && Distinct(list) && NewestFirst(rs, list)
    ensures forall id | id in list[1..] :: id in list && id != list[0] && rs[list[0]].order >= rs[id].order
  {
    forall id | id in list[1..] ensures id in list && id != list[0] && rs[list[0]].order >= rs[id].order {
      var j :| 0 <= j < |list| - 1 && list[1..][j] == id;
      assert list[j + 1] == id;
    }
  }

  lemma InFront(rs: Releases, x: ReleaseId, rest: seq<ReleaseId>)
    requires x in rs && (forall id | id in rest :: id in rs) && Distinct(rest) && NewestFirst(rs, rest)
    requires forall id | id in rest :: id != x && rs[x].order >= rs[id].order
    ensures Distinct([x] + rest) && NewestFirst(rs, [x] + rest)
  {
    var list := [x] + rest;
    assert forall j | 0 < j < |list| :: list[j] == rest[j - 1] && list[j] in rest;
  }

  /** No release that is current on a target or busy is ever deleted, and only ready local ones are. */
  lemma ProtectedReleasesStay(rs: Releases, ts: Targets, busy: set<ReleaseId>, project: string, list: seq<ReleaseId>, retention: nat, id: ReleaseId)
    requires IsListing(rs, project, list) && id in Pruned(rs, ts, busy, list, retention)
    ensures !IsCurrent(rs, ts, id) && id !in busy && ReadyLocal(rs, project, id)
    ensures rs[id].project == project && rs[id].ready && rs[id].isLocal
    ensures forall t | t in ts ::
      ts[t].currentRelease != Some(id) && (ts[t].project == project ==> rs[id].version !in ts[t].versions)
  {
    assert id in Bucket(rs, list, true) || id in Bucket(rs, list, false);
  }

  /** The `retention` newest of a bucket, or all of it if it is smaller. */
  function Newest(rs: Releases, list: seq<ReleaseId>, preview: bool, retention: nat): seq<ReleaseId>
    requires forall id | id in list :: id in rs
  {
    var bucket := Bucket(rs, list, preview);
    if retention <= |bucket| then bucket[..retention] else bucket
  }

  /** A release is deleted exactly when it is unprotected and `retention` others of its bucket are as new. */
  lemma NewestOfEachBucketStay(rs: Releases, ts: Targets, busy: set<ReleaseId>, project: string, list: seq<ReleaseId>, retention: nat, id: ReleaseId)
    requires IsListing(rs, project, list) && ReadyLocal(rs, project, id)
    ensures var newest := Newest(rs, list, IsPreview(rs[id]), retention);
      && (id in Pruned(rs, ts, busy, list, retention) <==> id !in newest && !IsCurrent(rs, ts, id) && id !in busy)
      && (forall other | other in newest :: other !in Pruned(rs, ts, busy, list, retention))
      && (id !in newest ==> |newest| == retention && Distinct(newest) && forall other | other in newest :: rs[other].order >= rs[id].order)
  {
    var preview := IsPreview(rs[id]);
    var bucket := Bucket(rs, list, preview);
    BucketInOrder(rs, list, preview);
    BucketSplit(bucket, retention);
    assert id in bucket;
    var newest := Newest(rs, list, preview, retention);
    forall x | x in bucket ensures x in Candidates(rs, list, retention) <==> x !in newest {
      assert x !in Bucket(rs, list, !preview);
    }
    if id !in newest {
      NewerThanTheRest(rs, bucket, retention, id);
    }
  }

  /**
   * What a prune deletes has as many newer releases of its own kind as are kept: named releases never
   * go because of composed ones or of versions that start with `0.0.0-`, nor the other way.
   */
  lemma PushedOutByItsKind(rs: Releases, ts: Targets, busy: set<ReleaseId>, project: string, list: seq<ReleaseId>, retention: nat, id: ReleaseId)
    requires IsListing(rs, project, list) && id in Pruned(rs, ts, busy, list, retention)
    ensures exists kept: seq<ReleaseId> ::
      |kept| == retention && Distinct(kept) && id !in kept
      && forall other | other in kept ::
           ReadyLocal(rs, project, other) && rs[other].order >= rs[id].order
           && ((rs[other].composed || "0.0.0-" <= rs[other].version) <==> (rs[id].composed || "0.0.0-" <= rs[id].version))
  {
    ProtectedReleasesStay(rs, ts, busy, project, list, retention, id);
    NewestOfEachBucketStay(rs, ts, busy, project, list, retention, id);
    var kept := Newest(rs, list, IsPreview(rs[id]), retention);
    var bucket := Bucket(rs, list, IsPreview(rs[id]));
    assert forall other | other in kept :: other in bucket;
    assert |kept| == retention && Distinct(kept) && id !in kept;
  }

  /** Current on a target: as its release, or by its version on a target of its project. */
  lemma CurrentMeans(rs: Releases, ts: Targets, id: ReleaseId)
    ensures IsCurrent(rs, ts, id) <==>
      exists t ::
        t in ts
        && (ts[t].currentRelease == Some(id)
            || (id in rs && ts[t].project == rs[id].project && rs[id].version in ts[t].versions))
  {
  }

  lemma NewerThanTheRest(rs: Releases, bucket: seq<ReleaseId>, retention: nat, id: ReleaseId)
    requires (forall x | x in bucket :: x in rs) && NewestFirst(rs, bucket) && retention <= |bucket|
    requires id in bucket && id !in bucket[..retention]
    ensures forall other | other in bucket[..retention] :: rs[other].order >= rs[id].order
  {
    forall other | other in bucket[..retention] ensures rs[other].order >= rs[id].order {
      var i :| 0 <= i < retention && bucket[i] == other;
      var j :| 0 <= j < |bucket| && bucket[j] == id;
    }
  }

  lemma BucketSplit(bucket: seq<ReleaseId>, retention: nat)
    requires Distinct(bucket)
    ensures var newest := if retention <= |bucket| then bucket[..retention] else bucket;
      (forall x | x in bucket :: x in newest <==> x !in Beyond(bucket, retention)) && Distinct(newest)
  {
    if retention <= |bucket| {
      assert bucket == bucket[..retention] + bucket[retention..];
    }
  }

  /** A release that was just finalized is not the one the following prune deletes. */
  lemma FreshReleaseStays(rs: Releases, ts: Targets, busy: set<ReleaseId>, project: string, list: seq<ReleaseId>, retention: nat, id: ReleaseId)
    requires IsListing(rs, project, list) && ReadyLocal(rs, project, id) && retention >= 1
    requires forall x | x in rs && x != id && rs[x].project == project :: rs[x].order < rs[id].order
    ensures id !in Pruned(rs, ts, busy, list, retention)
  {
    NewestOfEachBucketStay(rs, ts, busy, project, list, retention, id);
    var newest := Newest(rs, list, IsPreview(rs[id]), retention);
    assert newest != [] ==> newest[0] in newest && newest[0] in Bucket(rs, list, IsPreview(rs[id]));
  }
}
