/**
 * Deleting releases while deploys go on: `prune` (backend/src/core/artifacts/artifactUploadService.js)
 * and the operator's `deleteRelease` (releaseService.js) ask the release table and the deploy service.
 */
module ReleaseDeletion {
  import opened Wrappers
  import opened ArtifactReleases
  import DeployRuns
  import opened DeployExclusion
  import opened DeployService

  /** The rows as the deploy service sees them. */
  function ReadyRows(rs: Releases): map<ReleaseId, bool> {
    map id | id in rs :: rs[id].ready
  }

  /** A call prepares to deploy the release, or a run that goes on deploys it. */
  ghost predicate InUse(s: DeployRuns.State, id: ReleaseId) {
    || (exists c, t :: IsPreparing(s, c, t) && s.calls[c].stage.wanted == Some(id))
    || (exists r :: DeployRuns.Unfinished(s, r) && s.runs[r].release == Some(id))
  }

  function Busy(s: DeployRuns.State, rs: Releases): set<ReleaseId> {
    set id | id in rs && DeployRuns.IsReleaseBusy(s, id)
  }

  lemma CandidatesAreRows(rs: Releases, list: seq<ReleaseId>, retention: nat)
    requires forall id | id in list :: id in rs
    ensures forall id | id in Candidates(rs, list, retention) :: id in rs
  {
    forall id | id in Candidates(rs, list, retention) ensures id in rs {
      assert id in Bucket(rs, list, true) || id in Bucket(rs, list, false);
    }
  }

  lemma PrunesTheUnused(s: DeployRuns.State, rs: Releases, ts: Targets, project: string, list: seq<ReleaseId>, retention: nat, id: ReleaseId)
    requires Ordered(s) && IsListing(rs, project, list)
    ensures id in Pruned(rs, ts, Busy(s, rs), list, retention) <==>
      id in Candidates(rs, list, retention) && !IsCurrent(rs, ts, id) && !InUse(s, id)
  {
    CandidatesAreRows(rs, list, retention);
    BusyIsInUse(s, id);
  }

  /**
   * After any events in which no reservation was erased, pruning deletes exactly the candidates that
   * are on no target and that no deploy, prepared or going on, uses.
   */
  lemma PruneSparesDeploys(
      es: seq<DeployRuns.Event>, rs: Releases, ts: Targets, project: string, list: seq<ReleaseId>, retention: nat, id: ReleaseId)
    requires DeployRuns.Possible(DeployRuns.EMPTY, es) && NeverErases(DeployRuns.EMPTY, es) && IsListing(rs, project, list)
    ensures var s := DeployRuns.StateAfter(DeployRuns.EMPTY, es);
      id in Pruned(rs, ts, Busy(s, rs), list, retention) <==>
      id in Candidates(rs, list, retention) && !IsCurrent(rs, ts, id) && !InUse(s, id)
  {
    OneDeployPerTarget(DeployRuns.EMPTY, es);
    PrunesTheUnused(DeployRuns.StateAfter(DeployRuns.EMPTY, es), rs, ts, project, list, retention, id);
  }

  lemma DroppingKeepsOrder(s: DeployRuns.State, gone: set<ReleaseId>)
    requires Ordered(s) && forall id | id in gone :: !InUse(s, id)
    ensures Ordered(s.(ready := s.ready - gone))
  {
    var s' := s.(ready := s.ready - gone);
    assert forall c, t | IsPreparing(s', c, t) :: IsPreparing(s, c, t);
    assert forall r | DeployRuns.Unfinished(s', r) :: DeployRuns.Unfinished(s, r);
    assert ReservationsOk(s') by {
      ReservationsStay(s, s');
    }
    assert LocksHeld(s') by {
      HeldStays(s, s');
    }
  }

  lemma RowsWithout(rs: Releases, gone: set<ReleaseId>)
    ensures ReadyRows(rs) - gone == ReadyRows(rs - gone)
  {
  }

  lemma PrunedAreUnused(s: DeployRuns.State, rs: Releases, ts: Targets, project: string, list: seq<ReleaseId>, retention: nat, gone: set<ReleaseId>)
    requires Ordered(s) && IsListing(rs, project, list) && gone == Pruned(rs, ts, Busy(s, rs), list, retention)
    ensures forall id :: id in gone <==> id in Candidates(rs, list, retention) && !IsCurrent(rs, ts, id) && !InUse(s, id)
    ensures Ordered(s.(ready := s.ready - gone))
  {
    forall id ensures id in gone <==> id in Candidates(rs, list, retention) && !IsCurrent(rs, ts, id) && !InUse(s, id) {
      PrunesTheUnused(s, rs, ts, project, list, retention, id);
    }
    DroppingKeepsOrder(s, gone);
  }

  method BusyReleases(service: Service, rs: Releases) returns (busy: set<ReleaseId>)
    ensures busy == Busy(service.Now(), rs)
  {
    busy := {};
    var todo := rs.Keys;
    while todo != {}
      invariant todo <= rs.Keys
      invariant busy == set id | id in rs.Keys - todo && DeployRuns.IsReleaseBusy(service.Now(), id)
      decreases todo
    {
      var id :| id in todo;
      todo := todo - {id};
      var isBusy := service.ReleaseIsBusy(id);
      if isBusy { busy := busy + {id}; }
    }
  }

  /** `prune` */
  method Prune(service: Service, table: ReleaseTable, project: string, retention: nat)
    returns (pruned: seq<ReleaseId>, ghost list: seq<ReleaseId>)
    requires Ordered(service.Now()) && service.ready == ReadyRows(table.releases)
    modifies table, service`ready
    ensures Ordered(service.Now()) && service.ready == ReadyRows(table.releases) && table.targets == old(table.targets)
    ensures IsListing(old(table.releases), project, list)
    ensures forall id :: id in pruned <==>
      id in Candidates(old(table.releases), list, retention) && !IsCurrent(old(table.releases), old(table.targets), id)
      && !InUse(old(service.Now()), id)
    ensures table.releases == old(table.releases) - set id | id in pruned
  {
    ghost var s, rs, ts := service.Now(), table.releases, table.targets;
    var busy := BusyReleases(service, table.releases);
    pruned, list := table.Prune(project, busy, retention);
    var gone := set id | id in pruned;
    assert gone == Pruned(rs, ts, busy, list, retention);
    PrunedAreUnused(s, rs, ts, project, list, retention, gone);
    RowsWithout(rs, gone);
    service.ready := service.ready - gone;
  }

  datatype Deletion = Deleted | Missing | StillBuilt | BeingDeployed | Installed

  /** `deleteRelease` of an operator; `building` says that a build of the release goes on. */
  method DeleteRelease(service: Service, table: ReleaseTable, id: ReleaseId, building: bool) returns (answer: Deletion)
    requires Ordered(service.Now()) && service.ready == ReadyRows(table.releases)
    modifies table, service`ready
    ensures Ordered(service.Now()) && service.ready == ReadyRows(table.releases) && table.targets == old(table.targets)
    ensures answer ==
      if id !in old(table.releases) then Missing
      else if building then StillBuilt
      else if InUse(old(service.Now()), id) then BeingDeployed
      else if IsCurrent(old(table.releases), old(table.targets), id) then Installed
      else Deleted
    ensures table.releases == if answer.Deleted? then old(table.releases) - {id} else old(table.releases)
  {
    ghost var s := service.Now();
    BusyIsInUse(s, id);
    if id !in table.releases { return Missing; }
    if building { return StillBuilt; }
    var busy := service.ReleaseIsBusy(id);
    if busy { return BeingDeployed; }
    if IsCurrent(table.releases, table.targets, id) { return Installed; }
    NothingToUnlink(table.releases, table.targets, id);
    RowsWithout(table.releases, {id});
    table.DeleteRelease(id);
    var _ := service.DeleteRelease(id);
    DroppingKeepsOrder(s, {id});
    return Deleted;
  }
}
