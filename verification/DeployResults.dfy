/**
 * The result of a deploy, with what it writes on its target: `handleResult` of
 * backend/src/core/artifacts/artifactDeployService.js. The versions are recorded before the run ends,
 * so its release is protected all the time: in use first, then installed.
 */
module DeployResults {
  import opened Wrappers
  import opened ArtifactReleases
  import opened DeployedVersions
  import DeployRuns
  import opened DeployService

  type Rows = map<TargetId, Versions>

  /** The `currentVersions` of each target's row. */
  predicate RowsAgree(ts: Targets, rows: Rows) {
    ts.Keys == rows.Keys && forall t | t in ts :: ts[t].versions == VersionsOf(rows[t])
  }

  /** The first result of a run that goes on; a later one is ignored. */
  predicate IsFirstResult(s: DeployRuns.State, r: DeployRuns.RunId) {
    r in s.runs && !s.runs[r].finished && !s.runs[r].resultHandled
  }

  function Installed(ts: Targets, rows: Rows, t: TargetId, d: Deploy): Targets
    requires t in ts && t in rows
  {
    ts[t := Target(ts[t].project, Some(d.id), VersionsOf(Record(rows[t], d, d.components)))]
  }

  /** Of the targets only this one may be changed: it stays with its project and is now on the release. */
  ghost predicate OnlyTarget(ts: Targets, after: Targets, t: TargetId, release: ReleaseId) {
    && after.Keys == ts.Keys
    && (forall other | other in ts && other != t :: after[other] == ts[other])
    && (t in ts ==> after[t].project == ts[t].project && after[t].currentRelease == Some(release))
  }

  lemma InstalledIsCurrent(rs: Releases, ts: Targets, rows: Rows, t: TargetId, d: Deploy)
    requires t in ts && t in rows
    ensures IsCurrent(rs, Installed(ts, rows, t, d), d.id)
  {
    assert Installed(ts, rows, t, d)[t].currentRelease == Some(d.id);
  }

  /** `recordDeployedVersions`; a target that is gone is left alone. */
  method RecordOn(table: ReleaseTable, rows: Rows, t: TargetId, d: Deploy) returns (rows': Rows)
    requires RowsAgree(table.targets, rows)
    modifies table`targets
    ensures RowsAgree(table.targets, rows')
    ensures if t in old(table.targets)
      then table.targets == Installed(old(table.targets), rows, t, d) && rows' == rows[t := Record(rows[t], d, d.components)]
      else table.targets == old(table.targets) && rows' == rows
    ensures OnlyTarget(old(table.targets), table.targets, t, d.id)
  {
    rows' := rows;
    if t in table.targets {
      var current := RecordDeployedVersions(rows[t], d);
      rows' := rows[t := current];
      table.targets := table.targets[t := Target(table.targets[t].project, Some(d.id), VersionsOf(current))];
    }
  }

  /** `handleResult`; rollbacks and config runs (`!isDeploy`) record nothing. */
  method HandleResult(service: Service, table: ReleaseTable, rows: Rows, r: DeployRuns.RunId, success: bool, isDeploy: bool, d: Deploy)
    returns (rows': Rows)
    requires DeployRuns.Enabled(service.Now(), DeployRuns.Result(r, success)) && RowsAgree(table.targets, rows)
    modifies service, service.tokens, table`targets
    ensures service.Now() == DeployRuns.Next(old(service.Now()), DeployRuns.Result(r, success))
    ensures RowsAgree(table.targets, rows')
    ensures var t := old(service.runs[r].target);
      if old(IsFirstResult(service.Now(), r)) && success && isDeploy && t in old(table.targets)
      then table.targets == Installed(old(table.targets), rows, t, d) && IsCurrent(table.releases, table.targets, d.id)
           && OnlyTarget(old(table.targets), table.targets, t, d.id)
      else table.targets == old(table.targets) && rows' == rows
  {
    rows' := rows;
    if !service.runs[r].finished && !service.runs[r].resultHandled && success && isDeploy {
      var t := service.runs[r].target;
      if t in table.targets { InstalledIsCurrent(table.releases, table.targets, rows, t, d); }
      rows' := RecordOn(table, rows, t, d);
    }
    service.HandleResult(r, success);
  }
}
