/** The service whose steps `DeployRuns` describes (backend/src/core/artifacts/artifactDeployService.js). */
module DeployService {
  import opened Wrappers
  import opened DownloadTokens
  import opened DeployRuns
  import opened DeployExclusion

  class Service {
    var activeTargets: map<TargetId, RunId>
    var preparingTargets: map<TargetId, Option<ReleaseId>>
    var registered: set<RunId>
    var runs: map<RunId, Run>
    var ready: map<ReleaseId, bool>
    var outcomes: seq<Outcome>
    /** The runs of which revoking failed, and whether it fails now. */
    ghost var unrevoked: set<RunId>
    var failing: bool
    /** What the calls in flight keep in their variables. */
    var calls: map<CallId, Call>
    const tokens: TokenTable

    ghost function Now(): State
      reads this, tokens
    {
      State(activeTargets, preparingTargets, registered, runs, calls, tokens.tokens, ready, outcomes, unrevoked, failing)
    }

    constructor ()
      ensures Now() == EMPTY && fresh(tokens)
    {
      activeTargets, preparingTargets, registered, runs := map[], map[], {}, map[];
      ready, outcomes, calls, unrevoked, failing := map[], [], map[], {}, false;
      tokens := new TokenTable();
    }

    predicate IsTargetBusy(t: TargetId)
      reads this
    {
      t in activeTargets || t in preparingTargets
    }

    /** `isReleaseBusy` */
    method ReleaseIsBusy(id: ReleaseId) returns (busy: bool)
      ensures busy == IsReleaseBusy(Now(), id)
      ensures busy <==>
        || (exists t | t in activeTargets ::
              activeTargets[t] in runs && !runs[activeTargets[t]].finished && runs[activeTargets[t]].release == Some(id))
        || Some(id) in preparingTargets.Values
    {
      var todo := activeTargets.Keys;
      while todo != {}
        invariant todo <= activeTargets.Keys
        invariant forall t | t in activeTargets.Keys - todo ::
          !(activeTargets[t] in runs && !runs[activeTargets[t]].finished && runs[activeTargets[t]].release == Some(id))
        decreases todo
      {
        var t :| t in todo;
        todo := todo - {t};
        if activeTargets[t] in runs && !runs[activeTargets[t]].finished && runs[activeTargets[t]].release == Some(id) {
          return true;
        }
      }
      busy := exists t | t in preparingTargets :: preparingTargets[t] == Some(id);
    }

    /** `reservePreparation`, before the first await of a call; false is a conflict. */
    method ReservePreparation(c: CallId, t: TargetId, release: Option<ReleaseId>) returns (ok: bool)
      requires Enabled(Now(), Reserve(c, t, release))
      modifies this`preparingTargets, this`calls
      ensures Now() == Next(old(Now()), Reserve(c, t, release))
      ensures ok <==> t !in activeTargets && t !in old(preparingTargets)
      ensures ok ==> preparingTargets == old(preparingTargets)[t := release] && calls == old(calls)[c := Call(t, Preparing(release))]
      ensures !ok ==> preparingTargets == old(preparingTargets) && calls == old(calls)
    {
      ok := !IsTargetBusy(t);
      if ok {
        preparingTargets := preparingTargets[t := release];
        calls := calls[c := Call(t, Preparing(release))];
      }
    }

    /** The agent is offline, or the target or the release changed meanwhile. */
    method FailPreparation(c: CallId, t: TargetId)
      requires Enabled(Now(), PrepareFails(c)) && calls[c].target == t
      modifies this`preparingTargets, this`calls
      ensures Now() == Next(old(Now()), PrepareFails(c))
      ensures preparingTargets == old(preparingTargets) - {t} && calls == old(calls) - {c}
    {
      preparingTargets := preparingTargets - {t};
      calls := calls - {c};
    }

    /** The call's `finally`. */
    method LeaveCall(c: CallId, t: TargetId)
      requires Enabled(Now(), Return(c)) && calls[c].target == t
      modifies this`preparingTargets, this`calls
      ensures Now() == Next(old(Now()), Return(c))
      ensures preparingTargets == old(preparingTargets) - {t} && calls == old(calls) - {c}
    {
      preparingTargets := preparingTargets - {t};
      calls := calls - {c};
    }

    /** `finish`: terminal bookkeeping. */
    method FinishRun(r: RunId, success: bool)
      requires r in runs
      modifies this`runs, this`activeTargets, this`registered, this`outcomes, this`unrevoked, tokens
      ensures Now() == Finish(old(Now()), r, success)
      ensures old(runs[r].finished) ==> Now() == old(Now())
      ensures !old(runs[r].finished) ==>
        && runs == old(runs)[r := old(runs[r]).(finished := true, timer := false)]
        && registered == old(registered) - {r}
        && outcomes == old(outcomes) + [Outcome(r, success)]
      ensures forall t :: t in activeTargets <==>
        t in old(activeTargets) && (old(runs[r].finished) || t != old(runs[r].target) || old(activeTargets)[t] != r)
      ensures forall t | t in activeTargets :: activeTargets[t] == old(activeTargets)[t]
      ensures tokens.tokens.Keys <= old(tokens.tokens).Keys
      ensures forall h | h in old(tokens.tokens) :: h !in tokens.tokens <==>
        !old(runs[r].finished) && !failing && old(tokens.tokens)[h].deploymentId == Some(r)
      ensures forall h | h in tokens.tokens :: tokens.tokens[h] == old(tokens.tokens)[h]
    {
      var run := runs[r];
      if run.finished {
        return;
      }
      runs := runs[r := run.(finished := true, timer := false)];
      if run.target in activeTargets && activeTargets[run.target] == r {
        activeTargets := activeTargets - {run.target};
      }
      registered := registered - {r};
      if failing {
        unrevoked := unrevoked + {r};
      } else {
        tokens.RevokeForDeployment(r);
      }
      outcomes := outcomes + [Outcome(r, success)];
    }

    /** `buildPayload` of a deploy: one token per component. */
    method IssueTokens(r: RunId, issues: seq<Issue>)
      modifies tokens
      ensures tokens.tokens == IssueAll(old(tokens.tokens), r, issues)
    {
      for i := 0 to |issues|
        invariant tokens.tokens == IssueAll(old(tokens.tokens), r, issues[..i])
      {
        assert issues[..i + 1][..i] == issues[..i];
        tokens.Issue(issues[i].hash, issues[i].artifactId, issues[i].agentId, Some(r), issues[i].now);
      }
      assert issues[..|issues|] == issues;
    }

    /** The end of the preparation and the start of `startRun`, when no session can be made. */
    method FailSession(c: CallId, t: TargetId)
      requires Enabled(Now(), SessionFails(c)) && calls[c].target == t
      modifies this`preparingTargets, this`activeTargets, this`calls
      ensures Now() == Next(old(Now()), SessionFails(c))
      ensures preparingTargets == old(preparingTargets) - {t} && activeTargets == old(activeTargets) - {t}
      ensures calls == old(calls)[c := Call(t, Ending(None))]
    {
      preparingTargets := preparingTargets - {t};
      activeTargets := activeTargets - {t};
      calls := calls[c := Call(t, Ending(None))];
    }

    /** The end of the preparation and `startRun` up to the building of the payload. */
    method LockTarget(c: CallId, t: TargetId, release: Option<ReleaseId>, r: RunId, issues: seq<Issue>)
      requires Enabled(Now(), Begin(c, r, issues, true)) && calls[c] == Call(t, Preparing(release))
      modifies this`preparingTargets, this`activeTargets, this`runs, this`registered, this`calls, tokens
      ensures Now() == Started(old(Now()), c, r, issues)
      ensures preparingTargets == old(preparingTargets) - {t} && activeTargets == old(activeTargets)[t := r]
      ensures runs == old(runs)[r := Run(t, release, false, false, false, false)] && registered == old(registered) + {r}
      ensures calls == old(calls)[c := Call(t, Starting(r))]
    {
      preparingTargets := preparingTargets - {t};
      activeTargets := activeTargets[t := r];
      runs := runs[r := Run(t, release, false, false, false, false)];
      registered := registered + {r};
      IssueTokens(r, issues);
      calls := calls[c := Call(t, Starting(r))];
    }

    /** `startRun` up to its first await; `built` is false when building the payload throws, and ends the run. */
    method StartRun(c: CallId, t: TargetId, release: Option<ReleaseId>, r: RunId, issues: seq<Issue>, built: bool)
      requires Enabled(Now(), Begin(c, r, issues, built)) && calls[c] == Call(t, Preparing(release))
      modifies this, tokens
      ensures Now() == Next(old(Now()), Begin(c, r, issues, built))
      ensures preparingTargets == old(preparingTargets) - {t}
      ensures runs == old(runs)[r := Run(t, release, !built, false, false, false)]
      ensures outcomes == old(outcomes) + if built then [] else [Outcome(r, false)]
      ensures calls == old(calls)[c := Call(t, if built then Starting(r) else Ending(Some(r)))]
      ensures if built then activeTargets == old(activeTargets)[t := r] else activeTargets.Keys == old(activeTargets).Keys - {t}
    {
      LockTarget(c, t, release, r, issues);
      if !built {
        FinishRun(r, false);
        calls := calls[c := Call(t, Ending(Some(r)))];
      }
    }

    /** The command is with the agent: the wait for its result begins, unless the run is over. */
    method CommandSent(c: CallId, r: RunId)
      requires Enabled(Now(), Sent(c)) && calls[c].stage == Starting(r)
      modifies this`runs, this`calls
      ensures Now() == Next(old(Now()), Sent(c))
      ensures runs == old(runs)[r := old(runs[r]).(timer := old(runs[r].timer) || !old(runs[r].finished))]
      ensures calls == old(calls)[c := Call(old(calls[c].target), Ending(Some(r)))]
    {
      if !runs[r].finished {
        runs := runs[r := runs[r].(timer := true)];
      }
      calls := calls[c := Call(calls[c].target, Ending(Some(r)))];
    }

    method CommandFailed(c: CallId, r: RunId)
      requires Enabled(Now(), SendFails(c)) && calls[c].stage == Starting(r)
      modifies this, tokens
      ensures Now() == Next(old(Now()), SendFails(c))
      ensures runs[r].finished && calls == old(calls)[c := Call(old(calls[c].target), Ending(Some(r)))]
      ensures outcomes == old(outcomes) + if old(runs[r].finished) then [] else [Outcome(r, false)]
    {
      FinishRun(r, false);
      calls := calls[c := Call(calls[c].target, Ending(Some(r)))];
    }

    /** `handleResult`, for a message of the run's agent with the run's deploy id. */
    method HandleResult(r: RunId, success: bool)
      requires Enabled(Now(), Result(r, success))
      modifies this, tokens
      ensures Now() == Next(old(Now()), Result(r, success))
      ensures runs[r].resultHandled || old(runs[r].finished)
      ensures outcomes == old(outcomes) + if old(runs[r].finished || runs[r].resultHandled) then [] else [Outcome(r, success)]
    {
      if runs[r].finished || runs[r].resultHandled {
        return;
      }
      runs := runs[r := runs[r].(resultHandled := true)];
      FinishRun(r, success);
    }

    method OnTimeout(r: RunId)
      requires Enabled(Now(), Timeout(r))
      modifies this, tokens
      ensures Now() == Next(old(Now()), Timeout(r))
      ensures runs[r].finished && calls == old(calls)
      ensures outcomes == old(outcomes) + if old(runs[r].finished) then [] else [Outcome(r, false)]
    {
      FinishRun(r, false);
    }

    /** `cancel`, through `requestCancel`: the run stays locked. */
    method RequestCancel(r: RunId)
      requires Enabled(Now(), Cancel(r))
      modifies this`runs
      ensures Now() == Next(old(Now()), Cancel(r))
      ensures runs == if r in registered && !old(runs[r].finished)
        then old(runs)[r := old(runs[r]).(cancelRequested := true)]
        else old(runs)
    {
      if r in registered && !runs[r].finished {
        runs := runs[r := runs[r].(cancelRequested := true)];
      }
    }

    /** A release row goes, unless a deploy uses it. */
    method DeleteRelease(id: ReleaseId) returns (ok: bool)
      modifies this`ready
      ensures ok == Enabled(old(Now()), ReleaseDeleted(id))
      ensures Now() == if ok then Next(old(Now()), ReleaseDeleted(id)) else old(Now())
    {
      var busy := ReleaseIsBusy(id);
      ok := !busy;
      if ok {
        ready := ready - {id};
      }
    }

    /** A token is presented for a download. */
    method PresentToken(h: Hash, artifactId: string, agentId: Option<string>, now: int) returns (granted: bool)
      modifies tokens
      ensures Now() == Next(old(Now()), Download(h, artifactId, agentId, now))
      ensures granted == Grants(old(tokens.tokens), Presented(h, artifactId, agentId, now))
    {
      granted := tokens.Consume(h, artifactId, agentId, now);
    }

    ghost predicate Valid()
      reads this, tokens
    {
      Sound(Now())
    }

    /** The stretch of a call that comes next. */
    method StepCall(e: Event)
      requires Enabled(Now(), e) && (e.PrepareFails? || e.SessionFails? || e.Sent? || e.SendFails? || e.Return?)
      modifies this, tokens
      ensures Now() == Next(old(Now()), e)
    {
      match e
      case PrepareFails(c) => FailPreparation(c, calls[c].target);
      case SessionFails(c) => FailSession(c, calls[c].target);
      case Sent(c) => CommandSent(c, calls[c].stage.run);
      case SendFails(c) => CommandFailed(c, calls[c].stage.run);
      case Return(c) => LeaveCall(c, calls[c].target);
    }

    /** What happens to a run from outside. */
    method StepRun(e: Event)
      requires Enabled(Now(), e) && (e.Result? || e.Timeout? || e.Cancel?)
      modifies this, tokens
      ensures Now() == Next(old(Now()), e)
    {
      match e
      case Result(r, success) => HandleResult(r, success);
      case Timeout(r) => OnTimeout(r);
      case Cancel(r) => RequestCancel(r);
    }

    method Handle(e: Event)
      requires Enabled(Now(), e)
      modifies this, tokens
      ensures Now() == Next(old(Now()), e)
    {
      if e.Reserve? {
        var _ := ReservePreparation(e.call, e.target, e.release);
      } else if e.Begin? {
        StartRun(e.call, calls[e.call].target, calls[e.call].stage.wanted, e.run, e.issues, e.built);
      } else if e.Result? || e.Timeout? || e.Cancel? {
        StepRun(e);
      } else if e.Download? {
        var _ := PresentToken(e.hash, e.artifactId, e.agentId, e.now);
      } else if e.ReleaseSaved? {
        ready := ready[e.id := e.isReady];
      } else if e.TokenStore? {
        failing := e.fails;
      } else if e.ReleaseDeleted? {
        var _ := DeleteRelease(e.id);
      } else {
        StepCall(e);
      }
    }

    /** Any events the service can see: after all of them its tables are sound, and, unless a reservation was erased, exclusive. */
    method Serve(es: seq<Event>)
      requires Valid() && Possible(Now(), es)
      modifies this, tokens
      ensures Valid() && Now() == StateAfter(old(Now()), es)
      ensures old(Ordered(Now()) && NeverErases(Now(), es)) ==> Ordered(Now()) && Exclusive(Now())
      decreases |es|
    {
      ghost var before := Now();
      if es != [] {
        StepKeepsSound(before, es[0]);
        Handle(es[0]);
        Serve(es[1..]);
      }
      if Ordered(before) && NeverErases(before, es) {
        OneDeployPerTarget(before, es);
      }
    }
  }
}
