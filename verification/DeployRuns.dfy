/**
 * The life of artifact deploys: a target is reserved, a run holds its lock, and one end of the run
 * does the terminal bookkeeping (backend/src/core/artifacts/artifactDeployService.js).
 *
 * An event is one stretch of code between two awaits. A run object is named by its deployment id, a
 * call of `deploy`, `rollback` or `applyConfig` by a number.
 */
module DeployRuns {
  import opened Wrappers
  import opened DownloadTokens

  type TargetId = string
  type ReleaseId = string
  type RunId = string
  type CallId = nat

  datatype Run = Run(target: TargetId, release: Option<ReleaseId>, finished: bool, resultHandled: bool, cancelRequested: bool, timer: bool)

  /** Where a call is: before `startRun`, inside it, or past it with its `finally` still to come. */
  datatype Stage = Preparing(wanted: Option<ReleaseId>) | Starting(run: RunId) | Ending(started: Option<RunId>)

  datatype Call = Call(target: TargetId, stage: Stage)

  datatype Outcome = Outcome(run: RunId, success: bool)

  /**
   * `runs` are all run objects, `registered` the keys of the service's `runs` map; `ready` the release
   * rows; `unrevoked` the ended runs whose tokens could not be revoked, `failing` while they cannot.
   */
  datatype State = State(
    active: map<TargetId, RunId>,
    preparing: map<TargetId, Option<ReleaseId>>,
    registered: set<RunId>,
    runs: map<RunId, Run>,
    calls: map<CallId, Call>,
    tokens: Tokens,
    ready: map<ReleaseId, bool>,
    outcomes: seq<Outcome>,
    unrevoked: set<RunId>,
    failing: bool)

  datatype Issue = Issue(hash: Hash, artifactId: string, agentId: Option<string>, now: int)

  datatype Event =
    | Reserve(call: CallId, target: TargetId, release: Option<ReleaseId>)
    | PrepareFails(call: CallId)
    | SessionFails(call: CallId)
    | Begin(call: CallId, run: RunId, issues: seq<Issue>, built: bool)
    | Sent(call: CallId)
    | SendFails(call: CallId)
    | Return(call: CallId)
    | Result(run: RunId, success: bool)
    | Timeout(run: RunId)
    | Cancel(run: RunId)
    | Download(hash: Hash, artifactId: string, agentId: Option<string>, now: int)
    | ReleaseSaved(id: ReleaseId, isReady: bool)
    | ReleaseDeleted(id: ReleaseId)
    | TokenStore(fails: bool)

  const EMPTY := State(map[], map[], {}, map[], map[], map[], map[], [], {}, false)

  // ------------------------------------------------------------------- the steps

  predicate Locked(s: State, t: TargetId) {
    t in s.active || t in s.preparing
  }

  function RunOf(stage: Stage): Option<RunId> {
    match stage
    case Preparing(_) => None
    case Starting(run) => Some(run)
    case Ending(started) => started
  }

  predicate Unfinished(s: State, r: RunId) {
    r in s.runs && !s.runs[r].finished
  }

  /** `finish`; a revocation that fails is logged, and the run ends all the same. */
  function Finish(s: State, r: RunId, success: bool): State
    requires r in s.runs
  {
    var run := s.runs[r];
    if run.finished then s
    else
      s.(runs := s.runs[r := run.(finished := true, timer := false)],
         active := if run.target in s.active && s.active[run.target] == r then s.active - {run.target} else s.active,
         registered := s.registered - {r},
         tokens := if s.failing then s.tokens else Revoke(s.tokens, r),
         unrevoked := if s.failing then s.unrevoked + {r} else s.unrevoked,
         outcomes := s.outcomes + [Outcome(r, success)])
  }

  function IssueAll(ts: Tokens, r: RunId, issues: seq<Issue>): Tokens
    decreases |issues|
  {
    if issues == [] then ts
    else
      var last := issues[|issues| - 1];
      After(IssueAll(ts, r, issues[..|issues| - 1]), r, last)
  }

  function After(ts: Tokens, r: RunId, i: Issue): Tokens {
    DownloadTokens.After(ts, Issued(i.hash, i.artifactId, i.agentId, Some(r), i.now))
  }

  /** One token per component, of this run; a row that is over when another is issued goes. */
  lemma OneMoreToken(ts: Tokens, r: RunId, issues: seq<Issue>, i: Issue)
    ensures IssueAll(ts, r, []) == ts
    ensures var before, after := IssueAll(ts, r, issues), IssueAll(ts, r, issues + [i]);
      && i.hash in after && after[i.hash] == Token(i.artifactId, i.agentId, Some(r), i.now + 1800000, 5, 0)
      && (forall h | h != i.hash :: h in after <==> h in before && before[h].expiresAt > i.now)
      && (forall h | h != i.hash && h in after :: after[h] == before[h])
  {
    assert (issues + [i])[..|issues|] == issues;
  }

  /** `isReleaseBusy` */
  predicate IsReleaseBusy(s: State, id: ReleaseId) {
    || (exists t | t in s.active :: s.active[t] in s.runs && !s.runs[s.active[t]].finished && s.runs[s.active[t]].release == Some(id))
    || (exists t | t in s.preparing :: s.preparing[t] == Some(id))
  }

  predicate IsReady(s: State, release: Option<ReleaseId>) {
    release.Some? ==> release.value in s.ready && s.ready[release.value]
  }

  /** A step that the source can take. */
  predicate Enabled(s: State, e: Event) {
    match e
    case Reserve(c, _, release) => c !in s.calls && IsReady(s, release)
    case PrepareFails(c) => c in s.calls && s.calls[c].stage.Preparing?
    case SessionFails(c) => c in s.calls && s.calls[c].stage.Preparing?
    case Begin(c, r, _, _) => c in s.calls && s.calls[c].stage.Preparing? && IsReady(s, s.calls[c].stage.wanted) && r !in s.runs
    case Sent(c) => c in s.calls && s.calls[c].stage.Starting? && s.calls[c].stage.run in s.runs
    case SendFails(c) => c in s.calls && s.calls[c].stage.Starting? && s.calls[c].stage.run in s.runs
    case Return(c) => c in s.calls && s.calls[c].stage.Ending?
    case Result(r, _) => r in s.runs
    case Timeout(r) => r in s.runs && s.runs[r].timer
    case Cancel(r) => r in s.runs
    case Download(_, _, _, _) => true
    case ReleaseSaved(_, _) => true
    case ReleaseDeleted(id) => !IsReleaseBusy(s, id)
    case TokenStore(_) => true
  }

  function Started(s: State, c: CallId, r: RunId, issues: seq<Issue>): State
    requires c in s.calls && s.calls[c].stage.Preparing?
  {
    var t := s.calls[c].target;
    s.(preparing := s.preparing - {t},
       active := s.active[t := r],
       registered := s.registered + {r},
       runs := s.runs[r := Run(t, s.calls[c].stage.wanted, false, false, false, false)],
       calls := s.calls[c := Call(t, Starting(r))],
       tokens := IssueAll(s.tokens, r, issues))
  }

  function End(s: State, c: CallId, started: Option<RunId>): State
    requires c in s.calls
  {
    s.(calls := s.calls[c := Call(s.calls[c].target, Ending(started))])
  }

  function Next(s: State, e: Event): State
    requires Enabled(s, e)
  {
    match e
    case Reserve(c, t, release) =>
      if Locked(s, t) then s
      else s.(preparing := s.preparing[t := release], calls := s.calls[c := Call(t, Preparing(release))])
    case PrepareFails(c) => s.(preparing := s.preparing - {s.calls[c].target}, calls := s.calls - {c})
    case SessionFails(c) =>
      var t := s.calls[c].target;
      End(s.(preparing := s.preparing - {t}, active := s.active - {t}), c, None)
    case Begin(c, r, issues, built) =>
      var s' := Started(s, c, r, issues);
      if built then s' else End(Finish(s', r, false), c, Some(r))
    case Sent(c) =>
      var r := s.calls[c].stage.run;
      End(if s.runs[r].finished then s else s.(runs := s.runs[r := s.runs[r].(timer := true)]), c, Some(r))
    case SendFails(c) => End(Finish(s, s.calls[c].stage.run, false), c, Some(s.calls[c].stage.run))
    case Return(c) => s.(preparing := s.preparing - {s.calls[c].target}, calls := s.calls - {c})
    case Result(r, success) =>
      if s.runs[r].finished || s.runs[r].resultHandled then s
      else Finish(s.(runs := s.runs[r := s.runs[r].(resultHandled := true)]), r, success)
    case Timeout(r) => Finish(s, r, false)
    case Cancel(r) =>
      if r in s.registered && !s.runs[r].finished then s.(runs := s.runs[r := s.runs[r].(cancelRequested := true)]) else s
    case Download(h, artifactId, agentId, now) =>
      s.(tokens := DownloadTokens.After(s.tokens, Presented(h, artifactId, agentId, now)))
    case ReleaseSaved(id, isReady) => s.(ready := s.ready[id := isReady])
    case ReleaseDeleted(id) => s.(ready := s.ready - {id})
    case TokenStore(fails) => s.(failing := fails)
  }

  predicate Possible(s: State, es: seq<Event>)
    decreases |es|
  {
    es == [] || (Enabled(s, es[0]) && Possible(Next(s, es[0]), es[1..]))
  }

  function StateAfter(s: State, es: seq<Event>): State
    requires Possible(s, es)
    decreases |es|
  {
    if es == [] then s else StateAfter(Next(s, es[0]), es[1..])
  }

  // ---------------------------------------------------- what every run of events keeps

  function Ends(outcomes: seq<Outcome>, r: RunId): nat {
    if outcomes == [] then 0 else (if outcomes[0].run == r then 1 else 0) + Ends(outcomes[1..], r)
  }

  lemma {:induction false} EndsAppend(outcomes: seq<Outcome>, o: Outcome, r: RunId)
    ensures Ends(outcomes + [o], r) == Ends(outcomes, r) + (if o.run == r then 1 else 0)
  {
    if outcomes == [] {
      assert outcomes + [o] == [o];
    } else {
      assert (outcomes + [o])[1..] == outcomes[1..] + [o];
      EndsAppend(outcomes[1..], o, r);
    }
  }

  /** A lock is of an unfinished run on that target. */
  ghost predicate LocksOk(s: State) {
    && (forall t | t in s.active :: Unfinished(s, s.active[t]) && s.runs[s.active[t]].target == t)
    && (forall r :: r in s.registered <==> Unfinished(s, r))
  }

  ghost predicate IsStarting(s: State, c: CallId, r: RunId) {
    c in s.calls && s.calls[c].stage == Starting(r)
  }

  /** A run that goes on has a timer, or its call is still starting it. */
  ghost predicate TimersOk(s: State) {
    && (forall r | r in s.runs && s.runs[r].finished :: !s.runs[r].timer)
    && (forall r | Unfinished(s, r) :: s.runs[r].timer || exists c :: IsStarting(s, c, r))
  }

  /** No two calls have a run in common. */
  ghost predicate CallsOk(s: State) {
    && (forall c | c in s.calls && RunOf(s.calls[c].stage).Some? ::
          RunOf(s.calls[c].stage).value in s.runs && s.runs[RunOf(s.calls[c].stage).value].target == s.calls[c].target)
    && (forall c, d | c in s.calls && d in s.calls && c != d && RunOf(s.calls[c].stage).Some? ::
          RunOf(s.calls[c].stage) != RunOf(s.calls[d].stage))
  }

  /** A token of a deployment is of one that goes on, or could not be revoked, and is not overused. */
  ghost predicate TokensOk(s: State) {
    && WithinUses(s.tokens)
    && forall h | h in s.tokens && s.tokens[h].deploymentId.Some? :: s.tokens[h].deploymentId.value in s.registered + s.unrevoked
  }

  /** A run ends once: none of its ends before it is finished, one after. */
  ghost predicate EndsOk(s: State) {
    forall r :: Ends(s.outcomes, r) == if r in s.runs && s.runs[r].finished then 1 else 0
  }

  ghost predicate Sound(s: State) {
    LocksOk(s) && TimersOk(s) && CallsOk(s) && TokensOk(s) && EndsOk(s)
  }

  /** Only the tables of tokens and releases have to do with these. */
  predicate OfTables(e: Event) {
    e.Download? || e.ReleaseSaved? || e.ReleaseDeleted? || e.TokenStore?
  }

  lemma TablesAside(s: State, e: Event)
    requires Enabled(s, e) && OfTables(e)
    ensures var s' := Next(s, e);
      s'.active == s.active && s'.preparing == s.preparing && s'.registered == s.registered && s'.runs == s.runs
      && s'.calls == s.calls && s'.outcomes == s.outcomes && s'.unrevoked == s.unrevoked
      && (e.ReleaseDeleted? || s.ready.Keys <= s'.ready.Keys)
  {
  }

  lemma TablesKeepLocks(s: State, e: Event)
    requires LocksOk(s) && Enabled(s, e) && OfTables(e)
    ensures LocksOk(Next(s, e))
  {
    TablesAside(s, e);
    LocksStay(s, Next(s, e));
  }

  lemma TablesKeepCalls(s: State, e: Event)
    requires CallsOk(s) && Enabled(s, e) && OfTables(e)
    ensures CallsOk(Next(s, e))
  {
    TablesAside(s, e);
    CallsStay(s, Next(s, e));
  }

  lemma TablesKeepTimers(s: State, e: Event)
    requires TimersOk(s) && Enabled(s, e) && OfTables(e)
    ensures TimersOk(Next(s, e))
  {
    TablesAside(s, e);
    RunsMarked(s, Next(s, e));
  }

  lemma FinishKeepsLocks(s: State, r: RunId, success: bool)
    requires LocksOk(s) && r in s.runs
    ensures LocksOk(Finish(s, r, success))
  {
  }

  lemma FinishKeepsEnds(s: State, r: RunId, success: bool)
    requires EndsOk(s) && r in s.runs
    ensures EndsOk(Finish(s, r, success))
  {
    if !s.runs[r].finished {
      forall q ensures Ends(s.outcomes + [Outcome(r, success)], q) == Ends(s.outcomes, q) + (if q == r then 1 else 0) {
        EndsAppend(s.outcomes, Outcome(r, success), q);
      }
    }
  }

  lemma {:induction false} IssuingKeepsTokens(ts: Tokens, registered: set<RunId>, r: RunId, issues: seq<Issue>)
    requires WithinUses(ts) && r in registered
    requires forall h | h in ts && ts[h].deploymentId.Some? :: ts[h].deploymentId.value in registered
    ensures WithinUses(IssueAll(ts, r, issues))
    ensures forall h | h in IssueAll(ts, r, issues) && IssueAll(ts, r, issues)[h].deploymentId.Some? ::
      IssueAll(ts, r, issues)[h].deploymentId.value in registered
    decreases |issues|
  {
    if issues != [] {
      IssuingKeepsTokens(ts, registered, r, issues[..|issues| - 1]);
    }
  }

  lemma BeginKeepsLocks(s: State, c: CallId, r: RunId, issues: seq<Issue>, built: bool)
    requires LocksOk(s) && Enabled(s, Begin(c, r, issues, built))
    ensures LocksOk(Next(s, Begin(c, r, issues, built)))
  {
    FinishKeepsLocks(Started(s, c, r, issues), r, false);
  }

  lemma ResultKeepsLocks(s: State, r: RunId, success: bool)
    requires LocksOk(s) && Enabled(s, Result(r, success))
    ensures LocksOk(Next(s, Result(r, success)))
  {
    var marked := s.(runs := s.runs[r := s.runs[r].(resultHandled := true)]);
    LocksStay(s, marked);
    FinishKeepsLocks(marked, r, success);
  }

  lemma LocksStay(s: State, s': State)
    requires LocksOk(s) && s'.registered == s.registered && s'.runs.Keys == s.runs.Keys
    requires forall t | t in s'.active :: t in s.active && s'.active[t] == s.active[t]
    requires forall r | r in s.runs :: s'.runs[r].finished == s.runs[r].finished && s'.runs[r].target == s.runs[r].target
    ensures LocksOk(s')
  {
  }

  /** The one thing that happens to a run is that it gets its timer. */
  lemma SentAside(s: State, c: CallId)
    requires Enabled(s, Sent(c))
    ensures var s' := Next(s, Sent(c)); var r := s.calls[c].stage.run;
      s'.active == s.active && s'.registered == s.registered
      && s'.runs == if s.runs[r].finished then s.runs else s.runs[r := s.runs[r].(timer := true)]
  {
  }

  lemma SentKeepsLocks(s: State, c: CallId)
    requires LocksOk(s) && Enabled(s, Sent(c))
    ensures LocksOk(Next(s, Sent(c)))
  {
    var s' := Next(s, Sent(c));
    SentAside(s, c);
    assert s'.runs.Keys == s.runs.Keys;
    LocksStay(s, s');
  }

  lemma CancelKeepsLocks(s: State, r: RunId)
    requires LocksOk(s) && Enabled(s, Cancel(r))
    ensures LocksOk(Next(s, Cancel(r)))
  {
    LocksStay(s, Next(s, Cancel(r)));
  }

  lemma CallKeepsLocks(s: State, e: Event)
    requires LocksOk(s) && Enabled(s, e) && (e.Reserve? || e.PrepareFails? || e.SessionFails? || e.Return?)
    ensures LocksOk(Next(s, e))
  {
    LocksStay(s, Next(s, e));
  }

  lemma StepKeepsLocks(s: State, e: Event)
    requires LocksOk(s) && Enabled(s, e)
    ensures LocksOk(Next(s, e))
  {
    match e
    case Begin(c, r, issues, built) => BeginKeepsLocks(s, c, r, issues, built);
    case SendFails(c) => FinishKeepsLocks(s, s.calls[c].stage.run, false);
    case Result(r, success) => ResultKeepsLocks(s, r, success);
    case Timeout(r) => FinishKeepsLocks(s, r, false);
    case Sent(c) => SentKeepsLocks(s, c);
    case Cancel(r) => CancelKeepsLocks(s, r);
    case _ => if OfTables(e) { TablesKeepLocks(s, e); } else { CallKeepsLocks(s, e); }
  }

  ghost predicate RunsKept(s: State, s': State) {
    forall r | r in s.runs :: r in s'.runs && s'.runs[r].target == s.runs[r].target && s'.runs[r].release == s.runs[r].release
  }

  lemma FinishKeepsRuns(s: State, r: RunId, success: bool)
    requires r in s.runs
    ensures RunsKept(s, Finish(s, r, success))
  {
  }

  lemma BeginKeepsRuns(s: State, c: CallId, r: RunId, issues: seq<Issue>, built: bool)
    requires Enabled(s, Begin(c, r, issues, built))
    ensures RunsKept(s, Next(s, Begin(c, r, issues, built)))
  {
    FinishKeepsRuns(Started(s, c, r, issues), r, false);
  }

  lemma ResultKeepsRuns(s: State, r: RunId, success: bool)
    requires Enabled(s, Result(r, success))
    ensures RunsKept(s, Next(s, Result(r, success)))
  {
    FinishKeepsRuns(s.(runs := s.runs[r := s.runs[r].(resultHandled := true)]), r, success);
  }

  lemma SentKeepsRuns(s: State, c: CallId)
    requires Enabled(s, Sent(c))
    ensures RunsKept(s, Next(s, Sent(c)))
  {
  }

  lemma CancelKeepsRuns(s: State, r: RunId)
    requires Enabled(s, Cancel(r))
    ensures RunsKept(s, Next(s, Cancel(r)))
  {
    var runs := Next(s, Cancel(r)).runs;
    assert forall q | q in s.runs && q != r :: q in runs && runs[q] == s.runs[q];
  }

  lemma OthersKeepRuns(s: State, e: Event)
    requires Enabled(s, e) && !e.Begin? && !e.Sent? && !e.SendFails? && !e.Result? && !e.Timeout? && !e.Cancel?
    ensures Next(s, e).runs == s.runs
  {
  }

  lemma StepKeepsRuns(s: State, e: Event)
    requires Enabled(s, e)
    ensures RunsKept(s, Next(s, e))
  {
    match e
    case Begin(c, r, issues, built) => BeginKeepsRuns(s, c, r, issues, built);
    case SendFails(c) => FinishKeepsRuns(s, s.calls[c].stage.run, false);
    case Timeout(r) => FinishKeepsRuns(s, r, false);
    case Result(r, success) => ResultKeepsRuns(s, r, success);
    case Sent(c) => SentKeepsRuns(s, c);
    case Cancel(r) => CancelKeepsRuns(s, r);
    case _ => OthersKeepRuns(s, e);
  }

  lemma OneCallMoves(s: State, s': State, c: CallId, call: Call)
    requires CallsOk(s) && RunsKept(s, s') && s'.calls == s.calls[c := call]
    requires RunOf(call.stage).Some? ==> RunOf(call.stage).value in s'.runs && s'.runs[RunOf(call.stage).value].target == call.target
    requires forall d | d in s.calls && d != c && RunOf(call.stage).Some? :: RunOf(s.calls[d].stage) != RunOf(call.stage)
    ensures CallsOk(s')
  {
  }

  lemma CallsStay(s: State, s': State)
    requires CallsOk(s) && RunsKept(s, s') && s'.calls.Keys <= s.calls.Keys
    requires forall c | c in s'.calls :: s'.calls[c] == s.calls[c]
    ensures CallsOk(s')
  {
  }

  lemma NewRunIsNoOnes(s: State, r: RunId)
    requires CallsOk(s) && r !in s.runs
    ensures forall d | d in s.calls :: RunOf(s.calls[d].stage) != Some(r)
  {
  }

  lemma CallStarts(s: State, c: CallId, r: RunId, issues: seq<Issue>, stage: Stage, s': State)
    requires CallsOk(s) && c in s.calls && s.calls[c].stage.Preparing? && r !in s.runs && RunOf(stage) == Some(r)
    requires RunsKept(Started(s, c, r, issues), s') && s'.calls == s.calls[c := Call(s.calls[c].target, stage)]
    ensures CallsOk(s')
  {
    NewRunIsNoOnes(s, r);
    OneCallMoves(s, s', c, Call(s.calls[c].target, stage));
  }

  lemma BeginKeepsCalls(s: State, c: CallId, r: RunId, issues: seq<Issue>, built: bool)
    requires CallsOk(s) && Enabled(s, Begin(c, r, issues, built))
    ensures CallsOk(Next(s, Begin(c, r, issues, built)))
  {
    var s' := Next(s, Begin(c, r, issues, built));
    StepKeepsRuns(s, Begin(c, r, issues, built));
    assert s'.calls == s.calls[c := s'.calls[c]];
    CallStarts(s, c, r, issues, s'.calls[c].stage, s');
  }

  lemma ReserveKeepsCalls(s: State, c: CallId, t: TargetId, release: Option<ReleaseId>)
    requires CallsOk(s) && Enabled(s, Reserve(c, t, release))
    ensures CallsOk(Next(s, Reserve(c, t, release)))
  {
    if !Locked(s, t) {
      OneCallMoves(s, Next(s, Reserve(c, t, release)), c, Call(t, Preparing(release)));
    }
  }

  lemma SessionFailureKeepsCalls(s: State, c: CallId)
    requires CallsOk(s) && Enabled(s, SessionFails(c))
    ensures CallsOk(Next(s, SessionFails(c)))
  {
    OneCallMoves(s, Next(s, SessionFails(c)), c, Call(s.calls[c].target, Ending(None)));
  }

  lemma SendingKeepsCalls(s: State, e: Event)
    requires CallsOk(s) && Enabled(s, e) && (e.Sent? || e.SendFails?)
    ensures CallsOk(Next(s, e))
  {
    StepKeepsRuns(s, e);
    OneCallMoves(s, Next(s, e), e.call, Call(s.calls[e.call].target, Ending(Some(s.calls[e.call].stage.run))));
  }

  lemma OthersKeepCalls(s: State, e: Event)
    requires CallsOk(s) && Enabled(s, e)
    requires e.PrepareFails? || e.Return? || e.Result? || e.Timeout? || e.Cancel?
    ensures CallsOk(Next(s, e))
  {
    StepKeepsRuns(s, e);
    CallsStay(s, Next(s, e));
  }

  lemma StepKeepsCalls(s: State, e: Event)
    requires CallsOk(s) && Enabled(s, e)
    ensures CallsOk(Next(s, e))
  {
    match e
    case Begin(c, r, issues, built) => BeginKeepsCalls(s, c, r, issues, built);
    case Reserve(c, t, release) => ReserveKeepsCalls(s, c, t, release);
    case SessionFails(c) => SessionFailureKeepsCalls(s, c);
    case Sent(_) => SendingKeepsCalls(s, e);
    case SendFails(_) => SendingKeepsCalls(s, e);
    case _ => if OfTables(e) { TablesKeepCalls(s, e); } else { OthersKeepCalls(s, e); }
  }

  lemma FinishKeepsTimers(s: State, r: RunId, success: bool)
    requires TimersOk(s) && r in s.runs
    ensures TimersOk(Finish(s, r, success))
  {
    var s' := Finish(s, r, success);
    forall q | Unfinished(s', q) && !s'.runs[q].timer ensures exists c :: IsStarting(s', c, q) {
      var c :| IsStarting(s, c, q);
      assert IsStarting(s', c, q);
    }
  }

  /** A call leaves `startRun` with its run finished or timed. */
  lemma EndKeepsTimers(s: State, s': State, c: CallId)
    requires TimersOk(s) && s'.runs == s.runs && c in s.calls
    requires forall d | d in s.calls && d != c :: d in s'.calls && s'.calls[d] == s.calls[d]
    requires s.calls[c].stage.Starting? ==>
      forall r | IsStarting(s, c, r) && Unfinished(s, r) :: s.runs[r].timer
    ensures TimersOk(s')
  {
    forall q | Unfinished(s', q) && !s'.runs[q].timer ensures exists d :: IsStarting(s', d, q) {
      var d :| IsStarting(s, d, q);
      assert IsStarting(s', d, q);
    }
  }

  lemma StartKeepsTimers(s: State, c: CallId, r: RunId, issues: seq<Issue>)
    requires TimersOk(s) && c in s.calls && s.calls[c].stage.Preparing? && r !in s.runs
    ensures TimersOk(Started(s, c, r, issues))
  {
    var s' := Started(s, c, r, issues);
    forall q | Unfinished(s', q) && !s'.runs[q].timer ensures exists d :: IsStarting(s', d, q) {
      if q == r {
        assert IsStarting(s', c, q);
      } else {
        var d :| IsStarting(s, d, q);
        assert IsStarting(s', d, q);
      }
    }
  }

  /** The runs change in what timers do not depend on, or a timer is set. */
  lemma RunsMarked(s: State, s': State)
    requires TimersOk(s) && s'.calls == s.calls && s'.runs.Keys == s.runs.Keys
    requires forall r | r in s.runs :: s'.runs[r].finished == s.runs[r].finished
    requires forall r | r in s.runs :: s'.runs[r].timer == s.runs[r].timer || (s'.runs[r].timer && !s'.runs[r].finished)
    ensures TimersOk(s')
  {
    forall q | Unfinished(s', q) && !s'.runs[q].timer ensures exists d :: IsStarting(s', d, q) {
      var d :| IsStarting(s, d, q);
      assert IsStarting(s', d, q);
    }
  }

  lemma CallAdded(s: State, s': State, c: CallId)
    requires TimersOk(s) && s'.runs == s.runs && c !in s.calls
    requires forall d | d in s.calls :: d in s'.calls && s'.calls[d] == s.calls[d]
    ensures TimersOk(s')
  {
    forall q | Unfinished(s', q) && !s'.runs[q].timer ensures exists d :: IsStarting(s', d, q) {
      var d :| IsStarting(s, d, q);
      assert IsStarting(s', d, q);
    }
  }

  lemma BeginKeepsTimers(s: State, c: CallId, r: RunId, issues: seq<Issue>, built: bool)
    requires TimersOk(s) && Enabled(s, Begin(c, r, issues, built))
    ensures TimersOk(Next(s, Begin(c, r, issues, built)))
  {
    var started := Started(s, c, r, issues);
    StartKeepsTimers(s, c, r, issues);
    if !built {
      FinishKeepsTimers(started, r, false);
      EndKeepsTimers(Finish(started, r, false), Next(s, Begin(c, r, issues, built)), c);
    }
  }

  lemma SentKeepsTimers(s: State, c: CallId)
    requires TimersOk(s) && Enabled(s, Sent(c))
    ensures TimersOk(Next(s, Sent(c)))
  {
    var r := s.calls[c].stage.run;
    var timed := if s.runs[r].finished then s else s.(runs := s.runs[r := s.runs[r].(timer := true)]);
    RunsMarked(s, timed);
    EndKeepsTimers(timed, Next(s, Sent(c)), c);
  }

  lemma SendFailureKeepsTimers(s: State, c: CallId)
    requires TimersOk(s) && Enabled(s, SendFails(c))
    ensures TimersOk(Next(s, SendFails(c)))
  {
    var r := s.calls[c].stage.run;
    FinishKeepsTimers(s, r, false);
    EndKeepsTimers(Finish(s, r, false), Next(s, SendFails(c)), c);
  }

  lemma ResultKeepsTimers(s: State, r: RunId, success: bool)
    requires TimersOk(s) && Enabled(s, Result(r, success))
    ensures TimersOk(Next(s, Result(r, success)))
  {
    var marked := s.(runs := s.runs[r := s.runs[r].(resultHandled := true)]);
    RunsMarked(s, marked);
    FinishKeepsTimers(marked, r, success);
  }

  lemma ReserveKeepsTimers(s: State, c: CallId, t: TargetId, release: Option<ReleaseId>)
    requires TimersOk(s) && Enabled(s, Reserve(c, t, release))
    ensures TimersOk(Next(s, Reserve(c, t, release)))
  {
    CallAdded(s, Next(s, Reserve(c, t, release)), c);
  }

  lemma CancelKeepsTimers(s: State, r: RunId)
    requires TimersOk(s) && Enabled(s, Cancel(r))
    ensures TimersOk(Next(s, Cancel(r)))
  {
    RunsMarked(s, Next(s, Cancel(r)));
  }

  lemma CallEndKeepsTimers(s: State, e: Event)
    requires TimersOk(s) && Enabled(s, e) && (e.PrepareFails? || e.SessionFails? || e.Return?)
    ensures TimersOk(Next(s, e))
  {
    EndKeepsTimers(s, Next(s, e), e.call);
  }

  lemma StepKeepsTimers(s: State, e: Event)
    requires TimersOk(s) && Enabled(s, e)
    ensures TimersOk(Next(s, e))
  {
    match e
    case Begin(c, r, issues, built) => BeginKeepsTimers(s, c, r, issues, built);
    case Sent(c) => SentKeepsTimers(s, c);
    case SendFails(c) => SendFailureKeepsTimers(s, c);
    case Result(r, success) => ResultKeepsTimers(s, r, success);
    case Timeout(r) => FinishKeepsTimers(s, r, false);
    case Reserve(c, t, release) => ReserveKeepsTimers(s, c, t, release);
    case Cancel(r) => CancelKeepsTimers(s, r);
    case _ => if OfTables(e) { TablesKeepTimers(s, e); } else { CallEndKeepsTimers(s, e); }
  }

  lemma FinishKeepsTokens(s: State, r: RunId, success: bool)
    requires TokensOk(s) && r in s.runs
    ensures TokensOk(Finish(s, r, success))
  {
  }

  lemma BeginKeepsTokens(s: State, c: CallId, r: RunId, issues: seq<Issue>, built: bool)
    requires TokensOk(s) && Enabled(s, Begin(c, r, issues, built))
    ensures TokensOk(Next(s, Begin(c, r, issues, built)))
  {
    IssuingKeepsTokens(s.tokens, s.registered + {r} + s.unrevoked, r, issues);
    FinishKeepsTokens(Started(s, c, r, issues), r, false);
  }

  lemma EndKeepsTokens(s: State, e: Event)
    requires TokensOk(s) && Enabled(s, e) && (e.SendFails? || e.Timeout? || e.Result?)
    ensures TokensOk(Next(s, e))
  {
    if e.SendFails? {
      FinishKeepsTokens(s, s.calls[e.call].stage.run, false);
    } else if e.Timeout? {
      FinishKeepsTokens(s, e.run, false);
    } else {
      FinishKeepsTokens(s.(runs := s.runs[e.run := s.runs[e.run].(resultHandled := true)]), e.run, e.success);
    }
  }

  lemma OthersKeepTokens(s: State, e: Event)
    requires TokensOk(s) && Enabled(s, e) && !e.Begin? && !e.SendFails? && !e.Timeout? && !e.Result?
    ensures TokensOk(Next(s, e))
  {
  }

  lemma StepKeepsTokens(s: State, e: Event)
    requires TokensOk(s) && Enabled(s, e)
    ensures TokensOk(Next(s, e))
  {
    match e
    case Begin(c, r, issues, built) => BeginKeepsTokens(s, c, r, issues, built);
    case SendFails(_) => EndKeepsTokens(s, e);
    case Timeout(_) => EndKeepsTokens(s, e);
    case Result(_, _) => EndKeepsTokens(s, e);
    case _ => OthersKeepTokens(s, e);
  }

  lemma BeginKeepsEnds(s: State, c: CallId, r: RunId, issues: seq<Issue>, built: bool)
    requires EndsOk(s) && Enabled(s, Begin(c, r, issues, built))
    ensures EndsOk(Next(s, Begin(c, r, issues, built)))
  {
    var started := Started(s, c, r, issues);
    assert EndsOk(started);
    FinishKeepsEnds(started, r, false);
  }

  lemma ResultKeepsEnds(s: State, r: RunId, success: bool)
    requires EndsOk(s) && Enabled(s, Result(r, success))
    ensures EndsOk(Next(s, Result(r, success)))
  {
    var marked := s.(runs := s.runs[r := s.runs[r].(resultHandled := true)]);
    assert EndsOk(marked);
    FinishKeepsEnds(marked, r, success);
  }

  lemma StepKeepsEnds(s: State, e: Event)
    requires EndsOk(s) && Enabled(s, e)
    ensures EndsOk(Next(s, e))
  {
    match e
    case Begin(c, r, issues, built) => BeginKeepsEnds(s, c, r, issues, built);
    case SendFails(c) => FinishKeepsEnds(s, s.calls[c].stage.run, false);
    case Result(r, success) => ResultKeepsEnds(s, r, success);
    case Timeout(r) => FinishKeepsEnds(s, r, false);
    case _ =>
  }

  lemma StepKeepsSound(s: State, e: Event)
    requires Sound(s) && Enabled(s, e)
    ensures Sound(Next(s, e))
  {
    StepKeepsLocks(s, e);
    StepKeepsCalls(s, e);
    StepKeepsTimers(s, e);
    StepKeepsTokens(s, e);
    StepKeepsEnds(s, e);
  }

  /**
   * In any order of results, timeouts, cancels, failures and downloads: every run ends once, locks are
   * of unfinished runs, a lock without a timer is of a call still inside `startRun`, and the tokens of
   * a deployment last no longer than it and are used at most `maxUses` times.
   */
  lemma {:induction false} AlwaysSound(s: State, es: seq<Event>)
    requires Sound(s) && Possible(s, es)
    ensures Sound(StateAfter(s, es))
    decreases |es|
  {
    if es != [] {
      StepKeepsSound(s, es[0]);
      AlwaysSound(Next(s, es[0]), es[1..]);
    }
  }

  predicate NeverFails(es: seq<Event>) {
    forall e | e in es :: e != TokenStore(true)
  }

  lemma StepRevokes(s: State, e: Event)
    requires Enabled(s, e) && !s.failing && e != TokenStore(true)
    ensures !Next(s, e).failing && Next(s, e).unrevoked == s.unrevoked
  {
  }

  /** While revocations succeed, no token outlives its run. */
  lemma {:induction false} AllRevoked(s: State, es: seq<Event>)
    requires Possible(s, es) && !s.failing && NeverFails(es)
    ensures StateAfter(s, es).unrevoked == s.unrevoked
    decreases |es|
  {
    if es != [] {
      assert es[0] in es;
      StepRevokes(s, es[0]);
      assert forall e | e in es[1..] :: e in es;
      AllRevoked(Next(s, es[0]), es[1..]);
    }
  }

  // ------------------------------------------------------------- how a run ends

  /** A successful result for a run that goes on. */
  predicate Succeeds(s: State, e: Event, r: RunId) {
    e == Result(r, true) && r in s.runs && !s.runs[r].finished && !s.runs[r].resultHandled
  }

  predicate SucceedsIn(s: State, es: seq<Event>, r: RunId)
    requires Possible(s, es)
    decreases |es|
  {
    es != [] && (Succeeds(s, es[0], r) || SucceedsIn(Next(s, es[0]), es[1..], r))
  }

  lemma OutcomesAdded(s: State, e: Event, r: RunId)
    requires Enabled(s, e)
    ensures Outcome(r, true) in Next(s, e).outcomes <==> Outcome(r, true) in s.outcomes || Succeeds(s, e, r)
  {
  }

  /** A run is recorded as succeeded exactly when a successful result came while it was going on. */
  lemma {:induction false} SucceededExactly(s: State, es: seq<Event>, r: RunId)
    requires Possible(s, es)
    ensures Outcome(r, true) in StateAfter(s, es).outcomes <==> Outcome(r, true) in s.outcomes || SucceedsIn(s, es, r)
    decreases |es|
  {
    if es != [] {
      OutcomesAdded(s, es[0], r);
      SucceededExactly(Next(s, es[0]), es[1..], r);
    }
  }

  /** From the start of the service on, and for every run of it. */
  lemma EveryRunEndsOnce(es: seq<Event>)
    requires Possible(EMPTY, es)
    ensures var s := StateAfter(EMPTY, es);
      && (forall r :: Ends(s.outcomes, r) == if r in s.runs && s.runs[r].finished then 1 else 0)
      && (forall t | t in s.active :: Unfinished(s, s.active[t])
            && (s.runs[s.active[t]].timer || exists c :: IsStarting(s, c, s.active[t])))
      && (forall h | h in s.tokens && s.tokens[h].deploymentId.Some? ::
            Unfinished(s, s.tokens[h].deploymentId.value) || s.tokens[h].deploymentId.value in s.unrevoked)
      && (NeverFails(es) ==> s.unrevoked == {})
      && (forall h | h in s.tokens :: s.tokens[h].uses <= s.tokens[h].maxUses)
  {
    AlwaysSound(EMPTY, es);
    if NeverFails(es) {
      AllRevoked(EMPTY, es);
    }
  }
}
