/**
 * At most one deploy per target, and what it takes for that: no call may return, with its `finally`,
 * while another call's reservation of the target stands
 * (backend/src/core/artifacts/artifactDeployService.js).
 */
module DeployExclusion {
  import opened Wrappers
  import opened DeployRuns

  ghost predicate IsPreparing(s: State, c: CallId, t: TargetId) {
    c in s.calls && s.calls[c].stage.Preparing? && s.calls[c].target == t
  }

  ghost predicate Runs(s: State, r: RunId, t: TargetId) {
    Unfinished(s, r) && s.runs[r].target == t
  }

  /** At most one preparing call or unfinished run per target. */
  ghost predicate Exclusive(s: State) {
    && (forall c, d, t | IsPreparing(s, c, t) && IsPreparing(s, d, t) :: c == d)
    && (forall r, q, t | Runs(s, r, t) && Runs(s, q, t) :: r == q)
    && (forall c, r, t | IsPreparing(s, c, t) && Runs(s, r, t) :: false)
  }

  /** The reservations are of the calls that prepare, one each, and of targets that are not locked. */
  ghost predicate ReservationsOk(s: State) {
    && (forall c, t | IsPreparing(s, c, t) :: t in s.preparing && s.preparing[t] == s.calls[c].stage.wanted)
    && (forall c, d, t | IsPreparing(s, c, t) && IsPreparing(s, d, t) :: c == d)
    && (forall t | t in s.preparing :: exists c :: IsPreparing(s, c, t))
    && (forall t | t in s.preparing :: t !in s.active)
  }

  /** A run that goes on holds its target's lock. */
  ghost predicate LocksHeld(s: State) {
    forall r, t | Runs(s, r, t) :: t in s.active && s.active[t] == r
  }

  /** The release of a deploy that prepares or goes on is stored. */
  ghost predicate ReleasesKept(s: State) {
    && (forall c, t | IsPreparing(s, c, t) && s.calls[c].stage.wanted.Some? :: s.calls[c].stage.wanted.value in s.ready)
    && (forall r | Unfinished(s, r) && s.runs[r].release.Some? :: s.runs[r].release.value in s.ready)
  }

  ghost predicate Ordered(s: State) {
    LocksOk(s) && ReservationsOk(s) && LocksHeld(s) && ReleasesKept(s)
  }

  lemma OrderedIsExclusive(s: State)
    requires Ordered(s)
    ensures Exclusive(s)
  {
  }

  /** The `finally` of this call deletes a reservation; its own is long gone. */
  predicate Erases(s: State, e: Event) {
    e.Return? && e.call in s.calls && s.calls[e.call].target in s.preparing
  }

  // ---------------------------------------------------------------- one step

  lemma ReservationEnds(s: State, s': State, c: CallId, t: TargetId)
    requires ReservationsOk(s) && IsPreparing(s, c, t)
    requires s'.preparing == s.preparing - {t} && s'.active.Keys <= s.active.Keys + {t}
    requires c in s'.calls ==> !s'.calls[c].stage.Preparing?
    requires forall d | d != c :: (d in s.calls <==> d in s'.calls) && (d in s.calls ==> s'.calls[d] == s.calls[d])
    ensures ReservationsOk(s')
  {
    forall t' | t' in s'.preparing ensures exists d :: IsPreparing(s', d, t') {
      var d :| IsPreparing(s, d, t');
      assert IsPreparing(s', d, t');
    }
    assert forall d, t' | IsPreparing(s', d, t') :: IsPreparing(s, d, t');
  }

  lemma ReservationsStay(s: State, s': State)
    requires ReservationsOk(s) && s'.preparing == s.preparing && s'.active.Keys <= s.active.Keys
    requires forall d | d in s.calls && s.calls[d].stage.Preparing? :: d in s'.calls && s'.calls[d] == s.calls[d]
    requires forall d | d in s'.calls && s'.calls[d].stage.Preparing? :: d in s.calls && s'.calls[d] == s.calls[d]
    ensures ReservationsOk(s')
  {
    forall t | t in s'.preparing ensures exists d :: IsPreparing(s', d, t) {
      var d :| IsPreparing(s, d, t);
      assert IsPreparing(s', d, t);
    }
    assert forall d, t | IsPreparing(s', d, t) :: IsPreparing(s, d, t);
  }

  lemma ReservationMade(s: State, c: CallId, t: TargetId, release: Option<ReleaseId>)
    requires ReservationsOk(s) && c !in s.calls && !Locked(s, t) && IsReady(s, release)
    ensures ReservationsOk(Next(s, Reserve(c, t, release)))
  {
    var s' := Next(s, Reserve(c, t, release));
    forall t' | t' in s'.preparing ensures exists d :: IsPreparing(s', d, t') {
      if t' == t {
        assert IsPreparing(s', c, t);
      } else {
        var d :| IsPreparing(s, d, t');
        assert IsPreparing(s', d, t');
      }
    }
    assert forall d, t' | IsPreparing(s', d, t') && d != c :: IsPreparing(s, d, t');
  }

  lemma BeginEndsReservation(s: State, c: CallId, r: RunId, issues: seq<Issue>, built: bool)
    requires ReservationsOk(s) && Enabled(s, Begin(c, r, issues, built))
    ensures ReservationsOk(Next(s, Begin(c, r, issues, built)))
  {
    ReservationEnds(s, Next(s, Begin(c, r, issues, built)), c, s.calls[c].target);
  }

  lemma FailureEndsReservation(s: State, e: Event)
    requires ReservationsOk(s) && Enabled(s, e) && (e.PrepareFails? || e.SessionFails?)
    ensures ReservationsOk(Next(s, e))
  {
    ReservationEnds(s, Next(s, e), e.call, s.calls[e.call].target);
  }

  lemma SendFailsBesideReservations(s: State, c: CallId)
    requires ReservationsOk(s) && Enabled(s, SendFails(c))
    ensures ReservationsOk(Next(s, SendFails(c)))
  {
    ReservationsStay(s, Next(s, SendFails(c)));
  }

  lemma CallEndsBesideReservations(s: State, e: Event)
    requires ReservationsOk(s) && Enabled(s, e) && !Erases(s, e) && (e.Sent? || e.Return?)
    ensures ReservationsOk(Next(s, e))
  {
    ReservationsStay(s, Next(s, e));
  }

  lemma OthersBesideReservations(s: State, e: Event)
    requires ReservationsOk(s) && Enabled(s, e)
    requires e.Timeout? || e.Cancel?
    ensures ReservationsOk(Next(s, e))
  {
    ReservationsStay(s, Next(s, e));
  }

  lemma ResultAside(s: State, r: RunId, success: bool)
    requires Enabled(s, Result(r, success))
    ensures var s' := Next(s, Result(r, success));
      s'.preparing == s.preparing && s'.calls == s.calls && s'.ready == s.ready && s'.active.Keys <= s.active.Keys
      && forall q | Unfinished(s', q) :: Unfinished(s, q) && s'.runs[q].release == s.runs[q].release
  {
  }

  lemma ResultBesideReservations(s: State, r: RunId, success: bool)
    requires ReservationsOk(s) && Enabled(s, Result(r, success))
    ensures ReservationsOk(Next(s, Result(r, success)))
  {
    var s' := Next(s, Result(r, success));
    ResultAside(s, r, success);
    ReservationsStay(s, s');
  }

  lemma TablesBesideReservations(s: State, e: Event)
    requires ReservationsOk(s) && Enabled(s, e) && OfTables(e)
    ensures ReservationsOk(Next(s, e))
  {
    TablesAside(s, e);
    ReservationsStay(s, Next(s, e));
  }

  lemma StepKeepsReservations(s: State, e: Event)
    requires ReservationsOk(s) && Enabled(s, e) && !Erases(s, e)
    ensures ReservationsOk(Next(s, e))
  {
    match e
    case Reserve(c, t, release) =>
      if !Locked(s, t) { ReservationMade(s, c, t, release); }
    case Begin(c, r, issues, built) => BeginEndsReservation(s, c, r, issues, built);
    case PrepareFails(_) => FailureEndsReservation(s, e);
    case SessionFails(_) => FailureEndsReservation(s, e);
    case Sent(_) => CallEndsBesideReservations(s, e);
    case SendFails(c) => SendFailsBesideReservations(s, c);
    case Return(_) => CallEndsBesideReservations(s, e);
    case Result(r, success) => ResultBesideReservations(s, r, success);
    case _ => if OfTables(e) { TablesBesideReservations(s, e); } else { OthersBesideReservations(s, e); }
  }

  lemma FinishKeepsHeld(s: State, r: RunId, success: bool)
    requires LocksHeld(s) && r in s.runs
    ensures LocksHeld(Finish(s, r, success))
  {
    var s' := Finish(s, r, success);
    assert forall q, t | Runs(s', q, t) :: Runs(s, q, t);
  }

  lemma HeldStays(s: State, s': State)
    requires LocksHeld(s) && s'.active == s.active
    requires forall q | q in s'.runs && !s'.runs[q].finished :: Unfinished(s, q) && s'.runs[q].target == s.runs[q].target
    ensures LocksHeld(s')
  {
    assert forall q, t | Runs(s', q, t) :: Runs(s, q, t);
  }

  lemma StartKeepsHeld(s: State, c: CallId, r: RunId, issues: seq<Issue>)
    requires LocksHeld(s) && ReservationsOk(s) && c in s.calls && s.calls[c].stage.Preparing? && r !in s.runs
    ensures LocksHeld(Started(s, c, r, issues))
  {
    var s' := Started(s, c, r, issues);
    assert IsPreparing(s, c, s.calls[c].target);
    assert forall q, t | Runs(s', q, t) && q != r :: Runs(s, q, t);
  }

  lemma BeginKeepsHeld(s: State, c: CallId, r: RunId, issues: seq<Issue>, built: bool)
    requires LocksHeld(s) && ReservationsOk(s) && Enabled(s, Begin(c, r, issues, built))
    ensures LocksHeld(Next(s, Begin(c, r, issues, built)))
  {
    var started := Started(s, c, r, issues);
    StartKeepsHeld(s, c, r, issues);
    if !built {
      FinishKeepsHeld(started, r, false);
      HeldStays(Finish(started, r, false), Next(s, Begin(c, r, issues, built)));
    }
  }

  lemma EndKeepsHeld(s: State, e: Event)
    requires LocksHeld(s) && Enabled(s, e) && (e.SendFails? || e.Timeout? || e.Result?)
    ensures LocksHeld(Next(s, e))
  {
    if e.SendFails? {
      FinishKeepsHeld(s, s.calls[e.call].stage.run, false);
      HeldStays(Finish(s, s.calls[e.call].stage.run, false), Next(s, e));
    } else if e.Timeout? {
      FinishKeepsHeld(s, e.run, false);
    } else {
      var marked := s.(runs := s.runs[e.run := s.runs[e.run].(resultHandled := true)]);
      HeldStays(s, marked);
      FinishKeepsHeld(marked, e.run, e.success);
    }
  }

  lemma SessionFailureKeepsHeld(s: State, c: CallId)
    requires LocksHeld(s) && ReservationsOk(s) && Enabled(s, SessionFails(c))
    ensures LocksHeld(Next(s, SessionFails(c)))
  {
    assert IsPreparing(s, c, s.calls[c].target);
    assert Next(s, SessionFails(c)).active == s.active;
    HeldStays(s, Next(s, SessionFails(c)));
  }

  lemma SentKeepsHeld(s: State, c: CallId)
    requires LocksHeld(s) && Enabled(s, Sent(c))
    ensures LocksHeld(Next(s, Sent(c)))
  {
    HeldStays(s, Next(s, Sent(c)));
  }

  lemma CancelKeepsHeld(s: State, r: RunId)
    requires LocksHeld(s) && Enabled(s, Cancel(r))
    ensures LocksHeld(Next(s, Cancel(r)))
  {
    HeldStays(s, Next(s, Cancel(r)));
  }

  lemma CallKeepsHeld(s: State, e: Event)
    requires LocksHeld(s) && Enabled(s, e) && (e.Reserve? || e.PrepareFails? || e.Return?)
    ensures LocksHeld(Next(s, e))
  {
    HeldStays(s, Next(s, e));
  }

  lemma TablesKeepHeld(s: State, e: Event)
    requires LocksHeld(s) && Enabled(s, e) && OfTables(e)
    ensures LocksHeld(Next(s, e))
  {
    TablesAside(s, e);
    HeldStays(s, Next(s, e));
  }

  lemma StepKeepsHeld(s: State, e: Event)
    requires LocksHeld(s) && ReservationsOk(s) && Enabled(s, e)
    ensures LocksHeld(Next(s, e))
  {
    match e
    case SessionFails(c) => SessionFailureKeepsHeld(s, c);
    case Begin(c, r, issues, built) => BeginKeepsHeld(s, c, r, issues, built);
    case SendFails(_) => EndKeepsHeld(s, e);
    case Result(_, _) => EndKeepsHeld(s, e);
    case Timeout(_) => EndKeepsHeld(s, e);
    case Sent(c) => SentKeepsHeld(s, c);
    case Cancel(r) => CancelKeepsHeld(s, r);
    case _ => if OfTables(e) { TablesKeepHeld(s, e); } else { CallKeepsHeld(s, e); }
  }

  /** Nothing that is in use is deleted. */
  lemma BusyIsInUse(s: State, id: ReleaseId)
    requires Ordered(s)
    ensures IsReleaseBusy(s, id) <==>
      || (exists c, t :: IsPreparing(s, c, t) && s.calls[c].stage.wanted == Some(id))
      || (exists r :: Unfinished(s, r) && s.runs[r].release == Some(id))
  {
    if c, t :| IsPreparing(s, c, t) && s.calls[c].stage.wanted == Some(id) {
      assert s.preparing[t] == Some(id);
    }
    if r :| Unfinished(s, r) && s.runs[r].release == Some(id) {
      assert Runs(s, r, s.runs[r].target);
      assert s.active[s.runs[r].target] == r;
    }
    if t :| t in s.preparing && s.preparing[t] == Some(id) {
      var c :| IsPreparing(s, c, t);
    }
    if t :| t in s.active && Unfinished(s, s.active[t]) && s.runs[s.active[t]].release == Some(id) {
      assert Unfinished(s, s.active[t]);
    }
  }

  lemma ReleasesStay(s: State, s': State)
    requires ReleasesKept(s) && s.ready.Keys <= s'.ready.Keys
    requires forall c | c in s'.calls && s'.calls[c].stage.Preparing? :: c in s.calls && s'.calls[c] == s.calls[c]
    requires forall r | Unfinished(s', r) :: Unfinished(s, r) && s'.runs[r].release == s.runs[r].release
    ensures ReleasesKept(s')
  {
    assert forall c, t | IsPreparing(s', c, t) :: IsPreparing(s, c, t);
  }

  lemma ReserveKeepsReleases(s: State, c: CallId, t: TargetId, release: Option<ReleaseId>)
    requires ReleasesKept(s) && Enabled(s, Reserve(c, t, release))
    ensures ReleasesKept(Next(s, Reserve(c, t, release)))
  {
    var s' := Next(s, Reserve(c, t, release));
    assert forall d, t' | IsPreparing(s', d, t') && (d != c || Locked(s, t)) :: IsPreparing(s, d, t');
    assert forall r | Unfinished(s', r) :: Unfinished(s, r);
  }

  lemma BeginKeepsReleases(s: State, c: CallId, r: RunId, issues: seq<Issue>, built: bool)
    requires ReleasesKept(s) && Enabled(s, Begin(c, r, issues, built))
    ensures ReleasesKept(Next(s, Begin(c, r, issues, built)))
  {
    var s' := Next(s, Begin(c, r, issues, built));
    assert forall d, t' | IsPreparing(s', d, t') :: IsPreparing(s, d, t');
    assert forall q | Unfinished(s', q) && q != r :: Unfinished(s, q) && s'.runs[q] == s.runs[q];
  }

  lemma DeletionKeepsReleases(s: State, id: ReleaseId)
    requires Ordered(s) && Enabled(s, ReleaseDeleted(id))
    ensures ReleasesKept(Next(s, ReleaseDeleted(id)))
  {
    var s' := Next(s, ReleaseDeleted(id));
    BusyIsInUse(s, id);
    assert forall d, t' | IsPreparing(s', d, t') :: IsPreparing(s, d, t');
    assert forall q | Unfinished(s', q) :: Unfinished(s, q);
  }

  lemma CallEndsKeepReleases(s: State, e: Event)
    requires ReleasesKept(s) && Enabled(s, e)
    requires e.PrepareFails? || e.SessionFails? || e.Sent? || e.Return?
    ensures ReleasesKept(Next(s, e))
  {
    ReleasesStay(s, Next(s, e));
  }

  lemma SendFailureKeepsReleases(s: State, c: CallId)
    requires ReleasesKept(s) && Enabled(s, SendFails(c))
    ensures ReleasesKept(Next(s, SendFails(c)))
  {
    ReleasesStay(s, Next(s, SendFails(c)));
  }

  lemma TablesKeepReleases(s: State, e: Event)
    requires ReleasesKept(s) && Enabled(s, e) && OfTables(e) && !e.ReleaseDeleted?
    ensures ReleasesKept(Next(s, e))
  {
    TablesAside(s, e);
    ReleasesStay(s, Next(s, e));
  }

  lemma ResultKeepsReleases(s: State, r: RunId, success: bool)
    requires ReleasesKept(s) && Enabled(s, Result(r, success))
    ensures ReleasesKept(Next(s, Result(r, success)))
  {
    ResultAside(s, r, success);
    ReleasesStay(s, Next(s, Result(r, success)));
  }

  lemma OthersKeepReleases(s: State, e: Event)
    requires ReleasesKept(s) && Enabled(s, e) && (e.Timeout? || e.Cancel?)
    ensures ReleasesKept(Next(s, e))
  {
    ReleasesStay(s, Next(s, e));
  }

  lemma StepKeepsReleases(s: State, e: Event)
    requires Ordered(s) && Enabled(s, e)
    ensures ReleasesKept(Next(s, e))
  {
    match e
    case Reserve(c, t, release) => ReserveKeepsReleases(s, c, t, release);
    case Begin(c, r, issues, built) => BeginKeepsReleases(s, c, r, issues, built);
    case ReleaseDeleted(id) => DeletionKeepsReleases(s, id);
    case Result(r, success) => ResultKeepsReleases(s, r, success);
    case Timeout(_) => OthersKeepReleases(s, e);
    case Cancel(_) => OthersKeepReleases(s, e);
    case SendFails(c) => SendFailureKeepsReleases(s, c);
    case Download(_, _, _, _) => TablesKeepReleases(s, e);
    case ReleaseSaved(_, _) => TablesKeepReleases(s, e);
    case TokenStore(_) => TablesKeepReleases(s, e);
    case _ => CallEndsKeepReleases(s, e);
  }

  lemma StepKeepsOrder(s: State, e: Event)
    requires Ordered(s) && Enabled(s, e) && !Erases(s, e)
    ensures Ordered(Next(s, e))
  {
    StepKeepsLocks(s, e);
    StepKeepsReservations(s, e);
    StepKeepsHeld(s, e);
    StepKeepsReleases(s, e);
  }

  // ----------------------------------------------------------------- whole runs

  predicate NeverErases(s: State, es: seq<Event>)
    requires Possible(s, es)
    decreases |es|
  {
    es == [] || (!Erases(s, es[0]) && NeverErases(Next(s, es[0]), es[1..]))
  }

  /**
   * In any order of events in which no `finally` erases a reservation, a target never has two
   * deploys, and the release of a deploy that prepares or goes on is never deleted.
   */
  lemma {:induction false} OneDeployPerTarget(s: State, es: seq<Event>)
    requires Ordered(s) && Possible(s, es) && NeverErases(s, es)
    ensures Exclusive(StateAfter(s, es)) && ReleasesKept(StateAfter(s, es)) && Ordered(StateAfter(s, es))
    decreases |es|
  {
    if es == [] {
      OrderedIsExclusive(s);
    } else {
      StepKeepsOrder(s, es[0]);
      OneDeployPerTarget(Next(s, es[0]), es[1..]);
    }
  }

  /** A call returns: the next reservation of its target can break exclusion exactly if it erased one. */
  lemma ErasingIsWhatBreaksIt(s: State, e: Event, c: CallId)
    requires Ordered(s) && e.Return? && Enabled(s, e) && c !in s.calls
    ensures var t := s.calls[e.call].target;
      Exclusive(Next(Next(s, e), Reserve(c, t, None))) <==> !Erases(s, e)
  {
    var t := s.calls[e.call].target;
    var s1 := Next(s, e);
    var s2 := Next(s1, Reserve(c, t, None));
    if Erases(s, e) {
      var d :| IsPreparing(s, d, t);
      assert t !in s1.active && t !in s1.preparing;
      assert IsPreparing(s2, d, t) && IsPreparing(s2, c, t) && c != d;
    } else {
      StepKeepsOrder(s, e);
      StepKeepsOrder(s1, Reserve(c, t, None));
      OrderedIsExclusive(s2);
    }
  }

  // ------------------------------------------------ runs that outlive their call

  /** The run this call started is over, or never came to be, and the call has not returned. */
  predicate Hanging(s: State, c: CallId) {
    c in s.calls && s.calls[c].stage.Ending? && (s.calls[c].stage.started.Some? ==> !Unfinished(s, s.calls[c].stage.started.value))
  }

  predicate Held(s: State, r: RunId) {
    exists c | c in s.calls :: RunOf(s.calls[c].stage) == Some(r)
  }

  /**
   * A result or a timeout does not end a run before the call that started it has returned; and a call
   * that ends its run itself returns before anything else happens.
   */
  predicate Timely(s: State, e: Event) {
    && (forall c | c in s.calls :: Hanging(s, c) ==> e == Return(c))
    && (e.Result? || e.Timeout? ==> !Held(s, e.run))
  }

  predicate AlwaysTimely(s: State, es: seq<Event>)
    requires Possible(s, es)
    decreases |es|
  {
    es == [] || (Timely(s, es[0]) && AlwaysTimely(Next(s, es[0]), es[1..]))
  }

  /** Calls that can still end well: their run goes on, or their target is free of reservations. */
  ghost predicate Tidy(s: State) {
    && CallsOk(s)
    && (forall c | c in s.calls && s.calls[c].stage.Starting? :: Unfinished(s, s.calls[c].stage.run))
    && (forall c | Hanging(s, c) :: s.calls[c].target !in s.preparing)
  }

  lemma TimelyDoesNotErase(s: State, e: Event)
    requires Ordered(s) && Tidy(s) && Enabled(s, e)
    ensures !Erases(s, e)
  {
    if e.Return? && !Hanging(s, e.call) {
      var r := s.calls[e.call].stage.started.value;
      assert Runs(s, r, s.calls[e.call].target);
    }
  }

  lemma OthersStayTidy(s: State, s': State, c: CallId)
    requires Tidy(s) && CallsOk(s') && s'.preparing.Keys <= s.preparing.Keys
    requires forall d | d in s'.calls && d != c :: d in s.calls && s'.calls[d] == s.calls[d]
    requires forall d | d in s.calls && d != c && RunOf(s.calls[d].stage).Some? :: Unfinished(s, RunOf(s.calls[d].stage).value) ==> Unfinished(s', RunOf(s.calls[d].stage).value)
    requires c in s'.calls && s'.calls[c].stage.Starting? ==> Unfinished(s', s'.calls[c].stage.run)
    requires Hanging(s', c) ==> s'.calls[c].target !in s'.preparing
    ensures Tidy(s')
  {
    forall d | Hanging(s', d) && d != c ensures s'.calls[d].target !in s'.preparing {
      assert Hanging(s, d);
    }
  }

  lemma FinishOthers(s: State, r: RunId, success: bool)
    requires r in s.runs
    ensures forall q | q != r && Unfinished(s, q) :: Unfinished(Finish(s, r, success), q)
    ensures Finish(s, r, success).calls == s.calls && Finish(s, r, success).preparing == s.preparing
    ensures !Unfinished(Finish(s, r, success), r)
  {
  }

  lemma BeginKeepsTidy(s: State, c: CallId, r: RunId, issues: seq<Issue>, built: bool)
    requires ReservationsOk(s) && Tidy(s) && Enabled(s, Begin(c, r, issues, built))
    ensures Tidy(Next(s, Begin(c, r, issues, built)))
  {
    StepKeepsCalls(s, Begin(c, r, issues, built));
    NewRunIsNoOnes(s, r);
    FinishOthers(Started(s, c, r, issues), r, false);
    OthersStayTidy(s, Next(s, Begin(c, r, issues, built)), c);
  }

  lemma SendFailureKeepsTidy(s: State, c: CallId)
    requires ReservationsOk(s) && LocksHeld(s) && Tidy(s) && Enabled(s, SendFails(c))
    ensures Tidy(Next(s, SendFails(c)))
  {
    StepKeepsCalls(s, SendFails(c));
    FinishOthers(s, s.calls[c].stage.run, false);
    assert Runs(s, s.calls[c].stage.run, s.calls[c].target);
    OthersStayTidy(s, Next(s, SendFails(c)), c);
  }

  lemma PlainCallStepKeepsTidy(s: State, e: Event)
    requires Tidy(s) && Enabled(s, e) && (e.PrepareFails? || e.SessionFails? || e.Sent? || e.Return?)
    ensures Tidy(Next(s, e))
  {
    StepKeepsCalls(s, e);
    OthersStayTidy(s, Next(s, e), e.call);
  }

  lemma NoneHangs(s: State, s': State)
    requires Tidy(s) && CallsOk(s')
    requires forall c | c in s.calls :: !Hanging(s, c)
    requires forall c | c in s'.calls && !s'.calls[c].stage.Preparing? :: c in s.calls && s'.calls[c] == s.calls[c]
    requires forall c | c in s.calls && RunOf(s.calls[c].stage).Some? && Unfinished(s, RunOf(s.calls[c].stage).value) ::
      Unfinished(s', RunOf(s.calls[c].stage).value)
    ensures Tidy(s')
  {
    forall c | c in s'.calls ensures !Hanging(s', c) {
      if s'.calls[c].stage.Ending? {
        assert !Hanging(s, c);
      }
    }
  }

  /** The event leaves every other run going on, and the calls as they are. */
  lemma OtherRunsGoOn(s: State, e: Event, q: RunId)
    requires Enabled(s, e) && (e.Result? || e.Timeout? || e.Cancel?)
    ensures Next(s, e).calls == s.calls
    ensures Unfinished(s, q) && (e.Cancel? || q != e.run) ==> Unfinished(Next(s, e), q)
  {
  }

  lemma RunStepKeepsTidy(s: State, e: Event)
    requires Tidy(s) && Enabled(s, e) && Timely(s, e)
    requires e.Result? || e.Timeout? || e.Cancel?
    ensures Tidy(Next(s, e))
  {
    var s' := Next(s, e);
    StepKeepsCalls(s, e);
    OtherRunsGoOn(s, e, e.run);
    forall c | c in s.calls && RunOf(s.calls[c].stage).Some? && Unfinished(s, RunOf(s.calls[c].stage).value)
      ensures Unfinished(s', RunOf(s.calls[c].stage).value)
    {
      assert !e.Cancel? ==> Held(s, RunOf(s.calls[c].stage).value);
      OtherRunsGoOn(s, e, RunOf(s.calls[c].stage).value);
    }
    NoneHangs(s, s');
  }

  lemma OtherStepKeepsTidy(s: State, e: Event)
    requires Tidy(s) && Enabled(s, e) && Timely(s, e)
    requires e.Reserve? || e.Download? || e.ReleaseSaved? || e.ReleaseDeleted? || e.TokenStore?
    ensures Tidy(Next(s, e))
  {
    StepKeepsCalls(s, e);
    assert Next(s, e).runs == s.runs;
    NoneHangs(s, Next(s, e));
  }

  lemma StepKeepsTidy(s: State, e: Event)
    requires Ordered(s) && Tidy(s) && Enabled(s, e) && Timely(s, e)
    ensures Tidy(Next(s, e))
  {
    match e
    case Result(_, _) => RunStepKeepsTidy(s, e);
    case Timeout(_) => RunStepKeepsTidy(s, e);
    case Cancel(_) => RunStepKeepsTidy(s, e);
    case Begin(c, r, issues, built) => BeginKeepsTidy(s, c, r, issues, built);
    case SendFails(c) => SendFailureKeepsTidy(s, c);
    case PrepareFails(_) => PlainCallStepKeepsTidy(s, e);
    case SessionFails(_) => PlainCallStepKeepsTidy(s, e);
    case Sent(_) => PlainCallStepKeepsTidy(s, e);
    case Return(_) => PlainCallStepKeepsTidy(s, e);
    case _ => OtherStepKeepsTidy(s, e);
  }

  /** In a timely run of events no reservation is ever erased. */
  lemma {:induction false} TimelyRunsNeverErase(s: State, es: seq<Event>)
    requires Ordered(s) && Tidy(s) && Possible(s, es) && AlwaysTimely(s, es)
    ensures NeverErases(s, es)
    decreases |es|
  {
    if es != [] {
      TimelyDoesNotErase(s, es[0]);
      StepKeepsOrder(s, es[0]);
      StepKeepsTidy(s, es[0]);
      TimelyRunsNeverErase(Next(s, es[0]), es[1..]);
    }
  }

  /** So every timely run of the service keeps deploys apart. */
  lemma TimelyRunsAreExclusive(es: seq<Event>)
    requires Possible(EMPTY, es) && AlwaysTimely(EMPTY, es)
    ensures Exclusive(StateAfter(EMPTY, es)) && ReleasesKept(StateAfter(EMPTY, es))
  {
    TimelyRunsNeverErase(EMPTY, es);
    OneDeployPerTarget(EMPTY, es);
  }

  // ------------------------------------------------------- and if they do not

  /** The first call's run is over before the call returns; its `finally` frees the second call's target. */
  const TOO_EARLY: seq<Event> := [
    Reserve(0, "t", None), Begin(0, "a", [], true), Result("a", true),
    Reserve(1, "t", None), Sent(0), Return(0), Reserve(2, "t", None),
    Begin(1, "b", [], true), Begin(2, "c", [], true)]

  lemma {:induction false} RunOn(s: State, es: seq<Event>, more: seq<Event>)
    requires Possible(s, es) && Possible(StateAfter(s, es), more)
    ensures Possible(s, es + more) && StateAfter(s, es + more) == StateAfter(StateAfter(s, es), more)
    decreases |es|
  {
    if es == [] {
      assert es + more == more;
    } else {
      assert (es + more)[1..] == es[1..] + more;
      RunOn(Next(s, es[0]), es[1..], more);
    }
  }

  /** After the first six events call 1 is preparing and its target looks free. */
  function Forgotten(): State {
    EMPTY.(runs := map["a" := Run("t", None, true, true, false, false)],
           calls := map[1 := Call("t", Preparing(None))],
           outcomes := [Outcome("a", true)])
  }

  lemma FirstThree()
    ensures Possible(EMPTY, TOO_EARLY[..3])
    ensures var s := StateAfter(EMPTY, TOO_EARLY[..3]);
      s == EMPTY.(runs := map["a" := Run("t", None, true, true, false, false)],
                  calls := map[0 := Call("t", Starting("a"))], outcomes := [Outcome("a", true)])
  {
    var s1 := Next(EMPTY, Reserve(0, "t", None));
    var s2 := Next(s1, Begin(0, "a", [], true));
    var s3 := Next(s2, Result("a", true));
    assert TOO_EARLY[..3] == [Reserve(0, "t", None), Begin(0, "a", [], true), Result("a", true)];
    One(s2, Result("a", true));
    Two(s1, Begin(0, "a", [], true), Result("a", true));
    Three(EMPTY, Reserve(0, "t", None), Begin(0, "a", [], true), Result("a", true));
    assert s3.runs == map["a" := Run("t", None, true, true, false, false)];
    assert s3.calls == map[0 := Call("t", Starting("a"))];
    assert s3.active == map[] && s3.preparing == map[] && s3.registered == {} && s3.tokens == map[];
  }

  lemma One(s: State, e: Event)
    requires Enabled(s, e)
    ensures Possible(s, [e]) && StateAfter(s, [e]) == Next(s, e)
  {
    assert [e][1..] == [];
  }

  lemma Two(s: State, e: Event, f: Event)
    requires Enabled(s, e) && Enabled(Next(s, e), f)
    ensures Possible(s, [e, f]) && StateAfter(s, [e, f]) == Next(Next(s, e), f)
  {
    One(Next(s, e), f);
    assert [e, f][1..] == [f];
  }

  lemma Three(s: State, e: Event, f: Event, g: Event)
    requires Enabled(s, e) && Enabled(Next(s, e), f) && Enabled(Next(Next(s, e), f), g)
    ensures Possible(s, [e, f, g]) && StateAfter(s, [e, f, g]) == Next(Next(Next(s, e), f), g)
  {
    Two(Next(s, e), f, g);
    assert [e, f, g][1..] == [f, g];
  }

  lemma SecondThree(s: State)
    requires s == EMPTY.(runs := map["a" := Run("t", None, true, true, false, false)],
                         calls := map[0 := Call("t", Starting("a"))], outcomes := [Outcome("a", true)])
    ensures Possible(s, TOO_EARLY[3..6]) && StateAfter(s, TOO_EARLY[3..6]) == Forgotten()
  {
    assert TOO_EARLY[3..6] == [Reserve(1, "t", None), Sent(0), Return(0)];
    var s1 := Next(s, Reserve(1, "t", None));
    var s2 := Next(s1, Sent(0));
    var s3 := Next(s2, Return(0));
    Three(s, Reserve(1, "t", None), Sent(0), Return(0));
    assert s3.calls == map[1 := Call("t", Preparing(None))] && s3.preparing == map[];
  }

  lemma LastThree(s: State)
    requires s == Forgotten()
    ensures Possible(s, TOO_EARLY[6..])
    ensures Runs(StateAfter(s, TOO_EARLY[6..]), "b", "t") && Runs(StateAfter(s, TOO_EARLY[6..]), "c", "t")
  {
    assert TOO_EARLY[6..] == [Reserve(2, "t", None), Begin(1, "b", [], true), Begin(2, "c", [], true)];
    var s1 := Next(s, Reserve(2, "t", None));
    var s2 := Next(s1, Begin(1, "b", [], true));
    var s3 := Next(s2, Begin(2, "c", [], true));
    Three(s, Reserve(2, "t", None), Begin(1, "b", [], true), Begin(2, "c", [], true));
    assert s3.runs["b"] == s2.runs["b"];
  }

  lemma TwoDeploysOnOneTarget()
    ensures Possible(EMPTY, TOO_EARLY)
    ensures Runs(StateAfter(EMPTY, TOO_EARLY), "b", "t") && Runs(StateAfter(EMPTY, TOO_EARLY), "c", "t")
    ensures !Exclusive(StateAfter(EMPTY, TOO_EARLY))
  {
    FirstThree();
    SecondThree(StateAfter(EMPTY, TOO_EARLY[..3]));
    LastThree(Forgotten());
    RunOn(StateAfter(EMPTY, TOO_EARLY[..3]), TOO_EARLY[3..6], TOO_EARLY[6..]);
    assert TOO_EARLY[3..6] + TOO_EARLY[6..] == TOO_EARLY[3..];
    RunOn(EMPTY, TOO_EARLY[..3], TOO_EARLY[3..]);
    assert TOO_EARLY[..3] + TOO_EARLY[3..] == TOO_EARLY;
  }
}
