/**
 * The two handlers of the runner's job table that read a row first and write it in a second
 * statement (runner-cloud/src/index.ts): `complete` and `cancel`. Any statements may run in
 * between. A handler in flight is named by the number of the move in which it read.
 */
module RunnerCancels {
  import opened Wrappers
  import opened RunnerJobs

  datatype Handler =
    | Completing(id: JobId, agent: string, exitCode: int, read: Job)
    | Cancelling(id: JobId, status: Status)

  datatype State = State(jobs: Table, inFlight: map<nat, Handler>, moves: nat)

  datatype Move =
    | Sql(e: Event)
    | CompleteRead(id: JobId, agent: string, exitCode: int)
    | CancelRead(id: JobId)
    | Write(h: nat, now: int)

  function WriteOf(handler: Handler, now: int): Event {
    match handler
    case Completing(id, agent, exitCode, read) => CompleteWrite(id, agent, now, Outcome(read, exitCode), exitCode)
    case Cancelling(id, status) => CancelWrite(status, id, now)
  }

  function Reading(s: State, m: Move): Option<Handler> {
    match m
    case CompleteRead(id, agent, exitCode) =>
      if IsRunning(s.jobs, id, agent) then Some(Completing(id, agent, exitCode, s.jobs[id])) else None
    case CancelRead(id) =>
      if id in s.jobs && !s.jobs[id].status.Terminal() then Some(Cancelling(id, s.jobs[id].status)) else None
    case _ => None
  }

  /** A read that answers at once (`409`, `404`) leaves nothing in flight. */
  function Step(s: State, m: Move): State {
    match m
    case Sql(e) => State(Apply(s.jobs, e), s.inFlight, s.moves + 1)
    case Write(h, now) =>
      if h in s.inFlight then State(Apply(s.jobs, WriteOf(s.inFlight[h], now)), s.inFlight - {h}, s.moves + 1)
      else s.(moves := s.moves + 1)
    case _ =>
      var handler := Reading(s, m);
      State(s.jobs, if handler.Some? then s.inFlight[s.moves := handler.value] else s.inFlight, s.moves + 1)
  }

  /** A completion or a cancel is only ever written by a handler that has read. */
  ghost predicate Possible(s: State, m: Move) {
    match m
    case Sql(e) => ValidEvent(s.jobs, e) && !e.CompleteWrite? && !e.CancelRunningWrite? && !e.CancelWaitingWrite?
    case Write(h, _) => h in s.inFlight
    case _ => true
  }

  /** The state after the first `n` moves, from an empty table. */
  function After(ms: seq<Move>, n: nat): State
    requires n <= |ms|
  {
    if n == 0 then State(map[], map[], 0) else Step(After(ms, n - 1), ms[n - 1])
  }

  ghost predicate PossibleAt(ms: seq<Move>, n: nat) {
    n < |ms| && Possible(After(ms, n), ms[n])
  }

  ghost predicate IsRun(ms: seq<Move>) {
    forall n: nat | n < |ms| :: PossibleAt(ms, n)
  }

  // ----------------------------------------------------------- what a move does

  /** The move is a cancel's write, and its guard on the status matches. */
  predicate CancelTakes(s: State, m: Move, id: JobId) {
    && m.Write? && m.h in s.inFlight && s.inFlight[m.h].Cancelling? && s.inFlight[m.h].id == id
    && id in s.jobs
    && if s.inFlight[m.h].status == Running then s.jobs[id].status == Running else s.jobs[id].status.Unstarted()
  }

  /** The move is a completion's write, and the job is still running for its agent. */
  predicate CompletionTakes(s: State, m: Move, id: JobId) {
    && m.Write? && m.h in s.inFlight && s.inFlight[m.h].Completing? && s.inFlight[m.h].id == id
    && IsRunning(s.jobs, id, s.inFlight[m.h].agent)
  }

  predicate Marked(s: State, id: JobId) {
    id in s.jobs && s.jobs[id].cancelRequestedAt.Some?
  }

  predicate MarkedAt(ms: seq<Move>, id: JobId, n: nat) {
    n <= |ms| && Marked(After(ms, n), id)
  }

  predicate CancelTakesAt(ms: seq<Move>, id: JobId, n: nat) {
    n < |ms| && CancelTakes(After(ms, n), ms[n], id)
  }

  /** Move `n` completes the job, and move `h` was that handler's read. */
  predicate CompletionTakesAt(ms: seq<Move>, id: JobId, h: nat, n: nat) {
    n < |ms| && CompletionTakes(After(ms, n), ms[n], id) && ms[n].h == h
  }

  /** Move `k` completes the job, move `h` was its read, and a first cancel took effect between them. */
  ghost predicate Overtaken(ms: seq<Move>, id: JobId, h: nat, j: nat, k: nat) {
    h < j < k && !MarkedAt(ms, id, h) && CancelTakesAt(ms, id, j) && CompletionTakesAt(ms, id, h, k)
  }

  // ----------------------------------------------------------------- invariants

  lemma {:induction false} CountsMoves(ms: seq<Move>, n: nat)
    requires n <= |ms|
    ensures After(ms, n).moves == n
  {
    if n > 0 {
      CountsMoves(ms, n - 1);
    }
  }

  lemma {:induction false} RowsOkInRuns(ms: seq<Move>, n: nat)
    requires IsRun(ms) && n <= |ms|
    ensures RowsOk(After(ms, n).jobs)
  {
    if n > 0 {
      RowsOkInRuns(ms, n - 1);
      var s, m := After(ms, n - 1), ms[n - 1];
      assert PossibleAt(ms, n - 1);
      if m.Sql? {
        ApplyKeepsRows(s.jobs, m.e);
      } else if m.Write? {
        ApplyKeepsRows(s.jobs, WriteOf(s.inFlight[m.h], m.now));
      }
    }
  }

  lemma StepReads(s: State, m: Move, h: nat)
    requires h in Step(s, m).inFlight
    ensures if h in s.inFlight && h != s.moves then Step(s, m).inFlight[h] == s.inFlight[h]
      else h == s.moves && (h in s.inFlight || Reading(s, m) == Some(Step(s, m).inFlight[h]))
  {
  }

  /** Handlers in flight have read before. */
  lemma {:induction false} InFlightIsEarlier(ms: seq<Move>, n: nat, h: nat)
    requires n <= |ms| && h in After(ms, n).inFlight
    ensures h < n
  {
    if n > 0 {
      CountsMoves(ms, n - 1);
      StepReads(After(ms, n - 1), ms[n - 1], h);
      if h in After(ms, n - 1).inFlight {
        InFlightIsEarlier(ms, n - 1, h);
      }
    }
  }

  ghost predicate ReadIn(s: State, m: Move, handler: Handler) {
    Reading(s, m) == Some(handler)
  }

  lemma ReadNext(ms: seq<Move>, n: nat, h: nat)
    requires n < |ms| && h in After(ms, n + 1).inFlight
    ensures if h < n then h in After(ms, n).inFlight && After(ms, n + 1).inFlight[h] == After(ms, n).inFlight[h]
      else h == n && ReadIn(After(ms, n), ms[n], After(ms, n + 1).inFlight[h])
  {
    CountsMoves(ms, n);
    var s := After(ms, n);
    StepReads(s, ms[n], h);
    if h in s.inFlight {
      InFlightIsEarlier(ms, n, h);
    }
  }

  /** A handler in flight holds what its own read saw. */
  lemma {:induction false} ReadEarlier(ms: seq<Move>, n: nat, h: nat, handler: Handler)
    requires n <= |ms| && h in After(ms, n).inFlight && handler == After(ms, n).inFlight[h]
    ensures h < n && ReadIn(After(ms, h), ms[h], handler)
  {
    InFlightIsEarlier(ms, n, h);
    ReadNext(ms, n - 1, h);
    if h < n - 1 {
      ReadEarlier(ms, n - 1, h, handler);
    }
  }


  lemma ApplyKeepsMark(t: Table, e: Event, id: JobId)
    requires id in t && !e.CancelRunningWrite? && !e.CancelWaitingWrite?
    ensures id in Apply(t, e) && Apply(t, e)[id].cancelRequestedAt == t[id].cancelRequestedAt
  {
  }

  /** A job's cancel mark is set by the cancels that take effect, and by nothing else. */
  lemma StepMarks(s: State, m: Move, id: JobId)
    requires Possible(s, m) && id in s.jobs
    ensures id in Step(s, m).jobs && (Marked(Step(s, m), id) <==> Marked(s, id) || CancelTakes(s, m, id))
  {
    if m.Sql? {
      ApplyKeepsMark(s.jobs, m.e, id);
    }
  }

  lemma MarkedNext(ms: seq<Move>, id: JobId, n: nat)
    requires IsRun(ms) && n < |ms| && id in After(ms, n).jobs
    ensures id in After(ms, n + 1).jobs && (MarkedAt(ms, id, n + 1) <==> MarkedAt(ms, id, n) || CancelTakesAt(ms, id, n))
  {
    assert PossibleAt(ms, n);
    StepMarks(After(ms, n), ms[n], id);
  }

  lemma {:induction false} MarkedSince(ms: seq<Move>, id: JobId, h: nat, n: nat)
    requires IsRun(ms) && h <= n <= |ms| && id in After(ms, h).jobs
    ensures id in After(ms, n).jobs
    ensures MarkedAt(ms, id, n) <==> MarkedAt(ms, id, h) || exists j: nat :: h <= j < n && CancelTakesAt(ms, id, j)
    decreases n - h
  {
    if h < n {
      MarkedNext(ms, id, h);
      MarkedSince(ms, id, h + 1, n);
    }
  }

  // ------------------------------------------------------------ what is honoured

  /** The move completes the job as succeeded or failed, although a cancel is recorded. */
  predicate Loses(s: State, m: Move, id: JobId) {
    CompletionTakes(s, m, id) && s.inFlight[m.h].read.cancelRequestedAt.None? && Marked(s, id)
  }

  lemma StepHonours(s: State, m: Move, id: JobId)
    requires RowsOk(s.jobs) && Possible(s, m) && id in s.jobs && CancelHonoured(s.jobs[id])
    requires CompletionTakes(s, m, id) && s.inFlight[m.h].read.cancelRequestedAt.Some? ==> Marked(s, id)
    ensures id in Step(s, m).jobs && (CancelHonoured(Step(s, m).jobs[id]) <==> !Loses(s, m, id))
  {
    assert RowOk(s.jobs[id]);
  }

  lemma StepCreates(s: State, m: Move, id: JobId)
    requires Possible(s, m) && id !in s.jobs && id in Step(s, m).jobs
    ensures CancelHonoured(Step(s, m).jobs[id])
  {
  }

  lemma ReadOfACompletion(s: State, m: Move, handler: Handler)
    requires ReadIn(s, m, handler) && handler.Completing?
    ensures m == CompleteRead(handler.id, handler.agent, handler.exitCode)
    ensures handler.id in s.jobs && handler.read == s.jobs[handler.id]
  {
  }

  /** What a completing handler saw, and what it writes over. */
  lemma SawTheMark(ms: seq<Move>, id: JobId, h: nat, n: nat)
    requires IsRun(ms) && CompletionTakesAt(ms, id, h, n)
    ensures h < n && !CancelTakesAt(ms, id, h) && id in After(ms, h).jobs
    ensures After(ms, n).inFlight[h].read.cancelRequestedAt.Some? <==> MarkedAt(ms, id, h)
  {
    var handler := After(ms, n).inFlight[h];
    ReadEarlier(ms, n, h, handler);
    ReadOfACompletion(After(ms, h), ms[h], handler);
  }

  ghost predicate LosesAt(ms: seq<Move>, id: JobId, h: nat, n: nat) {
    CompletionTakesAt(ms, id, h, n) && !MarkedAt(ms, id, h) && MarkedAt(ms, id, n)
  }

  lemma LostIsOvertaken(ms: seq<Move>, id: JobId, h: nat, n: nat)
    requires IsRun(ms) && CompletionTakesAt(ms, id, h, n)
    ensures MarkedAt(ms, id, h) ==> MarkedAt(ms, id, n)
    ensures LosesAt(ms, id, h, n) <==> exists j: nat :: Overtaken(ms, id, h, j, n)
  {
    SawTheMark(ms, id, h, n);
    MarkedSince(ms, id, h, n);
    if LosesAt(ms, id, h, n) {
      var j: nat :| h <= j < n && CancelTakesAt(ms, id, j);
      assert Overtaken(ms, id, h, j, n);
    }
  }

  ghost predicate HonouredAt(ms: seq<Move>, id: JobId, n: nat) {
    n <= |ms| && id in After(ms, n).jobs && CancelHonoured(After(ms, n).jobs[id])
  }

  lemma HonouredNext(ms: seq<Move>, id: JobId, n: nat)
    requires IsRun(ms) && n < |ms| && HonouredAt(ms, id, n)
    ensures HonouredAt(ms, id, n + 1) <==> !exists h: nat :: LosesAt(ms, id, h, n)
  {
    assert PossibleAt(ms, n);
    var s, m := After(ms, n), ms[n];
    RowsOkInRuns(ms, n);
    if CompletionTakes(s, m, id) {
      SawTheMark(ms, id, m.h, n);
      LostIsOvertaken(ms, id, m.h, n);
      assert LosesAt(ms, id, m.h, n) <==> Loses(s, m, id);
    }
    StepHonours(s, m, id);
  }

  lemma FirstIsHonoured(ms: seq<Move>, id: JobId, n: nat)
    requires IsRun(ms) && 0 < n <= |ms| && id in After(ms, n).jobs && !HonouredAt(ms, id, n)
    ensures id in After(ms, n - 1).jobs
  {
    assert PossibleAt(ms, n - 1);
    if id !in After(ms, n - 1).jobs {
      StepCreates(After(ms, n - 1), ms[n - 1], id);
    }
  }

  /** A row on which a cancel is not honoured was completed by a handler that a cancel had overtaken. */
  lemma {:induction false} UnhonouredMeansOvertaken(ms: seq<Move>, id: JobId, n: nat)
    requires IsRun(ms) && n <= |ms| && id in After(ms, n).jobs && !HonouredAt(ms, id, n)
    ensures exists h: nat, j: nat, k: nat :: Overtaken(ms, id, h, j, k)
  {
    assert n > 0;
    FirstIsHonoured(ms, id, n);
    if HonouredAt(ms, id, n - 1) {
      HonouredNext(ms, id, n - 1);
      var h: nat :| LosesAt(ms, id, h, n - 1);
      LostIsOvertaken(ms, id, h, n - 1);
    } else {
      UnhonouredMeansOvertaken(ms, id, n - 1);
    }
  }

  predicate TerminalAt(ms: seq<Move>, id: JobId, n: nat) {
    n <= |ms| && id in After(ms, n).jobs && After(ms, n).jobs[id].status.Terminal()
  }

  lemma StepKeepsTerminal(s: State, m: Move, id: JobId)
    requires id in s.jobs && s.jobs[id].status.Terminal()
    ensures id in Step(s, m).jobs && Step(s, m).jobs[id] == s.jobs[id]
  {
  }

  lemma TerminalNext(ms: seq<Move>, id: JobId, n: nat)
    requires n < |ms| && TerminalAt(ms, id, n)
    ensures TerminalAt(ms, id, n + 1) && (HonouredAt(ms, id, n) <==> HonouredAt(ms, id, n + 1))
  {
    StepKeepsTerminal(After(ms, n), ms[n], id);
  }

  lemma {:induction false} TerminalInRuns(ms: seq<Move>, id: JobId, k: nat, n: nat)
    requires k <= n <= |ms| && TerminalAt(ms, id, k)
    ensures TerminalAt(ms, id, n) && (HonouredAt(ms, id, k) <==> HonouredAt(ms, id, n))
  {
    if k < n {
      TerminalInRuns(ms, id, k, n - 1);
      TerminalNext(ms, id, n - 1);
    }
  }

  lemma CompletedNext(ms: seq<Move>, id: JobId, h: nat, n: nat)
    requires IsRun(ms) && CompletionTakesAt(ms, id, h, n)
    ensures TerminalAt(ms, id, n + 1)
  {
  }

  lemma OvertakenMeansUnhonoured(ms: seq<Move>, id: JobId, h: nat, j: nat, k: nat)
    requires IsRun(ms) && Overtaken(ms, id, h, j, k)
    ensures !HonouredAt(ms, id, |ms|)
  {
    LostIsOvertaken(ms, id, h, k);
    CompletedNext(ms, id, h, k);
    LostNext(ms, id, h, k);
    TerminalInRuns(ms, id, k + 1, |ms|);
  }

  lemma LostNext(ms: seq<Move>, id: JobId, h: nat, n: nat)
    requires IsRun(ms) && LosesAt(ms, id, h, n)
    ensures !HonouredAt(ms, id, n + 1)
  {
    SawTheMark(ms, id, h, n);
    LosesIsUnhonoured(After(ms, n), ms[n], id);
  }

  lemma LosesIsUnhonoured(s: State, m: Move, id: JobId)
    requires Loses(s, m, id)
    ensures id in Step(s, m).jobs && !CancelHonoured(Step(s, m).jobs[id])
  {
  }

  /**
   * Over any run, whatever comes between the handlers' reads and writes: a job has its cancel
   * honoured exactly when no completion was overtaken by a first cancel.
   */
  lemma CancelHonouredExactly(ms: seq<Move>, id: JobId)
    requires IsRun(ms) && id in After(ms, |ms|).jobs
    ensures CancelHonoured(After(ms, |ms|).jobs[id]) <==> !exists h: nat, j: nat, k: nat :: Overtaken(ms, id, h, j, k)
  {
    if !HonouredAt(ms, id, |ms|) {
      UnhonouredMeansOvertaken(ms, id, |ms|);
    } else {
      forall h: nat, j: nat, k: nat | Overtaken(ms, id, h, j, k) ensures false {
        OvertakenMeansUnhonoured(ms, id, h, j, k);
      }
    }
  }

  // ------------------------------------------------------------ what a completion leaves

  lemma CompletionLeaves(s: State, m: Move, id: JobId)
    requires CompletionTakes(s, m, id)
    ensures var handler := s.inFlight[m.h]; var after := Step(s, m).jobs;
      after.Keys == s.jobs.Keys && (forall other | other in s.jobs && other != id :: after[other] == s.jobs[other])
      && after[id].completedAt == Some(m.now) && after[id].exitCode == Some(handler.exitCode)
      && if handler.read.cancelRequestedAt.Some? then after[id].status == Cancelled && after[id].errorCode == Some("CANCELLED")
         else if handler.exitCode == 0 then after[id].status == Succeeded && after[id].errorCode == None
         else after[id].status == Failed && after[id].errorCode == Some("JOB_FAILED")
  {
  }

  /**
   * Over any run a completion that takes effect leaves the job `succeeded` exactly when its read saw no
   * cancel mark and the exit code is 0, `failed` exactly when it saw none and the code is another, and
   * `cancelled` exactly when it saw one. The exit code is stored, and every other row stays.
   */
  lemma CompletedExactly(ms: seq<Move>, id: JobId, h: nat, n: nat)
    requires IsRun(ms) && CompletionTakesAt(ms, id, h, n)
    ensures h < n && ms[h].CompleteRead? && ms[h].id == id && id in After(ms, n + 1).jobs
    ensures id in After(ms, h).jobs
    ensures var job, marked, code := After(ms, n + 1).jobs[id], After(ms, h).jobs[id].cancelRequestedAt.Some?, ms[h].exitCode;
      && (job.status == Succeeded <==> !marked && code == 0)
      && (job.status == Failed <==> !marked && code != 0)
      && (job.status == Cancelled <==> marked)
      && job.errorCode == (if marked then Some("CANCELLED") else if code == 0 then None else Some("JOB_FAILED"))
      && job.exitCode == Some(code) && job.completedAt == Some(ms[n].now)
    ensures forall other | other in After(ms, n).jobs && other != id ::
      other in After(ms, n + 1).jobs && After(ms, n + 1).jobs[other] == After(ms, n).jobs[other]
  {
    var handler := After(ms, n).inFlight[h];
    ReadEarlier(ms, n, h, handler);
    SawTheMark(ms, id, h, n);
    ReadOfACompletion(After(ms, h), ms[h], handler);
    CompletionLeaves(After(ms, n), ms[n], id);
  }

  // ------------------------------------------------------- what an answered cancel did

  /** A job goes from waiting to running to over, and never back. */
  function Phase(status: Status): nat {
    if status.Unstarted() then 0 else if status == Running then 1 else 2
  }

  function PhaseAt(ms: seq<Move>, id: JobId, n: nat): nat
    requires n <= |ms| && id in After(ms, n).jobs
  {
    Phase(After(ms, n).jobs[id].status)
  }

  /** With this move the job starts or ends. */
  predicate MovesOn(ms: seq<Move>, id: JobId, n: nat) {
    n < |ms| && id in After(ms, n).jobs && id in After(ms, n + 1).jobs && PhaseAt(ms, id, n) != PhaseAt(ms, id, n + 1)
  }

  lemma ApplyKeepsPhase(t: Table, e: Event, id: JobId)
    requires id in t && ValidEvent(t, e)
    ensures id in Apply(t, e) && Phase(t[id].status) <= Phase(Apply(t, e)[id].status)
  {
  }

  lemma PhaseNext(ms: seq<Move>, id: JobId, n: nat)
    requires IsRun(ms) && n < |ms| && id in After(ms, n).jobs
    ensures id in After(ms, n + 1).jobs && PhaseAt(ms, id, n) <= PhaseAt(ms, id, n + 1)
  {
    assert PossibleAt(ms, n);
    var s, m := After(ms, n), ms[n];
    if m.Sql? {
      ApplyKeepsPhase(s.jobs, m.e, id);
    } else if m.Write? {
      ApplyKeepsPhase(s.jobs, WriteOf(s.inFlight[m.h], m.now), id);
    }
  }

  lemma {:induction false} PhaseGrows(ms: seq<Move>, id: JobId, h: nat, n: nat)
    requires IsRun(ms) && h <= n <= |ms| && id in After(ms, h).jobs
    ensures id in After(ms, n).jobs && PhaseAt(ms, id, h) <= PhaseAt(ms, id, n)
    decreases n - h
  {
    if h < n {
      PhaseNext(ms, id, h);
      PhaseGrows(ms, id, h + 1, n);
    }
  }

  /** Between two phases a move starts or ends the job. */
  lemma {:induction false} SomeMovesOn(ms: seq<Move>, id: JobId, h: nat, n: nat) returns (j: nat)
    requires IsRun(ms) && h <= n <= |ms| && id in After(ms, h).jobs
    requires id in After(ms, n).jobs && PhaseAt(ms, id, h) != PhaseAt(ms, id, n)
    ensures h <= j < n && MovesOn(ms, id, j)
    decreases n - h
  {
    PhaseNext(ms, id, h);
    if PhaseAt(ms, id, h) != PhaseAt(ms, id, h + 1) {
      j := h;
    } else {
      j := SomeMovesOn(ms, id, h + 1, n);
    }
  }

  lemma MovingOnShows(ms: seq<Move>, id: JobId, h: nat, j: nat, n: nat)
    requires IsRun(ms) && h <= j < n <= |ms| && id in After(ms, h).jobs
    ensures id in After(ms, n).jobs && (MovesOn(ms, id, j) ==> PhaseAt(ms, id, h) != PhaseAt(ms, id, n))
  {
    PhaseGrows(ms, id, h, j);
    PhaseNext(ms, id, j);
    PhaseGrows(ms, id, j + 1, n);
  }

  lemma PhaseSince(ms: seq<Move>, id: JobId, h: nat, n: nat)
    requires IsRun(ms) && h <= n <= |ms| && id in After(ms, h).jobs
    ensures id in After(ms, n).jobs
    ensures PhaseAt(ms, id, h) == PhaseAt(ms, id, n) <==> !exists j: nat :: h <= j < n && MovesOn(ms, id, j)
  {
    PhaseGrows(ms, id, h, n);
    if PhaseAt(ms, id, h) != PhaseAt(ms, id, n) {
      var j := SomeMovesOn(ms, id, h, n);
    } else {
      forall j: nat | h <= j < n ensures !MovesOn(ms, id, j) {
        MovingOnShows(ms, id, h, j, n);
      }
    }
  }

  lemma ReadOfACancel(s: State, m: Move, handler: Handler)
    requires ReadIn(s, m, handler) && handler.Cancelling?
    ensures m == CancelRead(handler.id) && handler.id in s.jobs && handler.status == s.jobs[handler.id].status
    ensures !handler.status.Terminal() && Step(s, m).jobs == s.jobs
  {
  }

  lemma TakesInItsPhase(s: State, m: Move, id: JobId)
    requires m.Write? && m.h in s.inFlight && s.inFlight[m.h].Cancelling? && s.inFlight[m.h].id == id && id in s.jobs
    requires !s.inFlight[m.h].status.Terminal()
    ensures CancelTakes(s, m, id) <==> Phase(s.inFlight[m.h].status) == Phase(s.jobs[id].status)
    ensures CancelTakes(s, m, id) ==> Step(s, m).jobs[id].cancelRequestedAt == Some(m.now)
    ensures !CancelTakes(s, m, id) ==> Step(s, m).jobs == s.jobs
  {
  }

  /** Move `n` is the write of a cancel that read in move `h`. */
  predicate IsCancelOf(ms: seq<Move>, id: JobId, h: nat, n: nat) {
    n < |ms| && ms[n].Write? && ms[n].h == h && h in After(ms, n).inFlight
    && After(ms, n).inFlight[h].Cancelling? && After(ms, n).inFlight[h].id == id
  }

  lemma NotMovedByReading(ms: seq<Move>, id: JobId, h: nat)
    requires h < |ms| ==> Step(After(ms, h), ms[h]).jobs == After(ms, h).jobs
    ensures !MovesOn(ms, id, h)
  {
  }

  /**
   * Over any run: a cancel that read an unfinished job always answers that it was requested. It marks
   * the row exactly when the job neither started nor ended since the read, and else changes nothing.
   */
  lemma CancelMarksExactly(ms: seq<Move>, id: JobId, h: nat, n: nat)
    requires IsRun(ms) && IsCancelOf(ms, id, h, n)
    ensures id in After(ms, n + 1).jobs && h < n
    ensures if exists j: nat :: h < j < n && MovesOn(ms, id, j)
      then After(ms, n + 1).jobs == After(ms, n).jobs
      else After(ms, n + 1).jobs[id].cancelRequestedAt == Some(ms[n].now)
  {
    var handler := After(ms, n).inFlight[h];
    ReadEarlier(ms, n, h, handler);
    ReadOfACancel(After(ms, h), ms[h], handler);
    PhaseSince(ms, id, h, n);
    NotMovedByReading(ms, id, h);
    TakesInItsPhase(After(ms, n), ms[n], id);
    PhaseNext(ms, id, n);
  }

  // ---------------------------------------------------------------- two bad runs

  /** A job that runs after three moves; its completion reads, a cancel reads and writes, the completion writes. */
  function LostCancel(id: JobId, agent: string, at: int): seq<Move> {
    [Sql(Create(id, agent, 60, at)), Sql(Lease(agent, at, Some(id))), Sql(Start(id, agent, at)),
     CompleteRead(id, agent, 0), CancelRead(id), Write(4, at), Write(3, at)]
  }

  /** A cancel reads a leased job, the job starts, and the cancel writes. */
  function MissedCancel(id: JobId, agent: string, at: int): seq<Move> {
    [Sql(Create(id, agent, 60, at)), Sql(Lease(agent, at, Some(id))), CancelRead(id), Sql(Start(id, agent, at)), Write(2, at)]
  }

  function LeasedAt(agent: string, at: int): Job {
    NewJob(agent, 60, at).(status := Leased, leasedAt := Some(at), leaseExpiresAt := Some(at + LEASE_TTL))
  }

  function RunningAt(agent: string, at: int): Job {
    LeasedAt(agent, at).(status := Running, startedAt := Some(at))
  }

  lemma TwoMoves(ms: seq<Move>, id: JobId, agent: string, at: int)
    requires |ms| >= 2 && ms[0] == Sql(Create(id, agent, 60, at)) && ms[1] == Sql(Lease(agent, at, Some(id)))
    ensures PossibleAt(ms, 0) && PossibleAt(ms, 1)
    ensures After(ms, 2) == State(map[id := LeasedAt(agent, at)], map[], 2)
  {
    var t1 := map[id := NewJob(agent, 60, at)];
    assert After(ms, 0) == State(map[], map[], 0);
    assert After(ms, 1).jobs == t1;
    assert ValidPick(t1, agent, at, Some(id));
  }

  lemma ThreeMoves(id: JobId, agent: string, at: int)
    ensures var ms := LostCancel(id, agent, at);
      PossibleAt(ms, 0) && PossibleAt(ms, 1) && PossibleAt(ms, 2)
      && After(ms, 3) == State(map[id := RunningAt(agent, at)], map[], 3)
  {
    TwoMoves(LostCancel(id, agent, at), id, agent, at);
  }

  lemma TwoReads(id: JobId, agent: string, at: int)
    ensures var ms := LostCancel(id, agent, at); var running := RunningAt(agent, at);
      PossibleAt(ms, 3) && PossibleAt(ms, 4)
      && After(ms, 5) == State(map[id := running], map[3 := Completing(id, agent, 0, running), 4 := Cancelling(id, Running)], 5)
  {
    ThreeMoves(id, agent, at);
  }

  lemma CancelThenComplete(id: JobId, agent: string, at: int)
    ensures var ms := LostCancel(id, agent, at); var t := After(ms, 7).jobs;
      PossibleAt(ms, 5) && PossibleAt(ms, 6)
      && id in t && t[id].status == Succeeded && t[id].cancelRequestedAt == Some(at)
  {
    TwoReads(id, agent, at);
    var ms, running := LostCancel(id, agent, at), RunningAt(agent, at);
    assert After(ms, 6) == State(map[id := running.(cancelRequestedAt := Some(at), errorCode := Some("CANCEL_REQUESTED"))],
                                 map[3 := Completing(id, agent, 0, running)], 6);
  }

  /** A cancel can be lost: the job ends `succeeded` after the cancel was recorded. */
  lemma CancelCanBeLost(id: JobId, agent: string, at: int)
    ensures var ms := LostCancel(id, agent, at); var t := After(ms, |ms|).jobs;
      IsRun(ms) && id in t && t[id].status == Succeeded && t[id].cancelRequestedAt.Some?
  {
    ThreeMoves(id, agent, at);
    TwoReads(id, agent, at);
    CancelThenComplete(id, agent, at);
  }

  lemma MissedMoves(id: JobId, agent: string, at: int)
    ensures var ms := MissedCancel(id, agent, at);
      PossibleAt(ms, 2) && PossibleAt(ms, 3)
      && After(ms, 4) == State(map[id := RunningAt(agent, at)], map[2 := Cancelling(id, Leased)], 4)
  {
    TwoMoves(MissedCancel(id, agent, at), id, agent, at);
  }

  /** A cancel can be missed: it read a job that had not started, answers `cancelled`, and the job runs on unmarked. */
  lemma CancelCanBeMissed(id: JobId, agent: string, at: int)
    ensures var ms := MissedCancel(id, agent, at); var t := After(ms, |ms|).jobs;
      IsRun(ms) && id in t && t[id].status == Running && t[id].cancelRequestedAt.None?
  {
    TwoMoves(MissedCancel(id, agent, at), id, agent, at);
    MissedMoves(id, agent, at);
  }
}
