/**
 * The runner's job table (runner-cloud/src/index.ts): every SQL statement that creates or
 * changes a job row, as one atomic step, and the request handlers built from them.
 * Times are whole seconds.
 */
module RunnerJobs {
  import opened Wrappers

  datatype Status = Pending | Leased | Running | Succeeded | Failed | Cancelled | TimedOut {
    predicate Terminal() {
      this in {Succeeded, Failed, Cancelled, TimedOut}
    }

    predicate Unstarted() {
      this == Pending || this == Leased
    }
  }

  datatype Job = Job(
    agent: string, status: Status, timeout: int, createdAt: int, expiresAt: int,
    leasedAt: Option<int>, leaseExpiresAt: Option<int>, startedAt: Option<int>,
    completedAt: Option<int>, exitCode: Option<int>, errorCode: Option<string>,
    cancelRequestedAt: Option<int>)

  type JobId = string
  type Table = map<JobId, Job>

  const QUEUE_TTL := 600
  const LEASE_TTL := 60
  const GRACE := 90

  /** SQL's `at < now`, which a NULL never satisfies. */
  predicate Before(at: Option<int>, now: int) {
    at.Some? && at.value < now
  }

  // --------------------------------------------------------------- recovery

  predicate StalePending(j: Job, now: int) {
    j.status == Pending && j.expiresAt < now
  }

  predicate StaleLease(j: Job, now: int) {
    j.status == Leased && Before(j.leaseExpiresAt, now)
  }

  predicate LostRunner(j: Job, now: int) {
    j.status == Running && j.startedAt.Some? && j.startedAt.value + j.timeout + GRACE < now
  }

  function TimeOut(j: Job, now: int, error: string): Job {
    j.(status := TimedOut, completedAt := Some(now), errorCode := Some(error))
  }

  // The four UPDATEs of the batch, row by row.

  function ExpirePending(j: Job, now: int): Job {
    if StalePending(j, now) then TimeOut(j, now, "JOB_EXPIRED") else j
  }

  function Requeue(j: Job, now: int): Job {
    if StaleLease(j, now) && j.expiresAt >= now
    then j.(status := Pending, leasedAt := None, leaseExpiresAt := None) else j
  }

  function ExpireLeased(j: Job, now: int): Job {
    if StaleLease(j, now) && j.expiresAt < now then TimeOut(j, now, "LEASE_EXPIRED") else j
  }

  function LoseRunner(j: Job, now: int): Job {
    if LostRunner(j, now) then TimeOut(j, now, "RUNNER_LOST").(exitCode := Some(124)) else j
  }

  function RecoverRow(j: Job, now: int): Job {
    LoseRunner(ExpireLeased(Requeue(ExpirePending(j, now), now), now), now)
  }

  function Recovered(t: Table, now: int): Table {
    map id | id in t :: RecoverRow(t[id], now)
  }

  // ------------------------------------------------------------- statements

  predicate Leasable(t: Table, agent: string, now: int, id: JobId) {
    id in t && t[id].agent == agent && t[id].status == Pending && t[id].expiresAt >= now
  }

  /** The rows `ORDER BY created_at ASC LIMIT 1` may pick. */
  ghost predicate ValidPick(t: Table, agent: string, now: int, picked: Option<JobId>) {
    match picked
    case None => forall id | id in t :: !Leasable(t, agent, now, id)
    case Some(id) =>
      Leasable(t, agent, now, id)
      && forall other | other in t && Leasable(t, agent, now, other) :: t[id].createdAt <= t[other].createdAt
  }

  datatype Event =
    | Create(id: JobId, agent: string, timeout: int, now: int)
    | Recover(now: int)
    | Lease(agent: string, now: int, picked: Option<JobId>)
    | Start(id: JobId, agent: string, now: int)
    | CompleteWrite(id: JobId, agent: string, now: int, status: Status, exitCode: int)
    | CancelRunningWrite(id: JobId, now: int)
    | CancelWaitingWrite(id: JobId, now: int)

  function NewJob(agent: string, timeout: int, now: int): Job {
    Job(agent, Pending, timeout, now, now + QUEUE_TTL, None, None, None, None, None, None, None)
  }

  predicate CanStart(t: Table, id: JobId, agent: string, now: int) {
    && id in t && t[id].agent == agent && t[id].status == Leased
    && t[id].leaseExpiresAt.Some? && t[id].leaseExpiresAt.value >= now
  }

  predicate IsRunning(t: Table, id: JobId, agent: string) {
    id in t && t[id].agent == agent && t[id].status == Running
  }

  function ErrorOf(status: Status): Option<string> {
    if status == Cancelled then Some("CANCELLED") else if status == Failed then Some("JOB_FAILED") else None
  }

  /** One statement. A guard that matches no row changes nothing. */
  function Apply(t: Table, e: Event): Table {
    match e
    case Create(id, agent, timeout, now) =>
      if id in t then t else t[id := NewJob(agent, timeout, now)]
    case Recover(now) => Recovered(t, now)
    case Lease(_, now, picked) =>
      if picked.Some? && picked.value in t && t[picked.value].status == Pending then
        t[picked.value := t[picked.value].(status := Leased, leasedAt := Some(now), leaseExpiresAt := Some(now + LEASE_TTL))]
      else t
    case Start(id, agent, now) =>
      if CanStart(t, id, agent, now) then t[id := t[id].(status := Running, startedAt := Some(now))] else t
    case CompleteWrite(id, agent, now, status, exitCode) =>
      if IsRunning(t, id, agent) then
        t[id := t[id].(status := status, completedAt := Some(now), exitCode := Some(exitCode), errorCode := ErrorOf(status))]
      else t
    case CancelRunningWrite(id, now) =>
      if id in t && t[id].status == Running then
        t[id := t[id].(cancelRequestedAt := Some(now), errorCode := Some("CANCEL_REQUESTED"))]
      else t
    case CancelWaitingWrite(id, now) =>
      if id in t && t[id].status.Unstarted() then
        t[id := t[id].(status := Cancelled, cancelRequestedAt := Some(now), completedAt := Some(now), errorCode := Some("CANCELLED"))]
      else t
  }

  function Exec(t: Table, es: seq<Event>): Table
    decreases |es|
  {
    if es == [] then t else Exec(Apply(t, es[0]), es[1..])
  }

  /** What the handlers can send: checked timeouts, the row the SELECT picks, a terminal outcome. */
  ghost predicate ValidEvent(t: Table, e: Event) {
    match e
    case Create(_, _, timeout, _) => 1 <= timeout <= 3600
    case Lease(agent, now, picked) => ValidPick(t, agent, now, picked)
    case CompleteWrite(_, _, _, status, _) => status in {Succeeded, Failed, Cancelled}
    case _ => true
  }

  /** Any interleaving of statements, with no assumption on the clock. */
  ghost predicate ValidTrace(t: Table, es: seq<Event>)
    decreases |es|
  {
    es == [] || (ValidEvent(t, es[0]) && ValidTrace(Apply(t, es[0]), es[1..]))
  }

  // ------------------------------------------------------------- invariants

  ghost predicate RowOk(j: Job) {
    && j.expiresAt == j.createdAt + QUEUE_TTL
    && 1 <= j.timeout <= 3600
    && (j.completedAt.Some? <==> j.status.Terminal())
    && (j.status.Unstarted() ==> j.startedAt.None? && j.cancelRequestedAt.None?)
    && (j.status == Leased ==>
          j.leasedAt.Some? && j.leasedAt.value <= j.expiresAt
          && j.leaseExpiresAt == Some(j.leasedAt.value + LEASE_TTL))
    && (j.status == Running ==> j.startedAt.Some? && j.startedAt.value <= j.expiresAt + LEASE_TTL)
  }

  ghost predicate RowsOk(t: Table) {
    forall id | id in t :: RowOk(t[id])
  }

  lemma RecoverRowOk(j: Job, now: int)
    requires RowOk(j)
    ensures RowOk(RecoverRow(j, now))
  {
  }

  lemma RecoverKeepsRows(t: Table, now: int)
    requires RowsOk(t)
    ensures RowsOk(Recovered(t, now))
  {
    forall id | id in t ensures RowOk(RecoverRow(t[id], now)) {
      RecoverRowOk(t[id], now);
    }
  }

  lemma ApplyKeepsRows(t: Table, e: Event)
    requires RowsOk(t) && ValidEvent(t, e)
    ensures RowsOk(Apply(t, e))
  {
    if e.Recover? {
      RecoverKeepsRows(t, e.now);
    }
  }

  /** In every run, every row is well-formed; in particular `completed_at` is set exactly on terminal rows. */
  lemma {:induction false} RowsStayOk(t: Table, es: seq<Event>)
    requires RowsOk(t) && ValidTrace(t, es)
    ensures RowsOk(Exec(t, es))
    decreases |es|
  {
    if es != [] {
      ApplyKeepsRows(t, es[0]);
      RowsStayOk(Apply(t, es[0]), es[1..]);
    }
  }

  /** A terminal row is never changed or removed by any later statements. */
  lemma {:induction false} TerminalRowsNeverChange(t: Table, es: seq<Event>, id: JobId)
    requires id in t && t[id].status.Terminal()
    ensures id in Exec(t, es) && Exec(t, es)[id] == t[id]
    decreases |es|
  {
    if es != [] {
      TerminalRowsNeverChange(Apply(t, es[0]), es[1..], id);
    }
  }

  // ------------------------------------------------------- bounded lifetime

  predicate RowIsFresh(j: Job, now: int) {
    !StalePending(j, now) && !StaleLease(j, now) && !LostRunner(j, now)
  }

  ghost predicate Fresh(t: Table, now: int) {
    forall id | id in t :: RowIsFresh(t[id], now)
  }

  lemma RecoverRowTwice(j: Job, now: int)
    ensures RecoverRow(RecoverRow(j, now), now) == RecoverRow(j, now) && RowIsFresh(RecoverRow(j, now), now)
  {
  }

  /** Recovery leaves no stale row, and doing it again at the same time changes nothing. */
  lemma RecoveryIsComplete(t: Table, now: int)
    ensures Fresh(Recovered(t, now), now)
    ensures Recovered(Recovered(t, now), now) == Recovered(t, now)
  {
    forall id | id in t
      ensures RecoverRow(RecoverRow(t[id], now), now) == RecoverRow(t[id], now) && RowIsFresh(RecoverRow(t[id], now), now)
    {
      RecoverRowTwice(t[id], now);
    }
  }

  const MAX_AGE := QUEUE_TTL + LEASE_TTL + GRACE

  /** In every run, recovery after `created_at + timeout + 750` ends the job, for good. */
  lemma BoundedLifetime(es: seq<Event>, id: JobId, now: int, later: seq<Event>)
    requires ValidTrace(map[], es) && id in Exec(map[], es)
    requires now > Exec(map[], es)[id].createdAt + Exec(map[], es)[id].timeout + MAX_AGE
    ensures var t := Recovered(Exec(map[], es), now);
      t[id].status.Terminal() && id in Exec(t, later) && Exec(t, later)[id] == t[id]
  {
    RowsStayOk(map[], es);
    var t := Exec(map[], es);
    assert RowOk(t[id]);
    TerminalRowsNeverChange(Recovered(t, now), later, id);
  }

  /** The bound is exact: a job leased and started at the last moments is still running then. */
  lemma LifetimeBoundIsTight(id: JobId, agent: string, timeout: int, at: int)
    requires 1 <= timeout <= 3600
    ensures var es := [Create(id, agent, timeout, at), Lease(agent, at + QUEUE_TTL, Some(id)),
                       Start(id, agent, at + QUEUE_TTL + LEASE_TTL), Recover(at + timeout + MAX_AGE)];
      ValidTrace(map[], es) && id in Exec(map[], es) && Exec(map[], es)[id].status == Running
  {
    var create, lease := Create(id, agent, timeout, at), Lease(agent, at + QUEUE_TTL, Some(id));
    var start, recover := Start(id, agent, at + QUEUE_TTL + LEASE_TTL), Recover(at + timeout + MAX_AGE);
    var t1 := Apply(map[], create);
    var t2 := Apply(t1, lease);
    var t3 := Apply(t2, start);
    var t4 := Apply(t3, recover);
    assert ValidTrace(t4, []) && Exec(t4, []) == t4;
    assert [recover][1..] == [] && ValidTrace(t3, [recover]) && Exec(t3, [recover]) == t4;
    assert [start, recover][1..] == [recover] && ValidTrace(t2, [start, recover]) && Exec(t2, [start, recover]) == t4;
    assert [lease, start, recover][1..] == [start, recover];
    assert ValidTrace(t1, [lease, start, recover]) && Exec(t1, [lease, start, recover]) == t4;
    assert [create, lease, start, recover][1..] == [lease, start, recover];
  }

  // ------------------------------------------------------------ single start

  /** How many times the job is really started. */
  function Starts(t: Table, es: seq<Event>, id: JobId): nat
    decreases |es|
  {
    if es == [] then 0
    else
      (if es[0].Start? && es[0].id == id && CanStart(t, id, es[0].agent, es[0].now) then 1 else 0)
      + Starts(Apply(t, es[0]), es[1..], id)
  }

  lemma {:induction false} NoStartAfterStart(t: Table, es: seq<Event>, id: JobId)
    requires id in t && !t[id].status.Unstarted() && ValidTrace(t, es)
    ensures Starts(t, es, id) == 0
    decreases |es|
  {
    if es != [] {
      NoStartAfterStart(Apply(t, es[0]), es[1..], id);
    }
  }

  /** Over any run a job is started at most once, however often it is leased. */
  lemma {:induction false} StartedAtMostOnce(t: Table, es: seq<Event>, id: JobId)
    requires ValidTrace(t, es)
    ensures Starts(t, es, id) <= 1
    decreases |es|
  {
    if es != [] {
      if es[0].Start? && es[0].id == id && CanStart(t, id, es[0].agent, es[0].now) {
        NoStartAfterStart(Apply(t, es[0]), es[1..], id);
      } else {
        StartedAtMostOnce(Apply(t, es[0]), es[1..], id);
      }
    }
  }

  // ------------------------------------------------------------- lease spacing

  ghost predicate ClockFrom(es: seq<Event>, now: int) {
    es == [] || (now <= es[0].now && ClockFrom(es[1..], es[0].now))
  }

  predicate Leases(e: Event, id: JobId) {
    e.Lease? && e.picked == Some(id)
  }

  /** Granted at `at`, the job cannot be leased again before the lease has run out. */
  ghost predicate Held(t: Table, id: JobId, at: int, now: int) {
    now > at + LEASE_TTL
    || (id in t && t[id].status != Pending && (t[id].status == Leased ==> t[id].leaseExpiresAt == Some(at + LEASE_TTL)))
  }

  lemma {:induction false} NextLease(t: Table, es: seq<Event>, id: JobId, at: int, now: int, j: nat)
    requires ValidTrace(t, es) && ClockFrom(es, now) && Held(t, id, at, now)
    requires j < |es| && Leases(es[j], id)
    ensures es[j].now > at + LEASE_TTL
    decreases j
  {
    if j > 0 {
      assert Held(Apply(t, es[0]), id, at, es[0].now);
      NextLease(Apply(t, es[0]), es[1..], id, at, es[0].now, j - 1);
    }
  }

  /** With a clock that never goes back, two leases of one job are more than 60 seconds apart. */
  lemma {:induction false} LeasesApart(t: Table, es: seq<Event>, now: int, id: JobId, i: nat, j: nat)
    requires ValidTrace(t, es) && ClockFrom(es, now)
    requires i < j < |es| && Leases(es[i], id) && Leases(es[j], id)
    ensures es[j].now > es[i].now + LEASE_TTL
    decreases i
  {
    if i > 0 {
      LeasesApart(Apply(t, es[0]), es[1..], es[0].now, id, i - 1, j - 1);
    } else {
      NextLease(Apply(t, es[0]), es[1..], id, es[0].now, es[0].now, j - 1);
    }
  }

  // ------------------------------------------------------ what a cancel means

  /** The outcome a completion chooses from the row it read. */
  function Outcome(read: Job, exitCode: int): Status {
    if read.cancelRequestedAt.Some? then Cancelled else if exitCode == 0 then Succeeded else Failed
  }

  /** The write a cancel chooses from the status it read. */
  function CancelWrite(read: Status, id: JobId, now: int): Event {
    if read == Running then CancelRunningWrite(id, now) else CancelWaitingWrite(id, now)
  }

  /** A trace in which no other statement comes between a handler's read and its write. */
  ghost predicate AtomicTrace(t: Table, es: seq<Event>)
    decreases |es|
  {
    es == [] || (
      && ValidEvent(t, es[0])
      && (es[0].CompleteWrite? ==>
            es[0].id in t && es[0].status == Outcome(t[es[0].id], es[0].exitCode))
      && (es[0].CancelRunningWrite? || es[0].CancelWaitingWrite? ==>
            es[0].id in t && es[0] == CancelWrite(t[es[0].id].status, es[0].id, es[0].now))
      && AtomicTrace(Apply(t, es[0]), es[1..]))
  }

  /** A requested cancel and the outcome `cancelled` go together. */
  ghost predicate CancelHonoured(j: Job) {
    && (j.cancelRequestedAt.Some? ==> j.status in {Running, Cancelled, TimedOut})
    && (j.status == Cancelled ==> j.cancelRequestedAt.Some?)
  }

  /** With atomic handlers, no cancelled job ever counts as succeeded or failed. */
  lemma {:induction false} CancelIsFinal(t: Table, es: seq<Event>)
    requires RowsOk(t) && AtomicTrace(t, es) && forall id | id in t :: CancelHonoured(t[id])
    ensures forall id | id in Exec(t, es) :: CancelHonoured(Exec(t, es)[id])
    decreases |es|
  {
    if es != [] {
      ApplyKeepsRows(t, es[0]);
      CancelIsFinal(Apply(t, es[0]), es[1..]);
    }
  }

  /**
   * A cancel that read status `read` always answers that it was requested. The row says so
   * exactly when its status is still of the kind that was read.
   */
  lemma CancelRace(t: Table, id: JobId, read: Status, now: int)
    requires id in t && t[id].cancelRequestedAt.None? && !read.Terminal()
    ensures Apply(t, CancelWrite(read, id, now))[id].cancelRequestedAt == Some(now)
      <==> if read == Running then t[id].status == Running else t[id].status.Unstarted()
  {
  }

  // ------------------------------------------------------------ the handlers

  datatype Reply = Done(status: Status) | NotFound | Conflict | Invalid

  lemma {:induction false} OldestExists(t: Table, ids: set<JobId>)
    requires ids != {} && ids <= t.Keys
    ensures exists id :: id in ids && forall other | other in ids :: t[id].createdAt <= t[other].createdAt
  {
    var some :| some in ids;
    if ids == {some} {
      assert forall other | other in ids :: t[some].createdAt <= t[other].createdAt;
    } else {
      OldestExists(t, ids - {some});
      var oldest :| oldest in ids - {some}
        && forall other | other in ids - {some} :: t[oldest].createdAt <= t[other].createdAt;
      var id := if t[some].createdAt <= t[oldest].createdAt then some else oldest;
      assert forall other | other in ids :: t[id].createdAt <= t[other].createdAt;
    }
  }

  /** The lease's inner SELECT. */
  method OldestPending(t: Table, agent: string, now: int) returns (picked: Option<JobId>)
    ensures ValidPick(t, agent, now, picked)
    ensures picked.None? <==> forall id | id in t :: t[id].agent == agent && t[id].status == Pending ==> t[id].expiresAt < now
    ensures picked.Some? ==>
      var id := picked.value;
      id in t && t[id].agent == agent && t[id].status == Pending && t[id].expiresAt >= now
      && forall other | other in t && t[other].agent == agent && t[other].status == Pending && t[other].expiresAt >= now ::
           t[id].createdAt <= t[other].createdAt
  {
    var eligible := set id | id in t && Leasable(t, agent, now, id);
    assert forall id | id in t && Leasable(t, agent, now, id) :: id in eligible;
    if eligible == {} { return None; }
    OldestExists(t, eligible);
    var id: JobId :| id in eligible && forall other | other in eligible :: t[id].createdAt <= t[other].createdAt;
    return Some(id);
  }

  /** What the table keeps when every handler runs without interruption. */
  ghost predicate TableOk(t: Table) {
    RowsOk(t) && forall id | id in t :: CancelHonoured(t[id])
  }

  lemma RecoveryKeepsTable(t: Table, now: int)
    requires TableOk(t)
    ensures TableOk(Recovered(t, now))
  {
    ApplyKeepsRows(t, Recover(now));
  }

  lemma LeaseKeepsTable(t: Table, agent: string, now: int, picked: Option<JobId>)
    requires TableOk(t) && ValidPick(t, agent, now, picked)
    ensures TableOk(Apply(t, Lease(agent, now, picked)))
  {
    ApplyKeepsRows(t, Lease(agent, now, picked));
  }

  /** The jobs table and the handlers that change it, each run without interruption. */
  /** Recovery, row by row, at once: which rows change, and how. */
  lemma RecoveredRow(j: Job, now: int)
    ensures RecoverRow(j, now) ==
      if j.status == Pending && j.expiresAt < now then
        j.(status := TimedOut, completedAt := Some(now), errorCode := Some("JOB_EXPIRED"))
      else if j.status == Leased && j.leaseExpiresAt.Some? && j.leaseExpiresAt.value < now then
        if j.expiresAt >= now then j.(status := Pending, leasedAt := None, leaseExpiresAt := None)
        else j.(status := TimedOut, completedAt := Some(now), errorCode := Some("LEASE_EXPIRED"))
      else if j.status == Running && j.startedAt.Some? && j.startedAt.value + j.timeout + 90 < now then
        j.(status := TimedOut, completedAt := Some(now), exitCode := Some(124), errorCode := Some("RUNNER_LOST"))
      else j
  {
  }

  class JobStore {
    var jobs: Table

    ghost predicate Valid()
      reads this
    {
      TableOk(jobs)
    }

    constructor ()
      ensures jobs == map[] && Valid()
    {
      jobs := map[];
    }

    method CreateJob(id: JobId, agent: string, timeout: int, now: int) returns (reply: Reply)
      requires Valid()
      modifies this
      ensures Valid()
      ensures reply == if timeout < 1 || timeout > 3600 then Invalid else if id in old(jobs) then Conflict else Done(Pending)
      ensures jobs ==
        if reply.Done? then old(jobs)[id := Job(agent, Pending, timeout, now, now + 600, None, None, None, None, None, None, None)]
        else old(jobs)
      ensures reply.Done? ==> jobs == Apply(old(jobs), Create(id, agent, timeout, now))
    {
      if timeout < 1 || timeout > 3600 { return Invalid; }
      if id in jobs { return Conflict; }
      jobs := jobs[id := NewJob(agent, timeout, now)];
      return Done(Pending);
    }

    method RecoverStaleJobs(now: int)
      requires Valid()
      modifies this
      ensures Valid() && jobs == Recovered(old(jobs), now) && Fresh(jobs, now)
    {
      jobs := map id | id in jobs :: ExpirePending(jobs[id], now);
      jobs := map id | id in jobs :: Requeue(jobs[id], now);
      jobs := map id | id in jobs :: ExpireLeased(jobs[id], now);
      jobs := map id | id in jobs :: LoseRunner(jobs[id], now);
      RecoveryKeepsTable(old(jobs), now);
      RecoveryIsComplete(old(jobs), now);
    }

    /** Recovers, then leases the agent's oldest pending job for 60 seconds. */
    method LeaseJob(agent: string, now: int) returns (picked: Option<JobId>)
      requires Valid()
      modifies this
      ensures Valid()
      ensures ValidPick(Recovered(old(jobs), now), agent, now, picked)
      ensures var t := Recovered(old(jobs), now);
        if picked.None? then jobs == t
        else
          picked.value in t && t[picked.value].agent == agent && t[picked.value].status == Pending && t[picked.value].expiresAt >= now
          && jobs == t[picked.value := t[picked.value].(status := Leased, leasedAt := Some(now), leaseExpiresAt := Some(now + 60))]
      ensures jobs == Apply(Recovered(old(jobs), now), Lease(agent, now, picked))
    {
      RecoverStaleJobs(now);
      picked := OldestPending(jobs, agent, now);
      LeaseKeepsTable(jobs, agent, now, picked);
      if picked.Some? {
        var id := picked.value;
        jobs := jobs[id := jobs[id].(status := Leased, leasedAt := Some(now), leaseExpiresAt := Some(now + LEASE_TTL))];
      }
    }

    method StartJob(id: JobId, agent: string, now: int) returns (reply: Reply)
      requires Valid()
      modifies this
      ensures Valid()
      ensures reply ==
        if id in old(jobs) && old(jobs)[id].agent == agent && old(jobs)[id].status == Leased
           && old(jobs)[id].leaseExpiresAt.Some? && old(jobs)[id].leaseExpiresAt.value >= now
        then Done(Running) else Conflict
      ensures jobs ==
        if reply.Done? then old(jobs)[id := old(jobs)[id].(status := Running, startedAt := Some(now))] else old(jobs)
      ensures jobs == Apply(old(jobs), Start(id, agent, now))
    {
      if !CanStart(jobs, id, agent, now) { return Conflict; }
      jobs := jobs[id := jobs[id].(status := Running, startedAt := Some(now))];
      return Done(Running);
    }

    method CompleteJob(id: JobId, agent: string, now: int, exitCode: int) returns (reply: Reply)
      requires Valid()
      modifies this
      ensures Valid()
      ensures reply.Invalid? <==> !(-0x8000_0000 <= exitCode <= 0x7fff_ffff)
      ensures reply.Conflict? <==>
        -0x8000_0000 <= exitCode <= 0x7fff_ffff
        && !(id in old(jobs) && old(jobs)[id].agent == agent && old(jobs)[id].status == Running)
      ensures !reply.NotFound? && (!reply.Done? ==> jobs == old(jobs))
      ensures reply.Done? ==>
        var job := old(jobs)[id].(completedAt := Some(now), exitCode := Some(exitCode));
        if job.cancelRequestedAt.Some? then
          reply.status == Cancelled && jobs == old(jobs)[id := job.(status := Cancelled, errorCode := Some("CANCELLED"))]
        else if exitCode == 0 then
          reply.status == Succeeded && jobs == old(jobs)[id := job.(status := Succeeded, errorCode := None)]
        else
          reply.status == Failed && jobs == old(jobs)[id := job.(status := Failed, errorCode := Some("JOB_FAILED"))]
      ensures reply.Done? ==> jobs == Apply(old(jobs), CompleteWrite(id, agent, now, Outcome(old(jobs)[id], exitCode), exitCode))
    {
      if exitCode < -2147483648 || exitCode > 2147483647 { return Invalid; }
      if !IsRunning(jobs, id, agent) { return Conflict; }
      var status := if jobs[id].cancelRequestedAt.Some? then Cancelled else if exitCode == 0 then Succeeded else Failed;
      jobs := jobs[id := jobs[id].(status := status, completedAt := Some(now), exitCode := Some(exitCode), errorCode := ErrorOf(status))];
      return Done(status);
    }

    method CancelJob(id: JobId, now: int) returns (reply: Reply)
      requires Valid()
      modifies this
      ensures Valid()
      ensures reply ==
        if id !in old(jobs) then NotFound
        else if old(jobs)[id].status in {Succeeded, Failed, Cancelled, TimedOut} then Conflict
        else Done(if old(jobs)[id].status == Running then Running else Cancelled)
      ensures !reply.Done? ==> jobs == old(jobs)
      ensures reply.Done? ==>
        var job := old(jobs)[id].(cancelRequestedAt := Some(now));
        jobs == old(jobs)[id :=
          if old(jobs)[id].status == Running then job.(errorCode := Some("CANCEL_REQUESTED"))
          else job.(status := Cancelled, completedAt := Some(now), errorCode := Some("CANCELLED"))]
      ensures reply.Done? ==> jobs == Apply(old(jobs), CancelWrite(old(jobs)[id].status, id, now))
    {
      if id !in jobs { return NotFound; }
      var status := jobs[id].status;
      if status.Terminal() { return Conflict; }
      if status == Running {
        jobs := jobs[id := jobs[id].(cancelRequestedAt := Some(now), errorCode := Some("CANCEL_REQUESTED"))];
      } else {
        jobs := jobs[id := jobs[id].(status := Cancelled, cancelRequestedAt := Some(now), completedAt := Some(now), errorCode := Some("CANCELLED"))];
      }
      return Done(if status == Running then Running else Cancelled);
    }
  }
}
