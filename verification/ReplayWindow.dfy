/**
 * The timestamp window and the nonce table of agent requests (runner-cloud/src/agentAuth.ts).
 * Credentials and signatures are checked before the table is used; they are not part of this model.
 */
module ReplayWindow {
  const WINDOW: nat := 300
  const RETENTION: nat := 600

  type Key = (string, string)

  /** A request that reaches the checks at second `now` of the server's clock. */
  datatype Request = Request(agent: string, nonce: string, timestamp: int, now: int)

  /** `request_nonces`: when each nonce of an agent expires. */
  type Nonces = map<Key, int>

  function KeyOf(q: Request): Key {
    (q.agent, q.nonce)
  }

  predicate InWindow(q: Request, window: nat) {
    q.timestamp - window <= q.now <= q.timestamp + window
  }

  function DropExpired(table: Nonces, now: int): Nonces {
    map k | k in table && table[k] >= now :: table[k]
  }

  /** The insert violates no unique constraint. */
  predicate Accepts(table: Nonces, q: Request, window: nat) {
    InWindow(q, window) && KeyOf(q) !in DropExpired(table, q.now)
  }

  /** A batch that fails is rolled back, its deletion too. */
  function Next(table: Nonces, q: Request, window: nat, retention: nat): Nonces {
    if Accepts(table, q, window) then DropExpired(table, q.now)[KeyOf(q) := q.now + retention] else table
  }

  datatype Verdict = Authenticated | StaleRequest | ReplayedRequest

  class NonceTable {
    var rows: Nonces

    constructor ()
      ensures rows == map[]
    {
      rows := map[];
    }

    method Authenticate(q: Request) returns (v: Verdict)
      modifies this
      ensures rows == Next(old(rows), q, WINDOW, RETENTION)
      ensures v == Authenticated <==> Accepts(old(rows), q, WINDOW)
      ensures v == StaleRequest <==> q.now > q.timestamp + 300 || q.timestamp > q.now + 300
      ensures v == ReplayedRequest <==>
        v != StaleRequest && (q.agent, q.nonce) in old(rows) && q.now <= old(rows)[(q.agent, q.nonce)]
      ensures v == Authenticated ==>
        && (q.agent, q.nonce) in rows && rows[(q.agent, q.nonce)] == q.now + 600
        && (forall k | k != (q.agent, q.nonce) :: k in rows <==> k in old(rows) && q.now <= old(rows)[k])
        && (forall k | k in rows && k != (q.agent, q.nonce) :: rows[k] == old(rows)[k])
      ensures v != Authenticated ==> rows == old(rows)
    {
      var distance := if q.now >= q.timestamp then q.now - q.timestamp else q.timestamp - q.now;
      if distance > WINDOW {
        return StaleRequest;
      }
      var before := rows;
      rows := DropExpired(rows, q.now);
      if KeyOf(q) in rows {
        rows := before;
        return ReplayedRequest;
      }
      rows := rows[KeyOf(q) := q.now + RETENTION];
      v := Authenticated;
    }
  }

  // ------------------------------------------------------------------ whole runs

  function TableAfter(qs: seq<Request>, window: nat, retention: nat): Nonces
    decreases |qs|
  {
    if qs == [] then map[]
    else Next(TableAfter(qs[..|qs| - 1], window, retention), qs[|qs| - 1], window, retention)
  }

  predicate Accepted(qs: seq<Request>, i: nat, window: nat, retention: nat)
    requires i < |qs|
  {
    Accepts(TableAfter(qs[..i], window, retention), qs[i], window)
  }

  predicate ClockRuns(qs: seq<Request>) {
    forall i, j | 0 <= i < j < |qs| :: qs[i].now <= qs[j].now
  }

  /** The row of an accepted request is there, unless its retention is over. */
  lemma {:induction false} RowStays(qs: seq<Request>, i: nat, n: nat, window: nat, retention: nat)
    requires ClockRuns(qs) && i < n <= |qs| && Accepted(qs, i, window, retention)
    ensures var table := TableAfter(qs[..n], window, retention);
      (KeyOf(qs[i]) in table && table[KeyOf(qs[i])] >= qs[i].now + retention) || qs[n - 1].now > qs[i].now + retention
    decreases n
  {
    assert qs[..n][..n - 1] == qs[..n - 1];
    if i < n - 1 {
      RowStays(qs, i, n - 1, window, retention);
      assert qs[n - 2].now <= qs[n - 1].now;
    }
  }

  /** A nonce is accepted again only after its retention, whatever the timestamp says. */
  lemma NonceSleeps(qs: seq<Request>, i: nat, j: nat, window: nat, retention: nat)
    requires ClockRuns(qs) && i < j < |qs|
    requires Accepted(qs, i, window, retention) && Accepted(qs, j, window, retention) && KeyOf(qs[i]) == KeyOf(qs[j])
    ensures qs[j].now > qs[i].now + retention
  {
    RowStays(qs, i, j, window, retention);
    assert qs[j - 1].now <= qs[j].now;
  }

  predicate SameTriple(a: Request, b: Request) {
    KeyOf(a) == KeyOf(b) && a.timestamp == b.timestamp
  }

  ghost predicate NoReplay(qs: seq<Request>, window: nat, retention: nat) {
    forall i, j | 0 <= i < j < |qs| && SameTriple(qs[i], qs[j]) ::
      !(Accepted(qs, i, window, retention) && Accepted(qs, j, window, retention))
  }

  lemma LongRetentionStopsReplay(qs: seq<Request>, window: nat, retention: nat)
    requires ClockRuns(qs) && retention >= 2 * window
    ensures NoReplay(qs, window, retention)
  {
    forall i, j | 0 <= i < j < |qs| && SameTriple(qs[i], qs[j])
      ensures !(Accepted(qs, i, window, retention) && Accepted(qs, j, window, retention))
    {
      if Accepted(qs, i, window, retention) && Accepted(qs, j, window, retention) {
        NonceSleeps(qs, i, j, window, retention);
      }
    }
  }

  /** Accepted at the very start and at the very end of its window. */
  function FirstAndLast(window: nat): seq<Request> {
    [Request("agent", "nonce", window, 0), Request("agent", "nonce", window, 2 * window)]
  }

  lemma ShortRetentionAllowsReplay(window: nat, retention: nat)
    requires retention < 2 * window
    ensures ClockRuns(FirstAndLast(window)) && !NoReplay(FirstAndLast(window), window, retention)
  {
    var qs := FirstAndLast(window);
    assert qs[..0] == [] && qs[..1] == [qs[0]];
    assert [qs[0]][..0] == [];
    assert TableAfter([qs[0]], window, retention) == map[KeyOf(qs[0]) := retention];
    assert Accepted(qs, 0, window, retention) && Accepted(qs, 1, window, retention) && SameTriple(qs[0], qs[1]);
  }

  /**
   * No (agent, nonce, timestamp) triple authenticates twice, in any run whose clock does not go back,
   * exactly when a nonce is kept for twice the window; ±300 s and 600 s just meet.
   */
  lemma RetentionIsExactlyTight(window: nat, retention: nat)
    ensures (forall qs | ClockRuns(qs) :: NoReplay(qs, window, retention)) <==> retention >= 2 * window
    ensures RETENTION == 2 * WINDOW
  {
    if retention >= 2 * window {
      forall qs | ClockRuns(qs) ensures NoReplay(qs, window, retention) {
        LongRetentionStopsReplay(qs, window, retention);
      }
    } else {
      ShortRetentionAllowsReplay(window, retention);
    }
  }

  /**
   * The clock is read before the credential and the signature are checked, and the table is used
   * after. If another request overtakes in between, the clock the table sees goes back, and a nonce
   * that was just deleted is accepted again.
   */
  const OVERTAKEN: seq<Request> := [
    Request("agent", "nonce", 300, 0), Request("agent", "other", 601, 601), Request("agent", "nonce", 300, 600)]

  lemma OvertakingAllowsReplay()
    ensures !ClockRuns(OVERTAKEN) && !NoReplay(OVERTAKEN, WINDOW, RETENTION)
  {
    var qs := OVERTAKEN;
    var key, other := ("agent", "nonce"), ("agent", "other");
    assert "nonce" != "other" by { assert |"nonce"| == |"other"|; assert "nonce"[0] != "other"[0]; }
    assert qs[0].now > -1 && qs[1].now > qs[2].now;
    assert qs[..0] == [] && qs[..1] == [qs[0]] && qs[..2] == [qs[0], qs[1]];
    assert [qs[0]][..0] == [] && [qs[0], qs[1]][..1] == [qs[0]];
    assert TableAfter([qs[0]], WINDOW, RETENTION) == map[key := 600];
    assert TableAfter([qs[0], qs[1]], WINDOW, RETENTION) == map[other := 1201];
    assert Accepted(qs, 0, WINDOW, RETENTION) && Accepted(qs, 2, WINDOW, RETENTION) && SameTriple(qs[0], qs[2]);
  }

  // --------------------------------------------------------- exactly, for any clock

  /** Request `i` is the last before `j` that took this nonce. */
  ghost predicate LastTaker(qs: seq<Request>, i: nat, j: nat, window: nat, retention: nat) {
    && i < j <= |qs| && Accepted(qs, i, window, retention)
    && forall k | i < k < j && KeyOf(qs[k]) == KeyOf(qs[i]) :: !Accepted(qs, k, window, retention)
  }

  /** An accepted request in between came with a clock past the row's retention, and deleted it. */
  ghost predicate Deleted(qs: seq<Request>, i: nat, j: nat, window: nat, retention: nat)
    requires i < j <= |qs|
  {
    exists k :: i < k < j && Accepted(qs, k, window, retention) && qs[k].now > qs[i].now + retention
  }

  lemma {:induction false} RowIsThere(qs: seq<Request>, i: nat, n: nat, window: nat, retention: nat)
    requires LastTaker(qs, i, n, window, retention)
    ensures var table := TableAfter(qs[..n], window, retention);
      if Deleted(qs, i, n, window, retention) then KeyOf(qs[i]) !in table
      else KeyOf(qs[i]) in table && table[KeyOf(qs[i])] == qs[i].now + retention
    decreases n
  {
    assert qs[..n][..n - 1] == qs[..n - 1];
    if i < n - 1 {
      RowIsThere(qs, i, n - 1, window, retention);
      assert Deleted(qs, i, n, window, retention) <==>
        Deleted(qs, i, n - 1, window, retention)
        || (Accepted(qs, n - 1, window, retention) && qs[n - 1].now > qs[i].now + retention);
    }
  }

  /**
   * Whatever the clock does: a nonce that was taken is accepted again in its window exactly when the
   * request itself, or an accepted one in between, came after the retention of the last taking.
   */
  lemma TakenAgainExactly(qs: seq<Request>, i: nat, j: nat, window: nat, retention: nat)
    requires j < |qs| && LastTaker(qs, i, j, window, retention) && KeyOf(qs[i]) == KeyOf(qs[j])
    ensures Accepted(qs, j, window, retention) <==>
      InWindow(qs[j], window) && (qs[j].now > qs[i].now + retention || Deleted(qs, i, j, window, retention))
  {
    RowIsThere(qs, i, j, window, retention);
  }

  /**
   * With the retention at least twice the window, the same triple is authenticated again exactly when
   * an accepted request in between came with a clock past the retention: it overtook.
   */
  lemma ReplayedExactly(qs: seq<Request>, i: nat, j: nat, window: nat, retention: nat)
    requires j < |qs| && LastTaker(qs, i, j, window, retention) && SameTriple(qs[i], qs[j])
    requires retention >= 2 * window
    ensures Accepted(qs, j, window, retention) <==> InWindow(qs[j], window) && Deleted(qs, i, j, window, retention)
    ensures Accepted(qs, j, window, retention) ==> exists k :: i < k < j && qs[k].now > qs[j].now
  {
    TakenAgainExactly(qs, i, j, window, retention);
    if Accepted(qs, j, window, retention) {
      var k :| i < k < j && Accepted(qs, k, window, retention) && qs[k].now > qs[i].now + retention;
    }
  }

  lemma {:induction false} SomeLastTaker(qs: seq<Request>, i: nat, j: nat, window: nat, retention: nat)
    returns (last: nat)
    requires i < j <= |qs| && Accepted(qs, i, window, retention)
    ensures i <= last && LastTaker(qs, last, j, window, retention) && KeyOf(qs[last]) == KeyOf(qs[i])
    decreases j - i
  {
    last := i;
    if k: nat :| i < k < j && KeyOf(qs[k]) == KeyOf(qs[i]) && Accepted(qs, k, window, retention) {
      last := SomeLastTaker(qs, k, j, window, retention);
    }
  }

  /** A second request with a triple that was authenticated slips through: its nonce's row is gone. */
  ghost predicate Slips(qs: seq<Request>, i: nat, j: nat, window: nat, retention: nat) {
    && i < j < |qs| && SameTriple(qs[i], qs[j]) && Accepted(qs, i, window, retention) && InWindow(qs[j], window)
    && forall last: nat | LastTaker(qs, last, j, window, retention) && KeyOf(qs[last]) == KeyOf(qs[j]) ::
         qs[j].now > qs[last].now + retention || Deleted(qs, last, j, window, retention)
  }

  /** A run, under any clock, authenticates a triple twice exactly when one slips through. */
  lemma NoReplayExactly(qs: seq<Request>, window: nat, retention: nat)
    ensures NoReplay(qs, window, retention) <==> !exists i: nat, j: nat :: Slips(qs, i, j, window, retention)
  {
    forall i: nat, j: nat | i < j < |qs| && SameTriple(qs[i], qs[j]) && Accepted(qs, i, window, retention)
      ensures Accepted(qs, j, window, retention) <==> Slips(qs, i, j, window, retention)
    {
      var last := SomeLastTaker(qs, i, j, window, retention);
      TakenAgainExactly(qs, last, j, window, retention);
      if Accepted(qs, j, window, retention) {
        forall other: nat | LastTaker(qs, other, j, window, retention) && KeyOf(qs[other]) == KeyOf(qs[j])
          ensures qs[j].now > qs[other].now + retention || Deleted(qs, other, j, window, retention)
        {
          TakenAgainExactly(qs, other, j, window, retention);
        }
      }
    }
  }
}
