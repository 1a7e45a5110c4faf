/** The fixed-window rate limiter (backend/src/core/rateLimiter.js). */
module RateLimiter {
  /** Requests counted for one key until `resetAt`. */
  datatype Bucket = Bucket(count: nat, resetAt: int)

  type Buckets = map<string, Bucket>

  predicate Live(bs: Buckets, key: string, now: int) {
    key in bs && bs[key].resetAt > now
  }

  function Opened(bs: Buckets, key: string, now: int, window: nat): Bucket {
    if Live(bs, key, now) then bs[key] else Bucket(0, now + window)
  }

  function Counted(bs: Buckets, key: string, now: int, window: nat): Buckets {
    var b := Opened(bs, key, now, window);
    bs[key := Bucket(b.count + 1, b.resetAt)]
  }

  predicate Allows(bs: Buckets, key: string, now: int, window: nat, max: nat) {
    Opened(bs, key, now, window).count < max
  }

  function Swept(bs: Buckets, now: int): Buckets {
    map k | k in bs && bs[k].resetAt > now :: bs[k]
  }

  function Max(a: int, b: int): int { if a >= b then a else b }

  class Limiter {
    const window: nat
    const max: nat
    var buckets: Buckets

    constructor (windowMs: nat, limit: nat)
      requires windowMs > 0 && limit > 0
      ensures window == windowMs && max == limit && buckets == map[]
    {
      window, max, buckets := windowMs, limit, map[];
    }

    method Check(key: string, now: int) returns (allowed: bool, retryAfterMs: int)
      requires window > 0
      modifies this
      ensures allowed == Allows(old(buckets), key, now, window, max)
      ensures buckets == Counted(old(buckets), key, now, window)
      ensures var live := key in old(buckets) && now < old(buckets)[key].resetAt;
        && buckets == old(buckets)[key := if live then Bucket(old(buckets)[key].count + 1, old(buckets)[key].resetAt) else Bucket(1, now + window)]
        && (allowed <==> (if live then old(buckets)[key].count else 0) < max)
      ensures retryAfterMs == buckets[key].resetAt - now > 0
    {
      if key !in buckets || buckets[key].resetAt <= now {
        buckets := buckets[key := Bucket(0, now + window)];
      }
      var bucket := buckets[key];
      bucket := bucket.(count := bucket.count + 1);
      buckets := buckets[key := bucket];
      retryAfterMs := Max(0, bucket.resetAt - now);
      allowed := bucket.count <= max;
    }

    /** The cleanup interval. */
    method Sweep(now: int)
      modifies this
      ensures buckets == Swept(old(buckets), now)
      ensures forall k :: k in buckets <==> k in old(buckets) && now < old(buckets)[k].resetAt
      ensures forall k | k in buckets :: buckets[k] == old(buckets)[k]
    {
      var todo := buckets.Keys;
      while todo != {}
        invariant todo <= old(buckets).Keys
        invariant forall k :: k in buckets <==> k in old(buckets) && (k in todo || old(buckets)[k].resetAt > now)
        invariant forall k | k in buckets :: buckets[k] == old(buckets)[k]
        decreases todo
      {
        var k :| k in todo;
        todo := todo - {k};
        if buckets[k].resetAt <= now {
          buckets := buckets - {k};
        }
      }
    }
  }

  // ---------------------------------------------------------------- the sweep

  datatype Event = Check(key: string, now: int) | Sweep(now: int)

  function Next(bs: Buckets, e: Event, window: nat): Buckets {
    match e
    case Check(key, now) => Counted(bs, key, now, window)
    case Sweep(now) => Swept(bs, now)
  }

  /** The answers to the checks of a run. */
  function Answers(bs: Buckets, es: seq<Event>, window: nat, max: nat): seq<bool>
    decreases |es|
  {
    if es == [] then []
    else
      (if es[0].Check? then [Allows(bs, es[0].key, es[0].now, window, max)] else [])
      + Answers(Next(bs, es[0], window), es[1..], window, max)
  }

  function WithoutSweeps(es: seq<Event>): seq<Event> {
    if es == [] then [] else (if es[0].Check? then [es[0]] else []) + WithoutSweeps(es[1..])
  }

  predicate ClockRuns(now: int, es: seq<Event>)
    decreases |es|
  {
    es == [] || (now <= es[0].now && ClockRuns(es[0].now, es[1..]))
  }

  ghost predicate SameLive(a: Buckets, b: Buckets, now: int) {
    forall k :: Live(a, k, now) == Live(b, k, now) && (Live(a, k, now) ==> a[k] == b[k])
  }

  /** If the clock does not go back, the sweeps change no answer. */
  lemma {:induction false} SweepsAreInvisible(a: Buckets, b: Buckets, now: int, es: seq<Event>, window: nat, max: nat)
    requires window > 0 && SameLive(a, b, now) && ClockRuns(now, es)
    ensures Answers(a, es, window, max) == Answers(b, WithoutSweeps(es), window, max)
    decreases |es|
  {
    if es != [] {
      var e := es[0];
      assert forall k | Live(a, k, e.now) :: Live(a, k, now);
      assert forall k | Live(b, k, e.now) :: Live(b, k, now);
      var a' := Next(a, e, window);
      if e.Check? {
        SweepsAreInvisible(a', Next(b, e, window), e.now, es[1..], window, max);
        assert WithoutSweeps(es) == [e] + WithoutSweeps(es[1..]);
        assert WithoutSweeps(es)[1..] == WithoutSweeps(es[1..]);
      } else {
        assert SameLive(a', b, e.now);
        SweepsAreInvisible(a', b, e.now, es[1..], window, max);
        assert WithoutSweeps(es) == WithoutSweeps(es[1..]);
      }
    }
  }

  // ---------------------------------------------------------------- the limit

  /** How many of the requests of one key, at these times, are let through. */
  function Allowed(b: Bucket, times: seq<int>, window: nat, max: nat): nat
    decreases |times|
  {
    if times == [] then 0
    else
      var now := if b.resetAt > times[0] then b else Bucket(0, times[0] + window);
      (if now.count < max then 1 else 0) + Allowed(Bucket(now.count + 1, now.resetAt), times[1..], window, max)
  }

  predicate InOrder(times: seq<int>) {
    forall i, j | 0 <= i < j < |times| :: times[i] <= times[j]
  }

  lemma {:induction false} WithinOneWindow(b: Bucket, times: seq<int>, window: nat, max: nat)
    requires forall i | 0 <= i < |times| :: times[i] < b.resetAt
    ensures Allowed(b, times, window, max) <= if b.count < max then max - b.count else 0
    decreases |times|
  {
    if times != [] {
      WithinOneWindow(Bucket(b.count + 1, b.resetAt), times[1..], window, max);
    }
  }

  /** In any time as long as the window at most twice the limit less one is let through. */
  lemma {:induction false} LessThanTwiceTheLimit(b: Bucket, times: seq<int>, start: int, window: nat, max: nat)
    requires window > 0 && max > 0 && InOrder(times) && b.count > 0
    requires forall i | 0 <= i < |times| :: start <= times[i] < start + window
    ensures Allowed(b, times, window, max) <= 2 * max - 1 - (if b.count < max then b.count - 1 else max - 1)
    decreases |times|
  {
    if times != [] {
      assert forall i | 0 <= i < |times[1..]| :: times[1..][i] == times[i + 1];
      if b.resetAt > times[0] {
        LessThanTwiceTheLimit(Bucket(b.count + 1, b.resetAt), times[1..], start, window, max);
      } else {
        WithinOneWindow(Bucket(1, times[0] + window), times[1..], window, max);
      }
    }
  }

  function Repeat(t: int, n: nat): seq<int> {
    seq(n, _ => t)
  }

  lemma {:induction false} AllPass(b: Bucket, t: int, n: nat, rest: seq<int>, window: nat, max: nat)
    requires b.resetAt > t && b.count + n <= max
    ensures Allowed(b, Repeat(t, n) + rest, window, max) == n + Allowed(Bucket(b.count + n, b.resetAt), rest, window, max)
    decreases n
  {
    if n == 0 {
      assert Repeat(t, 0) + rest == rest;
    } else {
      assert (Repeat(t, n) + rest)[1..] == Repeat(t, n - 1) + rest;
      AllPass(Bucket(b.count + 1, b.resetAt), t, n - 1, rest, window, max);
    }
  }

  lemma NextWindow(window: nat, max: nat)
    requires window > 0 && max > 0
    ensures Allowed(Bucket(max, window), Repeat(window, max), window, max) == max
  {
    var times := Repeat(window, max);
    assert times[0] == window && times[1..] == Repeat(window, max - 1) + [];
    AllPass(Bucket(1, 2 * window), window, max - 1, [], window, max);
  }

  function EndAndStart(window: nat, max: nat): seq<int>
    requires max > 0
  {
    Repeat(window - 1, max - 1) + Repeat(window, max)
  }

  /** That many do get through: the rest of one window at its end, and all of the next at its start. */
  lemma TheBoundIsTight(window: nat, max: nat)
    requires window > 1 && max > 0
    ensures Allowed(Bucket(1, window), EndAndStart(window, max), window, max) == 2 * max - 1
    ensures forall i | 0 <= i < |EndAndStart(window, max)| :: window - 1 <= EndAndStart(window, max)[i] < window - 1 + window
  {
    AllPass(Bucket(1, window), window - 1, max - 1, Repeat(window, max), window, max);
    NextWindow(window, max);
    EndAndStartAt(window, max);
  }

  lemma EndAndStartAt(window: nat, max: nat)
    requires max > 0
    ensures forall i | 0 <= i < |EndAndStart(window, max)| ::
      EndAndStart(window, max)[i] == if i < max - 1 then window - 1 else window
  {
  }

  // ------------------------------------------------------- the limit, on a run

  predicate In(e: Event, key: string, start: int, end: int) {
    e.Check? && e.key == key && start <= e.now < end
  }

  /** How many of a key's checks in `start..end` are answered with yes. */
  function Granted(es: seq<Event>, answers: seq<bool>, key: string, start: int, end: int): nat
    requires |answers| == |WithoutSweeps(es)|
    decreases |es|
  {
    if es == [] then 0
    else if es[0].Sweep? then Granted(es[1..], answers, key, start, end)
    else (if answers[0] && In(es[0], key, start, end) then 1 else 0) + Granted(es[1..], answers[1..], key, start, end)
  }

  lemma {:induction false} OneAnswerEach(bs: Buckets, es: seq<Event>, window: nat, max: nat)
    ensures |Answers(bs, es, window, max)| == |WithoutSweeps(es)|
    decreases |es|
  {
    if es != [] {
      OneAnswerEach(Next(bs, es[0], window), es[1..], window, max);
    }
  }

  /** The yes answers of a run to one key. */
  function GrantedIn(bs: Buckets, es: seq<Event>, window: nat, max: nat, key: string, start: int, end: int): nat {
    OneAnswerEach(bs, es, window, max);
    Granted(es, Answers(bs, es, window, max), key, start, end)
  }

  lemma GrantedStep(bs: Buckets, es: seq<Event>, window: nat, max: nat, key: string, start: int, end: int)
    requires es != []
    ensures GrantedIn(bs, es, window, max, key, start, end) ==
      (if In(es[0], key, start, end) && Allows(bs, key, es[0].now, window, max) then 1 else 0)
      + GrantedIn(Next(bs, es[0], window), es[1..], window, max, key, start, end)
  {
    OneAnswerEach(bs, es, window, max);
    OneAnswerEach(Next(bs, es[0], window), es[1..], window, max);
    var rest := Answers(Next(bs, es[0], window), es[1..], window, max);
    if es[0].Check? {
      assert Answers(bs, es, window, max)[1..] == rest;
    } else {
      assert Answers(bs, es, window, max) == rest;
    }
  }

  /** The times of a key's checks before `end`. */
  function TimesBefore(es: seq<Event>, key: string, end: int): seq<int>
    decreases |es|
  {
    if es == [] then []
    else (if es[0].Check? && es[0].key == key && es[0].now < end then [es[0].now] else []) + TimesBefore(es[1..], key, end)
  }

  /** `b` is the key's live bucket, or any that is over. */
  predicate StandsFor(b: Bucket, bs: Buckets, key: string, now: int) {
    if Live(bs, key, now) then b == bs[key] else b.resetAt <= now
  }

  lemma {:induction false} NothingAfterEnd(bs: Buckets, es: seq<Event>, now: int, window: nat, max: nat, key: string, start: int, end: int)
    requires ClockRuns(now, es) && now >= end
    ensures TimesBefore(es, key, end) == [] && GrantedIn(bs, es, window, max, key, start, end) == 0
    decreases |es|
  {
    if es != [] {
      GrantedStep(bs, es, window, max, key, start, end);
      NothingAfterEnd(Next(bs, es[0], window), es[1..], es[0].now, window, max, key, start, end);
    } else {
      OneAnswerEach(bs, es, window, max);
    }
  }

  /** Other keys and sweeps do not touch what stands for the key. */
  lemma StandsOn(b: Bucket, bs: Buckets, key: string, now: int, e: Event, window: nat)
    requires StandsFor(b, bs, key, now) && now <= e.now && !(e.Check? && e.key == key)
    ensures StandsFor(b, Next(bs, e, window), key, e.now)
  {
  }

  /** In any run, among other keys and sweeps, a key's yes answers are those of its own bucket. */
  lemma {:induction false} OneBucketDecides(b: Bucket, bs: Buckets, es: seq<Event>, now: int, window: nat, max: nat, key: string, start: int, end: int)
    requires window > 0 && ClockRuns(now, es) && start <= now && StandsFor(b, bs, key, now)
    ensures GrantedIn(bs, es, window, max, key, start, end) == Allowed(b, TimesBefore(es, key, end), window, max)
    decreases |es|
  {
    if es == [] {
      OneAnswerEach(bs, es, window, max);
    } else if es[0].now >= end {
      assert ClockRuns(es[0].now, es);
      NothingAfterEnd(bs, es, es[0].now, window, max, key, start, end);
    } else {
      var e, next := es[0], Next(bs, es[0], window);
      GrantedStep(bs, es, window, max, key, start, end);
      if e.Check? && e.key == key {
        OwnCheckDecides(b, bs, es, now, window, max, key, start, end);
      } else {
        StandsOn(b, bs, key, now, e, window);
        assert TimesBefore(es, key, end) == TimesBefore(es[1..], key, end);
        OneBucketDecides(b, next, es[1..], e.now, window, max, key, start, end);
      }
    }
  }

  lemma {:induction false} OwnCheckDecides(b: Bucket, bs: Buckets, es: seq<Event>, now: int, window: nat, max: nat, key: string, start: int, end: int)
    requires window > 0 && ClockRuns(now, es) && start <= now && StandsFor(b, bs, key, now)
    requires es != [] && es[0].Check? && es[0].key == key && es[0].now < end
    ensures GrantedIn(bs, es, window, max, key, start, end) == Allowed(b, TimesBefore(es, key, end), window, max)
    decreases |es|, 0
  {
    var t, times := es[0].now, TimesBefore(es, key, end);
    var bucket := Opened(bs, key, t, window);
    var b' := Bucket(bucket.count + 1, bucket.resetAt);
    GrantedStep(bs, es, window, max, key, start, end);
    assert Live(bs, key, t) ==> Live(bs, key, now);
    assert times == [t] + TimesBefore(es[1..], key, end) && times[1..] == TimesBefore(es[1..], key, end);
    OneBucketDecides(b', Next(bs, es[0], window), es[1..], t, window, max, key, start, end);
  }

  /** A bucket exists only for requests that were counted. */
  predicate CountsOk(bs: Buckets) {
    forall k | k in bs :: bs[k].count > 0
  }

  lemma {:induction false} TimesInOrder(es: seq<Event>, now: int, key: string, end: int)
    requires ClockRuns(now, es)
    ensures InOrder(TimesBefore(es, key, end))
    ensures forall i | 0 <= i < |TimesBefore(es, key, end)| :: now <= TimesBefore(es, key, end)[i] < end
    decreases |es|
  {
    if es != [] {
      TimesInOrder(es[1..], es[0].now, key, end);
    }
  }

  /**
   * In any run from the limiter's start on, with other keys and sweeps, no time as long as the
   * window has more than twice the limit less one of a key's requests let through.
   */
  lemma {:induction false} RunStaysUnderTheBound(bs: Buckets, es: seq<Event>, now: int, window: nat, max: nat, key: string, start: int)
    requires window > 0 && max > 0 && CountsOk(bs) && ClockRuns(now, es)
    ensures GrantedIn(bs, es, window, max, key, start, start + window) <= 2 * max - 1
    decreases |es|
  {
    if es == [] {
      OneAnswerEach(bs, es, window, max);
    } else if es[0].now < start {
      GrantedStep(bs, es, window, max, key, start, start + window);
      RunStaysUnderTheBound(Next(bs, es[0], window), es[1..], es[0].now, window, max, key, start);
    } else {
      var from := es[0].now;
      var b := if Live(bs, key, from) then bs[key] else Bucket(1, from);
      assert ClockRuns(from, es);
      OneBucketDecides(b, bs, es, from, window, max, key, start, start + window);
      TimesInOrder(es, from, key, start + window);
      LessThanTwiceTheLimit(b, TimesBefore(es, key, start + window), start, window, max);
    }
  }

  function ChecksAt(key: string, times: seq<int>): seq<Event> {
    seq(|times|, i requires 0 <= i < |times| => Check(key, times[i]))
  }

  lemma {:induction false} ChecksHaveTimes(key: string, times: seq<int>, now: int, end: int)
    requires InOrder(times) && forall i | 0 <= i < |times| :: now <= times[i] < end
    ensures ClockRuns(now, ChecksAt(key, times)) && TimesBefore(ChecksAt(key, times), key, end) == times
    decreases |times|
  {
    if times != [] {
      assert ChecksAt(key, times)[1..] == ChecksAt(key, times[1..]);
      ChecksHaveTimes(key, times[1..], times[0], end);
    }
  }

  /** The run from an empty limiter that lets that many through within one window's length. */
  lemma ARunMeetsTheBound(window: nat, max: nat, key: string)
    requires window > 1 && max > 0
    ensures var es := [Check(key, 0)] + ChecksAt(key, EndAndStart(window, max));
      ClockRuns(0, es) && GrantedIn(map[], es, window, max, key, window - 1, window - 1 + window) == 2 * max - 1
  {
    var times, end := EndAndStart(window, max), window - 1 + window;
    var checks := ChecksAt(key, times);
    var es := [Check(key, 0)] + checks;
    var counted := Next(map[], es[0], window);
    EndAndStartAt(window, max);
    TheBoundIsTight(window, max);
    ChecksHaveTimes(key, times, window - 1, end);
    ChecksHaveTimes(key, times, 0, end);
    assert es[1..] == checks;
    GrantedStep(map[], es, window, max, key, window - 1, end);
    assert counted[key] == Bucket(1, window);
    OneBucketDecides(Bucket(1, window), counted, checks, window - 1, window, max, key, window - 1, end);
  }
}
