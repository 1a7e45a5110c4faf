/**
 * A deployment's live log over server-sent events, resumed by `Last-Event-ID`
 * (backend/src/services/DeploymentManager.js, backend/src/routes/deploy.js; section 9.2 of the WHATWG HTML Standard).
 */
module SseResume {
  import opened Wrappers
  import opened Text
  import opened Numerals

  /** A `log` event: its id is the line's index in the session's buffer. */
  datatype Frame = Frame(id: nat, line: string)

  /** The lines from `start` on, with their indices. */
  function FramesFrom(logs: seq<string>, start: nat): seq<Frame> {
    if start >= |logs| then [] else seq(|logs| - start, i requires 0 <= i < |logs| - start => Frame(start + i, logs[start + i]))
  }

  // ------------------------------------------------------------------ the header

  // JavaScript's `Number` of a text (section 7.1.4.1 of ECMA-262), exact: nothing is rounded.

  function Digits(s: string, base: nat): Option<real> {
    if s != "" && AreDigits(s, base) then Some(Value(s, base) as real) else None
  }

  /** The number with its decimal point `n` places further to the right. */
  function Scaled(x: real, n: int): real
    decreases if n < 0 then -n else n
  {
    if n == 0 then x else if n > 0 then Scaled(10.0 * x, n - 1) else Scaled(x / 10.0, n + 1)
  }

  /** Digits, with at most one point among them. */
  function Mantissa(s: string): Option<real> {
    var dot := IndexOf(s, '.');
    if dot == |s| then Digits(s, 10)
    else
      var value := Digits(s[..dot] + s[dot + 1..], 10);
      if value.None? then None else Some(Scaled(value.value, dot + 1 - |s|))
  }

  predicate HasSign(s: string) {
    s != "" && s[0] in {'+', '-'}
  }

  function Exponent(s: string): Option<int> {
    var value := Digits(if HasSign(s) then s[1..] else s, 10);
    if value.None? then None else Some(if HasSign(s) && s[0] == '-' then -value.value.Floor else value.value.Floor)
  }

  function Decimal(s: string): Option<real> {
    var at := if IndexOf(s, 'e') <= IndexOf(s, 'E') then IndexOf(s, 'e') else IndexOf(s, 'E');
    if at == |s| then Mantissa(s)
    else
      var mantissa, exponent := Mantissa(s[..at]), Exponent(s[at + 1..]);
      if mantissa.None? || exponent.None? then None else Some(Scaled(mantissa.value, exponent.value))
  }

  function BaseOf(s: string): nat {
    if |s| < 2 || s[0] != '0' then 10
    else if s[1] in {'x', 'X'} then 16
    else if s[1] in {'o', 'O'} then 8
    else if s[1] in {'b', 'B'} then 2
    else 10
  }

  /** The number a text without spaces around it is; `Infinity` is no index and left out. */
  function Written(s: string): Option<real> {
    if BaseOf(s) != 10 then Digits(s[2..], BaseOf(s))
    else if HasSign(s) then
      var value := Decimal(s[1..]);
      if value.None? then None else Some(if s[0] == '-' then -value.value else value.value)
    else Decimal(s)
  }

  /** A blank text is 0. */
  function NumberOf(text: string): Option<real> {
    if Trim(text) == "" then Some(0.0) else Written(Trim(text))
  }

  /** `Number.isInteger`, within the buffer. */
  predicate IsIndex(number: Option<real>, size: nat) {
    number.Some? && number.value == number.value.Floor as real && 0.0 <= number.value < size as real
  }

  /** Where the replay starts: right after a valid id, else at the first line. */
  function ReplayStart(header: Option<string>, size: nat): (start: nat)
    ensures start <= size
  {
    if header.Some? && IsIndex(NumberOf(header.value), size) then NumberOf(header.value).value.Floor + 1 else 0
  }

  lemma NotAmong(s: string, c: char)
    requires c !in s
    ensures IndexOf(s, c) == |s|
  {
  }

  lemma DigitsAreWritten(s: string)
    requires s != "" && AreDigits(s, 10)
    ensures Written(s) == Some(Value(s, 10) as real)
  {
    forall c | c in {'.', 'e', 'E', 'x', 'X', 'o', 'O', '+', '-'} ensures c !in s {
      assert DigitValue(c) >= 10;
    }
    NotAmong(s, '.');
    NotAmong(s, 'e');
    NotAmong(s, 'E');
  }

  class Stream {
    const start: nat
    var written: seq<Frame>

    constructor (from: nat)
      ensures start == from && written == []
    {
      start, written := from, [];
    }
  }

  class Session {
    var logs: seq<string>
    var subscribers: set<Stream>

    /** Each subscriber was written the lines from its start to the end, each once and in order. */
    ghost predicate Valid()
      reads this, subscribers
    {
      forall s | s in subscribers :: s.start <= |logs| && s.written == FramesFrom(logs, s.start)
    }

    constructor ()
      ensures Valid() && logs == [] && subscribers == {}
    {
      logs, subscribers := [], {};
    }

    /** `pushLog`: a subscriber whose write fails is dropped. */
    method PushLog(line: string)
      requires Valid()
      modifies this, subscribers
      ensures Valid() && logs == old(logs) + [line]
      ensures subscribers <= old(subscribers)
      ensures forall s | s in subscribers :: s.written == old(s.written) + [Frame(|old(logs)|, line)]
    {
      var index := |logs|;
      logs := logs + [line];
      ghost var all := subscribers;
      var todo := subscribers;
      while todo != {}
        invariant todo <= subscribers <= all && logs == old(logs) + [line]
        invariant forall s | s in todo :: s.written == old(s.written)
        invariant forall s | s in subscribers - todo :: s.written == old(s.written) + [Frame(index, line)]
        decreases todo
      {
        var s :| s in todo;
        todo := todo - {s};
        var broken: bool := *;
        if broken {
          subscribers := subscribers - {s};
        } else {
          s.written := s.written + [Frame(index, line)];
        }
      }
      forall s | s in subscribers ensures s.written == FramesFrom(logs, s.start) {
        OneMoreFrame(old(logs), line, s.start);
      }
    }

    /** The route: what is buffered is replayed, then the stream is subscribed; nothing comes in between. */
    method OpenStream(lastEventId: Option<string>) returns (s: Stream)
      requires Valid()
      modifies this
      ensures Valid() && fresh(s) && logs == old(logs) && subscribers == old(subscribers) + {s}
      ensures s.start == ReplayStart(lastEventId, |logs|) && s.written == FramesFrom(logs, s.start)
    {
      var replayStart := ReplayStart(lastEventId, |logs|);
      s := new Stream(replayStart);
      for i := replayStart to |logs|
        invariant logs == old(logs) && subscribers == old(subscribers) && fresh(s)
        invariant s.written == FramesFrom(logs[..i], replayStart)
        invariant forall x | x in subscribers :: x.start <= |logs| && x.written == FramesFrom(logs, x.start)
      {
        assert logs[..i + 1] == logs[..i] + [logs[i]];
        OneMoreFrame(logs[..i], logs[i], replayStart);
        s.written := s.written + [Frame(i, logs[i])];
      }
      assert logs[..|logs|] == logs;
      subscribers := subscribers + {s};
    }
  }

  lemma OneMoreFrame(logs: seq<string>, line: string, start: nat)
    requires start <= |logs|
    ensures FramesFrom(logs + [line], start) == FramesFrom(logs, start) + [Frame(|logs|, line)]
  {
    var before, after := FramesFrom(logs, start), FramesFrom(logs + [line], start);
    assert |after| == |before| + 1 && after[|before|] == Frame(|logs|, line);
    assert forall i | 0 <= i < |before| :: after[i] == before[i];
  }

  // ------------------------------------------------------------------- one client

  /** `link` are the frames that are written on the open connection and not yet received. */
  datatype State = State(logs: seq<string>, received: seq<string>, lastEventId: Option<string>, link: Option<seq<Frame>>)

  datatype Event = Push(line: string) | Connect | Receive | Disconnect

  function Next(s: State, e: Event): State {
    match e
    case Push(line) =>
      s.(logs := s.logs + [line], link := if s.link.None? then None else Some(s.link.value + [Frame(|s.logs|, line)]))
    case Connect => s.(link := Some(FramesFrom(s.logs, ReplayStart(s.lastEventId, |s.logs|))))
    case Receive =>
      if s.link.None? || s.link.value == [] then s
      else
        var f := s.link.value[0];
        s.(received := s.received + [f.line], lastEventId := Some(Print(f.id, 10)), link := Some(s.link.value[1..]))
    case Disconnect => s.(link := None)
  }

  function After(s: State, es: seq<Event>): State
    decreases |es|
  {
    if es == [] then s else After(Next(s, es[0]), es[1..])
  }

  /** The client has the first lines, knows how many, and the rest is on its way. */
  ghost predicate InStep(s: State) {
    && s.received <= s.logs
    && s.lastEventId == (if s.received == [] then None else Some(Print(|s.received| - 1, 10)))
    && (s.link.Some? ==> s.link.value == FramesFrom(s.logs, |s.received|))
  }

  lemma DigitsHaveNoSpace(s: string)
    requires s != "" && AreDigits(s, 10)
    ensures Trim(s) == s
  {
    assert !IsSpace(s[0]) && !IsSpace(s[|s| - 1]);
  }

  lemma ResumesRightAfter(n: nat, size: nat)
    requires n < size
    ensures ReplayStart(Some(Print(n, 10)), size) == n + 1
  {
    ValueOfPrint(n, 10);
    var t := Print(n, 10);
    DigitsHaveNoSpace(t);
    DigitsAreWritten(t);
  }

  lemma ConnectingResumes(s: State)
    requires InStep(s)
    ensures ReplayStart(s.lastEventId, |s.logs|) == |s.received|
  {
    if s.received != [] {
      ResumesRightAfter(|s.received| - 1, |s.logs|);
    }
  }

  lemma PushKeepsInStep(s: State, line: string)
    requires InStep(s)
    ensures InStep(Next(s, Push(line)))
  {
    OneMoreFrame(s.logs, line, |s.received|);
  }

  lemma ReceiveKeepsInStep(s: State)
    requires InStep(s)
    ensures InStep(Next(s, Receive))
  {
    if s.link.Some? && s.link.value != [] {
      FirstFrame(s.logs, |s.received|);
      OneMoreReceived(s.received, s.logs);
    }
  }

  lemma OneMoreReceived(received: seq<string>, logs: seq<string>)
    requires received < logs
    ensures received + [logs[|received|]] <= logs
  {
  }

  lemma StepKeepsInStep(s: State, e: Event)
    requires InStep(s)
    ensures InStep(Next(s, e))
  {
    match e
    case Push(line) => PushKeepsInStep(s, line);
    case Connect => ConnectingResumes(s);
    case Receive => ReceiveKeepsInStep(s);
    case Disconnect =>
  }

  lemma FirstFrame(logs: seq<string>, start: nat)
    requires start < |logs|
    ensures FramesFrom(logs, start) != [] && FramesFrom(logs, start)[0] == Frame(start, logs[start])
    ensures FramesFrom(logs, start)[1..] == FramesFrom(logs, start + 1)
  {
  }

  /**
   * Whatever is pushed and however often the connection breaks, with frames lost on it, the client's
   * lines are a prefix of the buffer; once nothing is on its way they are all of it.
   */
  lemma {:induction false} NoGapAndNoRepeat(s: State, es: seq<Event>)
    requires InStep(s)
    ensures var t := After(s, es);
      InStep(t) && t.received <= t.logs && (t.link == Some([]) ==> t.received == t.logs)
    decreases |es|
  {
    if es != [] {
      StepKeepsInStep(s, es[0]);
      NoGapAndNoRepeat(Next(s, es[0]), es[1..]);
    } else if s.link == Some([]) {
      assert |FramesFrom(s.logs, |s.received|)| == |s.logs| - |s.received|;
      assert s.received == s.logs[..|s.received|];
    }
  }

  /**
   * Of a header that is not the number of a line the replay makes the first line exactly when it is
   * not blank: a blank one reads as 0, and the first line is left out.
   */
  lemma BlankIdSkipsTheFirstLine(header: string, logs: seq<string>)
    requires logs != [] && !IsIndex(Written(Trim(header)), |logs|)
    ensures FramesFrom(logs, ReplayStart(Some(header), |logs|)) == FramesFrom(logs, 0) <==> Trim(header) != ""
    ensures Trim(header) == "" ==> FramesFrom(logs, ReplayStart(Some(header), |logs|)) == FramesFrom(logs, 0)[1..]
  {
    FirstFrame(logs, 0);
  }

  /** A client that sends an empty id, as no browser does, loses the first line. */
  lemma EmptyIdSkipsTheFirstLine(logs: seq<string>)
    requires logs != []
    ensures FramesFrom(logs, ReplayStart(Some(""), |logs|)) == FramesFrom(logs, ReplayStart(None, |logs|))[1..]
  {
    assert Written("").None?;
    BlankIdSkipsTheFirstLine("", logs);
  }
}
