/**
 * Streaming the log of one pipeline step: byte-range reads, split into lines with a carried partial
 * line (backend/src/adapters/ci/BitbucketPipelinesClient.js, backend/src/adapters/CiPipelineAdapter.js).
 * Lines are kept as bytes; their UTF-8 decoding and the scrubbing of the token are left out.
 */
module CiLog {
  import opened Wrappers
  import opened Text

  const NEWLINE := '\n'
  const LOG_NOT_AVAILABLE_BUDGET_MS := 30_000
  const MAX_LOG_READS_PER_FINISHED_STEP := 20

  // ------------------------------------------------------------------ the lines

  function DropCarriageReturn(line: Bytes): Bytes {
    if line != "" && line[|line| - 1] == '\r' then line[..|line| - 1] else line
  }

  predicate IsBlank(line: Bytes) {
    Trim(DropCarriageReturn(line)) == ""
  }

  function CleanLine(line: Bytes): seq<Bytes> {
    if IsBlank(line) then [] else [DropCarriageReturn(line)]
  }

  function Clean(lines: seq<Bytes>): seq<Bytes> {
    if lines == [] then [] else CleanLine(lines[0]) + Clean(lines[1..])
  }

  lemma {:induction false} CleanAppend(a: seq<Bytes>, b: seq<Bytes>)
    ensures Clean(a + b) == Clean(a) + Clean(b)
  {
    if a == [] {
      assert a + b == b;
    } else {
      CleanAppend(a[1..], b);
      assert (a + b)[0] == a[0] && (a + b)[1..] == a[1..] + b;
      Text.Regroup(CleanLine(a[0]), Clean(a[1..]), Clean(b));
    }
  }

  /** What of a log may be shown while more can come: its complete lines that are not blank. */
  function Shown(log: Bytes): seq<Bytes> {
    Clean(Front(Split(log, NEWLINE)))
  }

  /** What of a log is shown when it is over. */
  function ShownAll(log: Bytes): seq<Bytes> {
    Clean(Split(log, NEWLINE))
  }

  /** The line the log stops in. */
  function Tail(log: Bytes): Bytes {
    Last(Split(log, NEWLINE))
  }

  lemma ShownAndTail(log: Bytes)
    ensures ShownAll(log) == Shown(log) + Clean([Tail(log)])
  {
    var parts := Split(log, NEWLINE);
    assert parts == Front(parts) + [Last(parts)];
    CleanAppend(Front(parts), [Last(parts)]);
  }

  /** A further chunk only completes the tail. */
  lemma ShownGrows(log: Bytes, chunk: Bytes)
    ensures Shown(log + chunk) == Shown(log) + Shown(Tail(log) + chunk)
    ensures ShownAll(log + chunk) == Shown(log) + ShownAll(Tail(log) + chunk)
    ensures Tail(log + chunk) == Tail(Tail(log) + chunk)
  {
    var before, after := Front(Split(log, NEWLINE)), Split(Tail(log) + chunk, NEWLINE);
    SplitOfAppend(log, chunk, NEWLINE);
    assert Front(before + after) == before + Front(after);
    CleanAppend(before, Front(after));
    CleanAppend(before, after);
  }

  // ------------------------------------------------------- which lines those are

  lemma CleanLineMeans(line: Bytes)
    ensures CleanLine(line) ==
      if forall c | c in line :: IsSpace(c) then []
      else if line[|line| - 1] == '\r' then [line[..|line| - 1]]
      else [line]
  {
    var kept := DropCarriageReturn(line);
    BlankMeans(kept);
    assert forall c :: c in line ==> c in kept || c == '\r';
    assert forall c :: c in kept ==> c in line;
  }

  lemma NothingAfterANewline(log: Bytes)
    requires log == "" || log[|log| - 1] == NEWLINE
    ensures Tail(log) == ""
  {
    if log != "" {
      assert log == log[..|log| - 1] + ([NEWLINE] + "");
      SplitBeforeNewline(log[..|log| - 1], "");
    }
  }

  lemma ShownOfLine(line: Bytes, after: Bytes)
    requires NEWLINE !in line
    ensures Shown(line) == [] && ShownAll(line) == CleanLine(line) && Tail(line) == line
    ensures Shown(line + [NEWLINE] + after) == CleanLine(line) + Shown(after)
  {
    SplitStep(line, NEWLINE, after);
    var parts := Split(after, NEWLINE);
    assert Front([line]) == [] && Front([line] + parts) == [line] + Front(parts);
    assert ([line] + Front(parts))[1..] == Front(parts) && [line][1..] == [];
  }

  lemma AfterWholeLines(before: Bytes, rest: Bytes)
    requires before == "" || before[|before| - 1] == NEWLINE
    ensures Shown(before + rest) == Shown(before) + Shown(rest)
    ensures ShownAll(before + rest) == Shown(before) + ShownAll(rest)
    ensures Tail(before + rest) == Tail(rest)
  {
    NothingAfterANewline(before);
    ShownGrows(before, rest);
    assert "" + rest == rest;
  }

  /**
   * What is shown of a log, line by line: a line that has something else than white space is shown in
   * its place, whole but for one carriage return at its end, and a line of white space is not; the line
   * the log stops in is shown when the log is over.
   */
  lemma LineByLine(before: Bytes, line: Bytes, after: Bytes)
    requires before == "" || before[|before| - 1] == NEWLINE
    requires NEWLINE !in line
    ensures var shown :=
        if forall c | c in line :: IsSpace(c) then []
        else [if line[|line| - 1] == '\r' then line[..|line| - 1] else line];
      && Shown(before + (line + [NEWLINE] + after)) == Shown(before) + (shown + Shown(after))
      && Shown(before + line) == Shown(before) && Tail(before + line) == line
      && ShownAll(before + line) == Shown(before) + shown
  {
    CleanLineMeans(line);
    ShownOfLine(line, after);
    AfterWholeLines(before, line + [NEWLINE] + after);
    AfterWholeLines(before, line);
  }

  lemma NothingShownOfNothing()
    ensures Shown("") == [] && ShownAll("") == []
  {
    ShownOfLine("", "");
    CleanLineMeans("");
  }

  datatype SplitResult = SplitResult(lines: seq<Bytes>, pending: Bytes)

  /** `splitLogLines`: cuts at the last newline. */
  method SplitLogLines(pending: Bytes, chunk: Option<Bytes>, flush: bool) returns (r: SplitResult)
    ensures var buffer := pending + chunk.GetOr("");
      r == if flush then SplitResult(ShownAll(buffer), "") else SplitResult(Shown(buffer), Tail(buffer))
  {
    var buffer := if chunk.Some? && |chunk.value| > 0 then pending + chunk.value else pending;
    assert buffer == pending + chunk.GetOr("");
    var lastNewline := LastIndexOf(buffer, NEWLINE);
    var lines := if lastNewline == -1 then [] else Split(buffer[..lastNewline], NEWLINE);
    var rest := if lastNewline == -1 then buffer else buffer[lastNewline + 1..];
    CutAtLast(buffer);
    if flush && |rest| > 0 {
      lines, rest := lines + [rest], "";
    }
    r := SplitResult(Clean(lines), rest);
  }

  lemma CutLines(lines: seq<Bytes>, rest: Bytes, buffer: Bytes)
    requires Split(buffer, NEWLINE) == lines + [rest]
    ensures Clean(lines) == Shown(buffer) && rest == Tail(buffer) && Clean(lines + [rest]) == ShownAll(buffer)
  {
    assert Front(lines + [rest]) == lines && Last(lines + [rest]) == rest;
  }

  lemma NoRest(lines: seq<Bytes>)
    ensures Clean(lines + [""]) == Clean(lines)
  {
    CleanAppend(lines, [""]);
    assert Clean([""]) == [];
  }

  lemma CutAtLast(buffer: Bytes)
    ensures var n := LastIndexOf(buffer, NEWLINE);
      var lines := if n == -1 then [] else Split(buffer[..n], NEWLINE);
      var rest := if n == -1 then buffer else buffer[n + 1..];
      && Clean(lines) == Shown(buffer) && rest == Tail(buffer) && Clean(lines + [rest]) == ShownAll(buffer)
      && (rest == "" ==> Clean(lines) == ShownAll(buffer))
  {
    var n := LastIndexOf(buffer, NEWLINE);
    var lines := if n == -1 then [] else Split(buffer[..n], NEWLINE);
    var rest := if n == -1 then buffer else buffer[n + 1..];
    assert buffer[n + 1..] == rest;
    SplitAtLast(buffer);
    CutLines(lines, rest, buffer);
    NoRest(lines);
  }

  lemma TwoPieces(tail: Bytes, rest: Bytes)
    requires NEWLINE !in tail && NEWLINE !in rest
    ensures Split(tail + ([NEWLINE] + rest), NEWLINE) == [tail] + [rest]
  {
    assert tail + ([NEWLINE] + rest) == tail + [NEWLINE] + rest;
    SplitStep(tail, NEWLINE, rest);
    SplitStep(rest, NEWLINE, "");
  }

  lemma SplitBeforeNewline(a: Bytes, rest: Bytes)
    requires NEWLINE !in rest
    ensures Split(a + ([NEWLINE] + rest), NEWLINE) == Split(a, NEWLINE) + [rest]
  {
    var parts := Split(a, NEWLINE);
    JoinOfSplit(a, NEWLINE);
    assert Last(parts) in parts;
    SplitOfAppend(a, [NEWLINE] + rest, NEWLINE);
    TwoPieces(Last(parts), rest);
    PrependPieces(parts, rest);
  }

  lemma PrependPieces(parts: seq<Bytes>, rest: Bytes)
    requires |parts| >= 1
    ensures Front(parts) + ([Last(parts)] + [rest]) == parts + [rest]
  {
  }

  lemma NothingBehindTheLast(buffer: Bytes)
    requires LastIndexOf(buffer, NEWLINE) >= 0
    ensures var n := LastIndexOf(buffer, NEWLINE);
      NEWLINE !in buffer[n + 1..] && buffer == buffer[..n] + ([NEWLINE] + buffer[n + 1..])
  {
  }

  lemma OneUnendedLine(buffer: Bytes)
    requires LastIndexOf(buffer, NEWLINE) == -1
    ensures Split(buffer, NEWLINE) == [] + [buffer[0..]]
  {
    assert buffer[0..] == buffer;
    SplitStep(buffer, NEWLINE, "");
  }

  lemma LastLine(buffer: Bytes)
    requires LastIndexOf(buffer, NEWLINE) >= 0
    ensures var n := LastIndexOf(buffer, NEWLINE);
      Split(buffer, NEWLINE) == Split(buffer[..n], NEWLINE) + [buffer[n + 1..]]
  {
    var n := LastIndexOf(buffer, NEWLINE);
    var head, rest := buffer[..n], buffer[n + 1..];
    NothingBehindTheLast(buffer);
    SplitBeforeNewline(head, rest);
  }

  lemma SplitAtLast(buffer: Bytes)
    ensures var n := LastIndexOf(buffer, NEWLINE);
      Split(buffer, NEWLINE) == (if n == -1 then [] else Split(buffer[..n], NEWLINE)) + [buffer[n + 1..]]
  {
    if LastIndexOf(buffer, NEWLINE) == -1 {
      OneUnendedLine(buffer);
    } else {
      LastLine(buffer);
    }
  }

  // ------------------------------------------------------------------- one read

  datatype Answer =
    | Partial(bytes: Bytes, total: Option<nat>) // 206
    | Whole(bytes: Bytes) // 200
    | NotSatisfiable // 416
    | NotFound // 404
    | Failure(transient: bool) // any other status, and every failed request
    | Aborted

  /** What a server that holds `log` may answer to a read from `offset`. */
  ghost predicate Honest(a: Answer, offset: nat, log: Bytes) {
    match a
    case Partial(bytes, total) =>
      offset + |bytes| <= |log| && bytes == log[offset..offset + |bytes|] && (total.Some? ==> total.value == |log|)
    case Whole(bytes) => bytes == log
    case NotSatisfiable => offset >= |log|
    case _ => true
  }

  /** `notFoundSince` is the time of the first 404 of a finished step. */
  datatype Cursor = Cursor(offset: nat, pending: Bytes, notFoundSince: Option<int>)

  const START := Cursor(0, "", None)

  datatype ReadResult = Lines(lines: seq<Bytes>, cursor: Cursor, done: bool) | Failed(transient: bool) | Stopped

  function Min(a: nat, b: nat): nat { if a <= b then a else b }

  /** `readStepLog`, from the answer on. */
  method ReadStepLog(cursor: Cursor, terminal: bool, answer: Answer, now: int) returns (r: ReadResult)
    ensures r == AfterAnswer(cursor, terminal, answer, now)
  {
    var chunk: Option<Bytes> := None;
    var offset := cursor.offset;
    var atEnd := false;
    var notFoundSince: Option<int> := None;
    match answer {
      case Partial(bytes, total) =>
        chunk := Some(bytes);
        offset := offset + |bytes|;
        atEnd := total.Some? && offset >= total.value;
      case Whole(bytes) =>
        chunk := Some(bytes[Min(cursor.offset, |bytes|)..]);
        offset := |bytes|;
        atEnd := true;
      case NotSatisfiable =>
        atEnd := true;
      case NotFound =>
        if terminal {
          notFoundSince := Some(cursor.notFoundSince.GetOr(now));
          atEnd := now - notFoundSince.value >= LOG_NOT_AVAILABLE_BUDGET_MS;
        }
      case Failure(transient) =>
        return Failed(transient);
      case Aborted =>
        return Stopped;
    }
    var done := terminal && atEnd;
    var split := SplitLogLines(cursor.pending, chunk, done);
    r := Lines(split.lines, Cursor(offset, split.pending, notFoundSince), done);
  }

  function ChunkOf(answer: Answer, offset: nat): Bytes {
    match answer
    case Partial(bytes, _) => bytes
    case Whole(bytes) => bytes[Min(offset, |bytes|)..]
    case _ => ""
  }

  function OffsetAfter(answer: Answer, offset: nat): nat {
    match answer
    case Partial(bytes, _) => offset + |bytes|
    case Whole(bytes) => |bytes|
    case _ => offset
  }

  function NotFoundSince(cursor: Cursor, terminal: bool, answer: Answer, now: int): Option<int> {
    if answer.NotFound? && terminal then Some(cursor.notFoundSince.GetOr(now)) else None
  }

  predicate AtEnd(cursor: Cursor, terminal: bool, answer: Answer, now: int) {
    match answer
    case Partial(bytes, total) => total.Some? && cursor.offset + |bytes| >= total.value
    case Whole(_) => true
    case NotSatisfiable => true
    case NotFound => terminal && now - cursor.notFoundSince.GetOr(now) >= LOG_NOT_AVAILABLE_BUDGET_MS
    case _ => false
  }

  function AfterAnswer(cursor: Cursor, terminal: bool, answer: Answer, now: int): ReadResult {
    match answer
    case Failure(transient) => Failed(transient)
    case Aborted => Stopped
    case _ =>
      var done := terminal && AtEnd(cursor, terminal, answer, now);
      var buffer := cursor.pending + ChunkOf(answer, cursor.offset);
      Lines(
        if done then ShownAll(buffer) else Shown(buffer),
        Cursor(OffsetAfter(answer, cursor.offset), if done then "" else Tail(buffer), NotFoundSince(cursor, terminal, answer, now)),
        done)
  }

  /** What each kind of answer does to the cursor, and when it ends the log. */
  lemma AnswerMeans(cursor: Cursor, terminal: bool, answer: Answer, now: int, r: ReadResult)
    requires r == AfterAnswer(cursor, terminal, answer, now)
    ensures r.Failed? <==> answer.Failure?
    ensures r.Failed? ==> r.transient == answer.transient
    ensures r.Stopped? <==> answer.Aborted?
    ensures r.Lines? ==>
      var chunk :=
        if answer.Partial? then answer.bytes
        else if answer.Whole? && cursor.offset <= |answer.bytes| then answer.bytes[cursor.offset..]
        else "";
      && (r.done <==>
            terminal
            && (answer.Whole? || answer.NotSatisfiable?
                || (answer.Partial? && answer.total.Some? && cursor.offset + |answer.bytes| >= answer.total.value)
                || (answer.NotFound? && cursor.notFoundSince.Some? && now - cursor.notFoundSince.value >= 30_000)))
      && r.lines == (if r.done then ShownAll(cursor.pending + chunk) else Shown(cursor.pending + chunk))
      && r.cursor.pending == (if r.done then "" else Tail(cursor.pending + chunk))
      && r.cursor.offset == (if answer.Partial? then cursor.offset + |answer.bytes| else if answer.Whole? then |answer.bytes| else cursor.offset)
      && r.cursor.notFoundSince ==
           (if !answer.NotFound? || !terminal then None
            else if cursor.notFoundSince.Some? then cursor.notFoundSince else Some(now))
  {
  }

  /** The cursor is where the complete lines of the bytes read so far end. */
  ghost predicate InStep(cursor: Cursor, log: Bytes) {
    cursor.offset <= |log| && cursor.pending == Tail(log[..cursor.offset])
  }

  /** The lines are those that the bytes up to the new offset complete, and the cursor is where they end. */
  ghost predicate ShowsTheNext(cursor: Cursor, r: ReadResult, log: Bytes)
    requires r.Lines?
  {
    && cursor.offset <= r.cursor.offset <= |log|
    && Shown(log[..cursor.offset]) + r.lines == (if r.done then ShownAll(log[..r.cursor.offset]) else Shown(log[..r.cursor.offset]))
    && (r.done ==> r.cursor.pending == "") && (!r.done ==> InStep(r.cursor, log))
  }

  /**
   * A read shows exactly what its bytes complete: nothing twice, nothing skipped; the partial last
   * line exactly when it says it is done, which but for a long row of 404s is the end of the log.
   */
  lemma ReadShowsTheNext(cursor: Cursor, terminal: bool, answer: Answer, now: int, log: Bytes)
    requires InStep(cursor, log) && Honest(answer, cursor.offset, log)
    requires AfterAnswer(cursor, terminal, answer, now).Lines?
    ensures ShowsTheNext(cursor, AfterAnswer(cursor, terminal, answer, now), log)
    ensures AfterAnswer(cursor, terminal, answer, now).done && !answer.NotFound? ==>
      AfterAnswer(cursor, terminal, answer, now).cursor.offset == |log|
  {
    var r := AfterAnswer(cursor, terminal, answer, now);
    var chunk := ChunkOf(answer, cursor.offset);
    assert log[..cursor.offset] + chunk == log[..r.cursor.offset];
    ShownGrows(log[..cursor.offset], chunk);
  }

  /** The tail that an early end leaves out. */
  lemma TailLostExactly(log: Bytes)
    ensures Shown(log) == ShownAll(log) <==> IsBlank(Tail(log))
  {
    ShownAndTail(log);
    var tail := Clean([Tail(log)]);
    assert [Tail(log)][1..] == [] && tail == CleanLine(Tail(log));
    assert |Shown(log) + tail| == |Shown(log)| + |tail|;
    if tail == [] { assert Shown(log) + tail == Shown(log); }
  }

  // ------------------------------------------------------------ a row of 404s

  datatype Attempt = Attempt(terminal: bool, answer: Answer, now: int)

  /** The cursor after some reads; a read that throws leaves it. */
  function Follow(cursor: Cursor, attempts: seq<Attempt>): Cursor
    decreases |attempts|
  {
    if attempts == [] then cursor
    else
      var before := Follow(cursor, attempts[..|attempts| - 1]);
      var a := attempts[|attempts| - 1];
      var r := AfterAnswer(before, a.terminal, a.answer, a.now);
      if r.Lines? then r.cursor else before
  }

  ghost predicate RowOf404(attempts: seq<Attempt>, from: nat) {
    && from < |attempts| && attempts[from].answer.NotFound?
    && forall i | from <= i < |attempts| :: !attempts[i].answer.Failure? && !attempts[i].answer.Aborted? ==>
         attempts[i].terminal && attempts[i].answer.NotFound?
  }

  lemma {:induction false} BudgetCountsARow(attempts: seq<Attempt>)
    ensures var since := Follow(START, attempts).notFoundSince;
      since.Some? ==> exists from: nat :: RowOf404(attempts, from) && since.value == attempts[from].now
    decreases |attempts|
  {
    if attempts != [] {
      var front, last := attempts[..|attempts| - 1], attempts[|attempts| - 1];
      BudgetCountsARow(front);
      var before := Follow(START, front).notFoundSince;
      var since := Follow(START, attempts).notFoundSince;
      if since.Some? {
        if before.Some? {
          var from: nat :| RowOf404(front, from) && before.value == front[from].now;
          assert forall i | from <= i < |front| :: attempts[i] == front[i];
          assert RowOf404(attempts, from);
        } else {
          assert RowOf404(attempts, |front|);
        }
      }
    }
  }

  /**
   * A log is given up as not available only for a finished step, and only when 404 was the sole
   * answer for thirty seconds.
   */
  lemma GivesUpAfterTheBudget(attempts: seq<Attempt>, last: Attempt)
    requires last.answer.NotFound?
    requires var r := AfterAnswer(Follow(START, attempts), last.terminal, last.answer, last.now); r.Lines? && r.done
    ensures last.terminal
    ensures exists from: nat :: RowOf404(attempts, from) && last.now - attempts[from].now >= LOG_NOT_AVAILABLE_BUDGET_MS
  {
    BudgetCountsARow(attempts);
  }

  // ---------------------------------------------------------------- the adapter

  /** The step's log on the server; it only grows. */
  class StepLog {
    var log: Bytes

    constructor ()
      ensures log == ""
    {
      log := "";
    }

    /** Any answer an honest server may give, after any growth. */
    method Read(offset: nat) returns (a: Answer)
      requires offset <= |log|
      modifies this
      ensures old(log) <= log && Honest(a, offset, log)
    {
      var more: Bytes := *;
      log := log + more;
      a := *;
      var known: bool := *;
      match a {
        case Partial(bytes, _) =>
          var n := Min(offset + |bytes|, |log|);
          a := Partial(log[offset..n], if known then Some(|log|) else None);
        case Whole(_) =>
          a := Whole(log);
        case NotSatisfiable =>
          if offset < |log| {
            a := Whole(log);
          }
        case _ =>
      }
    }
  }

  datatype Phase = Queued | Running | Waiting | Succeeded | Failure | Cancelled | Skipped

  predicate Terminal(phase: Phase) {
    phase in {Succeeded, Phase.Failure, Cancelled, Skipped}
  }

  /** Each byte up to the cursor is shown exactly once, but for a tail that can still go on or was lost. */
  ghost predicate ShownSoFar(cursor: Cursor, emitted: seq<Bytes>, logDone: bool, tailLost: bool, log: Bytes) {
    && cursor.offset <= |log|
    && (!logDone ==> !tailLost && InStep(cursor, log))
    && emitted == if logDone && !tailLost then ShownAll(log[..cursor.offset]) else Shown(log[..cursor.offset])
  }

  lemma TakenIn(cursor: Cursor, emitted: seq<Bytes>, r: ReadResult, log: Bytes)
    requires ShownSoFar(cursor, emitted, false, false, log)
    requires r.Lines? && ShowsTheNext(cursor, r, log)
    ensures ShownSoFar(r.cursor, emitted + r.lines, r.done, false, log)
  {
  }

  /** The adapter's state of one step, and the lines it emitted for it. */
  class StepReader {
    const server: StepLog
    var cursor: Option<Cursor>
    var logDone: bool
    var logWarned: bool
    var finished: bool
    var emitted: seq<Bytes>
    ghost var tailLost: bool

    function At(): Cursor
      reads this
    {
      cursor.GetOr(START)
    }

    ghost predicate Valid()
      reads this, server
    {
      ShownSoFar(At(), emitted, logDone, tailLost, server.log)
    }

    constructor (log: StepLog)
      ensures Valid() && server == log && cursor == None && !logDone && emitted == []
    {
      server := log;
      cursor, logDone, logWarned, finished, emitted, tailLost := None, false, false, false, [], false;
      EmptyLog();
    }

    /** `_finishLog`: the partial line is flushed before giving up. */
    method FinishLog()
      requires Valid() && !logDone
      modifies this`logDone, this`emitted
      ensures Valid() && logDone && !tailLost
    {
      logDone := true;
      var split := SplitLogLines(At().pending, None, true);
      ShownAndTail(server.log[..At().offset]);
      ShownGrows(server.log[..At().offset], "");
      assert server.log[..At().offset] + "" == server.log[..At().offset];
      assert At().pending + "" == At().pending;
      emitted := emitted + split.lines;
    }

    /** One round of the loop of `_readStepLogs`: what the server answered is taken in. */
    method ReadOnce(terminal: bool, answer: Answer, now: int) returns (r: ReadResult)
      requires Valid() && !logDone && Honest(answer, At().offset, server.log)
      modifies this`cursor, this`emitted, this`logDone
      ensures Valid() && !tailLost && old(At()).offset <= At().offset
      ensures r == AfterAnswer(old(At()), terminal, answer, now)
      ensures if r.Lines? then cursor == Some(r.cursor) && emitted == old(emitted) + r.lines && logDone == r.done
        else cursor == old(cursor) && emitted == old(emitted) && !logDone
    {
      r := ReadStepLog(At(), terminal, answer, now);
      if r.Lines? {
        ReadShowsTheNext(At(), terminal, answer, now, server.log);
        TakeIn(r);
      }
    }

    method TakeIn(r: ReadResult)
      requires Valid() && !logDone && r.Lines? && ShowsTheNext(At(), r, server.log)
      modifies this`cursor, this`emitted, this`logDone
      ensures Valid() && cursor == Some(r.cursor) && emitted == old(emitted) + r.lines && logDone == r.done
    {
      TakenIn(At(), emitted, r, server.log);
      cursor := Some(r.cursor);
      emitted := emitted + r.lines;
      logDone := r.done;
    }

    /** `_readStepLogs`; false when an abort stops it. */
    method ReadStepLogs(phase: Phase, final: bool) returns (ok: bool)
      requires Valid() && !logDone
      modifies this`cursor, this`emitted, this`logDone, this`logWarned, server
      ensures Valid() && !tailLost && old(server.log) <= server.log
      ensures ok && final && Terminal(phase) ==> logDone
    {
      var maxReads := if Terminal(phase) then MAX_LOG_READS_PER_FINISHED_STEP else 1;
      var read := 0;
      var failure: Option<bool> := None;
      var more := true;
      var aborted: bool := *;
      while read < maxReads && !logDone && !aborted && more
        invariant Valid() && !tailLost && old(server.log) <= server.log
        invariant failure.Some? ==> !logDone && !more
        decreases maxReads - read
      {
        ghost var before := server.log;
        var answer := server.Read(At().offset);
        StillInStep(At(), before, server.log);
        var now: int := *;
        var r := ReadOnce(Terminal(phase), answer, now);
        match r {
          case Stopped =>
            return false;
          case Failed(transient) =>
            failure, more := Some(transient), false;
          case Lines(lines, _, done) =>
            if !done && lines == [] {
              var late: bool := *;
              if !final || read + 1 >= maxReads || late {
                more := false;
              } else {
                var wokenByAbort: bool := *;
                if wokenByAbort {
                  return false;
                }
              }
            }
        }
        read := read + 1;
        aborted := *;
      }
      if failure.Some? {
        if aborted {
          return false;
        }
        logWarned := true;
        if !failure.value {
          FinishLog();
        }
      }
      if final && Terminal(phase) && !logDone {
        FinishLog();
      }
      ok := true;
    }

    /** A skipped step's log is done at once; nothing is flushed. */
    method Skip()
      requires Valid()
      modifies this`logDone, this`tailLost
      ensures Valid() && logDone
      ensures tailLost <==> old(tailLost) || !old(logDone)
    {
      tailLost := tailLost || !logDone;
      logDone := true;
    }

    /** One step in `_processSteps`. */
    method ProcessStep(phase: Phase, final: bool) returns (ok: bool)
      requires Valid()
      modifies this, server
      ensures Valid() && old(server.log) <= server.log
      ensures ok && final && Terminal(phase) ==> logDone && finished
      ensures tailLost <==> old(tailLost) || (phase == Skipped && !old(logDone))
      ensures old(logDone) || phase == Skipped ==> logDone && emitted == old(emitted) && cursor == old(cursor)
    {
      if phase == Skipped {
        Skip();
      }
      ok := true;
      if !logDone && (Terminal(phase) || phase == Running) {
        ok := ReadStepLogs(phase, final);
      }
      if ok && Terminal(phase) && !finished && (logDone || final) {
        finished := true;
      }
    }

    /** The bytes read so far. */
    ghost function Read(): Bytes
      requires Valid()
      reads this, server
    {
      server.log[..At().offset]
    }

    /**
     * A whole watch of the step, whatever the server answers. A poll is None when its listing failed
     * or has no such step. `final` is the step's phase in the listing of the last flush; None when
     * that listing failed, and when the watch ends on its deadline, on failing polls or on an abort,
     * which make none.
     *
     * Every byte read was shown once, the partial last line included, exactly when the log was ended
     * without a skip, or that line is blank. Any other end leaves it out, and only it.
     */
    method Watch(polls: seq<Option<Phase>>, final: Option<Phase>) returns (ok: bool)
      requires Valid() && !logDone
      modifies this, server
      ensures Valid()
      ensures emitted == ShownAll(Read()) <==> (logDone && !tailLost) || IsBlank(Tail(Read()))
      ensures !(logDone && !tailLost) ==> emitted == Shown(Read())
      ensures ok && final.Some? && Terminal(final.value) ==> logDone
      ensures tailLost ==> Some(Skipped) in polls + [final]
    {
      ok := true;
      var i := 0;
      while i < |polls| && ok
        invariant 0 <= i <= |polls| && Valid()
        invariant tailLost ==> Some(Skipped) in polls + [final]
      {
        if polls[i].Some? {
          assert polls[i] in polls + [final];
          ok := ProcessStep(polls[i].value, false);
        }
        i := i + 1;
      }
      if ok && final.Some? {
        assert final in polls + [final];
        ok := ProcessStep(final.value, true);
      }
      TailLostExactly(Read());
    }
  }

  // ------------------------------------------------------------- lines left out

  /** The first bytes of a step that runs: one line, and the start of the next. */
  const TWO_LINES: Bytes := "a\nb"

  lemma TwoPiecesOfIt()
    ensures Split(TWO_LINES, NEWLINE) == ["a", "b"]
  {
    var a, b: Bytes := "a", "b";
    assert TWO_LINES == a + [NEWLINE] + b;
    SplitStep(a, NEWLINE, b);
    SplitStep(b, NEWLINE, "");
  }

  lemma OneLineShown()
    ensures Shown(TWO_LINES) == ["a"] && ShownAll(TWO_LINES) == ["a", "b"] && Tail(TWO_LINES) == "b"
  {
    TwoPiecesOfIt();
    var lines: seq<Bytes> := ["a", "b"];
    assert Front(lines) == ["a"] && lines[1..] == ["b"];
    assert lines[1..][1..] == [] && ["a"][1..] == [];
    assert !IsBlank("a") && !IsBlank("b");
  }

  lemma ALineIsLeftBehind()
    ensures Honest(Partial(TWO_LINES, None), 0, TWO_LINES)
    ensures AfterAnswer(START, false, Partial(TWO_LINES, None), 0) == Lines(["a"], Cursor(3, "b", None), false)
    ensures Shown(TWO_LINES) == ["a"] && ShownAll(TWO_LINES) == ["a", "b"]
  {
    OneLineShown();
    assert |TWO_LINES| == 3 && TWO_LINES[0..3] == TWO_LINES;
    assert START.pending + TWO_LINES == TWO_LINES;
  }

  /** A watch that ends here, without a listing of the last flush, never shows the second line. */
  method EndsInALine() returns (reader: StepReader)
    ensures fresh(reader) && reader.Valid() && !reader.logDone && reader.server.log == TWO_LINES
    ensures reader.Read() == TWO_LINES && reader.emitted == ["a"] && ShownAll(TWO_LINES) == ["a", "b"]
  {
    ALineIsLeftBehind();
    var server := new StepLog();
    server.log := TWO_LINES;
    reader := new StepReader(server);
    var _ := reader.ReadOnce(false, Partial(TWO_LINES, None), 0);
  }

  /** Neither does a step that is skipped now, and its log is done. */
  method SkippedInALine() returns (reader: StepReader)
    ensures fresh(reader) && reader.Valid() && reader.logDone && reader.tailLost
    ensures reader.Read() == TWO_LINES && reader.emitted == ["a"] && ShownAll(TWO_LINES) == ["a", "b"]
  {
    reader := EndsInALine();
    reader.Skip();
  }

  lemma EmptyLog()
    ensures Split("", NEWLINE) == [""] && Shown("") == [] && Tail("") == ""
  {
    assert Front([""]) == [];
  }

  lemma StillInStep(cursor: Cursor, before: Bytes, after: Bytes)
    requires before <= after && cursor.offset <= |before|
    ensures before[..cursor.offset] == after[..cursor.offset]
  {
  }
}
