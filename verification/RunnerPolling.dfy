/**
 * Log delivery for one runner job: the agent posts chunks, the API stores them
 * (runner-cloud/src/index.ts), the polling adapter shows them
 * (backend/src/adapters/CloudflareRunnerAdapter.js).
 */
module RunnerPolling {
  import opened Wrappers
  import opened Text
  import opened RunnerJobs

  datatype Stream = Stdout | Stderr | System
  datatype Chunk = Chunk(stream: Stream, content: string)
  datatype LogRow = LogRow(sequence: int, chunk: Chunk)

  /** A job's rows of `job_log_chunks`, by sequence number. */
  type Chunks = map<int, Chunk>

  const MAX_SEQUENCE := 10000
  const MAX_CONTENT := 16384

  /** The stored rows numbered `from..end`, in ascending order. */
  function Rows(c: Chunks, from: int, end: int): seq<LogRow>
    decreases end - from
  {
    if from >= end then []
    else (if from in c then [LogRow(from, c[from])] else []) + Rows(c, from + 1, end)
  }

  /** The SELECT ... ORDER BY sequence ASC of a poll. */
  function AllRows(c: Chunks): seq<LogRow> {
    Rows(c, 0, MAX_SEQUENCE + 1)
  }

  // ---------------------------------------------------------------- the adapter

  /** The rows that carry on after `last`, and the number of the last of them. */
  function NewRows(last: int, rows: seq<LogRow>): seq<LogRow>
    decreases |rows|
  {
    if rows == [] then []
    else if rows[0].sequence <= last then NewRows(last, rows[1..])
    else [rows[0]] + NewRows(rows[0].sequence, rows[1..])
  }

  function LastAfter(last: int, rows: seq<LogRow>): int
    decreases |rows|
  {
    if rows == [] then last
    else LastAfter(if rows[0].sequence <= last then last else rows[0].sequence, rows[1..])
  }

  function StripCr(line: string): string {
    if line != "" && line[|line| - 1] == '\r' then line[..|line| - 1] else line
  }

  function StripCrs(lines: seq<string>): seq<string> {
    seq(|lines|, i requires 0 <= i < |lines| => StripCr(lines[i]))
  }

  /** `content.split(/\r?\n/)`: a last piece that no newline ends keeps its `\r`. */
  function Pieces(content: string): seq<string> {
    var lines := Split(content, '\n');
    StripCrs(Front(lines)) + [Last(lines)]
  }

  function Tagged(stream: Stream, pieces: seq<string>): seq<string> {
    if pieces == [] then []
    else
      (if pieces[0] == "" then []
       else [(if stream == Stderr then "[Runner:stderr] " else "[Runner:stdout] ") + pieces[0]])
      + Tagged(stream, pieces[1..])
  }

  function LinesOf(rows: seq<LogRow>): seq<string> {
    if rows == [] then []
    else Tagged(rows[0].chunk.stream, Pieces(rows[0].chunk.content)) + LinesOf(rows[1..])
  }

  lemma {:induction false} TaggedAppend(stream: Stream, a: seq<string>, b: string)
    ensures Tagged(stream, a + [b]) == Tagged(stream, a) + Tagged(stream, [b])
  {
    if a != [] {
      assert (a + [b])[1..] == a[1..] + [b];
      TaggedAppend(stream, a[1..], b);
    }
  }

  lemma LinesOfNew(row: LogRow, last: int, rest: seq<LogRow>)
    ensures LinesOf(NewRows(last, [row] + rest)) ==
      if row.sequence <= last then LinesOf(NewRows(last, rest))
      else Tagged(row.chunk.stream, Pieces(row.chunk.content)) + LinesOf(NewRows(row.sequence, rest))
  {
    assert ([row] + rest)[1..] == rest;
  }

  lemma LastOfNew(row: LogRow, last: int, rest: seq<LogRow>)
    ensures LastAfter(last, [row] + rest) == LastAfter(if row.sequence <= last then last else row.sequence, rest)
  {
    assert ([row] + rest)[1..] == rest;
  }

  // ------------------------------------------------------- which lines those are

  lemma SplitOfLine(line: string, rest: string)
    requires '\n' !in line
    ensures Split(line + "\n" + rest, '\n') == [line] + Split(rest, '\n') && Split(line, '\n') == [line]
  {
    SplitStep(line, '\n', rest);
  }

  lemma FrontPieces(line: string, rest: seq<string>)
    requires rest != []
    ensures Front([line] + rest) == [line] + Front(rest) && Last([line] + rest) == Last(rest)
    ensures StripCrs([line] + Front(rest)) == [StripCr(line)] + StripCrs(Front(rest))
  {
  }

  lemma PieceOfLine(line: string, rest: string)
    requires '\n' !in line
    ensures Pieces(line + "\n" + rest) == [StripCr(line)] + Pieces(rest)
    ensures Pieces(line) == [line]
  {
    SplitOfLine(line, rest);
    FrontPieces(line, Split(rest, '\n'));
    assert Front([line]) == [] && StripCrs([]) == [];
  }

  /** A content is cut at each line feed, which takes one carriage return before it along. */
  lemma PieceByPiece(line: string, rest: string)
    requires '\n' !in line
    ensures line == "" || line[|line| - 1] != '\r' ==> Pieces(line + "\n" + rest) == [line] + Pieces(rest)
    ensures Pieces(line + "\r\n" + rest) == [line] + Pieces(rest)
    ensures Pieces(line) == [line]
  {
    var long := line + "\r";
    PieceOfLine(line, rest);
    PieceOfLine(long, rest);
    assert long + "\n" + rest == line + "\r\n" + rest;
    assert StripCr(long) == line;
  }

  /** Each piece that is not empty is a line, behind the name of its stream. */
  lemma TaggedMeans(stream: Stream, piece: string, rest: seq<string>)
    ensures Tagged(stream, [piece] + rest) ==
      (if |piece| == 0 then []
       else if stream == Stderr then ["[Runner:stderr] " + piece]
       else ["[Runner:stdout] " + piece])
      + Tagged(stream, rest)
    ensures Tagged(stream, []) == []
  {
    assert ([piece] + rest)[1..] == rest;
  }

  class RunnerAdapter {
    var lastSequence: int
    var log: seq<string>

    constructor ()
      ensures lastSequence == -1 && log == []
    {
      lastSequence, log := -1, [];
    }

    method EmitNewLogs(rows: seq<LogRow>)
      modifies this
      ensures lastSequence == LastAfter(old(lastSequence), rows)
      ensures log == old(log) + LinesOf(NewRows(old(lastSequence), rows))
    {
      ghost var all, last := log + LinesOf(NewRows(lastSequence, rows)), LastAfter(lastSequence, rows);
      var i := 0;
      while i < |rows|
        invariant i <= |rows|
        invariant LastAfter(lastSequence, rows[i..]) == last
        invariant log + LinesOf(NewRows(lastSequence, rows[i..])) == all
      {
        assert rows[i..] == [rows[i]] + rows[i + 1..];
        EmitRow(rows[i], rows[i + 1..]);
        i := i + 1;
      }
    }

    /** One row of the loop; `rest` are the rows still to come. */
    method EmitRow(row: LogRow, ghost rest: seq<LogRow>)
      modifies this
      ensures LastAfter(lastSequence, rest) == LastAfter(old(lastSequence), [row] + rest)
      ensures log + LinesOf(NewRows(lastSequence, rest)) == old(log) + LinesOf(NewRows(old(lastSequence), [row] + rest))
    {
      LinesOfNew(row, lastSequence, rest);
      LastOfNew(row, lastSequence, rest);
      if row.sequence <= lastSequence { return; }
      lastSequence := row.sequence;
      EmitLines(row);
    }

    method EmitLines(row: LogRow)
      modifies this`log
      ensures log == old(log) + Tagged(row.chunk.stream, Pieces(row.chunk.content))
    {
      var pieces, j := Pieces(row.chunk.content), 0;
      while j < |pieces|
        invariant j <= |pieces|
        invariant log == old(log) + Tagged(row.chunk.stream, pieces[..j])
      {
        TaggedAppend(row.chunk.stream, pieces[..j], pieces[j]);
        assert pieces[..j + 1] == pieces[..j] + [pieces[j]];
        if pieces[j] != "" {
          log := log + [(if row.chunk.stream == Stderr then "[Runner:stderr] " else "[Runner:stdout] ") + pieces[j]];
        }
        j := j + 1;
      }
      assert pieces[..j] == pieces;
    }
  }

  // ------------------------------------------------------------- the whole path

  /** The jobs table, the chunks of job `id`, and the adapter watching it. */
  datatype World = World(jobs: Table, chunks: Chunks, last: int, shown: seq<LogRow>)

  datatype Move =
    | Sql(event: Event)
    | Post(agent: string, row: LogRow)
    | Poll(now: int)

  /** `INSERT OR IGNORE`, in one request with the check that the job runs on this agent. */
  function Next(w: World, m: Move, id: JobId): World {
    match m
    case Sql(e) => w.(jobs := Apply(w.jobs, e))
    case Post(agent, row) =>
      if Stores(w, m, id) then w.(chunks := w.chunks[row.sequence := row.chunk]) else w
    case Poll(now) =>
      var rows := AllRows(w.chunks);
      World(Recovered(w.jobs, now), w.chunks, LastAfter(w.last, rows), w.shown + NewRows(w.last, rows))
  }

  function Play(w: World, ms: seq<Move>, id: JobId): World
    decreases |ms|
  {
    if ms == [] then w else Play(Next(w, ms[0], id), ms[1..], id)
  }

  /** The post is stored: it is no repeat, and the job runs on this agent. */
  predicate Stores(w: World, m: Move, id: JobId) {
    && m.Post? && 0 <= m.row.sequence <= MAX_SEQUENCE && |m.row.chunk.content| <= MAX_CONTENT
    && IsRunning(w.jobs, id, m.agent) && m.row.sequence !in w.chunks
  }

  /** A chunk is stored once, if it is valid and from the agent that runs the job. */
  lemma PostMeans(w: World, agent: string, row: LogRow, id: JobId)
    ensures var n, running := row.sequence, id in w.jobs && w.jobs[id].status == Running && w.jobs[id].agent == agent;
      Next(w, Post(agent, row), id) ==
        if 0 <= n <= 10000 && |row.chunk.content| <= 16384 && running && n !in w.chunks
        then World(w.jobs, w.chunks[n := row.chunk], w.last, w.shown)
        else w
  {
  }

  /** A chunk is stored that is numbered at or below the last one shown. */
  predicate ComesLate(w: World, m: Move, id: JobId) {
    Stores(w, m, id) && m.row.sequence <= w.last
  }

  predicate NeverLate(w: World, ms: seq<Move>, id: JobId)
    decreases |ms|
  {
    ms == [] || (!ComesLate(w, ms[0], id) && NeverLate(Next(w, ms[0], id), ms[1..], id))
  }

  /** The agent numbers its chunks upward; it may post an old one again. */
  predicate Upward(w: World, m: Move) {
    m.Post? ==> m.row.sequence in w.chunks || forall q | q in w.chunks :: q < m.row.sequence
  }

  ghost predicate UpwardTrace(w: World, ms: seq<Move>, id: JobId)
    decreases |ms|
  {
    ms == [] || (Upward(w, ms[0]) && UpwardTrace(Next(w, ms[0], id), ms[1..], id))
  }

  /** Shown so far: every stored chunk up to the last one shown, once each and in order. */
  ghost predicate InStep(w: World) {
    && (forall q | q in w.chunks :: 0 <= q <= MAX_SEQUENCE)
    && (w.last == -1 || w.last in w.chunks)
    && w.shown == Rows(w.chunks, 0, w.last + 1)
  }

  lemma {:induction false} RowsSplit(c: Chunks, from: int, mid: int, end: int)
    requires from <= mid <= end
    ensures Rows(c, from, end) == Rows(c, from, mid) + Rows(c, mid, end)
    decreases mid - from
  {
    if from < mid {
      RowsSplit(c, from + 1, mid, end);
    }
  }

  lemma {:induction false} RowsSame(c: Chunks, d: Chunks, from: int, end: int)
    requires forall q | from <= q < end :: q in c <==> q in d
    requires forall q | from <= q < end && q in c :: c[q] == d[q]
    ensures Rows(c, from, end) == Rows(d, from, end)
    decreases end - from
  {
    if from < end {
      RowsSame(c, d, from + 1, end);
    }
  }

  lemma NewRowsFrom(c: Chunks, last: int, from: int, end: int)
    requires from < end
    ensures NewRows(last, Rows(c, from, end)) ==
      if from !in c then NewRows(last, Rows(c, from + 1, end))
      else if from <= last then NewRows(last, Rows(c, from + 1, end))
      else [LogRow(from, c[from])] + NewRows(from, Rows(c, from + 1, end))
  {
    var rest := Rows(c, from + 1, end);
    assert Rows(c, from, end) == if from in c then [LogRow(from, c[from])] + rest else rest;
    assert from in c ==> Rows(c, from, end)[1..] == rest;
  }

  lemma {:induction false} NewRowsOf(c: Chunks, last: int, from: int, end: int)
    requires last < end
    ensures NewRows(last, Rows(c, from, end)) == Rows(c, if from <= last then last + 1 else from, end)
    decreases end - from
  {
    if from < end {
      NewRowsFrom(c, last, from, end);
      if from in c && last < from {
        NewRowsOf(c, from, from + 1, end);
      } else {
        NewRowsOf(c, last, from + 1, end);
      }
    }
  }

  lemma {:induction false} LastOfRows(c: Chunks, last: int, from: int, end: int)
    requires last < end
    ensures last <= LastAfter(last, Rows(c, from, end)) < end
    ensures LastAfter(last, Rows(c, from, end)) in {last} + c.Keys
    ensures forall q | from <= q < end && q in c :: q <= LastAfter(last, Rows(c, from, end))
    decreases end - from
  {
    if from < end {
      var rest := Rows(c, from + 1, end);
      if from in c {
        assert Rows(c, from, end)[1..] == rest;
        LastOfRows(c, if from > last then from else last, from + 1, end);
      } else {
        assert Rows(c, from, end) == rest;
        LastOfRows(c, last, from + 1, end);
      }
    }
  }

  lemma NothingAfter(c: Chunks, last: int)
    requires -1 <= last <= MAX_SEQUENCE && forall q | q in c :: q <= last
    ensures Rows(c, 0, last + 1) == AllRows(c)
  {
    RowsSplit(c, 0, last + 1, MAX_SEQUENCE + 1);
    RowsSame(c, map[], last + 1, MAX_SEQUENCE + 1);
    EmptyRows(last + 1, MAX_SEQUENCE + 1);
  }

  lemma PollCatchesUp(w: World, now: int, id: JobId)
    requires InStep(w)
    ensures var w' := Next(w, Poll(now), id); InStep(w') && w'.shown == AllRows(w'.chunks)
  {
    var c := w.chunks;
    NewRowsOf(c, w.last, 0, MAX_SEQUENCE + 1);
    LastOfRows(c, w.last, 0, MAX_SEQUENCE + 1);
    RowsSplit(c, 0, w.last + 1, MAX_SEQUENCE + 1);
    NothingAfter(c, LastAfter(w.last, AllRows(c)));
  }

  lemma {:induction false} EmptyRows(from: int, end: int)
    ensures Rows(map[], from, end) == []
    decreases end - from
  {
    if from < end {
      EmptyRows(from + 1, end);
    }
  }

  lemma NextInStep(w: World, m: Move, id: JobId)
    requires InStep(w) && !ComesLate(w, m, id)
    ensures InStep(Next(w, m, id))
  {
    match m
    case Sql(_) =>
    case Post(_, row) => RowsSame(w.chunks, Next(w, m, id).chunks, 0, w.last + 1);
    case Poll(now) => PollCatchesUp(w, now, id);
  }

  /** In every run the adapter has shown an initial part of the stored chunks, in order, once each. */
  lemma {:induction false} AlwaysInStep(w: World, ms: seq<Move>, id: JobId)
    requires InStep(w) && NeverLate(w, ms, id)
    ensures InStep(Play(w, ms, id))
    decreases |ms|
  {
    if ms != [] {
      NextInStep(w, ms[0], id);
      AlwaysInStep(Next(w, ms[0], id), ms[1..], id);
    }
  }

  /** Upward numbering is enough for that. */
  lemma {:induction false} UpwardIsNeverLate(w: World, ms: seq<Move>, id: JobId)
    requires InStep(w) && UpwardTrace(w, ms, id)
    ensures NeverLate(w, ms, id)
    decreases |ms|
  {
    if ms != [] {
      NextInStep(w, ms[0], id);
      UpwardIsNeverLate(Next(w, ms[0], id), ms[1..], id);
    }
  }

  /** Once the job is terminal, no chunk is stored any more. */
  lemma {:induction false} TerminalStoresNothing(w: World, ms: seq<Move>, id: JobId)
    requires id in w.jobs && w.jobs[id].status.Terminal()
    ensures Play(w, ms, id).chunks == w.chunks
    decreases |ms|
  {
    if ms != [] {
      TerminalRowsNeverChange(w.jobs, [Recover(0)], id);
      TerminalStoresNothing(Next(w, ms[0], id), ms[1..], id);
    }
  }

  lemma {:induction false} PlayAppend(w: World, ms: seq<Move>, m: Move, id: JobId)
    ensures Play(w, ms + [m], id) == Next(Play(w, ms, id), m, id)
    decreases |ms|
  {
    if ms == [] {
      assert ms + [m] == [m] && [m][1..] == [];
      assert Play(Next(w, m, id), [], id) == Next(w, m, id);
    } else {
      assert (ms + [m])[0] == ms[0] && (ms + [m])[1..] == ms[1..] + [m];
      PlayAppend(Next(w, ms[0], id), ms[1..], m, id);
    }
  }

  lemma {:induction false} RowsMembers(c: Chunks, from: int, end: int, row: LogRow)
    ensures row in Rows(c, from, end) <==> from <= row.sequence < end && row.sequence in c && c[row.sequence] == row.chunk
    decreases end - from
  {
    if from < end {
      RowsMembers(c, from + 1, end, row);
    }
  }

  // ---------------------------------------------------------------- late chunks

  const START := World(map[], map[], -1, [])

  /** In any run: what is shown is stored, and numbered up to the last one shown. */
  ghost predicate ShowsStored(w: World) {
    && (forall q | q in w.chunks :: 0 <= q <= MAX_SEQUENCE) && -1 <= w.last <= MAX_SEQUENCE
    && (forall row | row in w.shown :: row.sequence <= w.last && row.sequence in w.chunks && w.chunks[row.sequence] == row.chunk)
  }

  /** The chunk is stored, not shown, and polls are past it. */
  ghost predicate Missed(w: World, row: LogRow) {
    row.sequence <= w.last && row.sequence in w.chunks && w.chunks[row.sequence] == row.chunk && row !in w.shown
  }

  lemma NewRowsAreStored(c: Chunks, last: int, row: LogRow)
    requires -1 <= last <= MAX_SEQUENCE && forall q | q in c :: 0 <= q <= MAX_SEQUENCE
    ensures row in NewRows(last, AllRows(c)) <==> last < row.sequence && row.sequence in c && c[row.sequence] == row.chunk
    ensures last <= LastAfter(last, AllRows(c)) <= MAX_SEQUENCE
    ensures row in NewRows(last, AllRows(c)) ==> row.sequence <= LastAfter(last, AllRows(c))
  {
    NewRowsOf(c, last, 0, MAX_SEQUENCE + 1);
    LastOfRows(c, last, 0, MAX_SEQUENCE + 1);
    RowsMembers(c, last + 1, MAX_SEQUENCE + 1, row);
  }

  lemma NextShowsStored(w: World, m: Move, id: JobId)
    requires ShowsStored(w)
    ensures ShowsStored(Next(w, m, id))
  {
    if m.Poll? {
      NewRowsAreStored(w.chunks, w.last, LogRow(0, Chunk(Stdout, "")));
      var w' := Next(w, m, id);
      forall row | row in w'.shown ensures row.sequence <= w'.last && row.sequence in w'.chunks && w'.chunks[row.sequence] == row.chunk {
        NewRowsAreStored(w.chunks, w.last, row);
      }
    }
  }

  lemma LateIsMissed(w: World, m: Move, id: JobId)
    requires ShowsStored(w) && ComesLate(w, m, id)
    ensures Missed(Next(w, m, id), m.row)
  {
  }

  lemma MissedStays(w: World, m: Move, id: JobId, row: LogRow)
    requires ShowsStored(w) && Missed(w, row)
    ensures Missed(Next(w, m, id), row)
  {
    if m.Poll? {
      NewRowsAreStored(w.chunks, w.last, row);
    }
  }

  /** A chunk that polls have passed by is never shown. */
  lemma {:induction false} MissedForGood(w: World, ms: seq<Move>, id: JobId, row: LogRow)
    requires ShowsStored(w) && Missed(w, row)
    ensures ShowsStored(Play(w, ms, id)) && Missed(Play(w, ms, id), row)
    decreases |ms|
  {
    if ms != [] {
      NextShowsStored(w, ms[0], id);
      MissedStays(w, ms[0], id, row);
      MissedForGood(Next(w, ms[0], id), ms[1..], id, row);
    }
  }

  lemma {:induction false} AlwaysShowsStored(w: World, ms: seq<Move>, id: JobId)
    requires ShowsStored(w)
    ensures ShowsStored(Play(w, ms, id))
    decreases |ms|
  {
    if ms != [] {
      NextShowsStored(w, ms[0], id);
      AlwaysShowsStored(Next(w, ms[0], id), ms[1..], id);
    }
  }

  /** After any moves: a chunk that comes in is shown, by the next poll or ever, exactly when it is not late. */
  lemma LateChunk(before: seq<Move>, m: Move, now: int, later: seq<Move>, id: JobId)
    requires Stores(Play(START, before, id), m, id)
    ensures var w := Play(START, before, id);
      var polled := Next(Next(w, m, id), Poll(now), id);
      (m.row in polled.shown <==> m.row.sequence > w.last)
      && (m.row.sequence <= w.last ==> m.row !in Play(polled, later, id).shown)
  {
    var w := Play(START, before, id);
    AlwaysShowsStored(START, before, id);
    var v := Next(w, m, id);
    NextShowsStored(w, m, id);
    NextShowsStored(v, Poll(now), id);
    NewRowsAreStored(v.chunks, v.last, m.row);
    if ComesLate(w, m, id) {
      LateIsMissed(w, m, id);
      MissedStays(v, Poll(now), id, m.row);
      MissedForGood(Next(v, Poll(now), id), later, id, m.row);
    }
  }

  ghost predicate SomeMissed(w: World) {
    exists row :: Missed(w, row)
  }

  /** A run in which some chunk comes late ends with one missed. */
  lemma {:induction false} SomeLateSomeMissed(w: World, ms: seq<Move>, id: JobId)
    requires ShowsStored(w) && !NeverLate(w, ms, id)
    ensures SomeMissed(Play(w, ms, id)) && ShowsStored(Play(w, ms, id))
    decreases |ms|
  {
    NextShowsStored(w, ms[0], id);
    if ComesLate(w, ms[0], id) {
      LateIsMissed(w, ms[0], id);
      MissedForGood(Next(w, ms[0], id), ms[1..], id, ms[0].row);
    } else {
      SomeLateSomeMissed(Next(w, ms[0], id), ms[1..], id);
    }
  }

  lemma MissedIsNotComplete(w: World)
    requires ShowsStored(w) && SomeMissed(w)
    ensures w.shown != AllRows(w.chunks)
  {
    var row :| Missed(w, row);
    RowsMembers(w.chunks, 0, MAX_SEQUENCE + 1, row);
  }

  lemma StartIsInStep()
    ensures InStep(START) && ShowsStored(START)
  {
    EmptyRows(0, 0);
  }

  /** After any moves a poll has shown every stored chunk, once each and in order, exactly when none came late. */
  lemma PollShowsAllExactly(ms: seq<Move>, now: int, id: JobId)
    ensures var w := Next(Play(START, ms, id), Poll(now), id);
      w.shown == AllRows(w.chunks) <==> NeverLate(START, ms, id)
  {
    StartIsInStep();
    var w := Play(START, ms, id);
    if NeverLate(START, ms, id) {
      AlwaysInStep(START, ms, id);
      PollCatchesUp(w, now, id);
    } else {
      SomeLateSomeMissed(START, ms, id);
      var row :| Missed(w, row);
      MissedStays(w, Poll(now), id, row);
      NextShowsStored(w, Poll(now), id);
      MissedIsNotComplete(Next(w, Poll(now), id));
    }
  }

  /**
   * A poll that sees the job terminal has shown every chunk that was or ever will be stored exactly
   * when none came late.
   */
  lemma TerminalPollIsComplete(ms: seq<Move>, now: int, more: seq<Move>, id: JobId)
    requires var w := Play(START, ms + [Poll(now)], id); id in w.jobs && w.jobs[id].status.Terminal()
    ensures var w := Play(START, ms + [Poll(now)], id);
      w.shown == AllRows(Play(w, more, id).chunks) <==> NeverLate(START, ms, id)
  {
    PlayAppend(START, ms, Poll(now), id);
    PollShowsAllExactly(ms, now, id);
    TerminalStoresNothing(Play(START, ms + [Poll(now)], id), more, id);
  }

  // ------------------------------------------------------------ a late one, for example

  function Line(sequence: int): Move {
    Post("a", LogRow(sequence, Chunk(Stdout, "x")))
  }

  /** A running job posts chunk 1, it is shown, and chunk 0 comes after it. */
  const OUT_OF_ORDER: seq<Move> := [
    Sql(Create("j", "a", 60, 0)), Sql(Lease("a", 0, Some("j"))), Sql(Start("j", "a", 0)), Line(1), Poll(0), Line(0)]

  lemma AfterChunkOne()
    ensures var w := Play(START, OUT_OF_ORDER[..5], "j");
      IsRunning(w.jobs, "j", "a") && w.last == 1 && w.chunks == map[1 := Chunk(Stdout, "x")]
  {
    var w1 := Next(START, OUT_OF_ORDER[0], "j");
    var w2 := Next(w1, OUT_OF_ORDER[1], "j");
    var w3 := Next(w2, OUT_OF_ORDER[2], "j");
    var w4 := Next(w3, OUT_OF_ORDER[3], "j");
    assert IsRunning(w4.jobs, "j", "a") && w4.chunks == map[1 := Chunk(Stdout, "x")] && w4.last == -1;
    LastOfRows(w4.chunks, -1, 0, MAX_SEQUENCE + 1);
    FiveMoves(w1, w2, w3, w4);
  }

  lemma FiveMoves(w1: World, w2: World, w3: World, w4: World)
    requires w1 == Next(START, OUT_OF_ORDER[0], "j") && w2 == Next(w1, OUT_OF_ORDER[1], "j")
    requires w3 == Next(w2, OUT_OF_ORDER[2], "j") && w4 == Next(w3, OUT_OF_ORDER[3], "j")
    ensures Play(START, OUT_OF_ORDER[..5], "j") == Next(w4, Poll(0), "j")
  {
    assert Play(START, [], "j") == START;
    PlayAppend(START, [], OUT_OF_ORDER[0], "j");
    PlayAppend(START, [OUT_OF_ORDER[0]], OUT_OF_ORDER[1], "j");
    PlayAppend(START, OUT_OF_ORDER[..2], OUT_OF_ORDER[2], "j");
    PlayAppend(START, OUT_OF_ORDER[..3], OUT_OF_ORDER[3], "j");
    PlayAppend(START, OUT_OF_ORDER[..4], OUT_OF_ORDER[4], "j");
    assert [] + [OUT_OF_ORDER[0]] == [OUT_OF_ORDER[0]] && [OUT_OF_ORDER[0]] + [OUT_OF_ORDER[1]] == OUT_OF_ORDER[..2];
    assert OUT_OF_ORDER[..2] + [OUT_OF_ORDER[2]] == OUT_OF_ORDER[..3];
    assert OUT_OF_ORDER[..3] + [OUT_OF_ORDER[3]] == OUT_OF_ORDER[..4];
    assert OUT_OF_ORDER[..4] + [OUT_OF_ORDER[4]] == OUT_OF_ORDER[..5];
  }

  /** Chunk 0 is stored and, whatever polls follow, never shown. */
  lemma ChunkZeroIsNeverShown(later: seq<Move>)
    ensures LogRow(0, Chunk(Stdout, "x")) !in Play(START, OUT_OF_ORDER + later, "j").shown
    ensures 0 in Play(START, OUT_OF_ORDER, "j").chunks
  {
    AfterChunkOne();
    StartIsInStep();
    var w := Play(START, OUT_OF_ORDER[..5], "j");
    AlwaysShowsStored(START, OUT_OF_ORDER[..5], "j");
    assert OUT_OF_ORDER[..5] + [Line(0)] == OUT_OF_ORDER;
    PlayAppend(START, OUT_OF_ORDER[..5], Line(0), "j");
    LateIsMissed(w, Line(0), "j");
    NextShowsStored(w, Line(0), "j");
    MissedForGood(Next(w, Line(0), "j"), later, "j", LogRow(0, Chunk(Stdout, "x")));
    PlayOn(START, OUT_OF_ORDER, later, "j");
  }

  lemma {:induction false} PlayOn(w: World, ms: seq<Move>, more: seq<Move>, id: JobId)
    ensures Play(w, ms + more, id) == Play(Play(w, ms, id), more, id)
    decreases |ms|
  {
    if ms == [] {
      assert ms + more == more;
    } else {
      assert (ms + more)[0] == ms[0] && (ms + more)[1..] == ms[1..] + more;
      PlayOn(Next(w, ms[0], id), ms[1..], more, id);
    }
  }
}
