/**
 * The streaming tar reader that looks for `.env.example`
 * (backend/src/core/artifacts/envExample.js), after decompression.
 */
module TarReader {
  import opened Wrappers
  import opened Text

  const BLOCK: nat := 512
  const MAX_EXAMPLE_BYTES: nat := 64 * 1024
  const MAX_SCAN_BYTES: nat := 512 * 1024 * 1024
  const ENV_EXAMPLE_NAME := ".env.example"

  // ---------------------------------------------------------------- fields

  /** The field up to its first NUL. */
  function CString(field: Bytes): Bytes {
    field[..IndexOf(field, '\0')]
  }

  predicate IsOctalDigit(c: char) {
    '0' <= c <= '7'
  }

  function OctalPrefix(s: string): string {
    if s != "" && IsOctalDigit(s[0]) then [s[0]] + OctalPrefix(s[1..]) else ""
  }

  function OctalDigit(c: char): nat
    requires IsOctalDigit(c)
  {
    c as int - '0' as int
  }

  function OctalValue(digits: string): nat
    requires forall c | c in digits :: IsOctalDigit(c)
  {
    if digits == "" then 0
    else 8 * OctalValue(digits[..|digits| - 1]) + OctalDigit(digits[|digits| - 1])
  }

  lemma {:induction false} OctalPrefixDigits(s: string)
    ensures forall c | c in OctalPrefix(s) :: IsOctalDigit(c)
  {
    if s != "" && IsOctalDigit(s[0]) {
      OctalPrefixDigits(s[1..]);
    }
  }

  /** An octal number field; None when it is not a number. An empty field is 0. */
  function ReadOctal(field: Bytes): Option<int> {
    var text := TrimLeft(CString(field));
    if text == "" then Some(0)
    else
      var digits := OctalPrefix(if text[0] in {'+', '-'} then text[1..] else text);
      OctalPrefixDigits(if text[0] in {'+', '-'} then text[1..] else text);
      if digits == "" then None
      else Some(if text[0] == '-' then 0 - OctalValue(digits) else OctalValue(digits) as int)
  }

  function Padded(size: nat): (p: nat)
    ensures size <= p < size + BLOCK && p % BLOCK == 0
  {
    (size + BLOCK - 1) / BLOCK * BLOCK
  }

  // ----------------------------------------------------------------- names

  predicate IsDigit(c: char) {
    '0' <= c <= '9'
  }

  function SkipDigits(s: string): string {
    if s != "" && IsDigit(s[0]) then SkipDigits(s[1..]) else s
  }

  const PATH_KEY := " path="

  /** A pax record line `<digits> path=<value>`, without its newline. */
  function PathOfLine(line: Bytes): Option<Bytes> {
    var rest := SkipDigits(line);
    if |rest| < |line| && PATH_KEY <= rest then Some(rest[|PATH_KEY|..]) else None
  }

  /** The path of the first newline-terminated `path` record of a pax body. */
  function PaxPath(body: Bytes): Option<Bytes> {
    var i := IndexOf(body, '\n');
    if i == |body| then None
    else if PathOfLine(body[..i]).Some? then PathOfLine(body[..i])
    else PaxPath(body[i + 1..])
  }

  function Slashes(name: string): string {
    seq(|name|, i requires 0 <= i < |name| => if name[i] == '\\' then '/' else name[i])
  }

  function DropDots(parts: seq<string>): seq<string> {
    if parts == [] then []
    else if parts[0] == "" || parts[0] == "." then DropDots(parts[1..])
    else [parts[0]] + DropDots(parts[1..])
  }

  predicate IsEnvExamplePath(name: string) {
    var parts := DropDots(Split(Slashes(name), '/'));
    1 <= |parts| <= 2 && parts[|parts| - 1] == ENV_EXAMPLE_NAME
  }

  /** A part of a path between two slashes, which may be empty or a dot. */
  predicate IsPart(part: string) {
    '/' !in part && '\\' !in part
  }

  lemma {:induction false} SlashesOfJoin(parts: seq<string>, sep: char)
    requires sep in {'/', '\\'} && forall p | p in parts :: IsPart(p)
    ensures Slashes(Join(parts, sep)) == Join(parts, '/')
  {
    if parts != [] {
      assert parts[0] in parts;
      assert Slashes(parts[0]) == parts[0];
      SlashesOfJoin(parts[1..], sep);
    }
  }

  /** Parts that are empty or a dot mean nothing. */
  ghost predicate SamePath(parts: seq<string>, proper: seq<string>)
    decreases |parts|
  {
    if parts == [] then proper == []
    else if parts[0] in {"", "."} then SamePath(parts[1..], proper)
    else proper != [] && proper[0] == parts[0] && SamePath(parts[1..], proper[1..])
  }

  lemma {:induction false} DropDotsIsSamePath(parts: seq<string>, proper: seq<string>)
    ensures SamePath(parts, proper) <==> proper == DropDots(parts)
    decreases |parts|
  {
    if parts != [] {
      if parts[0] in {"", "."} {
        DropDotsIsSamePath(parts[1..], proper);
      } else if proper != [] {
        DropDotsIsSamePath(parts[1..], proper[1..]);
        assert proper == [proper[0]] + proper[1..];
      }
    }
  }

  /** A path is accepted exactly at the archive root or directly under one folder, with either slash. */
  lemma EnvExamplePathMeaning(parts: seq<string>, sep: char)
    requires sep in {'/', '\\'} && |parts| >= 1 && forall p | p in parts :: IsPart(p)
    ensures IsEnvExamplePath(Join(parts, sep)) <==>
      SamePath(parts, [ENV_EXAMPLE_NAME]) || exists folder :: SamePath(parts, [folder, ENV_EXAMPLE_NAME])
  {
    SlashesOfJoin(parts, sep);
    SplitOfJoin(parts, '/');
    var proper := DropDots(parts);
    DropDotsIsSamePath(parts, [ENV_EXAMPLE_NAME]);
    forall folder ensures SamePath(parts, [folder, ENV_EXAMPLE_NAME]) <==> proper == [folder, ENV_EXAMPLE_NAME] {
      DropDotsIsSamePath(parts, [folder, ENV_EXAMPLE_NAME]);
    }
    if |proper| == 2 && proper[1] == ENV_EXAMPLE_NAME {
      assert proper == [proper[0], ENV_EXAMPLE_NAME];
    }
  }

  // ------------------------------------------------------------ the scanner

  datatype Kind = Pax | LongName | Match
  datatype Pending = Pending(kind: Kind, size: nat)

  /** What the reader keeps between two chunks. */
  datatype Scan = Scan(buffered: Bytes, skip: nat, pending: Option<Pending>, nextName: Option<Bytes>)

  /** Still reading, out of bytes, or finished with a result. */
  datatype Outcome = Going(scan: Scan) | Waiting(scan: Scan) | Settled(result: Option<Bytes>)

  const START := Scan("", 0, None, None)

  function TypeOf(header: Bytes): char
    requires |header| == BLOCK
  {
    if header[156] == '\0' then '0' else header[156]
  }

  function NameOf(header: Bytes, nextName: Option<Bytes>): Bytes
    requires |header| == BLOCK
  {
    var prefix, rawName := CString(header[345..500]), CString(header[0..100]);
    if nextName.GetOr("") != "" then nextName.value
    else if prefix != "" then prefix + "/" + rawName
    else rawName
  }

  /** A file that is asked for, and not too large. */
  predicate IsWanted(header: Bytes, size: nat, nextName: Option<Bytes>)
    requires |header| == BLOCK
  {
    TypeOf(header) == '0' && IsEnvExamplePath(NameOf(header, nextName)) && size <= MAX_EXAMPLE_BYTES
  }

  /** What the type, size and name of a header say. */
  function OnEntry(header: Bytes, size: nat, rest: Bytes, nextName: Option<Bytes>): Outcome
    requires |header| == BLOCK
  {
    if TypeOf(header) in {'x', 'L'} then
      if size > MAX_EXAMPLE_BYTES then Settled(None)
      else Going(Scan(rest, 0, Some(Pending(if TypeOf(header) == 'x' then Pax else LongName, size)), nextName))
    else if IsWanted(header, size, nextName) then
      Going(Scan(rest, 0, Some(Pending(Match, size)), None))
    else
      Going(Scan(rest, Padded(size), None, None))
  }

  /** One header block has just been taken off the front of the buffer. */
  function OnHeader(header: Bytes, rest: Bytes, nextName: Option<Bytes>): Outcome
    requires |header| == BLOCK
  {
    if forall i | 0 <= i < BLOCK :: header[i] == '\0' then Settled(None)
    else
      var octal := ReadOctal(header[124..136]);
      if octal.None? || octal.value < 0 then Settled(None)
      else OnEntry(header, octal.value, rest, nextName)
  }

  /** A whole padded body has just been taken off the front of the buffer. */
  function OnBody(kind: Kind, body: Bytes, rest: Bytes): Outcome {
    match kind
    case Match => Settled(Some(body))
    case Pax => Going(Scan(rest, 0, None, PaxPath(body)))
    case LongName => Going(Scan(rest, 0, None, Some(CString(body))))
  }

  function Skipped(s: Scan): Scan {
    var n := if s.skip <= |s.buffered| then s.skip else |s.buffered|;
    s.(buffered := s.buffered[n..], skip := s.skip - n)
  }

  /** One turn of the reader's loop. */
  function Step(s: Scan): Outcome {
    var t := Skipped(s);
    if t.skip > 0 then Waiting(t)
    else if t.pending.Some? then
      var Pending(kind, size) := t.pending.value;
      if |t.buffered| < Padded(size) then Waiting(t)
      else OnBody(kind, t.buffered[..size], t.buffered[Padded(size)..])
    else if |t.buffered| < BLOCK then Waiting(t)
    else OnHeader(t.buffered[..BLOCK], t.buffered[BLOCK..], t.nextName)
  }

  /** Every turn consumes bytes or completes a pending body, even an empty one. */
  function Measure(s: Scan): nat {
    2 * |s.buffered| + if s.pending.Some? then 1 else 0
  }

  lemma StepShrinks(s: Scan)
    ensures Step(s).Going? ==> Measure(Step(s).scan) < Measure(s)
  {
  }

  /** The loop run until it needs more bytes or settles. */
  function Run(s: Scan): (o: Outcome)
    ensures !o.Going?
    decreases Measure(s)
  {
    match Step(s)
    case Going(s') => Run(s')
    case Waiting(t) => Waiting(t)
    case Settled(r) => Settled(r)
  }

  function Append(s: Scan, chunk: Bytes): Scan {
    s.(buffered := s.buffered + chunk)
  }

  /** The one-shot reading of a whole stream. */
  function ScanResult(stream: Bytes): Option<Bytes> {
    match Run(Append(START, stream))
    case Settled(r) => r
    case _ => None
  }

  // ---------------------------------------------------- chunk independence

  lemma SkippedAppend(s: Scan, c: Bytes)
    ensures if Skipped(s).skip > 0 then Skipped(Append(Skipped(s), c)) == Skipped(Append(s, c))
      else Skipped(Append(s, c)) == Append(Skipped(s), c) && Skipped(Append(Skipped(s), c)) == Append(Skipped(s), c)
  {
  }

  /** A turn that does not wait does the same with more bytes behind it. */
  lemma StepAppend(s: Scan, c: Bytes)
    ensures match Step(s)
      case Going(s') => Step(Append(s, c)) == Going(Append(s', c))
      case Settled(r) => Step(Append(s, c)) == Settled(r)
      case Waiting(t) => Step(Append(s, c)) == Step(Append(t, c))
  {
    SkippedAppend(s, c);
    var t := Skipped(s);
    if t.skip == 0 {
      assert Skipped(t) == t;
      StepAppendReady(t, c);
    }
  }

  lemma StepAppendReady(t: Scan, c: Bytes)
    requires t.skip == 0
    ensures match Step(t)
      case Going(s') => Step(Append(t, c)) == Going(Append(s', c))
      case Settled(r) => Step(Append(t, c)) == Settled(r)
      case Waiting(w) => w == t
  {
    var b, d := t.buffered, t.buffered + c;
    assert b[0..] == b && d[0..] == d;
    if t.pending.Some? && |b| >= Padded(t.pending.value.size) {
      var n, p := t.pending.value.size, Padded(t.pending.value.size);
      assert d[..n] == b[..n] && d[p..] == b[p..] + c;
    } else if t.pending.None? && |b| >= BLOCK {
      assert d[..BLOCK] == b[..BLOCK] && d[BLOCK..] == b[BLOCK..] + c;
    }
  }

  /** Reading some bytes, then more, is reading them together. */
  lemma {:induction false} RunAppend(s: Scan, c: Bytes)
    ensures match Run(s)
      case Waiting(t) => Run(Append(t, c)) == Run(Append(s, c))
      case o => Run(Append(s, c)) == o
    decreases Measure(s)
  {
    StepAppend(s, c);
    if Step(s).Going? {
      RunAppend(Step(s).scan, c);
    }
  }

  /** Feeding chunks one after another; a settled reader ignores the rest. */
  function Feed(o: Outcome, chunks: seq<Bytes>): Outcome
    decreases |chunks|
  {
    if chunks == [] || !o.Waiting? then o
    else Feed(Run(Append(o.scan, chunks[0])), chunks[1..])
  }

  lemma {:induction false} FeedIsRun(s: Scan, chunks: seq<Bytes>)
    ensures Feed(Run(s), chunks) == Run(Append(s, Flatten(chunks)))
    decreases |chunks|
  {
    if chunks == [] {
      assert Append(s, "") == s;
    } else {
      var c, rest := chunks[0], Flatten(chunks[1..]);
      assert Append(s, Flatten(chunks)) == Append(Append(s, c), rest);
      RunAppend(s, c);
      RunAppend(Append(s, c), rest);
      FeedIsRun(Append(s, c), chunks[1..]);
    }
  }

  lemma NothingToRead()
    ensures Run(START) == Waiting(START)
  {
    assert START.buffered[0..] == "";
    assert Skipped(START) == START;
  }

  /** However a stream is cut into chunks, feeding them is the one-shot run over the whole. */
  lemma ChunkingIrrelevant(chunks: seq<Bytes>)
    ensures Feed(Waiting(START), chunks) == Run(Append(START, Flatten(chunks)))
  {
    NothingToRead();
    FeedIsRun(START, chunks);
  }

  // ------------------------------------------------------ bounded retention

  /** Only bodies small enough to be interesting are ever collected. */
  predicate SmallPending(s: Scan) {
    s.pending.Some? ==> s.pending.value.size <= MAX_EXAMPLE_BYTES
  }

  predicate KeepsLittle(o: Outcome) {
    o.Waiting? ==> SmallPending(o.scan) && |o.scan.buffered| < MAX_EXAMPLE_BYTES
  }

  lemma StepKeepsLittle(s: Scan)
    requires SmallPending(s)
    ensures KeepsLittle(Step(s)) && (Step(s).Going? ==> SmallPending(Step(s).scan))
  {
  }

  lemma {:induction false} RunKeepsLittle(s: Scan)
    requires SmallPending(s)
    ensures KeepsLittle(Run(s))
    decreases Measure(s)
  {
    StepKeepsLittle(s);
    StepShrinks(s);
    if Step(s).Going? {
      RunKeepsLittle(Step(s).scan);
    }
  }

  /** Whatever was fed so far, a reader waiting for more retains less than 64 KiB. */
  lemma RetentionBounded(chunks: seq<Bytes>)
    ensures var o := Feed(Waiting(START), chunks);
      o.Waiting? ==> |o.scan.buffered| < MAX_EXAMPLE_BYTES
  {
    ChunkingIrrelevant(chunks);
    RunKeepsLittle(Append(START, Flatten(chunks)));
  }

  // ----------------------------------------------------------- the scan cap

  /** The leading chunks whose running total stays within the cap. */
  function WithinCap(chunks: seq<Bytes>, scanned: nat): seq<Bytes> {
    if chunks == [] || scanned + |chunks[0]| > MAX_SCAN_BYTES then []
    else [chunks[0]] + WithinCap(chunks[1..], scanned + |chunks[0]|)
  }

  lemma {:induction false} WithinCapWhole(chunks: seq<Bytes>, scanned: nat)
    ensures WithinCap(chunks, scanned) == chunks <==> chunks == [] || scanned + |Flatten(chunks)| <= MAX_SCAN_BYTES
    decreases |chunks|
  {
    if chunks != [] {
      WithinCapWhole(chunks[1..], scanned + |chunks[0]|);
      assert chunks == [chunks[0]] + chunks[1..];
      if chunks[1..] == [] {
        assert Flatten(chunks[1..]) == [];
      }
    }
  }

  /** The reader as the source runs it: one object fed by `data` and `end` events. */
  class EnvExampleReader {
    var buffered: Bytes
    var scanned: nat
    var skip: nat
    var pending: Option<Pending>
    var nextName: Option<Bytes>
    var settled: bool
    var result: Option<Bytes>

    function State(): Scan
      reads this
    {
      Scan(buffered, skip, pending, nextName)
    }

    function Progress(): Outcome
      reads this
    {
      if settled then Settled(result) else Waiting(State())
    }

    constructor ()
      ensures Progress() == Waiting(START) && scanned == 0
    {
      buffered, scanned, skip, pending, nextName := "", 0, 0, None, None;
      settled, result := false, None;
    }

    method Finish(value: Option<Bytes>)
      modifies this`settled, this`result
      ensures settled
      ensures result == if old(settled) then old(result) else value
    {
      if settled { return; }
      settled, result := true, value;
    }

    /** Where a turn of the loop has left the reader. */
    function Turned(): Outcome
      reads this
    {
      if settled then Settled(result) else Going(State())
    }

    method Consume()
      requires !settled
      modifies this
      ensures Progress() == Run(old(State())) && scanned == old(scanned)
    {
      var more := true;
      while more
        invariant scanned == old(scanned)
        invariant if more then !settled && Run(State()) == Run(old(State())) else Progress() == Run(old(State()))
        decreases more, Measure(State())
      {
        more := Turn();
      }
    }

    /** One turn of the loop; false when it needs more bytes or is done. */
    method Turn() returns (more: bool)
      requires !settled
      modifies this`buffered, this`skip, this`pending, this`nextName, this`settled, this`result
      ensures Step(old(State())) == if more then Going(State()) else Progress()
      ensures more ==> !settled && Measure(State()) < old(Measure(State()))
    {
      StepShrinks(State());
      if skip > 0 {
        var n := if skip <= |buffered| then skip else |buffered|;
        buffered, skip := buffered[n..], skip - n;
        if skip > 0 { return false; }
      }
      assert buffered[0..] == buffered;
      if pending.Some? {
        if |buffered| < Padded(pending.value.size) { return false; }
        TakeBody();
      } else {
        if |buffered| < BLOCK { return false; }
        TakeHeader();
      }
      more := !settled;
    }

    /** The body that was waited for is there. */
    method TakeBody()
      requires !settled && skip == 0 && pending.Some? && |buffered| >= Padded(pending.value.size)
      modifies this`buffered, this`pending, this`nextName, this`settled, this`result
      ensures Turned() == old(OnBody(pending.value.kind, buffered[..pending.value.size], buffered[Padded(pending.value.size)..]))
    {
      var Pending(kind, size) := pending.value;
      var body := buffered[..size];
      buffered, pending := buffered[Padded(size)..], None;
      if kind == Match {
        Finish(Some(body));
        return;
      }
      nextName := if kind == Pax then PaxPath(body) else Some(CString(body));
    }

    method TakeHeader()
      requires !settled && skip == 0 && pending.None? && |buffered| >= BLOCK
      modifies this`buffered, this`skip, this`pending, this`nextName, this`settled, this`result
      ensures Turned() == old(OnHeader(buffered[..BLOCK], buffered[BLOCK..], nextName))
    {
      var header := buffered[..BLOCK];
      buffered := buffered[BLOCK..];
      if forall i | 0 <= i < BLOCK :: header[i] == '\0' {
        Finish(None);
        return;
      }
      var octal := ReadOctal(header[124..136]);
      if octal.None? || octal.value < 0 {
        Finish(None);
        return;
      }
      TakeEntry(header, octal.value);
    }

    method TakeEntry(header: Bytes, size: nat)
      requires !settled && skip == 0 && pending.None? && |header| == BLOCK
      modifies this`skip, this`pending, this`nextName, this`settled, this`result
      ensures Turned() == old(OnEntry(header, size, buffered, nextName))
    {
      if TypeOf(header) == 'x' || TypeOf(header) == 'L' {
        TakeNameEntry(header, size);
      } else {
        TakeOtherEntry(header, size);
      }
    }

    method TakeOtherEntry(header: Bytes, size: nat)
      requires !settled && skip == 0 && pending.None? && |header| == BLOCK && TypeOf(header) !in {'x', 'L'}
      modifies this`skip, this`pending, this`nextName
      ensures Turned() == old(OnEntry(header, size, buffered, nextName))
    {
      var wanted := IsWanted(header, size, nextName);
      nextName := None;
      if wanted {
        pending := Some(Pending(Match, size));
      } else {
        skip := Padded(size);
      }
    }

    /** An entry that only says the next one's name. */
    method TakeNameEntry(header: Bytes, size: nat)
      requires !settled && skip == 0 && pending.None? && |header| == BLOCK && TypeOf(header) in {'x', 'L'}
      modifies this`pending, this`settled, this`result
      ensures Turned() == old(OnEntry(header, size, buffered, nextName))
    {
      if size > MAX_EXAMPLE_BYTES {
        Finish(None);
        return;
      }
      pending := Some(Pending(if TypeOf(header) == 'x' then Pax else LongName, size));
    }

    /** gunzip's `data` event; after settling the stream is destroyed and no data arrives. */
    method OnData(chunk: Bytes)
      requires !settled
      modifies this
      ensures scanned == old(scanned) + |chunk|
      ensures Progress() ==
        if scanned > MAX_SCAN_BYTES then Settled(None) else Run(old(Append(State(), chunk)))
    {
      scanned := scanned + |chunk|;
      if scanned > MAX_SCAN_BYTES {
        Finish(None);
        return;
      }
      assert |buffered| == 0 ==> buffered + chunk == chunk;
      buffered := if |buffered| == 0 then chunk else buffered + chunk;
      Consume();
    }

    method OnEnd()
      modifies this`settled, this`result
      ensures settled && result == if old(settled) then old(result) else None
    {
      Finish(None);
    }
  }

  /** What a read of these chunks answers. */
  function ReadResult(chunks: seq<Bytes>): Option<Bytes> {
    ScanResult(Flatten(WithinCap(chunks, 0)))
  }

  lemma OneChunk(o: Outcome, chunks: seq<Bytes>, scanned: nat)
    requires o.Waiting? && chunks != []
    ensures if scanned + |chunks[0]| <= MAX_SCAN_BYTES
      then Feed(o, WithinCap(chunks, scanned)) == Feed(Run(Append(o.scan, chunks[0])), WithinCap(chunks[1..], scanned + |chunks[0]|))
      else Feed(o, WithinCap(chunks, scanned)) == o
  {
  }

  /** A whole read: the chunks as they come, then the end of the stream. */
  method ReadEnvExample(chunks: seq<Bytes>) returns (result: Option<Bytes>)
    ensures result == ReadResult(chunks)
    ensures |Flatten(chunks)| <= MAX_SCAN_BYTES ==> result == ScanResult(Flatten(chunks))
  {
    var reader := new EnvExampleReader();
    var i := 0;
    while i < |chunks| && !reader.settled
      invariant i <= |chunks|
      invariant fresh(reader)
      invariant reader.scanned <= MAX_SCAN_BYTES || reader.Progress() == Settled(None)
      invariant reader.scanned <= MAX_SCAN_BYTES ==>
        Feed(reader.Progress(), WithinCap(chunks[i..], reader.scanned)) == Feed(Waiting(START), WithinCap(chunks, 0))
      invariant reader.scanned > MAX_SCAN_BYTES ==> !Feed(Waiting(START), WithinCap(chunks, 0)).Settled?
      modifies reader
    {
      assert chunks[i..][0] == chunks[i] && chunks[i..][1..] == chunks[i + 1..];
      OneChunk(reader.Progress(), chunks[i..], reader.scanned);
      reader.OnData(chunks[i]);
      i := i + 1;
    }
    reader.OnEnd();
    result := reader.result;
    WholeRead(chunks);
  }

  lemma WholeRead(chunks: seq<Bytes>)
    ensures var end := Feed(Waiting(START), WithinCap(chunks, 0));
      ReadResult(chunks) == if end.Settled? then end.result else None
    ensures |Flatten(chunks)| <= MAX_SCAN_BYTES ==> ReadResult(chunks) == ScanResult(Flatten(chunks))
  {
    WithinCapWhole(chunks, 0);
    ChunkingIrrelevant(WithinCap(chunks, 0));
  }

  /** Past the cap the cut does matter: the same bytes in one chunk are given up on. */
  lemma CapIsPerChunk(archive: Bytes, rest: Bytes)
    requires |archive| <= MAX_SCAN_BYTES < |archive| + |rest|
    ensures ScanResult(Flatten(WithinCap([archive, rest], 0))) == ScanResult(archive)
    ensures ScanResult(Flatten(WithinCap([archive + rest], 0))) == None
  {
    assert WithinCap([archive, rest], 0) == [archive];
    assert Flatten([archive]) == archive;
    assert WithinCap([archive + rest], 0) == [] && Append(START, "") == START;
    NothingToRead();
  }

  /** What was found stays found, whatever follows. */
  lemma AppendTwice(s: Scan, c: Bytes, d: Bytes)
    ensures Append(Append(s, c), d) == Append(s, c + d)
  {
  }

  lemma FoundIsSettled(stream: Bytes)
    requires ScanResult(stream).Some?
    ensures Run(Append(START, stream)) == Settled(ScanResult(stream))
  {
  }

  lemma SettledIsResult(stream: Bytes, r: Option<Bytes>)
    requires Run(Append(START, stream)) == Settled(r)
    ensures ScanResult(stream) == r
  {
  }

  lemma SettledStays(s: Scan, more: Bytes)
    ensures Run(s).Settled? ==> Run(Append(s, more)) == Run(s)
  {
    RunAppend(s, more);
  }

  lemma FoundStaysFound(stream: Bytes, more: Bytes)
    ensures ScanResult(stream).Some? ==> ScanResult(stream + more) == ScanResult(stream)
  {
    if ScanResult(stream).Some? {
      FoundIsSettled(stream);
      SettledStays(Append(START, stream), more);
      AppendTwice(START, stream, more);
      SettledIsResult(stream + more, ScanResult(stream));
    }
  }

  lemma {:induction false} WithinCapIsPrefix(chunks: seq<Bytes>, scanned: nat)
    ensures Flatten(WithinCap(chunks, scanned)) <= Flatten(chunks)
    ensures scanned <= MAX_SCAN_BYTES ==> scanned + |Flatten(WithinCap(chunks, scanned))| <= MAX_SCAN_BYTES
    decreases |chunks|
  {
    if chunks != [] && scanned + |chunks[0]| <= MAX_SCAN_BYTES {
      WithinCapIsPrefix(chunks[1..], scanned + |chunks[0]|);
      assert WithinCap(chunks, scanned)[1..] == WithinCap(chunks[1..], scanned + |chunks[0]|);
    }
  }

  /** A stream past the cap: a chunking finds nothing, or what the first bytes up to the cap hold. */
  lemma PastTheCap(stream: Bytes, chunks: seq<Bytes>)
    requires |stream| > MAX_SCAN_BYTES && Flatten(chunks) == stream
    ensures ReadResult(chunks).Some? ==> ReadResult(chunks) == ScanResult(stream[..MAX_SCAN_BYTES])
  {
    WithinCapIsPrefix(chunks, 0);
    var seen, capped := Flatten(WithinCap(chunks, 0)), stream[..MAX_SCAN_BYTES];
    assert capped == seen + capped[|seen|..];
    FoundStaysFound(seen, capped[|seen|..]);
  }

  lemma FlattenShort(c: Bytes, d: Bytes)
    ensures Flatten([c]) == c && Flatten([c, d]) == c + d
  {
    assert [c][1..] == [] && [c, d][1..] == [d] && [d][1..] == [];
  }

  lemma CutAtTheCap(stream: Bytes)
    requires |stream| > MAX_SCAN_BYTES
    ensures var chunks := [stream[..MAX_SCAN_BYTES], stream[MAX_SCAN_BYTES..]];
      Flatten(chunks) == stream && ReadResult(chunks) == ScanResult(stream[..MAX_SCAN_BYTES])
    ensures Flatten([stream]) == stream && ReadResult([stream]) == None
  {
    var archive, rest := stream[..MAX_SCAN_BYTES], stream[MAX_SCAN_BYTES..];
    assert archive + rest == stream;
    FlattenShort(archive, rest);
    FlattenShort(stream, rest);
    CapIsPerChunk(archive, rest);
  }

  /**
   * Past the cap all chunkings of a stream agree exactly when its first bytes up to the cap hold
   * nothing; then all of them find nothing.
   */
  lemma CapMattersExactly(stream: Bytes)
    requires |stream| > MAX_SCAN_BYTES
    ensures (forall chunks | Flatten(chunks) == stream :: ReadResult(chunks) == None) <==> ScanResult(stream[..MAX_SCAN_BYTES]) == None
    ensures (forall a, b | Flatten(a) == stream && Flatten(b) == stream :: ReadResult(a) == ReadResult(b))
      <==> ScanResult(stream[..MAX_SCAN_BYTES]) == None
  {
    CutAtTheCap(stream);
    var cut := [stream[..MAX_SCAN_BYTES], stream[MAX_SCAN_BYTES..]];
    forall chunks | Flatten(chunks) == stream && ScanResult(stream[..MAX_SCAN_BYTES]) == None
      ensures ReadResult(chunks) == None
    {
      PastTheCap(stream, chunks);
    }
    assert ReadResult(cut) == ScanResult(stream[..MAX_SCAN_BYTES]) && ReadResult([stream]) == None;
  }
}
