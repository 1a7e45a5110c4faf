/**
 * Writing tar archives (ustar Interchange Format and pax Extended Header of the
 * pax utility, IEEE Std 1003.1-2017), and the proof that the reader undoes it.
 */
module TarArchive {
  import opened Wrappers
  import opened Text
  import opened TarReader

  function Zeros(n: nat): (z: Bytes)
    ensures |z| == n && forall i | 0 <= i < n :: z[i] == '\0'
  {
    seq(n, i => '\0')
  }

  function PadTo(text: Bytes, width: nat): (field: Bytes)
    requires |text| <= width
    ensures |field| == width
  {
    text + Zeros(width - |text|)
  }

  function Pow8(n: nat): nat {
    if n == 0 then 1 else 8 * Pow8(n - 1)
  }

  function OctalField(n: nat, width: nat): (digits: string)
    ensures |digits| == width && forall c | c in digits :: IsOctalDigit(c)
  {
    if width == 0 then ""
    else OctalField(n / 8, width - 1) + [('0' as int + n % 8) as char]
  }

  /** An archive entry: the fields the reader looks at, and arbitrary bytes in the others. */
  datatype Entry = Entry(
    name: Bytes, prefix: Bytes, typeflag: char, body: Bytes,
    owner: Bytes, times: Bytes, link: Bytes, tail: Bytes)

  const SIZE_DIGITS: nat := 11

  ghost predicate ValidEntry(e: Entry) {
    && |e.name| <= 100 && '\0' !in e.name
    && |e.prefix| <= 155 && '\0' !in e.prefix
    && |e.body| < Pow8(SIZE_DIGITS)
    && |e.owner| == 24 && |e.times| == 20 && |e.link| == 188 && |e.tail| == 12
  }

  function Header(e: Entry): (h: Bytes)
    requires ValidEntry(e)
    ensures |h| == BLOCK
  {
    PadTo(e.name, 100) + e.owner + OctalField(|e.body|, SIZE_DIGITS) + "\0" + e.times
    + [e.typeflag] + e.link + PadTo(e.prefix, 155) + e.tail
  }

  function Encode(e: Entry): Bytes
    requires ValidEntry(e)
  {
    Header(e) + PadTo(e.body, Padded(|e.body|))
  }

  function EncodeAll(es: seq<Entry>): Bytes
    requires forall e | e in es :: ValidEntry(e)
  {
    if es == [] then "" else Encode(es[0]) + EncodeAll(es[1..])
  }

  // ------------------------------------------------ reading a field back

  lemma CStringOfPad(text: Bytes, width: nat)
    requires |text| <= width && '\0' !in text
    ensures CString(PadTo(text, width)) == text
  {
    if |text| < width {
      var zeros := Zeros(width - |text| - 1);
      assert PadTo(text, width) == text + ['\0'] + zeros;
      IndexOfAt(text, '\0', zeros);
    } else {
      assert PadTo(text, width) == text;
      IndexOfAt(text, '\0', "");
    }
  }

  lemma {:induction false} OctalValueOfField(n: nat, width: nat)
    requires n < Pow8(width)
    ensures OctalValue(OctalField(n, width)) == n
  {
    if width > 0 {
      OctalValueOfField(n / 8, width - 1);
      var d := OctalField(n, width);
      assert d[..width - 1] == OctalField(n / 8, width - 1);
      assert OctalDigit(d[width - 1]) == n % 8;
    }
  }

  lemma {:induction false} OctalPrefixAll(digits: string)
    requires forall c | c in digits :: IsOctalDigit(c)
    ensures OctalPrefix(digits) == digits
  {
    if digits != "" {
      OctalPrefixAll(digits[1..]);
    }
  }

  /** The reader gets back every size an eleven-digit field can hold. */
  lemma ReadOctalOfField(n: nat)
    requires n < Pow8(SIZE_DIGITS)
    ensures ReadOctal(OctalField(n, SIZE_DIGITS) + "\0") == Some(n)
  {
    var digits := OctalField(n, SIZE_DIGITS);
    assert digits + "\0" == PadTo(digits, 12);
    CStringOfPad(digits, 12);
    assert digits[0] in digits && !IsSpace(digits[0]) && digits[0] !in {'+', '-'};
    assert TrimLeft(digits) == digits;
    OctalPrefixAll(digits);
    OctalValueOfField(n, SIZE_DIGITS);
  }

  lemma HeaderFields(e: Entry)
    requires ValidEntry(e)
    ensures var h := Header(e);
      && h[0..100] == PadTo(e.name, 100)
      && h[124..136] == OctalField(|e.body|, SIZE_DIGITS) + "\0"
      && h[156] == e.typeflag
      && h[345..500] == PadTo(e.prefix, 155)
  {
  }

  // ------------------------------------------------------ entry-level meaning

  function FullName(e: Entry): Bytes {
    if e.prefix != "" then e.prefix + "/" + e.name else e.name
  }

  function EffectiveName(e: Entry, nextName: Option<Bytes>): Bytes {
    if nextName.GetOr("") != "" then nextName.value else FullName(e)
  }

  predicate IsRegular(e: Entry) {
    e.typeflag == '0' || e.typeflag == '\0'
  }

  predicate IsWanted(e: Entry, nextName: Option<Bytes>) {
    IsRegular(e) && IsEnvExamplePath(EffectiveName(e, nextName)) && |e.body| <= MAX_EXAMPLE_BYTES
  }

  predicate IsNameEntry(e: Entry) {
    e.typeflag == 'x' || e.typeflag == 'L'
  }

  function NameGiven(e: Entry): Option<Bytes> {
    if e.typeflag == 'x' then PaxPath(e.body) else Some(CString(e.body))
  }

  /** What an archive's entries, not its bytes, say the answer is. */
  function Find(es: seq<Entry>, nextName: Option<Bytes>): Option<Bytes> {
    if es == [] then None
    else if IsNameEntry(es[0]) then
      if |es[0].body| > MAX_EXAMPLE_BYTES then None else Find(es[1..], NameGiven(es[0]))
    else if IsWanted(es[0], nextName) then Some(es[0].body)
    else Find(es[1..], None)
  }

  // --------------------------------------------------------------- round trip

  lemma HeaderIsRead(e: Entry, rest: Bytes, nextName: Option<Bytes>)
    requires ValidEntry(e)
    ensures OnHeader(Header(e), rest, nextName) ==
      if IsNameEntry(e) then
        if |e.body| > MAX_EXAMPLE_BYTES then Settled(None)
        else Going(Scan(rest, 0, Some(Pending(if e.typeflag == 'x' then Pax else LongName, |e.body|)), nextName))
      else if IsWanted(e, nextName) then Going(Scan(rest, 0, Some(Pending(Match, |e.body|)), None))
      else Going(Scan(rest, Padded(|e.body|), None, None))
  {
    var h := Header(e);
    HeaderFields(e);
    CStringOfPad(e.name, 100);
    CStringOfPad(e.prefix, 155);
    ReadOctalOfField(|e.body|);
    assert IsOctalDigit(h[124..136][0]) && h[124] != '\0';
    assert NameOf(h, nextName) == EffectiveName(e, nextName);
  }

  /** From a header on, the reader's state at the next header. */
  lemma EntryIsRead(e: Entry, rest: Bytes, nextName: Option<Bytes>)
    requires ValidEntry(e)
    ensures Run(Scan(Encode(e) + rest, 0, None, nextName)) ==
      if IsNameEntry(e) then
        if |e.body| > MAX_EXAMPLE_BYTES then Settled(None) else Run(Scan(rest, 0, None, NameGiven(e)))
      else if IsWanted(e, nextName) then Settled(Some(e.body))
      else Run(Scan(rest, 0, None, None))
  {
    EncodedIsOnHeader(e, rest, nextName);
    HeaderIsRead(e, PadTo(e.body, Padded(|e.body|)) + rest, nextName);
    if IsNameEntry(e) {
      BodyIsRead(if e.typeflag == 'x' then Pax else LongName, e, rest, nextName);
    } else if IsWanted(e, nextName) {
      BodyIsRead(Match, e, rest, None);
    } else {
      BodyIsSkipped(e, rest);
    }
  }

  lemma EncodedIsOnHeader(e: Entry, rest: Bytes, nextName: Option<Bytes>)
    requires ValidEntry(e)
    ensures Step(Scan(Encode(e) + rest, 0, None, nextName)) == OnHeader(Header(e), PadTo(e.body, Padded(|e.body|)) + rest, nextName)
  {
    var buffered, data := Encode(e) + rest, PadTo(e.body, Padded(|e.body|)) + rest;
    assert buffered == Header(e) + data && buffered[0..] == buffered;
    assert buffered[..BLOCK] == Header(e) && buffered[BLOCK..] == data;
  }

  lemma BodyIsRead(kind: Kind, e: Entry, rest: Bytes, nextName: Option<Bytes>)
    ensures Step(Scan(PadTo(e.body, Padded(|e.body|)) + rest, 0, Some(Pending(kind, |e.body|)), nextName)) == OnBody(kind, e.body, rest)
  {
    var n, p := |e.body|, Padded(|e.body|);
    var data := PadTo(e.body, p) + rest;
    assert data[0..] == data && data[..n] == e.body && data[p..] == rest;
  }

  lemma BodyIsSkipped(e: Entry, rest: Bytes)
    ensures Step(Scan(PadTo(e.body, Padded(|e.body|)) + rest, Padded(|e.body|), None, None)) == Step(Scan(rest, 0, None, None))
  {
    var p := Padded(|e.body|);
    var data := PadTo(e.body, p) + rest;
    assert data[p..] == rest && rest[0..] == rest;
    assert Skipped(Scan(data, p, None, None)) == Scan(rest, 0, None, None);
    assert Skipped(Scan(rest, 0, None, None)) == Scan(rest, 0, None, None);
  }

  /**
   * Reading undoes writing: a written archive, closed by a zero block and followed by
   * anything, reads as what its list of entries says.
   */
  lemma {:induction false} ReadingUndoesWriting(es: seq<Entry>, after: Bytes, nextName: Option<Bytes>)
    requires forall e | e in es :: ValidEntry(e)
    ensures Run(Scan(EncodeAll(es) + Zeros(BLOCK) + after, 0, None, nextName)) == Settled(Find(es, nextName))
    decreases |es|
  {
    if es == [] {
      var b := Zeros(BLOCK) + after;
      assert EncodeAll(es) + Zeros(BLOCK) + after == b;
      assert b[0..][..BLOCK] == Zeros(BLOCK);
    } else {
      var rest := EncodeAll(es[1..]) + Zeros(BLOCK) + after;
      assert EncodeAll(es) + Zeros(BLOCK) + after == Encode(es[0]) + rest;
      EntryIsRead(es[0], rest, nextName);
      if IsNameEntry(es[0]) {
        ReadingUndoesWriting(es[1..], after, NameGiven(es[0]));
      } else {
        ReadingUndoesWriting(es[1..], after, None);
      }
    }
  }

  /** Archives whose every name entry describes the one entry right after it. */
  datatype LongNaming = Plain | PaxHeader(holder: Entry, records: seq<(string, string, string)>) | GnuLongName(holder: Entry, longName: Bytes)
  datatype Member = Member(naming: LongNaming, entry: Entry)

  /** `<length> <key>=<value>` and a newline. */
  function EncodeRecord(r: (string, string, string)): Bytes {
    r.0 + " " + r.1 + "=" + r.2 + "\n"
  }

  function EncodeRecords(rs: seq<(string, string, string)>): Bytes {
    if rs == [] then "" else EncodeRecord(rs[0]) + EncodeRecords(rs[1..])
  }

  /** A length and a key; the value may be any text. */
  ghost predicate ValidRecord(r: (string, string, string)) {
    r.0 != "" && (forall c | c in r.0 :: IsDigit(c)) && '=' !in r.1
  }

  /** The path the records give: a later record overrides an earlier one of its keyword. */
  function PathRecord(rs: seq<(string, string, string)>): Option<Bytes> {
    if rs == [] then None
    else if PathRecord(rs[1..]).Some? then PathRecord(rs[1..])
    else if rs[0].1 == "path" then Some(rs[0].2)
    else None
  }

  // The reader goes by lines, although a record's value may have several.

  function LinesOf(r: (string, string, string)): (lines: seq<Bytes>)
    ensures lines != []
  {
    Split(r.1 + "=" + r.2, '\n')
  }

  function FirstPath(lines: seq<Bytes>): Option<Bytes> {
    if lines == [] then None
    else if PathOfLine(lines[0]).Some? then PathOfLine(lines[0])
    else FirstPath(lines[1..])
  }

  /** A further line of a record that looks like a path record. */
  function Stray(r: (string, string, string)): Option<Bytes> {
    FirstPath(LinesOf(r)[1..])
  }

  function FirstLine(value: Bytes): Bytes {
    Split(value, '\n')[0]
  }

  /** The path the reader takes from a body of records. */
  function RecordsPath(rs: seq<(string, string, string)>): Option<Bytes> {
    if rs == [] then None
    else if rs[0].1 == "path" then Some(FirstLine(rs[0].2))
    else if Stray(rs[0]).Some? then Stray(rs[0])
    else RecordsPath(rs[1..])
  }

  /** The first line that looks like a path is that of the only path, in one line, or says what the last path says. */
  predicate Clear(rs: seq<(string, string, string)>) {
    if rs == [] then true
    else if rs[0].1 == "path" then
      if PathRecord(rs[1..]).Some? then PathRecord(rs[1..]).value == FirstLine(rs[0].2) else '\n' !in rs[0].2
    else if Stray(rs[0]).Some? then PathRecord(rs[1..]) == Stray(rs[0])
    else Clear(rs[1..])
  }

  lemma {:induction false} SkipDigitsOf(digits: string, rest: string)
    requires forall c | c in digits :: IsDigit(c)
    requires rest != "" && !IsDigit(rest[0])
    ensures SkipDigits(digits + rest) == rest
  {
    if digits == "" {
      assert digits + rest == rest;
    } else {
      SkipDigitsOf(digits[1..], rest);
      assert (digits + rest)[1..] == digits[1..] + rest;
    }
  }

  /** A line of digits, a space and `text` is a path line exactly when `text` starts so. */
  lemma DigitsLine(digits: string, text: Bytes)
    requires digits != "" && forall c | c in digits :: IsDigit(c)
    ensures PathOfLine(digits + " " + text) == if "path=" <= text then Some(text[5..]) else None
  {
    var line, rest := digits + " " + text, " " + text;
    assert line == digits + rest;
    SkipDigitsOf(digits, rest);
    if "path=" <= text {
      assert text == "path=" + text[5..];
      assert rest == PATH_KEY + text[5..];
    }
    if PATH_KEY <= rest {
      assert text == rest[1..] && rest[1..6] == "path=";
    }
  }

  lemma FirstPieceOfPath(value: Bytes)
    ensures Split("path=" + value, '\n')[0] == "path=" + FirstLine(value)
  {
    SplitStep("path=", '\n', "");
    SplitOfAppend("path=", value, '\n');
    PrefixOfFirstPiece("path=", value);
  }

  /** Text without a newline in front of a value only makes its first piece longer. */
  lemma {:induction false} PrefixOfFirstPiece(head: Bytes, value: Bytes)
    requires '\n' !in head
    ensures Split(head + value, '\n') == [head + FirstLine(value)] + Split(value, '\n')[1..]
  {
    var i := IndexOf(value, '\n');
    if i == |value| {
      assert '\n' !in value by { assert value[..i] == value; }
      SplitStep(value, '\n', "");
      SplitStep(head + value, '\n', "");
      assert [value][1..] == [];
    } else {
      var first, rest := value[..i], value[i + 1..];
      assert value == first + ['\n'] + rest && head + value == head + first + ['\n'] + rest;
      SplitStep(first, '\n', rest);
      SplitStep(head + first, '\n', rest);
      assert Split(value, '\n')[1..] == Split(rest, '\n');
    }
  }

  /** The first line of a record is a path line exactly when its key is `path`. */
  lemma FirstLineOfRecord(r: (string, string, string))
    requires ValidRecord(r)
    ensures PathOfLine(r.0 + " " + LinesOf(r)[0]) == if r.1 == "path" then Some(FirstLine(r.2)) else None
  {
    var text := LinesOf(r)[0];
    DigitsLine(r.0, text);
    FirstPieceIsPrefix(r.1 + "=" + r.2);
    if r.1 == "path" {
      assert r.1 + "=" + r.2 == "path=" + r.2;
      FirstPieceOfPath(r.2);
      assert ("path=" + FirstLine(r.2))[5..] == FirstLine(r.2);
    } else if "path=" <= text {
      KeyOfContent(r.1, r.2);
      assert false;
    }
  }

  lemma KeyOfContent(key: Bytes, value: Bytes)
    requires '=' !in key
    ensures "path=" <= key + "=" + value <==> key == "path"
  {
    var content := key + ['='] + value;
    IndexOfAt(key, '=', value);
    if "path=" <= content {
      assert content == "path" + ['='] + content[5..];
      IndexOfAt("path", '=', content[5..]);
      assert key == content[..4];
    }
  }

  lemma FirstPieceIsPrefix(s: Bytes)
    ensures Split(s, '\n')[0] <= s
  {
    var i := IndexOf(s, '\n');
    assert s[..i] <= s;
  }

  lemma PaxPathOfLine(line: Bytes, rest: Bytes)
    requires '\n' !in line
    ensures PaxPath(line + ['\n'] + rest) == if PathOfLine(line).Some? then PathOfLine(line) else PaxPath(rest)
  {
    var body := line + ['\n'] + rest;
    IndexOfAt(line, '\n', rest);
    assert body[..|line|] == line && body[|line| + 1..] == rest;
  }

  lemma {:induction false} PaxPathOfLines(lines: seq<Bytes>, rest: Bytes)
    requires lines != [] && forall l | l in lines :: '\n' !in l
    ensures PaxPath(Join(lines, '\n') + ['\n'] + rest) == if FirstPath(lines).Some? then FirstPath(lines) else PaxPath(rest)
  {
    if |lines| == 1 {
      assert lines[1..] == [];
      PaxPathOfLine(lines[0], rest);
    } else {
      var more := Join(lines[1..], '\n') + ['\n'] + rest;
      assert Join(lines, '\n') + ['\n'] + rest == lines[0] + ['\n'] + more;
      PaxPathOfLine(lines[0], more);
      PaxPathOfLines(lines[1..], rest);
    }
  }

  lemma JoinWithHead(head: Bytes, lines: seq<Bytes>)
    requires lines != []
    ensures Join([head + lines[0]] + lines[1..], '\n') == head + Join(lines, '\n')
  {
    assert ([head + lines[0]] + lines[1..])[1..] == lines[1..];
  }

  lemma RecordIsRead(r: (string, string, string), rest: Bytes)
    requires ValidRecord(r)
    ensures PaxPath(EncodeRecord(r) + rest) ==
      if r.1 == "path" then Some(FirstLine(r.2)) else if Stray(r).Some? then Stray(r) else PaxPath(rest)
  {
    var pieces, head := LinesOf(r), r.0 + " ";
    var lines := [head + pieces[0]] + pieces[1..];
    JoinOfSplit(r.1 + "=" + r.2, '\n');
    JoinWithHead(head, pieces);
    assert EncodeRecord(r) + rest == Join(lines, '\n') + ['\n'] + rest;
    assert pieces[0] in pieces && forall c | c in r.0 :: c != '\n';
    PaxPathOfLines(lines, rest);
    FirstLineOfRecord(r);
    assert lines[1..] == pieces[1..];
  }

  /** What the reader takes from a body written as records, whatever their values hold. */
  lemma {:induction false} PaxPathOfRecords(rs: seq<(string, string, string)>)
    requires forall r | r in rs :: ValidRecord(r)
    ensures PaxPath(EncodeRecords(rs)) == RecordsPath(rs)
  {
    if rs != [] {
      RecordIsRead(rs[0], EncodeRecords(rs[1..]));
      PaxPathOfRecords(rs[1..]);
    }
  }

  lemma FirstLineIsAll(value: Bytes)
    ensures FirstLine(value) == value <==> '\n' !in value
  {
    JoinOfSplit(value, '\n');
    if '\n' !in value {
      SplitStep(value, '\n', "");
    }
  }

  /** The path that is read is the one the records give exactly when they are clear. */
  lemma {:induction false} ReadsThePathExactly(rs: seq<(string, string, string)>)
    requires forall r | r in rs :: ValidRecord(r)
    ensures PaxPath(EncodeRecords(rs)) == PathRecord(rs) <==> Clear(rs)
  {
    PaxPathOfRecords(rs);
    if rs != [] {
      if rs[0].1 == "path" {
        FirstLineIsAll(rs[0].2);
      } else if Stray(rs[0]).None? {
        ReadsThePathExactly(rs[1..]);
        PaxPathOfRecords(rs[1..]);
      }
    }
  }

  /** A comment that holds a line like a path record is taken for one. */
  const COMMENT: (string, string, string) := ("20", "comment", "x\n9 path=y")

  lemma LinesOfComment()
    ensures LinesOf(COMMENT) == ["comment=x", "9 path=y"]
  {
    var first, second: Bytes := "comment=x", "9 path=y";
    assert '\n' !in first && '\n' !in second;
    assert COMMENT.1 + "=" + COMMENT.2 == first + "\n" + second;
    TwoLines(first, second);
  }

  lemma TwoLines(first: Bytes, second: Bytes)
    requires '\n' !in first && '\n' !in second
    ensures Split(first + "\n" + second, '\n') == [first, second]
  {
    SplitStep(first, '\n', second);
    SplitStep(second, '\n', "");
  }

  lemma StrayOfComment()
    ensures Stray(COMMENT) == Some("y")
  {
    var second: Bytes := "9 path=y";
    LinesOfComment();
    assert LinesOf(COMMENT)[1..] == [second];
    assert second == "9" + " " + "path=y" && "path=y"[5..] == "y";
    DigitsLine("9", "path=y");
  }

  lemma ACommentIsTakenForThePath()
    ensures ValidRecord(COMMENT) && PaxPath(EncodeRecords([COMMENT])) == Some("y") && PathRecord([COMMENT]) == None
  {
    assert [COMMENT][1..] == [] && ValidRecord(COMMENT);
    StrayOfComment();
    PaxPathOfRecords([COMMENT]);
  }

  const FIRST_PATH: (string, string, string) := ("9", "path", "a")
  const SECOND_PATH: (string, string, string) := ("9", "path", "b")

  /** Of two path records the first is taken, and the second is the one that holds. */
  lemma AnOverriddenPathIsTaken()
    ensures ValidRecord(FIRST_PATH) && ValidRecord(SECOND_PATH)
    ensures PaxPath(EncodeRecords([FIRST_PATH, SECOND_PATH])) == Some("a") && PathRecord([FIRST_PATH, SECOND_PATH]) == Some("b")
  {
    var rs := [FIRST_PATH, SECOND_PATH];
    assert rs[1..] == [SECOND_PATH] && [SECOND_PATH][1..] == [];
    var path: Bytes := "a";
    assert '\n' !in path;
    FirstLineIsAll(path);
    assert FIRST_PATH.1 == "path" && FIRST_PATH.2 == path && RecordsPath(rs) == Some(FirstLine(path));
    assert SECOND_PATH.1 == "path" && PathRecord([SECOND_PATH]) == Some(SECOND_PATH.2);
    assert forall r | r in rs :: ValidRecord(r);
    PaxPathOfRecords(rs);
  }

  ghost predicate ValidMember(m: Member) {
    && ValidEntry(m.entry) && !IsNameEntry(m.entry)
    && match m.naming
       case Plain => true
       case PaxHeader(h, records) =>
         && ValidEntry(h) && h.typeflag == 'x' && |h.body| <= MAX_EXAMPLE_BYTES
         && h.body == EncodeRecords(records) && forall r | r in records :: ValidRecord(r)
       case GnuLongName(h, longName) =>
         && ValidEntry(h) && h.typeflag == 'L' && |h.body| <= MAX_EXAMPLE_BYTES
         && '\0' !in longName && (h.body == longName || h.body == longName + "\0")
  }

  ghost function MemberEntries(m: Member): (es: seq<Entry>)
    requires ValidMember(m)
    ensures forall e | e in es :: ValidEntry(e)
  {
    if m.naming.Plain? then [m.entry] else [m.naming.holder, m.entry]
  }

  ghost function Entries(ms: seq<Member>): (es: seq<Entry>)
    requires forall m | m in ms :: ValidMember(m)
    ensures forall e | e in es :: ValidEntry(e)
  {
    if ms == [] then []
    else
      assert ValidMember(ms[0]);
      MemberEntries(ms[0]) + Entries(ms[1..])
  }

  /** The name a member goes by: its long name where one is given and not empty. */
  function MemberName(m: Member): Bytes {
    match m.naming
    case Plain => FullName(m.entry)
    case PaxHeader(_, records) => EffectiveName(m.entry, PathRecord(records))
    case GnuLongName(_, longName) => EffectiveName(m.entry, Some(longName))
  }

  /** The name the reader takes it for. */
  function ReadName(m: Member): Bytes {
    if m.naming.PaxHeader? then EffectiveName(m.entry, RecordsPath(m.naming.records)) else MemberName(m)
  }

  /** The names are the same when the records are clear. */
  lemma ReadNameIsName(m: Member)
    requires ValidMember(m) && (m.naming.PaxHeader? ==> Clear(m.naming.records))
    ensures ReadName(m) == MemberName(m)
  {
    if m.naming.PaxHeader? {
      ReadsThePathExactly(m.naming.records);
      PaxPathOfRecords(m.naming.records);
    }
  }

  predicate Qualifies(m: Member) {
    IsRegular(m.entry) && IsEnvExamplePath(ReadName(m)) && |m.entry.body| <= MAX_EXAMPLE_BYTES
  }

  ghost predicate IsFirstQualifying(ms: seq<Member>, i: nat) {
    i < |ms| && Qualifies(ms[i]) && forall j | 0 <= j < i :: !Qualifies(ms[j])
  }

  lemma FindAfterMember(m: Member, rest: seq<Entry>)
    requires ValidMember(m)
    ensures Find(MemberEntries(m) + rest, None)
      == if Qualifies(m) then Some(m.entry.body) else Find(rest, None)
  {
    var tail := [m.entry] + rest;
    assert tail[1..] == rest;
    match m.naming
    case Plain =>
    case PaxHeader(h, records) =>
      PaxPathOfRecords(records);
      assert (MemberEntries(m) + rest)[1..] == tail;
    case GnuLongName(h, longName) =>
      assert h.body == PadTo(longName, |h.body|);
      CStringOfPad(longName, |h.body|);
      assert (MemberEntries(m) + rest)[1..] == tail;
  }

  lemma FindOneMember(ms: seq<Member>)
    requires ms != [] && forall m | m in ms :: ValidMember(m)
    ensures Find(Entries(ms), None) == if Qualifies(ms[0]) then Some(ms[0].entry.body) else Find(Entries(ms[1..]), None)
  {
    FindAfterMember(ms[0], Entries(ms[1..]));
  }

  lemma {:induction false} FindsOnlyQualifying(ms: seq<Member>)
    requires forall m | m in ms :: ValidMember(m)
    ensures Find(Entries(ms), None).None? <==> forall j | 0 <= j < |ms| :: !Qualifies(ms[j])
  {
    if ms != [] {
      FindOneMember(ms);
      FindsOnlyQualifying(ms[1..]);
      NoneOfOneMore(ms, m => Qualifies(m));
    }
  }

  lemma FindAt(ms: seq<Member>, i: nat)
    requires i < |ms| && forall m | m in ms :: ValidMember(m)
    ensures Find(Entries(ms[i..]), None) == if Qualifies(ms[i]) then Some(ms[i].entry.body) else Find(Entries(ms[i + 1..]), None)
  {
    FindOneMember(ms[i..]);
    assert ms[i..][1..] == ms[i + 1..];
  }

  lemma {:induction false} FindBehind(ms: seq<Member>, i: nat)
    requires i <= |ms| && (forall m | m in ms :: ValidMember(m)) && forall j | 0 <= j < i :: !Qualifies(ms[j])
    ensures Find(Entries(ms), None) == Find(Entries(ms[i..]), None)
  {
    if i > 0 {
      FindBehind(ms, i - 1);
      FindAt(ms, i - 1);
    } else {
      assert ms[0..] == ms;
    }
  }

  lemma FindsTheFirst(ms: seq<Member>, i: nat)
    requires (forall m | m in ms :: ValidMember(m)) && IsFirstQualifying(ms, i)
    ensures Find(Entries(ms), None) == Some(ms[i].entry.body)
  {
    FindBehind(ms, i);
    FindAt(ms, i);
  }

  lemma FindFirst(ms: seq<Member>)
    requires forall m | m in ms :: ValidMember(m)
    ensures Find(Entries(ms), None).None? <==> forall j | 0 <= j < |ms| :: !Qualifies(ms[j])
    ensures forall i: nat | IsFirstQualifying(ms, i) :: Find(Entries(ms), None) == Some(ms[i].entry.body)
  {
    FindsOnlyQualifying(ms);
    forall i: nat | IsFirstQualifying(ms, i)
      ensures Find(Entries(ms), None) == Some(ms[i].entry.body)
    {
      FindsTheFirst(ms, i);
    }
  }

  lemma NoneOfOneMore<T(!new)>(xs: seq<T>, q: T -> bool)
    requires xs != []
    ensures (forall j | 0 <= j < |xs| :: !q(xs[j])) <==> !q(xs[0]) && forall j | 0 <= j < |xs[1..]| :: !q(xs[1..][j])
  {
    assert forall j | 0 <= j < |xs[1..]| :: xs[1..][j] == xs[j + 1];
    assert forall j | 1 <= j < |xs| :: xs[j] == xs[1..][j - 1];
  }

  /** The reader settles on a written archive, with what its members' entries say. */
  lemma ArchiveIsRead(ms: seq<Member>, after: Bytes)
    requires forall m | m in ms :: ValidMember(m)
    ensures ScanResult(EncodeAll(Entries(ms)) + Zeros(BLOCK) + after) == Find(Entries(ms), None)
  {
    var stream := EncodeAll(Entries(ms)) + Zeros(BLOCK) + after;
    assert "" + stream == stream;
    ReadingUndoesWriting(Entries(ms), after, None);
  }

  /**
   * Any written archive yields the body of the first regular member that is read as `.env.example`
   * at the root or one level down, and None exactly when there is none. When its records are clear, a
   * member is read by the name it has.
   */
  lemma FirstEnvExampleIsRead(ms: seq<Member>, after: Bytes)
    requires forall m | m in ms :: ValidMember(m)
    ensures var result := ScanResult(EncodeAll(Entries(ms)) + Zeros(BLOCK) + after);
      && (forall i: nat | IsFirstQualifying(ms, i) :: result == Some(ms[i].entry.body))
      && (result == None <==> forall j | 0 <= j < |ms| :: !Qualifies(ms[j]))
    ensures forall m | m in ms && (m.naming.PaxHeader? ==> Clear(m.naming.records)) :: ReadName(m) == MemberName(m)
  {
    ArchiveIsRead(ms, after);
    FindFirst(ms);
    forall m | m in ms && (m.naming.PaxHeader? ==> Clear(m.naming.records)) ensures ReadName(m) == MemberName(m) {
      ReadNameIsName(m);
    }
  }

  // ---------------------------------------------------------- past the scan cap

  const EXAMPLE: Entry := Entry(ENV_EXAMPLE_NAME, "", '0', "A=1", Zeros(24), Zeros(20), Zeros(188), Zeros(12))

  lemma ExampleIsValid()
    ensures ValidEntry(EXAMPLE) && |Encode(EXAMPLE)| == 2 * BLOCK
  {
    assert Pow8(0) == 1 && Pow8(1) == 8 && Pow8(10) >= 1;
    assert Padded(3) == BLOCK;
    assert '\0' !in ENV_EXAMPLE_NAME;
  }

  lemma ExampleIsNamed()
    ensures IsEnvExamplePath(ENV_EXAMPLE_NAME)
  {
    var parts := [ENV_EXAMPLE_NAME];
    assert IsPart(ENV_EXAMPLE_NAME);
    EnvExamplePathMeaning(parts, '/');
    assert parts[1..] == [] && SamePath(parts, parts);
    assert Join(parts, '/') == ENV_EXAMPLE_NAME;
  }

  lemma ExampleIsFound()
    ensures Find([EXAMPLE], None) == Some("A=1")
  {
    ExampleIsNamed();
  }

  /** The example's archive, zeros up to the scan cap, and one byte more. */
  function Capped(): (stream: Bytes)
    ensures |stream| == MAX_SCAN_BYTES
  {
    ExampleIsValid();
    Encode(EXAMPLE) + Zeros(BLOCK) + Zeros(MAX_SCAN_BYTES - 3 * BLOCK)
  }

  lemma CappedIsRead()
    ensures ScanResult(Capped()) == Some("A=1")
  {
    ExampleIsValid();
    ExampleIsFound();
    assert [EXAMPLE][1..] == [] && EncodeAll([EXAMPLE]) == Encode(EXAMPLE);
    ReadingUndoesWriting([EXAMPLE], Zeros(MAX_SCAN_BYTES - 3 * BLOCK), None);
    assert "" + Capped() == Capped();
  }

  /** A stream that one chunking finds the example in, and another does not. */
  lemma ChunkingDecides()
    ensures exists one: seq<Bytes>, other: seq<Bytes> ::
      Flatten(one) == Flatten(other)
      && TarReader.ReadResult(one) == Some("A=1") && TarReader.ReadResult(other) == None
  {
    CappedIsRead();
    var stream := Capped() + "\0";
    assert stream[..MAX_SCAN_BYTES] == Capped();
    CutAtTheCap(stream);
    var one := [stream[..MAX_SCAN_BYTES], stream[MAX_SCAN_BYTES..]];
    assert Flatten(one) == Flatten([stream]) && TarReader.ReadResult(one) == Some("A=1") && TarReader.ReadResult([stream]) == None;
  }
}
