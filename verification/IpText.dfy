/**
 * What the address reader of idp-agent-gateway/src/ipMatch.js makes of every way to write an address:
 * the text forms of section 2.2 of RFC 4291, with a `::` for groups of zeros, a dotted tail and a zone.
 */
module IpText {
  import opened Wrappers
  import opened Text
  import opened Numerals
  import opened IpAddress

  // ------------------------------------------------------------------ IPv4

  lemma QuadOfParts(parts: seq<string>, v: Address)
    requires |parts| == |v| == 4 && AreBytes(v) && forall i | 0 <= i < 4 :: IsOctet(parts[i]) && Value(parts[i], 10) == v[i]
    ensures Join(parts, '.') == PrintAddress(v)
  {
    forall i | 0 <= i < 4 ensures parts[i] == Print(v[i], 10) {
      PrintOfValue(parts[i]);
    }
    DecimalPartsOfFour(v);
    assert parts == DecimalParts(v);
  }

  /** A dotted quad is read exactly in its one plain form. */
  lemma DottedMeans(text: string, v: Address)
    requires |v| == 4 && AreBytes(v)
    ensures ParseIpv4(text) == Some(v) <==> text == PrintAddress(v)
  {
    Ipv4IsRead(v);
    if ParseIpv4(text) == Some(v) {
      JoinOfSplit(text, '.');
      QuadOfParts(Split(text, '.'), v);
    }
  }

  // ----------------------------------------------------------- groups as bytes

  /** Up to four hex digits, in either case. */
  predicate IsHex(group: string) {
    1 <= |group| <= 4 && forall c | c in group :: c in "0123456789abcdefABCDEF"
  }

  ghost predicate AreHex(groups: seq<string>) {
    forall g | g in groups :: IsHex(g)
  }

  /** The bytes from `at` on are those of the groups, high byte first. */
  ghost predicate Holds(a: Address, at: nat, groups: seq<string>) {
    at + 2 * |groups| <= |a|
    && forall i | 0 <= i < |groups| :: a[at + 2 * i] * 256 + a[at + 2 * i + 1] == Value(groups[i], 16)
  }

  /** Sixteen bytes: the head's, then zeros, then the rest's. */
  ghost predicate ReadsAs(a: Address, head: seq<string>, rest: seq<string>) {
    && |a| == 16 && AreBytes(a) && |head| + |rest| <= 8
    && Holds(a, 0, head) && Holds(a, 16 - 2 * |rest|, rest)
    && forall i | 2 * |head| <= i < 16 - 2 * |rest| :: a[i] == 0
  }

  lemma HexIsGroup(g: string)
    ensures IsGroup(g) <==> IsHex(g)
  {
    if IsHex(g) {
      forall i | 0 <= i < |g| ensures DigitValue(g[i]) < 16 {
        DigitMeans(g[i]);
        assert g[i] in g;
      }
    }
    if IsGroup(g) {
      forall c | c in g ensures c in "0123456789abcdefABCDEF" {
        var i :| 0 <= i < |g| && g[i] == c;
        DigitMeans(c);
      }
    }
  }

  lemma HexArePlain(groups: seq<string>)
    requires AreHex(groups)
    ensures PlainGroups(groups)
  {
    forall g | g in groups ensures g != "" && forall i | 0 <= i < |g| :: g[i] in TEXT_CHARS - {'.', ':'} {
      forall i | 0 <= i < |g| ensures g[i] in TEXT_CHARS - {'.', ':'} {
        assert g[i] in g;
      }
    }
  }

  lemma {:induction false} ShortValue(g: string, k: nat)
    requires AreDigits(g, 16) && |g| <= k
    ensures Value(g, 16) < Power(16, k)
    decreases k
  {
    if g != "" {
      ShortValue(g[..|g| - 1], k - 1);
    }
  }

  lemma GroupValue(g: string)
    requires IsGroup(g)
    ensures Value(g, 16) < 65536
  {
    ShortValue(g, 4);
    assert Power(16, 4) == 65536 by { assert Power(16, 1) == 16 && Power(16, 2) == 256 && Power(16, 3) == 4096; }
  }

  lemma {:induction false} GroupBytesHold(groups: seq<string>)
    ensures GroupBytes(groups).Some? <==> AreHex(groups)
    ensures GroupBytes(groups).Some? ==> Holds(GroupBytes(groups).value, 0, groups)
  {
    if groups != [] {
      var g, rest := groups[0], groups[1..];
      assert groups == [g] + rest;
      HexIsGroup(g);
      GroupBytesHold(rest);
      if GroupBytes(groups).Some? {
        GroupValue(g);
        var a := GroupBytes(groups).value;
        forall i | 0 <= i < |groups| ensures a[2 * i] * 256 + a[2 * i + 1] == Value(groups[i], 16) {
          if i > 0 {
            assert a[2 * i] == GroupBytes(rest).value[2 * (i - 1)] && a[2 * i + 1] == GroupBytes(rest).value[2 * (i - 1) + 1];
            assert groups[i] == rest[i - 1];
          }
        }
      }
    }
  }

  lemma HoldsPart(a: Address, groups: seq<string>, at: nat, part: seq<string>)
    requires Holds(a, 0, groups) && at + |part| <= |groups| && groups[at..at + |part|] == part
    ensures Holds(a, 2 * at, part)
  {
    forall i | 0 <= i < |part| ensures a[2 * at + 2 * i] * 256 + a[2 * at + 2 * i + 1] == Value(part[i], 16) {
      assert part[i] == groups[at + i];
      assert a[0 + 2 * (at + i)] * 256 + a[0 + 2 * (at + i) + 1] == Value(groups[at + i], 16);
    }
  }

  lemma HoldsZeros(a: Address, at: nat, n: nat)
    requires AreBytes(a) && Holds(a, at, Zeros(n))
    ensures forall i | at <= i < at + 2 * n :: a[i] == 0
  {
    forall i | at <= i < at + 2 * n ensures a[i] == 0 {
      var k := (i - at) / 2;
      ZeroValue();
      assert Zeros(n)[k] == "0" && a[at + 2 * k] * 256 + a[at + 2 * k + 1] == 0;
    }
  }

  lemma FilledHex(head: seq<string>, n: nat, rest: seq<string>)
    requires AreHex(head) && AreHex(rest)
    ensures AreHex(head + Zeros(n) + rest)
  {
    assert IsHex("0");
  }

  lemma PartsOf(a: seq<string>, b: seq<string>, c: seq<string>)
    ensures (a + b + c)[0..0 + |a|] == a && (a + b + c)[|a|..|a| + |b|] == b
    ensures (a + b + c)[|a| + |b|..|a| + |b| + |c|] == c
  {
  }

  lemma HoldsZerosBetween(a: Address, head: seq<string>, n: nat, rest: seq<string>)
    requires AreBytes(a) && Holds(a, 0, head + Zeros(n) + rest)
    ensures forall i | 2 * |head| <= i < 2 * |head| + 2 * n :: a[i] == 0
  {
    PartsOf(head, Zeros(n), rest);
    HoldsPart(a, head + Zeros(n) + rest, |head|, Zeros(n));
    HoldsZeros(a, 2 * |head|, n);
  }

  lemma HoldsEnds(a: Address, head: seq<string>, n: nat, rest: seq<string>)
    requires Holds(a, 0, head + Zeros(n) + rest)
    ensures Holds(a, 0, head) && Holds(a, 2 * (|head| + n), rest)
  {
    PartsOf(head, Zeros(n), rest);
    HoldsPart(a, head + Zeros(n) + rest, 0, head);
    HoldsPart(a, head + Zeros(n) + rest, |head| + n, rest);
  }

  lemma ReadsParts(a: Address, head: seq<string>, n: nat, rest: seq<string>)
    requires |a| == 16 && AreBytes(a) && |head| + n + |rest| == 8 && Holds(a, 0, head + Zeros(n) + rest)
    ensures ReadsAs(a, head, rest)
  {
    HoldsEnds(a, head, n, rest);
    HoldsZerosBetween(a, head, n, rest);
    assert 2 * (|head| + n) == 16 - 2 * |rest|;
  }

  lemma FilledGroups(head: seq<string>, n: nat, rest: seq<string>)
    requires AreHex(head) && AreHex(rest) && |head| + n + |rest| == 8
    ensures var a := GroupBytes(head + Zeros(n) + rest);
      a.Some? && ReadsAs(a.value, head, rest)
  {
    var groups := head + Zeros(n) + rest;
    FilledHex(head, n, rest);
    GroupBytesHold(groups);
    ReadsParts(GroupBytes(groups).value, head, n, rest);
  }

  lemma ZeroValue()
    ensures Value("0", 16) == 0
  {
    assert "0"[..0] == "" && Value("", 16) == 0;
  }

  // --------------------------------------------------------------- colon forms

  lemma FirstDouble(head: string, rest: string)
    requires forall i: nat :: !DoubleAt(head, i)
    requires head != "" ==> head[|head| - 1] != ':'
    ensures FindDouble(head + "::" + rest, 0) == Some(|head|)
  {
    var s := head + "::" + rest;
    forall i: nat | i < |head| ensures !DoubleAt(s, i) {
      assert !DoubleAt(head, i) && s[i] == head[i];
      if i + 1 < |head| { assert s[i + 1] == head[i + 1]; }
    }
    FindFrom(s, 0, |head|);
  }

  lemma {:induction false} FindFrom(s: string, at: nat, there: nat)
    requires at <= there < |s| && DoubleAt(s, there) && forall i: nat | i < there :: !DoubleAt(s, i)
    ensures FindDouble(s, at) == Some(there)
    decreases there - at
  {
    if at < there {
      FindFrom(s, at + 1, there);
    }
  }

  lemma {:induction false} LastOfJoin(groups: seq<string>)
    requires groups != [] && PlainGroups(groups)
    ensures Join(groups, ':') != "" && Join(groups, ':')[|Join(groups, ':')| - 1] != ':'
  {
    assert groups[0] in groups;
    if |groups| > 1 {
      assert forall g | g in groups[1..] :: g in groups;
      LastOfJoin(groups[1..]);
    }
  }

  lemma NoDoubleInGroups(groups: seq<string>)
    requires PlainGroups(groups)
    ensures forall i: nat :: !DoubleAt(Join(groups, ':'), i)
    ensures Groups(Join(groups, ':')) == groups
    ensures Join(groups, ':') != "" ==> Join(groups, ':')[|Join(groups, ':')| - 1] != ':'
  {
    if groups != [] {
      JoinedGroups(groups);
      LastOfJoin(groups);
      SplitOfJoin(groups, ':');
    }
  }

  lemma SplitFilled(head: seq<string>, rest: seq<string>)
    requires PlainGroups(head) && PlainGroups(rest)
    ensures SplitDouble(Join(head, ':') + "::" + Join(rest, ':')) == [Join(head, ':'), Join(rest, ':')]
    ensures Groups(Join(head, ':')) == head && Groups(Join(rest, ':')) == rest
  {
    var h, r := Join(head, ':'), Join(rest, ':');
    NoDoubleInGroups(head);
    NoDoubleInGroups(rest);
    FirstDouble(h, r);
    NothingDouble(r, 0);
    var s := h + "::" + r;
    assert s[..|h|] == h && s[|h| + 2..] == r;
  }

  lemma NotAmong(text: string, ok: set<char>, c: char)
    requires c !in ok && forall i | 0 <= i < |text| :: text[i] in ok
    ensures c !in text
  {
  }

  lemma NothingRewritten(text: string)
    requires '.' !in text
    ensures RewriteTail(text) == Some(text)
  {
    var tail := text[LastIndexOf(text, ':') + 1..];
    assert forall c | c in tail :: c in text;
  }

  lemma NoSpecialChars(text: string)
    requires forall i | 0 <= i < |text| :: text[i] in TEXT_CHARS - {'.'}
    ensures '.' !in text && '%' !in text
  {
    NotAmong(text, TEXT_CHARS - {'.'}, '.');
    NotAmong(text, TEXT_CHARS - {'.'}, '%');
  }

  lemma TrimmedPlain(text: string)
    requires forall i | 0 <= i < |text| :: text[i] in TEXT_CHARS - {'.'}
    ensures Trim(text) == text
  {
    forall i | 0 <= i < |text| ensures text[i] in TEXT_CHARS {
      assert text[i] in TEXT_CHARS - {'.'};
    }
    TrimmedAlready(text);
  }

  /** Nothing is to be rewritten or cut off. */
  lemma UncutText(text: string)
    requires '.' !in text && '%' !in text
    ensures RewriteTail(text) == Some(text) && Split(text, '%') == [text] && ParseIpv4(text) == None
  {
    NothingRewritten(text);
    SplitStep(text, '%', "");
    NotDotted(text);
  }

  lemma NotDotted(text: string)
    requires '.' !in text
    ensures ParseIpv4(text) == None
  {
    SplitStep(text, '.', "");
  }

  lemma JoinedChars(groups: seq<string>)
    requires PlainGroups(groups)
    ensures forall i | 0 <= i < |Join(groups, ':')| :: Join(groups, ':')[i] in TEXT_CHARS - {'.'}
  {
    CharsOfJoin(groups, ':', TEXT_CHARS - {'.'});
  }

  lemma ToBytesOfPlain(text: string)
    requires forall i | 0 <= i < |text| :: text[i] in TEXT_CHARS - {'.'}
    ensures ToBytes(text) == if IsIpv6(text) then ParseIpv6(text) else None
    ensures ParseIpv6(text) == if Expand(text).None? then None else GroupBytes(Expand(text).value)
    ensures IsIpv6(text) <==>
      ParseIpv6(text).Some?
      && (|SplitDouble(text)| == 2 ==> |Groups(SplitDouble(text)[0])| + |Groups(SplitDouble(text)[1])| < 8)
  {
    TrimmedPlain(text);
    NoSpecialChars(text);
    UncutText(text);
  }

  /** The text with a `::` in it. */
  function Filled(head: seq<string>, rest: seq<string>): string {
    Join(head, ':') + "::" + Join(rest, ':')
  }

  lemma FilledChars(head: seq<string>, rest: seq<string>)
    requires PlainGroups(head) && PlainGroups(rest)
    ensures forall i | 0 <= i < |Filled(head, rest)| :: Filled(head, rest)[i] in TEXT_CHARS - {'.'}
  {
    JoinedChars(head);
    JoinedChars(rest);
  }

  lemma FilledExpands(head: seq<string>, rest: seq<string>)
    requires PlainGroups(head) && PlainGroups(rest) && |head| + |rest| <= 8
    ensures Expand(Filled(head, rest)) == Some(head + Zeros(8 - |head| - |rest|) + rest)
    ensures |SplitDouble(Filled(head, rest))| == 2
    ensures Groups(SplitDouble(Filled(head, rest))[0]) == head && Groups(SplitDouble(Filled(head, rest))[1]) == rest
  {
    SplitFilled(head, rest);
  }

  lemma ExpandedIsRead(text: string, head: seq<string>, n: nat, rest: seq<string>)
    requires forall i | 0 <= i < |text| :: text[i] in TEXT_CHARS - {'.'}
    requires AreHex(head) && AreHex(rest) && |head| + n + |rest| == 8 && Expand(text) == Some(head + Zeros(n) + rest)
    requires |SplitDouble(text)| == 2 ==> |Groups(SplitDouble(text)[0])| + |Groups(SplitDouble(text)[1])| < 8
    ensures ToBytes(text).Some? && ReadsAs(ToBytes(text).value, head, rest)
  {
    ToBytesOfPlain(text);
    FilledGroups(head, n, rest);
  }

  /** A `::` between at most seven groups reads as the head's bytes, zeros, and the rest's bytes. */
  lemma FilledIsRead(head: seq<string>, rest: seq<string>)
    requires AreHex(head) && AreHex(rest) && |head| + |rest| <= 7
    ensures ToBytes(Join(head, ':') + "::" + Join(rest, ':')).Some?
    ensures ReadsAs(ToBytes(Join(head, ':') + "::" + Join(rest, ':')).value, head, rest)
  {
    HexArePlain(head);
    HexArePlain(rest);
    FilledChars(head, rest);
    FilledExpands(head, rest);
    ExpandedIsRead(Filled(head, rest), head, 8 - |head| - |rest|, rest);
  }

  /** Eight groups read as their bytes, however their hex digits are written. */
  lemma WholeIsRead(groups: seq<string>)
    requires AreHex(groups) && |groups| == 8
    ensures ToBytes(Join(groups, ':')).Some? && ReadsAs(ToBytes(Join(groups, ':')).value, groups, [])
  {
    HexArePlain(groups);
    JoinedChars(groups);
    ExpandJoined(groups);
    assert groups + Zeros(0) + [] == groups;
    ExpandedIsRead(Join(groups, ':'), groups, 0, []);
  }

  // ------------------------------------------------------------ and no other text

  /** Eight groups, or a `::` between at most seven. */
  ghost predicate IsWritten(text: string, head: seq<string>, rest: seq<string>) {
    && AreHex(head) && AreHex(rest)
    && ((|head| == 8 && rest == [] && text == Join(head, ':'))
        || (|head| + |rest| <= 7 && text == Join(head, ':') + "::" + Join(rest, ':')))
  }

  lemma JoinOfGroups(half: string)
    ensures Join(Groups(half), ':') == half
  {
    if half != "" {
      JoinOfSplit(half, ':');
    }
  }

  lemma {:induction false} HalvesJoin(s: string)
    ensures |SplitDouble(s)| == 1 ==> SplitDouble(s) == [s]
    ensures |SplitDouble(s)| == 2 ==> s == SplitDouble(s)[0] + "::" + SplitDouble(s)[1]
    decreases |s|
  {
    var at := FindDouble(s, 0);
    if at.Some? {
      HalvesJoin(s[at.value + 2..]);
      assert s == s[..at.value] + "::" + s[at.value + 2..];
    }
  }

  lemma HexOfParts(head: seq<string>, n: nat, rest: seq<string>)
    requires AreHex(head + Zeros(n) + rest)
    ensures AreHex(head) && AreHex(rest)
  {
    var all := head + Zeros(n) + rest;
    assert forall g | g in head :: g in all;
    assert forall g | g in rest :: g in all;
  }

  lemma ReadIsWritten(text: string)
    requires '.' !in text && '%' !in text && Trim(text) == text && ToBytes(text).Some?
    ensures exists head, rest :: IsWritten(text, head, rest)
  {
    UncutText(text);
    HalvesJoin(text);
    var halves := SplitDouble(text);
    GroupBytesHold(Expand(text).value);
    JoinOfGroups(halves[0]);
    if |halves| == 1 {
      assert IsWritten(text, Groups(text), []);
    } else {
      var head, rest := Groups(halves[0]), Groups(halves[1]);
      JoinOfGroups(halves[1]);
      HexOfParts(head, 8 - |head| - |rest|, rest);
      assert IsWritten(text, head, rest);
    }
  }

  lemma WrittenIsRead(text: string, head: seq<string>, rest: seq<string>)
    requires IsWritten(text, head, rest)
    ensures ToBytes(text).Some? && ReadsAs(ToBytes(text).value, head, rest)
  {
    if |head| == 8 {
      WholeIsRead(head);
    } else {
      FilledIsRead(head, rest);
    }
  }

  lemma WordIsUnique(a: nat, b: nat, c: nat, d: nat)
    requires a < 256 && b < 256 && c < 256 && d < 256 && a * 256 + b == c * 256 + d
    ensures a == c && b == d
  {
  }

  lemma HeldBytesAgree(a: Address, b: Address, at: nat, groups: seq<string>)
    requires AreBytes(a) && AreBytes(b) && Holds(a, at, groups) && Holds(b, at, groups)
    ensures forall i | at <= i < at + 2 * |groups| :: a[i] == b[i]
  {
    forall i | at <= i < at + 2 * |groups| ensures a[i] == b[i] {
      var k := (i - at) / 2;
      assert a[at + 2 * k] * 256 + a[at + 2 * k + 1] == Value(groups[k], 16);
      assert b[at + 2 * k] * 256 + b[at + 2 * k + 1] == Value(groups[k], 16);
      WordIsUnique(a[at + 2 * k], a[at + 2 * k + 1], b[at + 2 * k], b[at + 2 * k + 1]);
    }
  }

  lemma ReadOneWay(a: Address, b: Address, head: seq<string>, rest: seq<string>)
    requires ReadsAs(a, head, rest) && ReadsAs(b, head, rest)
    ensures a == b
  {
    HeldBytesAgree(a, b, 0, head);
    HeldBytesAgree(a, b, 16 - 2 * |rest|, rest);
    assert forall i | 0 <= i < 16 :: a[i] == b[i];
  }

  /**
   * A text without dots and without a zone is read as an address exactly when it is written as eight
   * groups, or as at most seven with a `::` among them, and then as those groups say.
   */
  lemma Ipv6Means(text: string, a: Address)
    requires '.' !in text && '%' !in text && Trim(text) == text
    ensures ToBytes(text) == Some(a) <==> exists head, rest :: IsWritten(text, head, rest) && ReadsAs(a, head, rest)
  {
    if ToBytes(text) == Some(a) {
      ReadIsWritten(text);
      var head, rest :| IsWritten(text, head, rest);
      WrittenIsRead(text, head, rest);
      assert ReadsAs(a, head, rest);
    }
    if head, rest :| IsWritten(text, head, rest) && ReadsAs(a, head, rest) {
      WrittenIsRead(text, head, rest);
      ReadOneWay(a, ToBytes(text).value, head, rest);
    }
  }

  // ------------------------------------------------------------- tails and zones

  lemma LastColon(front: string, tail: string)
    requires ':' !in tail
    ensures LastIndexOf(front + ":" + tail, ':') == |front|
  {
    var s := front + ":" + tail;
    var at := LastIndexOf(s, ':');
    assert s[|front|] == ':';
  }

  lemma TailIsRewritten(front: string, v: Address)
    requires |v| == 4 && AreBytes(v)
    ensures RewriteTail(front + ":" + PrintAddress(v)) == Some(front + ":" + HexWord(v[0], v[1]) + ":" + HexWord(v[2], v[3]))
  {
    var tail := PrintAddress(v);
    QuadChars(v);
    LastColon(front, tail);
    var s := front + ":" + tail;
    assert s[|front| + 1..] == tail && s[..|front| + 1] == front + ":";
    Ipv4IsRead(v);
  }

  lemma PrintedOctet(n: nat)
    ensures forall i | 0 <= i < |Print(n, 10)| :: Print(n, 10)[i] in TEXT_CHARS - {':'}
  {
    PrintedChars(n, 10);
  }

  lemma QuadChars(v: Address)
    requires |v| == 4 && AreBytes(v)
    ensures ':' !in PrintAddress(v) && '.' in PrintAddress(v)
    ensures forall i | 0 <= i < |PrintAddress(v)| :: PrintAddress(v)[i] in TEXT_CHARS - {':'}
  {
    DecimalPartsOfFour(v);
    var parts := DecimalParts(v);
    forall i | 0 <= i < 4 ensures forall k | 0 <= k < |parts[i]| :: parts[i][k] in TEXT_CHARS - {':'} {
      PrintedOctet(v[i]);
    }
    CharsOfJoin(parts, '.', TEXT_CHARS - {':'});
    NotAmong(Join(parts, '.'), TEXT_CHARS - {':'}, ':');
    FirstSeparator(parts);
  }

  lemma FirstSeparator(parts: seq<string>)
    requires |parts| > 1
    ensures '.' in Join(parts, '.')
  {
    assert Join(parts, '.')[|parts[0]|] == '.';
  }

  lemma RewrittenChars(front: string, v: Address)
    requires |v| == 4 && AreBytes(v) && forall i | 0 <= i < |front| :: front[i] in TEXT_CHARS - {'.'}
    ensures var s := front + ":" + HexWord(v[0], v[1]) + ":" + HexWord(v[2], v[3]);
      forall i | 0 <= i < |s| :: s[i] in TEXT_CHARS - {'.'}
  {
    PrintedChars(v[0] * 256 + v[1], 16);
    PrintedChars(v[2] * 256 + v[3], 16);
  }

  lemma TailedText(front: string, v: Address)
    requires |v| == 4 && AreBytes(v) && forall i | 0 <= i < |front| :: front[i] in TEXT_CHARS - {'.'}
    ensures var s := front + ":" + PrintAddress(v);
      Trim(s) == s && Split(s, '%') == [s]
  {
    QuadChars(v);
    var s := front + ":" + PrintAddress(v);
    forall i | 0 <= i < |s| ensures s[i] in TEXT_CHARS {
      if i > |front| {
        assert s[i] == PrintAddress(v)[i - |front| - 1];
      }
    }
    TrimmedAlready(s);
    NotAmong(s, TEXT_CHARS, '%');
    SplitStep(s, '%', "");
  }

  lemma {:induction false} ColonStays(text: string)
    ensures forall p | p in Split(text, '.') :: forall i | 0 <= i < |p| :: p[i] in text
    ensures ':' in text ==> exists p :: p in Split(text, '.') && ':' in p
    decreases |text|
  {
    var i := IndexOf(text, '.');
    if i < |text| {
      ColonStays(text[i + 1..]);
      assert text == text[..i] + "." + text[i + 1..];
      if ':' in text[i + 1..] {
        var p :| p in Split(text[i + 1..], '.') && ':' in p;
        assert p in Split(text, '.');
      } else if ':' in text {
        assert ':' in text[..i] && text[..i] in Split(text, '.');
      }
    } else {
      assert text in Split(text, '.');
    }
  }

  lemma ColonIsNoQuad(text: string)
    requires ':' in text
    ensures ParseIpv4(text) == None
  {
    ColonStays(text);
  }

  /** A dotted tail reads as its two groups written in hex. */
  lemma TailIsRead(front: string, v: Address)
    requires |v| == 4 && AreBytes(v) && forall i | 0 <= i < |front| :: front[i] in TEXT_CHARS - {'.'}
    ensures ToBytes(front + ":" + PrintAddress(v)) == ToBytes(front + ":" + HexWord(v[0], v[1]) + ":" + HexWord(v[2], v[3]))
  {
    var s, hex := front + ":" + PrintAddress(v), front + ":" + HexWord(v[0], v[1]) + ":" + HexWord(v[2], v[3]);
    TailedText(front, v);
    TailIsRewritten(front, v);
    assert s[|front|] == ':';
    ColonIsNoQuad(s);
    RewrittenChars(front, v);
    ToBytesOfPlain(hex);
    NoSpecialChars(hex);
    UncutText(hex);
    TrimmedPlain(hex);
  }

  lemma TwoWords(v: Address)
    requires |v| == 4 && AreBytes(v)
    ensures AreHex(["ffff", HexWord(v[0], v[1]), HexWord(v[2], v[3])])
    ensures Value(HexWord(v[0], v[1]), 16) == v[0] * 256 + v[1] && Value(HexWord(v[2], v[3]), 16) == v[2] * 256 + v[3]
  {
    GroupOfWord(v[0], v[1]);
    GroupOfWord(v[2], v[3]);
    HexIsGroup(HexWord(v[0], v[1]));
    HexIsGroup(HexWord(v[2], v[3]));
  }

  lemma AllOnes()
    ensures Value("ffff", 16) == 65535
  {
    assert "ffff"[..3] == "fff" && "fff"[..2] == "ff" && "ff"[..1] == "f" && "f"[..0] == "";
    assert Value("", 16) == 0 && Value("f", 16) == 15 && Value("ff", 16) == 255 && Value("fff", 16) == 4095;
  }

  lemma MappedText(v: Address)
    requires |v| == 4 && AreBytes(v)
    ensures var rest := ["ffff", HexWord(v[0], v[1]), HexWord(v[2], v[3])];
      Join([], ':') + "::" + Join(rest, ':') == "::ffff" + ":" + HexWord(v[0], v[1]) + ":" + HexWord(v[2], v[3])
  {
    var a, b := HexWord(v[0], v[1]), HexWord(v[2], v[3]);
    assert ["ffff", a, b][1..] == [a, b] && [a, b][1..] == [b];
    assert Join([b], ':') == b && Join([a, b], ':') == a + [':'] + b;
  }

  lemma MappedBytes(a: Address, v: Address)
    requires |v| == 4 && AreBytes(v) && ReadsAs(a, [], ["ffff", HexWord(v[0], v[1]), HexWord(v[2], v[3])])
    ensures Unmap(a) == v
  {
    var rest := ["ffff", HexWord(v[0], v[1]), HexWord(v[2], v[3])];
    TwoWords(v);
    AllOnes();
    assert a[10 + 2 * 0] * 256 + a[10 + 2 * 0 + 1] == Value(rest[0], 16);
    assert a[10 + 2 * 1] * 256 + a[10 + 2 * 1 + 1] == Value(rest[1], 16);
    assert a[10 + 2 * 2] * 256 + a[10 + 2 * 2 + 1] == Value(rest[2], 16);
    WordIsUnique(a[10], a[11], 255, 255);
    WordIsUnique(a[12], a[13], v[0], v[1]);
    WordIsUnique(a[14], a[15], v[2], v[3]);
    assert a[12..] == v;
  }

  lemma MappedIsRead(v: Address)
    requires |v| == 4 && AreBytes(v)
    ensures var a := ToBytes("::ffff" + ":" + HexWord(v[0], v[1]) + ":" + HexWord(v[2], v[3]));
      a.Some? && Unmap(a.value) == v
  {
    var rest := ["ffff", HexWord(v[0], v[1]), HexWord(v[2], v[3])];
    MappedText(v);
    TwoWords(v);
    FilledIsRead([], rest);
    MappedBytes(ToBytes(Join([], ':') + "::" + Join(rest, ':')).value, v);
  }

  /** What a dual-stack socket hands out for an IPv4 peer, `::ffff:192.168.0.5`, is that IPv4 address. */
  lemma MappedIsUnmapped(v: Address)
    requires |v| == 4 && AreBytes(v)
    ensures ToBytes("::ffff:" + PrintAddress(v)).Some? && Unmap(ToBytes("::ffff:" + PrintAddress(v)).value) == v
    ensures NormalizeAddress("::ffff:" + PrintAddress(v)) == Some(PrintAddress(v))
  {
    MappedIsRead(v);
    TailIsRead("::ffff", v);
    assert "::ffff" + ":" + PrintAddress(v) == "::ffff:" + PrintAddress(v);
  }

  /** Exactly the addresses behind ten zero bytes and two of ones are IPv4 addresses in disguise. */
  lemma UnmapMeans(a: Address)
    ensures Unmap(a) == if |a| == 16 && a[..12] == [0, 0, 0, 0, 0, 0, 0, 0, 0, 0, 255, 255] then a[12..] else a
  {
    if |a| == 16 {
      assert forall i | 0 <= i < 12 :: a[..12][i] == a[i];
      var front := [0, 0, 0, 0, 0, 0, 0, 0, 0, 0, 255, 255];
      if IsMapped(a) {
        assert a[..12] == front;
      } else {
        assert a[..12] == front ==> forall i | 0 <= i < 12 :: a[i] == front[i];
      }
    }
  }

  /** A zone names an interface, and changes nothing. */
  lemma ZoneIsIgnored(text: string, zone: string)
    requires ':' in text && '%' !in text && Trim(text) == text
    requires zone != "" && '%' !in zone && Trim(text + "%" + zone) == text + "%" + zone
    ensures ToBytes(text + "%" + zone) == ToBytes(text)
  {
    var s := text + "%" + zone;
    SplitStep(text, '%', zone);
    SplitStep(zone, '%', "");
    assert s == text + ['%'] + zone && text[..] == text;
    ColonIsNoQuad(text);
    ColonIsNoQuad(s);
  }
}
