/**
 * Addresses as text and as bytes (idp-agent-gateway/src/ipMatch.js). Node's `net.isIP` is foreign code;
 * it stands here for the text forms of section 2.2 of RFC 4291 and plain dotted decimals.
 */
module IpAddress {
  import opened Wrappers
  import opened Text
  import opened Numerals

  type Address = seq<nat>

  predicate AreBytes(a: Address) {
    forall i | 0 <= i < |a| :: a[i] < 256
  }

  /** What the parsers return: four or sixteen bytes. */
  predicate IsAddress(a: Address) {
    (|a| == 4 || |a| == 16) && AreBytes(a)
  }

  // ------------------------------------------------------------------------ IPv4

  /** A decimal without leading zeros, at most 255. */
  predicate IsOctet(part: string) {
    1 <= |part| <= 3 && AreDigits(part, 10) && (|part| > 1 ==> part[0] != '0') && Value(part, 10) <= 255
  }

  function ParseIpv4(value: string): (a: Option<Address>)
    ensures a.Some? ==> |a.value| == 4 && AreBytes(a.value)
  {
    var parts := Split(value, '.');
    if |parts| == 4 && (forall i | 0 <= i < 4 :: IsOctet(parts[i]))
    then Some([Value(parts[0], 10), Value(parts[1], 10), Value(parts[2], 10), Value(parts[3], 10)])
    else None
  }

  method ReadIpv4(value: string) returns (a: Option<Address>)
    ensures a == ParseIpv4(value)
  {
    var parts := Split(value, '.');
    if |parts| != 4 {
      return None;
    }
    var bytes := [];
    for i := 0 to 4
      invariant |bytes| == i && forall j | 0 <= j < i :: IsOctet(parts[j]) && bytes[j] == Value(parts[j], 10)
    {
      if !IsOctet(parts[i]) {
        return None;
      }
      bytes := bytes + [Value(parts[i], 10)];
    }
    assert bytes == [bytes[0], bytes[1], bytes[2], bytes[3]];
    a := Some(bytes);
  }

  // ------------------------------------------------------------------------ IPv6

  function HexWord(a: nat, b: nat): string {
    Print(a * 256 + b, 16)
  }

  /** A dotted tail becomes two hex groups. */
  function RewriteTail(text: string): Option<string> {
    var lastColon := LastIndexOf(text, ':');
    var tail := text[lastColon + 1..];
    if '.' !in tail then Some(text)
    else
      var v4 := ParseIpv4(tail);
      if v4.None? then None
      else Some(text[..lastColon + 1] + HexWord(v4.value[0], v4.value[1]) + ":" + HexWord(v4.value[2], v4.value[3]))
  }

  predicate DoubleAt(s: string, i: nat) {
    i + 1 < |s| && s[i] == ':' && s[i + 1] == ':'
  }

  /** Where the first `::` is. */
  function FindDouble(s: string, at: nat): (r: Option<nat>)
    requires at <= |s|
    ensures r.Some? ==> DoubleAt(s, r.value)
    decreases |s| - at
  {
    if at == |s| then None
    else if DoubleAt(s, at) then Some(at)
    else FindDouble(s, at + 1)
  }

  /** `split('::')` */
  function SplitDouble(s: string): (halves: seq<string>)
    ensures halves != []
    decreases |s|
  {
    var at := FindDouble(s, 0);
    if at.None? then [s] else [s[..at.value]] + SplitDouble(s[at.value + 2..])
  }

  function Groups(half: string): seq<string> {
    if half == "" then [] else Split(half, ':')
  }

  function Zeros(n: nat): seq<string> {
    seq(n, _ => "0")
  }

  /** The eight groups, a `::` filled with zeros. */
  function Expand(text: string): (groups: Option<seq<string>>)
    ensures groups.Some? ==> |groups.value| == 8
  {
    var halves := SplitDouble(text);
    if |halves| > 2 then None
    else
      var head := Groups(halves[0]);
      if |halves| == 1 then (if |head| == 8 then Some(head) else None)
      else
        var rest := Groups(halves[1]);
        if |head| + |rest| > 8 then None
        else Some(head + Zeros(8 - |head| - |rest|) + rest)
  }

  predicate IsGroup(group: string) {
    1 <= |group| <= 4 && AreDigits(group, 16)
  }

  function GroupBytes(groups: seq<string>): (a: Option<Address>)
    ensures a.Some? ==> |a.value| == 2 * |groups| && AreBytes(a.value)
  {
    if groups == [] then Some([])
    else if !IsGroup(groups[0]) then None
    else
      var rest := GroupBytes(groups[1..]);
      var n := Value(groups[0], 16);
      if rest.None? then None else Some([n / 256 % 256, n % 256] + rest.value)
  }

  method ReadGroups(groups: seq<string>) returns (a: Option<Address>)
    ensures a == GroupBytes(groups)
  {
    var bytes := [];
    assert groups[0..] == groups && forall rest: Address :: bytes + rest == rest;
    for i := 0 to |groups|
      invariant GroupBytes(groups) == if GroupBytes(groups[i..]).None? then None else Some(bytes + GroupBytes(groups[i..]).value)
    {
      assert groups[i..][1..] == groups[i + 1..] && groups[i..][0] == groups[i];
      if !IsGroup(groups[i]) {
        return None;
      }
      var n := Value(groups[i], 16);
      ghost var rest := GroupBytes(groups[i + 1..]);
      assert rest.Some? ==> bytes + ([n / 256 % 256, n % 256] + rest.value) == bytes + [n / 256 % 256, n % 256] + rest.value;
      bytes := bytes + [n / 256 % 256, n % 256];
    }
    assert groups[|groups|..] == [] && bytes + [] == bytes;
    a := Some(bytes);
  }

  function ParseIpv6(value: string): (a: Option<Address>)
    ensures a.Some? ==> |a.value| == 16 && AreBytes(a.value)
  {
    var text := RewriteTail(Split(value, '%')[0]);
    if text.None? then None
    else
      var groups := Expand(text.value);
      if groups.None? then None else GroupBytes(groups.value)
  }

  /** A `::` stands for at least one group, and a zone index is not empty. */
  predicate IsIpv6(value: string) {
    var parts := Split(value, '%');
    var text := RewriteTail(parts[0]);
    && ParseIpv6(value).Some?
    && (|parts| == 1 || (|parts| == 2 && parts[1] != ""))
    && (|SplitDouble(text.value)| == 2 ==> |Groups(SplitDouble(text.value)[0])| + |Groups(SplitDouble(text.value)[1])| < 8)
  }

  function ToBytes(address: string): (a: Option<Address>)
    ensures a.Some? ==> IsAddress(a.value)
  {
    var value := Trim(address);
    if ParseIpv4(value).Some? then ParseIpv4(value)
    else if IsIpv6(value) then ParseIpv6(value)
    else None
  }

  // ------------------------------------------------------------------- one form

  predicate IsMapped(a: Address) {
    |a| == 16 && (forall i | 0 <= i < 10 :: a[i] == 0) && a[10] == 255 && a[11] == 255
  }

  /** An IPv4-mapped address (section 2.5.5.2 of RFC 4291) as its four bytes. */
  function Unmap(a: Address): Address {
    if IsMapped(a) then a[12..] else a
  }

  /** An address as it is stored: never in the mapped form. */
  predicate IsFlat(a: Address) {
    IsAddress(a) && !IsMapped(a)
  }

  lemma UnmapIsFlat(a: Address)
    requires IsAddress(a)
    ensures IsFlat(Unmap(a)) && Unmap(Unmap(a)) == Unmap(a)
  {
  }

  function DecimalParts(a: Address): seq<string> {
    if a == [] then [] else [Print(a[0], 10)] + DecimalParts(a[1..])
  }

  function HexGroups(a: Address): seq<string> {
    if |a| < 2 then [] else [HexWord(a[0], a[1])] + HexGroups(a[2..])
  }

  /** The canonical text of a flat address. */
  function PrintAddress(a: Address): string {
    if |a| == 4 then Join(DecimalParts(a), '.') else Join(HexGroups(a), ':')
  }

  function NormalizeAddress(address: string): Option<string> {
    var a := ToBytes(address);
    if a.None? then None else Some(PrintAddress(Unmap(a.value)))
  }

  // ------------------------------------------------------------ printed and read

  lemma {:induction false} CharsOfJoin(parts: seq<string>, sep: char, ok: set<char>)
    requires forall p | p in parts :: forall i | 0 <= i < |p| :: p[i] in ok
    requires sep in ok
    ensures forall i | 0 <= i < |Join(parts, sep)| :: Join(parts, sep)[i] in ok
  {
    if |parts| > 1 {
      assert parts[0] in parts && forall p | p in parts[1..] :: p in parts;
      CharsOfJoin(parts[1..], sep, ok);
    } else if |parts| == 1 {
      assert parts[0] in parts;
    }
  }

  const TEXT_CHARS: set<char> := {'0', '1', '2', '3', '4', '5', '6', '7', '8', '9', 'a', 'b', 'c', 'd', 'e', 'f', 'A', 'B', 'C', 'D', 'E', 'F', '.', ':'}

  lemma PrintedChars(n: nat, base: nat)
    requires 2 <= base <= 16
    ensures forall i | 0 <= i < |Print(n, base)| :: Print(n, base)[i] in TEXT_CHARS - {'.', ':'}
  {
    ValueOfPrint(n, base);
    forall i | 0 <= i < |Print(n, base)| ensures Print(n, base)[i] in TEXT_CHARS - {'.', ':'} {
      DigitIsPlain(Print(n, base)[i]);
    }
  }

  lemma DigitIsPlain(c: char)
    requires DigitValue(c) < 16
    ensures c in TEXT_CHARS - {'.', ':'}
  {
  }

  lemma TrimmedAlready(s: string)
    requires forall i | 0 <= i < |s| :: s[i] in TEXT_CHARS
    ensures Trim(s) == s
  {
  }

  lemma OctetOfByte(b: nat)
    requires b < 256
    ensures IsOctet(Print(b, 10)) && Value(Print(b, 10), 10) == b
  {
    ValueOfPrint(b, 10);
    assert Power(10, 3) == 1000 by { assert Power(10, 1) == 10 && Power(10, 2) == 100; }
    PrintIsShort(b, 10, 3);
    NoLeadingZero(b, 10);
  }

  lemma DecimalPartsOfFour(a: Address)
    requires |a| == 4 && AreBytes(a)
    ensures DecimalParts(a) == [Print(a[0], 10), Print(a[1], 10), Print(a[2], 10), Print(a[3], 10)]
  {
    assert a[1..][1..] == a[2..] && a[2..][1..] == a[3..] && a[3..][1..] == [];
    assert DecimalParts(a[3..]) == [Print(a[3], 10)];
    assert DecimalParts(a[2..]) == [Print(a[2], 10), Print(a[3], 10)];
  }

  lemma PlainParts(a: Address, parts: seq<string>)
    requires |a| == |parts| == 4 && AreBytes(a) && forall i | 0 <= i < 4 :: parts[i] == Print(a[i], 10)
    ensures forall p | p in parts :: '.' !in p && forall i | 0 <= i < |p| :: p[i] in TEXT_CHARS
    ensures forall i | 0 <= i < 4 :: IsOctet(parts[i]) && Value(parts[i], 10) == a[i]
  {
    forall i | 0 <= i < 4
      ensures IsOctet(parts[i]) && Value(parts[i], 10) == a[i]
      ensures '.' !in parts[i] && forall k | 0 <= k < |parts[i]| :: parts[i][k] in TEXT_CHARS
    {
      OctetOfByte(a[i]);
      PrintedChars(a[i], 10);
    }
  }

  lemma FourOctets(value: string, parts: seq<string>, a: Address)
    requires Split(value, '.') == parts && |a| == |parts| == 4
    requires forall i | 0 <= i < 4 :: IsOctet(parts[i]) && Value(parts[i], 10) == a[i]
    ensures ParseIpv4(value) == Some(a)
  {
    assert a == [Value(parts[0], 10), Value(parts[1], 10), Value(parts[2], 10), Value(parts[3], 10)];
  }

  lemma JoinedIsTrimmed(parts: seq<string>)
    requires forall p | p in parts :: forall i | 0 <= i < |p| :: p[i] in TEXT_CHARS
    ensures Trim(Join(parts, '.')) == Join(parts, '.')
  {
    CharsOfJoin(parts, '.', TEXT_CHARS);
    TrimmedAlready(Join(parts, '.'));
  }

  lemma Ipv4Parts(a: Address, parts: seq<string>)
    requires |a| == |parts| == 4 && AreBytes(a) && forall i | 0 <= i < 4 :: parts[i] == Print(a[i], 10)
    ensures ParseIpv4(Join(parts, '.')) == Some(a) && Trim(Join(parts, '.')) == Join(parts, '.')
  {
    PlainParts(a, parts);
    SplitOfJoin(parts, '.');
    FourOctets(Join(parts, '.'), parts, a);
    JoinedIsTrimmed(parts);
  }

  lemma Ipv4IsRead(a: Address)
    requires |a| == 4 && AreBytes(a)
    ensures ParseIpv4(PrintAddress(a)) == Some(a) && ToBytes(PrintAddress(a)) == Some(a)
  {
    DecimalPartsOfFour(a);
    Ipv4Parts(a, DecimalParts(a));
  }

  lemma WordOfBytes(a: nat, b: nat)
    requires a < 256 && b < 256
    ensures (a * 256 + b) / 256 % 256 == a && (a * 256 + b) % 256 == b && a * 256 + b < 65536
  {
  }

  lemma GroupOfWord(a: nat, b: nat)
    requires a < 256 && b < 256
    ensures IsGroup(HexWord(a, b)) && Value(HexWord(a, b), 16) == a * 256 + b
  {
    WordOfBytes(a, b);
    WordIsGroup(a * 256 + b);
  }

  lemma WordIsGroup(n: nat)
    requires n < 65536
    ensures IsGroup(Print(n, 16)) && Value(Print(n, 16), 16) == n
  {
    ValueOfPrint(n, 16);
    assert Power(16, 4) == 65536 by { assert Power(16, 1) == 16 && Power(16, 2) == 256 && Power(16, 3) == 4096; }
    PrintIsShort(n, 16, 4);
  }

  lemma FirstGroupIsRead(groups: seq<string>, a: nat, b: nat, rest: Address)
    requires groups != [] && a < 256 && b < 256 && IsGroup(groups[0]) && Value(groups[0], 16) == a * 256 + b
    requires GroupBytes(groups[1..]) == Some(rest)
    ensures GroupBytes(groups) == Some([a, b] + rest)
  {
    WordOfBytes(a, b);
  }

  lemma {:induction false} GroupsAreRead(a: Address)
    requires |a| % 2 == 0 && AreBytes(a)
    ensures GroupBytes(HexGroups(a)) == Some(a) && 2 * |HexGroups(a)| == |a|
    decreases |a|
  {
    if |a| >= 2 {
      GroupsAreRead(a[2..]);
      GroupOfWord(a[0], a[1]);
      assert HexGroups(a)[1..] == HexGroups(a[2..]);
      FirstGroupIsRead(HexGroups(a), a[0], a[1], a[2..]);
      assert a == [a[0], a[1]] + a[2..];
    }
  }

  ghost predicate PlainGroups(groups: seq<string>) {
    forall g | g in groups :: g != "" && forall i | 0 <= i < |g| :: g[i] in TEXT_CHARS - {'.', ':'}
  }

  lemma {:induction false} HexGroupsArePlain(a: Address)
    requires AreBytes(a)
    ensures PlainGroups(HexGroups(a))
    decreases |a|
  {
    if |a| >= 2 {
      PrintedChars(a[0] * 256 + a[1], 16);
      HexGroupsArePlain(a[2..]);
    }
  }

  lemma NoDoubleAcross(head: string, rest: string)
    requires head != "" && ':' !in head && rest != "" && rest[0] != ':'
    requires forall i: nat :: !DoubleAt(rest, i)
    ensures forall i: nat :: !DoubleAt(head + ":" + rest, i)
  {
    var s := head + ":" + rest;
    forall i: nat ensures !DoubleAt(s, i) {
      if i < |head| {
        assert s[i] == head[i];
      } else if i == |head| {
        assert s[i + 1] == rest[0];
      } else {
        assert !DoubleAt(rest, i - |head| - 1);
        if i + 1 < |s| {
          assert s[i] == rest[i - |head| - 1] && s[i + 1] == rest[i - |head|];
        }
      }
    }
  }

  lemma {:induction false} JoinedGroups(groups: seq<string>)
    requires groups != [] && PlainGroups(groups)
    ensures Join(groups, ':') != "" && Join(groups, ':')[0] != ':'
    ensures forall i: nat :: !DoubleAt(Join(groups, ':'), i)
  {
    assert groups[0] in groups;
    if |groups| > 1 {
      assert forall g | g in groups[1..] :: g in groups;
      JoinedGroups(groups[1..]);
      NoDoubleAcross(groups[0], Join(groups[1..], ':'));
    } else {
      forall i: nat ensures !DoubleAt(groups[0], i) {
        assert i < |groups[0]| ==> groups[0][i] in TEXT_CHARS - {'.', ':'};
      }
    }
  }

  lemma {:induction false} NothingDouble(s: string, at: nat)
    requires at <= |s| && forall i: nat :: !DoubleAt(s, i)
    ensures FindDouble(s, at) == None
    decreases |s| - at
  {
    if at < |s| {
      NothingDouble(s, at + 1);
    }
  }

  lemma ExpandJoined(groups: seq<string>)
    requires |groups| == 8 && PlainGroups(groups)
    ensures Expand(Join(groups, ':')) == Some(groups) && SplitDouble(Join(groups, ':')) == [Join(groups, ':')]
  {
    JoinedGroups(groups);
    NothingDouble(Join(groups, ':'), 0);
    SplitOfJoin(groups, ':');
  }

  lemma NothingToRewrite(groups: seq<string>)
    requires |groups| == 8 && PlainGroups(groups)
    ensures RewriteTail(Join(groups, ':')) == Some(Join(groups, ':'))
    ensures Split(Join(groups, ':'), '%') == [Join(groups, ':')]
    ensures Trim(Join(groups, ':')) == Join(groups, ':')
  {
    var text := Join(groups, ':');
    CharsOfJoin(groups, ':', TEXT_CHARS - {'.'});
    assert '.' !in text && '%' !in text;
    SplitStep(text, '%', "");
    TrimmedAlready(text);
  }

  lemma NotIpv4(groups: seq<string>)
    requires |groups| == 8 && PlainGroups(groups)
    ensures ParseIpv4(Join(groups, ':')) == None
  {
    CharsOfJoin(groups, ':', TEXT_CHARS - {'.'});
    SplitStep(Join(groups, ':'), '.', "");
  }

  lemma Ipv6IsRead(a: Address)
    requires |a| == 16 && AreBytes(a)
    ensures ParseIpv6(PrintAddress(a)) == Some(a) && ToBytes(PrintAddress(a)) == Some(a)
  {
    var groups := HexGroups(a);
    GroupsAreRead(a);
    HexGroupsArePlain(a);
    ExpandJoined(groups);
    NothingToRewrite(groups);
    NotIpv4(groups);
  }

  /** Printing and reading an address gives its bytes. */
  lemma PrintedIsRead(a: Address)
    requires IsAddress(a)
    ensures ToBytes(PrintAddress(a)) == Some(a)
  {
    if |a| == 4 {
      Ipv4IsRead(a);
    } else {
      Ipv6IsRead(a);
    }
  }

  /**
   * The canonical text of any readable address reads as its unmapped bytes, and is its own canonical
   * text; two addresses have the same one exactly when they are the same unmapped bytes.
   */
  lemma CanonicalText(x: string, y: string)
    requires ToBytes(x).Some? && ToBytes(y).Some?
    ensures ToBytes(NormalizeAddress(x).value) == Some(Unmap(ToBytes(x).value))
    ensures NormalizeAddress(NormalizeAddress(x).value) == NormalizeAddress(x)
    ensures NormalizeAddress(x) == NormalizeAddress(y) <==> Unmap(ToBytes(x).value) == Unmap(ToBytes(y).value)
  {
    UnmapIsFlat(ToBytes(x).value);
    UnmapIsFlat(ToBytes(y).value);
    PrintedIsRead(Unmap(ToBytes(x).value));
    PrintedIsRead(Unmap(ToBytes(y).value));
  }
}
