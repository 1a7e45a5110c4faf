/** CIDR rules (idp-agent-gateway/src/ipMatch.js): matching by bytes and a mask is matching by number (section 3.1 of RFC 4632). */
module IpMatch {
  import opened Wrappers
  import opened Text
  import opened Numerals
  import opened IpAddress

  datatype Rule = Rule(bytes: Address, prefix: nat, text: string)

  /** `/^\d{1,3}$/` */
  predicate IsPrefixText(s: string) {
    1 <= |s| <= 3 && AreDigits(s, 10)
  }

  function RuleText(a: Address, prefix: nat): string {
    if prefix == 8 * |a| then PrintAddress(a) else PrintAddress(a) + "/" + Print(prefix, 10)
  }

  function RuleOf(flat: Address, prefixPart: Option<string>): Option<Rule> {
    if prefixPart.None? then Some(Rule(flat, 8 * |flat|, RuleText(flat, 8 * |flat|)))
    else if !IsPrefixText(prefixPart.value) then None
    else
      var prefix := Value(prefixPart.value, 10);
      if prefix > 8 * |flat| then None else Some(Rule(flat, prefix, RuleText(flat, prefix)))
  }

  function ParseRule(entry: string): Option<Rule> {
    var value := Trim(entry);
    if value == "" then None
    else
      var slash := IndexOf(value, '/');
      var bytes := ToBytes(value[..slash]);
      if bytes.None? then None
      else RuleOf(Unmap(bytes.value), if slash == |value| then None else Some(value[slash + 1..]))
  }

  function NormalizeRule(entry: string): Option<string> {
    var rule := ParseRule(entry);
    if rule.None? then None else Some(rule.value.text)
  }

  predicate IsRule(rule: Rule) {
    IsFlat(rule.bytes) && rule.prefix <= 8 * |rule.bytes| && rule.text == RuleText(rule.bytes, rule.prefix)
  }

  // ---------------------------------------------------------------- bits of bytes

  /** JavaScript's `&`, for numbers that are not negative. */
  function And(x: nat, y: nat): nat {
    if x == 0 || y == 0 then 0 else (x % 2) * (y % 2) + 2 * And(x / 2, y / 2)
  }

  /** `(0xff << (8 - bits)) & 0xff` */
  function Mask(bits: nat): nat
    requires bits <= 8
  {
    And(255 * Power(2, 8 - bits), 255)
  }

  lemma AndOdd(x: nat, m: nat)
    ensures And(x, 2 * m + 1) == x % 2 + 2 * And(x / 2, m)
  {
    assert (2 * m + 1) % 2 == 1 && (2 * m + 1) / 2 == m;
  }

  lemma {:induction false} AndOnes(x: nat, k: nat)
    ensures And(x, Power(2, k) - 1) == x % Power(2, k)
    decreases k
  {
    if k > 0 {
      var p := Power(2, k - 1);
      assert Power(2, k) - 1 == 2 * (p - 1) + 1;
      AndOdd(x, p - 1);
      AndOnes(x / 2, k - 1);
      RestOfDouble(x, p);
    }
  }

  lemma RestOfDouble(x: nat, p: nat)
    requires p >= 1
    ensures x % (2 * p) == x % 2 + 2 * (x / 2 % p)
  {
    var q := x / 2 / p;
    assert x / 2 == p * q + x / 2 % p;
    assert x == 2 * (x / 2) + x % 2;
    UniqueRest(x, 2 * p, q, x % 2 + 2 * (x / 2 % p));
  }

  lemma UniqueRest(n: nat, m: nat, q: nat, r: nat)
    requires r < m && n == m * q + r
    ensures n / m == q && n % m == r
  {
    var d := n / m - q;
    assert n == m * (n / m) + n % m;
    assert m * d == r - n % m;
    SignedMul(m, d);
  }

  lemma SignedMul(m: int, d: int)
    requires m >= 0
    ensures d >= 1 ==> m * d >= m
    ensures d <= -1 ==> m * d <= -m
  {
    if d >= 1 {
      MulGrows(m, 1, d);
    } else if d <= -1 {
      var e: nat := -d;
      MulGrows(m, 1, e);
      assert m * d == -(m * e);
    }
  }

  function ShiftLeft(y: nat, k: nat): nat {
    if k == 0 then y else 2 * ShiftLeft(y, k - 1)
  }

  function ShiftRight(x: nat, k: nat): nat {
    if k == 0 then x else ShiftRight(x / 2, k - 1)
  }

  lemma {:induction false} ShiftsArePowers(x: nat, k: nat)
    ensures ShiftLeft(x, k) == Power(2, k) * x && ShiftRight(x, k) == x / Power(2, k)
    decreases k
  {
    if k > 0 {
      ShiftsArePowers(x, k - 1);
      ShiftsArePowers(x / 2, k - 1);
      MulAssociates(2, Power(2, k - 1), x);
      DivideTwice(x, 2, Power(2, k - 1));
    }
  }

  lemma MulAssociates(a: int, b: int, c: int)
    ensures a * b * c == a * (b * c)
  {
  }

  lemma {:induction false} AndShifted(x: nat, k: nat, y: nat)
    ensures And(x, ShiftLeft(y, k)) == ShiftLeft(And(ShiftRight(x, k), y), k)
    decreases k
  {
    if k > 0 {
      AndDouble(x, ShiftLeft(y, k - 1));
      AndShifted(x / 2, k - 1, y);
    }
  }

  lemma AndDouble(x: nat, y: nat)
    ensures And(x, 2 * y) == 2 * And(x / 2, y)
  {
    if x != 0 && y != 0 {
      assert (2 * y) % 2 == 0 && (2 * y) / 2 == y;
    }
  }

  lemma Recompose(n: nat, a: nat, m: nat, x: nat, b: nat, q: nat, y: nat)
    requires n == a * m + x && x < a && m == b * q + y && y < b
    ensures n == a * b * q + (x + a * y) && x + a * y < a * b
  {
    assert a * m == a * (b * q) + a * y;
    MulAssociates(a, b, q);
    MulGrows(a, y, b - 1);
    assert a * (b - 1) == a * b - a;
  }

  lemma DivideTwice(n: nat, a: nat, b: nat)
    requires a >= 1 && b >= 1
    ensures a * b >= 1 && n / a / b == n / (a * b)
  {
    var m, x := n / a, n % a;
    var q, y := m / b, m % b;
    MulGrows(a, 1, b);
    Recompose(n, a, m, x, b, q, y);
    UniqueRest(n, a * b, q, x + a * y);
  }

  lemma MaskValue(k: nat)
    requires k <= 8
    ensures 255 * Power(2, k) % 256 == ShiftLeft(Power(2, 8 - k) - 1, k)
  {
    PowersOfTwo();
    ShiftsArePowers(Power(2, 8 - k) - 1, k);
  }

  lemma MaskIs(bits: nat)
    requires bits <= 8
    ensures Mask(bits) == ShiftLeft(Power(2, bits) - 1, 8 - bits)
  {
    LowByte(255 * Power(2, 8 - bits));
    MaskValue(8 - bits);
  }

  lemma LowByte(z: nat)
    ensures And(z, 255) == z % 256
  {
    assert Power(2, 8) == 256 by { PowersOfTwo(); }
    AndOnes(z, 8);
  }

  lemma PowersOfTwo()
    ensures Power(2, 0) == 1 && Power(2, 1) == 2 && Power(2, 2) == 4 && Power(2, 3) == 8 && Power(2, 4) == 16
    ensures Power(2, 5) == 32 && Power(2, 6) == 64 && Power(2, 7) == 128 && Power(2, 8) == 256
  {
    assert Power(2, 2) == 4 && Power(2, 4) == 16 && Power(2, 6) == 64;
  }

  /** Two bytes agree under the mask exactly when their top bits do. */
  lemma MaskedBytes(x: nat, y: nat, bits: nat, mask: nat)
    requires x < 256 && y < 256 && bits <= 8 && mask == ShiftLeft(Power(2, bits) - 1, 8 - bits)
    ensures And(x, mask) == And(y, mask) <==> ShiftRight(x, 8 - bits) == ShiftRight(y, 8 - bits)
  {
    MaskedByte(x, bits, mask);
    MaskedByte(y, bits, mask);
    SameTop(x, y, mask, 8 - bits, ShiftRight(x, 8 - bits), ShiftRight(y, 8 - bits));
  }

  lemma SameTop(x: nat, y: nat, mask: nat, k: nat, a: nat, b: nat)
    requires And(x, mask) == ShiftLeft(a, k) && And(y, mask) == ShiftLeft(b, k)
    ensures And(x, mask) == And(y, mask) <==> a == b
  {
    ShiftIsInjective(a, b, k);
  }

  lemma {:induction false} ShiftIsInjective(a: nat, b: nat, k: nat)
    ensures ShiftLeft(a, k) == ShiftLeft(b, k) <==> a == b
    decreases k
  {
    if k > 0 {
      ShiftIsInjective(a, b, k - 1);
    }
  }

  lemma TopBits(x: nat, bits: nat)
    requires x < 256 && bits <= 8
    ensures x / Power(2, 8 - bits) < Power(2, bits)
  {
    assert Power(2, 8 - bits) * Power(2, bits) == 256 by { PowersOfTwo(); }
    DivisionBelow(x, Power(2, 8 - bits), Power(2, bits));
  }

  lemma MaskedByte(x: nat, bits: nat, mask: nat)
    requires x < 256 && bits <= 8 && mask == ShiftLeft(Power(2, bits) - 1, 8 - bits)
    ensures And(x, mask) == ShiftLeft(ShiftRight(x, 8 - bits), 8 - bits)
  {
    AndShifted(x, 8 - bits, Power(2, bits) - 1);
    KeepsTop(ShiftRight(x, 8 - bits), bits) by {
      ShiftsArePowers(x, 8 - bits);
      TopBits(x, bits);
    }
  }

  lemma KeepsTop(top: nat, bits: nat)
    requires top < Power(2, bits)
    ensures And(top, Power(2, bits) - 1) == top
  {
    AndOnes(top, bits);
    assert Power(2, bits) * 0 + top == top;
    UniqueRest(top, Power(2, bits), 0, top);
  }

  // ----------------------------------------------------------- addresses as numbers

  /** An address as a 32- or 128-bit number. */
  function Number(a: Address): nat {
    if a == [] then 0 else Number(a[..|a| - 1]) * 256 + a[|a| - 1]
  }

  lemma NextByteBelow(h: nat, p: nat, x: nat)
    requires h < p && x < 256
    ensures h * 256 + x < 256 * p
  {
  }

  lemma {:induction false} NumberBelow(a: Address)
    requires AreBytes(a)
    ensures Number(a) < Power(2, 8 * |a|)
    decreases |a|
  {
    if a != [] {
      var front := a[..|a| - 1];
      NumberBelow(front);
      PowerSum(8, 8 * |front|);
      assert Power(2, 8) == 256 by { PowersOfTwo(); }
      NextByteBelow(Number(front), Power(2, 8 * |front|), a[|a| - 1]);
    }
  }

  lemma {:induction false} PowerSum(j: nat, k: nat)
    ensures Power(2, j + k) == Power(2, j) * Power(2, k)
    decreases j
  {
    if j > 0 {
      PowerSum(j - 1, k);
      assert 2 * (Power(2, j - 1) * Power(2, k)) == 2 * Power(2, j - 1) * Power(2, k);
    }
  }

  lemma {:induction false} NumberOfParts(a: Address, b: Address)
    requires AreBytes(a + b)
    ensures Number(a + b) == Number(a) * Power(2, 8 * |b|) + Number(b)
    decreases |b|
  {
    if b == [] {
      assert a + b == a;
    } else {
      var front := b[..|b| - 1];
      assert (a + b)[..|a + b| - 1] == a + front && (a + b)[|a + b| - 1] == b[|b| - 1];
      NumberOfParts(a, front);
      PowerSum(8 * |front|, 8);
      PowersOfTwo();
      assert 8 * |b| == 8 * |front| + 8;
      assert Number(a) * Power(2, 8 * |front|) * 256 == Number(a) * (Power(2, 8 * |front|) * 256);
    }
  }

  lemma BytesOfParts(a: Address, b: Address)
    requires AreBytes(a + b)
    ensures AreBytes(a) && AreBytes(b)
  {
    assert forall i | 0 <= i < |a| :: a[i] == (a + b)[i];
    assert forall i | 0 <= i < |b| :: b[i] == (a + b)[|a| + i];
  }

  /** What is left of the number when the last bytes go. */
  lemma DropBytes(a: Address, b: Address)
    requires AreBytes(a + b)
    ensures Number(a + b) / Power(2, 8 * |b|) == Number(a)
  {
    BytesOfParts(a, b);
    NumberOfParts(a, b);
    NumberBelow(b);
    QuotientIs(Number(a + b), Number(a), Power(2, 8 * |b|), Number(b));
  }

  lemma QuotientIs(n: nat, q: nat, p: nat, r: nat)
    requires r < p && n == q * p + r
    ensures n / p == q
  {
    assert q * p == p * q;
    UniqueRest(n, p, q, r);
  }

  lemma {:induction false} SameNumber(a: Address, b: Address)
    requires AreBytes(a) && AreBytes(b) && |a| == |b|
    ensures Number(a) == Number(b) <==> a == b
    decreases |a|
  {
    if a != [] {
      var a', b' := a[..|a| - 1], b[..|b| - 1];
      SameNumber(a', b');
      assert a == a' + [a[|a| - 1]] && b == b' + [b[|b| - 1]];
      if Number(a) == Number(b) {
        UniqueRest(Number(a), 256, Number(a'), a[|a| - 1]);
        UniqueRest(Number(b), 256, Number(b'), b[|b| - 1]);
      }
    }
  }

  /** The first `prefix` bits of an address, as a number. */
  function NetworkNumber(a: Address, prefix: nat): nat
    requires prefix <= 8 * |a|
  {
    Number(a) / Power(2, 8 * |a| - prefix)
  }

  lemma DropMoreBits(a: Address, b: Address, k: nat)
    requires AreBytes(a + b)
    ensures Number(a + b) / Power(2, 8 * |b| + k) == Number(a) / Power(2, k)
  {
    DropBytes(a, b);
    PowerSum(8 * |b|, k);
    DivideTwice(Number(a + b), Power(2, 8 * |b|), Power(2, k));
  }

  lemma NumberOfOneMore(head: Address, x: nat)
    ensures Number(head + [x]) == Number(head) * 256 + x
  {
    assert (head + [x])[..|head|] == head;
  }

  lemma TopOfByte(h: nat, x: nat, bits: nat)
    requires x < 256 && bits <= 8
    ensures (h * 256 + x) / Power(2, 8 - bits) == h * Power(2, bits) + x / Power(2, 8 - bits)
  {
    assert Power(2, 8 - bits) * Power(2, bits) == 256 by { PowersOfTwo(); }
    SplitQuotient(h, Power(2, bits), Power(2, 8 - bits), x);
  }

  /** Whole bytes, and the top of the next one. */
  lemma NetworkOfParts(head: Address, x: nat, rest: Address, bits: nat)
    requires AreBytes(head + [x] + rest) && bits <= 8
    ensures NetworkNumber(head + [x] + rest, 8 * |head| + bits) == Number(head) * Power(2, bits) + x / Power(2, 8 - bits)
    ensures x < 256 && x / Power(2, 8 - bits) < Power(2, bits)
  {
    var a := head + [x] + rest;
    assert a[|head|] == x;
    DropMoreBits(head + [x], rest, 8 - bits);
    assert 8 * |a| - (8 * |head| + bits) == 8 * |rest| + (8 - bits);
    NumberOfOneMore(head, x);
    TopOfByte(Number(head), x, bits);
    TopBits(x, bits);
  }

  lemma SplitQuotient(h: nat, q: nat, p: nat, x: nat)
    requires p >= 1 && p * q == 256
    ensures (h * 256 + x) / p == h * q + x / p
  {
    assert h * 256 == p * (h * q) by { assert h * (p * q) == p * (h * q); }
    assert x == p * (x / p) + x % p;
    assert p * (h * q) + p * (x / p) == p * (h * q + x / p);
    UniqueRest(h * 256 + x, p, h * q + x / p, x % p);
  }

  // -------------------------------------------------------------------- matching

  /** What `ruleMatches` compares: whole bytes, then the masked next byte. */
  predicate SameNetworkBytes(a: Address, b: Address, prefix: nat)
    requires |a| == |b| && prefix <= 8 * |a|
  {
    var whole, bits := prefix / 8, prefix % 8;
    a[..whole] == b[..whole] && (bits == 0 || And(a[whole], Mask(bits)) == And(b[whole], Mask(bits)))
  }

  lemma WholeBytes(a: Address, prefix: nat)
    requires AreBytes(a) && prefix <= 8 * |a| && prefix % 8 == 0
    ensures NetworkNumber(a, prefix) == Number(a[..prefix / 8])
  {
    var whole := prefix / 8;
    assert a == a[..whole] + a[whole..];
    DropBytes(a[..whole], a[whole..]);
  }

  lemma PartOfByte(a: Address, prefix: nat)
    requires AreBytes(a) && prefix <= 8 * |a| && prefix % 8 != 0
    ensures var whole, bits := prefix / 8, prefix % 8;
      NetworkNumber(a, prefix) == Number(a[..whole]) * Power(2, bits) + ShiftRight(a[whole], 8 - bits)
      && ShiftRight(a[whole], 8 - bits) < Power(2, bits)
  {
    var whole, bits := prefix / 8, prefix % 8;
    assert a == a[..whole] + [a[whole]] + a[whole + 1..];
    NetworkOfParts(a[..whole], a[whole], a[whole + 1..], bits);
    ShiftsArePowers(a[whole], 8 - bits);
  }

  lemma SameSum(m: nat, q: nat, r: nat, q': nat, r': nat)
    requires r < m && r' < m
    ensures q * m + r == q' * m + r' <==> q == q' && r == r'
  {
    UniqueRest(q * m + r, m, q, r);
    UniqueRest(q' * m + r', m, q', r');
  }

  /** Comparing bytes under the mask is comparing the numbers divided by 2 to the host bits. */
  lemma MatchingIsNumeric(a: Address, b: Address, prefix: nat)
    requires AreBytes(a) && AreBytes(b) && |a| == |b| && prefix <= 8 * |a|
    ensures SameNetworkBytes(a, b, prefix) <==> NetworkNumber(a, prefix) == NetworkNumber(b, prefix)
  {
    var whole, bits := prefix / 8, prefix % 8;
    SameNumber(a[..whole], b[..whole]);
    if bits == 0 {
      WholeBytes(a, prefix);
      WholeBytes(b, prefix);
    } else {
      PartOfByte(a, prefix);
      PartOfByte(b, prefix);
      MaskIs(bits);
      MaskedBytes(a[whole], b[whole], bits, Mask(bits));
      SameSum(Power(2, bits), Number(a[..whole]), ShiftRight(a[whole], 8 - bits), Number(b[..whole]), ShiftRight(b[whole], 8 - bits));
    }
  }

  /** The rule's network holds the address; an IPv4 rule holds no IPv6 address, nor the other way. */
  predicate Covers(rule: Rule, address: string)
    requires IsRule(rule)
  {
    var a := ToBytes(address);
    a.Some? && |Unmap(a.value)| == |rule.bytes|
    && NetworkNumber(Unmap(a.value), rule.prefix) == NetworkNumber(rule.bytes, rule.prefix)
  }

  method CompareBytes(flat: Address, bytes: Address, prefix: nat) returns (same: bool)
    requires |flat| == |bytes| && prefix <= 8 * |flat|
    ensures same == SameNetworkBytes(flat, bytes, prefix)
  {
    var wholeBytes := prefix / 8;
    for i := 0 to wholeBytes
      invariant flat[..i] == bytes[..i]
    {
      assert flat[..i + 1] == flat[..i] + [flat[i]] && bytes[..i + 1] == bytes[..i] + [bytes[i]];
      if flat[i] != bytes[i] {
        assert flat[..wholeBytes][i] != bytes[..wholeBytes][i];
        return false;
      }
    }
    var remainingBits := prefix % 8;
    if remainingBits == 0 {
      return true;
    }
    var mask := Mask(remainingBits);
    same := And(flat[wholeBytes], mask) == And(bytes[wholeBytes], mask);
  }

  /** `ruleMatches` */
  method RuleMatches(rule: Rule, address: string) returns (matches: bool)
    requires IsRule(rule)
    ensures matches == Covers(rule, address)
  {
    var bytes := ToBytes(address);
    if bytes.None? {
      return false;
    }
    UnmapIsFlat(bytes.value);
    var flat := Unmap(bytes.value);
    if |flat| != |rule.bytes| {
      return false;
    }
    MatchingIsNumeric(flat, rule.bytes, rule.prefix);
    matches := CompareBytes(flat, rule.bytes, rule.prefix);
  }

  lemma ParsedIsRule(entry: string)
    requires ParseRule(entry).Some?
    ensures IsRule(ParseRule(entry).value)
  {
    var value := Trim(entry);
    UnmapIsFlat(ToBytes(value[..IndexOf(value, '/')]).value);
  }

  ghost predicate SomeRuleCovers(entries: seq<string>, address: string) {
    exists entry {:trigger RuleCovers(entry, address)} | entry in entries :: RuleCovers(entry, address)
  }

  ghost predicate RuleCovers(entry: string, address: string) {
    var rule := ParseRule(entry);
    rule.Some? && IsRule(rule.value) && Covers(rule.value, address)
  }

  lemma OneMoreEntry(entries: seq<string>, i: nat, address: string)
    requires i < |entries|
    ensures SomeRuleCovers(entries[..i + 1], address) <==> SomeRuleCovers(entries[..i], address) || RuleCovers(entries[i], address)
  {
    assert entries[..i + 1] == entries[..i] + [entries[i]];
  }

  method EntryMatches(entry: string, address: string) returns (matches: bool)
    ensures matches <==> RuleCovers(entry, address)
  {
    var rule := ParseRule(entry);
    if rule.None? {
      return false;
    }
    ParsedIsRule(entry);
    matches := RuleMatches(rule.value, address);
  }

  /** `matchesAny`; entries that are no rules are passed over. */
  method MatchesAny(entries: seq<string>, address: string) returns (matches: bool)
    ensures matches <==> SomeRuleCovers(entries, address)
  {
    matches := false;
    var i := 0;
    while i < |entries| && !matches
      invariant 0 <= i <= |entries|
      invariant matches <==> SomeRuleCovers(entries[..i], address)
    {
      matches := EntryMatches(entries[i], address);
      OneMoreEntry(entries, i, address);
      i := i + 1;
    }
    SomeOfThem(entries, i, address);
    assert i == |entries| ==> entries[..i] == entries;
  }

  lemma SomeOfThem(entries: seq<string>, i: nat, address: string)
    requires i <= |entries|
    ensures SomeRuleCovers(entries[..i], address) ==> SomeRuleCovers(entries, address)
  {
    if entry :| entry in entries[..i] && RuleCovers(entry, address) {
      assert entry in entries;
    }
  }

  // ------------------------------------------------------------- canonical rules

  const RULE_CHARS: set<char> := TEXT_CHARS + {'/'}

  lemma AddressChars(a: Address)
    requires IsAddress(a)
    ensures forall i | 0 <= i < |PrintAddress(a)| :: PrintAddress(a)[i] in TEXT_CHARS
    ensures PrintAddress(a) != ""
  {
    if |a| == 4 {
      DecimalPartsOfFour(a);
      PlainParts(a, DecimalParts(a));
      CharsOfJoin(DecimalParts(a), '.', TEXT_CHARS);
    } else {
      HexGroupsArePlain(a);
      GroupsAreRead(a);
      CharsOfJoin(HexGroups(a), ':', TEXT_CHARS);
      JoinedGroups(HexGroups(a));
    }
  }

  lemma PrefixIsRead(prefix: nat)
    requires prefix <= 128
    ensures IsPrefixText(Print(prefix, 10)) && Value(Print(prefix, 10), 10) == prefix
  {
    ValueOfPrint(prefix, 10);
    assert Power(10, 3) == 1000 by { assert Power(10, 1) == 10 && Power(10, 2) == 100; }
    PrintIsShort(prefix, 10, 3);
  }

  lemma TrimmedRule(s: string)
    requires forall i | 0 <= i < |s| :: s[i] in RULE_CHARS
    ensures Trim(s) == s
  {
  }

  lemma RuleChars(a: Address, prefix: nat)
    requires IsAddress(a)
    ensures forall i | 0 <= i < |RuleText(a, prefix)| :: RuleText(a, prefix)[i] in RULE_CHARS
  {
    AddressChars(a);
    PrintedChars(prefix, 10);
  }

  lemma BareRuleIsRead(a: Address)
    requires IsFlat(a)
    ensures ParseRule(PrintAddress(a)) == Some(Rule(a, 8 * |a|, PrintAddress(a)))
  {
    var text := PrintAddress(a);
    AddressChars(a);
    TrimmedRule(text);
    IndexOfAt(text, '/', "");
    assert text[..|text|] == text;
    PrintedIsRead(a);
  }

  lemma PiecesAreRead(value: string, address: string, prefixText: string, a: Address)
    requires Trim(value) == value && value == address + ['/'] + prefixText && '/' !in address
    requires IsFlat(a) && ToBytes(address) == Some(a)
    requires IsPrefixText(prefixText) && Value(prefixText, 10) <= 8 * |a|
    ensures ParseRule(value) == Some(Rule(a, Value(prefixText, 10), RuleText(a, Value(prefixText, 10))))
  {
    IndexOfAt(address, '/', prefixText);
    assert value[..|address|] == address && value[|address| + 1..] == prefixText;
  }

  lemma NoSlash(a: Address)
    requires IsAddress(a)
    ensures '/' !in PrintAddress(a)
  {
    AddressChars(a);
    assert '/' !in TEXT_CHARS;
  }

  lemma RuleIsTrimmed(a: Address, prefix: nat)
    requires IsAddress(a)
    ensures Trim(RuleText(a, prefix)) == RuleText(a, prefix)
  {
    RuleChars(a, prefix);
    TrimmedRule(RuleText(a, prefix));
  }

  lemma CidrIsRead(a: Address, prefix: nat)
    requires IsFlat(a) && prefix < 8 * |a|
    ensures ParseRule(RuleText(a, prefix)) == Some(Rule(a, prefix, RuleText(a, prefix)))
  {
    var address, prefixText, text := PrintAddress(a), Print(prefix, 10), RuleText(a, prefix);
    assert text == address + ['/'] + prefixText;
    NoSlash(a);
    RuleIsTrimmed(a, prefix);
    PrintedIsRead(a);
    PrefixIsRead(prefix);
    PiecesAreRead(text, address, prefixText, a);
  }

  /** The text of a rule reads as the rule. */
  lemma RuleIsRead(rule: Rule)
    requires IsRule(rule)
    ensures ParseRule(rule.text) == Some(rule)
  {
    if rule.prefix == 8 * |rule.bytes| {
      BareRuleIsRead(rule.bytes);
    } else {
      CidrIsRead(rule.bytes, rule.prefix);
    }
  }

  lemma CutAtSlash(address: string, digits: string)
    requires '/' !in address
    ensures var s := address + "/" + digits;
      IndexOf(s, '/') == |address| && s[..|address|] == address && s[|address| + 1..] == digits
  {
    IndexOfAt(address, '/', digits);
    assert address + "/" + digits == address + ['/'] + digits;
  }

  lemma PrefixMeans(flat: Address, digits: string)
    ensures var rule := RuleOf(flat, Some(digits));
      if 1 <= |digits| <= 3 && (forall c | c in digits :: '0' <= c <= '9') && Value(digits, 10) <= 8 * |flat|
      then rule.Some? && rule.value.bytes == flat && rule.value.prefix == Value(digits, 10)
      else rule.None?
  {
    DecimalsMean(digits);
  }

  /** What an entry with a slash says: a readable address, and one to three digits within its bits. */
  lemma CidrMeans(address: string, digits: string)
    requires '/' !in address && Trim(address + "/" + digits) == address + "/" + digits
    ensures var a, rule := ToBytes(address), ParseRule(address + "/" + digits);
      if a.Some? && 1 <= |digits| <= 3 && (forall c | c in digits :: '0' <= c <= '9') && Value(digits, 10) <= 8 * |Unmap(a.value)|
      then rule.Some? && rule.value.bytes == Unmap(a.value) && rule.value.prefix == Value(digits, 10)
      else rule.None?
  {
    CutAtSlash(address, digits);
    var a := ToBytes(address);
    assert ParseRule(address + "/" + digits) == if a.None? then None else RuleOf(Unmap(a.value), Some(digits));
    if a.Some? {
      PrefixMeans(Unmap(a.value), digits);
    }
  }

  /** An entry without a slash is the address with all its bits. */
  lemma BareMeans(address: string)
    requires '/' !in address && Trim(address) == address && address != ""
    ensures var a, rule := ToBytes(address), ParseRule(address);
      if a.Some? then rule.Some? && rule.value.bytes == Unmap(a.value) && rule.value.prefix == 8 * |Unmap(a.value)| else rule.None?
  {
    IndexOfAt(address, '/', "");
    assert address[..|address|] == address;
  }

  /** Normalizing a rule again changes nothing, keeps what it covers, and tells different rules apart. */
  lemma NormalizingKeepsTheRule(entry: string, other: string, address: string)
    ensures NormalizeRule(entry).Some? ==>
      NormalizeRule(NormalizeRule(entry).value) == NormalizeRule(entry)
      && (RuleCovers(NormalizeRule(entry).value, address) <==> RuleCovers(entry, address))
    ensures NormalizeRule(entry).Some? && NormalizeRule(other).Some? ==>
      (NormalizeRule(entry) == NormalizeRule(other) <==>
        ParseRule(entry).value.bytes == ParseRule(other).value.bytes && ParseRule(entry).value.prefix == ParseRule(other).value.prefix)
  {
    if ParseRule(entry).Some? {
      ParsedIsRule(entry);
      RuleIsRead(ParseRule(entry).value);
    }
    if ParseRule(other).Some? {
      ParsedIsRule(other);
      RuleIsRead(ParseRule(other).value);
    }
  }
}
