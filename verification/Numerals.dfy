/** Numbers as text, in a base up to sixteen. */
module Numerals {
  import opened Wrappers

  const DIGITS := "0123456789abcdef"

  function Print(n: nat, base: nat): (s: string)
    requires 2 <= base <= 16
    ensures s != ""
    decreases n
  {
    if n < base then [DIGITS[n]] else Print(n / base, base) + [DIGITS[n % base]]
  }

  function DigitValue(c: char): nat {
    if '0' <= c <= '9' then c as nat - '0' as nat
    else if 'a' <= c <= 'f' then c as nat - 'a' as nat + 10
    else if 'A' <= c <= 'F' then c as nat - 'A' as nat + 10
    else 16
  }

  predicate AreDigits(s: string, base: nat) {
    forall i | 0 <= i < |s| :: DigitValue(s[i]) < base
  }

  function Value(s: string, base: nat): nat {
    if s == "" then 0 else Value(s[..|s| - 1], base) * base + DigitValue(s[|s| - 1])
  }

  lemma DigitOf(d: nat)
    requires d < 16
    ensures DigitValue(DIGITS[d]) == d
  {
  }

  lemma AppendDigit(s: string, d: nat, base: nat)
    requires d < base <= 16 && AreDigits(s, base)
    ensures AreDigits(s + [DIGITS[d]], base) && Value(s + [DIGITS[d]], base) == Value(s, base) * base + d
  {
    DigitOf(d);
    var t := s + [DIGITS[d]];
    assert t[..|t| - 1] == s && t[|t| - 1] == DIGITS[d];
  }

  lemma QuotientAndRest(n: nat, base: nat)
    requires base >= 1
    ensures (n / base) * base + n % base == n && n % base < base
    ensures n >= base ==> n / base >= 1
    ensures n >= base >= 2 ==> n / base < n
  {
  }

  lemma {:induction false} ValueOfPrint(n: nat, base: nat)
    requires 2 <= base <= 16
    ensures AreDigits(Print(n, base), base) && Value(Print(n, base), base) == n
    decreases n
  {
    if n < base {
      AppendDigit("", n, base);
      assert "" + [DIGITS[n]] == [DIGITS[n]];
      assert Value("", base) == 0;
    } else {
      var q, d := n / base, n % base;
      QuotientAndRest(n, base);
      ValueOfPrint(q, base);
      PrintedValue(n, base, q, d);
    }
  }

  lemma PrintedValue(n: nat, base: nat, q: nat, d: nat)
    requires 2 <= base <= 16 && d < base && Print(n, base) == Print(q, base) + [DIGITS[d]]
    requires AreDigits(Print(q, base), base) && Value(Print(q, base), base) == q && q * base + d == n
    ensures AreDigits(Print(n, base), base) && Value(Print(n, base), base) == n
  {
    AppendDigit(Print(q, base), d, base);
  }

  function Power(base: nat, k: nat): (p: nat)
    ensures base >= 1 ==> p >= 1
  {
    if k == 0 then 1
    else
      var p := Power(base, k - 1);
      assert base >= 1 ==> base * p >= base by { MulGrows(base, 1, p); }
      base * p
  }

  lemma {:induction false} PrintIsShort(n: nat, base: nat, k: nat)
    requires 2 <= base <= 16 && k >= 1 && n < Power(base, k)
    ensures |Print(n, base)| <= k
    decreases k
  {
    assert k == 1 ==> Power(base, k) == base * Power(base, 0) == base;
    if n >= base {
      DivisionBelow(n, base, Power(base, k - 1));
      PrintIsShort(n / base, base, k - 1);
    }
  }

  lemma DivisionBelow(n: nat, base: nat, m: nat)
    requires base >= 1 && n < base * m
    ensures n / base < m
  {
    MulGrows(base, m, n / base);
    assert n == base * (n / base) + n % base;
  }

  lemma MulGrows(a: nat, x: nat, y: nat)
    ensures x <= y ==> a * x <= a * y
  {
    if x <= y {
      assert a * y == a * x + a * (y - x);
    }
  }

  /** A numeral for a positive number does not start with a zero. */
  lemma {:induction false} NoLeadingZero(n: nat, base: nat)
    requires 2 <= base <= 16
    ensures Print(n, base)[0] == '0' ==> n == 0
    decreases n
  {
    if n >= base {
      NoLeadingZero(n / base, base);
      assert n / base >= 1;
    }
  }

  /** The sixteen digits, in either case. */
  lemma DigitMeans(c: char)
    ensures DigitValue(c) < 16 <==> c in "0123456789abcdefABCDEF"
    ensures forall d: nat | d < 16 :: DigitValue("0123456789abcdef"[d]) == d && DigitValue("0123456789ABCDEF"[d]) == d
    ensures DigitValue(c) < 10 <==> '0' <= c <= '9'
  {
  }

  lemma DecimalsMean(s: string)
    ensures AreDigits(s, 10) <==> forall c | c in s :: '0' <= c <= '9'
  {
    if AreDigits(s, 10) {
      forall c | c in s ensures '0' <= c <= '9' { DigitMeans(c); }
    } else {
      var i :| 0 <= i < |s| && DigitValue(s[i]) >= 10;
      DigitMeans(s[i]);
      assert s[i] in s;
    }
  }

  /** A plain numeral is what its value prints as. */
  lemma {:induction false} PrintOfValue(s: string)
    requires s != "" && AreDigits(s, 10) && (|s| > 1 ==> s[0] != '0')
    ensures Print(Value(s, 10), 10) == s
    decreases |s|
  {
    var front, c := s[..|s| - 1], s[|s| - 1];
    assert s == front + [c];
    if front == "" {
      assert DigitValue(c) < 10 && DIGITS[DigitValue(c)] == c;
      assert Value(front, 10) == 0;
    } else {
      PrintOfValue(front);
      PositiveValue(front);
      PrintOneMore(front, c);
    }
  }

  lemma PrintOneMore(front: string, c: char)
    requires DigitValue(c) < 10 && Value(front, 10) >= 1
    ensures Print(Value(front + [c], 10), 10) == Print(Value(front, 10), 10) + [c]
  {
    var s := front + [c];
    assert s[..|s| - 1] == front && s[|s| - 1] == c && DIGITS[DigitValue(c)] == c;
    LastDigit(Value(front, 10), DigitValue(c));
  }

  lemma LastDigit(v: nat, d: nat)
    requires d < 10
    ensures (v * 10 + d) / 10 == v && (v * 10 + d) % 10 == d
    ensures v >= 1 ==> v * 10 + d >= 10 && Print(v * 10 + d, 10) == Print(v, 10) + [DIGITS[d]]
  {
  }

  lemma {:induction false} PositiveValue(s: string)
    requires s != "" && AreDigits(s, 10) && s[0] != '0'
    ensures Value(s, 10) >= 1
    decreases |s|
  {
    if |s| > 1 {
      PositiveValue(s[..|s| - 1]);
    } else {
      assert s[..0] == "" && Value("", 10) == 0;
    }
  }
}
