/** Which texts are numbers to the resume header, apart from how they are read (section 7.1.4.1 of ECMA-262). */
module SseIds {
  import opened Wrappers
  import opened Text
  import opened Numerals
  import opened SseResume

  predicate IsWhole(s: string, v: real) {
    s != "" && AreDigits(s, 10) && v == Value(s, 10) as real
  }

  /** The digits before and behind a point. */
  predicate IsPointed(a: string, b: string, v: real) {
    IsWhole(a + b, Scaled(v, |b|))
  }

  /** Decimal digits, with at most one point before, among or behind them. */
  ghost predicate IsPlain(s: string, v: real) {
    IsWhole(s, v) || exists a, b :: s == a + "." + b && IsPointed(a, b, v)
  }

  /** A power of ten that stands behind an `e`, which may have a sign. */
  ghost predicate IsExponent(s: string, v: real, w: real) {
    || (s != "" && AreDigits(s, 10) && v == Scaled(w, Value(s, 10)))
    || (s != "" && s[0] == '+' && s[1..] != "" && AreDigits(s[1..], 10) && v == Scaled(w, Value(s[1..], 10)))
    || (s != "" && s[0] == '-' && s[1..] != "" && AreDigits(s[1..], 10) && Scaled(v, Value(s[1..], 10)) == w)
  }

  ghost predicate IsDecimal(s: string, v: real) {
    || IsPlain(s, v)
    || exists m, e, w :: IsPlain(m, w) && IsExponent(e, v, w) && (s == m + "e" + e || s == m + "E" + e)
  }

  ghost predicate IsRadix(s: string, v: real, small: char, large: char, base: nat) {
    |s| > 2 && s[0] == '0' && (s[1] == small || s[1] == large) && AreDigits(s[2..], base) && v == Value(s[2..], base) as real
  }

  ghost predicate IsNumeral(s: string, v: real) {
    || IsRadix(s, v, 'x', 'X', 16) || IsRadix(s, v, 'o', 'O', 8) || IsRadix(s, v, 'b', 'B', 2)
    || IsDecimal(s, v)
    || (s != "" && s[0] == '+' && IsDecimal(s[1..], v))
    || (s != "" && s[0] == '-' && IsDecimal(s[1..], -v))
  }

  // ------------------------------------------------------------- powers of ten

  /** One place is a factor of ten. */
  lemma {:induction false} OnePlace(x: real, n: nat)
    ensures Scaled(x, 0) == x && Scaled(x, n + 1) == 10.0 * Scaled(x, n)
    decreases n
  {
    if n > 0 {
      OnePlace(10.0 * x, n - 1);
    }
  }

  lemma {:induction false} ThereAndBack(x: real, n: nat)
    ensures Scaled(Scaled(x, 0 - n as int), n) == x
    decreases n
  {
    if n > 0 {
      ThereAndBack(x / 10.0, n - 1);
      OnePlace(Scaled(x, 0 - n as int), n - 1);
    }
  }

  lemma {:induction false} NoTwoAlike(x: real, y: real, n: nat)
    requires Scaled(x, n) == Scaled(y, n)
    ensures x == y
    decreases n
  {
    if n > 0 {
      NoTwoAlike(10.0 * x, 10.0 * y, n - 1);
    }
  }

  lemma Shifted(v: real, n: nat, x: real)
    ensures v == Scaled(x, 0 - n as int) <==> Scaled(v, n) == x
  {
    ThereAndBack(x, n);
    if Scaled(v, n) == x {
      NoTwoAlike(v, Scaled(x, 0 - n as int), n);
    }
  }

  // ----------------------------------------------------------------- mantissas

  lemma DigitsOnly(s: string, c: char)
    requires AreDigits(s, 10) && !('0' <= c <= '9')
    ensures c !in s
  {
    DecimalsMean(s);
  }

  lemma PointIsAt(a: string, b: string)
    requires AreDigits(a + b, 10)
    ensures IndexOf(a + "." + b, '.') == |a|
    ensures (a + "." + b)[..|a|] == a && (a + "." + b)[|a| + 1..] == b
  {
    DigitsOnly(a + b, '.');
    assert forall c | c in a :: c in a + b;
    IndexOfAt(a, '.', b);
  }

  lemma MantissaOf(a: string, b: string, n: nat)
    requires AreDigits(a + b, 10) && n == |b|
    ensures Mantissa(a + "." + b) == if a + b == "" then None else Some(Scaled(Value(a + b, 10) as real, 0 - n as int))
  {
    PointIsAt(a, b);
  }

  lemma WithPoint(a: string, b: string, v: real)
    requires AreDigits(a + b, 10)
    ensures Mantissa(a + "." + b) == Some(v) <==> IsPointed(a, b, v)
  {
    var n, x := |b|, Value(a + b, 10) as real;
    MantissaOf(a, b, n);
    Shifted(v, n, x);
  }

  lemma NoPoint(s: string, a: string, b: string)
    requires '.' !in s
    ensures s != a + "." + b
  {
    assert (a + "." + b)[|a|] == '.';
  }

  lemma MantissaMeans(s: string, v: real)
    ensures Mantissa(s) == Some(v) <==> IsPlain(s, v)
  {
    if IndexOf(s, '.') < |s| {
      PointInside(s, v);
    } else {
      assert s[..|s|] == s;
      forall a, b ensures s != a + "." + b {
        NoPoint(s, a, b);
      }
    }
  }

  lemma NotWhole(s: string, v: real)
    requires '.' in s
    ensures !IsWhole(s, v)
  {
    if AreDigits(s, 10) {
      DigitsOnly(s, '.');
    }
  }

  lemma CutAt(s: string, i: nat)
    requires i < |s| && s[i] == '.'
    ensures s == s[..i] + "." + s[i + 1..]
  {
  }

  lemma PointDigits(s: string)
    requires IndexOf(s, '.') < |s| && Mantissa(s).Some?
    ensures var dot := IndexOf(s, '.'); AreDigits(s[..dot] + s[dot + 1..], 10)
  {
  }

  lemma PartsAreRead(s: string, a: string, b: string, v: real)
    requires s == a + "." + b && AreDigits(a + b, 10) && Mantissa(s) == Some(v)
    ensures IsPlain(s, v)
  {
    WithPoint(a, b, v);
  }

  lemma PointIsRead(s: string, v: real)
    requires IndexOf(s, '.') < |s| && Mantissa(s) == Some(v)
    ensures IsPlain(s, v)
  {
    var dot := IndexOf(s, '.');
    CutAt(s, dot);
    PointDigits(s);
    PartsAreRead(s, s[..dot], s[dot + 1..], v);
  }

  lemma PointedIsMantissa(s: string, v: real)
    requires '.' in s && IsPlain(s, v)
    ensures Mantissa(s) == Some(v)
  {
    NotWhole(s, v);
    var a, b :| s == a + "." + b && IsPointed(a, b, v);
    WithPoint(a, b, v);
  }

  lemma PointInside(s: string, v: real)
    requires IndexOf(s, '.') < |s|
    ensures Mantissa(s) == Some(v) <==> IsPlain(s, v)
  {
    assert s[IndexOf(s, '.')] in s;
    if Mantissa(s) == Some(v) {
      PointIsRead(s, v);
    }
    if IsPlain(s, v) {
      PointedIsMantissa(s, v);
    }
  }

  lemma NoLetters(s: string, v: real, c: char)
    requires IsPlain(s, v) && !('0' <= c <= '9') && c != '.'
    ensures c !in s
  {
    if IsWhole(s, v) {
      DigitsOnly(s, c);
    } else {
      var a, b :| s == a + "." + b && IsPointed(a, b, v);
      DigitsOnly(a + b, c);
      assert forall d | d in s :: d in a + b || d == '.';
    }
  }

  // ----------------------------------------------------------------- exponents

  function MarkIn(s: string): nat {
    if IndexOf(s, 'e') <= IndexOf(s, 'E') then IndexOf(s, 'e') else IndexOf(s, 'E')
  }

  lemma MarkIsAt(m: string, mark: char, e: string)
    requires 'e' !in m && 'E' !in m && mark in {'e', 'E'}
    ensures MarkIn(m + [mark] + e) == |m|
    ensures (m + [mark] + e)[..|m|] == m && (m + [mark] + e)[|m| + 1..] == e
  {
    var s := m + [mark] + e;
    IndexOfAt(m, mark, e);
    BehindPlain(m, mark, e, 'e');
    BehindPlain(m, mark, e, 'E');
  }

  lemma BehindPlain(m: string, mark: char, e: string, c: char)
    requires c !in m
    ensures IndexOf(m + [mark] + e, c) >= |m|
  {
    var s := m + [mark] + e;
    assert forall i | 0 <= i < |m| :: s[i] == m[i] && m[i] in m;
  }

  lemma ExponentMeans(e: string, v: real, w: real)
    ensures (Exponent(e).Some? && v == Scaled(w, Exponent(e).value)) <==> IsExponent(e, v, w)
  {
    if e != "" && e[0] in {'+', '-'} {
      DigitMeans(e[0]);
      SignedExponent(e, v, w);
    }
  }

  lemma SignedExponent(e: string, v: real, w: real)
    requires e != "" && e[0] in {'+', '-'} && !AreDigits(e, 10)
    ensures (Exponent(e).Some? && v == Scaled(w, Exponent(e).value)) <==> IsExponent(e, v, w)
  {
    if e[1..] != "" && AreDigits(e[1..], 10) {
      var n := Value(e[1..], 10);
      Shifted(v, n, w);
    }
  }

  // ------------------------------------------------------------------- decimals

  lemma DecimalParts(s: string)
    requires MarkIn(s) < |s|
    ensures 'e' !in s[..MarkIn(s)] && 'E' !in s[..MarkIn(s)] && s[MarkIn(s)] in {'e', 'E'}
    ensures s == s[..MarkIn(s)] + [s[MarkIn(s)]] + s[MarkIn(s) + 1..]
  {
    var at := MarkIn(s);
    assert s[..at] <= s[..IndexOf(s, 'e')] && s[..at] <= s[..IndexOf(s, 'E')];
    assert forall c | c in s[..at] :: c in s[..IndexOf(s, 'e')] && c in s[..IndexOf(s, 'E')];
  }

  lemma PlainDecimal(s: string, v: real)
    requires MarkIn(s) == |s|
    ensures Decimal(s) == Some(v) <==> IsDecimal(s, v)
  {
    MantissaMeans(s, v);
    assert s[..|s|] == s;
    forall m, e: string ensures s != m + "e" + e && s != m + "E" + e {
      assert (m + "e" + e)[|m|] == 'e' && (m + "E" + e)[|m|] == 'E';
    }
  }

  lemma MarkedDecimalIsRead(s: string, v: real)
    requires MarkIn(s) < |s| && Decimal(s) == Some(v)
    ensures IsDecimal(s, v)
  {
    var at := MarkIn(s);
    var m, e := s[..at], s[at + 1..];
    DecimalParts(s);
    var w := Mantissa(m).value;
    MantissaMeans(m, w);
    ExponentMeans(e, v, w);
    assert s == m + "e" + e || s == m + "E" + e;
  }

  lemma MarkedIsDecimal(m: string, mark: char, e: string, v: real, w: real)
    requires mark in {'e', 'E'} && IsPlain(m, w) && IsExponent(e, v, w)
    ensures Decimal(m + [mark] + e) == Some(v)
  {
    NoLetters(m, w, 'e');
    NoLetters(m, w, 'E');
    MarkIsAt(m, mark, e);
    MantissaMeans(m, w);
    ExponentMeans(e, v, w);
  }

  lemma MarkedIsNotPlain(s: string, v: real)
    requires MarkIn(s) < |s|
    ensures !IsPlain(s, v)
  {
    DecimalParts(s);
    assert s[MarkIn(s)] in s;
    if IsPlain(s, v) {
      NoLetters(s, v, s[MarkIn(s)]);
    }
  }

  lemma DecimalMeans(s: string, v: real)
    ensures Decimal(s) == Some(v) <==> IsDecimal(s, v)
  {
    if MarkIn(s) == |s| {
      PlainDecimal(s, v);
    } else {
      if Decimal(s) == Some(v) {
        MarkedDecimalIsRead(s, v);
      }
      if IsDecimal(s, v) {
        MarkedIsNotPlain(s, v);
        var m, e, w :| IsPlain(m, w) && IsExponent(e, v, w) && (s == m + "e" + e || s == m + "E" + e);
        MarkedIsDecimal(m, if s == m + "e" + e then 'e' else 'E', e, v, w);
      }
    }
  }

  // -------------------------------------------------------------------- numbers

  lemma RadixMeans(s: string, v: real)
    requires BaseOf(s) != 10
    ensures Written(s) == Some(v) <==> IsRadix(s, v, 'x', 'X', 16) || IsRadix(s, v, 'o', 'O', 8) || IsRadix(s, v, 'b', 'B', 2)
  {
  }

  lemma RadixIsNotPlain(s: string, v: real)
    requires BaseOf(s) != 10
    ensures !IsPlain(s, v)
  {
    if IsPlain(s, v) {
      NoLetters(s, v, s[1]);
    }
  }

  lemma RadixIsNotDecimal(s: string, v: real)
    requires BaseOf(s) != 10
    ensures !IsDecimal(s, v)
  {
    RadixIsNotPlain(s, v);
    forall m, e, w | IsPlain(m, w) && IsExponent(e, v, w) ensures s != m + "e" + e && s != m + "E" + e {
      RadixIsNotMarked(s, m, "e" + e, w);
      RadixIsNotMarked(s, m, "E" + e, w);
      assert m + ("e" + e) == m + "e" + e && m + ("E" + e) == m + "E" + e;
    }
  }

  lemma RadixIsNotMarked(s: string, m: string, rest: string, w: real)
    requires BaseOf(s) != 10 && IsPlain(m, w) && rest != "" && rest[0] in {'e', 'E'}
    ensures s != m + rest
  {
    if |m| >= 2 {
      assert (m + rest)[0] == m[0] && (m + rest)[1] == m[1];
      if BaseOf(m) != 10 {
        RadixIsNotPlain(m, w);
      }
    } else {
      NotEmpty(m, w);
      assert (m + rest)[1] == rest[0];
    }
  }

  lemma NotEmpty(m: string, w: real)
    requires IsPlain(m, w)
    ensures m != ""
  {
  }

  lemma SignIsNotDecimal(s: string, v: real)
    requires HasSign(s)
    ensures !IsDecimal(s, v)
  {
    forall m: string, w: real | IsPlain(m, w) && m <= s ensures false {
      NotEmpty(m, w);
      assert m[0] == s[0] && s[0] in m;
      NoLetters(m, w, s[0]);
    }
    assert forall m, e: string | s == m + "e" + e || s == m + "E" + e :: m <= s;
  }

  lemma RadixNumber(s: string, v: real)
    requires BaseOf(s) != 10
    ensures Written(s) == Some(v) <==> IsNumeral(s, v)
  {
    RadixMeans(s, v);
    RadixIsNotDecimal(s, v);
  }

  lemma SignedNumber(s: string, v: real)
    requires HasSign(s)
    ensures Written(s) == Some(v) <==> IsNumeral(s, v)
  {
    SignIsNotDecimal(s, v);
    if s[0] == '-' {
      DecimalMeans(s[1..], -v);
    } else {
      DecimalMeans(s[1..], v);
    }
  }

  lemma PlainNumber(s: string, v: real)
    requires BaseOf(s) == 10 && !HasSign(s)
    ensures Written(s) == Some(v) <==> IsNumeral(s, v)
  {
    DecimalMeans(s, v);
  }

  /** Exactly these texts are numbers to the header, and these are their values. */
  lemma NumberMeans(s: string, v: real)
    ensures Written(s) == Some(v) <==> IsNumeral(s, v)
  {
    if BaseOf(s) != 10 {
      RadixNumber(s, v);
    } else if HasSign(s) {
      SignedNumber(s, v);
    } else {
      PlainNumber(s, v);
    }
  }

  lemma IndexMeans(number: Option<real>, size: nat, n: nat)
    requires n < size
    ensures IsIndex(number, size) && number.value.Floor == n <==> number == Some(n as real)
  {
  }

  /** The replay starts right behind line `n` exactly when the header is a number of that value, or blank and `n` is 0. */
  lemma StartMeans(header: string, size: nat, n: nat)
    requires n < size
    ensures ReplayStart(Some(header), size) == n + 1 <==>
      if forall c | c in header :: IsSpace(c) then n == 0 else IsNumeral(Trim(header), n as real)
    ensures ReplayStart(None, size) == 0
  {
    IndexMeans(NumberOf(header), size, n);
    NumberOfMeans(header, n);
  }

  lemma NumberOfMeans(header: string, n: nat)
    ensures NumberOf(header) == Some(n as real) <==>
      if forall c | c in header :: IsSpace(c) then n == 0 else IsNumeral(Trim(header), n as real)
  {
    BlankMeans(header);
    if Trim(header) != "" {
      NumberMeans(Trim(header), n as real);
    }
  }
}
