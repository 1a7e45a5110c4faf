/** What single fields and lines of an archive say, also where they are not as the formats want them. */
module TarFields {
  import opened Wrappers
  import opened Text
  import opened Numerals
  import opened TarReader

  lemma OctalDigitMeans(c: char)
    ensures IsOctalDigit(c) <==> DigitValue(c) < 8
    ensures IsOctalDigit(c) ==> OctalDigit(c) == DigitValue(c)
  {
  }

  lemma {:induction false} LeadingOctal(digits: string, tail: string)
    requires AreDigits(digits, 8) && (tail != "" ==> !('0' <= tail[0] <= '7'))
    ensures OctalPrefix(digits + tail) == digits
  {
    if digits == "" {
      assert digits + tail == tail;
    } else {
      assert (digits + tail)[1..] == digits[1..] + tail;
      OctalDigitMeans(digits[0]);
      LeadingOctal(digits[1..], tail);
    }
  }

  lemma {:induction false} OctalMeans(digits: string)
    requires AreDigits(digits, 8)
    ensures (forall c | c in digits :: IsOctalDigit(c)) && OctalValue(digits) == Value(digits, 8)
  {
    forall c | c in digits ensures IsOctalDigit(c) {
      OctalDigitMeans(c);
    }
    if digits != "" {
      OctalMeans(digits[..|digits| - 1]);
      OctalDigitMeans(digits[|digits| - 1]);
    }
  }

  lemma {:induction false} SpacesTrimmed(front: string, text: string)
    requires (forall c | c in front :: IsSpace(c)) && (text != "" ==> !IsSpace(text[0]))
    ensures TrimLeft(front + text) == text
  {
    if front == "" {
      assert front + text == text;
    } else {
      assert (front + text)[1..] == front[1..] + text;
      SpacesTrimmed(front[1..], text);
    }
  }

  /** The field up to a NUL, or all of it. */
  lemma UpToNul(text: Bytes, rest: Bytes)
    requires '\0' !in text && (rest != "" ==> rest[0] == '\0')
    ensures CString(text + rest) == text
  {
    if rest == "" {
      assert text + rest == text && text[..|text|] == text;
      IndexOfAt(text, '\0', "");
    } else {
      assert text + rest == text + ['\0'] + rest[1..];
      IndexOfAt(text, '\0', rest[1..]);
    }
  }

  lemma Signed(sign: string, rest: string)
    requires sign in {"", "+", "-"} && (sign == "" ==> rest == "" || rest[0] !in {'+', '-'})
    requires sign + rest != ""
    ensures var text := sign + rest; (if text[0] in {'+', '-'} then text[1..] else text) == rest
  {
    assert sign == "" ==> sign + rest == rest;
  }

  lemma ReadTrimmed(field: Bytes, front: string, sign: string, digits: string, tail: string)
    requires CString(field) == front + (sign + (digits + tail)) && forall c | c in front :: IsSpace(c)
    requires sign in {"", "+", "-"} && sign + (digits + tail) != ""
    requires sign == "" && digits == "" ==> !IsSpace(tail[0]) && tail[0] !in {'+', '-'}
    requires AreDigits(digits, 8) && (tail != "" ==> !('0' <= tail[0] <= '7'))
    ensures ReadOctal(field) ==
      if digits == "" then None else Some(if sign == "-" then 0 - Value(digits, 8) else Value(digits, 8))
  {
    var text := sign + (digits + tail);
    assert text[0] == if sign != "" then sign[0] else if digits != "" then digits[0] else tail[0];
    if digits != "" {
      OctalDigitMeans(digits[0]);
    }
    SpacesTrimmed(front, text);
    Signed(sign, digits + tail);
    LeadingOctal(digits, tail);
    OctalMeans(digits);
  }

  /**
   * A number field: white space, a sign, octal digits, and then anything; without a digit it is no
   * number. What is behind a NUL does not matter.
   */
  lemma NumberFieldMeans(front: string, sign: string, digits: string, tail: string, rest: Bytes)
    requires (forall c | c in front :: IsSpace(c)) && sign in {"", "+", "-"} && sign + (digits + tail) != ""
    requires sign == "" && digits == "" ==> !IsSpace(tail[0]) && tail[0] !in {'+', '-'}
    requires AreDigits(digits, 8) && (tail != "" ==> !('0' <= tail[0] <= '7'))
    requires '\0' !in tail && (rest != "" ==> rest[0] == '\0')
    ensures ReadOctal(front + (sign + (digits + tail)) + rest) ==
      if digits == "" then None else Some(if sign == "-" then 0 - Value(digits, 8) else Value(digits, 8))
  {
    var text := front + (sign + (digits + tail));
    forall c | c in digits ensures c != '\0' {
      OctalDigitMeans(c);
    }
    UpToNul(text, rest);
    ReadTrimmed(text + rest, front, sign, digits, tail);
  }

  lemma BlankFieldIsZero(front: string, rest: Bytes)
    requires (forall c | c in front :: IsSpace(c)) && (rest != "" ==> rest[0] == '\0')
    ensures ReadOctal(front + rest) == Some(0)
  {
    assert forall c | c in front :: IsSpace(c) && c != '\0';
    UpToNul(front, rest);
    SpacesTrimmed(front, "");
    assert front + "" == front;
  }

  // ---------------------------------------------------------------- path records

  lemma PutBack(s: string, a: string, b: string)
    requires s != "" && s[1..] == a + b
    ensures s == [s[0]] + a + b
  {
  }

  lemma {:induction false} SkippedDigits(s: string) returns (digits: string)
    ensures s == digits + SkipDigits(s) && (forall c | c in digits :: '0' <= c <= '9')
  {
    if s != "" && IsDigit(s[0]) {
      var rest := SkippedDigits(s[1..]);
      digits := [s[0]] + rest;
      PutBack(s, rest, SkipDigits(s[1..]));
    } else {
      digits := "";
    }
  }

  lemma {:induction false} DigitsSkipped(digits: string, rest: string)
    requires (forall c | c in digits :: '0' <= c <= '9') && rest != "" && !('0' <= rest[0] <= '9')
    ensures SkipDigits(digits + rest) == rest
  {
    if digits == "" {
      assert digits + rest == rest;
    } else {
      assert (digits + rest)[1..] == digits[1..] + rest && digits[0] in digits;
      assert forall c | c in digits[1..] :: c in digits;
      DigitsSkipped(digits[1..], rest);
    }
  }

  ghost predicate IsPathLine(line: Bytes, digits: string, value: Bytes) {
    digits != "" && (forall c | c in digits :: '0' <= c <= '9') && line == digits + (" path=" + value)
  }

  /** A line is a path record exactly when it is digits, ` path=` and the value. */
  lemma PathLineMeans(line: Bytes, value: Bytes)
    ensures PathOfLine(line) == Some(value) <==> exists digits :: IsPathLine(line, digits, value)
  {
    if PathOfLine(line) == Some(value) {
      var digits := SkippedDigits(line);
      assert SkipDigits(line) == " path=" + value;
      assert IsPathLine(line, digits, value);
    }
    if digits :| IsPathLine(line, digits, value) {
      DigitsSkipped(digits, " path=" + value);
      assert (" path=" + value)[6..] == value;
    }
  }
}
