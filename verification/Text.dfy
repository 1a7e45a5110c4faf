/**
 * Splitting text and byte strings on one separator character.
 *
 * A byte string is written as a `string` whose characters are the bytes 0..255.
 */
module Text {
  type Bytes = string

  function IndexOf(s: string, c: char): (i: nat)
    ensures i <= |s| && c !in s[..i] && (i < |s| ==> s[i] == c)
  {
    if s == "" || s[0] == c then 0
    else
      var i := IndexOf(s[1..], c) + 1;
      assert s[..i] == [s[0]] + s[1..][..i - 1];
      i
  }

  lemma IndexOfAt(a: string, c: char, b: string)
    requires c !in a
    ensures IndexOf(a + [c] + b, c) == |a|
    ensures IndexOf(a, c) == |a|
  {
    var s := a + [c] + b;
    assert s[|a|] == c && s[..|a|] == a;
    assert forall j | 0 <= j < |a| :: s[j] == a[j] && s[j] != c;
    assert forall j | 0 <= j < |s[..IndexOf(s, c)]| :: s[j] == s[..IndexOf(s, c)][j];
  }

  lemma {:induction false} IndexOfAppend(a: string, b: string, c: char)
    requires c in a
    ensures IndexOf(a + b, c) == IndexOf(a, c) < |a|
  {
    if a[0] != c {
      assert (a + b)[1..] == a[1..] + b;
      IndexOfAppend(a[1..], b, c);
    }
  }

  function LastIndexOf(s: string, c: char): (i: int)
    ensures -1 <= i < |s| && (i >= 0 ==> s[i] == c)
    ensures forall j | i < j < |s| :: s[j] != c
  {
    if s == "" then -1
    else if s[|s| - 1] == c then |s| - 1
    else LastIndexOf(s[..|s| - 1], c)
  }

  /** The pieces of `s` between separators; always at least one. */
  function Split(s: string, sep: char): (parts: seq<string>)
    ensures |parts| >= 1
  {
    var i := IndexOf(s, sep);
    if i == |s| then [s] else [s[..i]] + Split(s[i + 1..], sep)
  }

  /** The pieces hold no separator, and joining them gives the text back. */
  lemma {:induction false} JoinOfSplit(s: string, sep: char)
    ensures forall p | p in Split(s, sep) :: sep !in p
    ensures Join(Split(s, sep), sep) == s
  {
    var i := IndexOf(s, sep);
    if i == |s| {
      assert s[..i] == s;
    } else {
      JoinOfSplit(s[i + 1..], sep);
      assert s == s[..i] + [sep] + s[i + 1..];
      assert ([s[..i]] + Split(s[i + 1..], sep))[1..] == Split(s[i + 1..], sep);
    }
  }

  function Join(parts: seq<string>, sep: char): string {
    if parts == [] then ""
    else if |parts| == 1 then parts[0]
    else parts[0] + [sep] + Join(parts[1..], sep)
  }

  lemma SplitStep(head: string, sep: char, rest: string)
    requires sep !in head
    ensures Split(head, sep) == [head]
    ensures Split(head + [sep] + rest, sep) == [head] + Split(rest, sep)
  {
    var s := head + [sep] + rest;
    IndexOfAt(head, sep, rest);
    assert s[..|head|] == head && s[|head| + 1..] == rest;
  }

  /** Splitting undoes joining, when no piece holds the separator. */
  lemma {:induction false} SplitOfJoin(parts: seq<string>, sep: char)
    requires |parts| >= 1
    requires forall p | p in parts :: sep !in p
    ensures Split(Join(parts, sep), sep) == parts
  {
    SplitStep(parts[0], sep, Join(parts[1..], sep));
    if |parts| > 1 {
      SplitOfJoin(parts[1..], sep);
    }
  }

  function Last(parts: seq<string>): string
    requires |parts| >= 1
  {
    parts[|parts| - 1]
  }

  function Front(parts: seq<string>): seq<string>
    requires |parts| >= 1
  {
    parts[..|parts| - 1]
  }

  lemma SplitFirst(s: string, sep: char, i: nat)
    requires i == IndexOf(s, sep) < |s|
    ensures Split(s, sep) == [s[..i]] + Split(s[i + 1..], sep)
  {
  }

  lemma SplitFirstOfAppend(a: string, b: string, sep: char, i: nat)
    requires i == IndexOf(a, sep) < |a|
    ensures Split(a + b, sep) == [a[..i]] + Split(a[i + 1..] + b, sep)
  {
    IndexOfAppend(a, b, sep);
    assert (a + b)[..i] == a[..i] && (a + b)[i + 1..] == a[i + 1..] + b;
    SplitFirst(a + b, sep, i);
  }

  /** Only the last piece of a text can still grow when more text arrives. */
  lemma {:induction false} SplitOfAppend(a: string, b: string, sep: char)
    ensures Split(a + b, sep) == Front(Split(a, sep)) + Split(Last(Split(a, sep)) + b, sep)
    decreases |a|
  {
    if sep !in a {
      SplitStep(a, sep, "");
      assert Front([a]) == [];
    } else {
      var i := IndexOf(a, sep);
      IndexOfAppend(a, b, sep);
      SplitFirst(a, sep, i);
      SplitFirstOfAppend(a, b, sep, i);
      SplitOfAppend(a[i + 1..], b, sep);
      PrependPiece(a[..i], Split(a[i + 1..], sep), Split(Last(Split(a[i + 1..], sep)) + b, sep));
    }
  }

  lemma PrependPiece(head: string, ps: seq<string>, qs: seq<string>)
    requires |ps| >= 1
    ensures [head] + (Front(ps) + qs) == Front([head] + ps) + qs
    ensures Last([head] + ps) == Last(ps)
  {
    assert Front([head] + ps) == [head] + Front(ps);
  }

  lemma Regroup<T>(a: seq<T>, b: seq<T>, c: seq<T>)
    ensures a + (b + c) == a + b + c
  {
  }

  function Flatten<T>(parts: seq<seq<T>>): seq<T> {
    if parts == [] then [] else parts[0] + Flatten(parts[1..])
  }

  lemma {:induction false} FlattenAppend<T>(a: seq<seq<T>>, b: seq<seq<T>>)
    ensures Flatten(a + b) == Flatten(a) + Flatten(b)
  {
    if a == [] {
      assert a + b == b;
    } else {
      FlattenAppend(a[1..], b);
      assert (a + b)[0] == a[0] && (a + b)[1..] == a[1..] + b;
      Regroup(a[0], Flatten(a[1..]), Flatten(b));
    }
  }

  // --------------------------------------------------------------------- blanks

  predicate IsSpace(c: char) {
    c == ' ' || '\t' <= c <= '\r'
  }

  function TrimLeft(s: string): string {
    if s != "" && IsSpace(s[0]) then TrimLeft(s[1..]) else s
  }

  function TrimRight(s: string): string {
    if s != "" && IsSpace(s[|s| - 1]) then TrimRight(s[..|s| - 1]) else s
  }

  function Trim(s: string): string {
    TrimRight(TrimLeft(s))
  }

  /** Spaces, tabs, and the four kinds of line ends. */
  lemma WhiteSpace(c: char)
    ensures IsSpace(c) <==> c in {' ', '\t', '\n', '\U{000B}', '\U{000C}', '\r'}
  {
  }

  lemma {:induction false} TrimmedLeft(s: string) returns (front: string)
    ensures s == front + TrimLeft(s) && (forall c | c in front :: IsSpace(c))
    ensures TrimLeft(s) != "" ==> !IsSpace(TrimLeft(s)[0])
  {
    if s != "" && IsSpace(s[0]) {
      var rest := TrimmedLeft(s[1..]);
      front := [s[0]] + rest;
      assert s == [s[0]] + s[1..];
    } else {
      front := "";
    }
  }

  lemma {:induction false} TrimmedRight(s: string) returns (back: string)
    ensures s == TrimRight(s) + back && (forall c | c in back :: IsSpace(c))
    ensures TrimRight(s) != "" ==> !IsSpace(TrimRight(s)[|TrimRight(s)| - 1])
    decreases |s|
  {
    if s != "" && IsSpace(s[|s| - 1]) {
      var rest := TrimmedRight(s[..|s| - 1]);
      back := rest + [s[|s| - 1]];
      assert s == s[..|s| - 1] + [s[|s| - 1]];
    } else {
      back := "";
    }
  }

  /** Trimming takes white space off both ends, and nothing else. */
  lemma TrimMeans(s: string) returns (front: string, back: string)
    ensures s == front + Trim(s) + back
    ensures (forall c | c in front :: IsSpace(c)) && (forall c | c in back :: IsSpace(c))
    ensures Trim(s) != "" ==> !IsSpace(Trim(s)[0]) && !IsSpace(Trim(s)[|Trim(s)| - 1])
  {
    front := TrimmedLeft(s);
    back := TrimmedRight(TrimLeft(s));
    assert Trim(s) != "" ==> TrimLeft(s)[0] == Trim(s)[0];
    assert front + (Trim(s) + back) == front + Trim(s) + back;
  }

  /** Nothing is left of a text exactly when it is all white space. */
  lemma BlankMeans(s: string)
    ensures Trim(s) == "" <==> forall c | c in s :: IsSpace(c)
  {
    var front, back := TrimMeans(s);
    if Trim(s) != "" {
      assert s[|front|] == Trim(s)[0];
    }
  }
}
