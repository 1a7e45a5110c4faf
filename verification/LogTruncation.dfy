/** Which end of a deployment's log is stored (`truncateLogText`, backend/src/store/deploymentRepository.js). Text is bytes. */
module LogTruncation {
  import opened Text
  import opened Numerals

  const MAX_LOG_LINES: nat := 5000
  const MAX_LOG_BYTES: nat := 1024 * 1024
  const NEWLINE := '\n'

  function Marker(lines: nat): Bytes {
    "[truncated: showing last " + Print(lines, 10) + " lines]"
  }

  predicate Within(lines: seq<Bytes>) {
    |lines| <= MAX_LOG_LINES && |Join(lines, NEWLINE)| <= MAX_LOG_BYTES
  }

  function LastBytes(s: Bytes, n: nat): Bytes {
    if |s| <= n then s else s[|s| - n..]
  }

  function Suffix(lines: seq<Bytes>, n: nat): seq<Bytes>
    requires n <= |lines|
  {
    lines[|lines| - n..]
  }

  /** `kept` of the last lines fit, and one more would not; a lone line stays even if it does not fit. */
  ghost predicate LongestFit(lines: seq<Bytes>, kept: seq<Bytes>) {
    && 1 <= |kept| <= |lines| && kept == Suffix(lines, |kept|)
    && (Within(kept) || |kept| == 1)
    && forall n | |kept| < n <= |lines| :: !Within(Suffix(lines, n))
  }

  datatype Stored = Stored(text: Bytes, truncated: bool)

  function SumBytes(lines: seq<Bytes>): nat {
    if lines == [] then 0 else |lines[0]| + SumBytes(lines[1..])
  }

  lemma {:induction false} JoinLength(lines: seq<Bytes>)
    requires lines != []
    ensures |Join(lines, NEWLINE)| == SumBytes(lines) + |lines| - 1
  {
    if |lines| == 1 {
      assert SumBytes(lines[1..]) == 0;
    } else {
      JoinLength(lines[1..]);
    }
  }

  lemma JoinShrinks(lines: seq<Bytes>, d: nat)
    requires d + 1 < |lines|
    ensures |Join(lines[d + 1..], NEWLINE)| == |Join(lines[d..], NEWLINE)| - |lines[d]| - 1
  {
    assert lines[d..][1..] == lines[d + 1..] && lines[d..][0] == lines[d];
  }

  method CountBytes(lines: seq<Bytes>) returns (total: nat)
    ensures total == SumBytes(lines)
  {
    total := 0;
    var i := |lines|;
    while i > 0
      invariant 0 <= i <= |lines| && total == SumBytes(lines[i..])
    {
      i := i - 1;
      assert lines[i..][1..] == lines[i + 1..];
      total := total + |lines[i]|;
    }
    assert lines[0..] == lines;
  }

  /** The loop with the running total: leading lines are dropped until the rest fits. */
  method DropToBytes(lines: seq<Bytes>) returns (dropped: nat)
    requires lines != []
    ensures dropped < |lines|
    ensures |Join(lines[dropped..], NEWLINE)| <= MAX_LOG_BYTES || dropped == |lines| - 1
    ensures forall d | 0 <= d < dropped :: |Join(lines[d..], NEWLINE)| > MAX_LOG_BYTES
  {
    var sum := CountBytes(lines);
    JoinLength(lines);
    var totalBytes := sum + |lines| - 1;
    dropped := 0;
    while dropped < |lines| - 1 && totalBytes > MAX_LOG_BYTES
      invariant dropped < |lines|
      invariant totalBytes == |Join(lines[dropped..], NEWLINE)|
      invariant forall d | 0 <= d < dropped :: |Join(lines[d..], NEWLINE)| > MAX_LOG_BYTES
    {
      JoinShrinks(lines, dropped);
      totalBytes := totalBytes - (|lines[dropped]| + 1);
      dropped := dropped + 1;
    }
  }

  ghost predicate IsStored(text: Bytes, kept: seq<Bytes>, r: Stored) {
    && LongestFit(Split(text, NEWLINE), kept)
    && (r.truncated <==> kept != Split(text, NEWLINE) || |Join(kept, NEWLINE)| > MAX_LOG_BYTES)
    && r.text == (if r.truncated then "[truncated: showing last " + Print(|kept|, 10) + " lines]" + [NEWLINE] else "")
                 + LastBytes(Join(kept, NEWLINE), MAX_LOG_BYTES)
  }

  /** Both caps, applied to whole lines. */
  method KeepLines(all: seq<Bytes>) returns (kept: seq<Bytes>, truncated: bool)
    requires all != []
    ensures LongestFit(all, kept) && (truncated <==> kept != all)
  {
    var lines := all;
    truncated := false;
    if |lines| > MAX_LOG_LINES {
      lines := lines[|lines| - MAX_LOG_LINES..];
      truncated := true;
    }
    var dropped := DropToBytes(lines);
    truncated := truncated || dropped > 0;
    kept := lines[dropped..];
    KeptIsLongest(all, lines, dropped);
  }

  /** The byte cap on a lone line, and the marker. */
  method Render(kept: seq<Bytes>, cut: bool) returns (r: Stored)
    ensures r.truncated <==> cut || |Join(kept, NEWLINE)| > MAX_LOG_BYTES
    ensures r.text == (if r.truncated then Marker(|kept|) + [NEWLINE] else "") + LastBytes(Join(kept, NEWLINE), MAX_LOG_BYTES)
  {
    var truncated := cut;
    var joined := Join(kept, NEWLINE);
    if |joined| > MAX_LOG_BYTES {
      truncated := true;
      joined := joined[|joined| - MAX_LOG_BYTES..];
    }
    if truncated {
      joined := Marker(|kept|) + [NEWLINE] + joined;
    }
    r := Stored(joined, truncated);
  }

  method TruncateLogText(text: Bytes) returns (r: Stored)
    ensures exists kept :: IsStored(text, kept, r)
    ensures r.truncated <==> |Split(text, NEWLINE)| > 5000 || |text| > 1048576
    ensures !r.truncated ==> r.text == text
  {
    if |text| == 0 {
      EmptyText();
      r := Stored("", false);
      assert IsStored(text, [""], r);
      return;
    }
    var rest, cut := KeepLines(Split(text, NEWLINE));
    r := Render(rest, cut);
    assert IsStored(text, rest, r);
    StoredIsTheEnd(text, rest, r);
  }

  lemma EmptyText()
    ensures Split("", NEWLINE) == [""] && LongestFit([""], [""]) && Join([""], NEWLINE) == ""
  {
    assert [""][0..] == [""];
  }

  lemma KeptIsLongest(all: seq<Bytes>, lines: seq<Bytes>, dropped: nat)
    requires all != [] && lines == if |all| > MAX_LOG_LINES then all[|all| - MAX_LOG_LINES..] else all
    requires dropped < |lines|
    requires |Join(lines[dropped..], NEWLINE)| <= MAX_LOG_BYTES || dropped == |lines| - 1
    requires forall d | 0 <= d < dropped :: |Join(lines[d..], NEWLINE)| > MAX_LOG_BYTES
    ensures LongestFit(all, lines[dropped..])
    ensures lines[dropped..] == all <==> |all| <= MAX_LOG_LINES && dropped == 0
  {
    var kept := lines[dropped..];
    assert kept == Suffix(all, |kept|);
    forall n | |kept| < n <= |all| ensures !Within(Suffix(all, n)) {
      if n <= |lines| {
        assert Suffix(all, n) == lines[|lines| - n..];
      }
    }
  }

  // --------------------------------------------------------------- what is stored

  lemma {:induction false} JoinOfSuffix(lines: seq<Bytes>, d: nat)
    requires d < |lines|
    ensures |Join(lines[d..], NEWLINE)| <= |Join(lines, NEWLINE)|
    ensures Join(lines[d..], NEWLINE) == LastBytes(Join(lines, NEWLINE), |Join(lines[d..], NEWLINE)|)
    decreases d
  {
    if d == 0 {
      assert lines[0..] == lines;
    } else {
      JoinOfSuffix(lines[1..], d - 1);
      assert lines[1..][d - 1..] == lines[d..];
    }
  }

  lemma LastOfLast(s: Bytes, n: nat, m: nat)
    ensures LastBytes(LastBytes(s, n), m) == LastBytes(s, if n <= m then n else m)
  {
  }

  /** The bytes of the log that are stored. */
  function StoredBytes(kept: seq<Bytes>): nat {
    if |Join(kept, NEWLINE)| <= MAX_LOG_BYTES then |Join(kept, NEWLINE)| else MAX_LOG_BYTES
  }

  lemma KeptIsTheEnd(text: Bytes, kept: seq<Bytes>)
    requires LongestFit(Split(text, NEWLINE), kept)
    ensures Join(kept, NEWLINE) == LastBytes(text, |Join(kept, NEWLINE)|) && |Join(kept, NEWLINE)| <= |text|
    ensures LastBytes(Join(kept, NEWLINE), MAX_LOG_BYTES) == LastBytes(text, StoredBytes(kept))
  {
    var lines := Split(text, NEWLINE);
    JoinOfSplit(text, NEWLINE);
    JoinOfSuffix(lines, |lines| - |kept|);
    LastOfLast(text, |Join(kept, NEWLINE)|, MAX_LOG_BYTES);
  }

  lemma CutExactly(text: Bytes, kept: seq<Bytes>)
    requires LongestFit(Split(text, NEWLINE), kept)
    ensures kept == Split(text, NEWLINE) ==> Join(kept, NEWLINE) == text
    ensures kept != Split(text, NEWLINE) ==> |Join(kept, NEWLINE)| < |text| && !Within(Split(text, NEWLINE))
    ensures Within(Split(text, NEWLINE)) <==> |Split(text, NEWLINE)| <= MAX_LOG_LINES && |text| <= MAX_LOG_BYTES
  {
    var lines := Split(text, NEWLINE);
    JoinOfSplit(text, NEWLINE);
    assert Suffix(lines, |lines|) == lines;
    if kept != lines {
      ShorterJoin(lines, |lines| - |kept|);
    }
  }

  /** What is stored is an end of the log, behind the marker exactly when something was cut. */
  lemma StoredIsTheEnd(text: Bytes, kept: seq<Bytes>, r: Stored)
    requires IsStored(text, kept, r)
    ensures r.text == (if r.truncated then Marker(|kept|) + [NEWLINE] else "") + LastBytes(text, StoredBytes(kept))
    ensures r.truncated <==> StoredBytes(kept) < |text|
    ensures r.truncated <==> |Split(text, NEWLINE)| > 5000 || |text| > 1048576
    ensures !r.truncated ==> r.text == text
  {
    KeptIsTheEnd(text, kept);
    CutExactly(text, kept);
  }

  lemma ShorterJoin(lines: seq<Bytes>, d: nat)
    requires 0 < d < |lines|
    ensures |Join(lines[d..], NEWLINE)| < |Join(lines, NEWLINE)|
  {
    assert lines[0..] == lines;
    JoinShrinks(lines, 0);
    JoinOfSuffix(lines[1..], d - 1);
    assert lines[1..][d - 1..] == lines[d..];
  }

  /** The stored text is at most the cap, the marker's line and its four digits. */
  lemma StoredIsSmall(text: Bytes, kept: seq<Bytes>, r: Stored)
    requires IsStored(text, kept, r)
    ensures |r.text| <= MAX_LOG_BYTES + |"[truncated: showing last  lines]"| + 5
  {
    assert |kept| <= MAX_LOG_LINES by {
      if !Within(kept) { assert |kept| == 1; }
    }
    assert Power(10, 4) == 10_000 by { assert Power(10, 1) == 10 && Power(10, 2) == 100 && Power(10, 3) == 1000; }
    PrintIsShort(|kept|, 10, 4);
  }

  // ------------------------------------------------------- storing it once more

  lemma OneLongestFit(lines: seq<Bytes>, a: seq<Bytes>, b: seq<Bytes>)
    requires LongestFit(lines, a) && LongestFit(lines, b)
    ensures a == b
  {
    assert a == Suffix(lines, |a|) && b == Suffix(lines, |b|);
  }

  lemma MarkerIsOneLine(n: nat)
    ensures NEWLINE !in Marker(n)
  {
    ValueOfPrint(n, 10);
    assert forall i | 0 <= i < |Print(n, 10)| :: DigitValue(Print(n, 10)[i]) < 10;
    assert NEWLINE !in "[truncated: showing last " && NEWLINE !in " lines]";
  }

  lemma PiecesOfStored(text: Bytes, kept: seq<Bytes>)
    requires LongestFit(Split(text, NEWLINE), kept)
    ensures var body := LastBytes(Join(kept, NEWLINE), MAX_LOG_BYTES);
      |Split(body, NEWLINE)| == |kept| && Within(Split(body, NEWLINE)) && Join(Split(body, NEWLINE), NEWLINE) == body
  {
    var body := LastBytes(Join(kept, NEWLINE), MAX_LOG_BYTES);
    JoinOfSplit(text, NEWLINE);
    JoinOfSplit(body, NEWLINE);
    assert forall p | p in kept :: p in Split(text, NEWLINE);
    if |Join(kept, NEWLINE)| <= MAX_LOG_BYTES {
      SplitOfJoin(kept, NEWLINE);
    } else {
      assert kept[0] in kept && Join(kept, NEWLINE) == kept[0];
      SplitStep(body, NEWLINE, "");
    }
  }

  lemma MarkerInFront(n: nat, body: Bytes)
    ensures Split(Marker(n) + [NEWLINE] + body, NEWLINE) == [Marker(n)] + Split(body, NEWLINE)
  {
    MarkerIsOneLine(n);
    SplitStep(Marker(n), NEWLINE, body);
  }

  lemma FitBehindMarker(marker: Bytes, lines: seq<Bytes>, kept: seq<Bytes>)
    requires lines != [] && Within(lines) && LongestFit([marker] + lines, kept)
    ensures kept == if Within([marker] + lines) then [marker] + lines else lines
  {
    var all := [marker] + lines;
    assert Suffix(all, |all|) == all && Suffix(all, |lines|) == lines;
  }

  /** Truncating what was stored changes nothing more: the marker stays the only one. */
  lemma StoringAgainIsTheSame(text: Bytes, kept: seq<Bytes>, r: Stored, kept': seq<Bytes>, r': Stored)
    requires IsStored(text, kept, r) && IsStored(r.text, kept', r')
    ensures r'.text == r.text
  {
    if !r.truncated {
      StoredIsTheEnd(text, kept, r);
      OneLongestFit(Split(text, NEWLINE), kept, kept');
    } else {
      var body := LastBytes(Join(kept, NEWLINE), MAX_LOG_BYTES);
      PiecesOfStored(text, kept);
      MarkerInFront(|kept|, body);
      FitBehindMarker(Marker(|kept|), Split(body, NEWLINE), kept');
      JoinOfSplit(r.text, NEWLINE);
      if kept' == Split(r.text, NEWLINE) {
        StoredIsTheEnd(r.text, kept', r');
      }
    }
  }
}
