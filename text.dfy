/** Rust's `str::lines`: the text is cut at every `'\n'`, a `'\r'` directly
    before a `'\n'` is dropped with it, and a final line ending adds no empty
    line. */
module TextLines {

  /** Index of the first `'\n'` of `s`, or `|s|` when there is none. */
  function NewlineIndex(s: string): (i: nat)
    ensures i <= |s|
    ensures i < |s| ==> s[i] == '\n'
    ensures forall j :: 0 <= j < i ==> s[j] != '\n'
    decreases |s|
  {
    if |s| == 0 || s[0] == '\n' then 0 else 1 + NewlineIndex(s[1..])
  }

  function StripCarriageReturn(line: string): string {
    if |line| > 0 && line[|line| - 1] == '\r' then line[..|line| - 1] else line
  }

  function Lines(s: string): (lines: seq<string>)
    ensures forall k :: 0 <= k < |lines| ==> '\n' !in lines[k]
    decreases |s|
  {
    if |s| == 0 then []
    else
      var i := NewlineIndex(s);
      if i == |s| then [s]
      else [StripCarriageReturn(s[..i])] + Lines(s[i + 1..])
  }

  /** Number of `'\n'` characters in `s`. */
  function NewlineCount(s: string): nat
    decreases |s|
  {
    if |s| == 0 then 0 else (if s[0] == '\n' then 1 else 0) + NewlineCount(s[1..])
  }

  lemma {:induction false} NewlineCountAppend(a: string, b: string)
    ensures NewlineCount(a + b) == NewlineCount(a) + NewlineCount(b)
    decreases |a|
  {
    if |a| == 0 {
      assert a + b == b;
    } else {
      assert (a + b)[1..] == a[1..] + b;
      NewlineCountAppend(a[1..], b);
    }
  }

  lemma NewlineCountNone(s: string)
    requires forall j :: 0 <= j < |s| ==> s[j] != '\n'
    ensures NewlineCount(s) == 0
    decreases |s|
  {
    if |s| > 0 {
      NewlineCountNone(s[1..]);
    }
  }

  /** There is one line per line ending, plus one for a last line that has none. */
  lemma {:induction false} LinesCount(s: string)
    ensures |Lines(s)| == NewlineCount(s) + if |s| > 0 && s[|s| - 1] != '\n' then 1 else 0
    decreases |s|
  {
    if |s| > 0 {
      var i := NewlineIndex(s);
      NewlineCountNone(s[..i]);
      if i == |s| {
        assert s[..i] == s;
      } else {
        var rest := s[i + 1..];
        NewlineCountSplit(s, i);
        assert |Lines(s)| == 1 + |Lines(rest)|;
        LinesCount(rest);
        if |rest| > 0 {
          assert s[|s| - 1] == rest[|rest| - 1];
        }
      }
    }
  }

  /** Cutting `s` at its first `'\n'` leaves one line ending fewer. */
  lemma NewlineCountSplit(s: string, i: nat)
    requires i < |s| && s[i] == '\n' && NewlineCount(s[..i]) == 0
    ensures NewlineCount(s) == 1 + NewlineCount(s[i + 1..])
  {
    var rest := s[i + 1..];
    assert s == s[..i] + ([s[i]] + rest);
    NewlineCountAppend(s[..i], [s[i]] + rest);
    NewlineCountAppend([s[i]], rest);
    assert NewlineCount([s[i]]) == 1;
  }

  /** Each line followed by `'\n'`. */
  function Terminated(lines: seq<string>): string {
    if |lines| == 0 then [] else lines[0] + "\n" + Terminated(lines[1..])
  }

  /** A line as `Lines` can produce it: no `'\n'` inside, no `'\r'` at its end. */
  predicate IsLine(line: string) {
    '\n' !in line && (|line| > 0 ==> line[|line| - 1] != '\r')
  }

  /** Splitting newline-terminated lines gives the lines back. */
  lemma {:induction false} LinesOfTerminated(lines: seq<string>)
    requires forall k :: 0 <= k < |lines| ==> IsLine(lines[k])
    ensures Lines(Terminated(lines)) == lines
    decreases |lines|
  {
    if |lines| > 0 {
      var s := Terminated(lines);
      var line := lines[0];
      assert s == line + ("\n" + Terminated(lines[1..]));
      assert s[|line|] == '\n';
      assert forall j :: 0 <= j < |line| ==> s[j] == line[j];
      assert NewlineIndex(s) == |line|;
      assert s[..|line|] == line;
      assert s[|line| + 1..] == Terminated(lines[1..]);
      LinesOfTerminated(lines[1..]);
    }
  }

  /** A `"\r\n"` line ending is removed whole. */
  lemma LinesCarriageReturn(line: string, rest: string)
    requires '\n' !in line
    ensures Lines(line + "\r\n" + rest) == [line] + Lines(rest)
  {
    var s := line + "\r\n" + rest;
    assert forall j :: 0 <= j < |line| ==> s[j] == line[j];
    assert s[|line|] == '\r' && s[|line| + 1] == '\n';
    assert NewlineIndex(s) == |line| + 1;
    assert s[..|line| + 1] == line + "\r";
    assert (line + "\r")[..|line|] == line;
    assert s[|line| + 2..] == rest;
  }
}

/** Strings of ASCII decimal digits and the numbers they spell. */
module Decimal {

  predicate IsDigit(c: char) {
    '0' <= c <= '9'
  }

  predicate AllDigits(s: string) {
    forall i :: 0 <= i < |s| ==> IsDigit(s[i])
  }

  /** The number spelled by `s`, most significant digit first; leading zeros
      are allowed. */
  function DigitsValue(s: string): nat
    requires AllDigits(s)
    decreases |s|
  {
    if |s| == 0 then 0 else 10 * DigitsValue(s[..|s| - 1]) + (s[|s| - 1] as int - '0' as int)
  }

  /** The shortest digit string for `n`. */
  function NatToDigits(n: nat): (s: string)
    ensures |s| > 0 && AllDigits(s) && DigitsValue(s) == n
    decreases n
  {
    var last := ['0' + (n % 10) as char];
    if n < 10 then
      assert last[..0] == [];
      last
    else
      var high := NatToDigits(n / 10);
      assert (high + last)[..|high|] == high;
      high + last
  }
}

/** Scanning a string by character classes. */
module Scanning {

  predicate AllSatisfy(s: string, p: char -> bool) {
    forall i :: 0 <= i < |s| ==> p(s[i])
  }

  /** Cuts `s` after its longest prefix whose characters satisfy `p`. */
  function Cut(s: string, p: char -> bool): (r: (string, string))
    ensures r.0 + r.1 == s && AllSatisfy(r.0, p)
    ensures |r.1| > 0 ==> !p(r.1[0])
    decreases |s|
  {
    if |s| == 0 || !p(s[0]) then ([], s)
    else
      var (prefix, rest) := Cut(s[1..], p);
      assert [s[0]] + prefix + rest == s;
      ([s[0]] + prefix, rest)
  }

  /** A run of characters satisfying `p` ends where the first character that
      does not satisfy it starts. */
  lemma {:induction false} CutOf(a: string, b: string, p: char -> bool)
    requires AllSatisfy(a, p) && (|b| > 0 ==> !p(b[0]))
    ensures Cut(a + b, p) == (a, b)
    decreases |a|
  {
    if |a| > 0 {
      assert (a + b)[1..] == a[1..] + b;
      CutOf(a[1..], b, p);
      assert [a[0]] + a[1..] == a;
    } else {
      assert a + b == b;
    }
  }
}
