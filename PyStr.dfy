/** The parts of Python's built-in `str` that the text processor relies on:
    `str.splitlines()`, `str.strip()`, `"\n".join(...)` and the decimal
    rendering of an `int` inside an f-string. Strings are `seq<char>`. */
module PyStr {

  /** The characters `str.splitlines` breaks a line at: `\n`, `\v`, `\f`, `\r`,
      `\x1c`, `\x1d`, `\x1e`, `\x85`, U+2028 and U+2029. The pair `\r\n`
      counts as a single break (see `BreakWidth`). */
  const LineBreaks: set<char> :=
    {'\n', '\U{000B}', '\U{000C}', '\r', '\U{001C}', '\U{001D}', '\U{001E}', '\U{0085}',
     '\U{2028}', '\U{2029}'}

  /** The characters `str.strip()` (with no argument) removes: those for which
      `str.isspace()` holds. */
  const Whitespace: set<char> :=
    {'\t', '\n', '\U{000B}', '\U{000C}', '\r', '\U{001C}', '\U{001D}', '\U{001E}', '\U{001F}', ' ',
     '\U{0085}', '\U{00A0}', '\U{1680}', '\U{2000}', '\U{2001}', '\U{2002}', '\U{2003}', '\U{2004}',
     '\U{2005}', '\U{2006}', '\U{2007}', '\U{2008}', '\U{2009}', '\U{200A}', '\U{2028}', '\U{2029}',
     '\U{202F}', '\U{205F}', '\U{3000}'}

  predicate IsLineBreak(c: char) {
    c in LineBreaks
  }

  predicate IsWhitespace(c: char) {
    c in Whitespace
  }

  predicate NoLineBreak(s: string) {
    forall k :: 0 <= k < |s| ==> !IsLineBreak(s[k])
  }

  lemma NoLineBreakAppend(a: string, b: string)
    requires NoLineBreak(a) && NoLineBreak(b)
    ensures NoLineBreak(a + b)
  {
    assert forall k :: |a| <= k < |a + b| ==> (a + b)[k] == b[k - |a|];
  }

  /** Every character is whitespace: the lines `str.strip()` turns into "". */
  predicate IsBlank(s: string) {
    forall k :: 0 <= k < |s| ==> IsWhitespace(s[k])
  }

  // ---------------------------------------------------------------------------
  // str.splitlines()
  // ---------------------------------------------------------------------------

  /** The position of the first line break in `s`, or `|s|` when there is none. */
  function LineEnd(s: string): (i: nat)
    ensures i <= |s|
  {
    if s == [] then 0
    else if IsLineBreak(s[0]) then 0
    else 1 + LineEnd(s[1..])
  }

  /** `LineEnd` finds the first break: none before it, and one at it unless it is the end. */
  lemma {:induction false} LineEndSpec(s: string)
    ensures forall k :: 0 <= k < LineEnd(s) ==> !IsLineBreak(s[k])
    ensures LineEnd(s) < |s| ==> IsLineBreak(s[LineEnd(s)])
  {
    if s != [] && !IsLineBreak(s[0]) {
      LineEndSpec(s[1..]);
      assert forall k :: 1 <= k < LineEnd(s) ==> s[k] == s[1..][k - 1];
    }
  }

  /** How many characters the line break at position `i` takes: two for `\r\n`, one otherwise. */
  function BreakWidth(s: string, i: nat): (w: nat)
    requires i < |s|
    ensures 1 <= w <= |s| - i
    ensures w == 2 <==> s[i] == '\r' && i + 1 < |s| && s[i + 1] == '\n'
  {
    if s[i] == '\r' && i + 1 < |s| && s[i + 1] == '\n' then 2 else 1
  }

  /** `s.splitlines()`: the lines of `s` without their terminators. A final
      terminator does not start an empty last line, and "" has no lines. */
  function SplitLines(s: string): (lines: seq<string>)
    ensures lines == [] <==> s == []
    decreases |s|
  {
    if s == [] then []
    else
      var i := LineEnd(s);
      if i == |s| then [s]
      else [s[..i]] + SplitLines(s[i + BreakWidth(s, i)..])
  }

  lemma SplitLinesSingle(x: string)
    requires x != [] && NoLineBreak(x)
    ensures SplitLines(x) == [x]
  {
    LineEndSpec(x);
  }

  /** No line that `splitlines` returns holds a line break. */
  lemma {:induction false} SplitLinesNoBreak(s: string)
    ensures forall j :: 0 <= j < |SplitLines(s)| ==> NoLineBreak(SplitLines(s)[j])
    decreases |s|
  {
    if s != [] {
      var i := LineEnd(s);
      LineEndSpec(s);
      assert NoLineBreak(s[..i]) by {
        assert forall k :: 0 <= k < i ==> s[..i][k] == s[k];
      }
      if i < |s| {
        var rest := s[i + BreakWidth(s, i)..];
        SplitLinesNoBreak(rest);
        SplitLinesUnfold(s, i);
      } else {
        assert s[..i] == s;
      }
    }
  }

  /** `LineEnd` stops at the first break. */
  lemma {:induction false} LineEndAt(s: string, i: nat)
    requires i < |s| && IsLineBreak(s[i])
    requires forall k :: 0 <= k < i ==> !IsLineBreak(s[k])
    ensures LineEnd(s) == i
  {
    if i > 0 {
      LineEndAt(s[1..], i - 1);
    }
  }

  /** The first line ends at the first line break. */
  lemma SplitLinesAt(s: string, i: nat)
    requires i < |s| && IsLineBreak(s[i])
    requires forall k :: 0 <= k < i ==> !IsLineBreak(s[k])
    ensures SplitLines(s) == [s[..i]] + SplitLines(s[i + BreakWidth(s, i)..])
  {
    LineEndAt(s, i);
    SplitLinesUnfold(s, i);
  }

  /** One step of `splitlines`: the first line, then the lines after its terminator. */
  lemma SplitLinesUnfold(s: string, i: nat)
    requires i == LineEnd(s) && i < |s|
    ensures SplitLines(s) == [s[..i]] + SplitLines(s[i + BreakWidth(s, i)..])
  {
  }

  lemma SplitLinesCons(x: string, rest: string)
    requires NoLineBreak(x)
    ensures SplitLines(x + "\n" + rest) == [x] + SplitLines(rest)
  {
    var s := x + "\n" + rest;
    assert s[..|x|] == x;
    assert forall k :: 0 <= k < |x| ==> s[k] == x[k];
    assert s[|x|] == '\n';
    SplitLinesAt(s, |x|);
    assert s[|x| + 1..] == rest;
  }

  lemma SplitLinesConsCrLf(x: string, rest: string)
    requires NoLineBreak(x)
    ensures SplitLines(x + "\r\n" + rest) == [x] + SplitLines(rest)
  {
    var s := x + "\r\n" + rest;
    assert s[..|x|] == x;
    assert forall k :: 0 <= k < |x| ==> s[k] == x[k];
    assert s[|x|] == '\r' && s[|x| + 1] == '\n';
    SplitLinesAt(s, |x|);
    assert s[|x| + 2..] == rest;
  }

  // ---------------------------------------------------------------------------
  // "\n".join(lines)
  // ---------------------------------------------------------------------------

  /** `"\n".join(lines)`: the lines with one `\n` between neighbours and none after the last. */
  function JoinLines(lines: seq<string>): (r: string)
    ensures lines == [] ==> r == []
    ensures |r| + 1 >= |lines|
  {
    if |lines| == 0 then []
    else if |lines| == 1 then lines[0]
    else lines[0] + "\n" + JoinLines(lines[1..])
  }

  /** Splitting what was joined gives back the lines, provided no line holds a
      break and the last line is not empty (an empty last line would leave a
      trailing terminator, which `splitlines` does not turn into a line). */
  lemma {:induction false} SplitJoinRoundTrip(lines: seq<string>)
    requires forall j :: 0 <= j < |lines| ==> NoLineBreak(lines[j])
    requires lines == [] || lines[|lines| - 1] != []
    ensures SplitLines(JoinLines(lines)) == lines
  {
    if |lines| == 0 {
    } else if |lines| == 1 {
      SplitLinesSingle(lines[0]);
    } else {
      SplitLinesCons(lines[0], JoinLines(lines[1..]));
      SplitJoinRoundTrip(lines[1..]);
      assert [lines[0]] + lines[1..] == lines;
    }
  }

  /** Joining non-empty, break-free lines gives a text whose only line breaks
      are single `\n`s standing strictly inside it: it neither starts nor ends
      with a break and holds no two breaks in a row. */
  lemma {:induction false} JoinLinesShape(lines: seq<string>)
    requires forall j :: 0 <= j < |lines| ==> lines[j] != [] && NoLineBreak(lines[j])
    ensures var s := JoinLines(lines);
      (s == []) == (lines == [])
      && (s != [] ==> !IsLineBreak(s[0]) && !IsLineBreak(s[|s| - 1]))
      && forall k :: 0 <= k < |s| && IsLineBreak(s[k]) ==>
           s[k] == '\n' && 0 < k < |s| - 1 && !IsLineBreak(s[k + 1])
  {
    if |lines| == 0 {
    } else if |lines| == 1 {
    } else {
      var x, t := lines[0], JoinLines(lines[1..]);
      JoinLinesShape(lines[1..]);
      var s := x + "\n" + t;
      assert JoinLines(lines) == s;
      assert t != [];
      forall k | 0 <= k < |s| && IsLineBreak(s[k])
        ensures s[k] == '\n' && 0 < k < |s| - 1 && !IsLineBreak(s[k + 1])
      {
        if k == |x| {
          assert s[k + 1] == t[0];
        } else {
          assert s[k] == t[k - |x| - 1];
          assert k + 1 < |s| ==> s[k + 1] == t[k - |x|];
        }
      }
      assert s[0] == x[0];
      assert s[|s| - 1] == t[|t| - 1];
    }
  }

  /** Joining the lines of a text gives the text back when every line break in
      it is a `\n` and none ends the text. */
  lemma {:induction false} JoinSplitRoundTrip(s: string)
    requires forall k :: 0 <= k < |s| && IsLineBreak(s[k]) ==> s[k] == '\n' && k < |s| - 1
    ensures JoinLines(SplitLines(s)) == s
    decreases |s|
  {
    if s != [] {
      var i := LineEnd(s);
      LineEndSpec(s);
      assert NoLineBreak(s[..i]) by {
        assert forall k :: 0 <= k < i ==> s[..i][k] == s[k];
      }
      if i < |s| {
        var rest := s[i + 1..];
        assert s == s[..i] + "\n" + rest;
        SplitLinesCons(s[..i], rest);
        forall k | 0 <= k < |rest| && IsLineBreak(rest[k])
          ensures rest[k] == '\n' && k < |rest| - 1
        {
          assert rest[k] == s[i + 1 + k];
        }
        JoinSplitRoundTrip(rest);
        assert rest != [];
        assert SplitLines(rest) != [];
      }
    }
  }

  /** The converse: when joining the lines of a text gives it back, every line
      break in it is a `\n` and none ends it. A `\r\n`, any other terminator
      or a final terminator therefore comes back changed. */
  lemma {:induction false} JoinSplitRoundTripOnlyIf(s: string)
    requires JoinLines(SplitLines(s)) == s
    ensures forall k :: 0 <= k < |s| && IsLineBreak(s[k]) ==> s[k] == '\n' && k < |s| - 1
    decreases |s|
  {
    if s != [] {
      var i := LineEnd(s);
      LineEndSpec(s);
      if i < |s| {
        var rest := s[i + BreakWidth(s, i)..];
        SplitLinesUnfold(s, i);
        var tail := SplitLines(rest);
        if tail == [] {
          assert false;
        }
        assert ([s[..i]] + tail)[1..] == tail;
        assert s == s[..i] + "\n" + JoinLines(tail);
        assert s[i] == '\n';
        assert s[i + 1..] == JoinLines(tail);
        JoinSplitRoundTripOnlyIf(rest);
        forall k | 0 <= k < |s| && IsLineBreak(s[k])
          ensures s[k] == '\n' && k < |s| - 1
        {
          if k > i {
            assert s[k] == rest[k - i - 1];
          }
        }
      }
    }
  }

  // ---------------------------------------------------------------------------
  // str.strip()
  // ---------------------------------------------------------------------------

  /** `s.lstrip()`. */
  function StripLeading(s: string): (r: string)
    ensures |r| <= |s|
    decreases |s|
  {
    if s != [] && IsWhitespace(s[0]) then StripLeading(s[1..]) else s
  }

  /** `s.rstrip()`. */
  function StripTrailing(s: string): (r: string)
    ensures |r| <= |s|
    decreases |s|
  {
    if s != [] && IsWhitespace(s[|s| - 1]) then StripTrailing(s[..|s| - 1]) else s
  }

  /** `s.strip()`. */
  function Strip(s: string): (r: string)
    ensures |r| <= |s|
  {
    StripTrailing(StripLeading(s))
  }

  /** `lstrip()` drops the leading whitespace and nothing else: what is left is
      a suffix that does not start with whitespace. */
  lemma {:induction false} StripLeadingSpec(s: string)
    ensures var r := StripLeading(s);
      && |r| <= |s| && r == s[|s| - |r|..]
      && (forall k :: 0 <= k < |s| - |r| ==> IsWhitespace(s[k]))
      && (r == [] || !IsWhitespace(r[0]))
    decreases |s|
  {
    if s != [] && IsWhitespace(s[0]) {
      StripLeadingSpec(s[1..]);
    }
  }

  /** `rstrip()` drops the trailing whitespace and nothing else: what is left is
      a prefix that does not end with whitespace. */
  lemma {:induction false} StripTrailingSpec(s: string)
    ensures var r := StripTrailing(s);
      && |r| <= |s| && r == s[..|r|]
      && (forall k :: |r| <= k < |s| ==> IsWhitespace(s[k]))
      && (r == [] || !IsWhitespace(r[|r| - 1]))
    decreases |s|
  {
    if s != [] && IsWhitespace(s[|s| - 1]) {
      StripTrailingSpec(s[..|s| - 1]);
    }
  }

  /** `s.strip()` is "" (falsy in Python) exactly when every character of `s` is whitespace. */
  lemma StripEmptyIffBlank(s: string)
    ensures Strip(s) == [] <==> IsBlank(s)
  {
    if IsBlank(s) {
      BlankStripsToEmpty(s);
    }
    if Strip(s) == [] {
      EmptyStripIsBlank(s);
    }
  }

  lemma BlankStripsToEmpty(s: string)
    requires IsBlank(s)
    ensures Strip(s) == []
  {
    StripLeadingBlank(s);
  }

  lemma {:induction false} StripLeadingBlank(s: string)
    requires IsBlank(s)
    ensures StripLeading(s) == []
    decreases |s|
  {
    if s != [] {
      assert IsBlank(s[1..]) by {
        assert forall k :: 0 <= k < |s| - 1 ==> s[1..][k] == s[k + 1];
      }
      StripLeadingBlank(s[1..]);
    }
  }

  lemma EmptyStripIsBlank(s: string)
    requires Strip(s) == []
    ensures IsBlank(s)
  {
    var l := StripLeading(s);
    StripLeadingSpec(s);
    StripTrailingSpec(l);
    assert l == [];
  }

  // ---------------------------------------------------------------------------
  // Decimal rendering of an int (f"{i}")
  // ---------------------------------------------------------------------------

  predicate IsDigit(c: char) {
    '0' <= c <= '9'
  }

  function DigitChar(d: nat): (c: char)
    requires d < 10
    ensures IsDigit(c) && DigitValue(c) == d
  {
    (d + '0' as int) as char
  }

  function DigitValue(c: char): nat
    requires IsDigit(c)
  {
    c as int - '0' as int
  }

  /** The number a string of decimal digits denotes. */
  function DecimalValue(s: string): nat
    requires forall k :: 0 <= k < |s| ==> IsDigit(s[k])
  {
    if s == [] then 0
    else DecimalValue(s[..|s| - 1]) * 10 + DigitValue(s[|s| - 1])
  }

  /** The decimal digits of `n`: at least one digit, no leading zero, and they denote `n`. */
  function NatToDecimal(n: nat): (s: string)
    ensures |s| >= 1
    ensures forall k :: 0 <= k < |s| ==> IsDigit(s[k])
    ensures s[0] == '0' ==> |s| == 1
    ensures DecimalValue(s) == n
  {
    if n < 10 then [DigitChar(n)]
    else
      var p := NatToDecimal(n / 10);
      var s := p + [DigitChar(n % 10)];
      assert s[..|s| - 1] == p;
      s
  }

  /** `str(i)` for a Python `int`: a minus sign before the digits of a negative value. */
  function IntToString(i: int): (s: string)
    ensures |s| >= 1
    ensures i < 0 <==> s[0] == '-'
  {
    if i < 0 then "-" + NatToDecimal(-i) else NatToDecimal(i)
  }

  /** The rendering of an integer is a minus sign and digits, so it holds no line break. */
  lemma IntToStringHasNoBreak(i: int)
    ensures NoLineBreak(IntToString(i))
  {
    var s := IntToString(i);
    var digits := NatToDecimal(if i < 0 then -i else i);
    forall k | 0 <= k < |s| ensures !IsLineBreak(s[k]) {
      if i < 0 && k > 0 {
        assert s[k] == digits[k - 1];
      }
    }
  }

  /** Different integers are rendered differently, so a message quoting an
      index names that index. */
  lemma IntToStringInjective(i: int, j: int)
    requires IntToString(i) == IntToString(j)
    ensures i == j
  {
    if i < 0 && j < 0 {
      assert NatToDecimal(-i) == IntToString(i)[1..];
      assert NatToDecimal(-j) == IntToString(j)[1..];
    }
  }
}
