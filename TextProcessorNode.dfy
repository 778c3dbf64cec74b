/** The text processor node: an optional blank-line filter, an optional
    regular-expression substitution whose failures are turned into text, and
    the selection of one line by index. The node keeps no state, so each of its
    methods is a function of its arguments. */
module TextProcessorNode {
  import opened PyStr

  // ---------------------------------------------------------------------------
  // The regular-expression engine, left abstract
  // ---------------------------------------------------------------------------

  /** What `re.sub` does: return the substituted text, or raise `re.error`
      with a message. */
  datatype SubResult = Substituted(text: string) | RegexError(message: string)

  /** `re.sub(pattern, replacement, text)` as a parameter: the engine's
      matching and replacement rules are not part of this model. */
  type RegexSub = (string, string, string) -> SubResult

  // ---------------------------------------------------------------------------
  // _remove_empty_lines
  // ---------------------------------------------------------------------------

  /** The lines `if line.strip()` keeps: those with a non-whitespace character. */
  predicate KeepsLine(line: string)
    ensures KeepsLine(line) <==> !IsBlank(line)
  {
    StripEmptyIffBlank(line);
    Strip(line) != []
  }

  /** `[line for line in lines if line.strip()]`. */
  function NonBlankLines(lines: seq<string>): (kept: seq<string>)
    ensures |kept| <= |lines|
  {
    if lines == [] then []
    else (if KeepsLine(lines[0]) then [lines[0]] else []) + NonBlankLines(lines[1..])
  }

  /** `_remove_empty_lines`: the non-blank lines of `text`, joined by `\n`. */
  function RemoveEmptyLines(text: string): (r: string)
    ensures text == [] ==> r == []
  {
    JoinLines(NonBlankLines(SplitLines(text)))
  }

  /** Every line the filter keeps has a non-whitespace character, and was a line of its input. */
  lemma {:induction false} NonBlankLinesKept(lines: seq<string>)
    ensures forall j :: 0 <= j < |NonBlankLines(lines)| ==>
      !IsBlank(NonBlankLines(lines)[j]) && NonBlankLines(lines)[j] in lines
  {
    if lines != [] {
      NonBlankLinesKept(lines[1..]);
      StripEmptyIffBlank(lines[0]);
    }
  }

  /** The filter drops exactly the blank lines: a non-blank line is kept as
      often as it occurs, a blank one never. */
  lemma {:induction false} NonBlankLinesCount(lines: seq<string>, line: string)
    ensures multiset(NonBlankLines(lines))[line] == if IsBlank(line) then 0 else multiset(lines)[line]
  {
    if lines != [] {
      NonBlankLinesCount(lines[1..], line);
      StripEmptyIffBlank(lines[0]);
      assert lines == [lines[0]] + lines[1..];
    }
  }

  lemma NonBlankLinesCons(line: string, rest: seq<string>)
    ensures NonBlankLines([line] + rest) == (if KeepsLine(line) then [line] else []) + NonBlankLines(rest)
  {
    assert ([line] + rest)[1..] == rest;
  }

  /** The filter works line by line, so it keeps the relative order of what it keeps. */
  lemma {:induction false} NonBlankLinesAppend(a: seq<string>, b: seq<string>)
    ensures NonBlankLines(a + b) == NonBlankLines(a) + NonBlankLines(b)
  {
    if a == [] {
      assert a + b == b;
    } else {
      var head, t := if KeepsLine(a[0]) then [a[0]] else [], a[1..];
      assert a + b == [a[0]] + (t + b);
      NonBlankLinesCons(a[0], t + b);
      NonBlankLinesAppend(t, b);
      assert head + (NonBlankLines(t) + NonBlankLines(b)) == (head + NonBlankLines(t)) + NonBlankLines(b);
    }
  }

  /** `sub` is what remains of `full` after deleting some of its elements. */
  ghost predicate IsSubsequence(sub: seq<string>, full: seq<string>)
    decreases |full|
  {
    if sub == [] then true
    else if full == [] then false
    else (sub[0] == full[0] && IsSubsequence(sub[1..], full[1..])) || IsSubsequence(sub, full[1..])
  }

  /** The kept lines appear in the input in the same order. */
  lemma {:induction false} NonBlankLinesIsSubsequence(lines: seq<string>)
    ensures IsSubsequence(NonBlankLines(lines), lines)
  {
    if lines != [] {
      NonBlankLinesIsSubsequence(lines[1..]);
      var rest := NonBlankLines(lines[1..]);
      if KeepsLine(lines[0]) {
        assert NonBlankLines(lines) == [lines[0]] + rest;
        assert ([lines[0]] + rest)[1..] == rest;
      } else if rest != [] {
        assert NonBlankLines(lines) == rest;
      }
    }
  }

  /** Lines that are all non-blank pass the filter unchanged, and only those do. */
  lemma {:induction false} NonBlankLinesIdentity(lines: seq<string>)
    ensures NonBlankLines(lines) == lines <==> forall j :: 0 <= j < |lines| ==> !IsBlank(lines[j])
  {
    NonBlankLinesKept(lines);
    if forall j :: 0 <= j < |lines| ==> !IsBlank(lines[j]) {
      AllKeptStayKept(lines);
    }
  }

  lemma {:induction false} AllKeptStayKept(lines: seq<string>)
    requires forall j :: 0 <= j < |lines| ==> !IsBlank(lines[j])
    ensures NonBlankLines(lines) == lines
  {
    if lines != [] {
      StripEmptyIffBlank(lines[0]);
      AllKeptStayKept(lines[1..]);
      assert lines == [lines[0]] + lines[1..];
    }
  }

  /** What the filter produces splits back into exactly the non-blank lines of
      its input, in their order. */
  lemma RemoveEmptyLinesSplitsBack(text: string)
    ensures SplitLines(RemoveEmptyLines(text)) == NonBlankLines(SplitLines(text))
  {
    var lines := SplitLines(text);
    var kept := NonBlankLines(lines);
    NonBlankLinesKept(lines);
    SplitLinesNoBreak(text);
    forall j | 0 <= j < |kept| ensures NoLineBreak(kept[j]) {
      var i :| 0 <= i < |lines| && lines[i] == kept[j];
    }
    SplitJoinRoundTrip(kept);
  }

  /** No line of the filtered text is empty or whitespace-only. */
  lemma RemoveEmptyLinesHasNoBlankLine(text: string)
    ensures forall j :: 0 <= j < |SplitLines(RemoveEmptyLines(text))| ==>
      !IsBlank(SplitLines(RemoveEmptyLines(text))[j])
  {
    RemoveEmptyLinesSplitsBack(text);
    NonBlankLinesKept(SplitLines(text));
  }

  /** The filtered text's only line breaks are single `\n`s between two lines:
      it does not start or end with a break and never holds two in a row. */
  lemma RemoveEmptyLinesShape(text: string)
    ensures var r := RemoveEmptyLines(text);
      (r != [] ==> !IsLineBreak(r[0]) && !IsLineBreak(r[|r| - 1]))
      && forall k :: 0 <= k < |r| && IsLineBreak(r[k]) ==>
           r[k] == '\n' && 0 < k < |r| - 1 && !IsLineBreak(r[k + 1])
  {
    var lines := SplitLines(text);
    var kept := NonBlankLines(lines);
    NonBlankLinesKept(lines);
    SplitLinesNoBreak(text);
    forall j | 0 <= j < |kept| ensures kept[j] != [] && NoLineBreak(kept[j]) {
      var i :| 0 <= i < |lines| && lines[i] == kept[j];
    }
    JoinLinesShape(kept);
  }

  /** The filter gives "" exactly when every line is blank, in particular for "". */
  lemma RemoveEmptyLinesEmpty(text: string)
    ensures RemoveEmptyLines(text) == [] <==> forall j :: 0 <= j < |SplitLines(text)| ==> IsBlank(SplitLines(text)[j])
  {
    var lines := SplitLines(text);
    RemoveEmptyLinesSplitsBack(text);
    if forall j :: 0 <= j < |lines| ==> IsBlank(lines[j]) {
      NonBlankLinesKept(lines);
      assert forall x :: x in lines ==> IsBlank(x);
    } else {
      var j :| 0 <= j < |lines| && !IsBlank(lines[j]);
      NonBlankLinesCount(lines, lines[j]);
      assert lines[j] in multiset(lines);
    }
  }

  /** Filtering twice is filtering once. */
  lemma RemoveEmptyLinesIdempotent(text: string)
    ensures RemoveEmptyLines(RemoveEmptyLines(text)) == RemoveEmptyLines(text)
  {
    var kept := NonBlankLines(SplitLines(text));
    RemoveEmptyLinesSplitsBack(text);
    NonBlankLinesKept(SplitLines(text));
    NonBlankLinesIdentity(kept);
  }

  /** The filter leaves a text unchanged exactly when no line is blank and the
      text is already in the form it produces: lines separated by `\n`, with no
      terminator after the last. */
  lemma RemoveEmptyLinesFixpoint(text: string)
    ensures RemoveEmptyLines(text) == text <==>
      (forall j :: 0 <= j < |SplitLines(text)| ==> !IsBlank(SplitLines(text)[j]))
      && JoinLines(SplitLines(text)) == text
  {
    var lines := SplitLines(text);
    NonBlankLinesIdentity(lines);
    if RemoveEmptyLines(text) == text {
      RemoveEmptyLinesSplitsBack(text);
    }
  }

  /** Texts without a blank line that the filter still changes: a final
      terminator is dropped and a `\r\n` terminator becomes `\n`. */
  lemma TerminatorsNormalised(x: string, y: string)
    requires NoLineBreak(x) && NoLineBreak(y) && !IsBlank(x) && !IsBlank(y)
    ensures RemoveEmptyLines(x + "\n") == x
    ensures RemoveEmptyLines(x + "\r\n" + y) == x + "\n" + y
  {
    FinalTerminatorDropped(x);
    CrLfBecomesLf(x, y);
  }

  lemma FinalTerminatorDropped(x: string)
    requires NoLineBreak(x) && !IsBlank(x)
    ensures RemoveEmptyLines(x + "\n") == x
  {
    assert SplitLines(x + "\n") == [x] by {
      assert x + "\n" == x + "\n" + [];
      SplitLinesCons(x, []);
    }
    AllKeptStayKept([x]);
  }

  lemma CrLfBecomesLf(x: string, y: string)
    requires NoLineBreak(x) && NoLineBreak(y) && !IsBlank(x) && !IsBlank(y)
    ensures RemoveEmptyLines(x + "\r\n" + y) == x + "\n" + y
  {
    assert SplitLines(x + "\r\n" + y) == [x, y] by {
      SplitLinesConsCrLf(x, y);
      SplitLinesSingle(y);
    }
    AllKeptStayKept([x, y]);
    assert JoinLines([x, y]) == x + "\n" + JoinLines([y]);
  }

  // ---------------------------------------------------------------------------
  // _regex_replace
  // ---------------------------------------------------------------------------

  /** `_regex_replace`: the substituted text, or, when the engine raises
      `re.error`, the message after "Regex Error: "; no error escapes. */
  function RegexReplace(text: string, pattern: string, replacement: string, sub: RegexSub): (r: string)
    ensures sub(pattern, replacement, text).Substituted? ==> r == sub(pattern, replacement, text).text
    ensures sub(pattern, replacement, text).RegexError? ==>
      r == "Regex Error: " + sub(pattern, replacement, text).message
  {
    match sub(pattern, replacement, text)
    case Substituted(t) => t
    case RegexError(m) => "Regex Error: " + m
  }

  // ---------------------------------------------------------------------------
  // _get_line_by_index
  // ---------------------------------------------------------------------------

  /** The outcome of Python's `lines[index]`. */
  datatype Lookup = Found(line: string) | IndexError

  /** Python list indexing: a negative index counts from the end; anything
      outside `-|lines| .. |lines| - 1` raises `IndexError`. */
  function GetItem(lines: seq<string>, index: int): (r: Lookup)
    ensures r.Found? <==> -|lines| <= index < |lines|
    ensures r.Found? ==> r.line in lines
  {
    if 0 <= index < |lines| then Found(lines[index])
    else if -|lines| <= index < 0 then Found(lines[|lines| + index])
    else IndexError
  }

  /** The placeholder reported for an index with no line. */
  function MissingLine(index: int): (r: string)
    ensures |r| > 22 && r[..12] == "Error: Line " && r[|r| - 10..] == " not found"
  {
    "Error: Line " + IntToString(index) + " not found"
  }

  /** `_get_line_by_index`: the text unchanged, and its line at `index`
      (Python indexing) or the placeholder naming the index. */
  function GetLineByIndex(text: string, index: int): (r: (string, string))
    ensures r.0 == text
    ensures var lines := SplitLines(text);
      && (0 <= index < |lines| ==> r.1 == lines[index])
      && (-|lines| <= index < 0 ==> r.1 == lines[|lines| + index])
      && (index >= |lines| || index < -|lines| ==> r.1 == "Error: Line " + IntToString(index) + " not found")
  {
    match GetItem(SplitLines(text), index)
    case Found(line) => (text, line)
    case IndexError => (text, MissingLine(index))
  }

  /** The selected output is always a single line: it never holds a line break. */
  lemma SelectedLineHasNoBreak(text: string, index: int)
    ensures NoLineBreak(GetLineByIndex(text, index).1)
  {
    var lines := SplitLines(text);
    SplitLinesNoBreak(text);
    if index >= |lines| || index < -|lines| {
      MissingLineHasNoBreak(index);
    }
  }

  /** The placeholder is one line: its fixed parts and the digits of the index hold no break. */
  lemma MissingLineHasNoBreak(index: int)
    ensures NoLineBreak(MissingLine(index))
  {
    var digits := IntToString(index);
    IntToStringHasNoBreak(index);
    var prefix, suffix := "Error: Line ", " not found";
    assert NoLineBreak(prefix) && NoLineBreak(suffix);
    NoLineBreakAppend(prefix, digits);
    NoLineBreakAppend(prefix + digits, suffix);
  }

  /** At the boundary: the last line sits at `|lines| - 1`, and `|lines|` is the
      first index that yields the placeholder. */
  lemma LineIndexBoundary(text: string)
    ensures var lines := SplitLines(text);
      && GetLineByIndex(text, |lines|).1 == "Error: Line " + IntToString(|lines|) + " not found"
      && (lines != [] ==> GetLineByIndex(text, |lines| - 1).1 == lines[|lines| - 1])
  {
  }

  // ---------------------------------------------------------------------------
  // process
  // ---------------------------------------------------------------------------

  /** `process`: filter when asked, substitute when both the pattern and the
      replacement are non-empty, then select a line of the result. Returns
      `(FULL_TEXT, LINE_BY_INDEX)`. The host declares `line_index` with a
      minimum of 0, but `process` itself accepts any integer. */
  function Process(text: string, removeEmptyLines: bool, searchPattern: string, replaceWith: string,
                   lineIndex: int, sub: RegexSub): (r: (string, string))
    ensures r == GetLineByIndex(r.0, lineIndex)
    ensures !removeEmptyLines && (searchPattern == [] || replaceWith == []) ==> r.0 == text
  {
    var filtered := if removeEmptyLines then RemoveEmptyLines(text) else text;
    var processed :=
      if searchPattern != [] && replaceWith != [] then RegexReplace(filtered, searchPattern, replaceWith, sub)
      else filtered;
    GetLineByIndex(processed, lineIndex)
  }

  /** The full text does not depend on the requested index. */
  lemma FullTextIgnoresIndex(text: string, removeEmptyLines: bool, searchPattern: string, replaceWith: string,
                             i: int, j: int, sub: RegexSub)
    ensures Process(text, removeEmptyLines, searchPattern, replaceWith, i, sub).0
         == Process(text, removeEmptyLines, searchPattern, replaceWith, j, sub).0
  {
  }

  /** With an empty pattern or an empty replacement the engine is never
      consulted: the full text is the input, filtered when asked, whatever
      `re.sub` would have done. */
  lemma SubstitutionSkipped(text: string, removeEmptyLines: bool, searchPattern: string, replaceWith: string,
                            lineIndex: int, sub: RegexSub, other: RegexSub)
    requires searchPattern == [] || replaceWith == []
    ensures var r := Process(text, removeEmptyLines, searchPattern, replaceWith, lineIndex, sub);
      && r == Process(text, removeEmptyLines, searchPattern, replaceWith, lineIndex, other)
      && r.0 == if removeEmptyLines then RemoveEmptyLines(text) else text
  {
  }

  /** With both a pattern and a replacement, the engine runs on the filtered
      text; when it raises, the whole full text becomes "Regex Error: " and the
      message, and the call still returns normally. */
  lemma SubstitutionApplied(text: string, removeEmptyLines: bool, searchPattern: string, replaceWith: string,
                            lineIndex: int, sub: RegexSub)
    requires searchPattern != [] && replaceWith != []
    ensures var filtered := if removeEmptyLines then RemoveEmptyLines(text) else text;
      var outcome := sub(searchPattern, replaceWith, filtered);
      var r := Process(text, removeEmptyLines, searchPattern, replaceWith, lineIndex, sub);
      && (outcome.Substituted? ==> r.0 == outcome.text)
      && (outcome.RegexError? ==> r.0 == "Regex Error: " + outcome.message)
  {
  }

  /** Filtering without substitution leaves no blank line in the full text. */
  lemma FilteredFullTextHasNoBlankLine(text: string, searchPattern: string, replaceWith: string,
                                       lineIndex: int, sub: RegexSub)
    requires searchPattern == [] || replaceWith == []
    ensures var full := Process(text, true, searchPattern, replaceWith, lineIndex, sub).0;
      forall j :: 0 <= j < |SplitLines(full)| ==> !IsBlank(SplitLines(full)[j])
  {
    RemoveEmptyLinesHasNoBlankLine(text);
  }
}
