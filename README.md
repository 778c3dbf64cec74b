# Text processor node, modelled in Dafny

This project models `TextProcessorNode`, a node for a node-graph media pipeline that
takes a block of text and returns two strings, `FULL_TEXT` and `LINE_BY_INDEX`. Its
`process` method runs three stages in a fixed order:

1. when `remove_empty_lines` is set, a blank-line filter: split the text into lines,
   keep the lines whose `strip()` is non-empty, join them with `"\n"`;
2. when both `search_pattern` and `replace_with` are non-empty, one `re.sub` pass over
   the whole text, where a raised `re.error` turns the whole text into
   `"Regex Error: <message>"`;
3. line selection: the processed text is returned unchanged, together with its line at
   `line_index`, or `"Error: Line <index> not found"` when there is no such line.

The node keeps no state, so every stage is a Dafny function over `string` (`seq<char>`)
and `seq<string>`, and the properties are lemmas about those functions.

- `PyStr.dfy` (module `PyStr`) models the Python built-ins the node relies on:
  `str.splitlines()`, `str.strip()`, `"\n".join(...)` and the decimal rendering of an
  `int` in an f-string. Line breaks are Python's `splitlines` set: `\n`, `\r`, `\r\n`
  (one break), `\v`, `\f`, `\x1c`, `\x1d`, `\x1e`, `\x85`, U+2028 and U+2029.
  Whitespace is the `str.isspace()` set: U+0009 to U+000D, U+001C to U+0020, U+0085,
  U+00A0, U+1680, U+2000 to U+200A, U+2028, U+2029, U+202F, U+205F and U+3000.
  Both are written as constant sets of characters. The recursive helpers
  (`LineEnd`, `StripLeading`, `StripTrailing`) state what they compute in companion
  lemmas (`LineEndSpec`, `StripLeadingSpec`, `StripTrailingSpec`).
- `TextProcessorNode.dfy` (module `TextProcessorNode`) models the three stages and
  `process`. `re.sub` is a parameter `sub: RegexSub`, a function from
  `(pattern, replacement, text)` to `Substituted(text)` or `RegexError(message)`.
- `Examples.dfy` (module `TextProcessorExamples`) holds worked examples of `process`,
  stated and proved as lemmas.

Two consequences of the code that a reader of the node might not expect:

- `_get_line_by_index` does not reject a negative index: `lines[index]` uses Python's
  list indexing, so an index in `-len(lines) .. -1` selects a line counted from the
  end, and only smaller indices raise `IndexError` and give the placeholder. The host
  declares `min: 0` for `line_index`, but `process` itself does not check it and
  handles negative integers, so the model takes an `int` with no precondition and
  states the negative case (`GetLineByIndex`). Integers too large for Python to
  render are the exception; see `IntToString` under "## Left out".
- A text without blank lines can still change when the filter is on: the filter
  rewrites every terminator (`\r\n`, `\r`, `\v`, ...) as a single `"\n"` and drops a
  final terminator. `RemoveEmptyLinesFixpoint` states exactly which texts it leaves
  unchanged, and `TerminatorsNormalised` gives texts without blank lines that it
  changes.

## Model

| member | source | states |
|---|---|---|
| `PyStr.LineEnd` | Comfyui-Text_Processor_Node/TextProcessorNode.py:76 | the search inside `splitlines()` for the end of the first line; it never passes the end of the text, and `LineEndSpec` states that it stops at the first line break |
| `PyStr.LineEndSpec` | Comfyui-Text_Processor_Node/TextProcessorNode.py:76 | a line of `splitlines()` ends at the first line-break character: none before it, and one there unless the text ends first |
| `PyStr.SplitLines` | Comfyui-Text_Processor_Node/TextProcessorNode.py:76 | `splitlines()`: the text has no lines exactly when it is empty |
| `PyStr.SplitLinesNoBreak` | Comfyui-Text_Processor_Node/TextProcessorNode.py:76 | no line that `splitlines()` returns holds a line-break character |
| `PyStr.JoinLines` | Comfyui-Text_Processor_Node/TextProcessorNode.py:75 | `"\n".join(lines)`: no lines give `""`, and the result has at least `len(lines) - 1` characters; `SplitJoinRoundTrip`, `JoinSplitRoundTrip`, `JoinSplitRoundTripOnlyIf` and `JoinLinesShape` state where the `\n`s go and how it relates to `splitlines()` |
| `PyStr.SplitJoinRoundTrip` | Comfyui-Text_Processor_Node/TextProcessorNode.py:75-77 | splitting `"\n".join(lines)` gives the lines back when no line holds a break and the last is non-empty |
| `PyStr.JoinSplitRoundTrip` | Comfyui-Text_Processor_Node/TextProcessorNode.py:75-77 | joining the lines of a text with `"\n"` gives the text back when its only breaks are `\n`s that do not end it |
| `PyStr.JoinSplitRoundTripOnlyIf` | Comfyui-Text_Processor_Node/TextProcessorNode.py:75-77 | the converse: when joining the lines of a text with `"\n"` gives it back, every break in it is a `\n` and none ends it, so a `\r\n`, any other terminator or a final terminator comes back changed |
| `PyStr.JoinLinesShape` | Comfyui-Text_Processor_Node/TextProcessorNode.py:75 | joining non-empty break-free lines gives a text whose breaks are single `\n`s strictly inside it, never two in a row |
| `PyStr.Strip` | Comfyui-Text_Processor_Node/TextProcessorNode.py:76 | `line.strip()`: never longer than the line; `StripEmptyIffBlank` states when it is empty |
| `PyStr.StripLeading` | Comfyui-Text_Processor_Node/TextProcessorNode.py:76 | `lstrip()`, the left half of `strip()`: never longer than its input; `StripLeadingSpec` states what it keeps |
| `PyStr.StripTrailing` | Comfyui-Text_Processor_Node/TextProcessorNode.py:76 | `rstrip()`, the right half of `strip()`: never longer than its input; `StripTrailingSpec` states what it keeps |
| `PyStr.StripLeadingSpec` | Comfyui-Text_Processor_Node/TextProcessorNode.py:76 | the left half of `strip()`: a suffix of the input, everything dropped is whitespace, and what is left does not start with whitespace |
| `PyStr.StripTrailingSpec` | Comfyui-Text_Processor_Node/TextProcessorNode.py:76 | the right half of `strip()`: a prefix of the input, everything dropped is whitespace, and what is left does not end with whitespace |
| `PyStr.StripEmptyIffBlank` | Comfyui-Text_Processor_Node/TextProcessorNode.py:76 | `line.strip()` is falsy exactly when every character of the line is whitespace |
| `PyStr.NatToDecimal` | Comfyui-Text_Processor_Node/TextProcessorNode.py:92 | the digits of a natural number: at least one, no leading zero, and their decimal value is the number |
| `PyStr.IntToString` | Comfyui-Text_Processor_Node/TextProcessorNode.py:92 | `f"{index}"`: non-empty, with a leading minus exactly for a negative index |
| `PyStr.IntToStringInjective` | Comfyui-Text_Processor_Node/TextProcessorNode.py:92 | two indices with the same rendering are equal, so the placeholder identifies the index |
| `TextProcessorNode.KeepsLine` | Comfyui-Text_Processor_Node/TextProcessorNode.py:76 | the condition `if line.strip()`: a line is kept exactly when it has a non-whitespace character |
| `TextProcessorNode.NonBlankLines` | Comfyui-Text_Processor_Node/TextProcessorNode.py:76 | the comprehension `[line for line in ... if line.strip()]`: never more lines than it was given; `NonBlankLinesKept`, `NonBlankLinesCount`, `NonBlankLinesIsSubsequence`, `NonBlankLinesAppend` and `NonBlankLinesIdentity` state exactly which lines it keeps |
| `TextProcessorNode.RemoveEmptyLines` | Comfyui-Text_Processor_Node/TextProcessorNode.py:73-77 | `_remove_empty_lines`: the empty text stays empty; the `RemoveEmptyLines...` lemmas and `TerminatorsNormalised` below state its other properties |
| `TextProcessorNode.NonBlankLinesKept` | Comfyui-Text_Processor_Node/TextProcessorNode.py:76 | every kept line is non-blank and is a line of the input |
| `TextProcessorNode.NonBlankLinesCount` | Comfyui-Text_Processor_Node/TextProcessorNode.py:76 | a non-blank line is kept exactly as often as it occurs, a blank line never: nothing but blank lines is dropped |
| `TextProcessorNode.NonBlankLinesIsSubsequence` | Comfyui-Text_Processor_Node/TextProcessorNode.py:76 | the kept lines appear in the input in the same relative order |
| `TextProcessorNode.NonBlankLinesAppend` | Comfyui-Text_Processor_Node/TextProcessorNode.py:76 | the comprehension works line by line: filtering a concatenation concatenates the filtered parts |
| `TextProcessorNode.NonBlankLinesIdentity` | Comfyui-Text_Processor_Node/TextProcessorNode.py:76 | the comprehension returns its input exactly when no line is blank |
| `TextProcessorNode.RemoveEmptyLinesSplitsBack` | Comfyui-Text_Processor_Node/TextProcessorNode.py:73-77 | the filtered text splits back into exactly the non-blank input lines, in order |
| `TextProcessorNode.RemoveEmptyLinesHasNoBlankLine` | Comfyui-Text_Processor_Node/TextProcessorNode.py:73-77 | no line of the filtered text is empty or whitespace-only |
| `TextProcessorNode.RemoveEmptyLinesShape` | Comfyui-Text_Processor_Node/TextProcessorNode.py:75-77 | the filtered text neither starts nor ends with a line break, and its breaks are single `\n`s |
| `TextProcessorNode.RemoveEmptyLinesEmpty` | Comfyui-Text_Processor_Node/TextProcessorNode.py:75-77 | the filter gives `""` exactly when every input line is blank, which includes the empty input |
| `TextProcessorNode.RemoveEmptyLinesIdempotent` | Comfyui-Text_Processor_Node/TextProcessorNode.py:73-77 | filtering twice equals filtering once |
| `TextProcessorNode.RemoveEmptyLinesFixpoint` | Comfyui-Text_Processor_Node/TextProcessorNode.py:73-77 | the filter leaves a text unchanged exactly when no line is blank and joining its lines with `\n` gives the text back |
| `TextProcessorNode.TerminatorsNormalised` | Comfyui-Text_Processor_Node/TextProcessorNode.py:75-77 | without any blank line, `x + "\n"` still becomes `x` and `x + "\r\n" + y` becomes `x + "\n" + y` |
| `TextProcessorNode.RegexReplace` | Comfyui-Text_Processor_Node/TextProcessorNode.py:79-84 | a successful `re.sub` result is returned as is; a raised `re.error` becomes `"Regex Error: "` followed by its message and does not escape |
| `TextProcessorNode.GetItem` | Comfyui-Text_Processor_Node/TextProcessorNode.py:90-91 | `lines[index]`: a line exactly when `-len(lines) <= index < len(lines)`, and that line is one of `lines`; otherwise `IndexError` |
| `TextProcessorNode.MissingLine` | Comfyui-Text_Processor_Node/TextProcessorNode.py:92 | the f-string `f"Error: Line {index} not found"`: it starts with `"Error: Line "` and ends with `" not found"`; `IntToStringInjective` makes it name the index uniquely and `MissingLineHasNoBreak` keeps it on one line |
| `TextProcessorNode.GetLineByIndex` | Comfyui-Text_Processor_Node/TextProcessorNode.py:86-92 | the text comes back unchanged; the second value is `lines[index]` for `0 <= index < len(lines)`, the line counted from the end for `-len(lines) <= index < 0`, and otherwise `"Error: Line " + str(index) + " not found"` |
| `TextProcessorNode.SelectedLineHasNoBreak` | Comfyui-Text_Processor_Node/TextProcessorNode.py:86-92 | the selected value, whether a line or the placeholder, never holds a line break |
| `TextProcessorNode.MissingLineHasNoBreak` | Comfyui-Text_Processor_Node/TextProcessorNode.py:92 | the placeholder `"Error: Line <index> not found"` holds no line break, whatever the index |
| `TextProcessorNode.LineIndexBoundary` | Comfyui-Text_Processor_Node/TextProcessorNode.py:88-92 | index `len(lines) - 1` gives the last line, and index `len(lines)` gives the placeholder |
| `TextProcessorNode.Process` | Comfyui-Text_Processor_Node/TextProcessorNode.py:45-71 | `LINE_BY_INDEX` is selected from `FULL_TEXT` itself; with no filter and no substitution `FULL_TEXT` is the input |
| `TextProcessorNode.FullTextIgnoresIndex` | Comfyui-Text_Processor_Node/TextProcessorNode.py:66-71 | `FULL_TEXT` does not depend on `line_index` |
| `TextProcessorNode.SubstitutionSkipped` | Comfyui-Text_Processor_Node/TextProcessorNode.py:53-63 | with an empty pattern or replacement the engine is not consulted, and `FULL_TEXT` is the input, filtered only when `remove_empty_lines` is set |
| `TextProcessorNode.SubstitutionApplied` | Comfyui-Text_Processor_Node/TextProcessorNode.py:58-63 | with both set, `re.sub` runs on the text after the filter stage; on success `FULL_TEXT` is its result, and on `re.error` it is `"Regex Error: "` followed by the message |
| `TextProcessorNode.FilteredFullTextHasNoBlankLine` | Comfyui-Text_Processor_Node/TextProcessorNode.py:53-55 | with the filter on and no substitution, `FULL_TEXT` has no blank line |
| `TextProcessorExamples.FilterThenSelect` | Comfyui-Text_Processor_Node/TextProcessorNode.py:45-71 | `x\n\ny\nz` with the filter on and index 1 gives `(x\ny\nz, y)` for any non-blank, break-free `x`, `y`, `z` |
| `TextProcessorExamples.SubstituteOneLine` | Comfyui-Text_Processor_Node/TextProcessorNode.py:45-71 | when `re.sub("foo", "baz", "foo bar")` is `"baz bar"`, both outputs are `"baz bar"` |
| `TextProcessorExamples.IndexPastEnd` | Comfyui-Text_Processor_Node/TextProcessorNode.py:86-92 | `"x\ny"` at index 5 gives `("x\ny", "Error: Line 5 not found")` |

## Left out

- The regular-expression engine: how `re.sub` matches, expands backreferences and words
  its error messages. It is a foreign library, so it is a parameter of `Process` and
  `RegexReplace`, and the lemmas hold for every such function.
- Exceptions other than `re.error`: the code catches only `re.error`. The model's
  engine reports only that error, so anything else the engine might raise is not part
  of the model.
- `import comfy` and the node metadata `CATEGORY`, `RETURN_TYPES`, `RETURN_NAMES` and
  `INPUT_TYPES`. These are host-integration glue. Of `INPUT_TYPES`, only `min: 0` for
  `line_index` matters, and `process` does not enforce it (see above).
- `__init__.py`: the host's registration tables. It contains no logic.
- Python strings that hold lone surrogate code points: a Dafny `char` is a Unicode
  scalar value, so such strings cannot be written.
- IntToString: renders every integer, while CPython by default refuses to convert an
  integer of more than 4300 decimal digits to a string and raises `ValueError`. For
  such an index, `lines[index]` raises `IndexError` and the f-string in the handler
  then raises `ValueError`, which escapes `process`. The model returns the
  placeholder instead, so `MissingLine`, `GetLineByIndex` and `Process` are total
  where the code is not. The host's integer input never sends such a value.
- Running time, including catastrophic backtracking in the engine: it is not a
  functional property.
