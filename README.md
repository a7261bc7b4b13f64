# Quiz recovery and tabulation, modelled in Dafny

This project models the JSON-recovery and tabulation layer of the MCQ generator,
`src/mcqgenerator/utils.py`. It covers two functions.

- `extract_json_from_text` pulls one JSON value out of noisy model output. It rejects a non-string, strips
  the text, and then tries three strategies in a fixed order:
  1. The first fenced code block.
  2. A depth-counting scan from the first `{` or `[`.
  3. The greedy span from the first `{` to the last `}`.

  If all three fail, it raises `ValueError`.
- `get_table_data` turns a quiz into rows `{"MCQ", "Choices", "Correct"}`. A dict is used as it is. A string
  goes to `json.loads` and, only when that fails, to `extract_json_from_text`. Any failure turns the whole
  result into `False`.

Files, one module each:

- `wrappers.dfy`: `Option` and `Result`.
- `json.dfy`: decoded JSON values (`JValue`; objects are ordered key/value lists, so dict order is kept),
  the argument a caller passes (`Arg`: a str, a dict or anything else), and `Str`, the f-string rendering
  of a value.
- `text.dfy`: `str.isspace`, `str.strip`, character counts and searches.
- `recovery.dfy`: `extract_json_from_text`.
  - The two regular expressions become concrete scans: `FencedMatch` and `GreedyBraceSpan`. Lemmas prove
    that each is exactly what Python's backtracking search reports.
  - The two loops are methods with invariants: `FindStart` and `ScanBalanced`.
  - `ExtractJson` is the whole chain as a function.
  - `ExtractJsonFromText` and `RecoverFromBrackets` run it step by step, as the source does. The work is
    split between two methods to keep each proof small.
- `table.dfy`: `get_table_data`.
  - `GetTableData` is the appending loop.
  - `TableData` and `RowsOf` are its specification.
  - The lemmas state the input routing and the all-or-nothing behaviour.
- `scenarios.dfy`: concrete and general examples: any fenced quiz inside prose, and the rendering of two
  options. It also shows a case that is not recovered: a malformed object followed by a well-formed one.

The parts that are foreign to this code are function parameters:
- `loads: string -> Option<JValue>` is `json.loads`. `None` means it raised.
- `repr: JValue -> string` is Python's `str()` of a float, a list or a dict.

`str()` of strings, `None`, booleans and integers is written out.

Behaviour worth knowing, all taken from the code:
- The fence tag `json` is optional, and it is matched case-insensitively. Python's case-insensitive
  matching also lets the long s (U+017F) stand for `s`.
- Only the first fenced block is ever tried. Of the ways the pattern can match, Python takes the leftmost
  opening fence first, then the tag over no tag, then the longest whitespace run, then the shortest group
  (`Recovery.FencedMatchIsSearch`).
- Every candidate of the depth scan starts at the first bracket (utils.py:158). A malformed first object
  followed by a well-formed second one is therefore not recovered by the scan. The greedy span then covers
  both objects, so the call fails (`Scenarios.SecondObjectNotRecovered`).
- The scan counts only the bracket it started at and that bracket's closer. The other bracket kind is
  treated like any other character. String literals get no special treatment: a bracket of the scanned
  kind inside a string changes the depth like any other, so for `{"a":"}"}` the scan first tries
  `{"a":"}` and never returns to depth zero at the real end (`Scenarios.BraceInStringCounts`).
- get_table_data does not check that `correct` names one of the options, and it does not sort keys.

## Model

| member | source | states |
|---|---|---|
| `Text.StripBounds` | src/mcqgenerator/utils.py:126 | `strip()` keeps one slice of the text. Only whitespace lies before and after it, and a non-empty slice starts and ends with a non-whitespace character |
| `Text.StripTrims` | src/mcqgenerator/utils.py:126 | what `strip()` returns is no longer than the text and neither starts nor ends with whitespace. It is empty exactly when the whole text is whitespace |
| `Text.StripUnique` | src/mcqgenerator/utils.py:126 | any slice with only whitespace before and after it, that is empty or starts and ends with a non-whitespace character, is the one `strip()` keeps |
| `Text.StripKeepsTrimmed` | src/mcqgenerator/utils.py:126 | a text with no whitespace at either end is left unchanged by `strip()` |
| `Text.StripAround` | src/mcqgenerator/utils.py:126 | stripping prose + x + prose, where x starts and ends with non-whitespace, removes only the leading whitespace of the first prose and the trailing whitespace of the second |
| `Text.StripAfterSkip` | src/mcqgenerator/utils.py:130-132 | dropping the leading whitespace first (as the `\s*` of the fence pattern does) does not change what `strip()` keeps |
| `Text.IsSpaceIsPythonWhitespace` | src/mcqgenerator/utils.py:126-130 | the characters counted as whitespace are exactly those for which `str.isspace()` holds, which are also what `\s` matches in a str pattern: `\t \n \v \f \r`, `\x1c`-`\x1f`, the space, U+0085, U+00A0, U+1680, U+2000-U+200A, U+2028, U+2029, U+202F, U+205F and U+3000 |
| `Text.SkipSpaceIs` | src/mcqgenerator/utils.py:130 | the whitespace run that `\s*` takes from i ends at the one q where all of `[i, q)` is whitespace and `q` is the end or holds a non-whitespace character |
| `Text.FindFrom` | src/mcqgenerator/utils.py:130 | returns the first position at or after `from` where the pattern occurs, or says that it occurs nowhere after `from` |
| `Recovery.FencedMatch` | src/mcqgenerator/utils.py:130 | any span it reports is a real match of the fence pattern: opening fence, optional `json` tag, whitespace, group, closing fence |
| `Recovery.JsonTagIsCaseless` | src/mcqgenerator/utils.py:130 | the optional tag `json` matches, under `re.IGNORECASE`, exactly the four characters that fold one by one onto `j`, `s`, `o`, `n` (capitals fold to small letters, the long s U+017F to `s`) |
| `Recovery.FencedMatchIsSearch` | src/mcqgenerator/utils.py:130-132 | a fence match exists exactly when `FencedMatch` finds one. The match it reports is the one Python's search prefers: leftmost opening fence, then the tag, then the longest whitespace run, then the shortest group. So only the first fenced block is tried |
| `Recovery.ExtractFencePriority` | src/mcqgenerator/utils.py:130-137 | when the stripped group of the first fenced block decodes, that value is returned, whatever the rest of the text holds |
| `Recovery.ExtractRejectsNonString` | src/mcqgenerator/utils.py:123-124 | any non-string argument raises the error whose `Message` is "Expected text to be a string", whatever it holds |
| `Recovery.FirstBracket` | src/mcqgenerator/utils.py:140-146 | returns the index of the first `{` or `[` (none before it), or says there is none |
| `Recovery.FindStart` | src/mcqgenerator/utils.py:140-146 | the loop that stops at the first `{` or `[` finds exactly that index, or none |
| `Recovery.ExtractNoStart` | src/mcqgenerator/utils.py:139-146 | the error whose `Message` is "No JSON object found in text" is raised exactly when the fence step does not return and the stripped text has no `{` and no `[` |
| `Recovery.BalancedEnd` | src/mcqgenerator/utils.py:148-163 | returns the first closer j at which the open and close counts of `s[start..j+1]` are equal and that candidate decodes. Every earlier equal-count closer gives a candidate that does not decode. If no such j exists, no equal-count candidate decodes |
| `Recovery.DepthStep` | src/mcqgenerator/utils.py:152-156 | reading `s[j]` moves the count of a character by one only when `s[j]` is that character |
| `Recovery.DepthAfter` | src/mcqgenerator/utils.py:152-157 | after reading `s[j]`, the depth goes up by one on the opener, down by one on its closer and is otherwise unchanged. `j` is a depth-zero closer exactly when `s[j]` is the closer and the new depth is zero |
| `Recovery.ScanBalanced` | src/mcqgenerator/utils.py:148-163 | the loop keeps `depth` equal to the number of openers minus the number of closers read so far. It returns the decoding of the first depth-zero candidate that decodes, or nothing |
| `Recovery.DepthIgnoresOtherCharacters` | src/mcqgenerator/utils.py:153-156 | two texts that hold the opener and the closer at the same positions have the same counts of both. Characters other than the opener and its closer never change the depth |
| `Recovery.ClosesAtIgnoresOtherCharacters` | src/mcqgenerator/utils.py:149-157 | the depth-zero closers of the scan do not depend on the other bracket kind or on any other character |
| `Recovery.ExtractFromBalancedScan` | src/mcqgenerator/utils.py:148-163 | when the fence step does not return, the result is the decoding of `s[start..j+1]`. Here `start` is the first bracket and `j` is the first equal-count closer whose candidate decodes |
| `Recovery.BalancedEndAt` | src/mcqgenerator/utils.py:157-160 | when the closer j is the first depth-zero closer whose candidate decodes, the scan stops there |
| `Recovery.GreedyBraceSpan` | src/mcqgenerator/utils.py:166 | any span it reports has a `{` at its start and a `}` at its end |
| `Recovery.GreedyBraceSpanIsSearch` | src/mcqgenerator/utils.py:166-169 | a span with `{` before `}` exists exactly when one is reported. The reported span starts at the first `{` and ends at the last `}` |
| `Recovery.ExtractLastResort` | src/mcqgenerator/utils.py:165-173 | when no earlier step returns, the result is the decoding of the greedy span. The error whose `Message` is "Could not extract a valid JSON object from the text" is raised exactly when that span is absent or does not decode |
| `Recovery.ExtractJsonFromText` | src/mcqgenerator/utils.py:116-173 | the method computes the strategy chain `ExtractJson` |
| `Recovery.RecoverFromBrackets` | src/mcqgenerator/utils.py:139-173 | the bracket steps compute `AfterFence`: the scan from the first bracket, then the greedy span, then the error |
| `Table.Lookup` | src/mcqgenerator/utils.py:98 | `d[key]` returns a value stored under that key. It is absent exactly when no entry has that key, which is where Python raises KeyError |
| `Table.ChoicesEnds` | src/mcqgenerator/utils.py:99-104 | the rendered options are empty exactly when there are no options. Otherwise they start with the first option's `"{label}-> {text}"` and end with the last one's |
| `Table.ChoicesAppend` | src/mcqgenerator/utils.py:99-104 | rendering two runs of options together gives each run's rendering joined by one separator (space, two bars, space). Every option appears once, in order, whatever the number of options |
| `Table.ChoicesSnoc` | src/mcqgenerator/utils.py:99-104 | one more option adds the separator and `"{label}-> {text}"` at the end, or is the whole string when it is the only option |
| `Json.StrRendering` | src/mcqgenerator/utils.py:101 | the f-string rendering of an option value: a string is itself, `None` is "None", booleans are "True" and "False", an integer is an optional minus sign (present exactly when it is negative) followed by decimal digits whose value is the integer. Floats, lists and dicts go to `repr` |
| `Json.Decimal` | src/mcqgenerator/utils.py:101 | the decimal digits of a natural number: non-empty, digits only, no leading zero, and reading them back gives the number |
| `Table.RowsOf` | src/mcqgenerator/utils.py:94-109 | rows exist exactly when every entry has `mcq`, a dict of `options` and `correct`. Then there is one row per entry, in order, built from that entry |
| `Table.TableDataSpec` | src/mcqgenerator/utils.py:80-113 | get_table_data succeeds exactly when the quiz it obtains is a dict of well-formed questions. Row i then holds entry i's `mcq`, its rendered `options` and its `correct`. An empty quiz gives an empty list |
| `Table.DictIsUsedDirectly` | src/mcqgenerator/utils.py:83-84 | a dict argument is walked as it is, with no decoding |
| `Table.QuizRouting` | src/mcqgenerator/utils.py:83-93 | a dict is used as it is. A string json.loads decodes gives that value, and recovery is never tried. A string it cannot decode is handed to extract_json_from_text, whose value is used. There is no quiz exactly when the argument is neither a str nor a dict, or when both decoding and recovery fail |
| `Table.OneBadEntrySpoilsTable` | src/mcqgenerator/utils.py:97-113 | a single malformed entry makes the result False, whatever the other entries hold (never a partial list) |
| `Table.GetTableData` | src/mcqgenerator/utils.py:80-113 | the appending loop computes `TableData`. Each row it appends is the projection of one entry, and it returns False at the first failure |
| `Scenarios.TwoOptionsRendered` | src/mcqgenerator/utils.py:99-104 | options a→"3", b→"4" render as `a-> 3`, the separator, then `b-> 4` |
| `Scenarios.FenceFoundAt` | src/mcqgenerator/utils.py:130 | a fence with no backquote before it (from a given position) is the first fence found from there |
| `Scenarios.NoBackquoteNoFence` | src/mcqgenerator/utils.py:130-131 | a text without a backquote has no fenced block |
| `Scenarios.WrappedBlockIsFound` | src/mcqgenerator/utils.py:130-132 | for any prose before the block with no backquote and any body with no backquote, the group captured from prose + "```json" + body + "```" + prose is body without its leading whitespace, which the `\s*` before the group takes |
| `Scenarios.FencedJsonIsRecovered` | src/mcqgenerator/utils.py:126-134 | for any body with no backquote whose stripped text json.loads decodes, that body in a json-tagged fence, with prose around it, is recovered as exactly that decoding |
| `Scenarios.SecondObjectNotRecovered` | src/mcqgenerator/utils.py:148-173 | for `{,} {}`, with a decoder that accepts only `{}`, extraction raises the error whose `Message` is "Could not extract a valid JSON object from the text". The well-formed second object is never tried on its own |
| `Scenarios.BraceInStringCounts` | src/mcqgenerator/utils.py:153-157 | a brace inside a string literal counts toward the depth: in `{"a":"}"}` the scan reaches depth zero at the `}` inside the string, and not at the final `}` |

## Left out

- `read_file` (src/mcqgenerator/utils.py:8-78) is not part of this model. It reads files and PDFs through PyPDF2.
- The internals of `json.loads` are a foreign library. They are the parameter `loads`, and every exception
  it raises counts as a decode failure. In get_table_data an exception other than JSONDecodeError
  (a RecursionError on deeply nested input) would return False without recovery. The model does not
  distinguish that case.
- `bytes` and `bytearray` arguments, which `json.loads` also accepts, are not modelled. Every non-str,
  non-dict argument is `OtherArg`, for which json.loads raises TypeError and get_table_data returns False.
- Python's `str()` of floats, lists and dicts is the parameter `repr`, because its quoting and number
  formatting are foreign.
- A Python dict has distinct keys. Its model is an association list, and `Lookup` takes the first entry
  with the key. The model does not require the keys to be distinct.
- `traceback.print_exception` (src/mcqgenerator/utils.py:112) only logs.
- The distinct exception types inside get_table_data (KeyError, TypeError, AttributeError) are not kept.
  All of them give the single result `None`, which stands for `False`.
- StreamlitAPP.py and run_example.py are not part of this model. They hold the UI, the configuration, the
  language-model calls and the cost estimates. They only call the two modelled functions.
