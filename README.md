# Insurance document extractor: response clean-up and row structuring

A Dafny model of the two pieces of text post-processing in the insurance
document extractor. Everything else in that program is UI, network or
library plumbing.

* **`clean_json_response`** (`main.py`) takes the raw reply of the language
  model and isolates the JSON payload in it. It deletes every ```` ```json ````
  marker and then every ```` ``` ```` marker. It takes the text from the first
  `{` through the last `}`, parses it with `json.loads` and re-serialises it
  with `json.dumps(..., indent=2)`. When a brace is missing or parsing fails,
  the result is `None`.
* **`parse_extracted_text`** (`conversion.py`) splits text on `'\n'`, strips
  each piece and drops the pieces that are then empty. It evaluates each
  remaining line with `eval` and keeps, in line order, the values that are
  dicts. A line that fails to evaluate or is not a dict is skipped.
* **`build_json_structure`** (`conversion.py`) wraps the rows and the caller's
  identifiers in a dict with three sections: `project`, `file` and
  `metadata`.

Modules:

* `Wrappers` (`wrappers.dfy`) holds `Option`. `None` stands for Python's `None`
  and for a foreign call that raised.
* `PyStr` (`pystr.dfy`) models the Python `str` operations the code uses:
  `replace(marker, "")` as `Erase`, `find` and `rfind` of one character,
  slicing with non-negative bounds, `split` on one character (with `join` as
  its inverse), and `strip` with Python's whitespace set.
* `Sanitizer` (`sanitizer.dfy`) models `clean_json_response`. `json.loads` and
  `json.dumps` are the function parameters `parse: string -> Option<V>` and
  `dump: V -> string`.
* `Conversion` (`conversion.dfy`) models `parse_extracted_text` and
  `build_json_structure` over a Python value datatype `Value`. `eval` is the
  function parameter `eval: string -> Option<Value>`.

`clean_json_response` has no loop and changes nothing, so it is a chain of
functions. `parse_extracted_text` is a method that computes the lines and hands them to
the method `KeepDicts`, which holds the source's `for` loop and `append`. The loop
is proved against the specification function `Rows`,
and the lemmas are stated about `Rows`. `build_json_structure` is a single
dict literal; its lemmas read the literal back through dict lookups.

The model follows the code where the code and its descriptions differ:

* In the real pipeline, `parse_extracted_text` is given the multi-line output
  of `json.dumps(..., indent=2)` (main.py:272, main.py:211). Lines such as `{`
  or `"key": value,` are not dict literals on their own. So the model makes no
  claim that one row comes out per document.
* When the last `}` comes before the first `{`, the code slices an empty
  string rather than reporting a missing brace. So the `None` then comes from
  the parser alone.

## Model

| member | source | states |
|---|---|---|
| PyStr.Erase | main.py:196 | `replace(marker, "")` never lengthens the text |
| PyStr.EraseAbsent | main.py:196 | text without the marker is returned unchanged |
| PyStr.EraseKeepsOnly | main.py:196 | `replace(marker, "")` only deletes: every character of the result was in the text |
| PyStr.EraseAround | main.py:196 | a character that is not part of the marker splits `replace(marker, "")` into the two sides around it |
| PyStr.EraseFenceLeavesNone | main.py:196 | once every ``` is deleted, no ``` is left (a deletion cannot join backticks into a new marker) |
| PyStr.Find | main.py:199 | `find` returns -1 exactly when the character is absent, and otherwise its lowest index |
| PyStr.RFind | main.py:200 | `rfind` returns -1 exactly when the character is absent, and otherwise its highest index |
| PyStr.Slice | main.py:206 | `s[lo:hi]` is `s[lo..hi]` within bounds, is clamped at the length, and is empty when `hi <= lo` or when `lo` is at or past the end |
| PyStr.Split | conversion.py:8 | `split('\n')` gives at least one piece, and no piece contains the separator |
| PyStr.JoinSplit | conversion.py:8 | joining the pieces of a split gives back the text |
| PyStr.SplitJoin | conversion.py:8 | splitting the join of separator-free pieces gives back the pieces |
| PyStr.SplitAppend | conversion.py:8 | splitting `x + sep + y` gives the pieces of `x` followed by the pieces of `y` |
| PyStr.Strip | conversion.py:8 | `strip()` leaves no whitespace at either end, never lengthens, and gives "" exactly for all-whitespace text |
| PyStr.StripTrimsEnds | conversion.py:8 | `strip()` cuts whitespace from the two ends and nothing else: the text is whitespace, then the result, then whitespace |
| PyStr.StripKeepsOnly | conversion.py:8 | `strip()` only removes characters |
| PyStr.StripStripped | conversion.py:8 | text with no whitespace at either end is not changed by `strip()` |
| PyStr.StripIdempotent | conversion.py:8 | `strip()` is idempotent |
| Sanitizer.StripFences | main.py:196 | fence removal never lengthens the text |
| Sanitizer.StripFencesLeavesNoFence | main.py:196 | after fence removal no ``` marker remains |
| Sanitizer.JsonFenceHasFence | main.py:196 | text holding a ```` ```json ```` marker holds a ``` marker |
| Sanitizer.StripFencesKeepsOnly | main.py:196 | fence removal only deletes: every character of the result was in the text |
| Sanitizer.StripFencesAround | main.py:196 | a character that is not part of ```` ```json ```` (a brace, a quote, a line break) splits fence removal into the two sides around it |
| Sanitizer.StripFencesUnfenced | main.py:196 | text with no ``` passes through fence removal unchanged |
| Sanitizer.StripFencesAroundNoise | main.py:196 | noise with no braces or backticks on either side is kept as it is, if the trailing noise does not start with a letter of "json" |
| Sanitizer.Span | main.py:199-206 | the span is missing exactly when the text has no `{` or no `}` |
| Sanitizer.BracesLocated | main.py:199-200 | `find` and `rfind` land on the first `{` and the last `}` |
| Sanitizer.SpanBetweenBraces | main.py:199-206 | with the first `{` at i and the last `}` at j >= i, the span is the contiguous substring i..j, which starts with `{` and ends with `}` |
| Sanitizer.SpanInvertedBraces | main.py:199-206 | when the last `}` is before the first `{`, the span is empty, not missing |
| Sanitizer.BracesShift | main.py:199-200 | brace-free text around the input moves the first `{` and last `}` by the prefix length only |
| Sanitizer.SpanShift | main.py:199-206 | the span is unchanged by brace-free text on either side, when the input has both braces |
| Sanitizer.SpanShiftOrdered | main.py:199-206 | the span of `p + t + q` is `t`'s substring between the braces |
| Sanitizer.SliceShift | main.py:206 | a slice of `t` inside `p + t + q` is the same slice shifted by the length of `p` |
| Sanitizer.SpanIgnoresNoise | main.py:199-206 | brace-free text before and after does not change the span |
| Sanitizer.SpanOfBracketed | main.py:199-206 | brace-free text around `{w}` leaves the span `{w}` |
| Sanitizer.SpanOfInverted | main.py:199-206 | a `}` before a `{` with no brace between or around them gives the empty span |
| Sanitizer.Reserialise | main.py:209-213 | the result is `None` exactly when `parse` rejects the text, and otherwise `dump` of the parsed value |
| Sanitizer.CleanJsonResponse | main.py:193-213 | the result is `None` when the fence-free text has no `{`, and when it has no `}` |
| Sanitizer.CleanJsonBetweenBraces | main.py:202-213 | with both braces present, the result is `None` exactly when `parse` rejects the slice, and otherwise `dump(parse(slice))` |
| Sanitizer.CleanJsonInvertedBraces | main.py:206-213 | a last `}` before the first `{` makes the result `parse("")` re-serialised, which is `None` for a parser that rejects "" |
| Sanitizer.CleanJsonIgnoresNoise | main.py:193-213 | commentary without braces before and after the payload does not change the result, whatever else it holds (backticks and fence markers included) |
| Sanitizer.NoiseOrdered | main.py:196-206 | with the first `{` before the last `}`, brace-free noise does not change the span of the fence-free text |
| Sanitizer.NoiseInverted | main.py:196-206 | with the last `}` before the first `{`, brace-free noise does not change the (empty) span of the fence-free text |
| Sanitizer.NoiseBeforeBraces | main.py:196-206 | with no `{` before the payload and no `}` after it, the span of the fence-free text is the fence-free payload |
| Sanitizer.NoiseAroundInverted | main.py:196-206 | with the last `}` before the first `{`, the span of the fence-free text is empty |
| Sanitizer.StripFencesOfBlock | main.py:196 | removing the fences of a ```json block whose body has no backtick leaves exactly the body |
| Sanitizer.InertCannotFinishJsonFence | main.py:196 | noise that does not start with a letter of "json" cannot complete a ```json marker begun before it |
| Sanitizer.InertCannotFinishFence | main.py:196 | noise without a backtick cannot complete a ``` marker begun before it |
| Sanitizer.StripFencesOfFencedLines | main.py:196 | removing the fences of a ```json block on lines of its own, whose body holds no ```, leaves the body between its two line breaks |
| Sanitizer.SpanOfObjectLine | main.py:199-206 | the span of an object on a line of its own is the object |
| Sanitizer.CleanJsonFencedObject | main.py:193-213 | a JSON object holding no ```, fenced as ```json on lines of its own, comes out as `dump(parse(object))` |
| Sanitizer.CleanJsonFencedRoundTrip | main.py:193-213 | for an object holding no ```, when `parse` reads back what `dump` writes, parsing the cleaned fenced object gives what parsing the object gives |
| Sanitizer.FenceInsideStringLost | main.py:196 | the markers are deleted inside JSON string values too: `{"a":"```"}` becomes `{"a":""}` before it is parsed |
| Conversion.StripEach | conversion.py:8 | `[line.strip() for line in pieces]` keeps one entry per piece, in order, each the stripped piece |
| Conversion.StripEachAppend | conversion.py:8 | stripping the pieces of a concatenation strips each part's pieces in turn |
| Conversion.NonBlankStripped | conversion.py:8 | every considered line is non-empty and stripped, and there are no more lines than pieces |
| Conversion.DropEmpty | conversion.py:8 | the `if line.strip()` filter keeps only non-empty strings, and never more than it was given |
| Conversion.Lines | conversion.py:8 | every considered line is non-empty, stripped and free of line breaks, and there are no more lines than pieces of the split |
| Conversion.DropEmptyNoBreak | conversion.py:8 | dropping blank pieces keeps every line free of line breaks |
| Conversion.DropEmptyAppend | conversion.py:8 | the filter works piece by piece: filtering a concatenation concatenates the filtered parts |
| Conversion.RowOf | conversion.py:15-16 | a line contributes at most one row; it contributes one exactly when it evaluated to a dict, and that row is the evaluated value |
| Conversion.Rows | conversion.py:11-18 | every row is a dict, and there are never more rows than lines |
| Conversion.RowsOfText | conversion.py:8-18 | the rows of a text are all dicts, and there are no more of them than considered lines |
| Conversion.KeepDicts | conversion.py:11-18 | the `for`/`append` loop returns exactly `Rows` of its lines |
| Conversion.ParseExtractedText | conversion.py:1-20 | the loop returns exactly `Rows` of the considered lines: all dicts, no more rows than non-blank lines |
| Conversion.RowsOfPrefix | conversion.py:12-16 | one more iteration adds exactly that line's contribution |
| Conversion.RowsAppend | conversion.py:11-18 | rows of concatenated line lists are the concatenated rows, so order is kept and no line affects another |
| Conversion.RowsSkipLine | conversion.py:13-18 | a line that fails to evaluate or is not a dict contributes nothing and stops nothing |
| Conversion.RowsInLineOrder | conversion.py:11-18 | each row is the value of one line, the rows' lines come in increasing order, and every line whose value is a dict gives a row |
| Conversion.RowsFromStep | conversion.py:11-18 | one induction step of the row-origin property |
| Conversion.IncreasingStep | conversion.py:11-18 | one induction step of the row-order property |
| Conversion.CoversStep | conversion.py:11-18 | one induction step of the every-dict-line-gives-a-row property |
| Conversion.NonBlankStrippedAppend | conversion.py:8 | the line comprehension works piece by piece |
| Conversion.LinesAppend | conversion.py:8 | the lines of `x + "\n" + y` are the lines of `x` followed by those of `y` |
| Conversion.SplitAllSpace | conversion.py:8 | every piece of split whitespace is whitespace |
| Conversion.NonBlankStrippedOfBlanks | conversion.py:8 | whitespace pieces give no line |
| Conversion.LinesOfBlank | conversion.py:8 | whitespace-only text has no lines |
| Conversion.LinesOfOneLine | conversion.py:8 | a line without a break is considered exactly when it is not blank, and then stripped |
| Conversion.RowsOfOneLine | conversion.py:8-18 | a text without a line break gives no row when blank, and otherwise exactly the contribution of its stripped form |
| Conversion.MalformedLineAlone | conversion.py:13-18 | a single malformed line gives no row, and the text still yields a (empty) list |
| Conversion.DictLineAlone | conversion.py:13-16 | a single line whose stripped form evaluates to a dict gives exactly that dict as the only row |
| Conversion.BlankLineIgnored | conversion.py:8-18 | a blank line gives no row and leaves the rows of the other lines as they are |
| Conversion.MalformedLineSkipped | conversion.py:8-18 | a malformed line contributes nothing, and later well-formed lines still give their rows |
| Conversion.MalformedThenDict | conversion.py:8-18 | a malformed line followed by a dict-literal line gives exactly the one row of that dict |
| Conversion.ReparseRows | conversion.py:8-18 | re-parsing rows printed one per line by a printer that `eval` reads back gives the same rows |
| Conversion.NonBlankStrippedOfLines | conversion.py:8 | non-empty stripped lines pass through the comprehension unchanged |
| Conversion.RowsOfPrinted | conversion.py:11-18 | lines that evaluate to the given dicts give exactly those dicts |
| Conversion.BuildJsonStructure | conversion.py:25-48 | the envelope's keys are exactly project, file and metadata, in that order |
| Conversion.LookupThree | conversion.py:32-36 | each key of a three-entry dict literal with distinct keys finds its own value |
| Conversion.LookupFour | conversion.py:37-42 | each key of a four-entry dict literal with distinct keys finds its own value |
| Conversion.AtPair | conversion.py:31-48 | a two-step path into the envelope is a lookup inside a lookup |
| Conversion.EnvelopeSectionsFound | conversion.py:31-48 | the sections project, file and metadata hold exactly their fixed sub-dicts |
| Conversion.EnvelopeShape | conversion.py:31-48 | the envelope has exactly the keys project, file, metadata, and each section exactly its fixed sub-keys, for every argument, including empty rows |
| Conversion.EnvelopeSlots | conversion.py:31-47 | every argument is found verbatim in its slot, and `table_rows` is unchanged under metadata.rows |
| Conversion.EnvelopeWithoutRows | conversion.py:25-48 | with no rows and sample identifiers, the envelope is exactly the expected nested dict, with metadata.rows the empty list |

## Left out

- `pdf_to_images` (main.py:189-191) is not modelled. It rasterises PDF pages through PyMuPDF and PIL, which are foreign libraries.
- `main()` (main.py:215-290) is not modelled. It is the Streamlit UI, the file upload, the API-key lookup (`load_dotenv`, `os.getenv`) and the Gemini network call with its generation settings.
- `SYSTEM_PROMPT` (main.py:16-187) is a static string. Its 27-field schema is not checked anywhere in the code, so no schema validation is modelled.
- The internals of `json.loads`, `json.dumps` and `eval` are not modelled. They are foreign calls and appear as the function parameters `parse`, `dump` and `eval`. `eval` returns `None` for any exception, as the bare `except` of conversion.py:17-18 catches every error. `dump` is assumed not to raise.
- Sanitizer.Reserialise: `parse` is `None` for every error of `json.loads`. The source catches only `json.JSONDecodeError` (main.py:212); any other error (a `RecursionError` on deep nesting, a `ValueError` beyond the integer-digit limit) propagates out of `clean_json_response` (main.py:210). The model folds those errors into `None` as well.
- Conversion.RowsAppend: `eval` is modelled as a pure function of the line. The real `eval(line)` (conversion.py:14) runs in the function's own scope: a line can read or change `table_rows` and `lines`, and `locals()` evaluates to a dict. So "no line affects another" holds for the model's `eval` only.
- The outer `except ... return []` of `parse_extracted_text` (conversion.py:21-23) is not modelled. Only a non-string input reaches it, and the model's types exclude that. Its `print` is I/O.
- PyStr.Erase: models `replace` only for a non-empty marker with an empty replacement, which is the only way the code calls it.
- PyStr: a Python `str` is a sequence of code points and may hold lone surrogates (U+D800 to U+DFFF), but a Dafny `char` is a Unicode scalar value, so such strings are not modelled. Nothing here treats them specially: they are neither whitespace, nor part of a marker, nor braces.
- PyStr.Slice: models non-negative bounds only. Python's negative indices never arise here.
- Sanitizer.CleanJsonFencedObject: requires an object holding no ```. main.py:196 deletes the markers everywhere, inside JSON string values too, so an object holding ``` in a string is changed before it is parsed (`FenceInsideStringLost`), and the fenced round trip does not hold for it.
- Conversion.Value: Python values other than dicts, lists, strings, integers, booleans and `None` are lumped together as `Other`. Only the dict test matters to the rows.
- Conversion.Get: looks up the first entry with the key. Python dicts never hold a key twice, and every dict built here has distinct keys.
