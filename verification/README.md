# Hierarchical table cleaner and JSON reply extractor, in Dafny

This project models the core of a spreadsheet-to-JSON service.

- **The table cleaner.** `HierarchicalCleaner.get_clean_dataframe` takes a grid whose header spans several rows, may contain merged cells, and uses Persian digits and separators. It turns the grid into a flat, typed table in five stages:
  1. per-cell normalisation (`_normalize_value`);
  2. detection of the first data row (`_detect_start`);
  3. header resolution, by forward-filling and joining the header rows, and data extraction (`dropna`);
  4. explosion of multi-valued columns (`_explode_multivalues`);
  5. numeric type inference (`_infer_types`).
- **The JSON extractor.** `LLMJsonEngine._clean_json_response` pulls the JSON text out of a language model's reply. It tries a fenced code block first, then the text from the first `{` to the last `}`, then the whole reply, stripped.

Everything is pure functions over immutable values:

- A cell after normalisation is `Empty` (NaN), `Num(lit)`, `Text(s)`, or `List(items)`. `Num(lit)` keeps the literal the numeric pattern accepted rather than a float. `List(items)` appears only between the split and the `explode` of one column.
- A grid is a `seq<seq<Option<string>>>` with a width. A table is a list of names plus rectangular rows.

The modules follow the pipeline:

| module | file | models |
|---|---|---|
| `Text` | text.dfy | `str.strip`, the whitespace and digit classes, `str.lower`, `" | ".join`, `str(int)`, `unique()` |
| `Cells` | cells.dfy | cells, tables, columns, `dropna().astype(str)` |
| `Normalization` | normalization.dfy | `_normalize_value` |
| `StartRow` | start_row.dfy | `_detect_start` |
| `Labels`, `Headers` | headers.dfy | header resolution (`ffill`, `unique`, label clean-up, `Column_<i>`) |
| `Extraction` | extraction.dfy | `iloc[start:]`, `dropna(how='all')` on rows, then on columns |
| `Splitting` | split.dfy | the separator pattern, `re.search` and `re.split` |
| `Explosion` | explosion.dfy | `_explode_multivalues` (sample, split, `explode`) |
| `Inference` | inference.dfy | `_infer_types` |
| `Cleaner` | cleaner.dfy | `get_clean_dataframe` after the file is read |
| `JsonResponse` | json_response.dfy | `_clean_json_response` |

## Parameters and semantic choices

The model takes three things as parameters, where the code relies on behaviour this model does not spell out:

- `render: string -> string` stands for Python's float-to-text conversion. `astype(str)` on a float gives `"1402.0"`.
- `parse: string -> Option<string>` stands for `pd.to_numeric`'s string rules. It answers `None` when coercion gives NaN.
- The grid is the reader's output, with every column read as text.

These semantic choices are written out explicitly:

- `str.isspace`, `\s` and `strip` act on the ASCII whitespace set: tab through carriage return, U+001C..U+001F and space.
- `\d` and `str.isdigit` are both given one digit set: ASCII, Arabic-Indic (U+0660..U+0669) and Persian (U+06F0..U+06F9) digits. Python's `str.isdigit` accepts further characters that `\d` rejects; see `StartRow.DetectStart` under "## Left out".
- `$` in `re.match` also matches just before a final line feed.
- `re.split` keeps empty pieces.
- NaN is a float, so `isinstance(v, float)` is true for a missing cell.
- `astype(str)` renders NaN as `"nan"`.
- `x > 0.4 * n` is written `5x > 2n`, and `mean > 0.8` is written `5p > 4n`.

### Behaviours that are easy to misread

The model does what the code does in each of these cases:

- **Commas.** Only thousands separators might be expected to go; the code deletes every ASCII `,` anywhere in the text (`Normalization.RemoveCommas`). Because of this, the `,` separator can never split a value in the pipeline (`Cleaner.CommaNeverSplits`), and `"A/B, C"` explodes into `["A", "B C"]`, not `["A", "B", "C"]` (`Cleaner.CommaGoneBeforeSplit`).
- **Digits.** Only Persian digits are translated. The Arabic thousands mark U+066C stays, so `"۱٬۲۳۴"` stays text, as `"1٬234"`: runs of ASCII or Persian digits on either side of the mark give text that keeps the mark and holds the translated digits (`Normalization.ArabicMarkKept`).
- **Start row.** A missing cell counts as numeric when the start row is detected. A merged-header row such as `["L", NaN, NaN]` is therefore a data row (`StartRow.MergedHeaderRowIsData`).
- **Empty rows and columns.** `dropna` removes all-empty rows and columns anywhere in the table, not only trailing ones (`Extraction.ColumnSurvives`, `Extraction.RowSurvives`).
- **Splitting.** Empty fragments are kept (`Explosion.EmptyFragmentKept`). A missing cell in a marked column becomes the fragment `"nan"` (`Explosion.MissingBecomesNan`).
- **Type inference.** The 80% ratio counts every row, missing cells included, in its denominator (`Inference.Converts`).
- **Idempotence of normalisation on text.** Re-normalising a `Text` result gives it back exactly when the text has no surrounding whitespace (`Normalization.TextRenormalization`). A comma at the edge of the text can expose whitespace: `", x"` becomes `" x"` and then `"x"` (`Normalization.EdgeCommaExposesSpace`). Numbers are fixpoints (`Normalization.NumRenormalization`).

## Model

| member | source | states |
|---|---|---|
| Text.Strip | app/hierarchical_cleaner.py:52 | `str.strip()` leaves no whitespace at either end of its result |
| Text.StripSlice | app/hierarchical_cleaner.py:52 | stripping cuts out one contiguous piece and removes only whitespace, all of it lying before or after that piece |
| Text.StripRangeAt | app/hierarchical_cleaner.py:52 | the stripped piece is determined: any part with non-space ends and only whitespace around it is what stripping leaves |
| Text.StripFixpoint | app/hierarchical_cleaner.py:36 | a label without surrounding whitespace is unchanged by `strip` |
| Text.StripIdempotent | app/hierarchical_cleaner.py:36 | stripping twice is stripping once |
| Text.StripPadded | app/llm_json_service.py:31 | whitespace added on either side of a text does not change its stripped form |
| Text.StripRangeIsStrip | app/llm_json_service.py:37 | stripping inside the bounds of a slice gives the same text as slicing and then stripping |
| Text.Lower | app/hierarchical_cleaner.py:36 | `lower()` maps each ASCII capital to its small letter and keeps every other ASCII character; only the comparison with the null labels depends on it |
| Text.NatToStringRoundTrip | app/hierarchical_cleaner.py:37 | reading back the decimal digits of a column position gives the position |
| Text.NatToStringInjective | app/hierarchical_cleaner.py:37 | distinct column positions get distinct `Column_<i>` names |
| Text.Distinct | app/hierarchical_cleaner.py:35 | `unique()` returns no value twice |
| Text.DistinctMembers | app/hierarchical_cleaner.py:35 | `unique()` keeps every value of its input and adds none |
| Text.DistinctOrder | app/hierarchical_cleaner.py:35 | `unique()` lists values in order of first appearance |
| Cells.CountPresent | app/hierarchical_cleaner.py:88 | the count of present cells is the number of positions holding a present cell, at most the column's length |
| Cells.CountPresentZero | app/hierarchical_cleaner.py:88 | no cell is counted exactly when every cell is missing |
| Cells.PresentTextsMembers | app/hierarchical_cleaner.py:35 | `dropna().astype(str)` holds exactly the texts of the present cells |
| Cells.PresentTextsAt | app/hierarchical_cleaner.py:72 | a present cell's text appears after the texts of the present cells above it |
| Cells.PresentTextsSource | app/hierarchical_cleaner.py:72 | each entry of `dropna().astype(str)` is the text of a present cell, at the same rank among present cells |
| Normalization.TranslateDigits | app/hierarchical_cleaner.py:9 | each Persian digit becomes the ASCII digit of the same value, every other character stays, and no Persian digit remains |
| Normalization.RemoveCommas | app/hierarchical_cleaner.py:52 | `replace(",", "")` leaves no comma and introduces no character |
| Normalization.RemoveCommasCounts | app/hierarchical_cleaner.py:52 | every character other than a comma is kept exactly as often as it occurs |
| Normalization.RemoveCommasAppend | app/hierarchical_cleaner.py:52 | comma removal works piece by piece over a concatenation |
| Normalization.MatchedLiteral | app/hierarchical_cleaner.py:55 | the pattern `^-?\d+(\.\d+)?$` accepts exactly a numeric literal, optionally followed by one line feed, and the literal read is that numeric literal |
| Normalization.Normalize | app/hierarchical_cleaner.py:50-59 | never fails; missing stays missing; a present cell is a number exactly when its stripped, translated, comma-free text matches, and text otherwise; neither result holds a comma or a Persian digit; a number carries the normalised text itself, less the one final line feed the pattern lets through |
| Normalization.NumRenormalization | app/hierarchical_cleaner.py:52-56 | a number's literal normalises to the same number |
| Normalization.TextRenormalization | app/hierarchical_cleaner.py:52-57 | a text result normalises to itself if and only if it has no surrounding whitespace |
| Normalization.EdgeCommaExposesSpace | app/hierarchical_cleaner.py:52 | `", " + x` normalises to `" " + x`, which normalises on to `x`: text results are not always fixpoints |
| Normalization.ThousandsSeparators | app/hierarchical_cleaner.py:52-56 | ASCII digits with an ASCII comma between them read as the number the digits spell |
| Normalization.PersianDigits | app/hierarchical_cleaner.py:52-56 | Persian digits read as the number their ASCII translation spells |
| Normalization.ArabicMarkKept | app/hierarchical_cleaner.py:52-57 | runs of ASCII or Persian digits around the Arabic thousands mark U+066C give text: the digits translated, the mark kept |
| Normalization.LineFeedBeforeEnd | app/hierarchical_cleaner.py:52-56 | digits, a line feed and a comma read as the digits' number, because `$` matches before a final line feed |
| StartRow.RemoveFirstDot | app/hierarchical_cleaner.py:64 | `replace('.', '', 1)` deletes the first dot and only it, and changes nothing when there is no dot |
| StartRow.NumericCountIsCardinality | app/hierarchical_cleaner.py:64 | the numeric count is the number of cells that are floats, missing, or all digits after removing one dot |
| StartRow.FirstDataRow | app/hierarchical_cleaner.py:62-66 | the scan stops at the first row whose numeric count exceeds 40% of its width |
| StartRow.DetectStart | app/hierarchical_cleaner.py:61-67 | the start is 0 or a valid row index; a positive start is the first data row; a zero start means row 0 is a data row or no row is |
| StartRow.StartIsFirstDataRow | app/hierarchical_cleaner.py:61-67 | whenever row k is a data row and no row above it is, the start is k |
| StartRow.LabelRowsStartAtZero | app/hierarchical_cleaner.py:67 | a grid with no numeric-looking cell starts at row 0 |
| StartRow.MergedHeaderRowIsData | app/hierarchical_cleaner.py:64-66 | missing cells count as numeric, so a label with two blank cells to its right forms a data row |
| Labels.CleanLevels | app/hierarchical_cleaner.py:36 | every kept level is stripped and is not empty, `nan` or `none` in any case |
| Labels.CleanLevelsMembers | app/hierarchical_cleaner.py:36 | a level is kept exactly when it is the stripped form of some input level and is not a null label |
| Labels.CleanLevelsOne | app/hierarchical_cleaner.py:36 | one level is kept, stripped, exactly when its stripped form is not a null label |
| Labels.CleanLevelsAppend | app/hierarchical_cleaner.py:36 | cleaning a concatenation of levels gives the concatenation of the cleaned parts, so kept levels stay in input order |
| Labels.CleanLevelsSource | app/hierarchical_cleaner.py:36 | every kept level is the stripped form of some input level |
| Labels.CleanLevelsOrder | app/hierarchical_cleaner.py:36 | two kept levels come from input levels in the same relative order |
| Headers.FillRow | app/hierarchical_cleaner.py:32 | `ffill(axis=1)` keeps present cells and fills missing ones only with values of the row |
| Headers.FillRowNearest | app/hierarchical_cleaner.py:32 | each filled cell is the nearest present value at or to its left, and is missing exactly when everything up to it is |
| Headers.FillDownByColumn | app/hierarchical_cleaner.py:32 | `ffill(axis=0)` fills each column the way `ffill(axis=1)` fills a row |
| Headers.FillHeader | app/hierarchical_cleaner.py:32 | both fills keep the header's shape and put no list in it |
| Headers.ResolveHeaders | app/hierarchical_cleaner.py:32-37 | exactly one name per grid column; with no header rows every name is `Column_<i>` |
| Headers.HeaderPathMembers | app/hierarchical_cleaner.py:35-36 | the fragments of a name are exactly the stripped texts of the column's present filled cells that are not null labels |
| Headers.HeaderPathOrder | app/hierarchical_cleaner.py:35-36 | the fragments of a name come in the order in which their texts first appear among the column's present filled cells |
| Headers.SingleRowHeader | app/hierarchical_cleaner.py:32-37 | a one-row header names each column after its own row-filled cell, stripped, or `Column_<i>` when that cell is missing or a null label |
| Headers.TwoLevelName | app/hierarchical_cleaner.py:35-37 | two distinct usable labels stacked in a column give `"top | bottom"` |
| Headers.MergedHeader | app/hierarchical_cleaner.py:32-37 | a label with two blank cells to its right, over three sub-labels, gives `"L | s1"`, `"L | s2"`, `"L | s3"` |
| Extraction.RowsKeptMembers | app/hierarchical_cleaner.py:42 | a row is kept exactly when it holds a value |
| Extraction.ColumnsKeptMembers | app/hierarchical_cleaner.py:42 | a column is kept exactly when some kept row holds a value in it |
| Extraction.ExtractData | app/hierarchical_cleaner.py:40-42 | the extracted table is rectangular, has one name per column and holds no list if the grid held none |
| Extraction.ExtractedCellOrigin | app/hierarchical_cleaner.py:40-42 | every extracted cell is a cell of the grid at or below the start, under that column's name |
| Extraction.ExtractedNameOrigin | app/hierarchical_cleaner.py:41-42 | every extracted name is the resolved name of a grid column |
| Extraction.RowSurvives | app/hierarchical_cleaner.py:40-42 | a row at or below the start survives exactly when it has a value |
| Extraction.ColumnSurvives | app/hierarchical_cleaner.py:40-42 | a column survives exactly when some row at or below the start has a value in it |
| Extraction.NothingEmptyRemains | app/hierarchical_cleaner.py:42 | no row and no column of the extracted table is entirely empty |
| Splitting.SepLen | app/hierarchical_cleaner.py:10 | a match at a position is one separator character or the three-character conjunction, and never both |
| Splitting.FirstSep | app/hierarchical_cleaner.py:74 | the leftmost match at or after a position, with no match before it |
| Splitting.SplitRebuild | app/hierarchical_cleaner.py:76 | `re.split` loses nothing: weaving the pieces with the separators gives back the text |
| Splitting.SeparatorsAreSeparators | app/hierarchical_cleaner.py:73 | every cut is at one of the six separators |
| Splitting.SplitPiecesNoSep | app/hierarchical_cleaner.py:76 | no piece contains a separator |
| Splitting.SplitPiecesFrom | app/hierarchical_cleaner.py:76 | every character of a piece comes from the text |
| Splitting.SplitNoSep | app/hierarchical_cleaner.py:74-76 | text with no separator is one piece |
| Splitting.NoCommaCut | app/hierarchical_cleaner.py:10 | comma-free text is never cut at a comma |
| Splitting.SplitJoin | app/hierarchical_cleaner.py:76 | splitting undoes joining with `/` when no part has a separator |
| Explosion.Sample | app/hierarchical_cleaner.py:72 | the sample is the first 20 present texts of the column, or all of them when there are fewer |
| Explosion.MarkedIff | app/hierarchical_cleaner.py:72-74 | a column is marked exactly when one of its first 20 present cells, as text, contains a separator |
| Explosion.Fragments | app/hierarchical_cleaner.py:76 | a cell gives one stripped fragment per piece of `re.split`, in order, empty pieces included |
| Explosion.ExplodeRow | app/hierarchical_cleaner.py:78 | `explode` copies a row once per list item, changes only the exploded column and leaves no list there |
| Explosion.ExplodeRowsAt | app/hierarchical_cleaner.py:78 | each input row becomes a block of consecutive output rows, in input order |
| Explosion.ExplodeRowsSource | app/hierarchical_cleaner.py:78 | every output row of `explode` comes from exactly one input row and list item |
| Explosion.ExplodeRowsShape | app/hierarchical_cleaner.py:78 | `explode` keeps the width and leaves no list when only the exploded column held lists |
| Explosion.ExplodeColumn | app/hierarchical_cleaner.py:74-78 | one loop step keeps the width, leaves no list, never loses a row and leaves an unmarked column's rows untouched |
| Explosion.ExplodedColumn | app/hierarchical_cleaner.py:75-78 | a marked column gives one row per fragment, as many rows as fragments in all, each a copy of its source row with the fragment as text in the column |
| Explosion.ExplodedColumnSource | app/hierarchical_cleaner.py:75-78 | every row of an exploded column is a copy of an input row with one of its fragments in that column |
| Explosion.ExplodeColumns | app/hierarchical_cleaner.py:70-78 | the columns visited left to right, each seeing earlier explosions, keep the table rectangular and list-free and never lose a row |
| Explosion.ExplodeAll | app/hierarchical_cleaner.py:69-79 | the names stay, the table stays well formed without lists, and no row is lost |
| Explosion.ExplodeColumnsCommaFree | app/hierarchical_cleaner.py:75-78 | comma-free rows stay comma-free through the whole loop |
| Explosion.ExplodeColumnsNoCommaCut | app/hierarchical_cleaner.py:73-76 | in comma-free rows the `,` separator never cuts a value at any step of the loop |
| Explosion.SlashThenSpace | app/hierarchical_cleaner.py:76 | `"A/B C"` splits into `["A", "B C"]` |
| Explosion.EmptyFragmentKept | app/hierarchical_cleaner.py:76 | for any two stripped texts `a` and `b` without a separator, `a//b` splits into `a`, the empty text and `b`: the empty piece between the two slashes is kept |
| Explosion.MissingBecomesNan | app/hierarchical_cleaner.py:75-76 | a missing cell in a marked column becomes the single fragment `"nan"` |
| Inference.Coerce | app/hierarchical_cleaner.py:87 | coercion keeps numbers and missing values and turns text into a number, or into a missing value exactly when it does not parse; text that parses becomes the number it parses to |
| Inference.CoerceIdempotent | app/hierarchical_cleaner.py:87 | coercing twice is coercing once |
| Inference.InferTypes | app/hierarchical_cleaner.py:81-90 | names, row count and width are unchanged and no list appears |
| Inference.InferColumnsAt | app/hierarchical_cleaner.py:82-89 | each cell ends up coerced exactly when its column, as it was before inference, holds no list and more than 80% of its coerced cells are present |
| Inference.InferTypesIdempotent | app/hierarchical_cleaner.py:81-90 | inferring types twice is inferring them once |
| Inference.ConvertedColumnIsNumeric | app/hierarchical_cleaner.py:87-89 | a converted column holds only numbers and missing values |
| Inference.ListColumnSkipped | app/hierarchical_cleaner.py:84-85 | a column with a list is left untouched |
| Inference.EightyPercentIsNotEnough | app/hierarchical_cleaner.py:88 | 8 parsed cells out of 10 do not convert a column; 9 out of 10 do |
| Cleaner.NormalizeGrid | app/hierarchical_cleaner.py:27 | `map` normalises every cell on its own and keeps the grid's shape |
| Cleaner.Clean | app/hierarchical_cleaner.py:15-48 | the cleaned table is well formed, holds no list, and keeps the extracted names |
| Cleaner.ListGuardNeverFires | app/hierarchical_cleaner.py:78-85 | after explosion no column holds a list, so the list guard of type inference never fires |
| Cleaner.NormalizedCommaFree | app/hierarchical_cleaner.py:52 | no normalised cell reads with a comma |
| Cleaner.ExtractedCommaFree | app/hierarchical_cleaner.py:27-42 | the extracted table reads without a comma |
| Cleaner.ExtractedCellSource | app/hierarchical_cleaner.py:27-42 | every extracted cell is the normalisation of some raw cell |
| Cleaner.CommaNeverSplits | app/hierarchical_cleaner.py:10 | in the pipeline, at every step of the explosion loop, no value has a comma and the `,` separator never cuts one |
| Cleaner.HeaderlessNamesArePositional | app/hierarchical_cleaner.py:29-37 | with a start of 0 every column is named `Column_<j>` after its grid position |
| Cleaner.DataRowsSurvive | app/hierarchical_cleaner.py:40-48 | the cleaned table has at least as many rows as there are non-empty data rows |
| Cleaner.CommaGoneBeforeSplit | app/hierarchical_cleaner.py:52 | `"A/B, C"` normalises to `"A/B C"` and explodes into `["A", "B C"]` |
| JsonResponse.FirstFence | app/llm_json_service.py:29 | the first fence at or after a position, with none before it |
| JsonResponse.ClosingFenceFixed | app/llm_json_service.py:29 | two matches whose groups end at the same place close at the same fence, since the trailing whitespace cannot hold a fence |
| JsonResponse.FenceMatch | app/llm_json_service.py:29 | a match found is a match of the fenced-block pattern, and its group neither starts nor ends with whitespace |
| JsonResponse.MatchFirstInOrder | app/llm_json_service.py:29-30 | whenever the pattern can match, a match is found, and it is the one `re.search` reports: first in the engine's order of trying |
| JsonResponse.Find | app/llm_json_service.py:34 | `find` returns the first occurrence, and reports a miss exactly when the character is absent |
| JsonResponse.RFind | app/llm_json_service.py:35 | `rfind` returns the last occurrence, or -1 exactly when the character is absent |
| JsonResponse.CleanResponse | app/llm_json_service.py:26-40 | the function is total and its result has no surrounding whitespace |
| JsonResponse.FencedBody | app/llm_json_service.py:29-31 | with a fence match the result is the captured group, which equals the stripped text between the tag and the closing fence |
| JsonResponse.ResultIsSlice | app/llm_json_service.py:26-40 | the result is always a contiguous piece of the reply |
| JsonResponse.BracesAtEnds | app/llm_json_service.py:34-37 | without a fence, a first `{` before a last `}` gives exactly the text between them, braces included |
| JsonResponse.CrossedBraces | app/llm_json_service.py:34-37 | without a fence, a last `}` before the first `{` gives the empty text |
| JsonResponse.NoBraces | app/llm_json_service.py:39-40 | without a fence and without one of the braces, the reply is only stripped |
| JsonResponse.FencedRoundTrip | app/llm_json_service.py:29-31 | a JSON text wrapped in a fence, with or without the `json` tag, comes back stripped |
| JsonResponse.UnclosedFence | app/llm_json_service.py:29-34 | an opening fence that is never closed is no match, so the brace fallback applies |

## Left out

- Reading the file (`read_csv` or `read_excel` and the engine choice) and logging. The model starts from the grid of optional strings that the reader produces with `dtype=str`.
- Float conversion and rendering. `float(s)` is represented by the validated literal. `str(float)` is the `render` parameter. `Cleaner.NormalizedCommaFree` assumes that `render` never produces a comma, as Python's never does.
- `pd.to_numeric`'s parsing rules, represented by the `parse` parameter.
- Unicode beyond the modelled classes: other whitespace such as U+00A0 and other decimal-digit blocks.
- StartRow.DetectStart: counts a cell as numeric only when its digits are decimal digits of the modelled blocks. Python's `str.isdigit` (app/hierarchical_cleaner.py:64) also accepts the non-decimal digit characters that `\d` rejects, such as the superscripts `¹`, `²` and `³` (U+00B9, U+00B2, U+00B3) and the Ethiopic digits from U+1369. A text cell `"²"` counts as numeric in the source and not in the model.
- The pandas index. The start row is a position because the reader gives a default range index. `explode`'s duplicated index labels are not represented.
- Cleaner.Clean: addresses columns by position. The source addresses them by name, so whenever two surviving columns share a name (for example `Sales` filled to the right over an empty header cell), `df[col]` is a two-column frame: `pd.to_numeric` on it raises `TypeError` in `_infer_types` (app/hierarchical_cleaner.py:87), and when such a name itself contains a separator the explosion's `apply` receives whole columns and raises `ValueError` first (app/hierarchical_cleaner.py:75-76). The source fails on such tables and the model returns a table.
- Text.Lower: lowers ASCII capitals only, while Python's `str.lower()` lowers every Unicode capital (such as `Ä` to `ä`). The result is only compared with the null labels `nan`, `none` and the empty text. The only non-ASCII characters whose lower case holds ASCII are U+212A KELVIN SIGN (to `k`) and U+0130 (to `i` followed by U+0307), and neither can form `nan` or `none`, so the comparison comes out the same.
- Float rounding in the thresholds. `n * 0.4` and the mean compared with 0.8 are taken as exact rationals, which agrees with the float comparisons for every table size that fits in memory.
- `LLMJsonEngine.generate`: `describe`, `to_json`, the prompt template and the model client. These are library calls and network I/O.
- The provider client and factory, the user interface, the logger, and the exception classes. They hold no logic of the modelled core.
