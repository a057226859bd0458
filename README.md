# pyxl_validator, modelled in Dafny

pyxl_validator compares two spreadsheet tables cell by cell. One table holds
measured values and the other holds reference values. Each pair of cells gets a
`ComparisonResult`: EQUALS, MATCHING, ALMOST, ACCEPTED, OMITTED, DIFFERENT,
CORRUPTED, SHORTER or LONGER. A column-specific validator decides the result.
The differator then does three things:

- it paints every reference row with the colour of each cell's outcome;
- it inserts the measured row below any reference row that is not fully acceptable;
- it records every DIFFERENT or CORRUPTED cell in a comparison summary.

This project models that core and proves properties of the model:

- `values.dfy`: cell values as Python sees them, a tagged union of None, bool,
  int, float, str, datetime, date and any other object. Python's `==` and
  `type(a) == type(b)` are written out.
- `text.dfy`: `str.strip`, ASCII `str.lower`, substring `in` and `str.replace`,
  with reference definitions for single-character replacement.
- `literals.dfy`: recognisers for `^[+-]?\d+$` and for the float pattern,
  including Python's `$` matching before a final newline. Also the exact value
  `int(...)` and `float(...)` read from a matching string, and `round(x, p)`
  with ties to even.
- `isodates.dfy`: the naive subset of `datetime.fromisoformat`, the
  `isoformat` text it reads back, and truncation to a precision.
- `normalizers.dfy`: the boolean synonyms and the detector/normaliser pairs
  `_is_bool_like`, `_is_date_then_normalize`, `_is_int_then_normalize`,
  `_is_float_then_normalize` (with the euro and comma-decimal rewrite) and
  `_is_number_then_normalize`, plus the validators' `_normalize` steps.
- `outcomes.dfy`: `ComparisonResult`, its codes and names, `ok`, `foul` and
  the colour map.
- `validators.dfy`: the nine validator strategies as one datatype and one
  `Compare` function.
- `engine.dfy`: the table engine as a class over an in-memory grid of cells
  (value and fill colour), and `TableRowEnumerator` as a class with a cursor.
  The writable engine (openpyxl) grows the grid. The read-only engine
  (pyexcel) raises `NotImplementedError` on every write.
- `registry.dfy`: `ValidatorRegistry` and `RegistryStore` as classes.
  `resolve_validators` is a function over a snapshot of the registry.
- `summary.dfy`: `ComparisonSummary` as a class whose buckets behave like the
  `defaultdict(list)` of the source. A ghost log of every `add` call serves as
  its specification.
- `compare.dfy`: `compare_a_row`, `calculate_validator_array`, `compare_next`,
  `compare_sheets_by_enum` and `compare_sheets_by_ws` without a consumer.
  The row walk is a function over cursors that the methods are proved against.
- `differator.dfy`: `DiffConsumer` as a class, and `compare_sheets_by_enum`
  with the consumer. That walk is specified by a function `Run` over
  (measured cursor, reference cursor, summary additions). Lemmas show that the
  walk keeps reading the original reference rows even though rows are
  inserted into the sheet it is walking (`Tracks`, `ReadsOriginalRows`).

Python exceptions that escape the core become `Result`/`Status` values:
`IndexError`, `ValueError` and `NotImplementedError`. Exceptions that a
validator catches become CORRUPTED, as in the source.

Where the design description and the code disagree, the model follows the code:

- `resolve_validators` pads its list only up to `max_col`. It does not
  produce a list "at least min_columns long". The default `max_col` of 1
  that `differentiate_sheets_by_ws` passes therefore fails on every header
  of two or more columns. That case is listed under Findings: the model's
  `DifferentiateSheetsByWs` raises it as written, and
  `DifferentiateSheetsByWsCorrected` uses the evidently intended,
  header-wide resolution.
- Columns beyond the reference width are not forced to LONGER. The outcome
  is whatever `compare_a_row` computes.
- An inserted row carries no formatting copied from either source. It gets
  the measured values and the measured-side fill colours only.
- `get_cell_colors` documents its pair as (measured, reference). The
  consumer, however, paints the reference row with the first colour and the
  inserted measured row with the second. `RefColors` and `MessColors` follow
  that code.

## Model

| member | source | states |
|---|---|---|
| Values.PyEqIsEquivalence | pyxl_validator/table_validator.py:109-110 | Python's `==` on cell values is reflexive, symmetric and transitive; outside numbers it is structural equality |
| Values.BoolIntFloatEqual | pyxl_validator/table_validator.py:233 | `True == 1 == 1.0` although their types differ, which is why the int validator also tests the type; a date never equals a datetime |
| Text.Strip | pyxl_validator/table_validator.py:405 | the stripped text is an infix `s[i..j]` of the input such that everything outside it is whitespace and it neither starts nor ends with whitespace, i.e. exactly the input without its leading and trailing whitespace |
| Text.StripIdempotent | pyxl_validator/table_validator.py:405 | stripping twice is stripping once |
| Text.StripUnpadded | pyxl_validator/table_validator.py:405 | a text with no whitespace at either end is its own strip |
| Text.StripPadded | pyxl_validator/table_validator.py:170 | a leading blank and a trailing newline are stripped away again |
| Text.Lower | pyxl_validator/table_validator.py:420 | lowering keeps the length and lowers each character |
| Text.ContainsChar | pyxl_validator/table_validator.py:421 | `"," in val` holds exactly when the character occurs |
| Text.ReplaceByEmpty | pyxl_validator/table_validator.py:424-425 | `replace(c, "")` drops exactly the occurrences of `c` and keeps every other character |
| Text.ReplaceByChar | pyxl_validator/table_validator.py:430 | `replace(c, d)` rewrites exactly the occurrences of `c`, position by position |
| Text.ReplaceAbsent | pyxl_validator/table_validator.py:424-430 | replacing a pattern that does not occur changes nothing |
| Literals.ParseInt | pyxl_validator/table_validator.py:23 | a recognised integer text is exactly the rendering of the well-formed literal returned |
| Literals.IntRoundTrip | pyxl_validator/table_validator.py:23 | every well-formed integer literal is recognised as itself (the inverse of ParseInt) |
| Literals.IntTextHasNoPoint | pyxl_validator/table_validator.py:23 | text matching the integer pattern holds no decimal point |
| Literals.ParseFloat | pyxl_validator/table_validator.py:24 | a recognised float text is exactly the rendering of the well-formed literal returned |
| Literals.FloatRoundTrip | pyxl_validator/table_validator.py:24 | every well-formed float literal is recognised as itself (the inverse of ParseFloat) |
| Literals.FloatTextShape | pyxl_validator/table_validator.py:24 | a float literal holds at most one point and only digits, signs, the point and `e`/`E` |
| Literals.MatchedShape | pyxl_validator/table_validator.py:432 | whatever the float pattern accepts has at most one point and, apart from a final newline, only float-literal characters |
| Literals.IntLiteralIsFloatLiteral | pyxl_validator/table_validator.py:23-24 | every integer literal is also a float literal, and `float(...)` reads the same number as `int(...)` |
| Literals.MatchIntPattern | pyxl_validator/table_validator.py:406 | the pattern matches iff the text, or the text without one final newline, is an integer literal |
| Literals.MatchFloatPattern | pyxl_validator/table_validator.py:432 | the pattern matches iff the text, or the text without one final newline, is a float literal; the text is that literal, with or without the newline |
| Literals.RoundHalfEven | pyxl_validator/table_validator.py:279-280 | the rounded integer lies within one half of the input, strictly nearer than one half unless the input lies exactly halfway, where the result is even; an integer stays where it is |
| Literals.RoundToExact | pyxl_validator/table_validator.py:279-280 | `round(x, p)` leaves a value with at most `p` decimals unchanged |
| Literals.RoundToBound | pyxl_validator/table_validator.py:279-280 | `round(x, p)` moves a value by at most half a unit in the `p`-th decimal place |
| IsoDates.ParseIsoDateTime | pyxl_validator/table_validator.py:170 | every date-time that `fromisoformat` returns exists in the calendar |
| IsoDates.TimeRoundTrip | pyxl_validator/table_validator.py:170 | the time part of `isoformat` reads back as the same hour, minute, second and microsecond |
| IsoDates.IsoRoundTrip | pyxl_validator/table_validator.py:170 | `fromisoformat(isoformat(dt)) == dt` for every valid naive date-time |
| IsoDates.TruncateCoarsens | pyxl_validator/table_validator.py:180-187 | two date-times equal at a finer precision are equal at every coarser one |
| Normalizers.NormalizeBool | pyxl_validator/table_validator.py:128-139 | numbers read as `value != 0`; a string reads as True or False exactly when its stripped, lowered form is a true or a false synonym; anything else raises |
| Normalizers.SynonymsDisjoint | pyxl_validator/table_validator.py:124-125 | no text is both a true and a false synonym |
| Normalizers.BoolLikeNormalizes | pyxl_validator/table_validator.py:366-378 | `_is_bool_like` holds iff `_normalize` succeeds and a number is 0 or 1; a bool-like number reads True exactly when it is 1 |
| Normalizers.NormalizeDate | pyxl_validator/table_validator.py:166-171 | a datetime is kept, a string is parsed after stripping into a valid date-time, and anything else raises |
| Normalizers.IsDateThenNormalize | pyxl_validator/table_validator.py:380-394 | a date becomes that day at midnight; every other value is read as the date validator reads it |
| Normalizers.IsoTextIsDateLike | pyxl_validator/table_validator.py:388-391 | the `isoformat` text of any valid date-time is date-like and reads back as that date-time, even with surrounding whitespace |
| Normalizers.DateTextStrips | pyxl_validator/table_validator.py:390 | a date text that starts and ends with a digit reads the same whether or not whitespace surrounds it |
| Normalizers.IsIntThenNormalize | pyxl_validator/table_validator.py:396-408 | bools and ints are kept as they are, type included; a float is int-like iff integral and then becomes the int it equals; a string is int-like iff its stripped text matches the int pattern and then becomes the int that text writes |
| Normalizers.CleanNumberText | pyxl_validator/table_validator.py:419-430 | the cleaned text holds no blank; with a euro/comma marker it also holds no comma; without one it is the lowered, stripped text minus blanks |
| Normalizers.IsFloatThenNormalize | pyxl_validator/table_validator.py:410-434 | a number reads as its own value, a string by the cleaned float reading, and anything else is not float-like |
| Normalizers.IsNumberThenNormalize | pyxl_validator/table_validator.py:437-444 | number-like iff float-like, always with the float reading's value; an int-like value gives exactly its int reading (so a bool stays a bool), anything else the float of its float reading |
| Normalizers.IntTextIsClean | pyxl_validator/table_validator.py:420-430 | an integer text is untouched by lowering and by the currency and separator clean-up |
| Normalizers.IntTextIsFloatText | pyxl_validator/table_validator.py:419-433 | a string matching the int pattern is float-like, with the same number |
| Normalizers.IntLikeIsFloatLike | pyxl_validator/table_validator.py:437-444 | every int-like value is float-like with the same number, so the number reading never loses an int-like value |
| Normalizers.IntTextLikeFloat | pyxl_validator/table_validator.py:437-444 | the string case of the previous row |
| Normalizers.GermanDecimal | pyxl_validator/table_validator.py:427-433 | `"1.234,56"`-style text (points as thousands separators, a comma as decimal mark) reads as the intended decimal |
| Normalizers.DotDecimal | pyxl_validator/table_validator.py:432-433 | a plain `digits.digits` text reads as its decimal value |
| Normalizers.EuroDropsPoints | pyxl_validator/table_validator.py:421-430 | the euro sign switches to the German reading, so every point is dropped as a thousands separator |
| Normalizers.NumberTextCleaned | pyxl_validator/table_validator.py:424-430 | text of digits, points and commas is cleaned by dropping points and turning commas into points exactly when it holds a comma |
| Normalizers.CleanedShape | pyxl_validator/table_validator.py:432 | a float-like string's cleaned text has at most one point and only float-literal characters |
| Normalizers.TwoCommasRejected | pyxl_validator/table_validator.py:429-432 | a number text with two or more commas is not float-like |
| Normalizers.TwoPointsRejected | pyxl_validator/table_validator.py:432 | a comma-free number text with two or more points is not float-like |
| Normalizers.ForeignCharRejected | pyxl_validator/table_validator.py:424-432 | a character that is neither a float-literal character nor removed by the clean-up makes a string not float-like |
| Normalizers.CommaListRejected | pyxl_validator/table_validator.py:429-432 | `"1,2,3"` is not float-like |
| Normalizers.PointListRejected | pyxl_validator/table_validator.py:432 | `"1.2.3"` is not float-like |
| Normalizers.EuroWordRejected | pyxl_validator/table_validator.py:424-432 | `"€abc"` is not float-like: letters survive the clean-up |
| Normalizers.WholeFloatIsIntLike | pyxl_validator/table_validator.py:402-403 | an integral float such as 1234.0 is number-like as the int 1234 |
| Normalizers.PointTextNotIntLike | test/pyxl_validator/test_type_recognition.py:79 | `"42.0"` is not int-like |
| Normalizers.PaddedJaIsTrue | test/pyxl_validator/test_type_recognition.py:37 | `" Ja "` reads as True |
| Normalizers.MaybeIsNoBool | pyxl_validator/table_validator.py:133-139 | a string outside the synonym sets makes `_normalize` raise |
| Outcomes.OkFoulPartition | pyxl_validator/table_validator.py:47-58 | `ok` and `foul` never both hold; neither holds exactly for SHORTER and LONGER; `ok` is codes 0-4 and `foul` is codes 8-9 |
| Outcomes.CellColors | pyxl_validator/table_validator.py:60-81 | every outcome has its own colour pair (the fallback is never used), and both colours are six-digit hex |
| Outcomes.ColorMapCovers | pyxl_validator/table_validator.py:71-81 | the colour map has an entry for every outcome |
| Outcomes.CodeAndNameInjective | pyxl_validator/table_validator.py:32-45 | outcomes have distinct codes and distinct names |
| Outcomes.AllOutcomesComplete | pyxl_validator/table_validator.py:32-45 | the enumeration lists every outcome once, and each is in the colour map |
| Validators.CompareEqual | pyxl_validator/table_validator.py:109-110 | EQUALS iff Python's `==` holds, DIFFERENT otherwise |
| Validators.PyEqSameTruth | pyxl_validator/table_validator.py:143-147 | equal values normalise to the same boolean |
| Validators.CompareBool | pyxl_validator/table_validator.py:141-149 | CORRUPTED iff a side is not boolean; otherwise EQUALS iff `==`, MATCHING iff same truth but not `==`, DIFFERENT iff different truth |
| Validators.CompareDate | pyxl_validator/table_validator.py:173-193 | CORRUPTED iff a side is no date or the precision is unknown when needed; EQUALS/MATCHING for the same instant; ALMOST iff different instants agree after truncation |
| Validators.DatePrecisionMonotone | pyxl_validator/table_validator.py:180-191 | a comparison acceptable at a finer precision stays acceptable at a coarser one |
| Validators.CompareInt | pyxl_validator/table_validator.py:232-242 | EQUALS iff equal and same type; CORRUPTED iff otherwise a side is not int-like; MATCHING iff both int-like with the same number |
| Validators.CompareNumber | pyxl_validator/table_validator.py:265-283 | EQUALS iff equal and same type; otherwise two int-like values get the int validator's outcome; otherwise two float-like values get `CompareReadings` of their float readings at `float_precision` (MATCHING, ALMOST or DIFFERENT); CORRUPTED iff neither path applies |
| Validators.CompareReadings | pyxl_validator/table_validator.py:277-281 | MATCHING iff the readings are equal, ALMOST iff they differ but round alike, DIFFERENT otherwise |
| Validators.NumberOutcomeMeaning | pyxl_validator/table_validator.py:265-283 | for float-like values: EQUALS or MATCHING iff the same number; ALMOST only for different numbers that round alike, and always for them unless both are int-like; never ALMOST for two int-like values |
| Validators.IdenticalSameNumber | pyxl_validator/table_validator.py:266 | values equal with the same type read as the same float |
| Validators.CompareTolerant | pyxl_validator/table_validator.py:301-318 | in the source's order, each as an if-and-only-if: EQUALS iff `==`; CORRUPTED iff otherwise a side is not float-like; MATCHING iff the readings are equal; ALMOST iff they differ but round alike; ACCEPTED iff they round apart and the measured reading lies in `[b - delta_down, b + delta_up]`; DIFFERENT iff none of these |
| Validators.TolerantBandIsOk | pyxl_validator/table_validator.py:311-314 | every measured value inside the tolerance band is acceptable |
| Validators.CompareExcelValue | pyxl_validator/table_validator.py:335-360 | in the source's order: `==` gives EQUALS; a None side gives DIFFERENT; two date-like values go to the day-precision date validator; two number-like values go to the number validator of precision 10 on their normalised forms; two bool-like values go to the bool validator; anything else is DIFFERENT; the result is never ACCEPTED or CORRUPTED |
| Validators.NumberOfNormalized | pyxl_validator/table_validator.py:350-353 | a normalised number reads as its own value |
| Validators.FormatOnlyDifference | pyxl_validator/table_validator.py:335-353 | an integer written as text compares EQUALS to that int |
| Validators.IntTextReadsAsInt | pyxl_validator/table_validator.py:437-444 | an integer text is number-like as that int |
| Validators.BoolAgainstIntText | pyxl_validator/table_validator.py:335-354 | a bool against a text holding the integer it equals (True against "1") is MATCHING, not EQUALS, because the number path keeps the bool's type |
| Validators.BoolAgainstEqualInt | pyxl_validator/table_validator.py:265-273 | the number validator gives MATCHING for a bool and the int it equals, as the types differ |
| Validators.Compare | pyxl_validator/table_validator.py:87-97 | each strategy dispatches to its own comparison; the ignoring strategy always gives MATCHING; no validator yields SHORTER or LONGER; OMITTED comes exactly from the omitted validator |
| Validators.CompareSymmetric | pyxl_validator/table_validator.py:104-360 | every validator except the tolerance-banded one gives the same outcome with its arguments swapped |
| Validators.BoolSymmetric | pyxl_validator/table_validator.py:141-149 | the bool validator is symmetric |
| Validators.DateSymmetric | pyxl_validator/table_validator.py:173-193 | the date validator is symmetric |
| Validators.IntSymmetric | pyxl_validator/table_validator.py:232-242 | the int validator is symmetric |
| Validators.NumberSymmetric | pyxl_validator/table_validator.py:265-283 | the number validator is symmetric |
| Validators.FloatReadingsSymmetric | pyxl_validator/table_validator.py:274-281 | the float branch of the number validator is symmetric |
| Validators.ReadingsSymmetric | pyxl_validator/table_validator.py:277-281 | comparing two readings is symmetric |
| Validators.ExcelValueSymmetric | pyxl_validator/table_validator.py:335-360 | the automatic validator is symmetric |
| Validators.ExcelDateSymmetric | pyxl_validator/table_validator.py:343-347 | its date branch is symmetric |
| Validators.ExcelNumberSymmetric | pyxl_validator/table_validator.py:349-353 | its number branch is symmetric |
| Validators.ExcelBoolSymmetric | pyxl_validator/table_validator.py:355-360 | its boolean and fallback branches are symmetric |
| Engine.Sheet.At | pyxl_validator/excel_table_engine.py:214-221 | a cell outside the grid reads as an empty cell (value None) |
| Engine.Sheet.Row | pyxl_validator/excel_table_engine.py:223-231 | a row inside the sheet has one value per column, each the cell's value; a row outside it is empty |
| Engine.Sheet.Put | pyxl_validator/excel_table_engine.py:167-168 | writing a cell keeps the grid rectangular and grows it just enough to hold the cell |
| Engine.Sheet.WithBlankRow | pyxl_validator/excel_table_engine.py:170-171 | inserting a row inside the sheet adds one row and keeps the width |
| Engine.Sheet.WithValues | pyxl_validator/excel_table_engine.py:173-175 | writing a row of values keeps the grid rectangular and grows it to hold the row |
| Engine.Sheet.WithFills | pyxl_validator/excel_table_engine.py:193-195 | painting a row keeps the grid rectangular and grows it to hold the row |
| Engine.PutReadBack | pyxl_validator/excel_table_engine.py:167-168 | a written cell reads back, and every other cell is unchanged |
| Engine.ValueReadBack | pyxl_validator/excel_table_engine.py:167-168 | a written value reads back; the cell keeps its fill and every other cell is unchanged |
| Engine.FillKeepsValues | pyxl_validator/excel_table_engine.py:177-191 | setting a fill changes no value, and a non-empty colour becomes a solid fill |
| Engine.ValuesReadBack | pyxl_validator/excel_table_engine.py:173-175 | `set_row_values` puts value `k` into column `k + 1` and changes no other cell |
| Engine.FillsKeepValues | pyxl_validator/excel_table_engine.py:193-195 | `set_row_formats` changes no value |
| Engine.FillsReadBack | pyxl_validator/excel_table_engine.py:193-195 | `set_row_formats` paints column `k + 1` with colour `k` and touches no other row |
| Engine.BlankRowShifts | pyxl_validator/excel_table_engine.py:170-171 | `insert_rows(r)` keeps rows above `r`, blanks row `r` and shifts the rows below down by one |
| Engine.InsertedRow | pyxl_validator/excel_table_engine.py:318-319 | after inserting and writing a row, rows above read as before, the new row holds the values, and rows below are the old rows shifted by one |
| Engine.Table.constructor | pyxl_validator/excel_table_engine.py:127-128 | the engine starts with the given rows, width and read-only flags; a writable engine has at least one row and one column, as openpyxl reports for an empty sheet |
| Engine.Table.IsReadonly | pyxl_validator/excel_table_engine.py:242-243 | a read-only engine always reports a read-only file |
| Engine.Table.WriteCheck | pyxl_validator/excel_table_engine.py:248-261 | a write succeeds iff the engine is writable and the cell address is at least (1, 1) |
| Engine.Table.SetCellValue | pyxl_validator/excel_table_engine.py:167-168 | the write either raises and changes nothing, or stores the value in the cell |
| Engine.Table.AddRow | pyxl_validator/excel_table_engine.py:170-171 | the insertion either raises and changes nothing, or inserts a blank row at `r` |
| Engine.Table.SetRowValues | pyxl_validator/excel_table_engine.py:173-175 | writing no values on the writable engine is a no-op; otherwise the write raises and changes nothing, or writes the row |
| Engine.Table.SetCellFormat | pyxl_validator/excel_table_engine.py:177-191 | the call either raises and changes nothing, or sets the cell's fill |
| Engine.Table.SetRowFormats | pyxl_validator/excel_table_engine.py:193-195 | painting no colours on the writable engine is a no-op; otherwise the call raises and changes nothing, or paints the row |
| Engine.RowEnumerator.constructor | pyxl_validator/excel_table_engine.py:292-295 | the cursor starts at the start row and caches the engine's row count |
| Engine.RowEnumerator.Next | pyxl_validator/excel_table_engine.py:300-306 | past the cached row count it stops and leaves the cursor; otherwise it yields (row, row values) and steps one row; the number of rows still to read drops by one |
| Engine.RowEnumerator.AddRow | pyxl_validator/excel_table_engine.py:308-323 | it raises with nothing changed, or inserts the values at the cursor, returns that row, and moves both the cursor and the row count one on, so the rows still to read stay the same |
| Registry.Lookup | pyxl_validator/table_validator_registry.py:57-69 | a registered name wins, then a registered index, then the default |
| Registry.FirstPass | pyxl_validator/table_validator_registry.py:81-84 | the first pass raises IndexError iff the header is longer than `max_col`; otherwise each header position gets its lookup and the rest the default |
| Registry.PlaceAllAt | pyxl_validator/table_validator_registry.py:86-94 | placing non-negative index registrations extends the list with defaults as needed and puts each registered validator at its index |
| Registry.PlaceAllFailurePersists | pyxl_validator/table_validator_registry.py:86-94 | once a placement raises, the later registrations do not change the result |
| Registry.ResolutionAt | pyxl_validator/table_validator_registry.py:71-96 | with a header no wider than `max_col`, the list covers the header and every registered index; a registered index wins, then the header lookup, then the default |
| Registry.DefaultWidthRejectsWideHeader | pyxl_validator/table_validator_registry.py:71-84 | with the default `max_col` of 1, any header of two or more columns raises IndexError |
| Registry.WideResolutionCoversHeader | pyxl_validator/table_validator_registry.py:71-96 | sized to the header, resolution always succeeds and gives every header column its registered index, name or default |
| Registry.ValidatorRegistry.constructor | pyxl_validator/table_validator_registry.py:26-29 | a new registry has no registrations and no default |
| Registry.ValidatorRegistry.RegisterByName | pyxl_validator/table_validator_registry.py:31-38 | the name maps to the validator; nothing else changes |
| Registry.ValidatorRegistry.RegisterByIndex | pyxl_validator/table_validator_registry.py:40-47 | the index maps to the validator, and a new index joins the insertion order; nothing else changes |
| Registry.ValidatorRegistry.SetDefault | pyxl_validator/table_validator_registry.py:49-55 | the default becomes the validator; nothing else changes |
| Registry.ValidatorRegistry.ResolveValidators | pyxl_validator/table_validator_registry.py:71-96 | the loops compute the resolution of the current registrations |
| Registry.RegistryStore.constructor | pyxl_validator/table_validator_registry.py:110-112 | a new store has no registries and no default |
| Registry.RegistryStore.Register | pyxl_validator/table_validator_registry.py:114-121 | the sheet name maps to the registry; the default is kept |
| Registry.RegistryStore.SetDefault | pyxl_validator/table_validator_registry.py:123-129 | the default registry is replaced; the sheet map is kept |
| Registry.RegistryStore.GetRegistry | pyxl_validator/table_validator_registry.py:131-140 | a registered sheet gets its registry, any other sheet the default |
| Summary.FilterAppend | pyxl_validator/table_comparison_summary.py:41-52 | one more add grows exactly its outcome's bucket, by that entry at the end |
| Summary.CountColOfFilter | pyxl_validator/table_comparison_summary.py:141-144 | counting a bucket's entries per column equals counting the adds with that outcome and column |
| Summary.SumBucketsOfFilter | pyxl_validator/table_comparison_summary.py:66-73 | the bucket sizes sum to the number of adds whose outcome has a bucket |
| Summary.SumSizesCountsAdds | pyxl_validator/table_comparison_summary.py:66-73 | when every add's outcome is listed, the sizes sum to the number of adds |
| Summary.ColumnCountsAt | pyxl_validator/table_comparison_summary.py:139-146 | a column's map names an outcome iff that outcome has entries in the column, with that count, and names nothing else |
| Summary.OpenBucket | pyxl_validator/table_comparison_summary.py:64 | reading a missing bucket creates it empty, and the summary stays consistent with its log |
| Summary.AddKeeps | pyxl_validator/table_comparison_summary.py:41-52 | an add keeps every bucket equal to the log's entries for its outcome |
| Summary.ComparisonSummary.constructor | pyxl_validator/table_comparison_summary.py:28-39 | a new summary has no buckets, no header and no adds |
| Summary.ComparisonSummary.Add | pyxl_validator/table_comparison_summary.py:41-52 | the entry is appended to its outcome's bucket, created if missing; other buckets and the header are unchanged |
| Summary.ComparisonSummary.Count | pyxl_validator/table_comparison_summary.py:54-64 | returns the number of adds with that outcome, and creates its bucket empty if it was missing |
| Summary.ComparisonSummary.Summary | pyxl_validator/table_comparison_summary.py:75-83 | maps the name of every outcome with a bucket to its size, and holds no other name |
| Summary.ComparisonSummary.GetCells | pyxl_validator/table_comparison_summary.py:85-95 | returns the entries added with that outcome, in order, and nothing if none |
| Summary.ComparisonSummary.SetHeaderValues | pyxl_validator/table_comparison_summary.py:107-114 | the header is replaced; buckets and adds are unchanged |
| Summary.ComparisonSummary.SummaryByHeaderArray | pyxl_validator/table_comparison_summary.py:116-146 | raises ValueError iff no header is set; otherwise one map per header column, holding that column's counts per outcome |
| Summary.ComparisonSummary.Tally | pyxl_validator/table_comparison_summary.py:141-144 | counting one bucket adds that outcome's per-column count to each column map |
| Summary.ComparisonSummary.NameFresh | pyxl_validator/table_comparison_summary.py:141-146 | while the buckets are counted in order, an outcome's name is not yet in any column map |
| Summary.TotalCountsAdds | pyxl_validator/table_comparison_summary.py:66-73 | `total()` is the number of adds made |
| Summary.HeaderArrayCountsAdds | pyxl_validator/table_comparison_summary.py:116-146 | each column map counts exactly the adds with that outcome and column, and holds only positive counts |
| Compare.CellOutcome | pyxl_validator/excel_compare.py:165-166 | never SHORTER or LONGER; OMITTED exactly when there is no validator or it is the omitted one |
| Compare.RowOutcomes | pyxl_validator/excel_compare.py:151-174 | raises IndexError iff the validator list is shorter than the paired columns; otherwise one outcome per column of the longer row, with SHORTER or LONGER exactly past the shorter row |
| Compare.RowOutcomesPaired | pyxl_validator/excel_compare.py:164-166 | each paired column's outcome is its validator's verdict on the two cells |
| Compare.CompareARow | pyxl_validator/excel_compare.py:151-174 | the loop computes the row outcomes |
| Compare.AgainstEmptyRow | pyxl_validator/excel_compare.py:168-172 | against a missing row every cell is LONGER, or SHORTER when the measured row is missing |
| Compare.FirstIndex | pyxl_validator/excel_compare.py:214 | `list.index`: the first position holding an equal value, or none if no position does |
| Compare.Target | pyxl_validator/excel_compare.py:209-216 | an override slot, when there is one, lies inside the list |
| Compare.OverriddenAt | pyxl_validator/excel_compare.py:207-217 | after the overrides, each slot holds the last override aimed at it, or its old validator |
| Compare.OverridesSucceed | pyxl_validator/excel_compare.py:207-217 | with no negative int key, overrides on a list covering the header never raise |
| Compare.OverriddenFailurePersists | pyxl_validator/excel_compare.py:207-217 | once an override raises, later overrides do not change the result |
| Compare.Padded | pyxl_validator/excel_compare.py:201-204 | the list keeps its entries and is padded with the default to `max_cols` |
| Compare.CalculateValidatorArray | pyxl_validator/excel_compare.py:181-219 | pads the given list (or a new one) to the reference width and applies the overrides; the given list is updated in place and returned |
| Compare.Fetch | pyxl_validator/excel_compare.py:133-141 | an exhausted cursor yields index -1 and an empty row |
| Compare.Pairs | pyxl_validator/excel_compare.py:103-112 | row pair `k` is compared with the first-row validators for `k = 0` and with the given list afterwards |
| Compare.CollectFails | pyxl_validator/excel_compare.py:103-112 | the walk raises iff some row pair raises, and then the first such pair is the last one consumed |
| Compare.BulkAt | pyxl_validator/excel_compare.py:103-114 | a walk that succeeds lists each row pair's difference, in order |
| Compare.BulkFails | pyxl_validator/excel_compare.py:103-114 | a walk raises iff one of its row pairs raises, and it raises that pair's error |
| Compare.CompareNext | pyxl_validator/excel_compare.py:117-148 | one `next` on each cursor and the compared pair; a cursor that is already exhausted stays where it is |
| Compare.CompareSheetsByEnum | pyxl_validator/excel_compare.py:86-114 | returns the walk over max(1, both row counts) row pairs, and leaves each cursor after the pairs it processed |
| Compare.CollectNext | pyxl_validator/excel_compare.py:111-112 | one loop step extends the collected differences, or stops the walk with that pair's error |
| Compare.PairAt | pyxl_validator/excel_compare.py:133-143 | the pair read at step `k` is the pair `k` rows after the cursors' start |
| Compare.AdvanceFetch | pyxl_validator/excel_table_engine.py:300-306 | reading after `k` steps is reading the `k`-th row from the start |
| Compare.CompareSheetsByWs | pyxl_validator/excel_compare.py:55-83 | raises what the validator list raises; otherwise walks both sheets from row 1 with that list; writable engines have at least one row and column |
| Differator.RefColors | pyxl_validator/excel_differator.py:118-121 | the reference row is painted with the first colour of each outcome |
| Differator.MessColors | pyxl_validator/excel_differator.py:118-122 | the inserted measured row is painted with the second colour of each outcome |
| Differator.FoulAddsExact | pyxl_validator/excel_differator.py:118-127 | the summary receives exactly the DIFFERENT and CORRUPTED cells, in column order, each with row, 1-based column and both values (None past a row's end) |
| Differator.FoulAddsMembers | pyxl_validator/excel_differator.py:124-127 | an addition is made iff its cell is DIFFERENT or CORRUPTED |
| Differator.FoulAddsOrdered | pyxl_validator/excel_differator.py:124-127 | the additions come in strictly increasing column order |
| Differator.FoulAddsColumns | pyxl_validator/excel_differator.py:127 | every addition's column lies between 1 and the number of outcomes |
| Differator.StructuralInserts | pyxl_validator/excel_differator.py:132 | rows of different lengths always cause the measured row to be inserted |
| Differator.DiffPaintsReferenceRow | pyxl_validator/excel_differator.py:129-130 | on the writable engine, each cell of an already read reference row gets its outcome's reference colour |
| Differator.DiffInsertsMeasuredRow | pyxl_validator/excel_differator.py:132-134 | on the writable engine, a row that is not acceptable puts the measured values at the cursor, painted with the measured colours, and moves the cursor and the row count one on |
| Differator.StepOfPair | pyxl_validator/excel_compare.py:133-146 | one step: both cursors advance; the step raises the pair's error, or `diff` is applied to that pair |
| Differator.RunNext | pyxl_validator/excel_compare.py:111-112 | the walk over `k + 1` pairs is the walk over `k` pairs and then one more step |
| Differator.RunFailurePersists | pyxl_validator/excel_compare.py:111-112 | once a step raises, the walk ends with that error |
| Differator.RunMeasured | pyxl_validator/excel_compare.py:111-112 | after `k` successful steps the measured cursor has advanced `k` times |
| Differator.TracksAdvance | pyxl_validator/excel_table_engine.py:300-306 | reading one reference row keeps the tracking one row further on |
| Differator.TracksFill | pyxl_validator/excel_differator.py:129-130 | painting a row already read keeps the tracking |
| Differator.TracksInsert | pyxl_validator/excel_table_engine.py:308-323 | inserting a row at the cursor keeps the rows still to read unchanged |
| Differator.DiffTracks | pyxl_validator/excel_differator.py:129-134 | `diff` keeps the rows still to read |
| Differator.StepTracks | pyxl_validator/excel_compare.py:133-146 | a successful step keeps the tracking one row further on |
| Differator.RunTracks | pyxl_validator/excel_differator.py:129-134 | after any number of successful steps, the unread reference rows are the original ones |
| Differator.TracksFetch | pyxl_validator/excel_table_engine.py:300-306 | under tracking, the next reference row is the original row, padded with None to the grown width |
| Differator.ReadsOriginalRows | pyxl_validator/excel_table_engine.py:308-323 | despite the insertions, step `k` of the walk reads the `k`-th original measured row and the `k`-th original reference row (padded with None) |
| Differator.AddIfFoul | pyxl_validator/excel_differator.py:124-127 | only a DIFFERENT or CORRUPTED cell is added to the summary |
| Differator.ScanRow | pyxl_validator/excel_differator.py:114-127 | the loop computes whether the row is acceptable, both colour lists and the summary additions |
| Differator.DiffConsumer.constructor | pyxl_validator/excel_differator.py:70-82 | two fresh cursors from row 1 over the two engines |
| Differator.DiffConsumer.Diff | pyxl_validator/excel_differator.py:97-134 | `diff` has the effect on the reference cursor and sheet that DiffEffect describes, and adds exactly the foul cells to the summary |
| Differator.DiffConsumer.PaintReferenceRow | pyxl_validator/excel_differator.py:129-130 | the reference row is painted when its index is positive; the read-only engine raises |
| Differator.DiffConsumer.InsertMeasuredRow | pyxl_validator/excel_differator.py:132-134 | the measured row is inserted only when the row is not acceptable and the measured row is non-empty |
| Differator.DiffConsumer.InsertRow | pyxl_validator/excel_differator.py:133-134 | the read-only engine raises with nothing changed; otherwise the row is inserted at the cursor, painted, and the cursor steps over it |
| Differator.DiffConsumer.CompareNext | pyxl_validator/excel_compare.py:117-148 | both cursors advance once; the step raises the row comparison's error or applies `diff` to the pair |
| Differator.DiffConsumer.TakeStep | pyxl_validator/excel_compare.py:111-112 | one step of the walk moves the consumer's state to the walk's state after `k + 1` steps |
| Differator.DiffConsumer.WalkRows | pyxl_validator/excel_compare.py:103-114 | the loop leaves the cursors, the summary and the status as the walk over `n` row pairs |
| Differator.DiffConsumer.CompareSheetsConsumeDiff | pyxl_validator/excel_differator.py:84-95 | the consumer's run is the walk over max(1, both row counts) row pairs, and the summary receives that walk's additions |
| Differator.ConsumeResolved | pyxl_validator/excel_differator.py:52-55 | a failed resolution propagates with the sheet, log and header unchanged; otherwise the summary gets the header, and the sheet and log are those of the walk over both sheets |
| Differator.DifferentiateSheetsByWs | pyxl_validator/excel_differator.py:33-55 | as written, resolving with the default `max_col` of 1: every reference header of two or more columns raises IndexError with the sheet, log and header unchanged; otherwise raises what resolution raises, or sets the summary header and walks both sheets |
| Differator.DifferentiateSheetsByWsCorrected | pyxl_validator/excel_differator.py:33-55 | with the header-wide resolution (see Findings): raises with nothing changed only when resolution raises, which never happens for non-negative registered indices; otherwise sets the summary header, and the sheet and summary are those of the walk over both sheets |

## Left out

- Floating point: floats are exact rationals (`real`). Binary rounding, NaN and infinities are not modelled. `round(x, p)` is exact half-to-even on decimals.
- Strings are sequences of characters. `str.lower()` covers ASCII letters only, and digits are ASCII digits only. Unicode case folding and non-ASCII digits are not modelled.
- `datetime.fromisoformat` covers naive forms only: `YYYY-MM-DD`, optionally followed by any single separator and `HH[:MM[:SS[.fff|.ffffff]]]`. Time zones, ISO week dates and the other forms of newer Python versions are not modelled.
- `load_engine` and `compare_sheets_by_file` open files through openpyxl and pyexcel. These are file I/O and are not part of this model; engines are built from in-memory rows.
- Cell formats hold only a fill colour. Fonts, the format dictionaries returned by `get_cell_format` and `get_row_formats`, and openpyxl styling are not modelled. `set_cell_format` sets a solid fill when the colour is non-empty.
- `__str__` and `__repr__` of the summary and validators, and the pandas-based tests, are not modelled.
- The table engine's `is_readonly` reports the workbook's flag. A writable engine on a read-only workbook still accepts writes in the model, because openpyxl's refusal is not visible in this code.
- openpyxl's row and column limits are not modelled; the grid grows without bound.
- Engines and cursors are assumed distinct: the consumer and the comparison methods require two different enumerators and engines. Comparing a sheet against itself is not modelled.
- `compare_sheets_by_enum` with `validator_arr=None` fails in the source at the first paired cell (with TypeError). The model always passes a list.
- Consumer mode is modelled only with `DiffConsumer`. Other consumer objects are not modelled.
- A validator's `precision` and numeric parameters are plain values. Invalid types, such as a non-integer `float_precision`, are not modelled.

## Findings

| source | as written | input that shows it | evidently intended | confidence | as-written member | corrected member |
|---|---|---|---|---|---|---|
| pyxl_validator/excel_differator.py:52 | `differentiate_sheets_by_ws` calls `resolve_validators(values_row1)` with the default `max_col=1`, and `resolve_validators` (pyxl_validator/table_validator_registry.py:81-84) assigns `validators[index]` for every header column of a list that has only one slot | a reference sheet whose header row has two or more columns, e.g. `["id", "W3"]`: IndexError at index 1 | a list as wide as the header, so that every column gets its validator | high, not executed | Differator.DifferentiateSheetsByWs, Registry.DefaultWidthRejectsWideHeader | Differator.DifferentiateSheetsByWsCorrected, Registry.WideResolutionCoversHeader |
