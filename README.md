# bun-excel analysis core in Dafny

This project models the data path of a small spreadsheet-analysis server: CSV text becomes a list of header-keyed rows, and a handful of aggregators fold those rows into counts and sums. The Dafny code models that path and proves what each step computes.

**Ingestion** comes from two CSV readers:
- the server entry point's hand-rolled reader, which splits on newlines and commas, strips quotes and coerces with `parseFloat`;
- the service that post-processes `csv-parse` output. It applies a row limit and a column limit, trims every cell, turns a blank cell into `null`, and reads a decimal written with a point or a comma as a number.

**Normalisation** (`normalizeName`) proceeds as follows:
1. trim;
2. strip accents;
3. optionally lower-case;
4. collapse white space;
5. trim again.

**Splitting** reads every character of a delimiter string as an alternative separator. Pieces are trimmed, and empty pieces are dropped.

**Aggregators**, all over one column of the rows:
- `countColumnOccurrences` is a histogram of normalised values;
- `countUniqueColumnValues` is the number of distinct normalised values;
- `countUnifiedPeople` does both, after removing `(...)` groups from each value;
- `countDistinctCombinations` counts the distinct tuples of normalised values across several columns;
- `sumColumnValues` adds currency-formatted amounts. It decides between a European grouping ("1.234,56"), a US grouping ("1,234.56") and a plain decimal comma ("1234,56"), then rounds with `toFixed(2)`.

## Modules and how they are modelled
| module | file | what it holds |
|---|---|---|
| `Wrappers` | `wrappers.dfy` | the `Option` type |
| `JsText` | `js_text.dfy` | the string built-ins the source calls: `trim`, `split` on a character class, `join`, character removal and the two `replace` forms |
| `JsNumber` | `js_number.dfy` | `parseFloat` on a leading decimal literal; `String(number)` for numbers without an exponent; `toFixed(2)` |
| `Records` | `records.dfy` | a cell value (`string`, number or `null`); a row as an insertion-ordered object; `row[key] = v`; `String(v)` |
| `Normalize` | `normalize.dfy` | `normalizeName`; removal of `(...)` groups |
| `Splitter` | `splitter.dfy` | the regular expression built from a delimiter string; the split/trim/filter chain |
| `Counting` | `counting.dfy` | the three token-counting aggregators |
| `Combinations` | `combinations.dfy` | `countDistinctCombinations` |
| `Amounts` | `amounts.dfy` | `sumColumnValues`, with its locale decision table |
| `Ingestion` | `ingestion.dfy` | the `csv-parse` post-processing |
| `SimpleCsv` | `simple_csv.dfy` | the hand-rolled reader |

**How the source is modelled in Dafny**
- The pure pieces of the source are functions.
- Each loop of the source is a `method` with a loop and invariants. It is proved equal to a specification function: `Histogram(ColumnTokens(...))`, `Distinct(...)`, `Combinations(...)`, `ToFixed2(ColumnSum(...))`, `Truncated(...)`, `CleanedRow(...)`, `Parsed(...)`.
- Lemmas then state the properties of those functions.
- No object of the core keeps state between calls. The dictionaries, sets and arrays the loops fill are local `map`, `set` and `seq` variables.

## Model
| member | source | states |
|---|---|---|
| JsText.Trim | src/services/analysis.ts:17 | the result has no white space at either end |
| JsText.TrimShape | src/services/analysis.ts:17 | `trim` removes exactly a white-space prefix and suffix; it leaves trimmed text alone; it gives "" exactly for blank text |
| JsText.TrimIdempotent | src/services/analysis.ts:28 | trimming twice is trimming once |
| JsText.Split | index.ts:56 | there is at least one piece, and no piece holds a separator or a character foreign to the input |
| JsText.SplitCount | index.ts:56 | the number of pieces is the number of separators plus one |
| JsText.JoinSplit | src/services/analysis.ts:73-74 | joining the pieces of a split with the separator rebuilds the input |
| JsText.SplitJoin | src/services/analysis.ts:73-74 | splitting separator-free parts joined by a separator gives the parts back |
| JsText.RemoveCharsMembers | index.ts:64 | `replace(/['"\r]/g, "")` keeps exactly the characters outside the removed set |
| JsText.KeepCharsMembers | src/services/analysis.ts:242 | `replace(/[^0-9.,-]+/g, "")` keeps exactly the characters of the kept set |
| JsText.ReplaceAll | src/services/analysis.ts:258 | each occurrence of the character is replaced and nothing else changes |
| JsText.ReplaceFirst | src/services/csv-parser.ts:92 | the length is kept, and text without the character is unchanged |
| JsNumber.ParseFloat | src/services/analysis.ts:261 | `parseFloat` yields a number exactly when the text, after leading white space, starts with a decimal literal |
| JsNumber.ParseDecimalText | src/services/csv-parser.ts:92 | `parseFloat` of a written decimal is that decimal's value, sign included |
| JsNumber.ParseFloatPrefixExample | index.ts:83 | `parseFloat("12ab")` is 12: a numeric prefix suffices |
| JsNumber.ParseWholeNumberText | src/services/analysis.ts:66 | `parseFloat(String(x))` is `x` for a whole number |
| JsNumber.ToFixed2Properties | src/services/analysis.ts:269 | `Number(x.toFixed(2))` is a whole number of hundredths, within 0.005 of `x`, and rounding again changes nothing |
| Records.EmptyRow | index.ts:74 | `{}` has no keys and is a well-formed object |
| Records.Assign | index.ts:89 | `row[key] = v` appends a new key to the key order, keeps an existing key in place, and preserves well-formedness |
| Normalize.DropMarks | src/services/analysis.ts:20 | no combining mark (U+0300 to U+036F) is left |
| Normalize.StripAccentsStable | src/services/analysis.ts:20 | after decomposing and dropping marks, every character is stable under decomposition |
| Normalize.ToLower | src/services/analysis.ts:24 | the result lower-cases each character in place |
| Normalize.CollapseSpacing | src/services/analysis.ts:28 | after `replace(/\s+/g, " ")` the only white space is single spaces |
| Normalize.NormalizeNameShape | src/services/analysis.ts:16-29 | the result has no white space at either end, no white-space run, and no white space other than a single space; it holds no combining mark; it is lower-case when asked |
| Normalize.NormalizeFixedPoint | src/services/analysis.ts:16-29 | text already of that shape is returned unchanged |
| Normalize.NormalizeIdempotent | src/services/analysis.ts:16-29 | normalising twice is normalising once |
| Normalize.NormalizeAvoids | src/services/analysis.ts:16-29 | a punctuation character absent from the input is absent from the name |
| Normalize.StripParenGroups | src/services/analysis.ts:83 | removing `(...)` groups only deletes characters, and text without `(` is unchanged |
| Normalize.NoGroupsLeft | src/services/analysis.ts:83 | no `(` followed later by `)` is left after `replace(/\([^)]*\)/g, "")` |
| Splitter.EscapedClass | src/services/analysis.ts:60 | the escaped delimiter inside `[...]` is a character class of exactly the delimiter's characters |
| Splitter.SplitPattern | src/services/analysis.ts:57-62 | there is no pattern exactly when the delimiter is null or blank; otherwise the pattern matches exactly the delimiter's characters |
| Splitter.Pieces | src/services/analysis.ts:72-79 | without a pattern the cell is the only value; with one, each value is non-empty, trimmed, and made of cell characters that are not separators |
| Splitter.SplitRoundTrip | src/services/analysis.ts:72-79 | splitting trimmed, separator-free values joined by a separator gives back the values |
| Splitter.PiecesExample | src/services/analysis.ts:72-79 | "a, b-c" split on ",-" is "a", "b", "c" |
| Counting.RowValues | src/services/analysis.ts:120-133 | a row offers no value when it lacks the column or its trimmed `String` cell is blank, and otherwise offers the pieces of that cell |
| Counting.RowPiecesShape | src/services/analysis.ts:122-133 | a row offers at most one value without a pattern, and every value is non-empty and trimmed |
| Counting.TallyOccurrences | src/services/analysis.ts:135-145 | the inner loop adds one to the count of each non-empty normalised value |
| Counting.CountColumnOccurrences | src/services/analysis.ts:104-149 | the result is the histogram of the non-empty normalised values of the column, row after row |
| Counting.CollectUnique | src/services/analysis.ts:185-193 | the inner loop adds each non-empty normalised value to the set |
| Counting.CountUniqueColumnValues | src/services/analysis.ts:154-197 | the result is the number of distinct non-empty normalised values of the column |
| Counting.TallyPeople | src/services/analysis.ts:81-92 | the inner loop counts and collects each non-empty name, its `(...)` groups removed first |
| Counting.CountUnifiedPeople | src/services/analysis.ts:44-99 | `people` is the histogram of the names with groups removed, and `total_unique_people` is its number of keys |
| Counting.HistogramCounts | src/services/analysis.ts:142-143 | the histogram's keys are exactly the tokens, and each count is the token's multiplicity |
| Counting.HistogramKeys | src/services/analysis.ts:88-90 | the histogram's key set equals the set of distinct tokens, and every count is at least 1 |
| Counting.HistogramTotal | src/services/analysis.ts:135-145 | the counts add up to the number of tokens processed |
| Counting.DistinctMembers | src/services/analysis.ts:190-191 | the set holds exactly the tokens seen |
| Counting.OccurrenceKeys | src/services/analysis.ts:120-148 | every key is a non-empty normalised name that normalises to itself, and the counts add up to the number of values counted |
| Counting.UniqueIsKeyCount | src/services/analysis.ts:154-197 | the unique count equals the number of keys of the occurrence histogram for the same arguments |
| Counting.TokenNormalised | src/services/analysis.ts:139 | every counted name has the normalised shape, and is lower-case when asked |
| Counting.ColumnTokensNormalised | src/services/analysis.ts:120-148 | every name counted from a column has the normalised shape |
| Counting.ColumnTokensAppend | src/services/analysis.ts:120 | the names of concatenated row lists are the concatenated names |
| Counting.SkippedRow | src/services/analysis.ts:121-123 | a row lacking the column, or with a blank cell, contributes nothing wherever it stands |
| Counting.NullCellCounted | src/services/analysis.ts:122 | a `null` cell is not skipped: without a pattern it is counted as the value "null" |
| Counting.DistinctBound | src/services/analysis.ts:191 | there are at most as many distinct tokens as tokens |
| Counting.UniqueBoundWithoutSplit | src/services/analysis.ts:170-183 | without a split pattern, the unique count is at most the number of rows |
| Counting.NormalizeTrimmed | src/services/analysis.ts:83-85 | trimming before `normalizeName` changes nothing |
| Counting.TokensWithoutGroups | src/services/analysis.ts:83 | values without `(` are named the same with or without group removal |
| Counting.PeopleMatchOccurrences | src/services/analysis.ts:83 | when no cell holds `(`, the people counts and the occurrence counts see the same names |
| Combinations.PartList | src/services/analysis.ts:303-323 | one part per listed column |
| Combinations.RowCombination | src/services/analysis.ts:300-330 | the inner loop gives the row's key, or none when a column is missing or blank |
| Combinations.CountDistinctCombinations | src/services/analysis.ts:288-334 | the result is 0 without columns, and otherwise the number of distinct keys of the valid rows |
| Combinations.GatherShape | src/services/analysis.ts:303-325 | a row is valid exactly when every column gives a part, and its parts are those parts in column order |
| Combinations.CombinationMembers | src/services/analysis.ts:328-329 | the set holds exactly the keys of the valid rows |
| Combinations.CombinationsBound | src/services/analysis.ts:333 | there are at most as many combinations as rows |
| Combinations.RowOrderIrrelevant | src/services/analysis.ts:299-331 | swapping two blocks of rows does not change the set of combinations |
| Combinations.RowsPermuted | src/services/analysis.ts:299-331 | any reordering of the rows (equal multisets of rows) gives the same set of combinations, so the same count |
| Combinations.SeparatorCollision | src/services/analysis.ts:328 | two different part lists can give the same ":::"-joined key |
| Combinations.JoinInjective | src/services/analysis.ts:328 | part lists of the same length without ':' are told apart by their joined key |
| Combinations.SameKeySameParts | src/services/analysis.ts:328 | for rows without ':' in the listed cells, equal keys mean equal parts |
| Combinations.CountsTuples | src/services/analysis.ts:325-333 | when no listed cell holds ':', the count is the number of distinct part tuples |
| Combinations.PartColonFree | src/services/analysis.ts:315-316 | a cell without ':' gives a part without ':' |
| Combinations.GroupOnlyPart | src/services/analysis.ts:305-317 | a cell "(x)" passes the blank check and contributes the empty part |
| Amounts.ParseAmount | src/services/analysis.ts:242-264 | a non-blank cell is cleaned, rewritten by the decision table and read by `parseFloat` |
| Amounts.SumColumnValues | src/services/analysis.ts:225-270 | the result is the column's sum of readable amounts, rounded to hundredths |
| Amounts.ColumnSumAppend | src/services/analysis.ts:235-265 | the sum over concatenated row lists is the sum of the sums |
| Amounts.SumOrderIrrelevant | src/services/analysis.ts:235-265 | exchanging two blocks of rows leaves the sum unchanged |
| Amounts.SumPermutation | src/services/analysis.ts:235-265 | any reordering of the rows (equal multisets of rows) leaves the sum unchanged |
| Amounts.NoAmountsSumZero | src/services/analysis.ts:229-264 | rows without a readable amount sum to 0 |
| Amounts.ReportedTotal | src/services/analysis.ts:269 | the reported total is within 0.005 of the exact sum |
| Amounts.GroupedSound | src/services/analysis.ts:250 | every text built from one to three digits, groups of three digits after a grouping mark, and an optional decimal tail matches the grouped pattern |
| Amounts.GroupedComplete | src/services/analysis.ts:250 | every text the grouped pattern matches has that shape |
| Amounts.GroupingsExclusive | src/services/analysis.ts:250-253 | no text matches both the European and the US pattern |
| Amounts.RemoveMarks | src/services/analysis.ts:252 | removing the grouping mark leaves all the digits followed by the decimal tail |
| Amounts.EuropeanAmount | src/services/analysis.ts:250-252 | a European grouped amount reads as its digits with the comma as decimal point |
| Amounts.UsAmount | src/services/analysis.ts:253-255 | a US grouped amount reads as its digits with the point as decimal point |
| Amounts.CommaDecimal | src/services/analysis.ts:256-258 | an ungrouped "digits,digits" amount reads with the comma taken for a decimal point |
| Amounts.PointDecimal | src/services/analysis.ts:256-261 | a plain point decimal such as "1234.56" or "-12.5", signed or not and not matching a grouped pattern, reads as the number written |
| Amounts.CommaNotGrouped | src/services/analysis.ts:250-256 | such an amount matches neither grouped pattern, so it reaches the last branch |
| Amounts.AllAmountChars | src/services/analysis.ts:242 | cleaning leaves text made only of digits, points, commas and minus signs unchanged |
| Amounts.PesoExample | src/services/analysis.ts:210 | "$ 8.737" is the amount 8737 |
| Amounts.UsExample | src/services/analysis.ts:219 | "8,737.50" is the amount 8737.5 |
| Amounts.EuropeanExample | src/services/analysis.ts:219 | "1.234,56" is the amount 1234.56 |
| Amounts.CommaExample | src/services/analysis.ts:248 | "1234,56" is the amount 1234.56 |
| Ingestion.LimitRows | src/services/csv-parser.ts:26-31 | the hook keeps at most the records it is given |
| Ingestion.NoLimitKeepsAll | src/services/csv-parser.ts:27 | without `maxRows` every record is kept |
| Ingestion.OneLinePerRecord | src/services/csv-parser.ts:26-31 | when every record takes one line, the first `maxRows` records are kept |
| Ingestion.LimitBound | src/services/csv-parser.ts:26-31 | at most `maxRows` records are ever kept |
| Ingestion.SliceTo | src/services/csv-parser.ts:57 | `slice(0, end)` is a prefix, with a negative end counting from the back |
| Ingestion.RebuildShape | src/services/csv-parser.ts:63-71 | a row rebuilt over distinct keys is well-formed; its keys are the listed keys it owns, in list order; each holds the transformed old value |
| Ingestion.ProjectShape | src/services/csv-parser.ts:63-71 | a truncated record holds exactly the desired headers it owns, in desired order, with their values |
| Ingestion.Truncated | src/services/csv-parser.ts:52-72 | truncation keeps one output record per input record |
| Ingestion.TruncateRecord | src/services/csv-parser.ts:64-70 | the inner loop builds the truncated record |
| Ingestion.TruncateColumns | src/services/csv-parser.ts:52-74 | the records are projected onto the first `maxCols` headers of the first record when `maxCols` is below its width, and are otherwise unchanged |
| Ingestion.NumericComplete | src/services/csv-parser.ts:90 | every optionally signed decimal, with a point or comma mark, matches `/^-?\d+([.,]\d+)?$/` |
| Ingestion.NumericSound | src/services/csv-parser.ts:88-93 | every text the pattern matches is such a decimal, and `parseFloat` after comma-to-point reads its value |
| Ingestion.CleanValueCases | src/services/csv-parser.ts:82-96 | non-strings pass unchanged; a blank string becomes `null`; a non-numeric string becomes its trimmed self; no cell becomes "" |
| Ingestion.CleanDecimal | src/services/csv-parser.ts:88-94 | a cell that trims to a decimal becomes the number it denotes, with the comma as decimal mark |
| Ingestion.SignedTextInjective | src/services/csv-parser.ts:90-92 | a numeric text has one sign, one whole part and one fraction |
| Ingestion.CleanIdempotent | src/services/csv-parser.ts:80-96 | cleaning a cleaned value changes nothing |
| Ingestion.CleanedRowShape | src/services/csv-parser.ts:76-99 | cleaning keeps the row's keys and their order, and cleans each value |
| Ingestion.CleanRow | src/services/csv-parser.ts:77-98 | the inner loop builds the cleaned row |
| Ingestion.Ingested | src/services/csv-parser.ts:49-100 | one output row per kept record |
| Ingestion.ParseCsvToObjects | src/services/csv-parser.ts:26-102 | the result is the kept records, truncated and cleaned; no records give the empty result |
| Ingestion.UntruncatedRow | src/services/csv-parser.ts:52-56 | without truncation a row keeps its keys and order, with cleaned values |
| Ingestion.TruncatedRow | src/services/csv-parser.ts:56-71 | with truncation a row holds only desired headers, at most `maxCols` of them, in desired order, with cleaned values |
| Ingestion.FirstRecordHeaders | src/services/csv-parser.ts:55-57 | the first row's keys become the first `maxCols` original headers |
| SimpleCsv.Fields | index.ts:62-64 | a line has as many fields as comma-separated pieces |
| SimpleCsv.FieldsClean | index.ts:62-64 | a field holds no quote, carriage return, comma or newline |
| SimpleCsv.CoerceCases | index.ts:83-87 | a field becomes a number exactly when `parseFloat` reads one and the field is not blank; otherwise it stays the string |
| SimpleCsv.CoercePrefixExample | index.ts:83-87 | the field "12ab" becomes the number 12 |
| SimpleCsv.FillRow | index.ts:78-90 | the inner loop assigns each header its coerced field |
| SimpleCsv.AssignedKeys | index.ts:78-90 | a row is well-formed and its keys are exactly the headers |
| SimpleCsv.AssignedLast | index.ts:89 | a header holds the value of its last occurrence |
| SimpleCsv.BuildRowShape | index.ts:78-90 | a row's keys are the headers, and each holds the coerced field of its last occurrence |
| SimpleCsv.DistinctHeaderKeys | index.ts:78-90 | with distinct headers the row's keys are the headers in order |
| SimpleCsv.RowHasKeys | index.ts:91-93 | with at least one header every filled row has a key, so it is pushed |
| SimpleCsv.LineRowCases | index.ts:77-100 | a line gives a row exactly when its field count equals the header count |
| SimpleCsv.ParseCsvToObjectsFlexible | index.ts:55-104 | the result is the rows of the data lines, in line order |
| SimpleCsv.DataRowsAppend | index.ts:69-103 | a skipped line does not stop the parse: the rows of joined line lists are the joined rows |
| SimpleCsv.RowCount | index.ts:69-103 | there is one row per line of matching width, so at most one per line |
| SimpleCsv.ParsedBound | index.ts:56-103 | there are at most as many rows as newlines in the trimmed input, and none without a newline |
| SimpleCsv.BlankLineKept | index.ts:70-93 | with a single header a blank data line becomes a row holding "" |

## Left out
- Numbers are exact reals, not IEEE doubles. This affects the running sum's rounding error, `toFixed(2)` ties at binary boundaries, and the values `parseFloat` reads from long decimals.
- `parseFloat` does not read "Infinity" or hexadecimal text. `String(number)` is modelled for numbers without an exponent form, cut at 20 fraction digits.
- `normalize("NFD")` and `toLowerCase` are explicit tables for Latin-1 letters. Other scripts pass unchanged, and strings are sequences of characters rather than UTF-16 code units.
- The `csv-parse` library is not part of this model: tokenising, quoting, its own trimming, skipping empty lines and its error callback at src/services/csv-parser.ts:33-41. The model takes its output as given, each record with the line number the library reports.
- `maxRows` and `maxCols` are integers in the model. Zero and negative values are compared and sliced as JavaScript does. Fractional values are not modelled.
- `Object.keys` order is modelled as pure insertion order. JavaScript lists integer-like keys first, and `__proto__` is a special key; neither is modelled.
- The regular expressions are written as predicates over characters (`Amounts.Grouped`, `Ingestion.NumericText`, `Splitter.ClassMembers`). Each matcher is proved against a constructive description of the texts it accepts, in both directions where the source relies on both.
- The check `lines.length === 0` at index.ts:57-59 can never succeed, because `split` always returns a piece. The check `if (firstRecord)` at src/services/csv-parser.ts:54 always succeeds there. Neither has a branch in the model.
- Console logging (src/services/csv-parser.ts:35-39, 58-61; index.ts:95-100) is left out.
- The HTTP routes, the Mongo connection, configuration and server bootstrap are outside the core.
- Counting.TallyOccurrences, Counting.CountColumnOccurrences, Counting.TallyPeople, Counting.CountUnifiedPeople: the counters are maps that start empty, so every key starts at 0. The source counts into plain `{}` objects with `x[key] || 0`, which reads inherited `Object.prototype` properties. A value "constructor" (and, with `toLowercase` false, "toString", "valueOf", "hasOwnProperty" and the like) starts from a function, so its count becomes a string such as "function Object() { [native code] }1". A value "__proto__" is not stored in `people` but is added to `uniquePeopleSet`, so `total_unique_people` is then one more than the number of keys. The model starts these keys at 0 like every other.
- Counting.UniqueBoundWithoutSplit: the unique count is bounded by the row count only without a split pattern. With splitting, one row can hold many distinct values, so no such bound holds.
- Ingestion.LimitBound: in general the number of kept records is only bounded by `maxRows`, not equal to it. A record spanning several lines, or blank lines the library skipped, move the line numbers on.

## Quirks of the source
Each of these is behaviour of the code that a reader of its description might not expect. The model follows the code in each case.
- Header and field cleaning removes every `'`, `"` and `\r`, wherever it stands (index.ts:64, 72), not only at the ends (`SimpleCsv.FieldsClean`).
- The hand-rolled reader coerces any field with a `parseFloat`-readable prefix, so "12ab" becomes 12 (`SimpleCsv.CoercePrefixExample`). Only the `csv-parse` path uses the plain decimal pattern.
- The hand-rolled reader does not skip empty lines. With a single header, a blank data line becomes a row holding "" (`SimpleCsv.BlankLineKept`).
- `maxRows` limits by the line number the library reports, not by the number of rows produced (`Ingestion.LimitBound`, `Ingestion.OneLinePerRecord`).
- The ":::" separator can collide with normalised content (`Combinations.SeparatorCollision`). Keys are faithful only when no listed cell holds ':' (`Combinations.CountsTuples`).
- The unique count is at most the row count only without splitting (`Counting.UniqueBoundWithoutSplit`).
- A cell that is only a `(...)` group passes the blank check and contributes an empty part to its combination (`Combinations.GroupOnlyPart`).
- `countColumnOccurrences` does not remove `(...)` groups (`Counting.TokensWithoutGroups` relates it to `countUnifiedPeople`).
- A `null` cell is counted as "null" (`Counting.NullCellCounted`).
- "1.234" reads as 1234 (European grouping), and "1,234" reads as 1234 as well (US grouping). A three-digit fraction after a single mark is therefore never a fraction (`Amounts.CommaNotGrouped` needs `|frac| != 3` or a longer whole part).
