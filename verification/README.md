# LinkedIn post-analytics exporter, modelled in Dafny

The exporter reads one LinkedIn post-analytics workbook per post and turns
each into one flat row of 21 fields. It then sorts the rows with the most
recent post first. This project models the per-document normalisation at
the heart of `src/index.cjs` as pure functions over strings and a finite
map, and proves what each step does.

The working record is a `map<string, Value>`. `Value` covers the JavaScript
primitives a spreadsheet cell or a stored field can hold.

- **Cleaning** (`Strings`, `Normalize`):
  - A label is trimmed, lower-cased, and each white-space run becomes `_`.
  - A value is trimmed, and each white-space run inside it becomes one space.
  - `regexNumber` (`/^[0-9,.]+$/`) decides which values are numerals. Once its commas are removed, a numeral is read by `parseFloat`.
  - The row-validity filter drops a row with an empty label or a blank value.
- **PERFORMANCE sheet** (`Performance`):
  - Each kept row goes to the field chosen by the first matching rule:
    - the singular and plural counter labels collapse onto one field;
    - the date and the publish time are reformatted;
    - the three "top" labels fill a `reactions_*` slot first and a `comments_*` slot after that;
    - any other label is stored under its own name.
- **TOP DEMOGRAPHICS sheet** (`Demographics`):
  - A "Company size" row stores its raw third cell under a field named after the size range, such as `employees_1_to_10` or `employees_10001_or_more`.
- **Dates** (`Dates`, `Recency`):
  - `formatDate` prints `YYYY-MM-DD` and `formatTime` prints `HH:MM`, both zero-padded.
  - The host's `Date` parser is a parameter (`Clock`).
  - Printed dates with four-digit years sort, as text, in calendar order.
- **Assembly and sorting** (`Assemble`, `Sorting`, `Pipeline`):
  - `formatRow` projects the record onto the fixed 21-field `colOrder` schema. A falsy value falls back to the schema default.
  - The rows are sorted by `post_date`, descending, through `localeCompare`.
  - `Pipeline.Run` chains the steps for a whole batch of workbooks.

Three behaviours of the code are easy to miss:
- A value made only of `,` and `.` (such as `","`) passes `regexNumber` and becomes `NaN`; it is not a finite number.
- A numeral with two dots is read only up to the second dot (`Normalize.NumeralPrefix`).
- The size mapper writes `employees_11_to_50` for the "11-50 employees" bucket. That key is not in `colOrder`, so `formatRow` drops it (`Assemble.ElevenToFiftyDropped`, `Assemble.IgnoresOtherKeys`).

## Model

| member | source | states |
|---|---|---|
| `Strings.Trim` | src/index.cjs:153-154 | The trimmed text is the part of the input between its leading and trailing white-space runs. It has no white space at either edge, and it is empty exactly when the input is all white space. |
| `Strings.TrimKeeps` | src/index.cjs:154 | Text with no white space at its edges is its own trim. |
| `Strings.TrimSurrounded` | src/index.cjs:153-154 | Text with no edge white space, surrounded by white-space runs of any length, trims back to itself. |
| `Strings.Lower` | src/index.cjs:155 | Lower-casing keeps the length and leaves no upper-case letter. Each position is white space before exactly when it is white space after. |
| `Strings.LowerAppend` | src/index.cjs:155 | Lower-casing works character by character, so it commutes with concatenation. |
| `Strings.ReplaceRunsShape` | src/index.cjs:156 | After `replace(/\s+/g, sep)` the only white space left is `sep`, never two in a row. Every other character comes from the input, and the result is empty only for empty input. Leading and trailing white space becomes `sep`. |
| `Strings.ReplaceRunsKeeps` | src/index.cjs:156 | Text without white space passes through the run replacement unchanged. |
| `Strings.ReplaceRunsSplit` | src/index.cjs:158-160 | A white-space run between two pieces becomes exactly one separator, and each piece is rewritten on its own. |
| `Strings.ReplaceAll` | src/index.cjs:301 | `replaceAll(c, rep)` turns a single `c` into `rep` and keeps any other single character. Text without `c` is unchanged, and `c` no longer occurs when `rep` does not contain it. With `ReplaceAllAppend`, this fixes the result character by character. |
| `Strings.ReplaceAllAppend` | src/index.cjs:301 | `replaceAll` commutes with concatenation. |
| `Strings.KeepWordChars` | src/index.cjs:302 | `replace(/\W/g, "")` leaves only word characters. A single character is kept exactly when it is a word character. It never grows the text, and text made only of word characters is unchanged. |
| `Strings.KeepWordCharsAppend` | src/index.cjs:302 | Dropping the non-word characters commutes with concatenation. |
| `Strings.KeepWordCharsCounts` | src/index.cjs:302 | Every word character occurs in the result as often as in the input, and no other character occurs at all. |
| `Strings.IndexOf` | src/index.cjs:303 | `indexOf` returns a position where the pattern occurs, with no occurrence before it, or -1 when the pattern occurs nowhere. |
| `Strings.ReplaceFirst` | src/index.cjs:303 | `replace` with a string pattern splices `rep` in place of the first occurrence: one where the pattern occurs with no occurrence before it. Without an occurrence the text is unchanged. |
| `Strings.ReplaceFirstAtEnd` | src/index.cjs:303 | When the pattern's second character does not occur in `t`, the first occurrence in `t + pat` is the appended one. |
| `Normalize.LabelText` | src/index.cjs:153 | A label cell, with `""` in place of a falsy cell and then `String`, is empty exactly when the cell is falsy. Text is kept as it is. |
| `Normalize.ValueText` | src/index.cjs:158 | `String(value ?? "")` is empty exactly when the cell is `undefined`, `null` or the empty string, and text is kept as it is. |
| `Normalize.CleanKey` | src/index.cjs:153-156 | A cleaned label holds no white space and no upper-case letter. It is empty exactly when the label is all white space. |
| `Normalize.CleanKeyTrims` | src/index.cjs:153-156 | White space before and after a label does not change its cleaned key. |
| `Normalize.CleanKeyOfWord` | src/index.cjs:153-156 | A label without white space is only lower-cased. |
| `Normalize.CleanKeyJoinsWords` | src/index.cjs:153-156 | Two words separated by any white-space run are cleaned separately and joined by exactly one `_`. |
| `Normalize.CleanValue` | src/index.cjs:158-160 | A cleaned value has no edge white space, and its only white space is single spaces. It is empty exactly when the value is all white space. |
| `Normalize.CleanValueOfWord` | src/index.cjs:158-160 | A value without white space is kept exactly as it is, with no case change. |
| `Normalize.CleanValueTrims` | src/index.cjs:158-160 | White space before and after a value does not change the cleaned value. |
| `Normalize.CleanValueJoins` | src/index.cjs:158-160 | Two pieces separated by any white-space run are joined by exactly one space. |
| `Normalize.StripCommas` | src/index.cjs:165 | Removing commas leaves no comma, and comma-free text is unchanged. |
| `Normalize.StripCommasKeeps` | src/index.cjs:165 | Removing commas keeps every other character, as often as it occurs. |
| `Normalize.NumeralPrefix` | src/index.cjs:165 | `parseFloat` reads a prefix of the comma-free numeral that holds at most one `.`. When the prefix stops short, the text continues with a second `.`. |
| `Normalize.PrefixStopsAtSecondDot` | src/index.cjs:165 | The numeral is read short only when it holds at least two dots. |
| `Normalize.Coerce` | src/index.cjs:162-166 | A cleaned value becomes a number exactly when it matches `regexNumber`. Otherwise it stays as the same text. |
| `Normalize.CoerceGroupedNumeral` | src/index.cjs:162-166 | A numeral with a digit and at most one dot is read in full: its number is the numeral with the grouping commas removed. |
| `Normalize.RowValidity` | src/index.cjs:168-175 | A row is valid exactly when its label is non-empty and its value text is not blank. A numeric value, 0 included, is never rejected on value grounds. |
| `Normalize.RowLabelEmpty` | src/index.cjs:153-156 | The cleaned label is empty exactly when the first cell is falsy or prints as white space only. |
| `Normalize.ZeroCell` | src/index.cjs:153-166 | The label's fallback with logical-or and the value's fallback with nullish-coalescing differ on the number 0. As a label, 0 becomes the empty string; as a value, it is kept as the number 0. |
| `JsValue.JsString` | src/index.cjs:158 | `String(v)` is empty only for the empty string, and text converts to itself. |
| `JsValue.NumberText` | src/index.cjs:158 | `String(n)` never starts with `.`, and a leading `0` is followed by `.` or nothing. |
| `Numbers.NumberTextSameNumber` | src/index.cjs:158 | The text `String(n)` prints for a decimal literal is again a decimal literal, and it denotes the same number. |
| `Numbers.SameNumberTruthy` | src/index.cjs:169 | Two literals that denote the same number are both zero or both non-zero, so both falsy or both truthy. |
| `Numbers.CoerceLiteral` | src/index.cjs:163-166 | A decimal literal matches `regexNumber` and is read in full by `parseFloat`. |
| `Numbers.NumericCell` | src/index.cjs:158-166 | A numeric value cell comes out of cleaning and coercion as the number `String` printed for it, which is the cell's own number. It is truthy exactly when the cell was. |
| `Performance.SkipsExactly` | src/index.cjs:151-175 | A sheet row is dropped exactly when its label cleans to nothing or its value cell is blank. |
| `Performance.ReconcileChangesOneField` | src/index.cjs:177-277 | One kept row removes no field and changes at most one. A changed field holds the value that row writes. A `__proto__` row changes nothing. |
| `Performance.SynonymsCollapse` | src/index.cjs:177-211 | `comment`/`comments`, `impression(s)`, `reaction(s)` and `repost(s)` each write only their plural field, and nothing else changes. |
| `Performance.LaterSynonymWins` | src/index.cjs:177-211 | Of two kept rows of one synonym group, the later value is the one the field keeps. |
| `Performance.TopLabelSlot` | src/index.cjs:231-274 | A top label fills the `reactions_*` slot while that slot is falsy, and the `comments_*` slot once it is truthy. Nothing else changes. |
| `Performance.SlotsByOccurrence` | src/index.cjs:231-274 | Over a run of truthy top-label rows, the first value lands in `reactions_*` and the last of the others in `comments_*`. |
| `Performance.LaterOccurrences` | src/index.cjs:246-259 | Once `reactions_*` is filled, every further occurrence overwrites `comments_*`, and the last one stays. |
| `Performance.FilledSlotStays` | src/index.cjs:231-277 | A truthy `reactions_*` slot never changes again over any later rows, unless a row is labelled with the slot's own name. |
| `Performance.ReconcileKeepsFilledSlot` | src/index.cjs:231-277 | A single row whose label is not the slot's own name leaves a truthy `reactions_*` slot as it was. |
| `Performance.PassThrough` | src/index.cjs:276-277 | A label no rule claims is stored under its own name with the cleaned value, and nothing else changes. |
| `Performance.DateRule` | src/index.cjs:222-229 | A kept `post_date` row stores `formatDate` of its value under `post_date`, and nothing else changes. |
| `Performance.TimeRule` | src/index.cjs:213-220 | A kept `post_publish_time` row stores `formatTime` of its value under `post_publish_time`, and nothing else changes. |
| `Performance.LastDateRow` | src/index.cjs:222-229 | The position of the last kept `post_date` row: a kept `post_date` row with none after it, or -1 exactly when no kept row has that label. |
| `Performance.PostDateFromLastRow` | src/index.cjs:151-278 | After a sheet, `post_date` is `formatDate` of the last kept `post_date` row. With no such row, the field's presence and value are as they were before the sheet. |
| `Performance.PostDateIsText` | src/index.cjs:222-229 | Over any rows, `post_date`, when present, only ever holds non-empty text. |
| `Performance.FoldAppend` | src/index.cjs:151-278 | Processing rows `a` then rows `b` is processing `a + b`. |
| `Dates.NatTextReads` | src/index.cjs:23-26 | `String(n)` reads back as `n` and has no leading zero. |
| `Dates.UnsignedText` | src/index.cjs:23 | A non-negative year prints as digits alone, reading back as the year. |
| `Dates.PadTwoShape` | src/index.cjs:24-25 | `padStart(2, "0")` keeps the text at the end, padded to two characters with `0`. |
| `Dates.TwoDigits` | src/index.cjs:24-25 | A number below 100, printed and padded, is exactly two digits that read back as the number. |
| `Dates.FormatDate` | src/index.cjs:20-30 | The printed date has at least five characters. It contains `N`, as in `NaN-NaN-NaN`, exactly when the host cannot parse the value. |
| `Dates.FormatTime` | src/index.cjs:36-45 | The printed time has at least five characters. It contains `N`, as in `NaN:NaN`, exactly when the host cannot parse the value after the fixed date. |
| `Dates.FormatDateReadsBack` | src/index.cjs:20-30 | A valid date prints as the year's digits, `-`, the 1-based month in two digits, `-`, then the day in two digits. Each part reads back as the date's field. |
| `Dates.DayTextReadsBack` | src/index.cjs:23-26 | The same layout and read-back for the printed local fields themselves. |
| `Dates.FormatTimeReadsBack` | src/index.cjs:36-45 | A valid time prints as `HH:MM`, both two-digit parts reading back as the hours and the minutes. |
| `Recency.DigitOrder` | src/index.cjs:23-25 | Digit strings of the same length compare as text exactly as their numbers compare. |
| `Recency.LexAppend` | src/index.cjs:26 | After prefixes of equal length, text order is the prefixes' order, or the rests' order when the prefixes are equal. |
| `Recency.DashedCalendar` | src/index.cjs:26 | `y-m-d` texts with same-width years and two-digit months and days sort as text exactly in (year, month, day) order. |
| `Recency.TextOrderIsCalendarOrder` | src/index.cjs:20-30 | Two printed dates whose years have the same width sort as text exactly in calendar order. |
| `Recency.FourDigitYear` | src/index.cjs:23 | A year from 1000 to 9999 prints with four digits. |
| `Recency.MostRecentFirst` | src/index.cjs:93-96 | Rows sorted by their printed `post_date` with four-digit years are in calendar order, most recent first. |
| `Demographics.RangeKey` | src/index.cjs:308-311 | The field name is `employees_` then the token, with a suffix added exactly when that name ends in `10001`. |
| `Demographics.RangeTokenOf` | src/index.cjs:297-303 | A label `w + " employees"` made of digits, `,`, `-` and `+` reduces to `w` with `-` spelled `_to_` and the other non-word characters dropped. |
| `Demographics.TokenOfWord` | src/index.cjs:297-303 | The same reduction for any lower-case unit word that neither `_to_` nor a digit can start. |
| `Demographics.RangeTokenWordChars` | src/index.cjs:297-303 | Every size token, from any cell, is made of word characters only. |
| `Demographics.DropKeepsWordChars` | src/index.cjs:303 | Removing the first `_employees` from word-character text leaves word-character text. |
| `Demographics.ClosedBucket` | src/index.cjs:297-303 | A closed range `lo-hi employees` becomes `lo_to_hi`, with thousands commas dropped. |
| `Demographics.ClosedKey` | src/index.cjs:308-311 | A closed range's field gains `_or_more` exactly when its upper bound ends in `10001`. |
| `Demographics.OpenBucket` | src/index.cjs:297-303 | An open range `lo+ employees` becomes `lo`, with thousands commas dropped. |
| `Demographics.OpenKey` | src/index.cjs:308-311 | An open range's field gains `_or_more` exactly when its digits end in `10001`. |
| `Demographics.SmallestBucket` | src/index.cjs:297-311 | "1-10 employees" fills `employees_1_to_10`. |
| `Demographics.LargestBucket` | src/index.cjs:297-311 | "10,001+ employees" fills `employees_10001_or_more`. |
| `Demographics.DigitGroups` | src/index.cjs:302 | A thousands comma between digit groups is dropped. |
| `Demographics.SizeFieldIsSizeKey` | src/index.cjs:308-311 | Every size row writes a field starting with `employees_`. |
| `Demographics.FoldUntouched` | src/index.cjs:290-316 | A field that no size row writes keeps its presence and its value over the whole sheet. |
| `Demographics.OtherFieldsKept` | src/index.cjs:290-316 | Fields outside the `employees_` family, such as the date, the counters and the top slots, pass through the sheet unchanged. |
| `Demographics.NoSizeRows` | src/index.cjs:306 | A sheet with no "Company size" row leaves the record as it was. |
| `Demographics.LastSizeRowWins` | src/index.cjs:306-314 | The last size row for a field wins, and its third cell is stored raw. |
| `Demographics.SizeRowLabel` | src/index.cjs:292-306 | A first cell of two words that lower-case to "company" and "size", separated by any white space, marks a size row. |
| `Demographics.CompanySizeRow` | src/index.cjs:292-306 | "Company size" marks a size row. |
| `Assemble.Project` | src/index.cjs:75-87 | Projecting onto a schema gives one field per schema entry, in order. Each field is the record's value when truthy, else the default. |
| `Assemble.FormatRow` | src/index.cjs:51-87 | `formatRow` gives exactly the 21 `colOrder` keys in order. Each keeps the record's truthy value, and otherwise takes the key's default (0 or null). |
| `Assemble.SchemaKeysDistinct` | src/index.cjs:51-73 | The 21 schema keys are distinct. |
| `Assemble.DefaultsFalsy` | src/index.cjs:51-73 | Every schema default is falsy. |
| `Assemble.AsMapOfDistinct` | src/index.cjs:77-86 | With distinct keys, the object built by assigning the fields in order holds exactly those fields. |
| `Assemble.SameRow` | src/index.cjs:80-83 | Two records give the same row exactly when they pick the same value for every schema field. |
| `Assemble.IgnoresOtherKeys` | src/index.cjs:80-83 | Setting a key outside the schema never changes the output row. |
| `Assemble.ElevenToFiftyDropped` | src/index.cjs:51-73 | `employees_11_to_50` is not a schema key. |
| `Assemble.FormatRowIdempotent` | src/index.cjs:75-87 | Assembling an assembled row again changes nothing. |
| `Sorting.LexTotal` | src/index.cjs:95 | Any two texts are comparable. |
| `Sorting.LexAntisymmetric` | src/index.cjs:95 | Texts each no later than the other are equal. |
| `Sorting.LexTransitive` | src/index.cjs:95 | Text order is transitive. |
| `Sorting.CompareText` | src/index.cjs:95 | `localeCompare` is 0 exactly on equal texts, and negative exactly when the receiver sorts first. |
| `Sorting.CompareTextFlips` | src/index.cjs:95 | Swapping the operands flips the sign. |
| `Sorting.ByRecentDate` | src/index.cjs:93-96 | The comparator keeps `a` before `b` exactly when `b`'s date sorts no later than `a`'s. |
| `Sorting.Insert` | src/index.cjs:332 | Inserting into a descending list gives a descending list with one more copy of the row. |
| `Sorting.Sort` | src/index.cjs:332 | Sorting gives a permutation of its input, in descending `post_date` order. |
| `Sorting.SortByRecentDate` | src/index.cjs:332 | `jsonList.sort(sortByRecentDate)` gives a permutation of its input, in descending `post_date` order. |
| `Sorting.DescendingPairwise` | src/index.cjs:332 | In a sorted list every earlier row has a date no earlier, as text, than every later row. |
| `Sorting.SortAgreesWithComparator` | src/index.cjs:93-96 | On rows with text dates, the comparator never asks to swap two adjacent rows of the result. |
| `Sorting.SortKeepsOrdered` | src/index.cjs:332 | Rows already in descending order are left exactly as they are. |
| `Sorting.InsertOnly` | src/index.cjs:332 | Inserting a row places it ahead of the rows with the same date and leaves their order unchanged. |
| `Sorting.OnlyFilters` | src/index.cjs:332 | The rows picked out for one date all have that date, and each occurs in the input at least as often. |
| `Sorting.SortIsStable` | src/index.cjs:332 | The sort is stable: for every date, the rows with that date come out in the order they went in. |
| `Sorting.SortIdempotent` | src/index.cjs:332 | Sorting twice is sorting once. |
| `Pipeline.Document` | src/index.cjs:136-321 | Every document yields a row with exactly the schema's keys, in order. |
| `Pipeline.RecordDate` | src/index.cjs:136-318 | The working record's `post_date` is `formatDate` of the last kept `post_date` row of the PERFORMANCE sheet. It is missing when there is no such row, because the TOP DEMOGRAPHICS pass never writes it. |
| `Pipeline.DocumentDate` | src/index.cjs:136-321 | A document's `post_date` is `formatDate` of the last kept `post_date` row of its PERFORMANCE sheet. It is null exactly when there is no such row. |
| `Pipeline.DocumentDateIsText` | src/index.cjs:136-321 | A document's `post_date` is either null or non-empty text, never another kind of value. |
| `Pipeline.Rows` | src/index.cjs:128-329 | One row per document, in directory order. |
| `Pipeline.Run` | src/index.cjs:128-332 | The run fails exactly when there are two or more documents and some date is not text. Otherwise it yields a permutation of the document rows, most recent first. |

## Left out

- Directory and file I/O is not modelled: `readdir`, the `.xlsx`/`~` file-name filter, the output directory and the CSV and Excel writers. The model starts from the workbooks already read and ends at the sorted rows.
- The `xlsx` library is not modelled: `readFile` and `sheet_to_json` are foreign code. A workbook is the two optional sheets, each a sequence of rows of cells.
- The `Array.isArray` check is left out, because `sheet_to_json` always returns an array.
- The per-file `try`/`catch` is not modelled, and neither is console logging. The only throw inside the core is the comparator's, which `Pipeline.Run` reports as `None`.
- The `Date` constructor and its locale- and time-zone-dependent parsing are not modelled, because they are host behaviour. `Dates.Clock` takes the parsed local fields as a parameter.
- `localeCompare` is modelled as code-point order (Dafny characters are Unicode scalar values), which differs from UTF-16 code-unit order only above U+FFFF. On the ASCII digit-and-dash text `formatDate` prints, this agrees with any locale's collation.
- `toLowerCase` is modelled for Basic Latin and Latin-1 only, because the labels are English.
- `String(number)` is modelled without exponent notation and without double-precision rounding. Numbers are kept as the decimal literal `parseFloat` reads.
- Property order of the working record is not modelled; the record is a map. The output row keeps `colOrder`'s order as a sequence of fields.
- `Array.prototype.sort` is modelled as an insertion sort, proved stable (`Sorting.SortIsStable`). The comparator is a consistent total preorder, so any stable sort gives the same result.
- `Pipeline.Run`: it reports a failure whenever two or more rows include one whose `post_date` is not text. The engine throws only if such a row is passed as the comparator's second argument, which depends on the engine's call pattern.
- `Sorting.SortByRecentDate`: with two or more rows it requires every `post_date` to be text, which is stronger than the engine needs, for the same reason.
- `Recency.TextOrderIsCalendarOrder`: it is stated only for years printed with the same number of digits. A three-digit year sorts after a later four-digit one.
- `Recency.MostRecentFirst`: it is stated only for years from 1000 to 9999.
- `Dates.FormatDateReadsBack`: it is stated only for non-negative years. A negative year prints with a leading `-`, which the model does produce.
- `Normalize.CoerceGroupedNumeral`: it is stated only for numerals with at most one dot. `Normalize.NumeralPrefix` covers the rest.
