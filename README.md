# Eat My Bubbles: the swim-times pipeline, modelled in Dafny

The Eat My Bubbles page shows one swimmer's personal best for a selected
course and event. It compares that best with two qualifying standards,
Regionals and State. Its data comes from two published spreadsheets: the
swimmer's results and the standards. This project models the page's data
path from downloaded text to card:

- **Time codec** (`time_codec.dfy`). `parseTime` reads "SS.hh", "M:SS.hh" or
  "DQ" into seconds or no time. `toTimeStr` prints seconds back as text.
- **CSV reader** (`csv.dfy`, with `strings.dfy` for `trim` and `split`). The
  sheet text becomes one record per data line, keyed by the trimmed column
  names.
- **Personal-best table** (`personal_bests.dfy`). The `forEach` over the
  results keeps, per (course, event), the fastest time with its meet and
  date. A later row replaces the entry only when strictly faster.
- **Standards table** (`standards.dfy`). The `forEach` over the standards
  stores, per (level, course, event), the threshold time. The last row wins.
- **Age** (`age.dfy`). The year difference, less one before the birthday.
- **Qualification card** (`qualification.dfy`). It shows whether the best
  meets the standard, by how much it misses, and the status line.

Times are exact reals. The model represents a number as either a finite
value or NaN. It reads every segment that is not an unsigned decimal as NaN
(see "Left out" for the forms `parseFloat` accepts beyond that), and the fold
keeps NaN. A JavaScript `undefined` or `null` is `None` of an `Option`.
The two `forEach` loops are methods with `while` loops over map-valued
tables. Each is proved equal to a left fold of a one-row step function. The
fold is proved, in turn, equal to a definition that does not mention the
table: the earliest fastest row, or the last row.

Where the design description and the code differ, the model follows the code:

- A time segment that is not a number gives NaN, not an explicit parse error.
  NaN is falsy, so both loops skip such a row.
- A parsed time of 0 is falsy too, so both loops skip it.
- A row that passes the truthiness test but names a course other than "SCY"
  or "LCM" makes the table lookup throw. The same holds for a standards row
  that names a level other than "Regionals" or "State". The load then stops,
  and no table is set. The design says a bad row never aborts the load; the
  code does abort here. The model returns `None`, and
  `PersonalBestsAbortIff` and `StandardsAbortIff` state exactly when.

## Model

| member | source | states |
|---|---|---|
| TimeCodec.ParseTime | v0-prototype/src/app/page.tsx:53-57 | no time exactly when the text is absent, empty or "dq" in any case; a parsed number is never negative |
| TimeCodec.Reduce | v0-prototype/src/app/page.tsx:56 | the left fold `acc * 60 + val` is a number exactly when every segment is, and is non-negative when they are |
| TimeCodec.ParseFloat | v0-prototype/src/app/page.tsx:55 | a segment that parses is a non-negative number |
| TimeCodec.ParseTimeOneSegment | v0-prototype/src/app/page.tsx:53-57 | text without a colon reads as `parseFloat` of the whole text |
| TimeCodec.ParseTimeTwoSegments | v0-prototype/src/app/page.tsx:55-56 | "M:S" reads as minutes times 60 plus seconds, and is a number exactly when both parts are |
| TimeCodec.ParseTimeNoTimeExamples | v0-prototype/src/app/page.tsx:54 | "DQ", "dq", the empty text and a missing column read as no time |
| TimeCodec.ParseTimeSecondsExample | v0-prototype/src/app/page.tsx:53-57 | "59.99" reads as 59.99 seconds |
| TimeCodec.RoundHundredths | v0-prototype/src/app/page.tsx:62 | `toFixed(2)` picks the hundredth nearest to the value, ties upwards |
| TimeCodec.ToFixed2Exact | v0-prototype/src/app/page.tsx:62 | a whole number of hundredths printed with `toFixed(2)` reads back exactly |
| TimeCodec.ToFixed2ReadsBack | v0-prototype/src/app/page.tsx:62 | a non-negative value printed with `toFixed(2)` reads back as the value rounded to the hundredth; a negative one prints with a leading minus |
| TimeCodec.JsRemRange | v0-prototype/src/app/page.tsx:62 | for a non-negative time, `seconds % 60` lies in [0, 60) |
| TimeCodec.WithMinutesShape | v0-prototype/src/app/page.tsx:63 | the minutes prefix and colon appear exactly when the minutes are positive, and the part after the colon is the seconds field unchanged |
| TimeCodec.RoundMinutesAndSeconds | v0-prototype/src/app/page.tsx:61-62 | rounding whole minutes plus a remainder to hundredths adds 6000 hundredths per minute to the rounded remainder |
| TimeCodec.ToTimeStrReadsBack | v0-prototype/src/app/page.tsx:59-64 | a non-negative time printed by `toTimeStr` as written reads back through `parseTime` as the time rounded to the hundredth, even though the minutes are split off before rounding |
| TimeCodec.ToTimeStr | v0-prototype/src/app/page.tsx:59-64 | the text is "-" exactly when there is no time |
| TimeCodec.ToTimeStrColon | v0-prototype/src/app/page.tsx:61-63 | the printed time has a colon exactly when it is a minute or more |
| TimeCodec.ToTimeStrSecondsField | v0-prototype/src/app/page.tsx:62 | the seconds field has at least 5 characters and ends in a point and two digits |
| TimeCodec.RoundTrip | v0-prototype/src/app/page.tsx:53-64 | a non-negative whole number of hundredths, printed and read back, is itself |
| TimeCodec.MinutesExample | v0-prototype/src/app/page.tsx:53-64 | "1:02.34" reads as 62.34, and 62.34 prints as "1:02.34" |
| TimeCodec.PaddedExample | v0-prototype/src/app/page.tsx:62-63 | 9.4 prints as "09.40" |
| TimeCodec.SixtySecondsShown | v0-prototype/src/app/page.tsx:61-62 | as written, 59.996 prints as "60.00", whose seconds field reads 60 |
| TimeCodec.ToTimeStrRounded | v0-prototype/src/app/page.tsx:59-64 | the corrected formatter of the finding below, which rounds before the split, also prints "-" exactly when there is no time |
| TimeCodec.ToTimeStrRoundedCanonical | v0-prototype/src/app/page.tsx:59-64 | the corrected text reads back as the time rounded to the hundredth, within half a hundredth, with seconds below 60 |
| SwimTypes.CourseOf | v0-prototype/src/app/page.tsx:107-109 | the table `pb[c]` exists exactly when `c` is "SCY" or "LCM", and the course found has that name |
| SwimTypes.LevelOf | v0-prototype/src/app/page.tsx:116-118 | the table `std[s]` exists exactly when `s` is "Regionals" or "State", and the level found has that name |
| Strings.Split | v0-prototype/src/app/page.tsx:77-80 | `split` gives at least one piece, and no piece holds the separator |
| Strings.JoinSplit | v0-prototype/src/app/page.tsx:77-80 | joining the pieces with the separator gives the text back |
| Strings.NatToString | v0-prototype/src/app/page.tsx:63 | `${min}` prints one or more digits, with no leading zero unless the number is 0 |
| Strings.NatToStringValue | v0-prototype/src/app/page.tsx:63 | the printed digits read back as the number |
| Strings.PadStartZeros | v0-prototype/src/app/page.tsx:62 | `padStart(5, '0')` gives text of the width, or the text itself when it is already that long |
| Strings.PadStartZerosIsZerosThen | v0-prototype/src/app/page.tsx:62 | padding puts only zeros in front, and the text follows unchanged |
| Strings.TrimIsSlice | v0-prototype/src/app/page.tsx:77 | `trim` keeps one contiguous slice and removes only white space before and after it |
| Strings.TrimmedEnds | v0-prototype/src/app/page.tsx:77 | trimmed text has no white space at either end |
| Csv.ZipField | v0-prototype/src/app/page.tsx:81-84 | the reduce leaves under each name the value of the last column with that name, or nothing when the line is too short |
| Csv.ZipRecordField | v0-prototype/src/app/page.tsx:79-84 | a record's field is the trimmed value under the last column of that trimmed name, and is absent when there is no such column or no value there |
| Csv.ZipRecordColumn | v0-prototype/src/app/page.tsx:81-84 | with distinct names, column `i` holds trimmed `values[i]` when the line reaches it and is absent otherwise |
| Csv.ZipRecordKeys | v0-prototype/src/app/page.tsx:81-84 | a record has no field other than the trimmed column names |
| Csv.ZipLines | v0-prototype/src/app/page.tsx:79-85 | one record per line, each the zip of the headers with that line's values |
| Csv.LinesJoin | v0-prototype/src/app/page.tsx:77 | the lines of the trimmed text hold no newline and, joined with newlines, give the trimmed text back |
| Csv.ParseCsv | v0-prototype/src/app/page.tsx:77-85 | one record for every line after the header line |
| Csv.ParseCsvField | v0-prototype/src/app/page.tsx:77-85 | record `j` holds the trimmed values of line `j + 1` under the trimmed header names |
| PersonalBests.ReadResult | v0-prototype/src/app/page.tsx:107-110 | the time read from a row is never negative |
| PersonalBests.PbStep | v0-prototype/src/app/page.tsx:106-111 | a skipped row changes nothing; an unknown course throws; otherwise only the row's key changes, and its entry is replaced only by a strictly faster time; stored times stay positive |
| PersonalBests.PersonalBestsOf | v0-prototype/src/app/page.tsx:104-112 | the fold over the rows keeps every stored time positive |
| PersonalBests.AbortPersists | v0-prototype/src/app/page.tsx:105-112 | once a row has thrown, the load does not resume |
| PersonalBests.BuildPersonalBests | v0-prototype/src/app/page.tsx:104-112 | the loop builds exactly the fold of the step over the rows |
| PersonalBests.BestRow | v0-prototype/src/app/page.tsx:108-109 | the earliest row with the smallest time among the rows with a key |
| PersonalBests.PersonalBestsAreBestRows | v0-prototype/src/app/page.tsx:104-112 | a key is in the table exactly when some row has it, and its entry is that of the earliest fastest such row |
| PersonalBests.PersonalBestsAbortIff | v0-prototype/src/app/page.tsx:105-112 | the load stops exactly when some counted row names an unknown course |
| PersonalBests.TieKeepsEarliestExample | v0-prototype/src/app/page.tsx:108-109 | of two equal times the first row's meet is kept, and a slower later row changes nothing |
| Standards.ReadStandard | v0-prototype/src/app/page.tsx:116-117 | the time read from a row is never negative |
| Standards.StdStep | v0-prototype/src/app/page.tsx:116-118 | a skipped row changes nothing; an unknown level or course throws; otherwise the row's key gets its time and no other key changes; stored times stay positive |
| Standards.StandardsOf | v0-prototype/src/app/page.tsx:114-119 | the fold over the rows keeps every stored time positive |
| Standards.AbortPersists | v0-prototype/src/app/page.tsx:115-119 | once a row has thrown, the load does not resume |
| Standards.BuildStandards | v0-prototype/src/app/page.tsx:114-119 | the loop builds exactly the fold of the step over the rows |
| Standards.LastRow | v0-prototype/src/app/page.tsx:118 | the last row with a key |
| Standards.StandardsAreLastRows | v0-prototype/src/app/page.tsx:114-119 | a key is in the table exactly when some row has it, and it holds the time of the last such row |
| Standards.StandardsAbortIff | v0-prototype/src/app/page.tsx:115-119 | the load stops exactly when some counted row names an unknown level or course |
| Standards.LaterRowOverwritesExample | v0-prototype/src/app/page.tsx:118 | of two rows for one key the later time is kept |
| Age.AgeOn | v0-prototype/src/app/page.tsx:99-101 | the result is the age: that birthday has come and the next has not; it is the year difference exactly when the birthday has passed this year, and one less otherwise |
| Age.AgeIsUnique | v0-prototype/src/app/page.tsx:99-101 | a day has only one age |
| Age.AgeOnBirthday | v0-prototype/src/app/page.tsx:100 | on the birthday itself the age has already gone up |
| Age.AgeExample | v0-prototype/src/app/page.tsx:99-101 | born 15 March 2010: 13 on 14 March 2024 and 14 on 15 March 2024 |
| Qualification.Evaluate | v0-prototype/src/app/page.tsx:133-147 | "Qualified" exactly when both times are present and the best is no slower; "Needs" only when both values are truthy, with a positive deficit that is exactly the best minus the standard; "No time available" only when not met and one value is falsy |
| Qualification.CardVerdict | v0-prototype/src/app/page.tsx:131-147 | on built tables, "No time available" exactly when a time is missing, "Needs" exactly when the best is slower, "Qualified" otherwise |
| Qualification.DeficitIsExact | v0-prototype/src/app/page.tsx:133-147 | a best faster by the deficit qualifies, and one faster by less does not |
| Qualification.QualifiedWhenFaster | v0-prototype/src/app/page.tsx:133 | a qualifying best stays qualified when it improves |
| Qualification.Message | v0-prototype/src/app/page.tsx:147 | the three status lines are distinct, and the "Needs" line starts with "Needs " |
| Qualification.NeedsMessageReadsBack | v0-prototype/src/app/page.tsx:147 | a deficit of whole hundredths, printed in the status line, reads back exactly |
| Qualification.RenderCard | v0-prototype/src/app/page.tsx:130-147 | both times are printed with `toTimeStr` as written; the card is shown as met exactly when its status is "Qualified", and each time shows "-" exactly when it is missing |
| Qualification.CardTimesReadBack | v0-prototype/src/app/page.tsx:143-144 | on built tables, both times printed by `toTimeStr` as written read back through `parseTime` as the stored times rounded to the hundredth |
| Qualification.CardBestIsBestRow | v0-prototype/src/app/page.tsx:131 | after the load, the best on the card is the time of the earliest fastest result row for its course and event, and is missing when there is none |
| Qualification.CardStandardIsLastRow | v0-prototype/src/app/page.tsx:132 | after the load, the standard on the card is the time of the last standards row for its level, course and event, and is missing when there is none |
| Qualification.CardShowsSixtyExample | v0-prototype/src/app/page.tsx:144 | as written, a stored best of 59.996 is shown on the card as "60.00" |
| Qualification.EvaluateExamples | v0-prototype/src/app/page.tsx:133-147 | 29.5 against 30.0 qualifies, 30.5 needs 0.5, and no best gives no time |

Some definitions carry no contract of their own; the rows above pin them:

- `Strings.Trim`: `TrimIsSlice` and `TrimmedEnds`.
- `Csv.Zip`: `ZipField`, and through `ZipRecord` also `ZipRecordField`, `ZipRecordColumn` and `ZipRecordKeys`.
- `Csv.Lines`: `LinesJoin` and `ParseCsv`.
- `TimeCodec.ToFixed2`: `RoundHundredths`, `ToFixed2Exact` and `ToFixed2ReadsBack`.
- `TimeCodec.JsRem`: `JsRemRange` and `ToTimeStrReadsBack`.
- `TimeCodec.WithMinutes`: `WithMinutesShape`.
- `Qualification.Met`: `Evaluate` and `RenderCard`.
- `TimeCodec.IsTruthy` (the `!t` test) and `SwimTypes.Truthy` (the `!c`, `!e` and `!s` tests): `PbStep` and `StdStep`, through `Counted`, with `PersonalBestsAbortIff` and `StandardsAbortIff`.
- `Qualification.PbTime` and `Qualification.StdTime`: `CardVerdict`, `CardBestIsBestRow` and `CardStandardIsLastRow`.

## Left out

- The download (`fetch`, `response.text()`) and the async `loadData` are not modelled. The CSV reader starts from the text, and the tables start from the parsed records.
- React state, the effect hook, the loading screen, the selectors, the tabs and the JSX are not modelled. The card is a value holding its colour, two times and status line.
- Reading the date of birth is not modelled. This covers the column of the first result row, the `Date` parsing of that text, the time zone, and the clock that gives today. `Age.AgeOn` takes the year, month and day of both dates as inputs.
- IEEE double arithmetic is not modelled. Times are exact reals, so rounding in `* 60 +`, `%` and `pb - std` is not modelled.
- TimeCodec.ParseFloat covers unsigned decimals only. A sign, an exponent, "Infinity", leading white space and trailing junk that `parseFloat` accepts as a prefix are read as NaN.
- TimeCodec.ToFixed2 does not model the exponent notation `toFixed` uses from 1e21 upwards.
- TimeCodec.ToTimeStr: a NaN input is not modelled. The tables never store NaN, because NaN is falsy.
- Course, level and event names that are keys of every JavaScript object, such as `constructor`, are not modelled. They would select an inherited member, not `undefined`.
- Csv.ZipRecordField: CSV column names that are special keys of every JavaScript object are not modelled. With a header `__proto__`, the assignment into the record calls the prototype setter, which ignores a string, so the record gets no such field. `Csv.Zip` stores it like any other name, so for that name the contract is stronger than what JavaScript does.
- A field set to `undefined` by a too-short line is absent from the record map. The JavaScript object holds the key with value `undefined`, but every read of it gives `undefined`.
- The promise rejection when a table lookup throws is modelled as `None`. What the page shows afterwards, the endless loading screen, is not modelled.

## Findings

| source | as written | input that shows it | evidently intended | confidence | as-written member | corrected member |
|---|---|---|---|---|---|---|
| v0-prototype/src/app/page.tsx:61-62 | minutes come from the unrounded time, and the remainder is rounded to hundredths after that split, so a remainder that `toFixed(2)` rounds up to 60, e.g. 59.996, prints as "60.00", and the card shows it (CardShowsSixtyExample) | 59.996 prints as "60.00"; 119.996 prints as "1:60.00" | round to the hundredth before the split into minutes and seconds, so the seconds field stays below 60 ("1:00.00") | not executed | TimeCodec.SixtySecondsShown | TimeCodec.ToTimeStrRoundedCanonical |
