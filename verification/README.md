# Schedule generator: interval normalisation

This project models the core of a schedule-to-pie-chart generator. For each
input file, the generator reads a JSON array of `{name, from, to}` records.
`from` and `to` are `HH:MM` clock strings. The generator then runs three
stages:

- `validateData` keeps the records that have a name and two well-formed
  clock fields.
- `convertData` turns each record into an interval `{name, from, duration}`
  counted in minutes since midnight. It sorts the intervals stably by start
  minute. It then sweeps them with a cursor and drops every interval that
  starts before the cursor.
- `fillData` inserts unnamed idle intervals wherever the cursor is behind
  the next interval, and once more at the end up to minute 1440.

The result is the ordered list of slices the chart is drawn from.

Modules, one per stage:

- `Schedule` (schedule.dfy) holds the data:
  - the raw record, with optional `name`, `from` and `to` strings;
  - the interval, with an optional name and integer `from` and `duration`;
  - the constant 1440;
  - the predicates `Sorted`, `Chained`, `Contiguous` and `IsSubsequence`.

  `Chained(s, c)` means each interval starts at or after the end of the one
  before it, and the first starts at or after `c`.
- `Validate` (validate.dfy) models `validateData` as a recursive stable filter.
- `Convert` (convert.dfy) models `convertData`:
  - clock parsing, with its inverse `FormatClock`;
  - the `map` stage;
  - the stable sort, as an insertion sort;
  - the cursor sweep, specified by the recursive `SweepFrom` and run by the
    loop in `ConvertData`.
- `Fill` (fill.dfy) models `fillData`, specified by the recursive `FillFrom`
  and run by the loop in `FillData`.
- `Pipeline` (pipeline.dfy) composes the three stages as the generator calls
  them, and proves the end-to-end properties.

The model follows the code as written:

- Hours and minutes are not range-checked, so `"99:99"` parses to 6039.
- A record whose `to` is earlier than its `from` becomes an interval with a
  negative duration. Nothing drops it, and when it is kept it moves the
  cursor backwards.
- Only the final cursor decides whether a closing idle interval is added.
  When the last kept interval ends at or after minute 1440, none is added.
  An earlier interval that ends past midnight does not prevent it if a later
  kept interval moves the cursor back.

Two things therefore do not hold of the schedule in general:

- intervals with a zero or negative duration are not removed before gap
  filling, and reach the chart as they are;
- start minutes are not confined to 0..1439.

`BackwardsRecordExample` and `PastMidnightExample` show the resulting
schedules.

## Model

| member | source | states |
|---|---|---|
| `Validate.IsTruthy` | generator.js:152-154 | a name passes when it is present and not the empty string |
| `Validate.IsClock` | generator.js:156-162 | a clock string is exactly two ASCII digits, a colon and two ASCII digits |
| `Validate.IsValidRecord` | generator.js:151-165 | a record is kept when its name is truthy and both `from` and `to` are present and match the clock pattern |
| `Validate.ValidateData` | generator.js:150-166 | every kept record has a non-empty name and two fields matching `^\d{2}:\d{2}$`; no more records come out than go in |
| `Validate.ValidateDataAppend` | generator.js:150-166 | filtering a concatenation is the concatenation of the filtered parts (the filter is applied record by record) |
| `Validate.ValidateDataSingle` | generator.js:151-165 | a single record survives exactly when it is valid |
| `Validate.ValidateDataCounts` | generator.js:151-165 | each valid record occurs in the output as often as in the input; an invalid one never occurs |
| `Validate.ValidateDataSubsequence` | generator.js:150-166 | the survivors keep their original relative order |
| `Validate.ValidateDataIdentity` | generator.js:150-166 | the output equals the input exactly when every input record is valid |
| `Validate.ValidateDataIdempotent` | generator.js:150-166 | validating validated data changes nothing |
| `Validate.ClockPatternExamples` | generator.js:156-162 | the pattern counts digits only: "99:99" passes; "9:00", "09:0a" and "09-00" fail |
| `Convert.ParseClock` | generator.js:172-178 | the parsed value of a clock string lies in 0..6039 (no range check on hour or minute) |
| `Convert.ParseFormatClock` | generator.js:172-178 | parsing reads back the hour and minute of a formatted clock string, giving `hour * 60 + minute` |
| `Convert.FormatParseClock` | generator.js:172-178 | every string the pattern accepts is the formatting of its own hour and minute, so parsing loses nothing |
| `Convert.ParseClockTimeOfDay` | generator.js:177-178 | for a real time of day the parsed value is below 1440, and its quotient and remainder by 60 give back the hour and minute |
| `Convert.ToInterval` | generator.js:180-186 | the interval keeps the record's name, starts at the parsed `from` and ends at the parsed `to`; the duration may be zero or negative |
| `Convert.ToIntervals` | generator.js:171-186 | the `map` stage converts every record, one interval per record, in the same order |
| `Convert.InsertByFrom` | generator.js:187-194 | insertion adds exactly one element and keeps a sorted sequence sorted |
| `Convert.SortByFrom` | generator.js:187-194 | the sorted output is ascending by `from` and a permutation of the input |
| `Convert.InsertByFromStable` | generator.js:187-194 | insertion puts the new interval behind no interval with the same start minute |
| `Convert.SortByFromStable` | generator.js:187-194 | for every start minute, the intervals starting there keep their input order (the sort is stable) |
| `Convert.SweepFrom` | generator.js:195-202 | the cursor filter keeps no more intervals than it is given (that it keeps only given intervals, in order, is `SweepSubsequence`) |
| `Convert.SweepSnoc` | generator.js:195-202 | appending one interval to the input appends it to the output exactly when it starts at or after the cursor left by what was kept before, and otherwise leaves the output unchanged |
| `Convert.SweepChained` | generator.js:195-202 | every kept interval starts at or after the end of the previously kept one, and the first at or after the initial cursor |
| `Convert.SweepSubsequence` | generator.js:195-202 | the sweep only drops intervals; what it keeps is in input order |
| `Convert.SweepIdentity` | generator.js:195-202 | the sweep keeps everything exactly when its input is already chained from the cursor |
| `Convert.SweepIdempotent` | generator.js:195-202 | sweeping the sweep's output again keeps all of it |
| `Convert.Converted` | generator.js:168-204 | map, stable sort and cursor filter composed: the result is chained from cursor 0 and has at most one interval per record |
| `Convert.ConvertedShape` | generator.js:168-204 | the normalised intervals are sorted and chained from 0; they are a subsequence of the stably sorted intervals, no more numerous than the records, and each is the interval of some input record |
| `Convert.ConvertedFromRecords` | generator.js:171-203 | every normalised interval is the interval of some input record |
| `Convert.ConvertedLastEnd` | generator.js:195-203 | the cursor the sweep leaves behind is 0 or the parsed `to` of some input record |
| `Convert.ConvertedNamed` | generator.js:182-186 | every normalised interval carries the record's non-empty name |
| `Convert.ConvertData` | generator.js:168-204 | the loop with the cursor `minutePointer` returns exactly the sweep of the sorted intervals, which is sorted and chained from 0 |
| `Convert.ConvertedCursorAt` | generator.js:195-202 | position by position, each normalised interval starts at or after the cursor `minutePointer` in force when the filter reached it |
| `Convert.OverlapDropped` | generator.js:196-198 | with `[{0,60},{30,60}]` the second interval starts before the cursor 60 and is dropped |
| `Schedule.ChainedAt` | generator.js:195-202 | the chained property, position by position: each interval starts at or after the cursor left by the one before it |
| `Schedule.ContiguousSorted` | generator.js:210-229 | a contiguous run with no negative duration is ascending by start minute |
| `Fill.FillFrom` | generator.js:206-233 | the filler adds at most one idle interval before each interval it is given and one closing idle interval, and drops none, so the output is between `n` and `2n + 1` long |
| `Fill.FillKeepsEveryInterval` | generator.js:210-222 | every interval it is given, named or not, appears in the output in the original order |
| `Fill.NegativeDurationMovesCursorBack` | generator.js:211-229 | after A 600/-60 the cursor stands at 540, so before B 700/10 the idle interval 540/160 is inserted, covering minutes 540-600 a second time |
| `Fill.FillData` | generator.js:206-233 | the loop returns exactly the filled schedule of its input; an empty input gives the single idle interval 0/1440 |
| `Fill.FillKeepsInput` | generator.js:210-222 | removing the idle intervals from the output gives back the input, in order |
| `Fill.FillAddsOnlyIdle` | generator.js:211-229 | every output interval is an input interval or an unnamed interval of positive length |
| `Fill.FillCovers` | generator.js:206-232 | on chained input the output starts at the cursor and is contiguous; it ends at 1440 when the last input interval ends at or before 1440, and otherwise at that interval's end |
| `Fill.FillIdentity` | generator.js:210-232 | on chained input the filler changes nothing exactly when the input already starts at the cursor, is contiguous and reaches 1440 |
| `Fill.FillOnPartition` | generator.js:210-232 | a contiguous run from the cursor that reaches 1440 comes back unchanged |
| `Fill.FillEmpty` | generator.js:224-230 | empty input gives one idle interval from 0 lasting 1440 minutes |
| `Pipeline.ScheduleOf` | generator.js:27-31 | validate, convert and fill composed: the schedule is non-empty, starts at minute 0 and is contiguous |
| `Pipeline.GenerateSchedule` | generator.js:27-31 | validate, convert and fill in sequence give a non-empty, contiguous schedule starting at minute 0 |
| `Pipeline.SchedulePartitionsDay` | generator.js:27-31 | for any input the schedule starts at 0 and is contiguous; it ends at 1440 or at the later end of the last normalised interval; without its idle intervals it is the normalised list; every idle interval has positive length |
| `Pipeline.ScheduleEndsAtMidnight` | generator.js:224-230 | if no valid record's `to` parses past 1440, the schedule ends exactly at 1440 |
| `Pipeline.ScheduleSortedWhenForward` | generator.js:27-31 | if no valid record ends before it starts, the schedule is ascending by start minute |
| `Pipeline.SleepAndWorkExample` | generator.js:27-31 | Sleep 00:00-07:00 and Work 09:00-17:00 give 0/420, idle 420/120, 540/480 and idle 1020/420 |
| `Pipeline.SleepAndWorkConverted` | generator.js:150-204 | both Sleep/Work records pass validation and normalise to 0/420 and 540/480 |
| `Pipeline.SleepAndWorkFilled` | generator.js:206-233 | the intervals 0/420 and 540/480 get idle 420/120 between them and idle 1020/420 after them |
| `Pipeline.PastMidnightExample` | generator.js:224-230 | 00:00-99:99 gives a single interval 0/6039 and no closing idle interval |
| `Pipeline.SingleDigitHourExample` | generator.js:156-158 | a record with `from` "9:00" is dropped, leaving one idle interval 0/1440 |
| `Pipeline.BackwardsRecordExample` | generator.js:180-186 | 10:00-09:00 is kept with duration -60; the schedule is idle 0/600, then 600/-60, then idle 540/900 |

## Left out

- The per-file driver `main` (generator.js:6-102) is not modelled: its directory listing, its asynchronous reads and writes, its error logging and its skip-and-continue control flow are file I/O. The model starts from the parsed JSON array and stops at the list of slices.
- `listFiles`, `readJSON` and `writeSVG` (generator.js:104-148) are not modelled. They are filesystem access and `JSON.parse`.
- The d3/jsdom rendering (generator.js:33-98) is not modelled. This covers the SVG document, the floating-point pie and arc layout, the ordinal colour scale and the labels.
- The model treats `name` as an absent-or-string field and its truthiness as "present and non-empty". JavaScript truthiness of numbers, booleans and objects in that field is not modelled. The same goes for non-string `from` and `to` values.
- The regular expression engine is not modelled. The pattern `^\d{2}:\d{2}$` is a predicate on five-character strings over ASCII digits.
- `Number` on a two-digit group is modelled as exact decimal value. The values involved (at most 6039) are exact in JavaScript doubles.
- `Array.prototype.sort` is modelled by its result only: a stable sort by `from`. Which comparator calls the engine makes, and in what order, is not modelled.
- `convertData` on unvalidated input is not modelled. `ConvertData` and `Converted` require every record to be valid, which is stronger than `convertData` needs: a record that fails only the name check converts without error, while an absent or non-matching `from` or `to` makes `convertData` throw (generator.js:174-178). The only call site (generator.js:29) passes validated data, so the requirement is always met there.
- Input that is not an array of objects is not modelled. `RawRecord` cannot represent a `null` or other non-object array element, and the model's input is always a sequence. Falsy parsed JSON (`null`, `0`, `false`, `""`) never reaches `validateData`: generator.js:23-25 skips the file. Two inputs make `validateData` throw: a `null` array element (`datum.name` at generator.js:152), and a truthy value that is not an array (`filter` at generator.js:151). Because generator.js:27 is not inside any error handler, that exception ends the whole run instead of skipping the one file. Any other non-object element (number, string, boolean, array) has no `name`, so generator.js:152 drops it without error. The model reproduces that drop with `RawRecord(None, None, None)`.
- Fill.FillKeepsInput: the model's property "removing the unnamed intervals from the filled schedule gives back the input" is stated only for input whose intervals all carry a name. That is what `convertData` produces (`Pipeline.SchedulePartitionsDay` uses it that way). If the input itself held unnamed intervals, the inserted idle intervals and the original unnamed ones could not be told apart by name.
