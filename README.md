# Shift scheduler core, modelled in Dafny

The application builds a monthly shift table for a small team. An
uploaded CSV lists each employee's days off as rows of `ID`, `Name`,
`Date` and `Priority`. The user picks a month, enters public holidays and
sets how many people each day and night shift needs, on weekdays and on
weekends or holidays. The user can also mark employees whose requests
always take priority. The generator (`generateScheduleLogic`) then works
in two passes:

- The first pass marks every requested day off as HOLIDAY (休み希望).
  Priority requests are marked before ordinary ones.
- The second pass goes through the month one day at a time:
  - it fills the day shift (日勤) from the free employees with the fewest
    day shifts so far, skipping anyone who worked the night before;
  - it fills the night shift (夜勤) from those still free with the fewest
    night shifts;
  - it marks everyone left as OFF (公休);
  - every shift left short of its head count produces a warning.

The table is shown on screen and exported as tab-separated text.

The model is split into these modules:

- `Common`: Option, Result, no duplicates.
- `Text`: JavaScript's `trim`, `split`, `join`, `toUpperCase` as far as
  "TRUE" goes, `String(n)` and `padStart`.
- `Calendar`:
  - the Gregorian calendar and `getDaysInMonth`;
  - the weekday from a day serial number;
  - the `YYYY-MM-DD` date keys of `formatDateToYyyyMmDd`.
- `Holidays`: the public-holiday list.
- `Staffing`: the head counts of a date.
- `Roster`:
  - grouping CSV rows into employees;
  - an employee's request for a date;
  - the priority toggle and the name lookup;
  - the as-written grouping of the finding below.
- `Shifts`: `SHIFT_TYPES`, a date's record, the shift lookup and the cell
  text.
- `Ranking`: the candidate sort.
- `Allocator`: the generator itself, as methods with loops over the
  employees' states and the days.
- `Guarantees`: what a generated month satisfies.
- `Export`: the exported rows and their tab-separated text.

The generator is imperative in the source, and so is `Allocator`:

- `Generate` runs `MarkRequests`, which holds the first-pass loops
  `MarkPriority` and `MarkOrdinary`.
- It then runs `ScheduleMonth`, a loop over the days. For each day,
  `ScheduleMonth` calls `ScheduleDay`, which runs the three employee loops
  `AssignDay`, `AssignNight` and `FillOff`.
- Each employee's running state (`employeeStates`) is a `WorkerState`
  kept at the employee's position in the roster. Its shift map is keyed
  by day of the month, not by date string. `Calendar.DateKeyInjective`
  shows the two keyings are the same.
- The lookup of the previous date on day 1 gives a key of the previous
  month. That key is never a key of this month
  (`Calendar.PrevDateKeyInMonth`), so it stands as day 0, which no worker
  ever has.

Every method is proved against a specification:

- `IsAllocation` states, day by day, what each date's record satisfies:
  - a partition of the roster;
  - the holiday list of the first pass;
  - head counts;
  - the rest rule;
  - shortfalls only when no candidate was left;
  - the fewest-shifts-first choice.
- `Shortfalls` states the warnings.
- `Guarantees` derives the listed properties from them.

`Math.random`, used to break ties in the sort, becomes an input:

- `rank(day, shift, position)` gives each candidate a tie-breaking rank.
- Every property holds for every rank.

Branches that cannot be reached:

- The night loop's removal of an OFF candidate from the OFF list (lines
  182-184) is modelled in `Allocator.AssignNight`. It never fires in a
  generated month: nobody is OFF on a date before that date's fill loop
  runs (`Allocator.NoneOffAfterDayLoop`).
- The fill loop's fallbacks for a missing record or a missing OFF list
  (lines 192-196) are not modelled, because the record and its OFF list
  always exist.

`Generate` requires unique ids. The roster it is given comes from the
grouping loop, which produces unique ids (`Roster.GroupedIds`).

## Model

| member | source | states |
|---|---|---|
| Calendar.DaysInMonth | src/App.jsx:7-9 | a month has 28 to 31 days |
| Calendar.DaysInMonthIsDayZero | src/App.jsx:7-9 | day 0 of the next month, as `new Date(year, month, 0)` reads it, is the last day of this month: the date just before the first of the next month |
| Calendar.YearLength | src/App.jsx:7-9 | a year has 366 days exactly when it is a leap year, otherwise 365 |
| Calendar.NextDate | src/App.jsx:137-138 | the next date is a valid date with the next day serial number |
| Calendar.PrevDate | src/App.jsx:172 | `new Date(year, month - 1, day - 1)`: the previous date is valid and its next date is the given one |
| Calendar.DayOfWeek | src/App.jsx:158 | `getDay()` is a number from 0 (Sunday) to 6 (Saturday) |
| Calendar.NextWeekday | src/App.jsx:158 | the weekday of the next date is the following weekday, modulo 7 |
| Calendar.KnownWeekdays | src/App.jsx:158 | 1970-01-01 was a Thursday and 2025-01-01 a Wednesday |
| Calendar.DateKeyRoundTrip | src/App.jsx:11-16 | `formatDateToYyyyMmDd` of a date in years 1000-9999 matches `^\d{4}-\d{2}-\d{2}$` and reads back as the same date |
| Calendar.DateKeyInjective | src/App.jsx:11-16 | two dates with the same key are the same date |
| Calendar.PrevDateKeyInMonth | src/App.jsx:172-173 | from day 2 on, the previous date's key is the key of day `d - 1`; on day 1 it is not a key of the month |
| Text.TrimMeaning | src/App.jsx:104-106 | `trim()` returns the part of the string between leading and trailing whitespace, and that part neither starts nor ends with whitespace |
| Text.TrimIdempotent | src/App.jsx:133 | trimming twice is trimming once |
| Text.Split | src/App.jsx:133 | `split(',')` gives at least one piece, and no piece holds the separator |
| Text.JoinSplit | src/App.jsx:133 | joining the pieces of a split with the separator gives the string back |
| Text.SplitJoin | src/App.jsx:220 | splitting a join of separator-free pieces gives the pieces back |
| Text.UpperIsTrue | src/App.jsx:111 | a Priority value reads as TRUE exactly when it is "true" in some mix of upper and lower case |
| Text.DecimalRoundTrip | src/App.jsx:13-14 | `String(n)` is all digits and denotes `n` |
| Text.Pad2RoundTrip | src/App.jsx:13-14 | `padStart(2, '0')` of 0-99 gives two digits that denote the number |
| Text.Decimal4 | src/App.jsx:12 | a year from 1000 to 9999 is written with four digits |
| Holidays.KeepDateKeys | src/App.jsx:133 | the filter keeps exactly the items shaped like a date key |
| Holidays.ParsedHolidayMembership | src/App.jsx:133 | a string is a parsed holiday exactly when it has the key shape and is the trim of a comma-separated piece of the input |
| Holidays.ParseJoinedHolidays | src/App.jsx:133 | date keys joined by commas parse back to the same list |
| Holidays.TrimKeepsDateKey | src/App.jsx:133 | a date key is its own trim |
| Holidays.KeepAllDateKeys | src/App.jsx:133 | a list of date keys passes the filter unchanged |
| Staffing.WeekendsUseWeekendCounts | src/App.jsx:158-163 | a Saturday or Sunday gets the weekend head counts, holiday or not |
| Staffing.PublicHolidayCounts | src/App.jsx:160-166 | a listed public holiday on a weekday gets the weekend head counts exactly when holidays are treated as weekends, and the weekday head counts otherwise |
| Staffing.HolidaysIgnoredWhenSettingOff | src/App.jsx:162 | with the setting off, the holiday list does not change any head count |
| Staffing.OrdinaryWeekdayCounts | src/App.jsx:164-166 | a weekday that is not a listed holiday gets the weekday head counts |
| Roster.GroupRows | src/App.jsx:103-113 | the grouping loop's result is the first-seen grouping `Grouped` of the rows |
| Roster.GroupedIds | src/App.jsx:103-113 | the grouped employees have distinct ids, and an id is among them exactly when some valid row carries it |
| Roster.RequestsOfMembership | src/App.jsx:111 | a request is in an employee's list exactly when some valid row with that id files it |
| Roster.MissingColumnEmpty | src/App.jsx:100-107 | when the file lacks the ID, Name or Date column no row is valid and the roster is empty, as the header check leaves it |
| Roster.GroupedNames | src/App.jsx:110 | each employee's name is the non-blank name of the first valid row with its id |
| Roster.FirstNameNotBlank | src/App.jsx:105-107 | a name taken from a valid row is never blank |
| Roster.FirstSeenMembership | src/App.jsx:107-110 | an id is listed exactly when some valid row carries it |
| Roster.FirstSeenNoDup | src/App.jsx:110 | an entry is created only once per id |
| Roster.FirstNameFound | src/App.jsx:110 | an id has a name exactly when it is listed, and an unlisted id has no requests |
| Roster.GroupStepIds | src/App.jsx:110 | proof step of `Roster.GroupRows`: one more row adds its id to the first-seen list exactly when the row is valid and the id is new |
| Roster.GroupStep | src/App.jsx:110-111 | proof step of `Roster.GroupRows`: one more row appends its request to its id's list and sets the name only if none was set |
| Roster.FirstRequest | src/App.jsx:141 | `rawRequests.find(r => r.date === dateStr)`: none exactly when no request has the date, otherwise the first request with that date |
| Roster.LaterRequestsIgnored | src/App.jsx:147 | requests after the first one for a date never change the one found |
| Roster.Without | src/App.jsx:290 | `filter(id => id !== empId)` keeps every other id and no copy of the removed one |
| Roster.TogglePriority | src/App.jsx:290 | the toggled id is in the list exactly when it was not before, every other id stays as it was, and no duplicates appear |
| Roster.ToggleTwice | src/App.jsx:290 | toggling twice restores membership, and restores the exact list when the id was absent |
| Roster.WithoutAbsent | src/App.jsx:290 | removing an absent id changes nothing |
| Roster.WithoutLast | src/App.jsx:290 | removing an id that was just appended gives the list without it |
| Roster.GetName | src/App.jsx:203 | the first employee with the id gives its name, or 不明 when that name is empty; with no such employee the result is 不明; it is never blank |
| Roster.GetNameOfMember | src/App.jsx:203 | for a roster member the name shown is its own name, or 不明 when that name is blank |
| Roster.StepAsWritten | src/App.jsx:110-111 | one row of the loop as written fails exactly when the row is valid and its id is a name the plain object inherits |
| Roster.GroupStateAsWritten | src/App.jsx:103-112 | the dictionary built by the loop as written stays consistent: its keys are the ids in creation order, and none is inherited |
| Roster.StepAsWrittenMeaning | src/App.jsx:110-111 | one successful step of the loop as written keeps the dictionary equal to the first-seen grouping |
| Roster.GroupStateAsWrittenMeaning | src/App.jsx:103-112 | the loop as written fails exactly when some valid row has an inherited id, and otherwise builds the first-seen grouping |
| Roster.GroupAsWrittenMeaning | src/App.jsx:98-120 | the upload as written ends in the processing error exactly when some valid row has an inherited id, and otherwise yields `Grouped` |
| Roster.PrototypeIdRejected | src/App.jsx:110-111 | a file whose only row has ID "constructor" ends in the processing error as written, while the intended grouping has one employee |
| Shifts.ShiftOfLabel | src/App.jsx:19-24 | a label reads back only as the shift it names |
| Shifts.LabelRoundTrip | src/App.jsx:19-24 | the four `SHIFT_TYPES` strings are distinct, so comparing labels compares shifts |
| Shifts.ShiftOf | src/App.jsx:226-232 | HOLIDAY, DAY or NIGHT only when the id is on that list of an existing record; OFF when there is no record or the id is on none of the three lists |
| Shifts.LookupPrecedence | src/App.jsx:378-383 | the holiday list wins over the day list, and the day list over the night list |
| Shifts.ShiftOfPartition | src/App.jsx:226-231 | when the record partitions the roster, the lookup finds the one list holding the id |
| Shifts.ParseCell | src/App.jsx:233-236 | a cell text reads back only as a shift with that text |
| Shifts.CellRoundTrip | src/App.jsx:359-362 | the texts 日, 夜, 休 and the empty cell tell the four shifts apart |
| Ranking.Insert | src/App.jsx:169 | inserting keeps the list sorted by (count, rank) and adds exactly the new candidate |
| Ranking.SortByCount | src/App.jsx:169 | the sort returns a permutation of the candidates, sorted by count with ties broken by rank |
| Ranking.SortedCounts | src/App.jsx:179 | in the sorted list an earlier candidate never has more shifts than a later one |
| Ranking.PermutationNoDup | src/App.jsx:169 | sorting keeps the same candidates, each once |
| Allocator.RequestersMembership | src/App.jsx:140-151 | an id is listed by a first-pass loop exactly when its employee's first request for the date is of that loop's kind |
| Allocator.RequestersNoDup | src/App.jsx:140-151 | no id is listed twice |
| Allocator.HolidayListMembership | src/App.jsx:137-152 | after the first pass a date's holiday list holds each requester of the date once, and only roster ids |
| Allocator.MarkAdd | src/App.jsx:143 | marking a date as HOLIDAY keeps the first-pass invariant of the worker's state |
| Allocator.MarkPriority | src/App.jsx:140-145 | the priority loop lists the priority requesters of the date and marks exactly them HOLIDAY, leaving the counters alone |
| Allocator.MarkOrdinary | src/App.jsx:146-151 | the ordinary loop lists the other requesters of the date and marks exactly them HOLIDAY |
| Allocator.MarkRequests | src/App.jsx:134-152 | after the first pass, counters are zero, each worker has HOLIDAY on exactly its requested days, and each date's record is empty but for its holiday list |
| Allocator.DayKeysMeaning | src/App.jsx:137-138 | the dates of days 1 to n are written as distinct keys, and the key of day `j` reads back as that day of the month |
| Allocator.WarningTextInjective | src/App.jsx:176-187 | a warning's text tells its date, its shift, the head count and the number assigned: two warnings with the same text are the same |
| Allocator.HeadCountInjective | src/App.jsx:176-187 | the `必要…人に対し…人` part of a warning gives back both numbers |
| Allocator.Candidates | src/App.jsx:169 | the filter keeps exactly the eligible workers, in roster order |
| Allocator.SortedCandidates | src/App.jsx:179 | each eligible worker is listed once, and the list is in non-decreasing count |
| Allocator.SortedOrder | src/App.jsx:169 | a sorted permutation of the filtered workers lists each eligible worker once, in non-decreasing count |
| Allocator.AssignDay | src/App.jsx:168-176 | the day loop gives DAY to at most the head count of free workers, in sorted order, skipping those who worked the night before, and stops short only when the candidates run out |
| Allocator.AssignNight | src/App.jsx:178-186 | the night loop gives NIGHT to at most the head count of free workers, in sorted order, and stops short only when the candidates run out |
| Allocator.DayLoopFair | src/App.jsx:169-171 | when the day loop stops, every skipped worker who could have worked comes later in the sorted order: the shift is full and nobody chosen had more day shifts |
| Allocator.NightLoopFair | src/App.jsx:179-181 | when the night loop stops, every candidate left without the shift comes later in the sorted order: the shift is full and nobody chosen had more night shifts |
| Allocator.FillOff | src/App.jsx:189-198 | every worker still without a shift becomes OFF and is appended to the OFF list; nobody else changes |
| Allocator.NoneOffAfterDayLoop | src/App.jsx:179-184 | before the night loop nobody is OFF on the date, so its OFF-removal branch never runs |
| Allocator.ScheduleDay | src/App.jsx:155-199 | one day of the second pass yields a record meeting `DayAllocation`, updates every worker's state to its shift, and raises that day's shortfall warnings |
| Allocator.CloseDay | src/App.jsx:168-198 | the three loops of a day together meet `DayAllocation` and agree with the workers' states |
| Allocator.OutcomeLists | src/App.jsx:168-198 | each worker ends the day on exactly the list of its shift |
| Allocator.PartitionFromOutcome | src/App.jsx:189-198 | one shift per worker and lists without repeats make a partition of the roster |
| Allocator.DayFromOutcome | src/App.jsx:168-198 | the day's outcome satisfies the head counts, the rest rule, the shortfall conditions and the fewest-shifts-first choice |
| Allocator.MonthKeysDistinct | src/App.jsx:137-139 | different days of a month get different keys |
| Allocator.ToDateMap | src/App.jsx:139 | `currentSchedule` has exactly the month's keys, and each holds its day's record |
| Allocator.DateMapKeys | src/App.jsx:139 | the keys of the schedule are the month's keys |
| Allocator.ProgressStart | src/App.jsx:135 | after the first pass the invariant of the second pass holds before day 1 |
| Allocator.ProgressReady | src/App.jsx:155-167 | at day `d` the invariant gives each worker's state for the day: HOLIDAY exactly for the listed requesters, last night's shift, and counters equal to the earlier days' tallies |
| Allocator.ProgressStep | src/App.jsx:155-199 | one more day keeps the invariant: earlier days allocated, later days untouched, worker states agree with the records, warnings so far are the shortfalls so far |
| Allocator.StepDays | src/App.jsx:155-199 | after day `d` the days up to `d` are allocated and the later ones untouched |
| Allocator.StepWarnings | src/App.jsx:176-187 | the warnings of day `d` extend those of the days before it |
| Allocator.StepDone | src/App.jsx:155-199 | recording day `d` leaves every earlier day's record allocated |
| Allocator.StepWorker | src/App.jsx:174-191 | a worker's state after day `d` matches the records up to day `d` |
| Allocator.ProgressDone | src/App.jsx:200 | at the end every day is allocated, the warnings are the month's shortfalls, and the schedule reads back as the days' records |
| Allocator.ScheduleMonth | src/App.jsx:154-199 | the second pass over all days keeps the invariant to the end of the month |
| Allocator.Generate | src/App.jsx:127-201 | an error exactly when there are no employees; otherwise a schedule with exactly the month's keys whose records meet `IsAllocation` and whose warnings are the month's shortfalls in order |
| Guarantees.EveryoneOnce | src/App.jsx:139-198 | on every date each employee is on exactly one of the four lists, and the lists name employees only |
| Guarantees.RequestsHonoured | src/App.jsx:140-151 | an employee is HOLIDAY on a date exactly when it asked for that date off, and then it works neither shift and is not OFF |
| Guarantees.NoDayAfterNight | src/App.jsx:172-173 | nobody works the day shift on the day after a night shift |
| Guarantees.HeadCounts | src/App.jsx:170-181 | no shift exceeds its head count; with anyone OFF the night shift is full; a short day shift leaves only people who worked the night before off it |
| Guarantees.WarningIffShort | src/App.jsx:176-187 | a warning is raised exactly for each short shift, with its date, shift, head count and the number assigned |
| Guarantees.SlotsInRange | src/App.jsx:176-187 | each warning about numbered days lies within their slots |
| Guarantees.DaySlotOf | src/App.jsx:138 | the key of day `d` parses back to day `d` |
| Guarantees.MonthKeysNumbered | src/App.jsx:138 | the j-th key of the month is the key of day `j + 1` |
| Guarantees.DayInOrder | src/App.jsx:176-187 | a date's day-shift warning comes before its night-shift warning |
| Guarantees.SlotsIncrease | src/App.jsx:155-199 | over numbered days the warnings are in strictly increasing date-and-shift order |
| Guarantees.WarningsInOrder | src/App.jsx:154-199 | the warnings of a month come in date order, the day shift first within a date, none repeated |
| Export.ExportRows | src/App.jsx:205-240 | no schedule: the error; otherwise a header of 従業員 and the day numbers, then one row per employee in roster order with its name and each day's cell |
| Export.Header | src/App.jsx:216-219 | the header row is 従業員 and the numbers 1 to n |
| Export.EmployeeRow | src/App.jsx:222-238 | an employee's row is its name and one cell per day, as the shift lookup finds it |
| Export.CellsReadBack | src/App.jsx:226-237 | on a generated month every cell reads back as a shift, and the employee is on that shift's list of the date |
| Export.TsvRoundTrip | src/App.jsx:220-239 | with no tab or newline in any cell, the text splits back into the rows and their cells |

## Left out

- The React component state, its forms and the rendering of the table.
  This includes `getDayCellStyle` (src/App.jsx:349-357) and the
  loading-state flags. They are display only.
- Loading the CSV library from the network, and the library's parsing of
  the file. The model starts from parsed rows, with a missing column as
  `None`.
- The header check itself (src/App.jsx:100-102), which sets a message
  and empties the roster. The model has no header: a missing column is
  `None` in every row, so no row is valid and grouping gives the same
  empty roster (`Roster.MissingColumnEmpty`). The processing error of
  src/App.jsx:120, which also empties the roster, is modelled in
  `Roster.GroupAsWritten`.
- The messages chosen after grouping (src/App.jsx:115-119); they do not
  change the roster. The library's own error callback
  (src/App.jsx:122) sets a message and empties the roster; it is outside
  the model, which starts from rows already parsed.
- `Object.values` enumerates integer-like keys (such as "2" or "10")
  first, in ascending numeric order. `Roster.GroupRows` keeps
  first-appearance order for every id, so the model's roster order
  differs from the program's when ids are integer-like.
- `Math.random` as a tie-breaker becomes the caller-supplied `rank`. A
  comparator that answers randomly on ties leaves the order of equal
  counts to the engine. The model fixes one order per day and shift, and
  every property is proved for all of them.
- The parse of the selected month `YYYY-MM` (src/App.jsx:131, 212). The
  model takes the year and month as numbers. Years are 1000 to 9999,
  which covers every year the month selector offers (src/App.jsx:292-296).
- `handleStaffingChange` (src/App.jsx:289). It turns form text into a
  non-negative integer; the model takes the head counts as naturals.
- `toUpperCase` beyond the letters a-z. The model upper-cases only a-z.
  A Priority value holding other characters whose upper case is T, R, U
  or E would read as TRUE in the program but not in the model.
- The Blob with its byte order mark, and the download link of the
  export (src/App.jsx:242-255). The model stops at the text.
- Console logging.

## Findings

| source | as written | input that shows it | evidently intended | confidence | as-written member | corrected member |
|---|---|---|---|---|---|---|
| src/App.jsx:110-111 | `parsedEmployees` is a plain object. For an id that names a property inherited from `Object.prototype` (such as "constructor" or "toString"), `!parsedEmployees[employeeID]` is false, so no entry is created. The `push` onto the missing `rawRequests` then throws, and the whole upload ends in the processing error with an empty roster. | a file with the single valid row `constructor,A,2025-01-01` | group the row like any other id: one employee "constructor" named "A" with one request | not executed | Roster.PrototypeIdRejected | Roster.GroupRows |
