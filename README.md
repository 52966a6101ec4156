# Training schedule generator — the schedule core in Dafny

This project models the schedule logic of `training_schedule_generator_react_app.jsx`, a React
component that plans the sessions of a training course. It has three parts.

- **The generator (`generateSchedule`).** A cursor walks forward from the start date one calendar
  day at a time. A day is eligible when its weekday is among the selected weekdays and it is not
  an excluded date. Each eligible day gets one session of `min(hoursPerDay, hoursRemaining)`
  hours. The walk stops when no hours are left to plan, or once 5000 sessions exist.
- **The remaining-hours pass.** A running sum of hours, where each row's `remaining` is
  `max(0, totalHours - hours of this row and all rows before it)`. It runs after generation,
  after a field edit and after a removal.
- **Hand edits.** Editing one field of a row, inserting a zero-hour row above a row, removing a
  row, and the bookkeeping on the selected-weekday and excluded-date lists.

## Representation

- Dates are day numbers counted from 1970-01-01, which was a Thursday. `getDay()` becomes
  `Weekday(d) = (d + 4) % 7`, with 0 for Sunday. A `yyyy-MM-dd` string and its day number
  determine each other.
- Hours are exact `real`s.
- The formatted end time `format(addHours(start, hours), 'HH:mm')` is a function parameter
  `endAt`. Nothing is assumed about it.

## Modules

The modules follow the component:

| file | module | contents |
|---|---|---|
| `sessions.dfy` | `Sessions` | The row type, `Math.min`, `Math.max(0, _)`, running sums, renumbering |
| `remaining.dfy` | `Remaining` | The remaining-hours pass: the function `Recomputed` and the accumulator loop `Recompute` |
| `generator.dfy` | `Generator` | The day-stepping loop (`PlanSessions` and `VisitDay`), `GenerateSchedule`, and the predicate `GeneratedFrom` that characterises its output. Also the lemmas about that output and a worked example |
| `edits.dfy` | `Edits` | `updateSession`, `addSessionAbove`, `removeSession` and their lemmas |
| `filters.dfy` | `Filters` | `toggleWeekday`, `addExcludedDate`, `removeExcludedDate` |

How the pieces are specified:

- `GenerateSchedule` is a method with a `while` loop. Its postcondition `GeneratedFrom`
  states what the source promises about the rows it produces:
  - at most 5000 rows, numbered 1..n;
  - every row is on an eligible day, at or after the start date;
  - dates strictly increase;
  - no eligible day up to the last row is skipped;
  - each row gets `min(hoursPerDay, hours still to plan)`, and only while some hours are still
    to plan;
  - the loop stops only at the target or at the cap;
  - every row has the default start time and the end time `endAt` gives;
  - every `remaining` agrees with the running sum.
- The remaining-hours pass is written once, as the function `Recomputed`. The method
  `Recompute` runs the source's accumulator loop and is proved equal to it. The edits use the
  function.

## Model

| member | source | states |
|---|---|---|
| Sessions.Min | training_schedule_generator_react_app.jsx:60 | The result is at most both arguments and is one of them |
| Sessions.Max0 | training_schedule_generator_react_app.jsx:88 | The result is non-negative, at least its argument, and is either the argument or 0 |
| Sessions.Renumber | training_schedule_generator_react_app.jsx:114 | Same length; every row's `id` and `sessionNumber` become its 1-based position; date, times, hours and `remaining` are kept |
| Sessions.SumHoursOnlyHours | training_schedule_generator_react_app.jsx:85-89 | The running sum reads only the hours: two lists with equal hours position by position have equal sums |
| Sessions.SumHoursMonotone | training_schedule_generator_react_app.jsx:85-89 | With no negative hours, the running sum of a longer prefix is at least that of a shorter one |
| Remaining.Recomputed | training_schedule_generator_react_app.jsx:85-89 | Same length and order; every field but `remaining` is kept; every `remaining` is `max(0, totalHours - hours up to and including the row)` |
| Remaining.Recompute | training_schedule_generator_react_app.jsx:85-89 | The accumulator loop over `cumulative` yields exactly `Recomputed` |
| Remaining.RecomputedFixpoint | training_schedule_generator_react_app.jsx:99-100 | Rows whose `remaining` already agrees with the running sum are left unchanged |
| Remaining.RecomputedIdempotent | training_schedule_generator_react_app.jsx:122-123 | Recomputing twice gives the same rows as recomputing once |
| Remaining.RecomputedOnlyHours | training_schedule_generator_react_app.jsx:99-100 | Two lists with equal hours position by position get equal `remaining` values |
| Remaining.RemainingNonIncreasing | training_schedule_generator_react_app.jsx:85-89 | With no negative hours, a later row never shows more remaining than an earlier one |
| Remaining.LastRemainingZero | training_schedule_generator_react_app.jsx:88 | When the hours of a recomputed list reach the target, its last row shows 0 remaining |
| Generator.Weekday | training_schedule_generator_react_app.jsx:53 | A day's weekday is in 0..6 |
| Generator.EligibleDayAhead | training_schedule_generator_react_app.jsx:27 | When a selected weekday lies in 0..6, an eligible day lies ahead of any day. This is what makes the loop end |
| Generator.VisitDay | training_schedule_generator_react_app.jsx:53-78 | One loop pass. An eligible day appends a row numbered next with `min(hoursPerDay, hoursRemaining)` hours, and `hoursRemaining` drops by that amount. Any other day changes nothing. All loop invariants are kept, and the counters move exactly as `Step` says |
| Generator.PlanSessions | training_schedule_generator_react_app.jsx:45-82 | When the loop ends, the rows are numbered, on eligible days in order, and miss no eligible day. Each row has its due hours and times, and the rows stop at the target or at 5000 |
| Generator.GenerateSchedule | training_schedule_generator_react_app.jsx:44-92 | The produced rows satisfy `GeneratedFrom`: the bounds, order, completeness, allotments, stop rule, times and remaining hours listed above |
| Generator.Eligible | training_schedule_generator_react_app.jsx:56-59 | A day can only be eligible when a selected weekday lies in 0..6 and the day is not excluded |
| Generator.Step | training_schedule_generator_react_app.jsx:53-81 | One pass of the loop on its counters. The cursor moves one day, and the session number rises by at most one. The hours still to plan never go negative from a positive start, and change only when a session is made |
| Generator.Iterate | training_schedule_generator_react_app.jsx:45-81 | After `n` passes from the initial state, the cursor is `n` days past the start date and at most `n` sessions have been made |
| Generator.EligibleExactly | training_schedule_generator_react_app.jsx:52-59 | A day has a session exactly when it is eligible and lies between the start date and the last session's date |
| Generator.NoOvershoot | training_schedule_generator_react_app.jsx:74 | The hours still to plan never go negative, and each row takes exactly its hours off them |
| Generator.HoursPerRow | training_schedule_generator_react_app.jsx:60 | Every row's hours are at most `hoursPerDay` and at most the hours still to plan. They are positive when `hoursPerDay` is |
| Generator.ReachesTarget | training_schedule_generator_react_app.jsx:52 | With a positive target and fewer than 5000 rows, the hours sum exactly to `totalHours` and the last row shows 0 remaining |
| Generator.FullAllotments | training_schedule_generator_react_app.jsx:60 | While the target is not met, every row receives a full `hoursPerDay` |
| Generator.CapCoversTarget | training_schedule_generator_react_app.jsx:81 | A target that 5000 full allotments cover is met by the time the loop stops |
| Generator.TargetWithinCap | training_schedule_generator_react_app.jsx:52-81 | With `hoursPerDay > 0` and `0 < totalHours <= 5000 * hoursPerDay`, the hours sum exactly to `totalHours` and the last row shows 0 remaining |
| Generator.NoProgress | training_schedule_generator_react_app.jsx:60-74 | With `hoursPerDay <= 0`, the hours still to plan never fall below the target |
| Generator.DegenerateAllotmentHitsCap | training_schedule_generator_react_app.jsx:81 | With `hoursPerDay <= 0` and a positive target, the cap ends the loop with exactly 5000 rows, each of `hoursPerDay` hours |
| Generator.GeneratedRemainingNonIncreasing | training_schedule_generator_react_app.jsx:85-89 | With `hoursPerDay >= 0`, `remaining` never increases down the generated table |
| Generator.UnguardedRegenerateRunsForever | training_schedule_generator_react_app.jsx:238 | With no weekday selected and a positive target, after any number of passes the cursor has moved on but no session exists. So `hoursRemaining > 0` still holds and the session cap is not reached: the loop never stops |
| Generator.Regenerate | training_schedule_generator_react_app.jsx:27-28 | Regeneration behind the effect's guard. With no selectable weekday the table is kept; otherwise the new table satisfies `GeneratedFrom` |
| Generator.GuardIsEmptySelection | training_schedule_generator_react_app.jsx:27 | For weekday lists holding only 0..6, as the weekday buttons produce, having a selectable weekday is the same as having a non-empty selection |
| Generator.ExampleHours | training_schedule_generator_react_app.jsx:44-92 | Start Monday 2024-01-01, 2 hours a day, 5 hours target, Mondays and Wednesdays: exactly 3 rows, of 2, 2 and 1 hours, showing 3, 1 and 0 remaining |
| Generator.ExampleDates | training_schedule_generator_react_app.jsx:52-78 | With the same inputs, the rows fall on 2024-01-01, 2024-01-03 and 2024-01-08 |
| Generator.ExampleDatesExcluded | training_schedule_generator_react_app.jsx:57 | With 2024-01-03 also excluded, the rows fall on 2024-01-01, 2024-01-08 and 2024-01-10 |
| Edits.Apply | training_schedule_generator_react_app.jsx:96 | The edited field takes the new value; every other field is kept |
| Edits.UpdateSession | training_schedule_generator_react_app.jsx:94-104 | Length, order, ids and session numbers are kept. Rows with another id keep all fields but `remaining`. Rows with the id carry the edit. Then `remaining` agrees with the running sum |
| Edits.UpdateWithoutMatch | training_schedule_generator_react_app.jsx:96-100 | When no row has the id, the update only recomputes `remaining` |
| Edits.UpdateTimesKeepsRemaining | training_schedule_generator_react_app.jsx:96-100 | On a consistent table, editing a date or a clock time changes no `remaining` |
| Edits.FindIndex | training_schedule_generator_react_app.jsx:108 | Returns the first position holding the id, or -1 exactly when none does |
| Edits.AddSessionAbove | training_schedule_generator_react_app.jsx:106-116 | The table grows by one and is renumbered 1..n+1. The new row sits at the first row with the id, copies that row's date and times, and has 0 hours and 0 remaining. The rows before and after keep every field, `remaining` included |
| Edits.AddSessionAboveConsistentIff | training_schedule_generator_react_app.jsx:106-116 | After adding a row to a consistent table, the table is consistent exactly when the rows above the insertion already meet the target |
| Edits.AddSessionAboveLeavesStaleRemaining | training_schedule_generator_react_app.jsx:110 | A concrete consistent one-row table becomes inconsistent after adding a row above it |
| Edits.AddSessionAboveRecomputed | training_schedule_generator_react_app.jsx:106-116 | Insertion followed by recomputation: renumbered, consistent. The inserted zero-hour row copies the date and times, and the other rows keep their dates, start and end times and hours |
| Edits.AddSessionAboveRecomputedKeepsOthers | training_schedule_generator_react_app.jsx:106-116 | On a consistent table, the recomputing insertion leaves every other row's `remaining` as it was. The new row shows the hours still to plan above it |
| Edits.RowsWithout | training_schedule_generator_react_app.jsx:120 | The filter never grows the table, and no kept row has the removed id |
| Edits.RowsWithoutKeeps | training_schedule_generator_react_app.jsx:120 | The filter keeps every row whose id differs, as many times as it occurs, and no row with the id |
| Edits.RowsWithoutConcat | training_schedule_generator_react_app.jsx:120 | Filtering a joined table joins the filtered parts, so the kept rows stay in their order |
| Edits.RowsWithoutUnique | training_schedule_generator_react_app.jsx:120 | When only position `k` holds the id, the filter removes exactly that position |
| Edits.RowsWithoutNumbered | training_schedule_generator_react_app.jsx:120 | In a numbered table, removing id `k + 1` removes exactly position `k` |
| Edits.RowsWithoutAbsent | training_schedule_generator_react_app.jsx:120 | Removing an id no row has keeps every row |
| Edits.RemoveSession | training_schedule_generator_react_app.jsx:118-125 | The kept rows, in their order with their dates, times and hours, renumbered 1..n and with `remaining` agreeing with the running sum |
| Edits.RemoveAllRows | training_schedule_generator_react_app.jsx:118-125 | Removing the id every row carries, such as that of the only row, leaves an empty table |
| Edits.RemoveIgnoresRemaining | training_schedule_generator_react_app.jsx:120-123 | Tables that differ only in `remaining` give the same table after a removal |
| Edits.AddThenRemove | training_schedule_generator_react_app.jsx:106-125 | On a numbered consistent table, adding a row above row `id` and then removing row `id` gives back the table |
| Edits.AddRecomputedThenRemove | training_schedule_generator_react_app.jsx:106-125 | The same round trip holds for the recomputing insertion |
| Filters.Without | training_schedule_generator_react_app.jsx:41 | Every copy of the value is removed and every other element is kept, with its multiplicity |
| Filters.WithoutConcat | training_schedule_generator_react_app.jsx:41 | Filtering a joined list joins the filtered parts, so the kept elements stay in their order |
| Filters.WithoutSorted | training_schedule_generator_react_app.jsx:32 | Filtering a strictly ascending list keeps it strictly ascending |
| Filters.Sort | training_schedule_generator_react_app.jsx:37 | The result is ascending and a permutation of the input |
| Filters.SortedUnique | training_schedule_generator_react_app.jsx:32 | Two ascending lists with the same elements are equal, so the sorted result is determined |
| Filters.ToggleWeekday | training_schedule_generator_react_app.jsx:31-33 | The day's membership flips and every other day's stays. An added day is added once and the list sorted. A removed day loses every copy |
| Filters.ToggleKeepsStrictlySorted | training_schedule_generator_react_app.jsx:32 | Toggling keeps a strictly ascending weekday list strictly ascending |
| Filters.ToggleTwice | training_schedule_generator_react_app.jsx:31-33 | Toggling the same day twice gives back a strictly ascending list |
| Filters.AddExcludedDate | training_schedule_generator_react_app.jsx:35-38 | An empty input or a listed date changes nothing. Any other date is added once and the list is sorted |
| Filters.AddExcludedKeepsStrictlySorted | training_schedule_generator_react_app.jsx:37 | Adding keeps a strictly ascending excluded list strictly ascending |
| Filters.RemoveExcludedDate | training_schedule_generator_react_app.jsx:40-42 | The date is no longer listed, and every other date is kept with its multiplicity |

## Left out

- React wiring is not modelled: `useState`, the `useEffect` dependencies (lines 15-29) and the
  JSX rendering. The effect's guard at line 27 is the precondition of `GenerateSchedule`; the
  Regenerate button that bypasses it is a finding below.
- Excel and PDF export (lines 128-165), the clipboard copy (line 239) and the `new Date()`
  timestamps: these are foreign libraries, I/O and the wall clock.
- date-fns internals are not modelled: `parseISO`, `format`, local time and daylight saving.
  Days are plain day numbers, and the weekday is computed from the day number.
- End-time arithmetic (`addHours`, line 63) and its `HH:mm` wrap past midnight: the end time is
  the opaque parameter `endAt`.
- Parsing the default start time (line 61) is not modelled: the start clock is given as a
  `Clock`, so a malformed time string is out of scope.
- Floating point is not modelled: the rounding of repeated `hoursRemaining -= plannedHours`, and
  `Number(value)` turning non-numeric input into `NaN` (lines 47, 96, 199, 204). Hours are exact
  reals, and an hours edit carries a number.
- An unset start date (`!startDate` at line 27; `parseISO('')` gives an invalid date) is out of
  scope: the start date is always a day number.
- Excluded dates are `yyyy-MM-dd` strings in the source and day numbers here. The source's
  `.sort()` compares strings. For four-digit-year ISO dates, and for the weekday digits 0..6,
  string order equals numeric order, so `Filters.Sort` sorts numerically.
- `Edits.AddSessionAbove`: the provisional id `max(ids) + 1` (line 109) is not modelled, because
  the renumbering at line 114 overwrites it. An id that is not present makes `prev[-1].date`
  throw at line 110; this is a precondition here.
- `Edits.RowsWithout`: its own contract states only that no kept row has the id and that the
  table does not grow. The exact contents are stated by `RowsWithoutKeeps` and
  `RowsWithoutConcat`.
- `Edits.RemoveSession`: its contract ties the result to `RowsWithout`. That the result is the
  table minus exactly one position is proved for a unique id (`RowsWithoutUnique`) and for
  numbered tables (`RowsWithoutNumbered`).
- `Generator.Regenerate`: its guard is "no weekday in 0..6 is selected" rather than the literal
  empty-list test. `GuardIsEmptySelection` shows the two agree on every list the weekday buttons
  can produce.
- The automatic regeneration when inputs change, and the order of React state updates, are not
  modelled. Each operation is modelled as a function of the current state.
- `Edits.AddSessionAbove` models the insertion as written (lines 106-116): it renumbers but does
  not recompute `remaining`. The other two edits do recompute (lines 99-100 and 122-123), and the
  note at line 317 says that editing keeps the remaining values up to date. The first finding
  below records the difference, and `Edits.AddSessionAboveRecomputed` is the recomputing form.
- `Generator.PlanSessions` models the cap at line 81 as written: it counts sessions, not passes.
  A run in which no day is eligible is therefore not bounded by it, despite the comment at
  line 80 that calls it a guard against infinite loops. The second finding below records this.
- Clearing a row's date or time input (lines 271-277) stores an empty string through
  `updateSession`, and `addSessionAbove` copies it (line 110). In the model an edit carries a day
  number or a `Clock`, so an empty date or time cannot be represented.

## Findings

| source | as written | input that shows it | evidently intended | confidence | as-written member | corrected member |
|---|---|---|---|---|---|---|
| training_schedule_generator_react_app.jsx:106-116 | `addSessionAbove` inserts a row with `remaining: 0` and renumbers, but does not recompute `remaining`, unlike `updateSession` and `removeSession` | Target 5; one row of 2 hours showing 3 remaining; add a row above row 1. The new row shows 0 remaining although 5 hours are still to plan above it | Recompute `remaining` after inserting, as after the other edits | not executed; medium | Edits.AddSessionAboveLeavesStaleRemaining | Edits.AddSessionAboveRecomputed |
| training_schedule_generator_react_app.jsx:238 | The Regenerate button calls `generateSchedule` directly, without the empty-weekday guard of line 27 | With a start date set, deselect every weekday, keep a positive total (say 20) and press Regenerate. No day is eligible, so no session is created. `hoursRemaining` stays 20 and `sessionNumber` stays 1, so the loop never ends | Apply the same guard: leave the table as it is when no weekday is selected | not executed; high | Generator.UnguardedRegenerateRunsForever | Generator.Regenerate |
