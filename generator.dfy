/**
  The schedule generator: starting at the start date, a cursor walks forward
  one calendar day at a time; every day whose weekday is allowed and which is
  not excluded receives one session of `min(hoursPerDay, hoursRemaining)`
  hours, until the hours target is met or 5000 sessions exist. A final pass
  fills in each row's remaining hours.
 */
module Generator {
  import opened Sessions
  import opened Remaining

  /** The safety guard on the number of sessions. */
  const MaxSessions: nat := 5000

  /** Day number 0 is 1970-01-01, a Thursday; 0 is Sunday and 6 is Saturday, as `getDay()` numbers them. */
  function Weekday(day: int): (w: int)
    ensures 0 <= w < 7
  {
    (day + 4) % 7
  }

  /** The form inputs the generator reads. */
  datatype ScheduleInput = ScheduleInput(
    startDate: int,
    hoursPerDay: real,
    totalHours: real,
    weekdays: seq<int>,
    excludedDates: seq<int>,
    startClock: Clock)

  /** A day receives a session exactly when its weekday is selected and it is not excluded. */
  predicate Eligible(inp: ScheduleInput, day: int): (b: bool)
    ensures b ==> HasAllowedWeekday(inp.weekdays) && day !in inp.excludedDates
  {
    Weekday(day) in inp.weekdays && day !in inp.excludedDates
  }

  /** Some selected weekday is a real weekday, so eligible days keep coming. */
  predicate HasAllowedWeekday(weekdays: seq<int>)
  {
    exists i :: 0 <= i < |weekdays| && 0 <= weekdays[i] < 7
  }

  /** The dates of the rows, in row order. */
  function Dates(rows: seq<Session>): (r: seq<int>)
    ensures |r| == |rows| && forall i :: 0 <= i < |rows| ==> r[i] == rows[i].date
  {
    seq(|rows|, i requires 0 <= i < |rows| => rows[i].date)
  }

  /** The hours still to be planned when row `i` is created. */
  ghost function HoursLeft(totalHours: real, rows: seq<Session>, i: nat): real
    requires i <= |rows|
  {
    totalHours - SumHours(rows[..i])
  }

  /**
    What the generator produces from `inp`: at most 5000 rows numbered 1..n,
    on eligible days, strictly later one after the other, missing no eligible
    day from the start date up to the last row; each row receives
    `min(hoursPerDay, hours still to plan)` while some hours were still to
    plan, and the rows stop only when nothing is left to plan or the cap is
    reached; each row starts at the default start time and its `remaining`
    is the running target minus hours.
   */
  ghost predicate GeneratedFrom(inp: ScheduleInput, endAt: (Clock, real) -> Clock, rows: seq<Session>)
  {
    |rows| <= MaxSessions
    && Numbered(rows)
    && (forall i :: 0 <= i < |rows| ==> inp.startDate <= rows[i].date && Eligible(inp, rows[i].date))
    && (forall i, j :: 0 <= i < j < |rows| ==> rows[i].date < rows[j].date)
    && (forall d :: inp.startDate <= d && Eligible(inp, d) && |rows| > 0 && d <= rows[|rows| - 1].date
          ==> d in Dates(rows))
    && Allotted(inp.totalHours, inp.hoursPerDay, rows)
    && (|rows| == MaxSessions || HoursLeft(inp.totalHours, rows, |rows|) <= 0.0)
    && (forall i :: 0 <= i < |rows| ==>
          rows[i].startTime == inp.startClock && rows[i].endTime == endAt(inp.startClock, rows[i].hours))
    && Consistent(rows, inp.totalHours)
  }

  /** Every row was created while hours were still to plan and received `min(hoursPerDay, hours still to plan)`. */
  ghost predicate Allotted(totalHours: real, hoursPerDay: real, rows: seq<Session>)
  {
    forall i {:trigger HoursLeft(totalHours, rows, i)} :: 0 <= i < |rows| ==>
      HoursLeft(totalHours, rows, i) > 0.0 && rows[i].hours == Min(hoursPerDay, HoursLeft(totalHours, rows, i))
  }

  /** A number above every element of `s`. */
  function UpperBound(s: seq<int>): (b: int)
    ensures forall x :: x in s ==> x < b
  {
    if s == [] then 0
    else
      var b := UpperBound(s[1..]);
      assert forall x :: x in s ==> x == s[0] || x in s[1..];
      if s[0] < b then b else s[0] + 1
  }

  /** Every weekday recurs within the seven days starting at `day`. */
  lemma WeekdayWithinAWeek(day: int, w: int) returns (t: int)
    requires 0 <= w < 7
    ensures 0 <= t < 7 && Weekday(day + t) == w
  {
    var a := (day + 4) % 7;
    var q := (day + 4) / 7;
    assert day + 4 == 7 * q + a;
    t := (w - a) % 7;
    var p := (w - a) / 7;
    assert w - a == 7 * p + t;
    assert day + t + 4 == 7 * (q - p) + w;
  }

  /** With a real weekday selected and finitely many exclusions, an eligible day lies ahead of any day. */
  lemma EligibleDayAhead(inp: ScheduleInput, from: int)
    requires HasAllowedWeekday(inp.weekdays)
    ensures exists d :: from <= d && Eligible(inp, d)
  {
    var i :| 0 <= i < |inp.weekdays| && 0 <= inp.weekdays[i] < 7;
    var m := UpperBound(inp.excludedDates);
    var base := if from < m then m else from;
    var t := WeekdayWithinAWeek(base, inp.weekdays[i]);
    assert Eligible(inp, base + t);
  }

  /**
    The days of the rows the loop has built before visiting day `cursor`:
    numbered 1..n, on eligible days before `cursor` in increasing order,
    covering every eligible day from the start date on.
   */
  ghost predicate DraftedDays(inp: ScheduleInput, list: seq<Session>, cursor: int)
  {
    Numbered(list)
    && (forall i :: 0 <= i < |list| ==> inp.startDate <= list[i].date < cursor && Eligible(inp, list[i].date))
    && (forall i, j :: 0 <= i < j < |list| ==> list[i].date < list[j].date)
    && (forall d :: inp.startDate <= d < cursor && Eligible(inp, d) ==> d in Dates(list))
  }

  /** The hours and clock times of the rows the loop has built. */
  ghost predicate DraftedHours(inp: ScheduleInput, endAt: (Clock, real) -> Clock, list: seq<Session>)
  {
    (forall i {:trigger HoursLeft(inp.totalHours, list, i)} :: 0 <= i < |list| ==>
       HoursLeft(inp.totalHours, list, i) > 0.0 &&
       list[i].hours == Min(inp.hoursPerDay, HoursLeft(inp.totalHours, list, i)))
    && (forall i :: 0 <= i < |list| ==>
          list[i].startTime == inp.startClock && list[i].endTime == endAt(inp.startClock, list[i].hours))
  }

  /** Passing over a day that is not eligible keeps the rows as they are. */
  lemma DraftSkip(inp: ScheduleInput, list: seq<Session>, cursor: int)
    requires DraftedDays(inp, list, cursor) && !Eligible(inp, cursor)
    ensures DraftedDays(inp, list, cursor + 1)
  {
  }

  /** Scheduling an eligible day appends its row, numbered next. */
  lemma DraftAppendDay(inp: ScheduleInput, list: seq<Session>, cursor: int, row: Session)
    requires DraftedDays(inp, list, cursor) && inp.startDate <= cursor && Eligible(inp, cursor)
    requires row.id == row.sessionNumber == |list| + 1 && row.date == cursor
    ensures DraftedDays(inp, list + [row], cursor + 1)
  {
    assert Dates(list + [row]) == Dates(list) + [cursor];
  }

  /** The appended row receives `min(hoursPerDay, hours still to plan)`, which it takes off what is left to plan. */
  lemma DraftAppendHours(inp: ScheduleInput, endAt: (Clock, real) -> Clock, list: seq<Session>, row: Session)
    requires DraftedHours(inp, endAt, list)
    requires HoursLeft(inp.totalHours, list, |list|) > 0.0
    requires row.hours == Min(inp.hoursPerDay, HoursLeft(inp.totalHours, list, |list|))
    requires row.startTime == inp.startClock && row.endTime == endAt(inp.startClock, row.hours)
    ensures DraftedHours(inp, endAt, list + [row])
    ensures HoursLeft(inp.totalHours, list + [row], |list| + 1) == HoursLeft(inp.totalHours, list, |list|) - row.hours
  {
    var next := list + [row];
    forall i | 0 <= i <= |list|
      ensures HoursLeft(inp.totalHours, next, i) == HoursLeft(inp.totalHours, list, i)
    {
      assert next[..i] == list[..i];
    }
    SumHoursStep(next, |list|);
  }

  /** Rows that differ only in `remaining` cover the same days. */
  lemma DraftedDaysIgnoreRemaining(inp: ScheduleInput, list: seq<Session>, rows: seq<Session>, cursor: int)
    requires DraftedDays(inp, list, cursor)
    requires |rows| == |list| && forall i :: 0 <= i < |rows| ==> SameExceptRemaining(rows[i], list[i])
    ensures DraftedDays(inp, rows, cursor)
  {
    assert Dates(rows) == Dates(list);
  }

  /** Rows that differ only in `remaining` carry the same allotments. */
  lemma DraftedHoursIgnoreRemaining(inp: ScheduleInput, endAt: (Clock, real) -> Clock, list: seq<Session>, rows: seq<Session>)
    requires DraftedHours(inp, endAt, list)
    requires |rows| == |list| && forall i :: 0 <= i < |rows| ==> SameExceptRemaining(rows[i], list[i])
    ensures DraftedHours(inp, endAt, rows)
    ensures forall i :: 0 <= i <= |rows| ==> HoursLeft(inp.totalHours, rows, i) == HoursLeft(inp.totalHours, list, i)
  {
    forall i | 0 <= i <= |rows|
      ensures HoursLeft(inp.totalHours, rows, i) == HoursLeft(inp.totalHours, list, i)
    {
      assert SameHours(rows[..i], list[..i]);
      SumHoursOnlyHours(rows[..i], list[..i]);
    }
  }

  /** Once the loop stops, recomputing the remaining hours of its rows yields a generated schedule. */
  lemma DraftDone(inp: ScheduleInput, endAt: (Clock, real) -> Clock, list: seq<Session>, cursor: int, rows: seq<Session>)
    requires DraftedDays(inp, list, cursor) && DraftedHours(inp, endAt, list)
    requires |list| <= MaxSessions
    requires |list| == MaxSessions || HoursLeft(inp.totalHours, list, |list|) <= 0.0
    requires rows == Recomputed(list, inp.totalHours)
    ensures GeneratedFrom(inp, endAt, rows)
  {
    DraftedDaysIgnoreRemaining(inp, list, rows, cursor);
    DraftedHoursIgnoreRemaining(inp, endAt, list, rows);
  }

  /**
    The day-stepping loop of `generateSchedule`: the rows it builds before
    the remaining-hours pass, and (ghost) the day at which it stopped.
    `endAt` stands for formatting `addHours(start, hours)` as `HH:mm`.
   */
  method PlanSessions(inp: ScheduleInput, endAt: (Clock, real) -> Clock) returns (list: seq<Session>, ghost cursor: int)
    requires HasAllowedWeekday(inp.weekdays)
    ensures DraftedDays(inp, list, cursor) && DraftedHours(inp, endAt, list)
    ensures |list| <= MaxSessions
    ensures |list| == MaxSessions || HoursLeft(inp.totalHours, list, |list|) <= 0.0
  {
    list := [];
    var hoursRemaining := inp.totalHours;
    var day := inp.startDate;
    var sessionNumber := 1;
    EligibleDayAhead(inp, day);
    ghost var target :| day <= target && Eligible(inp, target);

    while hoursRemaining > 0.0
      invariant sessionNumber == |list| + 1 <= MaxSessions
      invariant inp.startDate <= day <= target && Eligible(inp, target)
      invariant hoursRemaining == HoursLeft(inp.totalHours, list, |list|)
      invariant DraftedDays(inp, list, day) && DraftedHours(inp, endAt, list)
      decreases MaxSessions + 1 - sessionNumber, target - day
    {
      list, sessionNumber, hoursRemaining := VisitDay(inp, endAt, list, day, sessionNumber, hoursRemaining);
      day := day + 1;
      if sessionNumber > MaxSessions {
        break;
      }
      if day > target {
        EligibleDayAhead(inp, day);
        target :| day <= target && Eligible(inp, target);
      }
    }
    cursor := day;
  }

  /**
    One pass of the loop body at the cursor day: an eligible day receives
    a row of `min(hoursPerDay, hoursRemaining)` hours, numbered next, and
    the counters move on; any other day changes nothing.
   */
  method VisitDay(inp: ScheduleInput, endAt: (Clock, real) -> Clock, list: seq<Session>, day: int,
                  sessionNumber: int, hoursRemaining: real)
    returns (next: seq<Session>, nextNumber: int, nextRemaining: real)
    requires DraftedDays(inp, list, day) && DraftedHours(inp, endAt, list) && inp.startDate <= day
    requires sessionNumber == |list| + 1
    requires hoursRemaining == HoursLeft(inp.totalHours, list, |list|) > 0.0
    ensures DraftedDays(inp, next, day + 1) && DraftedHours(inp, endAt, next)
    ensures nextNumber == |next| + 1
    ensures nextRemaining == HoursLeft(inp.totalHours, next, |next|)
    ensures Eligible(inp, day) ==> |next| == |list| + 1
    ensures !Eligible(inp, day) ==> next == list
    ensures Step(inp, LoopState(day, sessionNumber, hoursRemaining)) == LoopState(day + 1, nextNumber, nextRemaining)
  {
    next, nextNumber, nextRemaining := list, sessionNumber, hoursRemaining;
    if Eligible(inp, day) {
      var plannedHours := Min(inp.hoursPerDay, hoursRemaining);
      var row := Session(sessionNumber, sessionNumber, day, inp.startClock,
                         endAt(inp.startClock, plannedHours), plannedHours, 0.0);
      DraftAppendDay(inp, list, day, row);
      DraftAppendHours(inp, endAt, list, row);
      next := list + [row];
      nextRemaining := hoursRemaining - plannedHours;
      nextNumber := sessionNumber + 1;
    } else {
      DraftSkip(inp, list, day);
    }
  }

  /** `generateSchedule`: the day-stepping loop, then the remaining-hours pass. */
  method GenerateSchedule(inp: ScheduleInput, endAt: (Clock, real) -> Clock) returns (sessions: seq<Session>)
    requires HasAllowedWeekday(inp.weekdays)
    ensures GeneratedFrom(inp, endAt, sessions)
  {
    var list, cursor := PlanSessions(inp, endAt);
    sessions := Recompute(list, inp.totalHours);
    DraftDone(inp, endAt, list, cursor, sessions);
  }

  /** The hours still to plan never go below zero once a row has been created: no overshoot. */
  lemma NoOvershoot(inp: ScheduleInput, endAt: (Clock, real) -> Clock, rows: seq<Session>, i: nat)
    requires GeneratedFrom(inp, endAt, rows)
    requires 0 < i <= |rows|
    ensures HoursLeft(inp.totalHours, rows, i) >= 0.0
    ensures HoursLeft(inp.totalHours, rows, i) == HoursLeft(inp.totalHours, rows, i - 1) - rows[i - 1].hours
  {
    assert HoursLeft(inp.totalHours, rows, i - 1) > 0.0;
    assert rows[i - 1].hours == Min(inp.hoursPerDay, HoursLeft(inp.totalHours, rows, i - 1));
    HoursLeftStep(inp.totalHours, rows, i);
  }

  /** Creating row `i - 1` takes its hours off the hours still to plan. */
  lemma HoursLeftStep(totalHours: real, rows: seq<Session>, i: nat)
    requires 0 < i <= |rows|
    ensures HoursLeft(totalHours, rows, i) == HoursLeft(totalHours, rows, i - 1) - rows[i - 1].hours
  {
    SumHoursStep(rows, i - 1);
  }

  /** Each row gets at most the daily allotment, and a positive amount when the allotment is positive. */
  lemma HoursPerRow(inp: ScheduleInput, endAt: (Clock, real) -> Clock, rows: seq<Session>, i: nat)
    requires GeneratedFrom(inp, endAt, rows)
    requires i < |rows|
    ensures rows[i].hours <= inp.hoursPerDay
    ensures inp.hoursPerDay > 0.0 ==> rows[i].hours > 0.0
    ensures rows[i].hours <= HoursLeft(inp.totalHours, rows, i)
  {
    assert HoursLeft(inp.totalHours, rows, i) > 0.0;
  }

  /**
    When the cap is not reached and the target is positive, the hours add up
    to exactly the target and the last row shows 0 remaining.
   */
  lemma ReachesTarget(inp: ScheduleInput, endAt: (Clock, real) -> Clock, rows: seq<Session>)
    requires GeneratedFrom(inp, endAt, rows)
    requires inp.totalHours > 0.0 && |rows| < MaxSessions
    ensures rows != []
    ensures SumHours(rows) == inp.totalHours
    ensures rows[|rows| - 1].remaining == 0.0
  {
    assert rows[..0] == [];
    NoOvershoot(inp, endAt, rows, |rows|);
    assert rows[..|rows|] == rows;
    LastRemainingZero(rows, inp.totalHours);
  }

  /** `n` days of `x` hours each, added up one day at a time. */
  function Allotments(n: nat, x: real): real
  {
    if n == 0 then 0.0 else Allotments(n - 1, x) + x
  }

  /** Added up, `n` days of `x` hours are `n * x` hours. */
  lemma {:induction false} AllotmentsProduct(n: nat, x: real)
    ensures Allotments(n, x) == (n as real) * x
  {
    if n > 0 {
      AllotmentsProduct(n - 1, x);
      assert (n as real) * x == ((n - 1) as real) * x + x;
    }
  }

  /** While the hours still to plan stay positive to the end, every row receives the full allotment. */
  lemma {:induction false} FullAllotments(totalHours: real, hoursPerDay: real, rows: seq<Session>, i: nat)
    requires Allotted(totalHours, hoursPerDay, rows)
    requires HoursLeft(totalHours, rows, |rows|) > 0.0
    requires i <= |rows|
    ensures SumHours(rows[..i]) == Allotments(i, hoursPerDay)
  {
    if i == 0 {
      assert rows[..0] == [];
    } else {
      FullAllotments(totalHours, hoursPerDay, rows, i - 1);
      HoursLeftStep(totalHours, rows, i);
      assert HoursLeft(totalHours, rows, i - 1) > 0.0;
      assert HoursLeft(totalHours, rows, i) > 0.0;
      assert rows[i - 1].hours == hoursPerDay;
      SumHoursStep(rows, i - 1);
    }
  }

  /** A target that 5000 full allotments cover leaves nothing to plan by the time the cap is reached. */
  lemma CapCoversTarget(inp: ScheduleInput, endAt: (Clock, real) -> Clock, rows: seq<Session>)
    requires GeneratedFrom(inp, endAt, rows)
    requires inp.totalHours <= Allotments(MaxSessions, inp.hoursPerDay)
    ensures HoursLeft(inp.totalHours, rows, |rows|) <= 0.0
  {
    if HoursLeft(inp.totalHours, rows, |rows|) > 0.0 {
      FullAllotments(inp.totalHours, inp.hoursPerDay, rows, |rows|);
    }
  }

  /**
    With a positive daily allotment and a target that 5000 days of it can
    cover, the generated hours add up to exactly the target and the last row
    shows 0 remaining.
   */
  lemma TargetWithinCap(inp: ScheduleInput, endAt: (Clock, real) -> Clock, rows: seq<Session>)
    requires GeneratedFrom(inp, endAt, rows)
    requires inp.hoursPerDay > 0.0
    requires 0.0 < inp.totalHours <= (MaxSessions as real) * inp.hoursPerDay
    ensures |rows| > 0 && SumHours(rows) == inp.totalHours
    ensures rows[|rows| - 1].remaining == 0.0
  {
    AllotmentsProduct(MaxSessions, inp.hoursPerDay);
    CapCoversTarget(inp, endAt, rows);
    assert rows[..0] == [];
    NoOvershoot(inp, endAt, rows, |rows|);
    assert rows[..|rows|] == rows;
    LastRemainingZero(rows, inp.totalHours);
  }

  /** With a daily allotment of zero or less, the hours still to plan never fall below the target. */
  lemma {:induction false} NoProgress(totalHours: real, hoursPerDay: real, rows: seq<Session>, i: nat)
    requires Allotted(totalHours, hoursPerDay, rows)
    requires hoursPerDay <= 0.0
    requires i <= |rows|
    ensures HoursLeft(totalHours, rows, i) >= totalHours
  {
    if i == 0 {
      assert rows[..0] == [];
    } else {
      NoProgress(totalHours, hoursPerDay, rows, i - 1);
      HoursLeftStep(totalHours, rows, i);
      assert rows[i - 1].hours == Min(hoursPerDay, HoursLeft(totalHours, rows, i - 1));
    }
  }

  /**
    With a daily allotment of zero or less and a positive target, only the
    safety guard stops the loop: exactly 5000 rows, each of `hoursPerDay` hours.
   */
  lemma DegenerateAllotmentHitsCap(inp: ScheduleInput, endAt: (Clock, real) -> Clock, rows: seq<Session>)
    requires GeneratedFrom(inp, endAt, rows)
    requires inp.hoursPerDay <= 0.0 && inp.totalHours > 0.0
    ensures |rows| == MaxSessions
    ensures forall i :: 0 <= i < |rows| ==> rows[i].hours == inp.hoursPerDay
  {
    NoProgress(inp.totalHours, inp.hoursPerDay, rows, |rows|);
    forall i | 0 <= i < |rows| ensures rows[i].hours == inp.hoursPerDay {
      assert HoursLeft(inp.totalHours, rows, i) > 0.0;
    }
  }

  /** With a non-negative daily allotment, `remaining` never increases down the generated rows. */
  lemma GeneratedRemainingNonIncreasing(inp: ScheduleInput, endAt: (Clock, real) -> Clock, rows: seq<Session>)
    requires GeneratedFrom(inp, endAt, rows)
    requires inp.hoursPerDay >= 0.0
    ensures forall i, j :: 0 <= i <= j < |rows| ==> rows[j].remaining <= rows[i].remaining
  {
    forall k | 0 <= k < |rows| ensures rows[k].hours >= 0.0 {
      assert HoursLeft(inp.totalHours, rows, k) > 0.0;
    }
    forall i, j | 0 <= i <= j < |rows| ensures rows[j].remaining <= rows[i].remaining {
      RemainingNonIncreasing(rows, inp.totalHours, i, j);
    }
  }

  /** The generated rows are exactly the eligible days from the start date up to the last row. */
  lemma EligibleExactly(inp: ScheduleInput, endAt: (Clock, real) -> Clock, rows: seq<Session>, d: int)
    requires GeneratedFrom(inp, endAt, rows)
    requires rows != []
    ensures d in Dates(rows) <==> inp.startDate <= d <= rows[|rows| - 1].date && Eligible(inp, d)
  {
    if d in Dates(rows) {
      var i :| 0 <= i < |rows| && Dates(rows)[i] == d;
      assert i < |rows| - 1 ==> rows[i].date < rows[|rows| - 1].date;
    }
  }

  /** The loop's own variables: the cursor day, the next session number and the hours still to plan. */
  datatype LoopState = LoopState(cursor: int, sessionNumber: int, hoursRemaining: real)

  /**
    One pass through the loop body, as written, on the loop's counters alone:
    the row it may push is left out, so that a run that never stops can be
    followed. `VisitDay` is the same pass with the row, and its contract ties
    the two together.
   */
  function Step(inp: ScheduleInput, s: LoopState): (r: LoopState)
    ensures r.cursor == s.cursor + 1
    ensures s.hoursRemaining > 0.0 ==> r.hoursRemaining >= 0.0
    ensures r.sessionNumber == s.sessionNumber ==> r.hoursRemaining == s.hoursRemaining
    ensures r.sessionNumber == s.sessionNumber || r.sessionNumber == s.sessionNumber + 1
  {
    if Eligible(inp, s.cursor) then
      LoopState(s.cursor + 1, s.sessionNumber + 1, s.hoursRemaining - Min(inp.hoursPerDay, s.hoursRemaining))
    else
      LoopState(s.cursor + 1, s.sessionNumber, s.hoursRemaining)
  }

  /** The state after `n` passes through the loop body, starting from the initial state. */
  function Iterate(inp: ScheduleInput, n: nat): (r: LoopState)
    ensures r.cursor == inp.startDate + n
    ensures 1 <= r.sessionNumber <= n + 1
  {
    if n == 0 then LoopState(inp.startDate, 1, inp.totalHours) else Step(inp, Iterate(inp, n - 1))
  }

  /**
    Regenerating, as wired to the button, with every weekday deselected and
    hours to plan: after any number of passes no session has been made, so
    neither `hoursRemaining > 0` nor the session cap ever stops the loop.
   */
  lemma {:induction false} UnguardedRegenerateRunsForever(inp: ScheduleInput, n: nat)
    requires inp.weekdays == [] && inp.totalHours > 0.0
    ensures Iterate(inp, n) == LoopState(inp.startDate + n, 1, inp.totalHours)
    ensures Iterate(inp, n).hoursRemaining > 0.0 && Iterate(inp, n).sessionNumber <= MaxSessions
  {
    if n > 0 {
      UnguardedRegenerateRunsForever(inp, n - 1);
    }
  }

  /**
    Regenerating with the guard the automatic regeneration applies: without
    a selectable weekday the table is left as it is; otherwise the schedule
    is generated afresh.
   */
  method Regenerate(inp: ScheduleInput, endAt: (Clock, real) -> Clock, current: seq<Session>) returns (sessions: seq<Session>)
    ensures !HasAllowedWeekday(inp.weekdays) ==> sessions == current
    ensures HasAllowedWeekday(inp.weekdays) ==> GeneratedFrom(inp, endAt, sessions)
  {
    if !HasAllowedWeekday(inp.weekdays) {
      return current;
    }
    sessions := GenerateSchedule(inp, endAt);
  }

  /** The weekday buttons only ever hold 0..6, and then the guard is exactly "no weekday selected". */
  lemma GuardIsEmptySelection(weekdays: seq<int>)
    requires forall i :: 0 <= i < |weekdays| ==> 0 <= weekdays[i] < 7
    ensures HasAllowedWeekday(weekdays) <==> |weekdays| > 0
  {
    if |weekdays| > 0 {
      assert 0 <= weekdays[0] < 7;
    }
  }

  /**
    Monday 2024-01-01 (day 19723), 2 hours a day towards 5 hours, on
    Mondays and Wednesdays, starting at 09:00, with the given dates
    excluded.
   */
  function ExampleInput(excluded: seq<int>): ScheduleInput
  {
    ScheduleInput(19723, 2.0, 5.0, [1, 3], excluded, Clock(9, 0))
  }

  /** The example's rows carry 2, 2 and 1 hours, leaving 3, 1 and 0 hours to plan. */
  lemma ExampleHours(excluded: seq<int>, endAt: (Clock, real) -> Clock, rows: seq<Session>)
    requires GeneratedFrom(ExampleInput(excluded), endAt, rows)
    ensures |rows| == 3
    ensures rows[0].hours == 2.0 && rows[1].hours == 2.0 && rows[2].hours == 1.0
    ensures rows[0].remaining == 3.0 && rows[1].remaining == 1.0 && rows[2].remaining == 0.0
  {
    var inp := ExampleInput(excluded);
    assert rows[..0] == [];
    assert HoursLeft(inp.totalHours, rows, 0) == 5.0;
    assert rows[0].hours == 2.0;
    SumHoursStep(rows, 0);
    assert HoursLeft(inp.totalHours, rows, 1) == 3.0;
    assert rows[1].hours == 2.0;
    SumHoursStep(rows, 1);
    assert HoursLeft(inp.totalHours, rows, 2) == 1.0;
    assert rows[2].hours == 1.0;
    SumHoursStep(rows, 2);
    assert HoursLeft(inp.totalHours, rows, 3) == 0.0;
  }

  /** The eligible days of the example's first ten days, with and without 3 January excluded. */
  lemma ExampleCalendar()
    ensures var inp := ExampleInput([]);
      Eligible(inp, 19723) && Eligible(inp, 19725) && Eligible(inp, 19730) &&
      !Eligible(inp, 19724) && !Eligible(inp, 19726) && !Eligible(inp, 19727) &&
      !Eligible(inp, 19728) && !Eligible(inp, 19729)
    ensures var inp := ExampleInput([19725]);
      Eligible(inp, 19723) && Eligible(inp, 19730) && Eligible(inp, 19732) &&
      !Eligible(inp, 19724) && !Eligible(inp, 19725) && !Eligible(inp, 19726) && !Eligible(inp, 19727) &&
      !Eligible(inp, 19728) && !Eligible(inp, 19729) && !Eligible(inp, 19731)
  {
  }

  /** With nothing excluded, the sessions fall on Monday 1, Wednesday 3 and Monday 8 January 2024. */
  lemma ExampleDates(endAt: (Clock, real) -> Clock, rows: seq<Session>)
    requires GeneratedFrom(ExampleInput([]), endAt, rows)
    ensures Dates(rows) == [19723, 19725, 19730]
  {
    ExampleHours([], endAt, rows);
    ExampleCalendar();
    // Each row's day is eligible and later than the one before, and no eligible day up to the last row is skipped.
    assert rows[0].date == 19723 by {
      assert 19723 in Dates(rows);
    }
    assert rows[1].date == 19725 by {
      assert rows[1].date != 19724;
      assert 19725 in Dates(rows);
    }
    assert rows[2].date == 19730 by {
      assert rows[2].date !in {19726, 19727, 19728, 19729};
      assert 19730 in Dates(rows);
    }
  }

  /** Excluding Wednesday 3 January moves the second and third sessions to Monday 8 and Wednesday 10 January. */
  lemma ExampleDatesExcluded(endAt: (Clock, real) -> Clock, rows: seq<Session>)
    requires GeneratedFrom(ExampleInput([19725]), endAt, rows)
    ensures Dates(rows) == [19723, 19730, 19732]
  {
    ExampleHours([19725], endAt, rows);
    ExampleCalendar();
    assert rows[0].date == 19723 by {
      assert 19723 in Dates(rows);
    }
    assert rows[1].date == 19730 by {
      assert rows[1].date !in {19724, 19725, 19726, 19727, 19728, 19729};
      assert 19730 in Dates(rows);
    }
    assert rows[2].date == 19732 by {
      assert rows[2].date != 19731;
      assert 19732 in Dates(rows);
    }
  }
}
