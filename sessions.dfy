/**
  The session rows of a training schedule and the arithmetic shared by the
  generator and the row edits: `Math.min`, `Math.max(0, _)`, the running sum
  of hours and the 1-based renumbering of rows.

  Hours are exact reals. Dates are day numbers counted from 1970-01-01, so a
  `yyyy-MM-dd` string and its day number determine each other.
 */
module Sessions {

  /** A wall-clock time of day, as shown in an `HH:mm` field. */
  datatype Clock = Clock(hour: int, minute: int)

  /** One row of the schedule table. */
  datatype Session = Session(
    id: int,
    sessionNumber: int,
    date: int,
    startTime: Clock,
    endTime: Clock,
    hours: real,
    remaining: real)

  /** `Math.min(a, b)` */
  function Min(a: real, b: real): (r: real)
    ensures r <= a && r <= b
    ensures r == a || r == b
  {
    if a <= b then a else b
  }

  /** `Math.max(0, x)` */
  function Max0(x: real): (r: real)
    ensures r >= 0.0 && r >= x
    ensures r == x || r == 0.0
  {
    if x > 0.0 then x else 0.0
  }

  /** The sum of the hours of the rows, added left to right. */
  function SumHours(rows: seq<Session>): real
  {
    if rows == [] then 0.0 else SumHours(rows[..|rows| - 1]) + rows[|rows| - 1].hours
  }

  /** Extending a prefix by one row adds that row's hours. */
  lemma SumHoursStep(rows: seq<Session>, i: nat)
    requires i < |rows|
    ensures SumHours(rows[..i + 1]) == SumHours(rows[..i]) + rows[i].hours
  {
    assert rows[..i + 1][..i] == rows[..i];
  }

  /** Two lists whose rows carry the same hours, position by position. */
  ghost predicate SameHours(a: seq<Session>, b: seq<Session>)
  {
    |a| == |b| && forall i :: 0 <= i < |a| ==> a[i].hours == b[i].hours
  }

  /** The running sum reads nothing but the hours. */
  lemma {:induction false} SumHoursOnlyHours(a: seq<Session>, b: seq<Session>)
    requires SameHours(a, b)
    ensures SumHours(a) == SumHours(b)
  {
    if a != [] {
      var n := |a| - 1;
      assert SameHours(a[..n], b[..n]);
      SumHoursOnlyHours(a[..n], b[..n]);
    }
  }

  /** With no negative hours the running sum never decreases along the list. */
  lemma {:induction false} SumHoursMonotone(rows: seq<Session>, i: nat, j: nat)
    requires i <= j <= |rows|
    requires forall k :: 0 <= k < |rows| ==> rows[k].hours >= 0.0
    ensures SumHours(rows[..i]) <= SumHours(rows[..j])
  {
    if i < j {
      SumHoursMonotone(rows, i, j - 1);
      SumHoursStep(rows, j - 1);
    }
  }

  /** Rows agree on everything except `remaining`. */
  predicate SameExceptRemaining(a: Session, b: Session)
  {
    a.id == b.id && a.sessionNumber == b.sessionNumber && a.date == b.date &&
    a.startTime == b.startTime && a.endTime == b.endTime && a.hours == b.hours
  }

  /** Rows agree on everything except `id` and `sessionNumber`. */
  predicate SameExceptNumber(a: Session, b: Session)
  {
    a.date == b.date && a.startTime == b.startTime && a.endTime == b.endTime &&
    a.hours == b.hours && a.remaining == b.remaining
  }

  /** Every row's `id` and `sessionNumber` are its 1-based position. */
  predicate Numbered(rows: seq<Session>)
  {
    forall i :: 0 <= i < |rows| ==> rows[i].id == i + 1 && rows[i].sessionNumber == i + 1
  }

  /** `rows.map((r, i) => ({...r, sessionNumber: i + 1, id: i + 1}))` */
  function Renumber(rows: seq<Session>): (r: seq<Session>)
    ensures |r| == |rows| && Numbered(r)
    ensures forall i :: 0 <= i < |r| ==> SameExceptNumber(r[i], rows[i])
  {
    seq(|rows|, i requires 0 <= i < |rows| => rows[i].(id := i + 1, sessionNumber := i + 1))
  }

  /** A list that is already numbered is left as it is. */
  lemma RenumberNumbered(rows: seq<Session>)
    requires Numbered(rows)
    ensures Renumber(rows) == rows
  {
  }
}
