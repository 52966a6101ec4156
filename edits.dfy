/**
  Edits to the session table made by hand: changing one field of a row,
  inserting a zero-hour row above a row, and removing a row. Insertion and
  removal renumber the rows so that `id` and `sessionNumber` are again the
  1-based positions; field edits and removals recompute `remaining`.
 */
module Edits {
  import opened Sessions
  import opened Remaining

  /** The fields a row's inputs can change, with the value already read as a date, a time or a number. */
  datatype Edit =
    | SetDate(date: int)
    | SetStartTime(time: Clock)
    | SetEndTime(time: Clock)
    | SetHours(hours: real)

  /** `{...s, [field]: value}`: the named field takes the new value, every other field is kept. */
  function Apply(row: Session, e: Edit): (r: Session)
    ensures r.id == row.id && r.sessionNumber == row.sessionNumber && r.remaining == row.remaining
    ensures r.date == (if e.SetDate? then e.date else row.date)
    ensures r.startTime == (if e.SetStartTime? then e.time else row.startTime)
    ensures r.endTime == (if e.SetEndTime? then e.time else row.endTime)
    ensures r.hours == (if e.SetHours? then e.hours else row.hours)
  {
    match e
    case SetDate(d) => row.(date := d)
    case SetStartTime(t) => row.(startTime := t)
    case SetEndTime(t) => row.(endTime := t)
    case SetHours(h) => row.(hours := h)
  }

  /** `updateSession`: edit every row whose `id` matches, then recompute `remaining` against the fixed target. */
  function UpdateSession(rows: seq<Session>, totalHours: real, id: int, e: Edit): (r: seq<Session>)
    ensures |r| == |rows|
    ensures forall i :: 0 <= i < |r| ==> r[i].id == rows[i].id && r[i].sessionNumber == rows[i].sessionNumber
    ensures forall i :: 0 <= i < |r| && rows[i].id != id ==> SameExceptRemaining(r[i], rows[i])
    ensures forall i :: 0 <= i < |r| && rows[i].id == id ==> SameExceptRemaining(r[i], Apply(rows[i], e))
    ensures Consistent(r, totalHours)
  {
    var edited := seq(|rows|, i requires 0 <= i < |rows| => if rows[i].id == id then Apply(rows[i], e) else rows[i]);
    Recomputed(edited, totalHours)
  }

  /** When no row has the `id`, the update only recomputes `remaining`. */
  lemma UpdateWithoutMatch(rows: seq<Session>, totalHours: real, id: int, e: Edit)
    requires forall i :: 0 <= i < |rows| ==> rows[i].id != id
    ensures UpdateSession(rows, totalHours, id, e) == Recomputed(rows, totalHours)
  {
    var edited := seq(|rows|, i requires 0 <= i < |rows| => if rows[i].id == id then Apply(rows[i], e) else rows[i]);
    assert edited == rows;
  }

  /** Changing a date or a clock time of a consistent table leaves every `remaining` as it was. */
  lemma UpdateTimesKeepsRemaining(rows: seq<Session>, totalHours: real, id: int, e: Edit)
    requires Consistent(rows, totalHours)
    requires !e.SetHours?
    ensures forall i :: 0 <= i < |rows| ==> UpdateSession(rows, totalHours, id, e)[i].remaining == rows[i].remaining
  {
    var edited := seq(|rows|, i requires 0 <= i < |rows| => if rows[i].id == id then Apply(rows[i], e) else rows[i]);
    assert SameHours(edited, rows);
    RecomputedOnlyHours(edited, rows, totalHours);
    RecomputedFixpoint(rows, totalHours);
  }

  /** Some row has the `id`. */
  predicate HasId(rows: seq<Session>, id: int)
  {
    exists i :: 0 <= i < |rows| && rows[i].id == id
  }

  /** `findIndex(s => s.id === id)`: the first row with the `id`, or -1. */
  function FindIndex(rows: seq<Session>, id: int): (k: int)
    ensures -1 <= k < |rows|
    ensures k == -1 <==> !HasId(rows, id)
    ensures k >= 0 ==> rows[k].id == id && forall j :: 0 <= j < k ==> rows[j].id != id
  {
    if rows == [] then -1
    else if rows[0].id == id then 0
    else
      var k := FindIndex(rows[1..], id);
      assert HasId(rows[1..], id) ==> HasId(rows, id) by {
        if HasId(rows[1..], id) {
          var j :| 0 <= j < |rows[1..]| && rows[1..][j].id == id;
          assert rows[j + 1].id == id;
        }
      }
      assert HasId(rows, id) ==> HasId(rows[1..], id) by {
        if HasId(rows, id) {
          var j :| 0 <= j < |rows| && rows[j].id == id;
          assert rows[1..][j - 1].id == id;
        }
      }
      if k == -1 then -1 else k + 1
  }

  /**
    `addSessionAbove`: a row with the date and clock times of the first row
    with the `id` and no hours is placed right before it, and all rows are
    renumbered; `remaining` is not recomputed. The source reads the target
    row without checking that the `id` was found, so the `id` must be present.
   */
  function AddSessionAbove(rows: seq<Session>, id: int): (r: seq<Session>)
    requires HasId(rows, id)
    ensures |r| == |rows| + 1 && Numbered(r)
    ensures var k := FindIndex(rows, id);
      && r[k].date == rows[k].date && r[k].startTime == rows[k].startTime && r[k].endTime == rows[k].endTime
      && r[k].hours == 0.0 && r[k].remaining == 0.0
      && (forall i {:trigger r[i]} :: 0 <= i < k ==> SameExceptNumber(r[i], rows[i]))
      && (forall i :: k < i < |r| ==> SameExceptNumber(r[i], rows[i - 1]))
  {
    var k := FindIndex(rows, id);
    // The provisional id `max(ids) + 1` is overwritten by the renumbering.
    var newRow := Session(0, 0, rows[k].date, rows[k].startTime, rows[k].endTime, 0.0, 0.0);
    Renumber(rows[..k] + [newRow] + rows[k..])
  }

  /** `prev.filter(s => s.id !== id)`: the rows without that `id`, in their order. */
  function RowsWithout(rows: seq<Session>, id: int): (r: seq<Session>)
    ensures |r| <= |rows|
    ensures forall i :: 0 <= i < |r| ==> r[i].id != id
  {
    if rows == [] then []
    else
      var rest := RowsWithout(rows[1..], id);
      if rows[0].id == id then rest else [rows[0]] + rest
  }

  /** The filter keeps exactly the rows whose `id` differs, each as many times as it occurs. */
  lemma {:induction false} RowsWithoutKeeps(rows: seq<Session>, id: int, s: Session)
    ensures multiset(RowsWithout(rows, id))[s] == if s.id == id then 0 else multiset(rows)[s]
  {
    if rows != [] {
      RowsWithoutKeeps(rows[1..], id, s);
      assert rows == [rows[0]] + rows[1..];
    }
  }

  /** The filter works row by row: filtering a joined table joins the filtered parts, so kept rows stay in order. */
  lemma {:induction false} RowsWithoutConcat(a: seq<Session>, b: seq<Session>, id: int)
    ensures RowsWithout(a + b, id) == RowsWithout(a, id) + RowsWithout(b, id)
  {
    if a == [] {
      assert a + b == b;
    } else {
      var ab := a + b;
      assert ab[0] == a[0] && ab[1..] == a[1..] + b;
      RowsWithoutConcat(a[1..], b, id);
      if a[0].id != id {
        assert [a[0]] + (RowsWithout(a[1..], id) + RowsWithout(b, id))
          == ([a[0]] + RowsWithout(a[1..], id)) + RowsWithout(b, id);
      }
    }
  }

  /** In a numbered table, dropping the row with `id == k + 1` removes exactly position `k`. */
  lemma RowsWithoutNumbered(rows: seq<Session>, k: nat)
    requires Numbered(rows) && k < |rows|
    ensures RowsWithout(rows, k + 1) == rows[..k] + rows[k + 1..]
  {
    RowsWithoutUnique(rows, k + 1, k);
  }

  /** When only position `k` has the `id`, dropping it removes exactly that position. */
  lemma {:induction false} RowsWithoutUnique(rows: seq<Session>, id: int, k: nat)
    requires k < |rows| && rows[k].id == id
    requires forall i :: 0 <= i < |rows| && i != k ==> rows[i].id != id
    ensures RowsWithout(rows, id) == rows[..k] + rows[k + 1..]
  {
    var tail := rows[1..];
    if k == 0 {
      RowsWithoutAbsent(tail, id);
      assert rows[..0] + rows[1..] == tail;
    } else {
      RowsWithoutUnique(tail, id, k - 1);
      calc {
        RowsWithout(rows, id);
        [rows[0]] + RowsWithout(tail, id);
        [rows[0]] + (tail[..k - 1] + tail[k..]);
        { assert rows[..k] == [rows[0]] + tail[..k - 1]; assert rows[k + 1..] == tail[k..]; }
        rows[..k] + rows[k + 1..];
      }
    }
  }

  /** Dropping an `id` that no row has keeps every row. */
  lemma {:induction false} RowsWithoutAbsent(rows: seq<Session>, id: int)
    requires forall i :: 0 <= i < |rows| ==> rows[i].id != id
    ensures RowsWithout(rows, id) == rows
  {
    if rows != [] {
      RowsWithoutAbsent(rows[1..], id);
    }
  }

  /** `removeSession`: drop the row, renumber the rest 1..n and recompute `remaining`. */
  function RemoveSession(rows: seq<Session>, totalHours: real, id: int): (r: seq<Session>)
    ensures |r| == |RowsWithout(rows, id)| && Numbered(r) && Consistent(r, totalHours)
    ensures forall i :: 0 <= i < |r| ==>
      var s := RowsWithout(rows, id)[i];
      r[i].date == s.date && r[i].startTime == s.startTime && r[i].endTime == s.endTime && r[i].hours == s.hours
  {
    var kept := RowsWithout(rows, id);
    Recomputed(Renumber(kept), totalHours)
  }

  /** Removing every row that carries the `id`, such as the only row, leaves an empty table. */
  lemma {:induction false} RemoveAllRows(rows: seq<Session>, totalHours: real, id: int)
    requires forall i :: 0 <= i < |rows| ==> rows[i].id == id
    ensures RowsWithout(rows, id) == [] && RemoveSession(rows, totalHours, id) == []
  {
    if rows != [] {
      RemoveAllRows(rows[1..], totalHours, id);
    }
  }

  /**
    In a numbered, consistent table, adding a row above row `id` and then
    removing row `id` (the inserted row, after renumbering) gives back the
    table.
   */
  lemma AddThenRemove(rows: seq<Session>, totalHours: real, id: int)
    requires Numbered(rows) && Consistent(rows, totalHours)
    requires 1 <= id <= |rows|
    ensures HasId(rows, id)
    ensures RemoveSession(AddSessionAbove(rows, id), totalHours, id) == rows
  {
    assert rows[id - 1].id == id;
    var k := FindIndex(rows, id);
    assert k == id - 1;
    var added := AddSessionAbove(rows, id);
    RowsWithoutNumbered(added, k);
    var kept := RowsWithout(added, id);
    assert |kept| == |rows|;
    forall i | 0 <= i < |rows| ensures Renumber(kept)[i] == rows[i] {
      if i < k {
        assert kept[i] == added[i];
      } else {
        assert kept[i] == added[i + 1];
      }
    }
    assert Renumber(kept) == rows;
    RecomputedFixpoint(rows, totalHours);
  }

  /** `r` is `rows` with a zero-hour row inserted at position `k`, as far as hours go. */
  ghost predicate HoursInsertedAt(rows: seq<Session>, k: nat, r: seq<Session>)
  {
    k < |rows| && |r| == |rows| + 1 && r[k].hours == 0.0
    && (forall i {:trigger r[i]} :: 0 <= i < k ==> r[i].hours == rows[i].hours)
    && (forall i :: k < i < |r| ==> r[i].hours == rows[i - 1].hours)
  }

  /** The rows around position `k` of `r` carry the `remaining` of the rows of `rows` they came from. */
  ghost predicate RemainingCarriedAround(rows: seq<Session>, k: nat, r: seq<Session>)
    requires k <= |rows| && |r| == |rows| + 1
  {
    (forall i {:trigger r[i]} :: 0 <= i < k ==> r[i].remaining == rows[i].remaining)
    && (forall i :: k < i < |r| ==> r[i].remaining == rows[i - 1].remaining)
  }

  /** Adding a row above row `id` inserts a zero-hour row at the row's position and moves the others with their `remaining`. */
  lemma AddSessionAboveShape(rows: seq<Session>, id: int)
    requires HasId(rows, id)
    ensures HoursInsertedAt(rows, FindIndex(rows, id), AddSessionAbove(rows, id))
    ensures RemainingCarriedAround(rows, FindIndex(rows, id), AddSessionAbove(rows, id))
  {
  }

  /** Inserting a zero-hour row leaves the running sums of the rows before it and shifts those after it by one. */
  lemma {:induction false} InsertedPrefixSum(rows: seq<Session>, k: nat, r: seq<Session>, i: nat)
    requires HoursInsertedAt(rows, k, r) && i < |r|
    ensures SumHours(r[..i + 1]) == if i < k then SumHours(rows[..i + 1]) else SumHours(rows[..i])
  {
    SumHoursStep(r, i);
    if i == 0 {
      assert r[..0] == [] && rows[..0] == [];
      if k > 0 {
        SumHoursStep(rows, 0);
      }
    } else {
      InsertedPrefixSum(rows, k, r, i - 1);
      if i < k {
        SumHoursStep(rows, i);
      } else if i > k {
        SumHoursStep(rows, i - 1);
      }
    }
  }

  /** After inserting a zero-hour row into a consistent list, every row but the inserted one is still consistent. */
  lemma InsertedConsistentElsewhere(rows: seq<Session>, totalHours: real, k: nat, r: seq<Session>)
    requires Consistent(rows, totalHours) && HoursInsertedAt(rows, k, r) && RemainingCarriedAround(rows, k, r)
    ensures forall i :: 0 <= i < |r| && i != k ==> r[i].remaining == Max0(totalHours - SumHours(r[..i + 1]))
  {
    forall i | 0 <= i < |r| && i != k
      ensures r[i].remaining == Max0(totalHours - SumHours(r[..i + 1]))
    {
      InsertedPrefixSum(rows, k, r, i);
      if i < k {
        assert r[i].remaining == rows[i].remaining;
      } else {
        assert r[i].remaining == rows[i - 1].remaining;
      }
    }
  }

  /**
    Adding a row above row `k` of a consistent table keeps every other row
    consistent, and the inserted row, which shows 0 remaining, is consistent
    exactly when the rows before it already meet the target.
   */
  lemma AddSessionAboveConsistentIff(rows: seq<Session>, totalHours: real, id: int)
    requires Consistent(rows, totalHours) && HasId(rows, id)
    ensures Consistent(AddSessionAbove(rows, id), totalHours) <==>
      totalHours <= SumHours(rows[..FindIndex(rows, id)])
  {
    AddSessionAboveShape(rows, id);
    InsertedConsistentIff(rows, totalHours, FindIndex(rows, id), AddSessionAbove(rows, id));
  }

  /** A zero-hour row showing 0 remaining, inserted into a consistent list, is consistent exactly when the rows before it meet the target. */
  lemma InsertedConsistentIff(rows: seq<Session>, totalHours: real, k: nat, r: seq<Session>)
    requires Consistent(rows, totalHours) && HoursInsertedAt(rows, k, r) && RemainingCarriedAround(rows, k, r)
    requires r[k].remaining == 0.0
    ensures Consistent(r, totalHours) <==> totalHours <= SumHours(rows[..k])
  {
    InsertedConsistentElsewhere(rows, totalHours, k, r);
    ConsistentExceptAt(r, totalHours, k);
    InsertedPrefixSum(rows, k, r, k);
  }

  /**
    A one-row table meeting 5 hours with 2 shows 3 remaining; adding a row
    above it leaves the new row at 0 remaining although 5 hours are still
    to plan at that point.
   */
  lemma AddSessionAboveLeavesStaleRemaining()
    ensures var rows := [Session(1, 1, 19723, Clock(9, 0), Clock(11, 0), 2.0, 3.0)];
      HasId(rows, 1) && Consistent(rows, 5.0) && !Consistent(AddSessionAbove(rows, 1), 5.0)
  {
    var rows := [Session(1, 1, 19723, Clock(9, 0), Clock(11, 0), 2.0, 3.0)];
    assert rows[..1] == rows;
    assert SumHours(rows) == 2.0;
    assert rows[0].id == 1;
    assert FindIndex(rows, 1) == 0;
    AddSessionAboveConsistentIff(rows, 5.0, 1);
    assert rows[..0] == [];
  }

  /** Adding a row above row `id`, then recomputing `remaining` as the other edits do. */
  function AddSessionAboveRecomputed(rows: seq<Session>, totalHours: real, id: int): (r: seq<Session>)
    requires HasId(rows, id)
    ensures |r| == |rows| + 1 && Numbered(r) && Consistent(r, totalHours)
    ensures var k := FindIndex(rows, id);
      && r[k].date == rows[k].date && r[k].startTime == rows[k].startTime && r[k].endTime == rows[k].endTime
      && r[k].hours == 0.0
      && (forall i :: 0 <= i < k ==>
            r[i].date == rows[i].date && r[i].startTime == rows[i].startTime &&
            r[i].endTime == rows[i].endTime && r[i].hours == rows[i].hours)
      && (forall i :: k < i < |r| ==>
            r[i].date == rows[i - 1].date && r[i].startTime == rows[i - 1].startTime &&
            r[i].endTime == rows[i - 1].endTime && r[i].hours == rows[i - 1].hours)
  {
    Recomputed(AddSessionAbove(rows, id), totalHours)
  }

  /** Recomputing after a zero-hour row is inserted into a consistent list changes only the inserted row. */
  lemma RecomputedInserted(rows: seq<Session>, totalHours: real, k: nat, a: seq<Session>)
    requires Consistent(rows, totalHours) && HoursInsertedAt(rows, k, a)
    ensures forall i :: 0 <= i < |a| ==>
      Recomputed(a, totalHours)[i].remaining == InsertedSource(rows, totalHours, k, i)
  {
    forall i | 0 <= i < |a|
      ensures Recomputed(a, totalHours)[i].remaining == InsertedSource(rows, totalHours, k, i)
    {
      RecomputedAt(a, totalHours, i);
      RecomputedInsertedAt(rows, totalHours, k, a, i);
    }
  }

  /** What row `i` should show after a zero-hour row is inserted at `k`: the old row's `remaining`, or the hours still to plan at `k`. */
  function InsertedSource(rows: seq<Session>, totalHours: real, k: nat, i: nat): real
    requires k < |rows| && i <= |rows|
  {
    if i == k then Max0(totalHours - SumHours(rows[..k]))
    else if i < k then rows[i].remaining else rows[i - 1].remaining
  }

  /** One row of `RecomputedInserted`: the running target of the longer list at `i`. */
  lemma RecomputedInsertedAt(rows: seq<Session>, totalHours: real, k: nat, a: seq<Session>, i: nat)
    requires Consistent(rows, totalHours) && HoursInsertedAt(rows, k, a) && i < |a|
    ensures Max0(totalHours - SumHours(a[..i + 1])) == InsertedSource(rows, totalHours, k, i)
  {
    InsertedPrefixSum(rows, k, a, i);
    if i < k {
      assert rows[i].remaining == Max0(totalHours - SumHours(rows[..i + 1]));
    } else if i > k {
      assert rows[i - 1].remaining == Max0(totalHours - SumHours(rows[..i]));
    }
  }

  /**
    On a consistent table the recomputation changes only the inserted row,
    which now shows the hours still to plan before it; the rows before and
    after keep their `remaining`.
   */
  lemma AddSessionAboveRecomputedKeepsOthers(rows: seq<Session>, totalHours: real, id: int)
    requires Consistent(rows, totalHours) && HasId(rows, id)
    ensures var k := FindIndex(rows, id);
      forall i :: 0 <= i < |rows| + 1 ==>
        AddSessionAboveRecomputed(rows, totalHours, id)[i].remaining == InsertedSource(rows, totalHours, k, i)
  {
    AddSessionAboveShape(rows, id);
    RecomputedInserted(rows, totalHours, FindIndex(rows, id), AddSessionAbove(rows, id));
  }

  /** The filter looks only at ids, so lists that differ only in `remaining` lose the same rows. */
  lemma {:induction false} RowsWithoutIgnoresRemaining(a: seq<Session>, b: seq<Session>, id: int)
    requires |a| == |b| && forall i :: 0 <= i < |a| ==> SameExceptRemaining(a[i], b[i])
    ensures |RowsWithout(a, id)| == |RowsWithout(b, id)|
    ensures forall i :: 0 <= i < |RowsWithout(a, id)| ==> SameExceptRemaining(RowsWithout(a, id)[i], RowsWithout(b, id)[i])
  {
    if a != [] {
      assert SameExceptRemaining(a[0], b[0]);
      RowsWithoutIgnoresRemaining(a[1..], b[1..], id);
    }
  }

  /** Removing a row recomputes `remaining`, so what the rows showed before does not matter. */
  lemma RemoveIgnoresRemaining(a: seq<Session>, b: seq<Session>, totalHours: real, id: int)
    requires |a| == |b| && forall i :: 0 <= i < |a| ==> SameExceptRemaining(a[i], b[i])
    ensures RemoveSession(a, totalHours, id) == RemoveSession(b, totalHours, id)
  {
    RowsWithoutIgnoresRemaining(a, b, id);
    var x := Renumber(RowsWithout(a, id));
    var y := Renumber(RowsWithout(b, id));
    assert SameHours(x, y);
    RecomputedOnlyHours(x, y, totalHours);
  }

  /** With the recomputing insertion, adding a row above row `id` and removing it again also gives back a consistent table. */
  lemma AddRecomputedThenRemove(rows: seq<Session>, totalHours: real, id: int)
    requires Numbered(rows) && Consistent(rows, totalHours)
    requires 1 <= id <= |rows|
    ensures HasId(rows, id)
    ensures RemoveSession(AddSessionAboveRecomputed(rows, totalHours, id), totalHours, id) == rows
  {
    AddThenRemove(rows, totalHours, id);
    RemoveIgnoresRemaining(AddSessionAboveRecomputed(rows, totalHours, id), AddSessionAbove(rows, id), totalHours, id);
  }
}
