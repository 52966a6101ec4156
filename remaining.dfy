/**
  The remaining-hours recomputation that runs after generation and after a
  row is edited or removed: walking the rows in their current order with a
  running sum of hours, each row's `remaining` becomes
  `max(0, totalHours - hours of this row and all rows before it)`.
 */
module Remaining {
  import opened Sessions

  /** Every row's `remaining` agrees with the running sum of hours up to and including it. */
  ghost predicate Consistent(rows: seq<Session>, totalHours: real)
  {
    forall i {:trigger rows[i].remaining} :: 0 <= i < |rows| ==> rows[i].remaining == Max0(totalHours - SumHours(rows[..i + 1]))
  }

  /** The rows with every `remaining` recomputed; the specification of `Recompute`. */
  function Recomputed(rows: seq<Session>, totalHours: real): (r: seq<Session>)
    ensures |r| == |rows|
    ensures forall i :: 0 <= i < |r| ==> SameExceptRemaining(r[i], rows[i])
    ensures Consistent(r, totalHours)
  {
    var r := seq(|rows|, i requires 0 <= i < |rows| => RecomputedRow(rows, totalHours, i));
    forall i | 0 <= i < |r|
      ensures r[i].remaining == Max0(totalHours - SumHours(r[..i + 1]))
    {
      assert SameHours(r[..i + 1], rows[..i + 1]);
      SumHoursOnlyHours(r[..i + 1], rows[..i + 1]);
    }
    r
  }

  /** Row `i` with its `remaining` taken from the running sum of hours up to and including it. */
  function RecomputedRow(rows: seq<Session>, totalHours: real, i: nat): Session
    requires i < |rows|
  {
    rows[i].(remaining := Max0(totalHours - SumHours(rows[..i + 1])))
  }

  /** One row of the recomputation, for proofs that look at a single position. */
  lemma RecomputedAt(rows: seq<Session>, totalHours: real, i: nat)
    requires i < |rows|
    ensures Recomputed(rows, totalHours)[i].remaining == Max0(totalHours - SumHours(rows[..i + 1]))
  {
  }

  /** A list whose rows are consistent everywhere except possibly at `k` is consistent exactly when row `k` is. */
  lemma ConsistentExceptAt(rows: seq<Session>, totalHours: real, k: nat)
    requires k < |rows|
    requires forall i :: 0 <= i < |rows| && i != k ==> rows[i].remaining == Max0(totalHours - SumHours(rows[..i + 1]))
    ensures Consistent(rows, totalHours) <==> rows[k].remaining == Max0(totalHours - SumHours(rows[..k + 1]))
  {
  }

  /**
    The accumulator loop of the source: `cumulative` starts at 0, each row
    adds its hours to it and receives `max(0, totalHours - cumulative)`.
   */
  method Recompute(rows: seq<Session>, totalHours: real) returns (r: seq<Session>)
    ensures r == Recomputed(rows, totalHours)
  {
    var cumulative := 0.0;
    r := [];
    var i := 0;
    while i < |rows|
      invariant 0 <= i <= |rows| && |r| == i
      invariant cumulative == SumHours(rows[..i])
      invariant forall k :: 0 <= k < i ==> r[k] == RecomputedRow(rows, totalHours, k)
    {
      SumHoursStep(rows, i);
      cumulative := cumulative + rows[i].hours;
      r := r + [rows[i].(remaining := Max0(totalHours - cumulative))];
      i := i + 1;
    }
    var spec := Recomputed(rows, totalHours);
    assert |r| == |spec|;
    forall k | 0 <= k < |r| ensures r[k] == spec[k] {
    }
  }

  /** Rows that are already consistent are their own recomputation. */
  lemma RecomputedFixpoint(rows: seq<Session>, totalHours: real)
    requires Consistent(rows, totalHours)
    ensures Recomputed(rows, totalHours) == rows
  {
    var r := Recomputed(rows, totalHours);
    forall i | 0 <= i < |rows| ensures r[i] == rows[i] {
      assert SameHours(r[..i + 1], rows[..i + 1]);
      SumHoursOnlyHours(r[..i + 1], rows[..i + 1]);
    }
  }

  /** Recomputing twice gives the same rows as recomputing once. */
  lemma RecomputedIdempotent(rows: seq<Session>, totalHours: real)
    ensures Recomputed(Recomputed(rows, totalHours), totalHours) == Recomputed(rows, totalHours)
  {
    RecomputedFixpoint(Recomputed(rows, totalHours), totalHours);
  }

  /** Recomputation depends on the hours alone, so lists with equal hours agree on `remaining`. */
  lemma RecomputedOnlyHours(a: seq<Session>, b: seq<Session>, totalHours: real)
    requires SameHours(a, b)
    ensures forall i :: 0 <= i < |a| ==>
      Recomputed(a, totalHours)[i].remaining == Recomputed(b, totalHours)[i].remaining
  {
    forall i | 0 <= i < |a|
      ensures Recomputed(a, totalHours)[i].remaining == Recomputed(b, totalHours)[i].remaining
    {
      RecomputedAt(a, totalHours, i);
      RecomputedAt(b, totalHours, i);
      PrefixSumOnlyHours(a, b, i + 1);
    }
  }

  /** Lists with equal hours have equal running sums on every prefix. */
  lemma PrefixSumOnlyHours(a: seq<Session>, b: seq<Session>, n: nat)
    requires SameHours(a, b) && n <= |a|
    ensures SumHours(a[..n]) == SumHours(b[..n])
  {
    assert SameHours(a[..n], b[..n]);
    SumHoursOnlyHours(a[..n], b[..n]);
  }

  /** With no negative hours, `remaining` never increases from one row to a later one. */
  lemma RemainingNonIncreasing(rows: seq<Session>, totalHours: real, i: nat, j: nat)
    requires Consistent(rows, totalHours)
    requires forall k :: 0 <= k < |rows| ==> rows[k].hours >= 0.0
    requires i <= j < |rows|
    ensures rows[j].remaining <= rows[i].remaining
  {
    SumHoursMonotone(rows, i + 1, j + 1);
  }

  /** When the hours of a consistent list add up to at least the target, its last row shows 0 remaining. */
  lemma LastRemainingZero(rows: seq<Session>, totalHours: real)
    requires Consistent(rows, totalHours)
    requires rows != [] && SumHours(rows) >= totalHours
    ensures rows[|rows| - 1].remaining == 0.0
  {
    assert rows[..|rows|] == rows;
  }
}
