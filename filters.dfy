/**
  Bookkeeping on the two day filters of the form: the list of selected
  weekdays (0 = Sunday .. 6 = Saturday) and the list of excluded dates (day
  numbers). Both lists are kept in ascending order by the operations that add
  to them; removal filters every copy out.
 */
module Filters {

  datatype Option<T> = None | Some(value: T)

  /** Ascending, duplicates allowed: what `.sort()` produces. */
  predicate Sorted(s: seq<int>)
  {
    forall i, j :: 0 <= i < j < |s| ==> s[i] <= s[j]
  }

  /** Ascending without duplicates: the shape the form keeps its filter lists in. */
  predicate StrictlySorted(s: seq<int>)
  {
    forall i, j :: 0 <= i < j < |s| ==> s[i] < s[j]
  }

  /** `s.filter(y => y !== x)`: every copy of `x` removed, everything else kept in order. */
  function Without(s: seq<int>, x: int): (r: seq<int>)
    ensures multiset(r) == multiset(s)[x := 0]
    ensures forall y :: y in r <==> y in s && y != x
  {
    if s == [] then []
    else
      assert s == [s[0]] + s[1..];
      if s[0] == x then Without(s[1..], x) else [s[0]] + Without(s[1..], x)
  }

  /** The filter works element by element: filtering a joined list joins the filtered parts, so the kept elements stay in order. */
  lemma {:induction false} WithoutConcat(a: seq<int>, b: seq<int>, x: int)
    ensures Without(a + b, x) == Without(a, x) + Without(b, x)
  {
    if a == [] {
      assert a + b == b;
    } else {
      var ab := a + b;
      assert ab[0] == a[0] && ab[1..] == a[1..] + b;
      WithoutConcat(a[1..], b, x);
      if a[0] != x {
        assert [a[0]] + (Without(a[1..], x) + Without(b, x)) == ([a[0]] + Without(a[1..], x)) + Without(b, x);
      }
    }
  }

  /** Filtering keeps the order of what remains. */
  lemma {:induction false} WithoutSorted(s: seq<int>, x: int)
    requires StrictlySorted(s)
    ensures StrictlySorted(Without(s, x))
  {
    if s != [] {
      WithoutSorted(s[1..], x);
      var rest := Without(s[1..], x);
      forall j | 0 <= j < |rest| ensures s[0] < rest[j] {
        assert rest[j] in s[1..];
      }
    }
  }

  /** Every element of `s` is at least `lo`. */
  predicate AtLeast(lo: int, s: seq<int>)
  {
    forall i :: 0 <= i < |s| ==> lo <= s[i]
  }

  /** A lower bound carries over to any list with the same elements. */
  lemma AtLeastSameElements(lo: int, a: seq<int>, b: seq<int>)
    requires AtLeast(lo, b) && multiset(a) == multiset(b)
    ensures AtLeast(lo, a)
  {
    forall i | 0 <= i < |a| ensures lo <= a[i] {
      assert a[i] in multiset(b);
    }
  }

  /** `x` placed into an ascending list. */
  function Insert(x: int, s: seq<int>): (r: seq<int>)
    requires Sorted(s)
    ensures Sorted(r) && multiset(r) == multiset(s) + multiset{x}
  {
    if s == [] || x <= s[0] then [x] + s
    else
      var rest := Insert(x, s[1..]);
      AtLeastSameElements(s[0], rest, s[1..] + [x]);
      SortedCons(s[0], rest);
      assert s == [s[0]] + s[1..];
      [s[0]] + rest
  }

  /** A lower bound of an ascending list can be put in front of it. */
  lemma SortedCons(h: int, t: seq<int>)
    requires AtLeast(h, t) && Sorted(t)
    ensures Sorted([h] + t)
  {
  }

  /** `[...s].sort()`: the same elements, ascending. */
  function Sort(s: seq<int>): (r: seq<int>)
    ensures Sorted(r) && multiset(r) == multiset(s)
  {
    if s == [] then []
    else
      assert s == s[..|s| - 1] + [s[|s| - 1]];
      Insert(s[|s| - 1], Sort(s[..|s| - 1]))
  }

  /** Two ascending lists with the same elements are the same list. */
  lemma {:induction false} SortedUnique(a: seq<int>, b: seq<int>)
    requires Sorted(a) && Sorted(b) && multiset(a) == multiset(b)
    ensures a == b
  {
    assert |a| == |multiset(a)| == |multiset(b)| == |b|;
    if a != [] {
      assert a[0] in multiset(b) && b[0] in multiset(a);
      var k :| 0 <= k < |b| && b[k] == a[0];
      var m :| 0 <= m < |a| && a[m] == b[0];
      assert a[0] <= a[m] && b[0] <= b[k];
      TailsSameElements(a, b);
      SortedUnique(a[1..], b[1..]);
    }
  }

  /** Lists with the same elements and the same head have tails with the same elements. */
  lemma TailsSameElements(a: seq<int>, b: seq<int>)
    requires a != [] && b != [] && a[0] == b[0] && multiset(a) == multiset(b)
    ensures multiset(a[1..]) == multiset(b[1..])
  {
    assert a == [a[0]] + a[1..] && b == [b[0]] + b[1..];
    assert multiset(a) == multiset{a[0]} + multiset(a[1..]);
    assert multiset(b) == multiset{a[0]} + multiset(b[1..]);
    forall y ensures multiset(a[1..])[y] == multiset(b[1..])[y] {
      assert multiset(a)[y] == multiset(b)[y];
    }
  }

  /** `toggleWeekday`: remove the day if it is selected, otherwise add it and sort. */
  function ToggleWeekday(weekdays: seq<int>, day: int): (r: seq<int>)
    ensures forall y :: y in r <==> (y in weekdays <==> y != day)
    ensures day !in weekdays ==> Sorted(r) && multiset(r) == multiset(weekdays) + multiset{day}
    ensures day in weekdays ==> multiset(r) == multiset(weekdays)[day := 0]
  {
    if day in weekdays then Without(weekdays, day)
    else
      var r := Sort(weekdays + [day]);
      assert forall y :: y in r <==> y in multiset(weekdays + [day]);
      r
  }

  /** Toggling keeps the selected weekdays ascending and free of duplicates. */
  lemma ToggleKeepsStrictlySorted(weekdays: seq<int>, day: int)
    requires StrictlySorted(weekdays)
    ensures StrictlySorted(ToggleWeekday(weekdays, day))
  {
    if day in weekdays {
      WithoutSorted(weekdays, day);
    } else {
      SortedAddNew(weekdays, day);
    }
  }

  /** Sorting a strictly ascending list with one new element gives a strictly ascending list. */
  lemma SortedAddNew(s: seq<int>, x: int)
    requires StrictlySorted(s) && x !in s
    ensures StrictlySorted(Sort(s + [x]))
  {
    var r := Sort(s + [x]);
    forall i, j | 0 <= i < j < |r| ensures r[i] < r[j] {
      if r[i] == r[j] {
        TwoCopies(r, i, j);
        CountOne(s, x, r[i]);
      }
    }
  }

  /** A value found at two positions occurs at least twice. */
  lemma TwoCopies(r: seq<int>, i: nat, j: nat)
    requires i < j < |r| && r[i] == r[j]
    ensures multiset(r)[r[i]] >= 2
  {
    assert r == r[..j] + r[j..];
    assert r[..j][i] == r[i] && r[j..][0] == r[j];
    assert multiset(r[..j])[r[i]] >= 1 && multiset(r[j..])[r[i]] >= 1;
  }

  /** In a strictly ascending list with one new element, no value occurs twice. */
  lemma CountOne(s: seq<int>, x: int, y: int)
    requires StrictlySorted(s) && x !in s
    ensures multiset(s + [x])[y] <= 1
  {
    assert multiset(s + [x]) == multiset(s) + multiset{x};
    DistinctCount(s, y);
  }

  /** A strictly ascending list holds each value at most once. */
  lemma {:induction false} DistinctCount(s: seq<int>, y: int)
    requires StrictlySorted(s)
    ensures multiset(s)[y] == if y in s then 1 else 0
  {
    if s != [] {
      DistinctCount(s[1..], y);
      assert s == [s[0]] + s[1..];
      assert s[0] !in s[1..];
    }
  }

  /** For a strictly ascending list, toggling the same day twice gives back the list. */
  lemma ToggleTwice(weekdays: seq<int>, day: int)
    requires StrictlySorted(weekdays)
    ensures ToggleWeekday(ToggleWeekday(weekdays, day), day) == weekdays
  {
    var once := ToggleWeekday(weekdays, day);
    var twice := ToggleWeekday(once, day);
    if day in weekdays {
      WithoutSorted(weekdays, day);
      DistinctCount(weekdays, day);
      assert multiset(twice) == multiset(weekdays);
    } else {
      assert multiset(twice) == multiset(weekdays);
      WithoutSorted(once, day) by {
        SortedAddNew(weekdays, day);
      }
    }
    SortedUnique(twice, weekdays);
  }

  /**
    `addExcludedDate`: an empty date input, or a date already excluded,
    changes nothing; any other date is added and the list sorted.
   */
  function AddExcludedDate(excluded: seq<int>, date: Option<int>): (r: seq<int>)
    ensures date.None? || date.value in excluded ==> r == excluded
    ensures date.Some? && date.value !in excluded ==>
      Sorted(r) && multiset(r) == multiset(excluded) + multiset{date.value}
  {
    match date
    case None => excluded
    case Some(d) => if d in excluded then excluded else Sort(excluded + [d])
  }

  /** Adding an excluded date keeps the list ascending and free of duplicates. */
  lemma AddExcludedKeepsStrictlySorted(excluded: seq<int>, date: Option<int>)
    requires StrictlySorted(excluded)
    ensures StrictlySorted(AddExcludedDate(excluded, date))
  {
    if date.Some? && date.value !in excluded {
      SortedAddNew(excluded, date.value);
    }
  }

  /** `removeExcludedDate`: every copy of the date is removed, every other date kept in order. */
  function RemoveExcludedDate(excluded: seq<int>, date: int): (r: seq<int>)
    ensures date !in r
    ensures multiset(r) == multiset(excluded)[date := 0]
  {
    Without(excluded, date)
  }
}
