/**
 A stable sort of publication records by year, standing in for
 `Array.prototype.sort` with a year-difference comparator. ECMA-262 (section
 23.1.3.30 of the 2023 edition) requires that sort to be stable: records the
 comparator calls equal keep their relative order.
 */
module Sorting {
  import opened Data

  /** The two comparators of the source: `a.year - b.year` and `b.year - a.year`. */
  datatype Direction = Ascending | Descending

  /** Year `x` strictly precedes year `y`: the comparator returns a negative number. */
  predicate Precedes(d: Direction, x: int, y: int) {
    match d
    case Ascending => x < y
    case Descending => x > y
  }

  /** No record is placed after one whose year it strictly precedes. */
  predicate Sorted(d: Direction, s: seq<Publication>) {
    forall i, j :: 0 <= i < j < |s| ==> !Precedes(d, s[j].year, s[i].year)
  }

  /** The records of `s` whose year is `y`, in the order they have in `s`. */
  function WithYear(s: seq<Publication>, y: int): (r: seq<Publication>)
    ensures |r| <= |s|
  {
    if |s| == 0 then []
    else (if s[0].year == y then [s[0]] else []) + WithYear(s[1..], y)
  }

  /** A year group holds exactly the records of `s` of that year. */
  lemma {:induction false} WithYearMembers(s: seq<Publication>, y: int)
    ensures forall p :: p in WithYear(s, y) <==> p in s && p.year == y
  {
    if |s| > 0 {
      WithYearMembers(s[1..], y);
      assert s == [s[0]] + s[1..];
    }
  }

  /** Stability: every group of equal years appears in `b` in the same order as in `a`. */
  ghost predicate SameYearOrder(a: seq<Publication>, b: seq<Publication>) {
    forall y :: WithYear(a, y) == WithYear(b, y)
  }

  /** Year filtering of a record put in front of `s`. */
  lemma WithYearCons(x: Publication, s: seq<Publication>, y: int)
    ensures WithYear([x] + s, y) == (if x.year == y then [x] else []) + WithYear(s, y)
  {
    assert ([x] + s)[1..] == s;
  }

  /** Year filtering distributes over concatenation. */
  lemma {:induction false} WithYearAppend(a: seq<Publication>, b: seq<Publication>, y: int)
    ensures WithYear(a + b, y) == WithYear(a, y) + WithYear(b, y)
    decreases |a|
  {
    if |a| == 0 {
      assert a + b == b;
    } else {
      assert a + b == [a[0]] + (a[1..] + b);
      WithYearCons(a[0], a[1..] + b, y);
      WithYearAppend(a[1..], b, y);
      assert a == [a[0]] + a[1..];
      WithYearCons(a[0], a[1..], y);
    }
  }

  /** Every record of `s` has year `y`. */
  predicate AllOfYear(s: seq<Publication>, y: int) {
    forall i :: 0 <= i < |s| ==> s[i].year == y
  }

  /** A sequence whose records all have year `y` is its own year-`y` group. */
  lemma {:induction false} WithYearAll(s: seq<Publication>, y: int)
    requires AllOfYear(s, y)
    ensures WithYear(s, y) == s
  {
    if |s| > 0 {
      WithYearAll(s[1..], y);
      assert s == [s[0]] + s[1..];
    }
  }

  /** A sequence with no record of year `y` has an empty year-`y` group. */
  lemma {:induction false} WithYearNone(s: seq<Publication>, y: int)
    requires forall i :: 0 <= i < |s| ==> s[i].year != y
    ensures WithYear(s, y) == []
  {
    if |s| > 0 {
      WithYearNone(s[1..], y);
    }
  }

  /** Sortedness of the step of `Insert` where `x` goes behind the first record of `s`. */
  lemma InsertBehindHeadSorted(d: Direction, x: Publication, s: seq<Publication>, rest: seq<Publication>)
    requires Sorted(d, s) && |s| > 0 && Precedes(d, s[0].year, x.year)
    requires Sorted(d, rest)
    requires multiset(rest) == multiset(s[1..]) + multiset{x}
    ensures Sorted(d, [s[0]] + rest)
  {
    var r := [s[0]] + rest;
    forall i, j | 0 <= i < j < |r| ensures !Precedes(d, r[j].year, r[i].year) {
      if i == 0 {
        assert r[j] in multiset(rest);
        if r[j] != x {
          assert r[j] in multiset(s[1..]);
          var k :| 0 <= k < |s[1..]| && s[1..][k] == r[j];
          assert s[k + 1] == r[j];
        }
      } else {
        assert r[i] == rest[i - 1] && r[j] == rest[j - 1];
      }
    }
  }

  /** Stability of the step of `Insert` where `x` goes behind the first record of `s`, for one year. */
  lemma InsertBehindHeadYear(x: Publication, s: seq<Publication>, rest: seq<Publication>, y: int)
    requires |s| > 0 && s[0].year != x.year
    requires WithYear(rest, y) == (if x.year == y then [x] else []) + WithYear(s[1..], y)
    ensures WithYear([s[0]] + rest, y) == (if x.year == y then [x] else []) + WithYear(s, y)
  {
    WithYearCons(s[0], rest, y);
    WithYearCons(s[0], s[1..], y);
    assert [s[0]] + s[1..] == s;
    if x.year == y {
      assert WithYear([s[0]] + rest, y) == [] + ([x] + WithYear(s[1..], y));
    } else {
      assert WithYear([s[0]] + rest, y) == (if s[0].year == y then [s[0]] else []) + WithYear(s[1..], y);
    }
  }

  /** Stability of the step of `Insert` where `x` goes behind the first record of `s`. */
  lemma InsertBehindHeadYears(x: Publication, s: seq<Publication>, rest: seq<Publication>)
    requires |s| > 0 && s[0].year != x.year
    requires forall y :: WithYear(rest, y) == (if x.year == y then [x] else []) + WithYear(s[1..], y)
    ensures forall y :: WithYear([s[0]] + rest, y) == (if x.year == y then [x] else []) + WithYear(s, y)
  {
    forall y ensures WithYear([s[0]] + rest, y) == (if x.year == y then [x] else []) + WithYear(s, y) {
      InsertBehindHeadYear(x, s, rest, y);
    }
  }

  /** `WithYearCons` for every year at once. */
  lemma WithYearConsAll(x: Publication, s: seq<Publication>)
    ensures forall y :: WithYear([x] + s, y) == (if x.year == y then [x] else []) + WithYear(s, y)
  {
    forall y ensures WithYear([x] + s, y) == (if x.year == y then [x] else []) + WithYear(s, y) {
      WithYearCons(x, s, y);
    }
  }

  /** A non-empty sequence is its first record followed by the rest. */
  lemma HeadTailMultiset(s: seq<Publication>)
    requires |s| > 0
    ensures multiset(s) == multiset{s[0]} + multiset(s[1..])
  {
    assert s == [s[0]] + s[1..];
  }

  /** Places `x` into sorted `s` in front of every record whose year it does not strictly follow. */
  function Insert(d: Direction, x: Publication, s: seq<Publication>): (r: seq<Publication>)
    requires Sorted(d, s)
    ensures Sorted(d, r)
    ensures multiset(r) == multiset(s) + multiset{x}
    ensures forall y :: WithYear(r, y) == (if x.year == y then [x] else []) + WithYear(s, y)
  {
    if |s| == 0 then [x]
    else if Precedes(d, s[0].year, x.year) then
      var rest := Insert(d, x, s[1..]);
      HeadTailMultiset(s);
      InsertBehindHeadSorted(d, x, s, rest);
      InsertBehindHeadYears(x, s, rest);
      [s[0]] + rest
    else
      WithYearConsAll(x, s);
      [x] + s
  }

  /**
   Stable insertion sort: the result is ordered by year in direction `d`, is a
   permutation of `s`, and keeps the source order among records of equal year.
   */
  function Sort(d: Direction, s: seq<Publication>): (r: seq<Publication>)
    ensures Sorted(d, r)
    ensures multiset(r) == multiset(s) && |r| == |s|
    ensures SameYearOrder(s, r)
  {
    if |s| == 0 then []
    else
      assert s == [s[0]] + s[1..];
      assert forall y :: WithYear(s, y) == (if s[0].year == y then [s[0]] else []) + WithYear(s[1..], y) by {
        forall y ensures WithYear(s, y) == (if s[0].year == y then [s[0]] else []) + WithYear(s[1..], y) {
          WithYearCons(s[0], s[1..], y);
        }
      }
      Insert(d, s[0], Sort(d, s[1..]))
  }

  /** The tail of a sorted sequence is sorted. */
  lemma SortedTail(d: Direction, s: seq<Publication>)
    requires Sorted(d, s) && |s| > 0
    ensures Sorted(d, s[1..])
  {
    forall i, j | 0 <= i < j < |s[1..]| ensures !Precedes(d, s[1..][j].year, s[1..][i].year) {
      assert s[1..][i] == s[i + 1] && s[1..][j] == s[j + 1];
    }
  }

  /** A non-empty sequence holds records of its first record's year. */
  lemma NonEmptyHasHeadYear(s: seq<Publication>)
    requires |s| > 0
    ensures |WithYear(s, s[0].year)| > 0
  {
  }

  /** Sequences with the same per-year subsequences are empty together. */
  lemma EmptyTogether(a: seq<Publication>, b: seq<Publication>)
    requires SameYearOrder(a, b)
    ensures |a| == 0 ==> |b| == 0
  {
    if |b| > 0 {
      NonEmptyHasHeadYear(b);
      assert WithYear(a, b[0].year) == WithYear(b, b[0].year);
    }
  }

  /** If sorted `s` holds a record of year `y`, then `y` does not strictly precede the first year. */
  lemma HeadYearFirst(d: Direction, s: seq<Publication>, y: int)
    requires Sorted(d, s) && |WithYear(s, y)| > 0
    ensures !Precedes(d, y, s[0].year)
  {
    WithYearMembers(s, y);
    assert WithYear(s, y)[0] in WithYear(s, y);
    var k :| 0 <= k < |s| && s[k] == WithYear(s, y)[0];
    if k > 0 {
      assert !Precedes(d, s[k].year, s[0].year);
    }
  }

  /** Dropping equal first records keeps the per-year subsequences equal. */
  lemma TailsSameYearOrder(a: seq<Publication>, b: seq<Publication>)
    requires |a| > 0 && |b| > 0 && a[0] == b[0]
    requires SameYearOrder(a, b)
    ensures SameYearOrder(a[1..], b[1..])
  {
    forall y
      ensures WithYear(a[1..], y) == WithYear(b[1..], y)
    {
      var pre := if a[0].year == y then [a[0]] else [];
      assert WithYear(a, y) == pre + WithYear(a[1..], y);
      assert WithYear(b, y) == pre + WithYear(b[1..], y);
      assert (pre + WithYear(a[1..], y))[|pre|..] == WithYear(a[1..], y);
      assert (pre + WithYear(b[1..], y))[|pre|..] == WithYear(b[1..], y);
    }
  }

  /** Two sorted sequences with the same per-year subsequences start with the same record. */
  lemma SameHead(d: Direction, a: seq<Publication>, b: seq<Publication>)
    requires Sorted(d, a) && Sorted(d, b) && |a| > 0 && |b| > 0
    requires SameYearOrder(a, b)
    ensures a[0] == b[0]
  {
    var ya, yb := a[0].year, b[0].year;
    NonEmptyHasHeadYear(a);
    assert WithYear(a, ya) == WithYear(b, ya);
    HeadYearFirst(d, b, ya);
    NonEmptyHasHeadYear(b);
    assert WithYear(a, yb) == WithYear(b, yb);
    HeadYearFirst(d, a, yb);
    assert ya == yb;
    assert WithYear(a, ya)[0] == a[0];
    assert WithYear(b, ya)[0] == b[0];
  }

  /**
   A sorted order with the same per-year subsequences is unique: being sorted
   and stable determines the result completely.
   */
  lemma {:induction false} SortedStableUnique(d: Direction, a: seq<Publication>, b: seq<Publication>)
    requires Sorted(d, a) && Sorted(d, b)
    requires SameYearOrder(a, b)
    ensures a == b
    decreases |a|
  {
    EmptyTogether(a, b);
    EmptyTogether(b, a);
    if |a| > 0 {
      SameHead(d, a, b);
      TailsSameYearOrder(a, b);
      SortedTail(d, a);
      SortedTail(d, b);
      SortedStableUnique(d, a[1..], b[1..]);
      assert a == [a[0]] + a[1..];
      assert b == [b[0]] + b[1..];
    }
  }

  /** `Sort` is the only sorted, stable rearrangement of its input. */
  lemma SortCharacterized(d: Direction, s: seq<Publication>, r: seq<Publication>)
    requires Sorted(d, r) && SameYearOrder(s, r)
    ensures r == Sort(d, s)
  {
    var t := Sort(d, s);
    assert SameYearOrder(r, t) by {
      forall y ensures WithYear(r, y) == WithYear(t, y) {
        assert WithYear(s, y) == WithYear(r, y);
        assert WithYear(s, y) == WithYear(t, y);
      }
    }
    SortedStableUnique(d, r, t);
  }

  /** Sorting input that is already in order leaves it unchanged. */
  lemma SortIdempotent(d: Direction, s: seq<Publication>)
    requires Sorted(d, s)
    ensures Sort(d, s) == s
  {
    SortCharacterized(d, s, s);
  }

  /**
   A preliminary stable sort in any direction has no effect on a second stable
   sort: the outcome equals one stable sort of the original input.
   */
  lemma SortAfterSort(first: Direction, second: Direction, s: seq<Publication>)
    ensures Sort(second, Sort(first, s)) == Sort(second, s)
  {
    var once := Sort(first, s);
    var twice := Sort(second, once);
    assert SameYearOrder(s, twice) by {
      forall y ensures WithYear(s, y) == WithYear(twice, y) {
        assert WithYear(s, y) == WithYear(once, y);
        assert WithYear(once, y) == WithYear(twice, y);
      }
    }
    SortCharacterized(second, s, twice);
  }
}
