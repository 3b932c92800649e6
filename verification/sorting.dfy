/** Insertion sort of counter values and the median taken from its result, as the
    count sketches use them to turn one reading per row into an estimate. */
module Sorting {

  predicate Sorted(s: seq<int>)
  {
    forall i, j :: 0 <= i < j < |s| ==> s[i] <= s[j]
  }

  /** Put `x` in front of the first element of `s` that is not smaller. */
  function Insert(x: int, s: seq<int>): (r: seq<int>)
    ensures |r| == |s| + 1
  {
    if |s| == 0 || x <= s[0] then [x] + s else [s[0]] + Insert(x, s[1..])
  }

  /** Insertion sort: sort all but the last element, then insert the last one. */
  function InsertionSort(s: seq<int>): (r: seq<int>)
    ensures |r| == |s|
  {
    if |s| == 0 then [] else Insert(s[|s| - 1], InsertionSort(s[..|s| - 1]))
  }

  /** Inserting adds exactly `x` to the values held. */
  lemma {:induction false} InsertPermutes(x: int, s: seq<int>)
    ensures multiset(Insert(x, s)) == multiset(s) + multiset{x}
    decreases |s|
  {
    if |s| > 0 && x > s[0] {
      InsertPermutes(x, s[1..]);
      assert s == [s[0]] + s[1..];
    }
  }

  /** The sort's result is a permutation of its input. */
  lemma {:induction false} InsertionSortPermutes(s: seq<int>)
    ensures multiset(InsertionSort(s)) == multiset(s)
    decreases |s|
  {
    if |s| > 0 {
      InsertionSortPermutes(s[..|s| - 1]);
      InsertPermutes(s[|s| - 1], InsertionSort(s[..|s| - 1]));
      assert s == s[..|s| - 1] + [s[|s| - 1]];
    }
  }

  lemma {:induction false} InsertKeepsSorted(x: int, s: seq<int>)
    requires Sorted(s)
    ensures Sorted(Insert(x, s))
    decreases |s|
  {
    if |s| > 0 && x > s[0] {
      InsertKeepsSorted(x, s[1..]);
      InsertPermutes(x, s[1..]);
      var t := Insert(x, s[1..]);
      assert t[0] in multiset(t);
      assert t[0] == x || t[0] in multiset(s[1..]);
      assert t[0] == x || t[0] in s[1..];
    }
  }

  /** The sort's result is in ascending order. */
  lemma {:induction false} InsertionSortSorts(s: seq<int>)
    ensures Sorted(InsertionSort(s))
    decreases |s|
  {
    if |s| > 0 {
      InsertionSortSorts(s[..|s| - 1]);
      InsertKeepsSorted(s[|s| - 1], InsertionSort(s[..|s| - 1]));
    }
  }

  /** Every element plus `c`. */
  function Shift(s: seq<int>, c: int): (r: seq<int>)
    ensures |r| == |s| && forall i :: 0 <= i < |s| ==> r[i] == s[i] + c
  {
    if |s| == 0 then [] else [s[0] + c] + Shift(s[1..], c)
  }

  /** A sequence that is `b` moved by `c` element by element is `Shift(b, c)`. */
  lemma {:induction false} ShiftPointwise(a: seq<int>, b: seq<int>, c: int)
    requires |a| == |b| && forall i :: 0 <= i < |a| ==> a[i] == b[i] + c
    ensures a == Shift(b, c)
  {
    var t := Shift(b, c);
    assert |t| == |a| && forall i :: 0 <= i < |a| ==> t[i] == a[i];
  }

  lemma {:induction false} InsertShift(x: int, s: seq<int>, c: int)
    ensures Insert(x + c, Shift(s, c)) == Shift(Insert(x, s), c)
    decreases |s|
  {
    var t := Shift(s, c);
    if |s| == 0 || x <= s[0] {
      assert ([x] + s)[1..] == s;
    } else {
      assert t[1..] == Shift(s[1..], c);
      InsertShift(x, s[1..], c);
      var i := Insert(x, s[1..]);
      assert ([s[0]] + i)[1..] == i;
    }
  }

  lemma {:induction false} ShiftPrefix(s: seq<int>, c: int, n: nat)
    requires n <= |s|
    ensures Shift(s, c)[..n] == Shift(s[..n], c)
  {
  }

  lemma {:induction false} SortLast(s: seq<int>)
    requires |s| > 0
    ensures InsertionSort(s) == Insert(s[|s| - 1], InsertionSort(s[..|s| - 1]))
  {
  }

  lemma {:induction false} InsertSame(x: int, a: seq<int>, b: seq<int>)
    requires a == b
    ensures Insert(x, a) == Insert(x, b)
  {
  }

  /** Adding the same amount to every reading commutes with sorting them. */
  lemma {:induction false} InsertionSortShift(s: seq<int>, c: int)
    ensures InsertionSort(Shift(s, c)) == Shift(InsertionSort(s), c)
    decreases |s|
  {
    if |s| > 0 {
      var p, x, t := s[..|s| - 1], s[|s| - 1], Shift(s, c);
      ShiftPrefix(s, c, |s| - 1);
      assert t[..|t| - 1] == Shift(p, c);
      assert t[|t| - 1] == x + c;
      InsertionSortShift(p, c);
      InsertShift(x, InsertionSort(p), c);
      SortLast(t);
      SortLast(s);
      InsertSame(x + c, InsertionSort(Shift(p, c)), Shift(InsertionSort(p), c));
    }
  }

  /** Sorting one value, or two already in order, changes nothing. */
  lemma {:induction false} SortShort(v: seq<int>)
    requires |v| == 1 || (|v| == 2 && v[0] <= v[1])
    ensures InsertionSort(v) == v
  {
    assert InsertionSort(v[..1]) == Insert(v[0], InsertionSort(v[..0])) == [v[0]];
    if |v| == 2 {
      assert InsertionSort(v) == Insert(v[1], [v[0]]) == [v[0]] + Insert(v[1], []);
    }
  }

  /** The median of a sorted sequence: the mean of its two middle elements (the same
      element twice when the length is odd), rounded down as `>> 1` rounds. */
  function Median(s: seq<int>): (m: int)
    requires |s| >= 1
  {
    (s[|s| / 2] + s[(|s| - 1) / 2]) / 2
  }

  /** The median of a sorted sequence lies between its two middle elements, and is
      the middle element when the length is odd. */
  lemma {:induction false} MedianBetween(s: seq<int>)
    requires |s| >= 1 && Sorted(s)
    ensures s[(|s| - 1) / 2] <= Median(s) <= s[|s| / 2]
    ensures |s| % 2 == 1 ==> Median(s) == s[|s| / 2]
  {
  }

  /** Adding `c` to every element adds `c` to the median. */
  lemma {:induction false} MedianShift(s: seq<int>, c: int)
    requires |s| >= 1
    ensures Median(Shift(s, c)) == Median(s) + c
  {
    var i, j, t := |s| / 2, (|s| - 1) / 2, Shift(s, c);
    var x, y := s[i] + s[j], t[i] + t[j];
    assert Median(s) == x / 2;
    assert |t| == |s| && Median(t) == y / 2;
    HalfShift(x, y, c);
  }

  /** Halving, rounded down, commutes with adding an even amount. */
  lemma {:induction false} HalfShift(x: int, y: int, c: int)
    requires y == x + 2 * c
    ensures y / 2 == x / 2 + c
  {
    var q, m := x / 2, x % 2;
    assert x == 2 * q + m && 0 <= m < 2;
    assert y == 2 * (q + c) + m;
  }

  /** The median of the sorted readings lies between the smallest and the largest
      reading. */
  lemma {:induction false} MedianOfSortInRange(s: seq<int>)
    requires |s| >= 1
    ensures var m := Median(InsertionSort(s));
      (exists i :: 0 <= i < |s| && s[i] <= m) && (exists i :: 0 <= i < |s| && m <= s[i])
  {
    var t := InsertionSort(s);
    InsertionSortSorts(s);
    InsertionSortPermutes(s);
    MedianBetween(t);
    var lo, hi := t[(|t| - 1) / 2], t[|t| / 2];
    assert lo in multiset(s) && hi in multiset(s);
    var i :| 0 <= i < |s| && s[i] == lo;
    var j :| 0 <= j < |s| && s[j] == hi;
  }

  /** When every reading is `c` the median is `c`. */
  lemma {:induction false} MedianOfConstant(s: seq<int>, c: int)
    requires |s| >= 1 && forall i :: 0 <= i < |s| ==> s[i] == c
    ensures Median(InsertionSort(s)) == c
  {
    var t := InsertionSort(s);
    InsertionSortPermutes(s);
    var lo, hi := t[(|t| - 1) / 2], t[|t| / 2];
    assert lo in multiset(s) && hi in multiset(s);
    assert lo in s && hi in s;
  }
}
