/**
 The column reductions the preprocessing routine takes from its dataframe
 library: the NaN-skipping `mean`, `min` and `max` of a column, and the
 `quantile` of a column under the library's default "linear" interpolation.

 A cell is an `Option<real>`: `None` stands for a missing value (NaN), and the
 arithmetic on `real` is an exact abstraction of the floating-point arithmetic.
 */
module Stats {

  datatype Option<+T> = None | Some(value: T)

  /** The values of the cells that are present, in column order (what a
      NaN-skipping reduction sees). */
  function Present(col: seq<Option<real>>): (p: seq<real>)
    ensures |p| <= |col|
    ensures forall x :: x in p <==> Some(x) in col
    ensures p == [] <==> forall i :: 0 <= i < |col| ==> col[i].None?
  {
    if col == [] then []
    else
      var rest := Present(col[1..]);
      assert forall x :: Some(x) in col <==> col[0] == Some(x) || Some(x) in col[1..];
      match col[0]
      case Some(x) => [x] + rest
      case None => rest
  }

  function Sum(xs: seq<real>): real
  {
    if xs == [] then 0.0 else xs[0] + Sum(xs[1..])
  }

  /** The smallest element of a non-empty sequence. */
  function Min(xs: seq<real>): (m: real)
    requires xs != []
    ensures m in xs
    ensures forall x :: x in xs ==> m <= x
  {
    if |xs| == 1 then xs[0]
    else
      var m' := Min(xs[1..]);
      assert forall x :: x in xs ==> x == xs[0] || x in xs[1..];
      if xs[0] <= m' then xs[0] else m'
  }

  /** The largest element of a non-empty sequence. */
  function Max(xs: seq<real>): (m: real)
    requires xs != []
    ensures m in xs
    ensures forall x :: x in xs ==> x <= m
  {
    if |xs| == 1 then xs[0]
    else
      var m' := Max(xs[1..]);
      assert forall x :: x in xs ==> x == xs[0] || x in xs[1..];
      if xs[0] >= m' then xs[0] else m'
  }

  /** The NaN-skipping minimum: undefined (None) when no cell is present. */
  function MinSkipNa(col: seq<Option<real>>): (m: Option<real>)
    ensures m.None? <==> forall i :: 0 <= i < |col| ==> col[i].None?
    ensures m.Some? ==> exists i :: 0 <= i < |col| && col[i] == Some(m.value)
    ensures m.Some? ==> forall i :: 0 <= i < |col| && col[i].Some? ==> m.value <= col[i].value
  {
    var p := Present(col);
    if p == [] then None
    else
      var m := Min(p);
      assert forall i :: 0 <= i < |col| && col[i].Some? ==> col[i].value in p by {
        forall i | 0 <= i < |col| && col[i].Some? ensures col[i].value in p {
          assert Some(col[i].value) in col;
        }
      }
      Some(m)
  }

  /** The NaN-skipping maximum: undefined (None) when no cell is present. */
  function MaxSkipNa(col: seq<Option<real>>): (m: Option<real>)
    ensures m.None? <==> forall i :: 0 <= i < |col| ==> col[i].None?
    ensures m.Some? ==> exists i :: 0 <= i < |col| && col[i] == Some(m.value)
    ensures m.Some? ==> forall i :: 0 <= i < |col| && col[i].Some? ==> col[i].value <= m.value
  {
    var p := Present(col);
    if p == [] then None
    else
      var m := Max(p);
      assert forall i :: 0 <= i < |col| && col[i].Some? ==> col[i].value in p by {
        forall i | 0 <= i < |col| && col[i].Some? ensures col[i].value in p {
          assert Some(col[i].value) in col;
        }
      }
      Some(m)
  }

  /** The NaN-skipping mean: undefined (None) when no cell is present. */
  function Mean(col: seq<Option<real>>): Option<real>
  {
    var p := Present(col);
    if p == [] then None else Some(Sum(p) / |p| as real)
  }

  lemma {:induction false} SumBounds(xs: seq<real>, lo: real, hi: real)
    requires forall x :: x in xs ==> lo <= x <= hi
    ensures |xs| as real * lo <= Sum(xs) <= |xs| as real * hi
  {
    if xs != [] {
      assert xs[0] in xs;
      assert forall x :: x in xs[1..] ==> x in xs;
      SumBounds(xs[1..], lo, hi);
      AddBounds(|xs[1..]| as real, Sum(xs[1..]), xs[0], lo, hi);
      assert |xs| as real == |xs[1..]| as real + 1.0;
    }
  }

  /** One more element in [lo, hi] keeps a sum of n such elements in
      [n * lo, n * hi]. */
  lemma AddBounds(n: real, s: real, x: real, lo: real, hi: real)
    requires n * lo <= s <= n * hi && lo <= x <= hi
    ensures (n + 1.0) * lo <= x + s <= (n + 1.0) * hi
  {
    assert (n + 1.0) * lo == n * lo + lo;
    assert (n + 1.0) * hi == n * hi + hi;
  }

  /** The average of values that all lie in [lo, hi] lies in [lo, hi]. */
  lemma AverageWithin(xs: seq<real>, lo: real, hi: real)
    requires xs != []
    requires forall x :: x in xs ==> lo <= x <= hi
    ensures lo <= Sum(xs) / |xs| as real <= hi
  {
    SumBounds(xs, lo, hi);
    DivideBounds(Sum(xs), |xs| as real, lo, hi);
  }

  /** n * lo <= s <= n * hi with n > 0 gives lo <= s / n <= hi. */
  lemma DivideBounds(s: real, n: real, lo: real, hi: real)
    requires n > 0.0 && n * lo <= s <= n * hi
    ensures lo <= s / n <= hi
  {
    var d := s / n;
    assert d * n == s;
    if d < lo {
      MulPositive(lo - d, n);
    }
    if d > hi {
      MulPositive(d - hi, n);
    }
  }

  /** The mean of the present cells lies between their minimum and maximum. */
  lemma MeanWithinRange(col: seq<Option<real>>)
    requires exists i :: 0 <= i < |col| && col[i].Some?
    ensures Mean(col).Some? && MinSkipNa(col).Some? && MaxSkipNa(col).Some?
    ensures MinSkipNa(col).value <= Mean(col).value <= MaxSkipNa(col).value
  {
    var p := Present(col);
    assert p != [];
    AverageWithin(p, Min(p), Max(p));
  }

  predicate Sorted(s: seq<real>)
  {
    forall i, j :: 0 <= i <= j < |s| ==> s[i] <= s[j]
  }

  function Insert(x: real, s: seq<real>): (r: seq<real>)
    requires Sorted(s)
    ensures Sorted(r)
    ensures multiset(r) == multiset(s) + multiset{x}
  {
    if s == [] then [x]
    else if x <= s[0] then
      SortedCons(x, s);
      [x] + s
    else
      var t := Insert(x, s[1..]);
      assert s == [s[0]] + s[1..];
      LowerBoundKept(s[0], s[1..], x, t);
      SortedCons(s[0], t);
      [s[0]] + t
  }

  /** A lower bound of a sorted sequence can be put in front of it. */
  lemma SortedCons(a: real, t: seq<real>)
    requires Sorted(t)
    requires t != [] ==> a <= t[0]
    ensures Sorted([a] + t)
  {
  }

  /** A lower bound of a sequence and of x bounds any rearrangement of the
      sequence with x added. */
  lemma LowerBoundKept(a: real, rest: seq<real>, x: real, t: seq<real>)
    requires forall i :: 0 <= i < |rest| ==> a <= rest[i]
    requires a <= x
    requires multiset(t) == multiset(rest) + multiset{x}
    ensures forall i :: 0 <= i < |t| ==> a <= t[i]
    ensures t != [] ==> a <= t[0]
  {
    forall i | 0 <= i < |t| ensures a <= t[i] {
      assert t[i] in multiset(t);
      if t[i] != x {
        assert t[i] in multiset(rest);
        var j :| 0 <= j < |rest| && rest[j] == t[i];
      }
    }
  }

  /** The sorted copy of a column that the quantile is read from. */
  function SortAsc(s: seq<real>): (r: seq<real>)
    ensures Sorted(r)
    ensures multiset(r) == multiset(s)
    ensures |r| == |s|
  {
    if s == [] then []
    else
      assert s == [s[0]] + s[1..];
      Insert(s[0], SortAsc(s[1..]))
  }

  /** The virtual index (m * q) of a quantile lies within [0, m], and grows
      with q. */
  lemma VirtualIndex(m: nat, q: real, q': real)
    requires 0.0 <= q <= q' <= 1.0
    ensures 0.0 <= m as real * q <= m as real * q' <= m as real
  {
    assert m as real * (q' - q) >= 0.0;
    assert m as real * (1.0 - q') >= 0.0;
  }

  /** The virtual index of the quantile at q in a sorted column of m + 1
      elements. */
  function VirtualPos(m: nat, q: real): (pos: real)
    requires 0.0 <= q <= 1.0
    ensures 0.0 <= pos <= m as real
  {
    VirtualIndex(m, q, q);
    m as real * q
  }

  lemma MulNonNegative(x: real, y: real)
    requires x >= 0.0 && y >= 0.0
    ensures x * y >= 0.0
  {
  }

  lemma VirtualPosMonotone(m: nat, q: real, q': real)
    requires 0.0 <= q <= q' <= 1.0
    ensures VirtualPos(m, q) <= VirtualPos(m, q')
  {
    VirtualIndex(m, q, q');
  }

  lemma MulPositive(x: real, y: real)
    requires x > 0.0 && y > 0.0
    ensures x * y > 0.0
  {
  }

  /** Linear interpolation from a (at f = 0) to b (at f = 1). */
  function Lerp(a: real, b: real, f: real): (r: real)
    requires a <= b && 0.0 <= f <= 1.0
    ensures a <= r <= b
  {
    MulNonNegative(f, b - a);
    MulNonNegative(1.0 - f, b - a);
    a + f * (b - a)
  }

  lemma LerpMonotone(a: real, b: real, f: real, f': real)
    requires a <= b && 0.0 <= f <= f' <= 1.0
    ensures Lerp(a, b, f) <= Lerp(a, b, f')
  {
    MulNonNegative(f' - f, b - a);
  }

  /** The quantile at q of a sorted non-empty column, by linear interpolation
      between the two order statistics around the virtual index
      (|t| - 1) * q. */
  function SortedQuantile(t: seq<real>, q: real): real
    requires t != [] && Sorted(t) && 0.0 <= q <= 1.0
  {
    var pos := VirtualPos(|t| - 1, q);
    var lo := pos.Floor;
    if lo + 1 < |t| then Lerp(t[lo], t[lo + 1], pos - lo as real) else t[lo]
  }

  /** The quantile at q of a non-empty column: that of its sorted copy. */
  function Quantile(s: seq<real>, q: real): real
    requires s != [] && 0.0 <= q <= 1.0
  {
    SortedQuantile(SortAsc(s), q)
  }

  /** A quantile of a sorted column lies between its first and last element. */
  lemma SortedQuantileWithin(t: seq<real>, q: real)
    requires t != [] && Sorted(t) && 0.0 <= q <= 1.0
    ensures t[0] <= SortedQuantile(t, q) <= t[|t| - 1]
  {
    var lo := VirtualPos(|t| - 1, q).Floor;
    assert t[0] <= t[lo] <= t[|t| - 1];
    if lo + 1 < |t| {
      assert t[lo + 1] <= t[|t| - 1];
    }
  }

  /** A quantile lies within the column's range. */
  lemma QuantileWithin(s: seq<real>, q: real)
    requires s != [] && 0.0 <= q <= 1.0
    ensures Min(s) <= Quantile(s, q) <= Max(s)
  {
    var t := SortAsc(s);
    SortedQuantileWithin(t, q);
    assert t[0] in multiset(s) && t[|t| - 1] in multiset(s);
    assert t[0] in s && t[|t| - 1] in s;
  }

  /** The quantile of a sorted column grows with q. */
  lemma SortedQuantileMonotone(t: seq<real>, q: real, q': real)
    requires t != [] && Sorted(t) && 0.0 <= q <= q' <= 1.0
    ensures SortedQuantile(t, q) <= SortedQuantile(t, q')
  {
    var pos, pos' := VirtualPos(|t| - 1, q), VirtualPos(|t| - 1, q');
    VirtualPosMonotone(|t| - 1, q, q');
    var lo, lo' := pos.Floor, pos'.Floor;
    assert lo as real <= pos && pos' < lo' as real + 1.0;
    if lo == lo' {
      if lo + 1 < |t| {
        LerpMonotone(t[lo], t[lo + 1], pos - lo as real, pos' - lo' as real);
      }
    } else {
      assert t[lo + 1] <= t[lo'];
    }
  }

  /** The quantile grows with q: in particular the first quartile never
      exceeds the third, so an interquartile range is never negative. */
  lemma QuantileMonotone(s: seq<real>, q: real, q': real)
    requires s != [] && 0.0 <= q <= q' <= 1.0
    ensures Quantile(s, q) <= Quantile(s, q')
  {
    SortedQuantileMonotone(SortAsc(s), q, q');
  }
}
