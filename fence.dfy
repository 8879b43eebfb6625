/**
 Step 10 (the numbered comment `# 10.`) of `preprocess_with_row_split` (data_process/preprocess.py): Tukey's
 fences on the train candidates. Per feature column the first and third
 quartiles Q1, Q3 and IQR = Q3 - Q1 are taken over the candidates; the
 "valid" columns are those with IQR > epsilon (all columns if there are
 none); a candidate survives when every valid column lies in the closed
 interval [Q1 - k * IQR, Q3 + k * IQR].
 */
module Fence {
  import opened Stats
  import opened Table

  /** `train_feats.quantile(0.25)` for column j. */
  function Q1(rows: seq<Row>, m: nat, j: nat): real
    requires Rectangular(rows, m) && j < m && rows != []
  {
    Quantile(Column(rows, m, j), 0.25)
  }

  /** `train_feats.quantile(0.75)` for column j. */
  function Q3(rows: seq<Row>, m: nat, j: nat): real
    requires Rectangular(rows, m) && j < m && rows != []
  {
    Quantile(Column(rows, m, j), 0.75)
  }

  /** `IQR = Q3 - Q1` for column j. */
  function Iqr(rows: seq<Row>, m: nat, j: nat): real
    requires Rectangular(rows, m) && j < m && rows != []
  {
    Q3(rows, m, j) - Q1(rows, m, j)
  }

  /** The quartiles of a column lie within its range and in order, so an
      interquartile range is never negative. */
  lemma QuartilesOrdered(rows: seq<Row>, m: nat, j: nat)
    requires Rectangular(rows, m) && j < m && rows != []
    ensures var c := Column(rows, m, j);
      Min(c) <= Q1(rows, m, j) <= Q3(rows, m, j) <= Max(c)
    ensures Iqr(rows, m, j) >= 0.0
  {
    var c := Column(rows, m, j);
    QuantileWithin(c, 0.25);
    QuantileWithin(c, 0.75);
    QuantileMonotone(c, 0.25, 0.75);
  }

  /** The fences the filter applies: the valid columns and, per column, the
      lower and upper bound. */
  datatype Fences = Fences(valid: seq<int>, lower: seq<real>, upper: seq<real>)

  /** `valid_cols`: the columns whose IQR exceeds epsilon, in column order;
      all columns when none does. */
  function ValidCols(iqr: seq<real>, epsilon: real): seq<int>
  {
    var strict := Select(Range(0, |iqr|), seq(|iqr|, j requires 0 <= j < |iqr| => iqr[j] > epsilon));
    if strict == [] then Range(0, |iqr|) else strict
  }

  /** The valid columns are exactly those with IQR > epsilon when there is
      one; otherwise they are all the columns. */
  lemma ValidColsExact(iqr: seq<real>, epsilon: real)
    ensures (exists j :: 0 <= j < |iqr| && iqr[j] > epsilon) ==>
      forall j :: j in ValidCols(iqr, epsilon) <==> 0 <= j < |iqr| && iqr[j] > epsilon
    ensures (forall j :: 0 <= j < |iqr| ==> iqr[j] <= epsilon) ==>
      ValidCols(iqr, epsilon) == Range(0, |iqr|)
    ensures forall j :: j in ValidCols(iqr, epsilon) ==> 0 <= j < |iqr|
  {
    var all := Range(0, |iqr|);
    var mask := seq(|iqr|, j requires 0 <= j < |iqr| => iqr[j] > epsilon);
    var strict := Select(all, mask);
    assert ValidCols(iqr, epsilon) == if strict == [] then all else strict;
    SelectMembership(all, mask);
    forall j | j in strict ensures 0 <= j < |iqr| && iqr[j] > epsilon {
      var i :| 0 <= i < |all| && mask[i] && all[i] == j;
    }
    forall j | 0 <= j < |iqr| && iqr[j] > epsilon ensures j in strict {
      assert mask[j] && all[j] == j;
    }
    forall j | j in all ensures 0 <= j < |iqr| {
      var i :| 0 <= i < |all| && all[i] == j;
    }
    if strict != [] {
      assert strict[0] in strict;
    }
  }

  /** `lower_bound` from a column's first quartile and IQR: `Q1 - k * IQR`. */
  function LowerBound(q1: real, iqr: real, k: real): real
  {
    q1 - k * iqr
  }

  /** `upper_bound` from a column's third quartile and IQR: `Q3 + k * IQR`. */
  function UpperBound(q3: real, iqr: real, k: real): real
  {
    q3 + k * iqr
  }

  /** `lower_bound` for column j. */
  function Lower(rows: seq<Row>, m: nat, k: real, j: nat): real
    requires Rectangular(rows, m) && j < m && rows != []
  {
    LowerBound(Q1(rows, m, j), Iqr(rows, m, j), k)
  }

  /** `upper_bound` for column j. */
  function Upper(rows: seq<Row>, m: nat, k: real, j: nat): real
    requires Rectangular(rows, m) && j < m && rows != []
  {
    UpperBound(Q3(rows, m, j), Iqr(rows, m, j), k)
  }

  /** Steps 10.1-10.3: quartiles over the candidates, valid columns and the
      bounds of every column. */
  function ComputeFences(rows: seq<Row>, m: nat, epsilon: real, k: real): (f: Fences)
    requires Rectangular(rows, m) && rows != []
    ensures |f.lower| == m && |f.upper| == m
    ensures forall c :: c in f.valid ==> 0 <= c < m
  {
    var iqr := IqrColumns(rows, m);
    ValidColsExact(iqr, epsilon);
    Fences(
      ValidCols(iqr, epsilon),
      seq(m, j requires 0 <= j < m => Lower(rows, m, k, j)),
      seq(m, j requires 0 <= j < m => Upper(rows, m, k, j)))
  }

  /** The IQR of every column, in column order. */
  function IqrColumns(rows: seq<Row>, m: nat): (iqr: seq<real>)
    requires Rectangular(rows, m) && rows != []
    ensures |iqr| == m
    ensures forall j :: 0 <= j < m ==> iqr[j] == Iqr(rows, m, j)
  {
    seq(m, j requires 0 <= j < m => Iqr(rows, m, j))
  }

  /** When some column has IQR > epsilon, the valid columns are exactly
      those. */
  lemma FencesValidStrict(rows: seq<Row>, m: nat, epsilon: real, k: real)
    requires Rectangular(rows, m) && rows != []
    requires exists j :: 0 <= j < m && Iqr(rows, m, j) > epsilon
    ensures forall c :: c in ComputeFences(rows, m, epsilon, k).valid <==> 0 <= c < m && Iqr(rows, m, c) > epsilon
  {
    var iqr := IqrColumns(rows, m);
    assert ComputeFences(rows, m, epsilon, k).valid == ValidCols(iqr, epsilon);
    var j :| 0 <= j < m && Iqr(rows, m, j) > epsilon;
    assert iqr[j] > epsilon;
    ValidColsExact(iqr, epsilon);
  }

  /** When no column has IQR > epsilon, every column is valid. */
  lemma FencesValidFallback(rows: seq<Row>, m: nat, epsilon: real, k: real)
    requires Rectangular(rows, m) && rows != []
    requires forall j :: 0 <= j < m ==> Iqr(rows, m, j) <= epsilon
    ensures forall c :: c in ComputeFences(rows, m, epsilon, k).valid <==> 0 <= c < m
  {
    var iqr := IqrColumns(rows, m);
    assert ComputeFences(rows, m, epsilon, k).valid == ValidCols(iqr, epsilon);
    ValidColsExact(iqr, epsilon);
  }

  /** Column j is bounded by Q1 - k * IQR below and Q3 + k * IQR above. */
  lemma FencesBounds(rows: seq<Row>, m: nat, epsilon: real, k: real)
    requires Rectangular(rows, m) && rows != []
    ensures var f := ComputeFences(rows, m, epsilon, k);
      forall j :: 0 <= j < m ==> f.lower[j] == Lower(rows, m, k, j) && f.upper[j] == Upper(rows, m, k, j)
  {
  }

  /** The fences the filter applies are those of the source: the valid
      columns are the ones whose IQR exceeds epsilon, or every column when
      none does, and column j is bounded by Q1 - k * IQR and Q3 + k * IQR. */
  lemma FencesExact(rows: seq<Row>, m: nat, epsilon: real, k: real)
    requires Rectangular(rows, m) && rows != []
    ensures var f := ComputeFences(rows, m, epsilon, k);
      && ((exists j :: 0 <= j < m && Iqr(rows, m, j) > epsilon) ==>
            forall c :: c in f.valid <==> 0 <= c < m && Iqr(rows, m, c) > epsilon)
      && ((forall j :: 0 <= j < m ==> Iqr(rows, m, j) <= epsilon) ==>
            forall c :: c in f.valid <==> 0 <= c < m)
      && forall j :: 0 <= j < m ==> f.lower[j] == Lower(rows, m, k, j) && f.upper[j] == Upper(rows, m, k, j)
  {
    if exists j :: 0 <= j < m && Iqr(rows, m, j) > epsilon {
      FencesValidStrict(rows, m, epsilon, k);
    } else {
      FencesValidFallback(rows, m, epsilon, k);
    }
    FencesBounds(rows, m, epsilon, k);
  }

  /** The fences are well formed for rows of m feature values. */
  predicate Fits(f: Fences, m: nat)
  {
    |f.lower| == m && |f.upper| == m && forall c :: c in f.valid ==> 0 <= c < m
  }

  /** `too_low.any()`: some valid column lies below its lower bound. */
  function AnyBelow(x: seq<real>, cols: seq<int>, lower: seq<real>): (b: bool)
    requires forall c :: c in cols ==> 0 <= c < |x| && c < |lower|
    ensures b <==> exists c :: c in cols && x[c] < lower[c]
  {
    if cols == [] then false
    else
      assert cols[0] in cols;
      assert forall c :: c in cols <==> c == cols[0] || c in cols[1..];
      x[cols[0]] < lower[cols[0]] || AnyBelow(x, cols[1..], lower)
  }

  /** `too_high.any()`: some valid column lies above its upper bound. */
  function AnyAbove(x: seq<real>, cols: seq<int>, upper: seq<real>): (b: bool)
    requires forall c :: c in cols ==> 0 <= c < |x| && c < |upper|
    ensures b <==> exists c :: c in cols && x[c] > upper[c]
  {
    if cols == [] then false
    else
      assert cols[0] in cols;
      assert forall c :: c in cols <==> c == cols[0] || c in cols[1..];
      x[cols[0]] > upper[cols[0]] || AnyAbove(x, cols[1..], upper)
  }

  /** `is_normal_row`: neither too low nor too high in any valid column. */
  function IsNormalRow(x: seq<real>, f: Fences): bool
    requires Fits(f, |x|)
  {
    !(AnyBelow(x, f.valid, f.lower) || AnyAbove(x, f.valid, f.upper))
  }

  /** A row is kept exactly when every valid column lies within its closed
      fence; a dropped row violates the fence of some valid column. */
  lemma KeptIffWithinFences(x: seq<real>, f: Fences)
    requires Fits(f, |x|)
    ensures IsNormalRow(x, f) <==>
      forall c :: c in f.valid ==> f.lower[c] <= x[c] <= f.upper[c]
    ensures !IsNormalRow(x, f) <==>
      exists c :: c in f.valid && (x[c] < f.lower[c] || x[c] > f.upper[c])
  {
    if !IsNormalRow(x, f) {
      if AnyBelow(x, f.valid, f.lower) {
        var c :| c in f.valid && x[c] < f.lower[c];
      } else {
        var c :| c in f.valid && x[c] > f.upper[c];
      }
    }
  }

  /** Columns that are not valid never decide a row's fate: two rows that
      agree on every valid column are kept or dropped together. */
  lemma InvalidColumnsIrrelevant(x: seq<real>, y: seq<real>, f: Fences)
    requires |x| == |y| && Fits(f, |x|)
    requires forall c :: c in f.valid ==> x[c] == y[c]
    ensures IsNormalRow(x, f) == IsNormalRow(y, f)
  {
    KeptIffWithinFences(x, f);
    KeptIffWithinFences(y, f);
  }

  /** With a non-negative multiplier every fence contains its column's
      quartile range [Q1, Q3]. */
  lemma FencesContainQuartiles(rows: seq<Row>, m: nat, k: real, j: nat)
    requires Rectangular(rows, m) && rows != [] && j < m && k >= 0.0
    ensures Lower(rows, m, k, j) <= Q1(rows, m, j) <= Q3(rows, m, j) <= Upper(rows, m, k, j)
  {
    QuartilesOrdered(rows, m, j);
    WidenedRange(Q1(rows, m, j), Q3(rows, m, j), Iqr(rows, m, j), k);
  }

  /** Widening [q1, q3] by k times its width on both sides keeps it inside. */
  lemma WidenedRange(q1: real, q3: real, iqr: real, k: real)
    requires iqr == q3 - q1 && iqr >= 0.0 && k >= 0.0
    ensures LowerBound(q1, iqr, k) <= q1 <= q3 <= UpperBound(q3, iqr, k)
  {
    MulNonNegative(k, iqr);
  }

  /** `mask_train_normal` */
  function NormalMask(rows: seq<Row>, f: Fences, m: nat): (mask: seq<bool>)
    requires Rectangular(rows, m) && Fits(f, m)
    ensures |mask| == |rows|
  {
    seq(|rows|, i requires 0 <= i < |rows| => IsNormalRow(rows[i].features, f))
  }

  /** Step 10: the train table, `train_candidates[mask_train_normal]`. An
      empty candidate table gives an empty train table. */
  function TrainRows(candidates: seq<Row>, m: nat, epsilon: real, k: real): (train: seq<Row>)
    requires Rectangular(candidates, m)
    ensures |train| <= |candidates|
    ensures forall x :: x in train ==> x in candidates
  {
    if candidates == [] then []
    else
      var mask := NormalMask(candidates, ComputeFences(candidates, m, epsilon, k), m);
      SelectMembership(candidates, mask);
      Select(candidates, mask)
  }

  /** The train table is the order-preserving subsequence of the candidates
      at the positions whose rows lie within every valid fence: it keeps
      each such candidate and drops each other one. */
  lemma TrainExact(candidates: seq<Row>, m: nat, epsilon: real, k: real)
    requires Rectangular(candidates, m) && candidates != []
    ensures var f := ComputeFences(candidates, m, epsilon, k);
      var train, p := TrainRows(candidates, m, epsilon, k), Positions(NormalMask(candidates, f, m));
      && |train| == |p|
      && (forall t :: 0 <= t < |p| ==> p[t] < |candidates| && train[t] == candidates[p[t]])
      && (forall t, u :: 0 <= t < u < |p| ==> p[t] < p[u])
      && (forall i :: 0 <= i < |candidates| ==>
            (i in p <==> forall c :: c in f.valid ==>
               f.lower[c] <= candidates[i].features[c] <= f.upper[c]))
  {
    var f := ComputeFences(candidates, m, epsilon, k);
    var mask := NormalMask(candidates, f, m);
    SelectAt(candidates, mask);
    forall i | 0 <= i < |candidates| {
      KeptIffWithinFences(candidates[i].features, f);
    }
  }
}
