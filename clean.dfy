/**
 Step 4 (the numbered comment `# 4.`) of `preprocess_with_row_split` (data_process/preprocess.py): every
 feature column, independently, has its missing cells filled with the column
 mean and is then min-max scaled into [0, 1]; a column whose values are all
 equal, or all missing, becomes all 0.0.
 */
module Clean {
  import opened Stats

  /** `col_series.isnull().any()` */
  predicate HasMissing(col: seq<Option<real>>)
  {
    exists i :: 0 <= i < |col| && col[i].None?
  }

  /** `col_series.fillna(v)`: every missing cell becomes v. When v is itself
      missing (the mean of a column with no present cell) nothing changes. */
  function FillNa(col: seq<Option<real>>, v: Option<real>): (r: seq<Option<real>>)
    ensures |r| == |col|
  {
    seq(|col|, i requires 0 <= i < |col| => if col[i].None? then v else col[i])
  }

  /** The imputation step: if any cell is missing, every missing cell takes
      the mean of the present cells; present cells are left as they are. */
  function Impute(col: seq<Option<real>>): (r: seq<Option<real>>)
    ensures |r| == |col|
    ensures forall i :: 0 <= i < |col| && col[i].Some? ==> r[i] == col[i]
    ensures forall i :: 0 <= i < |col| && col[i].None? ==> r[i] == Mean(col)
  {
    if HasMissing(col) then FillNa(col, Mean(col)) else col
  }

  /** After imputation a column is either entirely present or entirely
      missing, and it is entirely missing only if it was so before. */
  lemma ImputeComplete(col: seq<Option<real>>)
    ensures (exists i :: 0 <= i < |col| && col[i].Some?) ==>
              forall i :: 0 <= i < |col| ==> Impute(col)[i].Some?
    ensures (exists i :: 0 <= i < |col| && Impute(col)[i].Some?) ==>
              exists i :: 0 <= i < |col| && col[i].Some?
  {
    if exists i :: 0 <= i < |col| && col[i].Some? {
      MeanWithinRange(col);
    } else {
      assert Present(col) == [];
    }
  }

  /** A column whose present cells are all at least lo and that holds lo has
      lo as its minimum. */
  lemma MinimumIs(col: seq<Option<real>>, lo: real)
    requires forall i :: 0 <= i < |col| && col[i].Some? ==> lo <= col[i].value
    requires exists i :: 0 <= i < |col| && col[i] == Some(lo)
    ensures MinSkipNa(col) == Some(lo)
  {
    var i :| 0 <= i < |col| && col[i] == Some(lo);
    var m := MinSkipNa(col);
    assert m.Some? && m.value <= lo by {
      assert col[i].Some?;
    }
    var a :| 0 <= a < |col| && col[a] == Some(m.value);
  }

  /** A column whose present cells are all at most hi and that holds hi has
      hi as its maximum. */
  lemma MaximumIs(col: seq<Option<real>>, hi: real)
    requires forall i :: 0 <= i < |col| && col[i].Some? ==> col[i].value <= hi
    requires exists i :: 0 <= i < |col| && col[i] == Some(hi)
    ensures MaxSkipNa(col) == Some(hi)
  {
    var j :| 0 <= j < |col| && col[j] == Some(hi);
    var m := MaxSkipNa(col);
    assert m.Some? && hi <= m.value by {
      assert col[j].Some?;
    }
    var b :| 0 <= b < |col| && col[b] == Some(m.value);
  }

  /** Filling with the mean changes neither the minimum nor the maximum of a
      column: the scaling below uses the range of the present cells. */
  lemma ImputeKeepsRange(col: seq<Option<real>>)
    ensures MinSkipNa(Impute(col)) == MinSkipNa(col)
    ensures MaxSkipNa(Impute(col)) == MaxSkipNa(col)
  {
    var filled := Impute(col);
    if forall i :: 0 <= i < |col| ==> col[i].None? {
      assert Present(col) == [];
      assert forall i :: 0 <= i < |col| ==> filled[i].None?;
    } else {
      MeanWithinRange(col);
      var lo, hi := MinSkipNa(col).value, MaxSkipNa(col).value;
      assert forall i :: 0 <= i < |col| && filled[i].Some? ==> lo <= filled[i].value <= hi;
      var i :| 0 <= i < |col| && col[i] == Some(lo);
      assert filled[i] == Some(lo);
      var j :| 0 <= j < |col| && col[j] == Some(hi);
      assert filled[j] == Some(hi);
      MinimumIs(filled, lo);
      MaximumIs(filled, hi);
    }
  }

  /** A column the scaling sends to all zeros: no present cell, or all
      present cells equal. */
  predicate Degenerate(col: seq<Option<real>>)
  {
    MinSkipNa(col).None? || MinSkipNa(col).value == MaxSkipNa(col).value
  }

  /** Min-max scaling of one value, `(x - min) / (max - min)`. */
  function Scale(x: real, lo: real, hi: real): real
    requires lo < hi
  {
    (x - lo) / (hi - lo)
  }

  /** The cleaned column: imputation, then min-max scaling. */
  function CleanColumn(col: seq<Option<real>>): (r: seq<real>)
    ensures |r| == |col|
  {
    var filled := Impute(col);
    var lo, hi := MinSkipNa(filled), MaxSkipNa(filled);
    if lo.None? || hi.None? || lo.value == hi.value then seq(|col|, i => 0.0)
    else
      ImputeComplete(col);
      seq(|filled|, i requires 0 <= i < |filled| => Scale(filled[i].value, lo.value, hi.value))
  }

  /** Min-max scaling sends [lo, hi] onto [0, 1], lo to 0 and hi to 1. */
  lemma UnitScale(x: real, lo: real, hi: real)
    requires lo <= x <= hi && lo < hi
    ensures 0.0 <= Scale(x, lo, hi) <= 1.0
    ensures x == lo ==> Scale(x, lo, hi) == 0.0
    ensures x == hi ==> Scale(x, lo, hi) == 1.0
  {
    var w := hi - lo;
    var d := (x - lo) / w;
    assert Scale(x, lo, hi) == d;
    assert d * w == x - lo;
    if x == lo {
      assert (x - lo) / w == 0.0 / w == 0.0;
    }
    if x == hi && d != 1.0 {
      if d > 1.0 {
        MulPositive(d - 1.0, w);
      } else {
        MulPositive(1.0 - d, w);
      }
    }
    if d < 0.0 {
      MulNonNegative(-d, w);
    }
    if d > 1.0 {
      MulNonNegative(d - 1.0, w);
    }
  }

  /** A column with a proper range: a present value x becomes
      (x - min) / (max - min) and a missing one the scaled mean, with min and
      max taken over the present cells; every result lies in [0, 1], the
      minimum maps to 0 and the maximum to 1. */
  lemma ScaledColumn(col: seq<Option<real>>)
    requires !Degenerate(col)
    ensures var r, lo, hi := CleanColumn(col), MinSkipNa(col).value, MaxSkipNa(col).value;
      && lo < hi
      && Mean(col).Some?
      && (forall i :: 0 <= i < |col| && col[i].Some? ==> r[i] == Scale(col[i].value, lo, hi))
      && (forall i :: 0 <= i < |col| && col[i].None? ==> r[i] == Scale(Mean(col).value, lo, hi))
      && (forall i :: 0 <= i < |col| ==> 0.0 <= r[i] <= 1.0)
      && (forall i :: 0 <= i < |col| && col[i] == Some(lo) ==> r[i] == 0.0)
      && (forall i :: 0 <= i < |col| && col[i] == Some(hi) ==> r[i] == 1.0)
  {
    var r, lo, hi := CleanColumn(col), MinSkipNa(col).value, MaxSkipNa(col).value;
    ImputeKeepsRange(col);
    ImputeComplete(col);
    MeanWithinRange(col);
    var filled := Impute(col);
    assert forall i :: 0 <= i < |col| ==> r[i] == Scale(filled[i].value, lo, hi);
    forall i | 0 <= i < |col|
      ensures 0.0 <= r[i] <= 1.0
      ensures col[i] == Some(lo) ==> r[i] == 0.0
      ensures col[i] == Some(hi) ==> r[i] == 1.0
    {
      UnitScale(filled[i].value, lo, hi);
    }
  }

  /** A column becomes all zeros exactly when it is degenerate. */
  lemma DegenerateIffZero(col: seq<Option<real>>)
    ensures Degenerate(col) <==> forall i :: 0 <= i < |col| ==> CleanColumn(col)[i] == 0.0
  {
    ImputeKeepsRange(col);
    if !Degenerate(col) {
      ScaledColumn(col);
      var hi := MaxSkipNa(col).value;
      var i :| 0 <= i < |col| && col[i] == Some(hi);
      assert CleanColumn(col)[i] == 1.0;
    }
  }

  /** The body of the column loop: `col_series` is filled, then scaled. */
  method NormalizeColumn(column: seq<Option<real>>) returns (normalized: seq<real>)
    ensures normalized == CleanColumn(column)
  {
    var colSeries := column;
    if HasMissing(colSeries) {
      var meanVal := Mean(colSeries);
      colSeries := FillNa(colSeries, meanVal);
    }
    assert colSeries == Impute(column);
    var minVal := MinSkipNa(colSeries);
    var maxVal := MaxSkipNa(colSeries);
    if minVal.None? || maxVal.None? || minVal.value == maxVal.value {
      normalized := seq(|colSeries|, i => 0.0);
    } else {
      ImputeComplete(column);
      normalized := seq(|colSeries|, i requires 0 <= i < |colSeries| =>
        Scale(colSeries[i].value, minVal.value, maxVal.value));
    }
  }

  /** f applied to every element, in order. */
  function MapSeq<A, B>(f: A -> B, xs: seq<A>): (r: seq<B>)
    ensures |r| == |xs|
  {
    if xs == [] then [] else MapSeq(f, xs[..|xs| - 1]) + [f(xs[|xs| - 1])]
  }

  lemma {:induction false} MapSeqAt<A, B>(f: A -> B, xs: seq<A>)
    ensures forall j :: 0 <= j < |xs| ==> MapSeq(f, xs)[j] == f(xs[j])
  {
    if xs != [] {
      var n := |xs| - 1;
      MapSeqAt(f, xs[..n]);
      forall j | 0 <= j < n ensures MapSeq(f, xs)[j] == f(xs[j]) {
        assert xs[..n][j] == xs[j];
      }
    }
  }

  /** The column loop: each feature column is cleaned on its own, using only
      its own mean, minimum and maximum. */
  method NormalizeFeatures(features: seq<seq<Option<real>>>) returns (normFeats: seq<seq<real>>)
    ensures |normFeats| == |features|
    ensures forall j :: 0 <= j < |features| ==> normFeats[j] == CleanColumn(features[j])
  {
    normFeats := [];
    var j := 0;
    while j < |features|
      invariant 0 <= j <= |features|
      invariant normFeats == MapSeq(CleanColumn, features[..j])
    {
      var normalized := NormalizeColumn(features[j]);
      assert features[..j + 1][..j] == features[..j];
      normFeats := normFeats + [normalized];
      j := j + 1;
    }
    assert features[..j] == features;
    MapSeqAt(CleanColumn, features);
  }
}
