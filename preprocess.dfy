/**
 `preprocess_with_row_split` (data_process/preprocess.py) without its file
 input and output: the table read from the CSV file goes in, the train table
 and the labelled test table come out.

 The input table is held as its timestamp column and its feature columns;
 a feature cell is `None` where the CSV file has no value.
 */
module Preprocess {
  import opened Stats
  import opened Table
  import opened Clean
  import opened Split
  import opened Fence

  /** The table read from the CSV file, split into the timestamp column and
      the feature columns (in file order). */
  datatype RawTable = RawTable(timestamps: seq<string>, features: seq<seq<Option<real>>>)

  /** Every feature column has one cell per timestamp. */
  predicate WellFormed(t: RawTable)
  {
    forall j :: 0 <= j < |t.features| ==> |t.features[j]| == |t.timestamps|
  }

  /** The two tables the routine returns. */
  datatype Output = Output(train: seq<Row>, test: seq<LabeledRow>)

  /** Step 5: the timestamps beside the normalised feature columns, row by
      row. */
  function Assemble(ts: seq<string>, cols: seq<seq<real>>): (rows: seq<Row>)
    requires forall j :: 0 <= j < |cols| ==> |cols[j]| == |ts|
    ensures |rows| == |ts| && Rectangular(rows, |cols|)
  {
    seq(|ts|, i requires 0 <= i < |ts| =>
      Row(ts[i], seq(|cols|, j requires 0 <= j < |cols| => cols[j][i])))
  }

  /** Steps 4-5: `processed_df`, every feature column cleaned on its own. */
  function Processed(t: RawTable): (rows: seq<Row>)
    requires WellFormed(t)
    ensures |rows| == |t.timestamps| && Rectangular(rows, |t.features|)
  {
    Assemble(t.timestamps, seq(|t.features|, j requires 0 <= j < |t.features| => CleanColumn(t.features[j])))
  }

  /** The whole routine: cleaning, the window split and the IQR filter of
      the train candidates. */
  function Preprocess(t: RawTable, epsilon: real, k: real): Result<Output>
    requires WellFormed(t)
  {
    var rows := Processed(t);
    var part :- SplitRows(rows);
    assert Rectangular(part.candidates, |t.features|) by {
      forall i | 0 <= i < |part.candidates| ensures |part.candidates[i].features| == |t.features| {
        assert part.candidates[i] in rows;
      }
    }
    Ok(Output(TrainRows(part.candidates, |t.features|, epsilon, k), part.test))
  }

  /** The routine as written: the column loop, then the split and the
      filter. */
  method PreprocessWithRowSplit(t: RawTable, epsilon: real, k: real) returns (r: Result<Output>)
    requires WellFormed(t)
    ensures r == Preprocess(t, epsilon, k)
  {
    var normFeats := NormalizeFeatures(t.features);
    assert normFeats == seq(|t.features|, j requires 0 <= j < |t.features| => CleanColumn(t.features[j]));
    var processedDf := Assemble(t.timestamps, normFeats);
    var part := SplitRows(processedDf);
    if part.Err? {
      return Err(part.error);
    }
    var candidates := part.value.candidates;
    assert Rectangular(candidates, |t.features|) by {
      forall i | 0 <= i < |candidates| ensures |candidates[i].features| == |t.features| {
        assert candidates[i] in processedDf;
      }
    }
    var trainDf := TrainRows(candidates, |t.features|, epsilon, k);
    r := Ok(Output(trainDf, part.value.test));
  }

  /** Every processed row keeps its timestamp, and its feature j is cell i of
      column j cleaned on its own; every feature value lies in [0, 1]. */
  lemma ProcessedRows(t: RawTable)
    requires WellFormed(t)
    ensures forall i :: 0 <= i < |t.timestamps| ==>
      Processed(t)[i].timestamp == t.timestamps[i]
    ensures forall i, j :: 0 <= i < |t.timestamps| && 0 <= j < |t.features| ==>
      Processed(t)[i].features[j] == CleanColumn(t.features[j])[i]
    ensures forall i, j :: 0 <= i < |t.timestamps| && 0 <= j < |t.features| ==>
      0.0 <= Processed(t)[i].features[j] <= 1.0
  {
    var rows := Processed(t);
    forall i, j | 0 <= i < |t.timestamps| && 0 <= j < |t.features|
      ensures 0.0 <= rows[i].features[j] <= 1.0
    {
      var col := t.features[j];
      assert rows[i].features[j] == CleanColumn(col)[i];
      if Degenerate(col) {
        DegenerateIffZero(col);
      } else {
        ScaledColumn(col);
      }
    }
  }

  /** The routine fails exactly when the table has fewer than 117 rows, and
      then with a KeyError. */
  lemma PreprocessFails(t: RawTable, epsilon: real, k: real)
    requires WellFormed(t)
    ensures Preprocess(t, epsilon, k).Ok? <==> |t.timestamps| >= 117
    ensures Preprocess(t, epsilon, k).Err? ==> Preprocess(t, epsilon, k).error == KeyError
  {
    SplitRowsFails(Processed(t));
  }

  /** On a table of at least 117 rows the test table holds processed rows
      91..103 labelled 0 and then processed rows 104..116 labelled 1, and the
      train table is the IQR filter applied to the other processed rows, in
      their order. */
  lemma PreprocessOutput(t: RawTable, epsilon: real, k: real)
    requires WellFormed(t) && |t.timestamps| >= 117
    ensures Preprocess(t, epsilon, k).Ok?
    ensures var out, rows := Preprocess(t, epsilon, k).value, Processed(t);
      && |out.test| == 26
      && (forall i :: 0 <= i < 13 ==> out.test[i] == LabeledRow(rows[91 + i], 0))
      && (forall i :: 13 <= i < 26 ==> out.test[i] == LabeledRow(rows[91 + i], 1))
      && out.train == TrainRows(rows[..91] + rows[117..], |t.features|, epsilon, k)
  {
    var rows := Processed(t);
    PreprocessFails(t, epsilon, k);
    TestTableExact(rows);
    CandidatesExact(rows);
  }

  /** Every train row is a processed row from outside 91..116, so no test
      row's position reaches the train table; there are at most n - 26 of
      them. */
  lemma TrainOutsideWindows(t: RawTable, epsilon: real, k: real)
    requires WellFormed(t) && |t.timestamps| >= 117
    ensures Preprocess(t, epsilon, k).Ok?
    ensures var train, rows := Preprocess(t, epsilon, k).value.train, Processed(t);
      && |train| <= |rows| - 26
      && forall x :: x in train ==> exists i :: 0 <= i < |rows| && !(91 <= i < 117) && x == rows[i]
  {
    var rows := Processed(t);
    PreprocessOutput(t, epsilon, k);
    OutsideWindowOrigin(rows);
  }
}
