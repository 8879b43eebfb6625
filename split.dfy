/**
 Steps 6-9 (the numbered comments `# 6.` to `# 9.`) of `preprocess_with_row_split` (data_process/preprocess.py): the
 fixed fault window, the equally long normal window just before it, the
 labelled test table built from both, and the train candidates (every other
 row, in order).
 */
module Split {
  import opened Table

  /** `fault_indices = list(range(104, 117))` */
  function FaultIndices(): (r: seq<int>)
    ensures |r| == 13
  {
    Range(104, 117)
  }

  /** `num_faults = len(fault_indices)` */
  function NumFaults(): int
  {
    |FaultIndices()|
  }

  /** `normal_indices`: the NumFaults() labels just before the fault window. */
  function NormalIndices(): (r: seq<int>)
    ensures |r| == 13
  {
    Range(FaultIndices()[0] - NumFaults(), FaultIndices()[0])
  }

  /** The two windows are 91..103 and 104..116: disjoint, adjacent and of
      equal length; the normal window starts at 91, so the check for a
      negative start can never fire. */
  lemma WindowsExact()
    ensures forall k :: 0 <= k < 13 ==> NormalIndices()[k] == 91 + k && FaultIndices()[k] == 104 + k
    ensures NormalIndices()[12] + 1 == FaultIndices()[0]
    ensures forall a, b :: a in NormalIndices() && b in FaultIndices() ==> a < b
    ensures NormalIndices()[0] >= 0
  {
  }

  /** The labels dropped from the train candidates are exactly 91..116. */
  lemma DroppedLabels()
    ensures forall i :: i in FaultIndices() + NormalIndices() <==> 91 <= i < 117
  {
    forall i | 91 <= i < 117 ensures i in FaultIndices() + NormalIndices() {
      if i < 104 {
        assert NormalIndices()[i - 91] == i;
      } else {
        assert FaultIndices()[i - 104] == i;
      }
    }
  }

  /** Adds the `label` column with value v to every row. */
  function WithLabel(rows: seq<Row>, v: int): (r: seq<LabeledRow>)
    ensures |r| == |rows|
    ensures forall i :: 0 <= i < |rows| ==> r[i].row == rows[i] && r[i].labelValue == v
  {
    seq(|rows|, i requires 0 <= i < |rows| => LabeledRow(rows[i], v))
  }

  /** The test table and the train candidates. */
  datatype Partition = Partition(test: seq<LabeledRow>, candidates: seq<Row>)

  /** Steps 6-9 on the processed rows: a guard on the normal window, the
      `.loc` lookups of the fault rows and then of the normal rows, the test
      table (normal rows labelled 0, then fault rows labelled 1) and the
      `drop` of both windows. */
  function SplitRows(rows: seq<Row>): (r: Result<Partition>)
    ensures r.Ok? ==> forall x :: x in r.value.candidates ==> x in rows
  {
    if NormalIndices()[0] < 0 then Err(ValueError)
    else
      var faultRows :- Loc(rows, FaultIndices());
      var normalRows :- Loc(rows, NormalIndices());
      var test := WithLabel(normalRows, 0) + WithLabel(faultRows, 1);
      var candidates :- DropIndex(rows, FaultIndices() + NormalIndices());
      Ok(Partition(test, candidates))
  }

  /** The split fails exactly when the table has fewer than 117 rows, and
      then with the KeyError of the fault-row lookup. */
  lemma SplitRowsFails(rows: seq<Row>)
    ensures SplitRows(rows).Ok? <==> |rows| >= 117
    ensures SplitRows(rows).Err? ==> SplitRows(rows).error == KeyError
  {
    WindowsExact();
    if |rows| < 117 {
      assert !(0 <= FaultIndices()[12] < |rows|);
    }
  }

  /** The test table has 26 rows: rows 91..103 labelled 0, then rows
      104..116 labelled 1 (row 13 + k of the table is row 104 + k). */
  lemma TestTableExact(rows: seq<Row>)
    requires |rows| >= 117
    ensures SplitRows(rows).Ok?
    ensures var test := SplitRows(rows).value.test;
      && |test| == 26
      && (forall k :: 0 <= k < 13 ==> test[k] == LabeledRow(rows[91 + k], 0))
      && (forall k :: 13 <= k < 26 ==> test[k] == LabeledRow(rows[91 + k], 1))
  {
    SplitRowsFails(rows);
    WindowsExact();
    var test := SplitRows(rows).value.test;
    var fault, normal := Loc(rows, FaultIndices()).value, Loc(rows, NormalIndices()).value;
    assert test == WithLabel(normal, 0) + WithLabel(fault, 1);
    forall k | 0 <= k < 13 ensures test[k] == LabeledRow(rows[91 + k], 0) {
      assert test[k] == WithLabel(normal, 0)[k];
    }
    forall k | 13 <= k < 26 ensures test[k] == LabeledRow(rows[91 + k], 1) {
      assert test[k] == WithLabel(fault, 1)[k - 13];
    }
  }

  /** Selecting with a mask that is false on exactly 91..116 keeps the rows
      before 91 and from 117 on. */
  lemma SelectOutsideWindow(rows: seq<Row>, mask: seq<bool>)
    requires |rows| >= 117 && |mask| == |rows|
    requires forall i :: 0 <= i < |mask| ==> (mask[i] <==> !(91 <= i < 117))
    ensures Select(rows, mask) == rows[..91] + rows[117..]
  {
    var a, b, c := rows[..91], rows[91..117], rows[117..];
    var ma, mb, mc := mask[..91], mask[91..117], mask[117..];
    assert rows == a + b + c;
    assert mask == ma + mb + mc;
    SelectAppend(a + b, c, ma + mb, mc);
    SelectAppend(a, b, ma, mb);
    SelectConstant(a, ma, true);
    SelectConstant(b, mb, false);
    SelectConstant(c, mc, true);
  }

  /** The train candidates are the rows outside 91..116, in their original
      order: n - 26 of them. */
  lemma CandidatesExact(rows: seq<Row>)
    requires |rows| >= 117
    ensures SplitRows(rows).Ok?
    ensures SplitRows(rows).value.candidates == rows[..91] + rows[117..]
    ensures |SplitRows(rows).value.candidates| == |rows| - 26
  {
    SplitRowsFails(rows);
    DroppedLabels();
    var labels := FaultIndices() + NormalIndices();
    var mask := seq(|rows|, i => i !in labels);
    assert DropIndex(rows, labels).value == Select(rows, mask);
    SelectOutsideWindow(rows, mask);
  }

  /** Each row outside 91..116 comes from a position outside the windows. */
  lemma OutsideWindowOrigin(rows: seq<Row>)
    requires |rows| >= 117
    ensures |rows[..91] + rows[117..]| == |rows| - 26
    ensures forall x :: x in rows[..91] + rows[117..] ==>
      exists i :: 0 <= i < |rows| && !(91 <= i < 117) && x == rows[i]
  {
    var candidates := rows[..91] + rows[117..];
    forall x | x in candidates ensures exists i :: 0 <= i < |rows| && !(91 <= i < 117) && x == rows[i] {
      var c :| 0 <= c < |candidates| && candidates[c] == x;
      if c < 91 {
        assert x == rows[c];
      } else {
        assert x == rows[c + 26];
      }
    }
  }
}
