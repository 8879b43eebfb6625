/**
 The dataframe operations the preprocessing routine relies on, over a table
 held as a sequence of rows whose positional index is the row label (every
 frame in the routine is re-indexed 0..n-1 before it is looked up):
 `range`, label lookup (`.loc[labels]`), dropping labels
 (`.drop(index=labels)`) and boolean-mask selection (`frame[mask]`).
 */
module Table {

  /** One processed row: the timestamp, passed through, and the feature
      values in column order. */
  datatype Row = Row(timestamp: string, features: seq<real>)

  /** A row of the test table: a processed row plus its `label` column. */
  datatype LabeledRow = LabeledRow(row: Row, labelValue: int)

  /** The exceptions the routine can raise. */
  datatype Error = KeyError | ValueError

  datatype Result<+T> = Ok(value: T) | Err(error: Error) {
    predicate IsFailure() { Err? }

    function PropagateFailure<U>(): Result<U>
      requires Err?
    {
      Err(error)
    }

    function Extract(): T
      requires Ok?
    {
      value
    }
  }

  /** Every row has exactly m feature values. */
  predicate Rectangular(rows: seq<Row>, m: nat)
  {
    forall i :: 0 <= i < |rows| ==> |rows[i].features| == m
  }

  /** Feature column j of a rectangular table, in row order. */
  function Column(rows: seq<Row>, m: nat, j: nat): (c: seq<real>)
    requires Rectangular(rows, m) && j < m
    ensures |c| == |rows|
    ensures forall i :: 0 <= i < |rows| ==> c[i] == rows[i].features[j]
  {
    seq(|rows|, i requires 0 <= i < |rows| => rows[i].features[j])
  }

  /** Python's `range(lo, hi)`. */
  function Range(lo: int, hi: int): (r: seq<int>)
    ensures |r| == if lo <= hi then hi - lo else 0
    ensures forall i :: 0 <= i < |r| ==> r[i] == lo + i
    ensures forall x :: x in r <==> lo <= x < hi
  {
    if lo >= hi then []
    else
      var r := seq(hi - lo, i => lo + i);
      assert forall x :: lo <= x < hi ==> x in r by {
        forall x | lo <= x < hi ensures x in r {
          assert r[x - lo] == x;
        }
      }
      r
  }

  /** Boolean-mask selection `s[mask]`: the elements whose mask entry is
      true, in their original order. */
  function Select<T>(s: seq<T>, mask: seq<bool>): (r: seq<T>)
    requires |mask| == |s|
    ensures |r| <= |s|
  {
    if s == [] then []
    else
      var n := |s| - 1;
      Select(s[..n], mask[..n]) + (if mask[n] then [s[n]] else [])
  }

  /** The positions a mask selects, ascending. */
  function Positions(mask: seq<bool>): (p: seq<nat>)
    ensures forall k :: 0 <= k < |p| ==> p[k] < |mask| && mask[p[k]]
    ensures forall k, l :: 0 <= k < l < |p| ==> p[k] < p[l]
    ensures forall i :: 0 <= i < |mask| && mask[i] ==> i in p
  {
    if mask == [] then []
    else
      var n := |mask| - 1;
      Positions(mask[..n]) + (if mask[n] then [n] else [])
  }

  /** `s[mask]` is the subsequence of s at the mask's positions: it keeps
      exactly the selected elements and their relative order. */
  lemma {:induction false} SelectAt<T>(s: seq<T>, mask: seq<bool>)
    requires |mask| == |s|
    ensures |Select(s, mask)| == |Positions(mask)|
    ensures forall k :: 0 <= k < |Positions(mask)| ==> Select(s, mask)[k] == s[Positions(mask)[k]]
  {
    if s != [] {
      var n := |s| - 1;
      SelectAt(s[..n], mask[..n]);
    }
  }

  /** An element is selected exactly when some true mask entry points at it. */
  lemma SelectMembership<T>(s: seq<T>, mask: seq<bool>)
    requires |mask| == |s|
    ensures forall i :: 0 <= i < |s| && mask[i] ==> s[i] in Select(s, mask)
    ensures forall x :: x in Select(s, mask) ==> exists i :: 0 <= i < |s| && mask[i] && s[i] == x
  {
    SelectAt(s, mask);
    var p := Positions(mask);
    forall i | 0 <= i < |s| && mask[i] ensures s[i] in Select(s, mask) {
      var k :| 0 <= k < |p| && p[k] == i;
      assert Select(s, mask)[k] == s[i];
    }
    forall x | x in Select(s, mask) ensures exists i :: 0 <= i < |s| && mask[i] && s[i] == x {
      var k :| 0 <= k < |Select(s, mask)| && Select(s, mask)[k] == x;
      assert mask[p[k]] && s[p[k]] == x;
    }
  }

  lemma {:induction false} SelectAppend<T>(a: seq<T>, b: seq<T>, ma: seq<bool>, mb: seq<bool>)
    requires |ma| == |a| && |mb| == |b|
    ensures Select(a + b, ma + mb) == Select(a, ma) + Select(b, mb)
  {
    if b == [] {
      assert a + b == a && ma + mb == ma;
    } else {
      var n := |b| - 1;
      SelectAppend(a, b[..n], ma, mb[..n]);
      assert (a + b)[..|a| + n] == a + b[..n];
      assert (ma + mb)[..|a| + n] == ma + mb[..n];
    }
  }

  lemma {:induction false} SelectConstant<T>(s: seq<T>, mask: seq<bool>, keep: bool)
    requires |mask| == |s|
    requires forall i :: 0 <= i < |mask| ==> mask[i] == keep
    ensures Select(s, mask) == if keep then s else []
  {
    if s != [] {
      var n := |s| - 1;
      SelectConstant(s[..n], mask[..n], keep);
      assert s == s[..n] + [s[n]];
    }
  }

  /** `.loc[labels]`: the rows with the given labels, in the order the labels
      are listed; a label outside the table raises a KeyError. */
  function Loc<T>(s: seq<T>, labels: seq<int>): (r: Result<seq<T>>)
    ensures r.Ok? <==> forall k :: 0 <= k < |labels| ==> 0 <= labels[k] < |s|
    ensures r.Ok? ==> |r.value| == |labels|
    ensures r.Ok? ==> forall k :: 0 <= k < |labels| ==> r.value[k] == s[labels[k]]
  {
    if forall k :: 0 <= k < |labels| ==> 0 <= labels[k] < |s|
    then Ok(seq(|labels|, k requires 0 <= k < |labels| => s[labels[k]]))
    else Err(KeyError)
  }

  /** `.drop(index=labels)`: the rows whose label is not listed, in order; a
      listed label outside the table raises a KeyError. */
  function DropIndex<T>(s: seq<T>, labels: seq<int>): (r: Result<seq<T>>)
    ensures r.Ok? <==> forall k :: 0 <= k < |labels| ==> 0 <= labels[k] < |s|
    ensures r.Ok? ==> forall x :: x in r.value ==> x in s
    ensures r.Ok? ==>
      var p := Positions(seq(|s|, i => i !in labels));
      && |r.value| == |p|
      && forall t :: 0 <= t < |p| ==> r.value[t] == s[p[t]]
  {
    if forall k :: 0 <= k < |labels| ==> 0 <= labels[k] < |s|
    then
      var mask := seq(|s|, i => i !in labels);
      SelectMembership(s, mask);
      SelectAt(s, mask);
      Ok(Select(s, mask))
    else Err(KeyError)
  }
}
