/** The row that a descending sort on the key columns `cols` puts first. */
module Ranking {
  import opened Wrappers
  import opened Tables
  import opened Lex

  /** Every key column exists once and holds integers. */
  predicate Sortable(df: Frame, cols: seq<Label>) {
    forall k | 0 <= k < |cols| :: Unique(df.labels, cols[k]) && NumericColumn(df, cols[k])
  }

  /** The sort key of row `i`: its cells in the key columns, in `cols` order. */
  function Key(df: Frame, cols: seq<Label>, i: nat): (key: seq<int>)
    requires Sortable(df, cols) && i < |df.rows|
    ensures |key| == |cols|
  {
    seq(|cols|, k requires 0 <= k < |cols| => Int(df, i, cols[k]))
  }

  function Keys(df: Frame, cols: seq<Label>): (keys: seq<seq<int>>)
    requires Sortable(df, cols)
    ensures |keys| == |df.rows| && Uniform(keys, |cols|)
  {
    seq(|df.rows|, i requires 0 <= i < |df.rows| => Key(df, cols, i))
  }

  /** A descending sort on `cols` may put row `i` first: no row has a greater key. */
  predicate SortsFirst(df: Frame, cols: seq<Label>, i: nat)
    requires Sortable(df, cols) && i < |df.rows|
  {
    forall j | 0 <= j < |df.rows| :: LexLe(Key(df, cols, j), Key(df, cols, i))
  }

  /** Resolves the key labels in `cols` order; the first that does not name
      exactly one column is reported. */
  function CheckLabels(labels: seq<Label>, cols: seq<Label>): (r: Result<(), Error>)
    ensures r.Success? <==> forall k | 0 <= k < |cols| :: Unique(labels, cols[k])
    ensures r.Failure? ==>
              exists k | 0 <= k < |cols| ::
                && !Unique(labels, cols[k])
                && r.error == ColumnError(labels, cols[k])
                && forall k' | 0 <= k' < k :: Unique(labels, cols[k'])
    decreases |cols|
  {
    if |cols| == 0 then Success(())
    else if !Unique(labels, cols[0]) then Failure(ColumnError(labels, cols[0]))
    else
      var r := CheckLabels(labels, cols[1..]);
      if r.Failure? then
        var k :| 0 <= k < |cols[1..]| && !Unique(labels, cols[1..][k]) && r.error == ColumnError(labels, cols[1..][k])
                 && forall k' | 0 <= k' < k :: Unique(labels, cols[1..][k']);
        assert forall k' | 0 <= k' < k + 1 :: Unique(labels, cols[k']) by {
          forall k' | 0 <= k' < k + 1 ensures Unique(labels, cols[k']) {
            if k' > 0 { assert cols[k'] == cols[1..][k' - 1]; }
          }
        }
        r
      else
        r
  }

  /** Checks, in `cols` order, that every key column holds integers. */
  function CheckNumeric(df: Frame, cols: seq<Label>): (r: Result<(), Error>)
    requires forall k | 0 <= k < |cols| :: cols[k] in df.labels
    ensures r.Success? <==> forall k | 0 <= k < |cols| :: NumericColumn(df, cols[k])
    ensures r.Failure? ==>
              exists k | 0 <= k < |cols| :: !NumericColumn(df, cols[k]) && r.error == NotNumeric(cols[k])
    decreases |cols|
  {
    if |cols| == 0 then Success(())
    else if !NumericColumn(df, cols[0]) then Failure(NotNumeric(cols[0]))
    else
      var r := CheckNumeric(df, cols[1..]);
      if r.Failure? then
        var k :| 0 <= k < |cols[1..]| && !NumericColumn(df, cols[1..][k]) && r.error == NotNumeric(cols[1..][k]);
        assert cols[k + 1] == cols[1..][k];
        r
      else
        r
  }

  /** Index of the first row of a descending sort on `cols`: the key columns are
      resolved and checked, then a row with a maximal key is chosen. */
  function TopRow(df: Frame, cols: seq<Label>): (r: Result<nat, Error>)
    ensures r.Success? <==> Sortable(df, cols) && |df.rows| > 0
    ensures r.Success? ==> r.value < |df.rows| && SortsFirst(df, cols, r.value)
    ensures Sortable(df, cols) && |df.rows| == 0 ==> r == Failure(NoRows)
    ensures r.Failure? && r.error.NoRows? ==> |df.rows| == 0
    ensures CheckLabels(df.labels, cols).Failure? ==> r == Failure(CheckLabels(df.labels, cols).error)
    ensures CheckLabels(df.labels, cols).Success? && r.Failure? ==> r.error.NotNumeric? || r.error.NoRows?
  {
    var _ :- CheckLabels(df.labels, cols);
    var _ :- CheckNumeric(df, cols);
    if |df.rows| == 0 then
      Failure(NoRows)
    else
      var keys := Keys(df, cols);
      var i := ArgMax(keys, |cols|);
      assert forall j | 0 <= j < |df.rows| :: keys[j] == Key(df, cols, j);
      Success(i)
  }

  /** A row whose key is strictly above every other row's key is the one selected. */
  lemma TopRowStrictMax(df: Frame, cols: seq<Label>, m: nat)
    requires Sortable(df, cols) && m < |df.rows|
    requires forall j | 0 <= j < |df.rows| && j != m :: !LexLe(Key(df, cols, m), Key(df, cols, j))
    ensures TopRow(df, cols) == Success(m)
  {
  }

  /** Key label checks only see whether each key label names exactly one column. */
  lemma {:induction false} CheckLabelsAgree(a: seq<Label>, b: seq<Label>, cols: seq<Label>)
    requires forall k | 0 <= k < |cols| :: (cols[k] in a <==> cols[k] in b) && (Unique(a, cols[k]) <==> Unique(b, cols[k]))
    ensures CheckLabels(a, cols) == CheckLabels(b, cols)
    decreases |cols|
  {
    if |cols| > 0 {
      CheckLabelsAgree(a, b, cols[1..]);
    }
  }

  /** The numeric checks only read the key columns. */
  lemma {:induction false} CheckNumericAgree(a: Frame, b: Frame, cols: seq<Label>)
    requires forall k | 0 <= k < |cols| :: cols[k] in a.labels && cols[k] in b.labels && SameColumn(a, b, cols[k])
    ensures CheckNumeric(a, cols) == CheckNumeric(b, cols)
    decreases |cols|
  {
    if |cols| > 0 {
      NumericColumnAgree(a, b, cols[0]);
      CheckNumericAgree(a, b, cols[1..]);
    }
  }

  lemma NumericColumnAgree(a: Frame, b: Frame, l: Label)
    requires l in a.labels && SameColumn(a, b, l)
    ensures NumericColumn(a, l) <==> NumericColumn(b, l)
  {
  }

  /** The selection reads nothing but the key columns: frames that agree on
      them select the same row, or fail alike. */
  lemma TopRowReadsOnlyKeys(a: Frame, b: Frame, cols: seq<Label>)
    requires |a.rows| == |b.rows|
    requires forall k | 0 <= k < |cols| :: SameColumn(a, b, cols[k])
    ensures TopRow(a, cols) == TopRow(b, cols)
  {
    CheckLabelsAgree(a.labels, b.labels, cols);
    if forall k | 0 <= k < |cols| :: Unique(a.labels, cols[k]) {
      CheckNumericAgree(a, b, cols);
      if Sortable(a, cols) && |a.rows| > 0 {
        assert Keys(a, cols) == Keys(b, cols) by {
          forall i | 0 <= i < |a.rows| ensures Key(a, cols, i) == Key(b, cols, i) {
            assert forall k | 0 <= k < |cols| :: Key(a, cols, i)[k] == Key(b, cols, i)[k];
          }
        }
      }
    }
  }
}
