/** The first version of the pipeline: pick a cereal of highest protein. */
module PipelineV0 {
  import opened Wrappers
  import opened Tables
  import opened Lex
  import opened Ranking

  /** Row `i` has the greatest protein value of the frame. */
  predicate MaxProtein(df: Frame, i: nat)
    requires NumericColumn(df, "protein") && i < |df.rows|
  {
    forall j | 0 <= j < |df.rows| :: Int(df, j, "protein") <= Int(df, i, "protein")
  }

  /** The "name" cell of the first row of a descending sort on protein. */
  function FindHighestProteinCereal(df: Frame): (r: Result<Value, Error>)
    ensures r.Success? <==>
              && Unique(df.labels, "protein") && NumericColumn(df, "protein")
              && |df.rows| > 0
              && Unique(df.labels, "name")
    ensures r.Success? ==>
              exists i | 0 <= i < |df.rows| :: Get(df, i, "name") == r.value && MaxProtein(df, i)
    ensures |df.rows| == 0 ==> r.Failure?
    ensures !Unique(df.labels, "protein") ==> r == Failure(ColumnError(df.labels, "protein"))
    ensures Unique(df.labels, "protein") && !NumericColumn(df, "protein") ==> r == Failure(NotNumeric("protein"))
    ensures Unique(df.labels, "protein") && NumericColumn(df, "protein") && |df.rows| == 0 ==> r == Failure(NoRows)
    ensures Unique(df.labels, "protein") && NumericColumn(df, "protein") && |df.rows| > 0 && !Unique(df.labels, "name") ==>
              r == Failure(ColumnError(df.labels, "name"))
  {
    var i :- TopRow(df, ["protein"]);
    var _ :- ResolveColumn(df.labels, "name");
    ProteinKeyIsProtein(df, i);
    Success(Get(df, i, "name"))
  }

  /** Sorting on the single key "protein" puts first a row of maximal protein. */
  lemma ProteinKeyIsProtein(df: Frame, i: nat)
    requires Unique(df.labels, "protein") && NumericColumn(df, "protein") && i < |df.rows|
    requires Sortable(df, ["protein"]) && SortsFirst(df, ["protein"], i)
    ensures MaxProtein(df, i)
  {
    forall j | 0 <= j < |df.rows|
      ensures Int(df, j, "protein") <= Int(df, i, "protein")
    {
      assert LexLe(Key(df, ["protein"], j), Key(df, ["protein"], i));
      assert Key(df, ["protein"], j) == [Int(df, j, "protein")];
      assert Key(df, ["protein"], i) == [Int(df, i, "protein")];
      LexLeSingle(Int(df, j, "protein"), Int(df, i, "protein"));
    }
  }

  /** The selection reads only the "protein" and "name" columns: frames that
      agree on those two give the same answer, whatever their other columns hold. */
  lemma FindIgnoresOtherColumns(a: Frame, b: Frame)
    requires SameColumn(a, b, "protein") && SameColumn(a, b, "name")
    ensures FindHighestProteinCereal(a) == FindHighestProteinCereal(b)
  {
    TopRowReadsOnlyKeys(a, b, ["protein"]);
  }
}
