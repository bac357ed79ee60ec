/** The third version of the pipeline: normalise the column labels, then pick
    the cereal first under a descending sort on protein and then calories. */
module PipelineV3 {
  import opened Wrappers
  import opened Ascii
  import opened Tables
  import opened Lex
  import opened Ranking
  import PipelineV0

  /** Every label in lower case. */
  function LowerLabels(labels: seq<Label>): seq<Label> {
    seq(|labels|, i requires 0 <= i < |labels| => Lower(labels[i]))
  }

  /** Every label equal to `from` becomes `to`; the other labels stay as they are. */
  function Rename(labels: seq<Label>, from: Label, to: Label): seq<Label> {
    seq(|labels|, i requires 0 <= i < |labels| => if labels[i] == from then to else labels[i])
  }

  /** Lower-cases the labels and makes sure a "name" column exists, renaming
      "brand" to "name" when only "brand" is present. */
  function PreprocessCereals(df: Frame): (r: Result<Frame, Error>)
    ensures r.Failure? <==>
              forall i | 0 <= i < |df.labels| :: Lower(df.labels[i]) != "name" && Lower(df.labels[i]) != "brand"
    ensures r.Failure? ==> r.error == NoNameColumn
    ensures r.Success? ==> r.value.rows == df.rows && |r.value.labels| == |df.labels|
    ensures r.Success? ==> "name" in r.value.labels
    ensures r.Success? ==> forall i | 0 <= i < |r.value.labels| :: IsLower(r.value.labels[i])
  {
    var lowered := LowerLabels(df.labels);
    if "name" in lowered then
      Success(Table(lowered, df.rows))
    else if "brand" in lowered then
      var b :| 0 <= b < |lowered| && lowered[b] == "brand";
      assert Rename(lowered, "brand", "name")[b] == "name";
      Success(Table(Rename(lowered, "brand", "name"), df.rows))
    else
      assert forall i | 0 <= i < |df.labels| :: lowered[i] == Lower(df.labels[i]);
      Failure(NoNameColumn)
  }

  /** Normalising an already normalised frame changes nothing. */
  lemma PreprocessIdempotent(df: Frame)
    requires PreprocessCereals(df).Success?
    ensures PreprocessCereals(PreprocessCereals(df).value) == PreprocessCereals(df)
  {
    var t := PreprocessCereals(df).value;
    forall i | 0 <= i < |t.labels|
      ensures Lower(t.labels[i]) == t.labels[i]
    {
      LowerFixedPoint(t.labels[i]);
    }
    assert LowerLabels(t.labels) == t.labels;
  }

  /** When some label reads "name" in any case, every label is only
      lower-cased: a "brand" column, if any, is kept. */
  lemma PreprocessKeepsBrandBesideName(df: Frame, n: nat)
    requires n < |df.labels| && Lower(df.labels[n]) == "name"
    ensures PreprocessCereals(df).Success?
    ensures PreprocessCereals(df).value.labels == LowerLabels(df.labels)
    ensures PreprocessCereals(df).value.rows == df.rows
  {
    assert LowerLabels(df.labels)[n] == "name";
  }

  /** When no label reads "name" but some read "brand", exactly those become
      "name"; every other label keeps its lower-cased text and position. */
  lemma PreprocessRenamesBrand(df: Frame, b: nat)
    requires b < |df.labels| && Lower(df.labels[b]) == "brand"
    requires forall i | 0 <= i < |df.labels| :: Lower(df.labels[i]) != "name"
    ensures PreprocessCereals(df).Success?
    ensures var t := PreprocessCereals(df).value;
            && t.rows == df.rows
            && |t.labels| == |df.labels|
            && forall i | 0 <= i < |df.labels| ::
                 t.labels[i] == (if Lower(df.labels[i]) == "brand" then "name" else Lower(df.labels[i]))
  {
  }

  /** Normalisation does not see the case of a label: frames whose labels agree
      up to ASCII case normalise alike. */
  lemma PreprocessIgnoresCase(a: Frame, b: Frame)
    requires a.rows == b.rows && |a.labels| == |b.labels|
    requires forall i | 0 <= i < |a.labels| :: Lower(a.labels[i]) == Lower(b.labels[i])
    ensures PreprocessCereals(a) == PreprocessCereals(b)
  {
    assert LowerLabels(a.labels) == LowerLabels(b.labels);
  }

  /** A normalised frame whose "name" column was renamed to "brand" normalises
      back to itself. */
  lemma BrandRenameRoundTrip(df: Frame)
    requires forall i | 0 <= i < |df.labels| :: IsLower(df.labels[i])
    requires "name" in df.labels && "brand" !in df.labels
    ensures PreprocessCereals(Table(Rename(df.labels, "name", "brand"), df.rows)) == Success(df)
  {
    var renamed := Rename(df.labels, "name", "brand");
    assert IsLower("brand");
    forall i | 0 <= i < |renamed|
      ensures Lower(renamed[i]) == renamed[i]
    {
      LowerFixedPoint(renamed[i]);
    }
    assert LowerLabels(renamed) == renamed;
    var n :| 0 <= n < |df.labels| && df.labels[n] == "name";
    assert renamed[n] == "brand";
    assert Rename(renamed, "brand", "name") == df.labels;
  }

  /** The key columns of the descending sort, most significant first. */
  const ProteinThenCalories: seq<Label> := ["protein", "calories"]

  /** Row `i` has the greatest protein, and among the rows with that protein
      the greatest calories. */
  predicate ProteinThenCaloriesMax(df: Frame, i: nat)
    requires NumericColumn(df, "protein") && NumericColumn(df, "calories") && i < |df.rows|
  {
    && (forall j | 0 <= j < |df.rows| :: Int(df, j, "protein") <= Int(df, i, "protein"))
    && (forall j | 0 <= j < |df.rows| && Int(df, j, "protein") == Int(df, i, "protein") ::
          Int(df, j, "calories") <= Int(df, i, "calories"))
  }

  /** The "name" cell of the first row of a sort on protein and then calories,
      both keys in descending order. */
  function FindHighestProteinCereal(df: Frame): (r: Result<Value, Error>)
    ensures r.Success? <==>
              && Unique(df.labels, "protein") && Unique(df.labels, "calories")
              && NumericColumn(df, "protein") && NumericColumn(df, "calories")
              && |df.rows| > 0
              && Unique(df.labels, "name")
    ensures r.Success? ==>
              exists i | 0 <= i < |df.rows| :: Get(df, i, "name") == r.value && ProteinThenCaloriesMax(df, i)
    ensures |df.rows| == 0 ==> r.Failure?
    ensures !Unique(df.labels, "protein") ==> r == Failure(ColumnError(df.labels, "protein"))
    ensures Unique(df.labels, "protein") && !Unique(df.labels, "calories") ==>
              r == Failure(ColumnError(df.labels, "calories"))
    ensures Unique(df.labels, "protein") && Unique(df.labels, "calories") && !NumericColumn(df, "protein") ==>
              r == Failure(NotNumeric("protein"))
    ensures Unique(df.labels, "protein") && Unique(df.labels, "calories") && NumericColumn(df, "protein")
              && !NumericColumn(df, "calories") ==>
              r == Failure(NotNumeric("calories"))
    ensures Unique(df.labels, "protein") && Unique(df.labels, "calories")
              && NumericColumn(df, "protein") && NumericColumn(df, "calories") && |df.rows| == 0 ==>
              r == Failure(NoRows)
    ensures Unique(df.labels, "protein") && Unique(df.labels, "calories")
              && NumericColumn(df, "protein") && NumericColumn(df, "calories") && |df.rows| > 0
              && !Unique(df.labels, "name") ==>
              r == Failure(ColumnError(df.labels, "name"))
  {
    var i :- TopRow(df, ProteinThenCalories);
    var _ :- ResolveColumn(df.labels, "name");
    PairKeyIsProteinThenCalories(df, i);
    Success(Get(df, i, "name"))
  }

  /** Sorting on the key pair puts first a row maximal in protein, then calories. */
  lemma PairKeyIsProteinThenCalories(df: Frame, i: nat)
    requires Unique(df.labels, "protein") && Unique(df.labels, "calories")
    requires NumericColumn(df, "protein") && NumericColumn(df, "calories") && i < |df.rows|
    requires Sortable(df, ProteinThenCalories) && SortsFirst(df, ProteinThenCalories, i)
    ensures ProteinThenCaloriesMax(df, i)
  {
    forall j | 0 <= j < |df.rows|
      ensures Int(df, j, "protein") < Int(df, i, "protein")
              || (Int(df, j, "protein") == Int(df, i, "protein") && Int(df, j, "calories") <= Int(df, i, "calories"))
    {
      PairKey(df, j);
      PairKey(df, i);
      assert LexLe(Key(df, ProteinThenCalories, j), Key(df, ProteinThenCalories, i));
      LexLePair(Int(df, j, "protein"), Int(df, j, "calories"), Int(df, i, "protein"), Int(df, i, "calories"));
    }
  }

  lemma PairKey(df: Frame, i: nat)
    requires NumericColumn(df, "protein") && NumericColumn(df, "calories") && i < |df.rows|
    requires Sortable(df, ProteinThenCalories)
    ensures Key(df, ProteinThenCalories, i) == [Int(df, i, "protein"), Int(df, i, "calories")]
  {
  }

  /** A row strictly ahead of every other row on (protein, calories) is the one named. */
  lemma FindPicksStrictBest(df: Frame, m: nat)
    requires Unique(df.labels, "protein") && Unique(df.labels, "calories") && Unique(df.labels, "name")
    requires NumericColumn(df, "protein") && NumericColumn(df, "calories") && m < |df.rows|
    requires forall j | 0 <= j < |df.rows| && j != m ::
               Int(df, j, "protein") < Int(df, m, "protein")
               || (Int(df, j, "protein") == Int(df, m, "protein") && Int(df, j, "calories") < Int(df, m, "calories"))
    ensures FindHighestProteinCereal(df) == Success(Get(df, m, "name"))
  {
  }

  /** Any two rows the sort may put first agree on protein and on calories, so
      the unspecified order among fully tied rows never changes those values. */
  lemma TiedChoicesAgree(df: Frame, i: nat, j: nat)
    requires NumericColumn(df, "protein") && NumericColumn(df, "calories")
    requires i < |df.rows| && j < |df.rows|
    requires ProteinThenCaloriesMax(df, i) && ProteinThenCaloriesMax(df, j)
    ensures Int(df, i, "protein") == Int(df, j, "protein")
    ensures Int(df, i, "calories") == Int(df, j, "calories")
  {
  }

  /** The v3 choice is also a valid v0 choice: its protein is maximal. */
  lemma FindRefinesV0(df: Frame)
    requires FindHighestProteinCereal(df).Success?
    ensures PipelineV0.FindHighestProteinCereal(df).Success?
    ensures exists i | 0 <= i < |df.rows| ::
              Get(df, i, "name") == FindHighestProteinCereal(df).value && PipelineV0.MaxProtein(df, i)
  {
  }

  /** The selection reads only the "protein", "calories" and "name" columns. */
  lemma FindIgnoresOtherColumns(a: Frame, b: Frame)
    requires SameColumn(a, b, "protein") && SameColumn(a, b, "calories") && SameColumn(a, b, "name")
    ensures FindHighestProteinCereal(a) == FindHighestProteinCereal(b)
  {
    TopRowReadsOnlyKeys(a, b, ProteinThenCalories);
  }

  /** After a successful normalisation the "name" column is never missing. */
  lemma PreprocessedFrameHasName(df: Frame)
    requires PreprocessCereals(df).Success?
    ensures FindHighestProteinCereal(PreprocessCereals(df).value) != Failure(MissingColumn("name"))
  {
  }

  /** Two cereals tie on protein 4; the descending sort on calories prefers
      the one with 70 calories over the one with 50. */
  const TieOnProtein: Frame := Table(
    ["name", "protein", "calories"],
    [ [Text("Bran"), Num(4), Num(70)],
      [Text("Bran - no added sugars"), Num(4), Num(50)],
      [Text("Honey-comb"), Num(1), Num(110)] ])

  lemma TieOnProteinPicksMoreCalories()
    ensures FindHighestProteinCereal(TieOnProtein) == Success(Text("Bran"))
  {
    var df := TieOnProtein;
    assert IndexOf(df.labels, "name") == 0;
    assert IndexOf(df.labels, "protein") == 1;
    assert IndexOf(df.labels, "calories") == 2;
    FindPicksStrictBest(df, 0);
  }
}
