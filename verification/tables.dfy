/** The data-frame model: an ordered sequence of column labels and rows whose
    cells are positional, one per label, as in a pandas DataFrame. */
module Tables {
  import opened Wrappers

  type Label = string

  /** A cell: an integer (protein, calories, ...) or a text value (a cereal name). */
  datatype Value = Num(n: int) | Text(s: string)

  type Row = seq<Value>

  datatype Table = Table(labels: seq<Label>, rows: seq<Row>) {
    /** Every row has exactly one cell per column label. */
    predicate Rectangular() {
      forall i | 0 <= i < |rows| :: |rows[i]| == |labels|
    }
  }

  /** The tables a data frame can hold. */
  type Frame = t: Table | t.Rectangular() witness Table([], [])

  /** The errors the pipeline raises. */
  datatype Error =
    | MissingColumn(column: Label)    // KeyError: no column carries the label
    | DuplicateColumn(column: Label)  // the label names more than one column (pandas raises ValueError only for a sort key)
    | NotNumeric(column: Label)       // a sort key column holds a non-integer cell (a simplification of this model)
    | NoRows                         // IndexError: no first row to take
    | NoNameColumn                   // ValueError raised by `preprocess_cereals`

  /** Position of the first column labelled `l`. */
  function IndexOf(labels: seq<Label>, l: Label): (c: nat)
    requires l in labels
    ensures c < |labels| && labels[c] == l
    ensures l !in labels[..c]
  {
    if labels[0] == l then 0 else 1 + IndexOf(labels[1..], l)
  }

  /** Exactly one column is labelled `l`. */
  predicate Unique(labels: seq<Label>, l: Label) {
    l in labels && l !in labels[IndexOf(labels, l) + 1..]
  }

  lemma UniqueExactlyOne(labels: seq<Label>, l: Label)
    ensures Unique(labels, l) <==>
              exists c | 0 <= c < |labels| :: labels[c] == l && forall d | 0 <= d < |labels| && labels[d] == l :: d == c
  {
  }

  /** The error `df[l]` raises when `l` does not name exactly one column. */
  function ColumnError(labels: seq<Label>, l: Label): Error {
    if l !in labels then MissingColumn(l) else DuplicateColumn(l)
  }

  /** Looks a column up by label, as indexing a frame with a label does. */
  function ResolveColumn(labels: seq<Label>, l: Label): (r: Result<nat, Error>)
    ensures r.Success? <==> Unique(labels, l)
    ensures r.Success? ==> r.value < |labels| && labels[r.value] == l
    ensures r.Failure? ==> r.error == ColumnError(labels, l)
  {
    if Unique(labels, l) then Success(IndexOf(labels, l)) else Failure(ColumnError(labels, l))
  }

  /** The cell of row `i` in the (first) column labelled `l`. */
  function Get(df: Frame, i: nat, l: Label): Value
    requires i < |df.rows| && l in df.labels
  {
    df.rows[i][IndexOf(df.labels, l)]
  }

  /** Column `l` exists and holds an integer in every row. */
  predicate NumericColumn(df: Frame, l: Label) {
    l in df.labels && forall i | 0 <= i < |df.rows| :: Get(df, i, l).Num?
  }

  function Int(df: Frame, i: nat, l: Label): int
    requires i < |df.rows| && NumericColumn(df, l)
  {
    Get(df, i, l).n
  }

  /** Frames `a` and `b` have the same number of rows and agree on everything
      about column `l`: whether it exists, whether it is unique, and its cells. */
  predicate SameColumn(a: Frame, b: Frame, l: Label) {
    && |a.rows| == |b.rows|
    && (l in a.labels <==> l in b.labels)
    && (Unique(a.labels, l) <==> Unique(b.labels, l))
    && (l in a.labels ==> forall i | 0 <= i < |a.rows| :: Get(a, i, l) == Get(b, i, l))
  }
}
