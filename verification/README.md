# Cereal pipeline: schema normalisation and protein ranking

This project models the two data steps of the best-pre-workout-cereal pipeline
and proves properties of them in Dafny:

- `preprocess_cereals` (version 3 of the pipeline) lower-cases every column
  label and makes sure a `name` column exists. If only `brand` is present, it
  renames `brand` to `name`. If neither is present, it raises an error.
- `find_highest_protein_cereal` sorts the frame in descending order and returns
  the `name` cell of the first row. Version 0 sorts on `protein` alone.
  Version 3 sorts on `protein` and then `calories`, and both keys are descending.

A data frame is modelled as an immutable `Tables.Table`. It holds a sequence of
column labels and a sequence of rows. A row holds one cell per label, by
position, as in a pandas DataFrame. The subset type `Tables.Frame` keeps only
rectangular tables. Because cells are positional, renaming or lower-casing a
label never touches row data. Duplicate labels, such as `Name` and `NAME`
becoming `name` twice, need no precondition: a lookup that finds more than one
column fails with `DuplicateColumn`.

Taking the first row of a descending sort on a list of key columns is
modelled once, by `Ranking.TopRow`. It returns the index of a row whose key is a maximum under
the lexicographic order `Lex.LexLe` on the key columns. Version 0 uses the keys
`["protein"]` and version 3 uses `["protein", "calories"]`. The contracts say
"some maximal row" and never name a particular one. The order pandas gives to
rows that tie on every key is not promised by the code. `Lex.MaxKeysEqual`
and `PipelineV3.TiedChoicesAgree` show that every candidate row has the same
key values.

The model checks for errors in this order:

1. each sort key label in turn, missing (`MissingColumn`, pandas' KeyError) or
   carried by more than one column (`DuplicateColumn`, pandas' ValueError);
2. a non-integer key cell (`NotNumeric`). This is a simplification of the
   model: pandas sorts an all-text column and fails only on mixed types;
3. no row to take first (`NoRows`, pandas' IndexError);
4. the `name` lookup: missing (`MissingColumn`, pandas' KeyError) or carried
   by more than one column (`DuplicateColumn`). The duplicate case is also a
   simplification: pandas returns every `name` cell of the row instead of
   raising.

`preprocess_cereals` raises `NoNameColumn`.

On a protein tie, version 3 picks the row with the HIGHEST calories, because
`ascending=False` at `_versions/v3_pipeline.py:26` applies to both keys.
`test_pipeline.py:25-33` expects the lower-calorie row ("Bran - no added
sugars"). That test imports a `pipeline` module that is not part of this model
(`test_pipeline.py:6`), so its expectation is not stated as a property of
version 3. `PipelineV3.TieOnProteinPicksMoreCalories` proves that on the same
three-cereal table, version 3 as written returns "Bran".

Pandas promises no order for rows that tie on every sort key, so the model
promises none either: any maximal row may be chosen.

## Model

| member | source | states |
|---|---|---|
| `Ascii.LowerChar` | _versions/v3_pipeline.py:13 | the result is never an upper-case ASCII letter; a non-upper-case character is unchanged; an upper-case letter maps to the same letter in lower case |
| `Ascii.Lower` | _versions/v3_pipeline.py:13 | lower-casing keeps the length, yields a string with no upper-case ASCII letter, and maps each position independently |
| `Ascii.LowerFixedPoint` | _versions/v3_pipeline.py:13 | lower-casing leaves a label unchanged exactly when it is already lower-case (both directions) |
| `Ascii.LowerIdempotent` | _versions/v3_pipeline.py:13 | lower-casing twice equals lower-casing once |
| `Tables.ResolveColumn` | _versions/v3_pipeline.py:27 | a label lookup succeeds exactly when one column carries the label, and then returns that column's position; otherwise it reports the label missing or duplicated |
| `PipelineV3.PreprocessCereals` | _versions/v3_pipeline.py:12-21 | fails, with the no-name error, exactly when no label lower-cases to `name` or `brand`; on success the rows are untouched, the label count is kept, `name` is a label, and every label is lower-case |
| `PipelineV3.PreprocessIdempotent` | _versions/v3_pipeline.py:12-21 | normalising a successfully normalised frame returns it unchanged |
| `PipelineV3.PreprocessKeepsBrandBesideName` | _versions/v3_pipeline.py:13-15 | when some label reads `name` in any case, no rename happens: the labels are just the lower-cased input labels, so a `brand` column stays `brand` |
| `PipelineV3.PreprocessRenamesBrand` | _versions/v3_pipeline.py:15-17 | when no label reads `name` but one reads `brand`, exactly the `brand` labels become `name`; every other label keeps its lower-cased text and position, and the rows are unchanged |
| `PipelineV3.PreprocessIgnoresCase` | _versions/v3_pipeline.py:13 | frames whose labels agree up to ASCII case normalise to the same result, so upper-case labels behave like their lower-case forms |
| `PipelineV3.BrandRenameRoundTrip` | _versions/v3_pipeline.py:15-17 | a normalised frame whose `name` column was renamed to `brand` normalises back to the original frame |
| `Lex.LexLeTotal` | _versions/v3_pipeline.py:26 | any two keys of equal width are comparable, so a descending sort is defined for every frame |
| `Lex.LexLeTransitive` | _versions/v3_pipeline.py:26 | the multi-key order is transitive |
| `Lex.LexLePair` | _versions/v3_pipeline.py:26 | on the key pair the order compares protein first and uses calories only on a protein tie |
| `Lex.LexLeSingle` | _versions/v0_pipeline.py:13 | on a single key the order is the integer order on protein |
| `Lex.ArgMax` | _versions/v3_pipeline.py:26-27 | the returned index names a key that is at least every other key |
| `Lex.StrictMaxIsChosen` | _versions/v3_pipeline.py:26-27 | a key strictly above all others is the one chosen |
| `Lex.MaxKeysEqual` | _versions/v3_pipeline.py:26-27 | any two rows a descending sort may put first agree on every key, so the unspecified choice among ties never changes the keys |
| `Ranking.CheckLabels` | _versions/v3_pipeline.py:26 | key label resolution succeeds exactly when every key names one column; on failure the error is the missing or duplicated error of the first bad key |
| `Ranking.CheckNumeric` | _versions/v3_pipeline.py:26 | succeeds exactly when every key column holds integers; otherwise it names a non-integer key column |
| `Ranking.TopRow` | _versions/v3_pipeline.py:26-27 | succeeds exactly when every key column is unique and holds integers and there is a row; the chosen row has no row with a greater key; an empty but sortable frame fails with no-rows; label errors take precedence |
| `Ranking.TopRowStrictMax` | _versions/v3_pipeline.py:26-27 | a row whose key is strictly greater than every other row's key is the row selected |
| `Ranking.CheckLabelsAgree` | _versions/v3_pipeline.py:26 | key label resolution depends only on whether each key label is present and unique |
| `Ranking.CheckNumericAgree` | _versions/v3_pipeline.py:26 | the integer check reads only the key columns |
| `Ranking.TopRowReadsOnlyKeys` | _versions/v3_pipeline.py:26-27 | frames that agree on the key columns select the same row, or fail with the same error |
| `PipelineV0.FindHighestProteinCereal` | _versions/v0_pipeline.py:12-14 | succeeds exactly when `protein` is one integer column, there is a row, and `name` is one column; it then returns the name of a row whose protein is at least every row's protein; on an empty frame it fails; each error case is stated with its pandas precedence |
| `PipelineV0.ProteinKeyIsProtein` | _versions/v0_pipeline.py:13 | the row a descending sort on `protein` puts first has maximal protein |
| `PipelineV0.FindIgnoresOtherColumns` | _versions/v0_pipeline.py:13-14 | frames that agree on the `protein` and `name` columns give the same answer, whatever their other columns hold |
| `PipelineV3.FindHighestProteinCereal` | _versions/v3_pipeline.py:25-27 | succeeds exactly when `protein` and `calories` are unique integer columns, there is a row, and `name` is one column; it then returns the name of a row with maximal protein that has maximal calories among the rows with that protein; on an empty frame it fails; each error case is stated with its pandas precedence |
| `PipelineV3.PairKeyIsProteinThenCalories` | _versions/v3_pipeline.py:26 | the row a descending sort on (protein, calories) puts first has maximal protein and, among the rows with that protein, maximal calories |
| `PipelineV3.FindPicksStrictBest` | _versions/v3_pipeline.py:26-27 | a row strictly ahead of every other on (protein, calories) is the one whose name is returned |
| `PipelineV3.TiedChoicesAgree` | _versions/v3_pipeline.py:26-27 | any two rows that could be chosen, each maximal in protein and then calories, have the same protein and the same calories, so the unspecified tie order never changes those values |
| `PipelineV3.FindRefinesV0` | _versions/v3_pipeline.py:26 | whenever version 3 answers, version 0 answers too, and the version 3 answer names a row of maximal protein |
| `PipelineV3.FindIgnoresOtherColumns` | _versions/v3_pipeline.py:26-27 | frames that agree on the `protein`, `calories` and `name` columns give the same answer |
| `PipelineV3.PreprocessedFrameHasName` | _versions/v3_pipeline.py:38-40 | ranking a successfully normalised frame never fails because `name` is missing |
| `PipelineV3.TieOnProteinPicksMoreCalories` | _versions/v3_pipeline.py:26-27 | on two cereals tied at protein 4, the one with 70 calories is chosen over the one with 50 |

## Left out

- `download_latest_cereals` (both versions): fetching and parsing the CSV is network and file I/O. The model takes the parsed frame as its input.
- `display_highest_protein_cereal` and the `@job` wiring: logging and orchestration glue with no data logic.
- The test files: they depend on pytest fixtures and on replacing `pd.read_csv`. Their upper-case and `brand` inputs appear as `PipelineV3.PreprocessIgnoresCase` and `PipelineV3.BrandRenameRoundTrip`.
- Python's `str.lower` on non-ASCII characters: only ASCII letters are lower-cased.
- The in-place assignment to the caller's `df.columns`: `PreprocessCereals` returns a new frame and the caller's frame is not observable.
- Missing values (`NaN`, and where pandas places them in a sort) and floating-point cells: key cells are integers.
- The order pandas gives to rows that tie on every sort key: the contracts allow any maximal row.
- The ratings merge exercise: it has no implementation in the two pipeline files this project models.
- Tables.ResolveColumn: a label carried by more than one column fails with `DuplicateColumn`. For the `name` lookup of the chosen row, pandas would instead return every `name` cell of that row, so the model does not cover frames with a duplicated `name` column.
- PipelineV0.FindHighestProteinCereal: a key column with a non-integer cell fails with `NotNumeric`. Pandas would sort an all-text column as text and fail only on mixed types.
- PipelineV0.FindHighestProteinCereal: a duplicated `name` column fails with `DuplicateColumn`, whereas pandas would return every `name` cell of the chosen row instead of one name.
- PipelineV3.FindHighestProteinCereal: same `NotNumeric` simplification for `protein` and `calories`. Also, a duplicated `name` column fails with `DuplicateColumn`, whereas pandas would return a Series of names instead of one name.
