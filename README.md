# Life expectancy cleaning, modelled in Dafny

`clean_data` in `life_expectancy/cleaning.py` turns the Eurostat life
expectancy table into a long table for one region. The raw table is wide:
one composite key column `unit,sex,age,geo\time` and one column per year. The
routine does the following:

1. It deletes spaces from the column names.
2. It splits the key into `unit`, `sex`, `age` and `region`, then drops the key column.
3. It keeps the rows of the requested region.
4. It melts the year columns into `(year, value)` pairs.
5. It drops the cells that hold the missing-value marker `": "`.
6. It strips the value text down to digits, points and carets.
7. It reads the year labels as integers.
8. It writes the result to `<code>_life_expectancy.csv`.

The model keeps the frame as values: a list of column names and a list of
rows of string cells. Each pandas step is one pure function. The routine
overwrites its frame variable step by step, and a method replays that.

- `sequences.dfy` (module `Sequences`) holds `Filter`, the order-preserving
  selection behind every deletion in the routine, with its laws:
  - length;
  - membership;
  - multiplicity;
  - concatenation;
  - idempotence;
  - being a subsequence;
  - being the unique longest such subsequence.
- `text.dfy` (module `Text`) holds the Python string operations the routine
  relies on:
  - `str.split` and `str.join`, with both round trips;
  - `int()` on a digit label, with its inverse `FormatNat`;
  - an exact decimal reading of a cleaned cell.
- `cleaning.dfy` (module `Cleaning`) holds the following:
  - the table types;
  - the seven steps;
  - `Prepare` and `Clean`, which compose them;
  - the end-to-end laws;
  - the method `CleanData`.
- `scenarios.dfy` (module `Scenarios`) works one-row tables through `Clean`:
  a row of the requested region, a row of another region and a malformed key.

The model's error cases are these:

| case | error |
|---|---|
| the key column is absent | `MissingColumn` |
| the key column occurs twice | `DuplicateColumn` |
| a key does not have exactly four comma-separated parts | `KeyArity` |
| a surviving year label is not a digit string | `YearNotInteger` |

The regular expression on line 50 is `[^0-9.^0-9]`. Only its first caret
negates the class, so `^` survives cleaning along with the digits and the
point.

## Model

| member | source | states |
|---|---|---|
| Cleaning.HeaderNormalisation | life_expectancy/cleaning.py:28 | a cleaned column name holds no space, keeps every other character (tabs included) as often as it occurs, and keeps their order |
| Scenarios.SampleColumns | life_expectancy/cleaning.py:28 | the headers `"1990 "` and `"1991 "` become `"1990"` and `"1991"`, and the key column name is unchanged |
| Cleaning.ColumnIndex | life_expectancy/cleaning.py:32 | looking up a column succeeds exactly when the name occurs once, and then gives its position; a missing name and a repeated name are told apart |
| Cleaning.SplitRow | life_expectancy/cleaning.py:31-33 | a row's key splits successfully iff it has exactly four comma-separated parts; the value cells are those of the value columns, in order |
| Cleaning.KeySplitRoundTrip | life_expectancy/cleaning.py:31-33 | the four identifiers hold no comma, and joined with commas they give back the key |
| Cleaning.KeyJoinSplit | life_expectancy/cleaning.py:31-33 | a key joined from four comma-free identifiers yields exactly those identifiers as unit, sex, age and region |
| Cleaning.SplitKeys | life_expectancy/cleaning.py:31-33 | the table's key split succeeds iff every key has four parts; on success each row is its own split, on failure the error is that of the first malformed key |
| Cleaning.PrepareLabels | life_expectancy/cleaning.py:31-35 | once the key column is dropped, no remaining value column is the key column or an identifier, and every other raw column is kept |
| Cleaning.MalformedKeyFails | life_expectancy/cleaning.py:31-33 | a key without four parts aborts the run in any region, with a key-arity error unless the key column is ambiguous |
| Cleaning.MissingKeyFails | life_expectancy/cleaning.py:32 | a table without the key column aborts with a missing-column error |
| Scenarios.MalformedSample | life_expectancy/cleaning.py:31-33 | the key `YR,F,PT` aborts the run with a key-arity error naming the key and its three parts |
| Cleaning.RegionFilter | life_expectancy/cleaning.py:38 | the filter keeps exactly the rows whose region equals the code, compared exactly, each as often as it occurs and in their original order, so it keeps as many rows as lie in the region |
| Cleaning.PrepareRegion | life_expectancy/cleaning.py:38 | every row of the prepared frame has the requested region |
| Cleaning.CleanRegion | life_expectancy/cleaning.py:38 | every output row has the requested region |
| Scenarios.OtherRegionSample | life_expectancy/cleaning.py:38 | a table whose only row belongs to another region yields no row |
| Cleaning.MeltAt | life_expectancy/cleaning.py:41-45 | the melted row at position `j * rows + i` pairs row `i` with value column `j`, so the order is year-column-major; identifiers are copied, the year is the label and the value is the cell |
| Cleaning.MeltLength | life_expectancy/cleaning.py:41-45 | melting gives one row per (row, value column) pair |
| Cleaning.MeltOrigin | life_expectancy/cleaning.py:41-45 | every melted row is the melted row of some input row and value column |
| Cleaning.MeltMember | life_expectancy/cleaning.py:41-45 | a row is in the melted table iff it is the melted row of some input row and value column |
| Cleaning.MeltSentinels | life_expectancy/cleaning.py:41-46 | the melted rows holding the marker are as many as the marker cells of the input rows |
| Cleaning.SentinelDrop | life_expectancy/cleaning.py:46 | after the drop no row holds `": "`, every other melted row (`":"` and `":  "` included) survives as often as it occurs and in order, and the count is rows times value columns less the marker cells |
| Cleaning.ValueCleaning | life_expectancy/cleaning.py:50 | cleaning keeps exactly the characters 0-9, `.` and `^`, each as often as it occurs and in order, and cleaning twice is cleaning once |
| Cleaning.CleanValueKeepsClean | life_expectancy/cleaning.py:50 | a cell made only of digits, points and carets is not changed |
| Sequences.FilterLongest | life_expectancy/cleaning.py:50 | what a deletion step keeps is the longest subsequence of its input made only of kept elements, and the only one of that length |
| Scenarios.SampleValue | life_expectancy/cleaning.py:50 | `"81.2 b"` becomes `"81.2"` |
| Text.ToNumericDefined | life_expectancy/cleaning.py:49-52 | the numeric reading of a cleaned cell has a value exactly when the cell is a decimal literal (digits with at most one point); anything else has none |
| Cleaning.ConvertYears | life_expectancy/cleaning.py:54 | year conversion succeeds iff every label is a digit string; each output row is its input row with the label's integer value, and a failure names the first label that is not a digit string |
| Text.ParseNat | life_expectancy/cleaning.py:54 | a label has an integer value exactly when it is a non-empty string of decimal digits |
| Text.ParseFormat | life_expectancy/cleaning.py:54 | reading the decimal spelling of a number gives back that number |
| Text.FormatParse | life_expectancy/cleaning.py:54 | a digit label without a leading zero is the decimal spelling of its value |
| Scenarios.SampleYear | life_expectancy/cleaning.py:54 | `"1990"` reads as 1990 |
| Cleaning.YearErrorOrigin | life_expectancy/cleaning.py:54 | a run that aborts on a year names a label that is not a digit string and belongs to a value column |
| Text.JoinSplit | life_expectancy/cleaning.py:32 | joining the parts of a split with the separator gives back the string |
| Text.SplitJoin | life_expectancy/cleaning.py:32 | splitting a join of separator-free parts gives back the parts |
| Text.SplitCount | life_expectancy/cleaning.py:32 | a string with n separators splits into n + 1 parts |
| Cleaning.Prepare | life_expectancy/cleaning.py:28-38 | every row of the prepared frame has one cell per value column |
| Cleaning.CleanOutputs | life_expectancy/cleaning.py:46-54 | the output is the surviving melted rows, each with its value cleaned and its year read as an integer |
| Cleaning.CleanRowOrigin | life_expectancy/cleaning.py:28-54 | every output row comes from a raw row of the requested region and a value column whose cell is not the marker, with the key's parts, the label's integer and the cleaned cell |
| Cleaning.CleanRowComplete | life_expectancy/cleaning.py:28-54 | every raw row of the requested region and every value column whose cell is not the marker give an output row |
| Cleaning.CleanRowCount | life_expectancy/cleaning.py:41-54 | the output has filtered rows times value columns rows, less the marker cells |
| Cleaning.ValueColumnsCount | life_expectancy/cleaning.py:35-45 | the melted columns are as many as the columns other than the key column and the identifiers |
| Cleaning.SplitKeysRegion | life_expectancy/cleaning.py:31-38 | after the key split, the region filter keeps one row per raw row whose key's fourth part is the code, holding the marker cells of those rows |
| Cleaning.PrepareCounts | life_expectancy/cleaning.py:28-38 | the filtered frame has one row per raw row of the region, one label per value column, and the marker cells of those rows |
| Cleaning.CleanRowCountRaw | life_expectancy/cleaning.py:28-54 | the output has (raw rows of the region) times (value columns) rows, less the marker cells among them, all counted on the raw table |
| Cleaning.CleanSucceeds | life_expectancy/cleaning.py:28-54 | the run succeeds when the key column occurs once, every key has four parts and every value column label is a digit string |
| Cleaning.OutputFileNameParts | life_expectancy/cleaning.py:57-62 | the output file name is the code followed by `_life_expectancy.csv`, so different codes never share a file |
| Scenarios.RegionSample | life_expectancy/cleaning.py:10-65 | for any comma-free region code, a row of that region with `"81.2 b"` under `"1990 "` and the marker under `"1991 "` gives the one row (YR, F, Y_LT1, code, 1990, "81.2") |
| Scenarios.DefaultSample | life_expectancy/cleaning.py:10 | with the default code `PT`, the same table of region PT gives the one row (YR, F, Y_LT1, PT, 1990, "81.2") |
| Cleaning.CleanData | life_expectancy/cleaning.py:10-65 | the step-by-step routine returns what `Clean` returns, every output row has the requested region, and the file is written (under the code's name) only when no step aborts |

## Left out

- Reading the tab-separated file (line 25), writing the CSV (line 63) and resolving directories with `os.path` (lines 21-23 and 57-62). These are I/O. `CleanData` takes the raw table as a parameter and reports the name of the file it would write.
- The `argparse` entry point (lines 68-74) is command-line glue and is not modelled. Its default region `PT`, like the default argument of `clean_data` on line 10, is the constant `Cleaning.DefaultCountry`. Callers of `Clean` and `CleanData` always pass the code explicitly.
- Cleaning.CleanData: the value column stays the cleaned text rather than the float64 that `pd.to_numeric(..., errors='coerce')` gives, because binary floating point is out of scope. `Text.ToNumeric` gives the exact decimal, or none where pandas would give NaN.
- Cleaning.SplitKeys: a key with the wrong number of parts is an error. pandas' `str.split(expand=True)` instead pads short keys with None when some other key has four parts. The model treats any arity other than four as a failure. A table with no data rows also differs. pandas' split then yields no columns, and the four-column assignment on line 31 raises `ValueError`. The model's split succeeds with no rows, so `Clean` returns an empty table.
- Text.ParseNat: only ASCII digit strings are read. Python's `int` also accepts a sign, surrounding whitespace, underscores and other Unicode digits. pandas' 64-bit integer overflow is not modelled either.
- Column types inferred on read are not modelled: every cell is a string. So is the NaN of an empty cell.
- A raw column named `value` or `year`, which would clash with the names melt gives its output columns, is not modelled.
- DataFrame index bookkeeping is not modelled: the output is a plain sequence of rows.
- In-place updates of the frame (the column rename, the new identifier columns, and the overwritten `value` and `year` columns) are modelled as reassigning values. pandas' copy-versus-view semantics and aliasing are out of scope.
