/** The cleaning routine `clean_data` of life_expectancy/cleaning.py: it turns
    the raw wide table (one composite key column "unit,sex,age,geo\time" and
    one column per year) into a long table of (unit, sex, age, region, year,
    value) rows for one region.

    The frame is modelled as values: a list of column names and a list of rows
    of string cells. Each pandas step becomes one function below, in the order
    the routine applies them; `Clean` composes them and `CleanData` replays the
    routine's step-by-step reassignments. */
module Cleaning {
  import opened Sequences
  import opened Text

  // ------------------------------------------------------------ constants

  /** The composite key column, as named once spaces are removed. */
  const KeyColumn: string := "unit,sex,age,geo\\time"

  /** The columns the composite key is split into, in order. */
  const IdColumns: seq<string> := ["unit", "sex", "age", "region"]

  /** The cell text that marks a missing measurement: a colon and one space. */
  const Sentinel: string := ": "

  /** The region cleaned when none is given. */
  const DefaultCountry: string := "PT"

  /** What follows the region code in the output file name. */
  const OutputSuffix: string := "_life_expectancy.csv"

  // ----------------------------------------------------------------- data

  /** The conditions that abort the routine. */
  datatype CleanError =
    | MissingColumn(name: string)        // no column of that name
    | DuplicateColumn(name: string)      // several columns of that name
    | KeyArity(key: string, parts: nat)  // a key that is not four comma-separated parts
    | YearNotInteger(year: string)        // a year label that is not an integer

  datatype Result<T> = Ok(value: T) | Err(error: CleanError)

  /** The raw frame as read from the tab-separated file. */
  datatype RawTable = RawTable(columns: seq<string>, rows: seq<seq<string>>)

  /** A data frame has one cell per column in every row. */
  predicate Rectangular(t: RawTable)
  {
    forall i :: 0 <= i < |t.rows| ==> |t.rows[i]| == |t.columns|
  }

  /** A row once the key is split: the four identifiers and the cells of the
      value (year) columns, in column order. */
  datatype KeyedRow = KeyedRow(unit: string, sex: string, age: string, region: string, cells: seq<string>)

  /** Every row carries one cell per value column. */
  predicate Shaped(rows: seq<KeyedRow>, width: nat)
  {
    forall i :: 0 <= i < |rows| ==> |rows[i].cells| == width
  }

  /** A row of the melted frame, before its value and year are converted. */
  datatype LongRow = LongRow(unit: string, sex: string, age: string, region: string, year: string, value: string)

  /** A row of the result: the year as an integer and the value as the text
      that remains after cleaning. */
  datatype CleanRow = CleanRow(unit: string, sex: string, age: string, region: string, year: nat, value: string)

  // ------------------------------------------ step 1: header normalisation

  predicate NotSpace(c: char) { c != ' ' }

  /** `columns.str.replace(' ', '')` on one column name. */
  function NormaliseHeader(name: string): string
  {
    Filter(name, NotSpace)
  }

  function NormaliseColumns(columns: seq<string>): (r: seq<string>)
    ensures |r| == |columns|
  {
    seq(|columns|, i requires 0 <= i < |columns| => NormaliseHeader(columns[i]))
  }

  /** Header normalisation deletes every space and nothing else: the result
      has no space, keeps every other character as often as it occurs, and
      keeps them in their original order. */
  lemma HeaderNormalisation(name: string)
    ensures ' ' !in NormaliseHeader(name)
    ensures IsSubsequence(NormaliseHeader(name), name)
    ensures forall c :: c != ' ' ==> multiset(NormaliseHeader(name))[c] == multiset(name)[c]
  {
    FilterMembership(name, NotSpace, ' ');
    FilterIsSubsequence(name, NotSpace);
    forall c | c != ' '
      ensures multiset(NormaliseHeader(name))[c] == multiset(name)[c]
    {
      FilterMultiplicity(name, NotSpace, c);
    }
  }

  // ----------------------------------------------- step 2: the key column

  /** The position of the first column called `name`. */
  function FirstIndex(columns: seq<string>, name: string): (i: nat)
    requires name in columns
    ensures i < |columns| && columns[i] == name
    ensures forall j :: 0 <= j < i ==> columns[j] != name
  {
    if columns[0] == name then 0 else 1 + FirstIndex(columns[1..], name)
  }

  /** `frame[name]`: pandas raises a KeyError when no column has that name,
      and when several do it returns a frame, on which the string accessor
      used next fails. So only a name that occurs exactly once succeeds. */
  function ColumnIndex(columns: seq<string>, name: string): (r: Result<nat>)
    ensures r.Ok? ==> r.value < |columns| && columns[r.value] == name
    ensures r.Ok? ==> forall j :: 0 <= j < |columns| && j != r.value ==> columns[j] != name
    ensures r.Err? ==>
      (r.error == MissingColumn(name) && name !in columns) ||
      (r.error == DuplicateColumn(name) &&
       exists j, k :: 0 <= j < k < |columns| && columns[j] == name && columns[k] == name)
  {
    if name !in columns then Err(MissingColumn(name))
    else
      var i := FirstIndex(columns, name);
      if name in columns[i + 1..] then
        var k :| 0 <= k < |columns[i + 1..]| && columns[i + 1..][k] == name;
        assert columns[i + 1 + k] == name;
        Err(DuplicateColumn(name))
      else
        assert forall j :: i < j < |columns| ==> columns[j] == columns[i + 1..][j - i - 1];
        Ok(i)
  }

  /** A column melted as a year column: neither the key column nor one of
      the identifier columns (assigning an identifier column that already
      exists overwrites it in place, and melt leaves identifiers out). */
  predicate IsValueColumn(name: string)
  {
    name != KeyColumn && name !in IdColumns
  }

  /** The positions from `j` on of the value columns, in column order. */
  function ValueColumnsFrom(columns: seq<string>, j: nat): (ys: seq<nat>)
    decreases |columns| - j
    ensures forall k :: 0 <= k < |ys| ==> j <= ys[k] < |columns| && IsValueColumn(columns[ys[k]])
    ensures forall k, l :: 0 <= k < l < |ys| ==> ys[k] < ys[l]
    ensures forall m :: j <= m < |columns| && IsValueColumn(columns[m]) ==> m in ys
  {
    if j >= |columns| then []
    else (if IsValueColumn(columns[j]) then [j] else []) + ValueColumnsFrom(columns, j + 1)
  }

  function ValueColumns(columns: seq<string>): seq<nat>
  {
    ValueColumnsFrom(columns, 0)
  }

  /** The entries of `xs` at positions `ys`, in that order: the names of the
      value columns, or the cells of a row under them. */
  function Select(xs: seq<string>, ys: seq<nat>): (r: seq<string>)
    requires forall k :: 0 <= k < |ys| ==> ys[k] < |xs|
    ensures |r| == |ys|
  {
    seq(|ys|, k requires 0 <= k < |ys| => xs[ys[k]])
  }

  /** A raw row holds the key column and every value column. */
  predicate Fits(row: seq<string>, key: nat, ys: seq<nat>)
  {
    key < |row| && forall k :: 0 <= k < |ys| ==> ys[k] < |row|
  }

  /** `str.split(',')` on one key, assigned to unit, sex, age and region; the
      key column itself is dropped and the value cells are kept. A key with
      another number of parts is an error. */
  function SplitRow(row: seq<string>, key: nat, ys: seq<nat>): (r: Result<KeyedRow>)
    requires Fits(row, key, ys)
    ensures r.Ok? <==> |Split(row[key], ',')| == 4
    ensures r.Ok? ==> |r.value.cells| == |ys| && forall k :: 0 <= k < |ys| ==> r.value.cells[k] == row[ys[k]]
  {
    var parts := Split(row[key], ',');
    if |parts| != 4 then Err(KeyArity(row[key], |parts|))
    else Ok(KeyedRow(parts[0], parts[1], parts[2], parts[3], Select(row, ys)))
  }

  /** The four identifiers are the comma-separated parts of the key: none
      holds a comma, and joined with commas they give the key back. */
  lemma KeySplitRoundTrip(row: seq<string>, key: nat, ys: seq<nat>)
    requires Fits(row, key, ys) && SplitRow(row, key, ys).Ok?
    ensures var k := SplitRow(row, key, ys).value;
            ',' !in k.unit && ',' !in k.sex && ',' !in k.age && ',' !in k.region &&
            Join([k.unit, k.sex, k.age, k.region], ',') == row[key]
  {
    var parts := Split(row[key], ',');
    JoinSplit(row[key], ',');
    assert parts == [parts[0], parts[1], parts[2], parts[3]];
  }

  /** Conversely, a key joined from four comma-free identifiers is split
      back into exactly those identifiers. */
  lemma KeyJoinSplit(row: seq<string>, key: nat, ys: seq<nat>, unit: string, sex: string, age: string, region: string)
    requires Fits(row, key, ys)
    requires ',' !in unit && ',' !in sex && ',' !in age && ',' !in region
    requires row[key] == Join([unit, sex, age, region], ',')
    ensures SplitRow(row, key, ys).Ok?
    ensures var k := SplitRow(row, key, ys).value;
            k.unit == unit && k.sex == sex && k.age == age && k.region == region
  {
    SplitJoin([unit, sex, age, region], ',');
  }

  /** The key split of every row; the first malformed key aborts. */
  function SplitKeys(rows: seq<seq<string>>, width: nat, key: nat, ys: seq<nat>): (r: Result<seq<KeyedRow>>)
    requires forall i :: 0 <= i < |rows| ==> |rows[i]| == width
    requires key < width && forall k :: 0 <= k < |ys| ==> ys[k] < width
    ensures r.Ok? <==> forall i :: 0 <= i < |rows| ==> |Split(rows[i][key], ',')| == 4
    ensures r.Ok? ==> |r.value| == |rows| && forall i :: 0 <= i < |rows| ==> SplitRow(rows[i], key, ys) == Ok(r.value[i])
    ensures r.Err? ==> exists i :: 0 <= i < |rows| && SplitRow(rows[i], key, ys) == Err(r.error) &&
                          forall j :: 0 <= j < i ==> SplitRow(rows[j], key, ys).Ok?
  {
    if rows == [] then Ok([])
    else
      match SplitRow(rows[0], key, ys)
      case Err(e) => Err(e)
      case Ok(first) =>
        match SplitKeys(rows[1..], width, key, ys)
        case Err(e) => Err(e)
        case Ok(rest) => Ok([first] + rest)
  }

  /** The positions of the value columns are as many as the value columns. */
  lemma {:induction false} ValueColumnsCount(columns: seq<string>, j: nat)
    requires j <= |columns|
    ensures |ValueColumnsFrom(columns, j)| == Count(columns[j..], IsValueColumn)
    decreases |columns| - j
  {
    if j < |columns| {
      ValueColumnsCount(columns, j + 1);
      assert columns[j..][1..] == columns[j + 1..];
    }
  }

  // ----------------------------------------------- step 3: region filter

  function InRegion(code: string): KeyedRow -> bool
  {
    (row: KeyedRow) => row.region == code
  }

  /** `frame[frame['region'] == country_code]`. */
  function FilterRegion(rows: seq<KeyedRow>, code: string): seq<KeyedRow>
  {
    Filter(rows, InRegion(code))
  }

  /** The filter keeps exactly the rows whose region equals the code (an
      exact, case-sensitive comparison), each as often as it occurs, in their
      original order. */
  lemma RegionFilter(rows: seq<KeyedRow>, code: string)
    ensures forall i :: 0 <= i < |FilterRegion(rows, code)| ==> FilterRegion(rows, code)[i].region == code
    ensures forall row :: row in FilterRegion(rows, code) <==> row in rows && row.region == code
    ensures forall row :: multiset(FilterRegion(rows, code))[row] == if row.region == code then multiset(rows)[row] else 0
    ensures |FilterRegion(rows, code)| == Count(rows, InRegion(code))
    ensures IsSubsequence(FilterRegion(rows, code), rows)
  {
    forall row
      ensures row in FilterRegion(rows, code) <==> row in rows && row.region == code
      ensures multiset(FilterRegion(rows, code))[row] == if row.region == code then multiset(rows)[row] else 0
    {
      FilterMembership(rows, InRegion(code), row);
      FilterMultiplicity(rows, InRegion(code), row);
    }
    FilterLength(rows, InRegion(code));
    FilterIsSubsequence(rows, InRegion(code));
  }

  /** Filtering keeps every row's shape. */
  lemma RegionFilterShaped(rows: seq<KeyedRow>, code: string, width: nat)
    requires Shaped(rows, width)
    ensures Shaped(FilterRegion(rows, code), width)
  {
    forall i | 0 <= i < |FilterRegion(rows, code)|
      ensures |FilterRegion(rows, code)[i].cells| == width
    {
      FilterMembership(rows, InRegion(code), FilterRegion(rows, code)[i]);
    }
  }

  // --------------------------------------------------------- step 4: melt

  /** The melted row for value column `j` of `row`. */
  function LongRowOf(row: KeyedRow, year: string, j: nat): LongRow
    requires j < |row.cells|
  {
    LongRow(row.unit, row.sex, row.age, row.region, year, row.cells[j])
  }

  /** The block melt produces for value column `j`: one row per input row. */
  function MeltColumn(rows: seq<KeyedRow>, labels: seq<string>, j: nat): seq<LongRow>
    requires Shaped(rows, |labels|) && j < |labels|
  {
    seq(|rows|, i requires 0 <= i < |rows| => LongRowOf(rows[i], labels[j], j))
  }

  /** The blocks of value columns `j`, `j + 1`, ..., stacked one after another. */
  function MeltFrom(rows: seq<KeyedRow>, labels: seq<string>, j: nat): seq<LongRow>
    requires Shaped(rows, |labels|) && j <= |labels|
    decreases |labels| - j
  {
    if j == |labels| then [] else MeltColumn(rows, labels, j) + MeltFrom(rows, labels, j + 1)
  }

  /** `pd.melt` with the four identifiers as id_vars, `year` as var_name and
      `value` as value_name. */
  function Melt(rows: seq<KeyedRow>, labels: seq<string>): seq<LongRow>
    requires Shaped(rows, |labels|)
  {
    MeltFrom(rows, labels, 0)
  }

  lemma {:induction false} MeltFromLength(rows: seq<KeyedRow>, labels: seq<string>, j: nat)
    requires Shaped(rows, |labels|) && j <= |labels|
    ensures |MeltFrom(rows, labels, j)| == |rows| * (|labels| - j)
    decreases |labels| - j
  {
    if j < |labels| {
      MeltFromLength(rows, labels, j + 1);
      assert |rows| * (|labels| - j) == |rows| + |rows| * (|labels| - (j + 1));
    }
  }

  /** Where block `d` starts when every block holds `n` rows. */
  function BlockStart(n: nat, d: nat): nat
  {
    if d == 0 then 0 else n + BlockStart(n, d - 1)
  }

  lemma {:induction false} BlockStartProduct(n: nat, d: nat)
    ensures BlockStart(n, d) == d * n
  {
    if d > 0 {
      BlockStartProduct(n, d - 1);
      assert d * n == n + (d - 1) * n;
    }
  }

  lemma {:induction false} MeltFromAt(rows: seq<KeyedRow>, labels: seq<string>, j0: nat, i: nat, j: nat)
    requires Shaped(rows, |labels|) && j0 <= j < |labels| && i < |rows|
    ensures BlockStart(|rows|, j - j0) + i < |MeltFrom(rows, labels, j0)|
    ensures MeltFrom(rows, labels, j0)[BlockStart(|rows|, j - j0) + i] == LongRowOf(rows[i], labels[j], j)
    decreases |labels| - j0
  {
    var column := MeltColumn(rows, labels, j0);
    var rest := MeltFrom(rows, labels, j0 + 1);
    assert MeltFrom(rows, labels, j0) == column + rest;
    if j > j0 {
      MeltFromAt(rows, labels, j0 + 1, i, j);
      var q := BlockStart(|rows|, j - (j0 + 1)) + i;
      assert (column + rest)[|rows| + q] == rest[q];
    }
  }

  /** Melt has exactly one row per (row, value column) pair, stacked column
      after column: the row for input row `i` and value column `j` sits at
      position `j * |rows| + i` and copies the identifiers, the column label
      and the cell. */
  lemma MeltAt(rows: seq<KeyedRow>, labels: seq<string>, i: nat, j: nat)
    requires Shaped(rows, |labels|) && i < |rows| && j < |labels|
    ensures |Melt(rows, labels)| == |rows| * |labels|
    ensures j * |rows| + i < |Melt(rows, labels)|
    ensures Melt(rows, labels)[j * |rows| + i] == LongRowOf(rows[i], labels[j], j)
  {
    MeltFromLength(rows, labels, 0);
    MeltFromAt(rows, labels, 0, i, j);
    BlockStartProduct(|rows|, j);
  }

  lemma MeltLength(rows: seq<KeyedRow>, labels: seq<string>)
    requires Shaped(rows, |labels|)
    ensures |Melt(rows, labels)| == |rows| * |labels|
  {
    MeltFromLength(rows, labels, 0);
  }

  lemma {:induction false} MeltFromOrigin(rows: seq<KeyedRow>, labels: seq<string>, j0: nat, k: nat)
    requires Shaped(rows, |labels|) && j0 <= |labels| && k < |MeltFrom(rows, labels, j0)|
    ensures exists i, j :: 0 <= i < |rows| && j0 <= j < |labels| &&
              MeltFrom(rows, labels, j0)[k] == LongRowOf(rows[i], labels[j], j)
    decreases |labels| - j0
  {
    if k < |rows| {
      assert MeltFrom(rows, labels, j0)[k] == LongRowOf(rows[k], labels[j0], j0);
    } else {
      MeltFromOrigin(rows, labels, j0 + 1, k - |rows|);
    }
  }

  /** Every melted row comes from one input row and one value column. */
  lemma MeltOrigin(rows: seq<KeyedRow>, labels: seq<string>, k: nat)
    requires Shaped(rows, |labels|) && k < |Melt(rows, labels)|
    ensures exists i, j :: 0 <= i < |rows| && 0 <= j < |labels| &&
              Melt(rows, labels)[k] == LongRowOf(rows[i], labels[j], j)
  {
    MeltFromOrigin(rows, labels, 0, k);
  }

  /** A row is in the melted frame exactly when it is the melted row of
      some input row and value column. */
  lemma MeltMember(rows: seq<KeyedRow>, labels: seq<string>, x: LongRow)
    requires Shaped(rows, |labels|)
    ensures x in Melt(rows, labels) <==>
            exists i, j :: 0 <= i < |rows| && 0 <= j < |labels| && x == LongRowOf(rows[i], labels[j], j)
  {
    if x in Melt(rows, labels) {
      var k :| 0 <= k < |Melt(rows, labels)| && Melt(rows, labels)[k] == x;
      MeltOrigin(rows, labels, k);
    }
    if exists i, j :: 0 <= i < |rows| && 0 <= j < |labels| && x == LongRowOf(rows[i], labels[j], j) {
      var i, j :| 0 <= i < |rows| && 0 <= j < |labels| && x == LongRowOf(rows[i], labels[j], j);
      MeltHas(rows, labels, i, j);
    }
  }

  lemma MeltHas(rows: seq<KeyedRow>, labels: seq<string>, i: nat, j: nat)
    requires Shaped(rows, |labels|) && i < |rows| && j < |labels|
    ensures LongRowOf(rows[i], labels[j], j) in Melt(rows, labels)
  {
    MeltAt(rows, labels, i, j);
  }

  // ------------------------------------------------ step 5: sentinel drop

  predicate IsSentinel(cell: string) { cell == Sentinel }

  predicate HasValue(row: LongRow) { row.value != Sentinel }

  predicate IsSentinelRow(row: LongRow) { row.value == Sentinel }

  /** `.query('value != ": "')`. */
  function DropSentinel(rows: seq<LongRow>): seq<LongRow>
  {
    Filter(rows, HasValue)
  }

  /** How many cells of the rows hold the missing-value marker. */
  function SentinelCells(rows: seq<KeyedRow>): nat
  {
    if rows == [] then 0 else Count(rows[0].cells, IsSentinel) + SentinelCells(rows[1..])
  }

  lemma {:induction false} MeltFromEmpty(labels: seq<string>, j: nat)
    requires j <= |labels|
    ensures MeltFrom([], labels, j) == []
    decreases |labels| - j
  {
    if j < |labels| {
      MeltFromEmpty(labels, j + 1);
      assert MeltColumn([], labels, j) == [];
    }
  }

  /** The marker cells of the blocks from column `j` on are those of the
      first row's cells from `j` on plus those of the other rows' blocks. */
  lemma {:induction false} MeltFromSentinels(rows: seq<KeyedRow>, labels: seq<string>, j: nat)
    requires Shaped(rows, |labels|) && rows != [] && j <= |labels|
    ensures Shaped(rows[1..], |labels|)
    ensures Count(MeltFrom(rows, labels, j), IsSentinelRow) ==
            Count(rows[0].cells[j..], IsSentinel) + Count(MeltFrom(rows[1..], labels, j), IsSentinelRow)
    decreases |labels| - j
  {
    assert Shaped(rows[1..], |labels|) by {
      forall i | 0 <= i < |rows[1..]| ensures |rows[1..][i].cells| == |labels| {
        assert rows[1..][i] == rows[i + 1];
      }
    }
    if j < |labels| {
      MeltFromSentinels(rows, labels, j + 1);
      var first := LongRowOf(rows[0], labels[j], j);
      var column := MeltColumn(rows, labels, j);
      var column' := MeltColumn(rows[1..], labels, j);
      assert column == [first] + column';
      assert ([first] + column')[1..] == column';
      CountConcat(column, MeltFrom(rows, labels, j + 1), IsSentinelRow);
      CountConcat(column', MeltFrom(rows[1..], labels, j + 1), IsSentinelRow);
      assert rows[0].cells[j..][1..] == rows[0].cells[j + 1..];
    } else {
      assert rows[0].cells[j..] == [];
    }
  }

  /** The melted rows holding the marker are exactly the marker cells. */
  lemma {:induction false} MeltSentinels(rows: seq<KeyedRow>, labels: seq<string>)
    requires Shaped(rows, |labels|)
    ensures Count(Melt(rows, labels), IsSentinelRow) == SentinelCells(rows)
  {
    if rows == [] {
      MeltFromEmpty(labels, 0);
    } else {
      MeltFromSentinels(rows, labels, 0);
      MeltSentinels(rows[1..], labels);
      assert rows[0].cells[0..] == rows[0].cells;
    }
  }

  /** After the drop no row holds the marker, every other row survives as
      often as it occurs and in order, and the count is rows times value
      columns less the marker cells. */
  lemma SentinelDrop(rows: seq<KeyedRow>, labels: seq<string>)
    requires Shaped(rows, |labels|)
    ensures forall k :: 0 <= k < |DropSentinel(Melt(rows, labels))| ==> DropSentinel(Melt(rows, labels))[k].value != Sentinel
    ensures forall row :: row in DropSentinel(Melt(rows, labels)) <==> row in Melt(rows, labels) && row.value != Sentinel
    ensures forall row :: multiset(DropSentinel(Melt(rows, labels)))[row] ==
              if row.value != Sentinel then multiset(Melt(rows, labels))[row] else 0
    ensures IsSubsequence(DropSentinel(Melt(rows, labels)), Melt(rows, labels))
    ensures |DropSentinel(Melt(rows, labels))| == |rows| * |labels| - SentinelCells(rows)
  {
    var melted := Melt(rows, labels);
    forall row
      ensures row in DropSentinel(melted) <==> row in melted && row.value != Sentinel
      ensures multiset(DropSentinel(melted))[row] == if row.value != Sentinel then multiset(melted)[row] else 0
    {
      FilterMembership(melted, HasValue, row);
      FilterMultiplicity(melted, HasValue, row);
    }
    FilterIsSubsequence(melted, HasValue);
    FilterLength(melted, HasValue);
    CountComplement(melted, HasValue, IsSentinelRow);
    MeltSentinels(rows, labels);
    MeltLength(rows, labels);
  }

  // ---------------------------------------------- step 6: value cleaning

  /** The characters the pattern `[^0-9.^0-9]` does not delete. Only the
      first `^` negates the class; the second is a literal, so `^` is kept
      along with the digits and the decimal point. */
  predicate IsValueChar(c: char)
  {
    '0' <= c <= '9' || c == '.' || c == '^'
  }

  /** `str.replace(r'[^0-9.^0-9]', '', regex=True)` on one cell. */
  function CleanValue(cell: string): string
  {
    Filter(cell, IsValueChar)
  }

  /** Value cleaning keeps exactly the characters of the class, each as often
      as it occurs and in order, and cleaning a cleaned cell changes nothing. */
  lemma ValueCleaning(cell: string)
    ensures forall i :: 0 <= i < |CleanValue(cell)| ==> IsValueChar(CleanValue(cell)[i])
    ensures forall c :: IsValueChar(c) ==> multiset(CleanValue(cell))[c] == multiset(cell)[c]
    ensures forall c :: !IsValueChar(c) ==> c !in CleanValue(cell)
    ensures IsSubsequence(CleanValue(cell), cell)
    ensures CleanValue(CleanValue(cell)) == CleanValue(cell)
  {
    forall c
      ensures multiset(CleanValue(cell))[c] == if IsValueChar(c) then multiset(cell)[c] else 0
    {
      FilterMultiplicity(cell, IsValueChar, c);
    }
    FilterIsSubsequence(cell, IsValueChar);
    FilterIdempotent(cell, IsValueChar);
  }

  /** A cell already made only of digits, points and carets is not changed. */
  lemma CleanValueKeepsClean(cell: string)
    requires forall i :: 0 <= i < |cell| ==> IsValueChar(cell[i])
    ensures CleanValue(cell) == cell
  {
    FilterUnchanged(cell, IsValueChar);
  }

  /** The value column overwritten with its cleaned text. */
  function CleanValues(rows: seq<LongRow>): (r: seq<LongRow>)
    ensures |r| == |rows|
  {
    seq(|rows|, i requires 0 <= i < |rows| => rows[i].(value := CleanValue(rows[i].value)))
  }

  // --------------------------------------------- step 7: year conversion

  /** `year.astype(int)`: every label becomes its integer value; the first
      label that is not a digit string aborts. */
  function ConvertYears(rows: seq<LongRow>): (r: Result<seq<CleanRow>>)
    ensures r.Ok? <==> forall i :: 0 <= i < |rows| ==> IsDigits(rows[i].year)
    ensures r.Ok? ==> |r.value| == |rows|
    ensures r.Ok? ==> forall i :: 0 <= i < |rows| ==>
              ParseNat(rows[i].year) == Some(r.value[i].year) &&
              r.value[i] == CleanRow(rows[i].unit, rows[i].sex, rows[i].age, rows[i].region, r.value[i].year, rows[i].value)
    ensures r.Err? ==> exists i :: 0 <= i < |rows| && !IsDigits(rows[i].year) && r.error == YearNotInteger(rows[i].year) &&
                          forall j :: 0 <= j < i ==> IsDigits(rows[j].year)
  {
    if rows == [] then Ok([])
    else
      match ParseNat(rows[0].year)
      case None => Err(YearNotInteger(rows[0].year))
      case Some(y) =>
        match ConvertYears(rows[1..])
        case Err(e) => Err(e)
        case Ok(rest) => Ok([CleanRow(rows[0].unit, rows[0].sex, rows[0].age, rows[0].region, y, rows[0].value)] + rest)
  }

  // ------------------------------------------------------------ pipeline

  /** The frame after the region filter: the value column labels and the
      surviving rows. */
  datatype Wide = Wide(labels: seq<string>, rows: seq<KeyedRow>)

  /** Lines 28 to 38: header normalisation, key split, key column drop and
      region filter. */
  function Prepare(raw: RawTable, code: string): (r: Result<Wide>)
    requires Rectangular(raw)
    ensures r.Ok? ==> Shaped(r.value.rows, |r.value.labels|)
  {
    var columns := NormaliseColumns(raw.columns);
    match ColumnIndex(columns, KeyColumn)
    case Err(e) => Err(e)
    case Ok(key) =>
      var ys := ValueColumns(columns);
        match SplitKeys(raw.rows, |raw.columns|, key, ys)
      case Err(e) => Err(e)
      case Ok(keyed) =>
        RegionFilterShaped(keyed, code, |ys|);
        Ok(Wide(Select(columns, ys), FilterRegion(keyed, code)))
  }

  /** The whole routine: the long table, or the condition that aborts it. */
  function Clean(raw: RawTable, code: string): Result<seq<CleanRow>>
    requires Rectangular(raw)
  {
    match Prepare(raw, code)
    case Err(e) => Err(e)
    case Ok(wide) => ConvertYears(CleanValues(DropSentinel(Melt(wide.rows, wide.labels))))
  }

  /** The name of the file the result is written to. */
  function OutputFileName(code: string): string
  {
    code + OutputSuffix
  }

  // ------------------------------------------------ end-to-end properties

  /** Every row that survives the filter has the requested region. */
  lemma PrepareRegion(raw: RawTable, code: string)
    requires Rectangular(raw) && Prepare(raw, code).Ok?
    ensures forall i :: 0 <= i < |Prepare(raw, code).value.rows| ==> Prepare(raw, code).value.rows[i].region == code
  {
    var columns := NormaliseColumns(raw.columns);
    var key := ColumnIndex(columns, KeyColumn).value;
    var ys := ValueColumns(columns);
    var keyed := SplitKeys(raw.rows, |raw.columns|, key, ys).value;
    assert Prepare(raw, code).value.rows == FilterRegion(keyed, code);
    RegionFilter(keyed, code);
  }

  /** After the split the key column is gone: every remaining value column
      is labelled by a name other than the key column and the identifiers,
      and every such column of the raw table is kept. */
  lemma PrepareLabels(raw: RawTable, code: string)
    requires Rectangular(raw) && Prepare(raw, code).Ok?
    ensures forall j :: 0 <= j < |Prepare(raw, code).value.labels| ==>
              IsValueColumn(Prepare(raw, code).value.labels[j])
    ensures forall c :: 0 <= c < |raw.columns| && IsValueColumn(NormaliseHeader(raw.columns[c])) ==>
              NormaliseHeader(raw.columns[c]) in Prepare(raw, code).value.labels
  {
    var columns := NormaliseColumns(raw.columns);
    var ys := ValueColumns(columns);
    var labels := Prepare(raw, code).value.labels;
    assert labels == Select(columns, ys);
    forall c | 0 <= c < |raw.columns| && IsValueColumn(NormaliseHeader(raw.columns[c]))
      ensures NormaliseHeader(raw.columns[c]) in labels
    {
      assert IsValueColumn(columns[c]);
      var j :| 0 <= j < |ys| && ys[j] == c;
      assert labels[j] == columns[c];
    }
  }

  /** A raw row whose key has four parts, the last of them `code`. */
  predicate RawInRegion(row: seq<string>, key: nat, code: string)
    requires key < |row|
  {
    var parts := Split(row[key], ',');
    |parts| == 4 && parts[3] == code
  }

  /** How many raw rows lie in region `code`. */
  function RegionRowCount(rows: seq<seq<string>>, key: nat, code: string): nat
    requires forall i :: 0 <= i < |rows| ==> key < |rows[i]|
  {
    if rows == [] then 0
    else (if RawInRegion(rows[0], key, code) then 1 else 0) + RegionRowCount(rows[1..], key, code)
  }

  /** How many missing-value markers the value cells of the raw rows of
      region `code` hold. */
  function RegionSentinelCount(rows: seq<seq<string>>, key: nat, ys: seq<nat>, code: string): nat
    requires forall i :: 0 <= i < |rows| ==> Fits(rows[i], key, ys)
  {
    if rows == [] then 0
    else
      assert Fits(rows[0], key, ys);
      (if RawInRegion(rows[0], key, code) then Count(Select(rows[0], ys), IsSentinel) else 0) +
         RegionSentinelCount(rows[1..], key, ys, code)
  }

  /** After a successful key split, the region filter keeps as many rows as
      lie in the region, with as many marker cells as they hold. */
  lemma {:induction false} SplitKeysRegion(rows: seq<seq<string>>, width: nat, key: nat, ys: seq<nat>, code: string)
    requires forall i :: 0 <= i < |rows| ==> |rows[i]| == width
    requires key < width && forall k :: 0 <= k < |ys| ==> ys[k] < width
    requires SplitKeys(rows, width, key, ys).Ok?
    ensures |FilterRegion(SplitKeys(rows, width, key, ys).value, code)| == RegionRowCount(rows, key, code)
    ensures SentinelCells(FilterRegion(SplitKeys(rows, width, key, ys).value, code)) == RegionSentinelCount(rows, key, ys, code)
  {
    if rows != [] {
      var first := SplitRow(rows[0], key, ys).value;
      var rest := SplitKeys(rows[1..], width, key, ys).value;
      var keyed := SplitKeys(rows, width, key, ys).value;
      assert keyed == [first] + rest;
      assert keyed[1..] == rest;
      SplitKeysRegion(rows[1..], width, key, ys, code);
      var kept := FilterRegion(rest, code);
      if first.region == code {
        assert FilterRegion(keyed, code) == [first] + kept;
        assert ([first] + kept)[1..] == kept;
      } else {
        assert FilterRegion(keyed, code) == kept;
      }
    }
  }

  /** The prepared frame read off the raw table: one row per raw row of the
      region, one label per value column, and the marker cells of those rows
      and columns. */
  lemma PrepareCounts(raw: RawTable, code: string, key: int)
    requires Rectangular(raw) && Prepare(raw, code).Ok?
    requires 0 <= key < |raw.columns| && NormaliseHeader(raw.columns[key]) == KeyColumn
    ensures var wide := Prepare(raw, code).value;
            |wide.rows| == RegionRowCount(raw.rows, key, code) &&
            |wide.labels| == Count(NormaliseColumns(raw.columns), IsValueColumn) &&
            SentinelCells(wide.rows) == RegionSentinelCount(raw.rows, key, ValueColumns(NormaliseColumns(raw.columns)), code)
  {
    var columns := NormaliseColumns(raw.columns);
    assert columns[key] == KeyColumn;
    assert ColumnIndex(columns, KeyColumn) == Ok(key);
    var ys := ValueColumns(columns);
    SplitKeysRegion(raw.rows, |raw.columns|, key, ys, code);
    ValueColumnsCount(columns, 0);
    assert columns[0..] == columns;
  }

  /** The row-count law read off the raw table: raw rows of the region times
      value columns, less the marker cells among them. */
  lemma CleanRowCountRaw(raw: RawTable, code: string, key: int)
    requires Rectangular(raw) && Clean(raw, code).Ok?
    requires 0 <= key < |raw.columns| && NormaliseHeader(raw.columns[key]) == KeyColumn
    ensures |Clean(raw, code).value| ==
            RegionRowCount(raw.rows, key, code) * Count(NormaliseColumns(raw.columns), IsValueColumn) -
            RegionSentinelCount(raw.rows, key, ValueColumns(NormaliseColumns(raw.columns)), code)
  {
    CleanRowCount(raw, code);
    PrepareCounts(raw, code, key);
  }

  /** Every output row carries the requested region code. */
  lemma CleanRegion(raw: RawTable, code: string)
    requires Rectangular(raw) && Clean(raw, code).Ok?
    ensures forall i :: 0 <= i < |Clean(raw, code).value| ==> Clean(raw, code).value[i].region == code
  {
    var wide := Prepare(raw, code).value;
    PrepareRegion(raw, code);
    var melted := Melt(wide.rows, wide.labels);
    var dropped := DropSentinel(melted);
    var out := Clean(raw, code).value;
    forall k | 0 <= k < |out|
      ensures out[k].region == code
    {
      FilterMembership(melted, HasValue, dropped[k]);
      var m :| 0 <= m < |melted| && melted[m] == dropped[k];
      MeltOrigin(wide.rows, wide.labels, m);
    }
  }

  /** Raw row `r` and raw column `c` meet in a cell that melting can
      produce: `key` is the key column, the key of row `r` has four parts and
      column `c` is a value column. */
  predicate IsOrigin(raw: RawTable, r: int, c: int, key: int)
    requires Rectangular(raw)
  {
    0 <= r < |raw.rows| && 0 <= c < |raw.columns| && 0 <= key < |raw.columns| &&
    NormaliseHeader(raw.columns[key]) == KeyColumn &&
    IsValueColumn(NormaliseHeader(raw.columns[c])) &&
    |Split(raw.rows[r][key], ',')| == 4
  }

  /** The melted row of raw row `r` and raw column `c`, read off the raw
      table directly. */
  function Origin(raw: RawTable, r: int, c: int, key: int): LongRow
    requires Rectangular(raw) && IsOrigin(raw, r, c, key)
  {
    var parts := Split(raw.rows[r][key], ',');
    LongRow(parts[0], parts[1], parts[2], parts[3], NormaliseHeader(raw.columns[c]), raw.rows[r][c])
  }

  /** `out` is the melted row `m` with its year read as an integer and its
      value cleaned. */
  predicate Converts(m: LongRow, out: CleanRow)
  {
    ParseNat(m.year) == Some(out.year) &&
    out == CleanRow(m.unit, m.sex, m.age, m.region, out.year, CleanValue(m.value))
  }

  /** Each row of the filtered frame, paired with each value column, is the
      melted row of some raw row and raw column. */
  lemma PrepareOrigin(raw: RawTable, code: string, i: nat, j: nat)
    requires Rectangular(raw) && Prepare(raw, code).Ok?
    requires i < |Prepare(raw, code).value.rows| && j < |Prepare(raw, code).value.labels|
    ensures var wide := Prepare(raw, code).value;
            exists r, c, key :: IsOrigin(raw, r, c, key) &&
              Origin(raw, r, c, key) == LongRowOf(wide.rows[i], wide.labels[j], j)
  {
    var wide := Prepare(raw, code).value;
    var columns := NormaliseColumns(raw.columns);
    var key := ColumnIndex(columns, KeyColumn).value;
    var ys := ValueColumns(columns);
    var keyed := SplitKeys(raw.rows, |raw.columns|, key, ys).value;
    assert wide.rows == FilterRegion(keyed, code);
    FilterMembership(keyed, InRegion(code), wide.rows[i]);
    var r :| 0 <= r < |keyed| && keyed[r] == wide.rows[i];
    var c := ys[j];
    assert SplitRow(raw.rows[r], key, ys) == Ok(keyed[r]);
    assert IsOrigin(raw, r, c, key);
    assert Origin(raw, r, c, key) == LongRowOf(wide.rows[i], wide.labels[j], j);
  }

  /** Every raw row of the requested region, paired with every value
      column, has its melted row in the filtered frame. */
  lemma PrepareComplete(raw: RawTable, code: string, r: int, c: int, key: int)
    requires Rectangular(raw) && Prepare(raw, code).Ok?
    requires IsOrigin(raw, r, c, key) && Origin(raw, r, c, key).region == code
    ensures var wide := Prepare(raw, code).value;
            exists i, j :: 0 <= i < |wide.rows| && 0 <= j < |wide.labels| &&
              LongRowOf(wide.rows[i], wide.labels[j], j) == Origin(raw, r, c, key)
  {
    var columns := NormaliseColumns(raw.columns);
    assert columns[key] == KeyColumn;
    assert ColumnIndex(columns, KeyColumn).value == key;
    var ys := ValueColumns(columns);
    assert IsValueColumn(columns[c]);
    var j :| 0 <= j < |ys| && ys[j] == c;
    var keyed := SplitKeys(raw.rows, |raw.columns|, key, ys).value;
    var wide := Prepare(raw, code).value;
    assert wide.rows == FilterRegion(keyed, code);
    assert SplitRow(raw.rows[r], key, ys) == Ok(keyed[r]);
    FilterMembership(keyed, InRegion(code), keyed[r]);
    var i :| 0 <= i < |wide.rows| && wide.rows[i] == keyed[r];
    assert LongRowOf(wide.rows[i], wide.labels[j], j) == Origin(raw, r, c, key);
  }

  /** The melted rows that survive the marker drop and reach the value and
      year conversions. */
  function Surviving(raw: RawTable, code: string): seq<LongRow>
    requires Rectangular(raw) && Prepare(raw, code).Ok?
  {
    var wide := Prepare(raw, code).value;
    DropSentinel(Melt(wide.rows, wide.labels))
  }

  /** A surviving row has a real cell and the requested region, and is the
      melted row of some raw row and value column. */
  lemma SurvivingOrigin(raw: RawTable, code: string, x: LongRow)
    requires Rectangular(raw) && Prepare(raw, code).Ok? && x in Surviving(raw, code)
    ensures x.value != Sentinel && x.region == code
    ensures exists r, c, key :: IsOrigin(raw, r, c, key) && Origin(raw, r, c, key) == x
  {
    var wide := Prepare(raw, code).value;
    var melted := Melt(wide.rows, wide.labels);
    FilterMembership(melted, HasValue, x);
    MeltMember(wide.rows, wide.labels, x);
    var i, j :| 0 <= i < |wide.rows| && 0 <= j < |wide.labels| && x == LongRowOf(wide.rows[i], wide.labels[j], j);
    PrepareRegion(raw, code);
    PrepareOrigin(raw, code, i, j);
  }

  /** The melted row of every raw row of the requested region and every
      value column survives unless its cell is the missing-value marker. */
  lemma SurvivingComplete(raw: RawTable, code: string, r: int, c: int, key: int)
    requires Rectangular(raw) && Prepare(raw, code).Ok?
    requires IsOrigin(raw, r, c, key)
    requires Origin(raw, r, c, key).region == code && Origin(raw, r, c, key).value != Sentinel
    ensures Origin(raw, r, c, key) in Surviving(raw, code)
  {
    var wide := Prepare(raw, code).value;
    var origin := Origin(raw, r, c, key);
    PrepareComplete(raw, code, r, c, key);
    MeltMember(wide.rows, wide.labels, origin);
    FilterMembership(Melt(wide.rows, wide.labels), HasValue, origin);
  }

  /** The output is the surviving rows, each converted in place. */
  lemma CleanOutputs(raw: RawTable, code: string)
    requires Rectangular(raw) && Clean(raw, code).Ok?
    ensures Prepare(raw, code).Ok?
    ensures |Clean(raw, code).value| == |Surviving(raw, code)|
    ensures forall k :: 0 <= k < |Surviving(raw, code)| ==> Converts(Surviving(raw, code)[k], Clean(raw, code).value[k])
  {
    var out := ConvertYears(CleanValues(Surviving(raw, code)));
    assert Clean(raw, code) == out;
  }

  /** Every output row comes from one raw row of the requested region and one
      value column whose cell is not the missing-value marker: its
      identifiers are the parts of that row's key, its year is the value of
      the column's label and its value is the cleaned cell. */
  lemma CleanRowOrigin(raw: RawTable, code: string, k: nat)
    requires Rectangular(raw) && Clean(raw, code).Ok? && k < |Clean(raw, code).value|
    ensures exists r, c, key :: IsOrigin(raw, r, c, key) &&
              Origin(raw, r, c, key).region == code &&
              Origin(raw, r, c, key).value != Sentinel &&
              Converts(Origin(raw, r, c, key), Clean(raw, code).value[k])
  {
    CleanOutputs(raw, code);
    SurvivingOrigin(raw, code, Surviving(raw, code)[k]);
  }

  /** Conversely, every raw row of the requested region and every value
      column whose cell is not the missing-value marker give an output row. */
  lemma CleanRowComplete(raw: RawTable, code: string, r: int, c: int, key: int)
    requires Rectangular(raw) && Clean(raw, code).Ok?
    requires IsOrigin(raw, r, c, key)
    requires Origin(raw, r, c, key).region == code && Origin(raw, r, c, key).value != Sentinel
    ensures exists k :: 0 <= k < |Clean(raw, code).value| && Converts(Origin(raw, r, c, key), Clean(raw, code).value[k])
  {
    CleanOutputs(raw, code);
    SurvivingComplete(raw, code, r, c, key);
    var k :| 0 <= k < |Surviving(raw, code)| && Surviving(raw, code)[k] == Origin(raw, r, c, key);
  }

  /** The output has one row per (surviving row, value column) pair, less one
      per missing-value marker among their cells. */
  lemma CleanRowCount(raw: RawTable, code: string)
    requires Rectangular(raw) && Clean(raw, code).Ok?
    ensures Prepare(raw, code).Ok?
    ensures var wide := Prepare(raw, code).value;
            |Clean(raw, code).value| == |wide.rows| * |wide.labels| - SentinelCells(wide.rows)
  {
    var wide := Prepare(raw, code).value;
    SentinelDrop(wide.rows, wide.labels);
  }

  /** A frame without the key column aborts with a missing-column error. */
  lemma MissingKeyFails(raw: RawTable, code: string)
    requires Rectangular(raw)
    requires forall c :: 0 <= c < |raw.columns| ==> NormaliseHeader(raw.columns[c]) != KeyColumn
    ensures Clean(raw, code) == Err(MissingColumn(KeyColumn))
  {
    var columns := NormaliseColumns(raw.columns);
    assert forall c :: 0 <= c < |columns| ==> columns[c] != KeyColumn;
  }

  /** A key without exactly four comma-separated parts aborts the run, in
      whichever region its row lies: the split happens before the filter.
      The error names the malformed key, unless the key column itself is
      ambiguous. */
  lemma MalformedKeyFails(raw: RawTable, code: string, r: int, key: int)
    requires Rectangular(raw)
    requires 0 <= r < |raw.rows| && 0 <= key < |raw.columns|
    requires NormaliseHeader(raw.columns[key]) == KeyColumn
    requires |Split(raw.rows[r][key], ',')| != 4
    ensures Clean(raw, code).Err?
    ensures Clean(raw, code).error.KeyArity? || Clean(raw, code).error == DuplicateColumn(KeyColumn)
  {
    var columns := NormaliseColumns(raw.columns);
    assert columns[key] == KeyColumn;
    var index := ColumnIndex(columns, KeyColumn);
    if index.Ok? {
      assert index.value == key;
      var ys := ValueColumns(columns);
      var keyed := SplitKeys(raw.rows, |raw.columns|, key, ys);
      assert keyed.Err?;
      var bad :| 0 <= bad < |raw.rows| && SplitRow(raw.rows[bad], key, ys) == Err(keyed.error);
    }
  }

  /** A run that aborts on a year names a label that is not a digit string
      and belongs to a value column. */
  lemma YearErrorOrigin(raw: RawTable, code: string)
    requires Rectangular(raw) && Clean(raw, code).Err? && Clean(raw, code).error.YearNotInteger?
    ensures !IsDigits(Clean(raw, code).error.year)
    ensures exists c :: 0 <= c < |raw.columns| &&
              IsValueColumn(NormaliseHeader(raw.columns[c])) &&
              NormaliseHeader(raw.columns[c]) == Clean(raw, code).error.year
  {
    var surviving := Surviving(raw, code);
    var cleaned := CleanValues(surviving);
    assert Clean(raw, code) == ConvertYears(cleaned);
    var e := Clean(raw, code).error;
    var k :| 0 <= k < |cleaned| && !IsDigits(cleaned[k].year) && e == YearNotInteger(cleaned[k].year);
    SurvivingOrigin(raw, code, surviving[k]);
    var r, c, key :| IsOrigin(raw, r, c, key) && Origin(raw, r, c, key) == surviving[k];
  }

  /** The run succeeds when the key column occurs once, every key has four
      parts and every value column is labelled by a digit string. */
  lemma CleanSucceeds(raw: RawTable, code: string, key: int)
    requires Rectangular(raw)
    requires 0 <= key < |raw.columns| && NormaliseHeader(raw.columns[key]) == KeyColumn
    requires forall c :: 0 <= c < |raw.columns| && c != key ==> NormaliseHeader(raw.columns[c]) != KeyColumn
    requires forall r :: 0 <= r < |raw.rows| ==> |Split(raw.rows[r][key], ',')| == 4
    requires forall c :: 0 <= c < |raw.columns| && IsValueColumn(NormaliseHeader(raw.columns[c])) ==>
               IsDigits(NormaliseHeader(raw.columns[c]))
    ensures Clean(raw, code).Ok?
  {
    var columns := NormaliseColumns(raw.columns);
    var index := ColumnIndex(columns, KeyColumn);
    assert columns[key] == KeyColumn;
    assert forall c :: 0 <= c < |columns| && c != key ==> columns[c] != KeyColumn;
    assert index.value == key;
    var ys := ValueColumns(columns);
    assert SplitKeys(raw.rows, |raw.columns|, key, ys).Ok?;
    assert Prepare(raw, code).Ok?;
    var surviving := Surviving(raw, code);
    var cleaned := CleanValues(surviving);
    forall k | 0 <= k < |cleaned|
      ensures IsDigits(cleaned[k].year)
    {
      SurvivingOrigin(raw, code, surviving[k]);
      var r, c, key' :| IsOrigin(raw, r, c, key') && Origin(raw, r, c, key') == surviving[k];
    }
    assert Clean(raw, code) == ConvertYears(cleaned);
  }

  /** The output file name is the region code followed by the fixed
      suffix, so different codes never share a file. */
  lemma OutputFileNameParts(code: string, other: string)
    ensures OutputFileName(code)[..|code|] == code
    ensures OutputFileName(code)[|code|..] == OutputSuffix
    ensures OutputFileName(code) == OutputFileName(other) ==> code == other
  {
    if OutputFileName(code) == OutputFileName(other) {
      assert |code| == |other|;
      assert code == OutputFileName(code)[..|code|];
    }
  }

  /** The routine as written: the frame variable is overwritten step by
      step, and the output file is written only when no step aborts. */
  method CleanData(raw: RawTable, countryCode: string) returns (result: Result<seq<CleanRow>>, written: Option<string>)
    requires Rectangular(raw)
    ensures result == Clean(raw, countryCode)
    ensures written == if result.Ok? then Some(OutputFileName(countryCode)) else None
    ensures result.Ok? ==> forall i :: 0 <= i < |result.value| ==> result.value[i].region == countryCode
  {
    var columns := NormaliseColumns(raw.columns);
    var key := ColumnIndex(columns, KeyColumn);
    if key.Err? {
      return Err(key.error), None;
    }
    var ys := ValueColumns(columns);
    var keyed := SplitKeys(raw.rows, |raw.columns|, key.value, ys);
    if keyed.Err? {
      return Err(keyed.error), None;
    }
    var frame := FilterRegion(keyed.value, countryCode);
    RegionFilterShaped(keyed.value, countryCode, |ys|);
    var melted := DropSentinel(Melt(frame, Select(columns, ys)));
    melted := CleanValues(melted);
    result := ConvertYears(melted);
    written := None;
    if result.Ok? {
      written := Some(OutputFileName(countryCode));
      CleanRegion(raw, countryCode);
    }
  }
}
