/** Worked examples of the cleaning routine on a one-row table: the year
    headers "1990 " and "1991 " carry the stray spaces of the raw file, and the
    row holds a key, the annotated cell "81.2 b" and the missing-value marker. */
module Scenarios {
  import opened Sequences
  import opened Text
  import opened Cleaning

  function SampleRows(key: string): seq<seq<string>>
  {
    [[key, "81.2 b", ": "]]
  }

  function SampleTable(key: string): RawTable
  {
    RawTable([KeyColumn, "1990 ", "1991 "], SampleRows(key))
  }

  lemma KeyColumnHasNoSpace()
    ensures NormaliseHeader(KeyColumn) == KeyColumn
  {
    assert forall i :: 0 <= i < |KeyColumn| ==> NotSpace(KeyColumn[i]);
    FilterUnchanged(KeyColumn, NotSpace);
  }

  lemma YearHeader(year: string)
    requires IsDigits(year)
    ensures NormaliseHeader(year + " ") == year
  {
    assert forall i :: 0 <= i < |year| ==> NotSpace(year[i]);
    FilterUnchanged(year, NotSpace);
    FilterConcat(year, " ", NotSpace);
    assert Filter(" ", NotSpace) == [];
  }

  lemma Header1990()
    ensures NormaliseHeader("1990 ") == "1990"
  {
    YearHeader("1990");
    assert "1990" + " " == "1990 ";
  }

  lemma Header1991()
    ensures NormaliseHeader("1991 ") == "1991"
  {
    YearHeader("1991");
    assert "1991" + " " == "1991 ";
  }

  lemma NormaliseThree(k: string, a: string, b: string)
    ensures NormaliseColumns([k, a, b]) == [NormaliseHeader(k), NormaliseHeader(a), NormaliseHeader(b)]
  {
  }

  /** The stray spaces of the year headers go; the key column is unchanged. */
  lemma SampleColumns()
    ensures NormaliseColumns([KeyColumn, "1990 ", "1991 "]) == [KeyColumn, "1990", "1991"]
  {
    NormaliseThree(KeyColumn, "1990 ", "1991 ");
    KeyColumnHasNoSpace();
    Header1990();
    Header1991();
  }

  lemma SampleKeyIndex()
    ensures ColumnIndex([KeyColumn, "1990", "1991"], KeyColumn) == Ok(0)
  {
    var columns := [KeyColumn, "1990", "1991"];
    assert columns[1..] == ["1990", "1991"];
    assert |KeyColumn| != 4;
  }

  lemma SampleValueColumns()
    ensures ValueColumns([KeyColumn, "1990", "1991"]) == [1, 2]
  {
    var columns := [KeyColumn, "1990", "1991"];
    assert IsValueColumn("1990") && IsValueColumn("1991");
    assert ValueColumnsFrom(columns, 3) == [];
    assert ValueColumnsFrom(columns, 2) == [2];
    assert ValueColumnsFrom(columns, 1) == [1, 2];
  }

  lemma SampleKeySplit(region: string)
    requires ',' !in region
    ensures Split("YR,F,Y_LT1," + region, ',') == ["YR", "F", "Y_LT1", region]
  {
    var parts := ["YR", "F", "Y_LT1", region];
    assert Join(parts[3..], ',') == region;
    assert Join(parts[2..], ',') == "Y_LT1," + region;
    assert Join(parts[1..], ',') == "F,Y_LT1," + region;
    assert Join(parts, ',') == "YR,F,Y_LT1," + region;
    SplitJoin(["YR", "F", "Y_LT1", region], ',');
  }

  lemma SampleKeys(region: string)
    requires ',' !in region
    ensures SplitKeys(SampleRows("YR,F,Y_LT1," + region), 3, 0, [1, 2]) ==
            Ok([KeyedRow("YR", "F", "Y_LT1", region, ["81.2 b", ": "])])
  {
    var rows := SampleRows("YR,F,Y_LT1," + region);
    SampleKeySplit(region);
    var cells := seq(2, k requires 0 <= k < 2 => rows[0][[1, 2][k]]);
    assert cells == ["81.2 b", ": "];
    var first := KeyedRow("YR", "F", "Y_LT1", region, cells);
    assert SplitRow(rows[0], 0, [1, 2]) == Ok(first);
    assert rows[1..] == [];
    assert SplitKeys(rows[1..], 3, 0, [1, 2]) == Ok([]);
    assert [first] + [] == [first];
  }

  lemma MalformedKeys()
    ensures SplitKeys(SampleRows("YR,F,PT"), 3, 0, [1, 2]) == Err(KeyArity("YR,F,PT", 3))
  {
    var parts := ["YR", "F", "PT"];
    assert Join(parts[2..], ',') == "PT";
    assert Join(parts[1..], ',') == "F,PT";
    assert Join(parts, ',') == "YR,F,PT";
    SplitJoin(parts, ',');
    var rows := SampleRows("YR,F,PT");
    assert SplitRow(rows[0], 0, [1, 2]) == Err(KeyArity("YR,F,PT", 3));
  }

  lemma SampleLabels()
    ensures Select([KeyColumn, "1990", "1991"], [1, 2]) == ["1990", "1991"]
  {
  }

  /** Up to the key split the sample table behaves the same whatever its key. */
  lemma SampleHeaders(key: string, code: string)
    ensures Prepare(SampleTable(key), code) ==
            match SplitKeys(SampleRows(key), 3, 0, [1, 2])
            case Err(e) => Err(e)
            case Ok(keyed) => Ok(Wide(["1990", "1991"], FilterRegion(keyed, code)))
  {
    SampleColumns();
    SampleKeyIndex();
    SampleValueColumns();
    SampleLabels();
  }

  /** Header clean-up, key split and region filter of the sample table. */
  lemma SamplePrepare(region: string, code: string)
    requires ',' !in region
    ensures Prepare(SampleTable("YR,F,Y_LT1," + region), code) ==
            Ok(Wide(["1990", "1991"],
                    if region == code then [KeyedRow("YR", "F", "Y_LT1", region, ["81.2 b", ": "])] else []))
  {
    SampleHeaders("YR,F,Y_LT1," + region, code);
    SampleKeys(region);
    var row := KeyedRow("YR", "F", "Y_LT1", region, ["81.2 b", ": "]);
    assert FilterRegion([row], code) == if region == code then [row] else [];
  }

  lemma SampleMelt(region: string, row: KeyedRow)
    requires row == KeyedRow("YR", "F", "Y_LT1", region, ["81.2 b", ": "])
    ensures DropSentinel(Melt([row], ["1990", "1991"])) == [LongRow("YR", "F", "Y_LT1", region, "1990", "81.2 b")]
  {
    var labels := ["1990", "1991"];
    var first := LongRow("YR", "F", "Y_LT1", region, "1990", "81.2 b");
    var second := LongRow("YR", "F", "Y_LT1", region, "1991", ": ");
    assert MeltColumn([row], labels, 1) == [second];
    assert MeltColumn([row], labels, 0) == [first];
    assert MeltFrom([row], labels, 1) == [second];
    assert Melt([row], labels) == [first, second];
    assert [first, second][1..] == [second];
    assert HasValue(first) && !HasValue(second);
    assert [second][1..] == [];
    assert Filter([second], HasValue) == [];
    assert DropSentinel([first, second]) == [first] + Filter([second], HasValue);
  }

  lemma SampleValue()
    ensures CleanValue("81.2 b") == "81.2"
  {
    assert forall i :: 0 <= i < |"81.2"| ==> IsValueChar("81.2"[i]);
    FilterUnchanged("81.2", IsValueChar);
    FilterConcat("81.2", " b", IsValueChar);
    assert " b"[1..] == "b";
    assert Filter(" b", IsValueChar) == [];
    assert "81.2" + " b" == "81.2 b";
  }

  lemma SampleYear()
    ensures ParseNat("1990") == Some(1990)
  {
    assert IsDigits("1990");
    assert "1990"[..3] == "199" && "199"[..2] == "19" && "19"[..1] == "1" && "1"[..0] == "";
    assert DigitsValue("1") == 1;
    assert DigitsValue("19") == 19;
    assert DigitsValue("199") == 199;
  }

  lemma SampleConvert(region: string)
    ensures ConvertYears([LongRow("YR", "F", "Y_LT1", region, "1990", "81.2")]) ==
            Ok([CleanRow("YR", "F", "Y_LT1", region, 1990, "81.2")])
  {
    var rows := [LongRow("YR", "F", "Y_LT1", region, "1990", "81.2")];
    SampleYear();
    assert rows[1..] == [];
    assert ConvertYears(rows[1..]) == Ok([]);
    var out := CleanRow("YR", "F", "Y_LT1", region, 1990, "81.2");
    assert ConvertYears(rows) == Ok([out] + []);
    assert [out] + [] == [out];
  }

  /** Once the frame is prepared, the rest of the routine works on the
      prepared rows only. */
  lemma CleanAfter(raw: RawTable, code: string, wide: Wide)
    requires Rectangular(raw) && Prepare(raw, code) == Ok(wide)
    ensures Shaped(wide.rows, |wide.labels|)
    ensures Clean(raw, code) == ConvertYears(CleanValues(DropSentinel(Melt(wide.rows, wide.labels))))
  {
  }

  /** Melt, sentinel drop, value clean-up and year conversion of the
      sample row. */
  lemma SampleSteps(region: string, row: KeyedRow)
    requires row == KeyedRow("YR", "F", "Y_LT1", region, ["81.2 b", ": "])
    ensures ConvertYears(CleanValues(DropSentinel(Melt([row], ["1990", "1991"])))) ==
            Ok([CleanRow("YR", "F", "Y_LT1", region, 1990, "81.2")])
  {
    SampleMelt(region, row);
    SampleValue();
    SampleConvert(region);
    var first := LongRow("YR", "F", "Y_LT1", region, "1990", "81.2 b");
    assert CleanValues([first]) == [first.(value := "81.2")];
  }

  /** For any region code, the annotated 1990 cell of a row of that region
      becomes 81.2 and the missing 1991 cell leaves no row. */
  lemma RegionSample(code: string)
    requires ',' !in code
    ensures Clean(SampleTable("YR,F,Y_LT1," + code), code) == Ok([CleanRow("YR", "F", "Y_LT1", code, 1990, "81.2")])
  {
    var row := KeyedRow("YR", "F", "Y_LT1", code, ["81.2 b", ": "]);
    SamplePrepare(code, code);
    CleanAfter(SampleTable("YR,F,Y_LT1," + code), code, Wide(["1990", "1991"], [row]));
    SampleSteps(code, row);
  }

  /** The same for the region cleaned when no code is given. */
  lemma DefaultSample()
    ensures Clean(SampleTable("YR,F,Y_LT1," + DefaultCountry), DefaultCountry) ==
            Ok([CleanRow("YR", "F", "Y_LT1", DefaultCountry, 1990, "81.2")])
  {
    RegionSample(DefaultCountry);
  }

  /** A row of another region leaves nothing. */
  lemma OtherRegionSample(region: string, code: string)
    requires ',' !in region && region != code
    ensures Clean(SampleTable("YR,F,Y_LT1," + region), code) == Ok([])
  {
    SamplePrepare(region, code);
    CleanAfter(SampleTable("YR,F,Y_LT1," + region), code, Wide(["1990", "1991"], []));
    NoRows(["1990", "1991"]);
  }

  /** An empty filtered frame gives an empty result. */
  lemma NoRows(labels: seq<string>)
    ensures ConvertYears(CleanValues(DropSentinel(Melt([], labels)))) == Ok([])
  {
    MeltFromEmpty(labels, 0);
    assert DropSentinel([]) == [];
    assert CleanValues([]) == [];
  }

  /** A key with three parts aborts the run, naming the key, whatever the
      region asked for. */
  lemma MalformedSample(code: string)
    ensures Clean(SampleTable("YR,F,PT"), code) == Err(KeyArity("YR,F,PT", 3))
  {
    SampleHeaders("YR,F,PT", code);
    MalformedKeys();
  }
}
