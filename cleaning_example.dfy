/** Worked examples of the cleaning in `clean_data`
    (life_expectancy/cleaning.py), in the shape of the raw file: two
    regions, two year columns, a flagged value and a missing one. */
module CleaningExample {
  import opened Seqs
  import opened PyText
  import opened Cleaning

  /** "72.3 e", a value with the flag "e", normalises to "72.3". */
  lemma AnnotatedValueExample()
    ensures NormaliseValue(Some("72.3 e")) == Some("72.3")
  {
    assert "72.3" + " e" == "72.3 e";
    FlaggedValue("72.3", " e");
  }

  /** The raw table of the example: a Portuguese and a German key, the year
      labels with the trailing space of the raw file, a missing observation
      and a flagged one. The example lemmas take it as a parameter equal to
      this table, which keeps the verifier from evaluating every function on
      it eagerly. */
  predicate IsExample(t: Table) {
    t == Table(
      ["unit,sex,age,geo\\time", "2011 ", "2010 "],
      [[Some("YR,F,Y65,PT"), Some("21.5 "), Some(": ")],
       [Some("YR,F,Y65,DE"), Some("20.9 e"), Some("20.7 ")]])
  }

  /** A key of the example splits into its four fields. */
  lemma ExampleKey(key: string, fields: seq<string>)
    requires (key, fields) == ("YR,F,Y65,PT", ["YR", "F", "Y65", "PT"])
          || (key, fields) == ("YR,F,Y65,DE", ["YR", "F", "Y65", "DE"])
          || (key, fields) == ("a,b,c,PT", ["a", "b", "c", "PT"])
    ensures Split(key, ',') == fields
  {
    assert Join(fields, ',') == key;
    SplitJoin(fields, ',');
  }

  /** The Portuguese row of the example once its key is split. */
  lemma ExamplePortugal(t: Table)
    requires IsExample(t) && Rectangular(t) && |t.columns| == 3 && |t.rows| == 2
    ensures PieceCount(t.rows[0][0]) == KeyFieldCount
    ensures SplitRow(t, 0) ==
      KeyedRow(Some("YR"), Some("F"), Some("Y65"), Some("PT"), [Some("21.5 "), Some(": ")])
  {
    ExampleShape(t);
    ExampleKey(t.rows[0][0].value, ["YR", "F", "Y65", "PT"]);
    assert SplitRow(t, 0).cells == [t.rows[0][1], t.rows[0][2]];
  }

  /** The German row of the example is of region "DE". */
  lemma ExampleGermany(t: Table)
    requires IsExample(t) && Rectangular(t) && |t.columns| == 3 && |t.rows| == 2
    ensures PieceCount(t.rows[1][0]) == KeyFieldCount
    ensures SplitRow(t, 1).region == Some("DE")
  {
    ExampleShape(t);
    ExampleKey(t.rows[1][0].value, ["YR", "F", "Y65", "DE"]);
  }

  /** The example is a rectangular table of two rows and three columns,
      the last two its year columns, none named after the key column or
      "value". */
  lemma ExampleShape(t: Table)
    requires IsExample(t)
    ensures Rectangular(t) && |t.columns| == 3 && |t.rows| == 2
    ensures t.columns[1] == "2011 " && t.columns[2] == "2010 "
    ensures t.rows[0][1] == Some("21.5 ") && t.rows[0][2] == Some(": ")
    ensures Years(t) == [1, 2]
    ensures KeyColumnName !in t.columns[1..] && ValueColumnName !in t.columns[1..]
  {
    assert t.columns[1..] == ["2011 ", "2010 "];
    TwoYearColumns(t);
  }

  /** A table of three columns whose last two are named after none of the
      four key fields has those two as its year columns. */
  lemma TwoYearColumns(t: Table)
    requires |t.columns| == 3
    requires !IsKeyField(t.columns[1]) && !IsKeyField(t.columns[2])
    ensures Years(t) == [1, 2]
  {
    var js := YearColumns(t.columns, 2);
    assert js == YearColumns(t.columns, 1) + [1];
    assert YearColumns(t.columns, 3) == js + [2];
  }

  /** A table of two rows whose keys both have four pieces splits row by
      row. */
  lemma SplitTwoRows(t: Table)
    requires Rectangular(t) && |t.columns| > 0 && |t.rows| == 2
    requires KeyColumnName !in t.columns[1..]
    requires PieceCount(t.rows[0][0]) == KeyFieldCount && PieceCount(t.rows[1][0]) == KeyFieldCount
    ensures SplitKeys(t) == Ok([SplitRow(t, 0), SplitRow(t, 1)])
  {
    var keys := Keys(t);
    assert keys[1..][1..] == [];
    assert Widest(keys) == KeyFieldCount;
    var r := SplitKeys(t).value;
    assert |r| == 2 && r[0] == SplitRow(t, 0) && r[1] == SplitRow(t, 1);
    assert r == [SplitRow(t, 0), SplitRow(t, 1)];
  }

  /** One row melted over two year labels gives its two cells, in label
      order. */
  lemma UnpivotOneRow(labels: seq<string>, row: KeyedRow)
    requires |labels| == 2 && |row.cells| >= 2
    ensures Unpivot(labels, [row]) ==
      [Melt(row, labels[0], row.cells[0]), Melt(row, labels[1], row.cells[1])]
  {
    var sel := [row];
    assert labels[..1][..0] == [];
    assert Unpivot(labels[..1][..0], sel) == [];
    assert Unpivot(labels[..1], sel) == Column(sel, labels[0], 0);
    assert Column(sel, labels[0], 0) == [Melt(row, labels[0], row.cells[0])];
    assert Column(sel, labels[1], 1) == [Melt(row, labels[1], row.cells[1])];
  }

  /** Of two split rows of which only the first is of the region, with two
      year columns, the melted table is that row's two cells, column by
      column. */
  lemma MeltFirstOfTwo(t: Table, region: string)
    requires Rectangular(t) && |t.columns| == 3 && |t.rows| == 2 && Years(t) == [1, 2]
    requires SplitKeys(t) == Ok([SplitRow(t, 0), SplitRow(t, 1)])
    requires SplitRow(t, 0).region == Some(region) && SplitRow(t, 1).region != Some(region)
    ensures Melted(t, region) ==
      [Melt(SplitRow(t, 0), t.columns[1], t.rows[0][1]), Melt(SplitRow(t, 0), t.columns[2], t.rows[0][2])]
  {
    var pt, de := SplitRow(t, 0), SplitRow(t, 1);
    FilterAppend([pt], [de], (row: KeyedRow) => row.region == Some(region));
    assert [pt, de] == [pt] + [de];
    assert Selected(t, region) == [pt];
    var labels := YearLabels(t);
    assert labels[0] == t.columns[1] && labels[1] == t.columns[2];
    assert pt.cells[0] == t.rows[0][1] && pt.cells[1] == t.rows[0][2];
    UnpivotOneRow(labels, pt);
  }

  /** Two melted rows whose years both parse are dated in order. */
  lemma DateTwo(long: seq<LongRow>, parse: string -> Option<int>, y0: int, y1: int)
    requires |long| == 2
    requires parse(long[0].year) == Some(y0) && parse(long[1].year) == Some(y1)
    ensures ConvertYears(long, parse).Ok? && |ConvertYears(long, parse).value| == 2
    ensures ConvertYears(long, parse).value[0] == Dated(long[0], y0)
    ensures ConvertYears(long, parse).value[1] == Dated(long[1], y1)
  {
    ConvertYearsSpec(long, parse);
  }

  /** Of two dated rows, the first with a number and the second with the
      missing marker, the first gets its value normalised and the second
      becomes missing. */
  lemma ValueTwo(dated: seq<Record>, v: string)
    requires |dated| == 2
    requires NormaliseValue(dated[0].value) == Some(v) && ValueParses(dated[0].value)
    requires NormaliseValue(dated[1].value) == None
    ensures ConvertValues(dated).Ok? && |ConvertValues(dated).value| == 2
    ensures ConvertValues(dated).value[0] == dated[0].(value := Some(v))
    ensures ConvertValues(dated).value[1].value == None
  {
    var tail := dated[1..];
    assert tail[0] == dated[1] && tail[1..] == [];
    assert ValueParses(tail[0].value);
    assert ConvertValues(tail[1..]) == Ok([]);
    assert ConvertValues(tail) == Ok([tail[0].(value := None)] + []);
  }

  /** Of two rows of which only the first has a value, only the first is
      kept. */
  lemma DropSecondOfTwo(rows: seq<Record>)
    requires |rows| == 2 && rows[0].value.Some? && rows[1].value.None?
    ensures DropMissing(rows) == [rows[0]]
  {
    assert rows == [rows[0]] + [rows[1]];
    FilterAppend([rows[0]], [rows[1]], (row: Record) => row.value.Some?);
  }

  /** A melted table of two rows, both years parsing, the first value a
      number and the second the missing marker, cleans to the first row
      alone. */
  lemma CleanFirstOfTwo(t: Table, region: string, y0: int, y1: int, v: string)
    requires Rectangular(t) && SplitKeys(t).Ok? && |Melted(t, region)| == 2
    requires ValueColumnName !in t.columns[1..]
    requires NormaliseYear(Melted(t, region)[0].year) == Some(y0)
    requires NormaliseYear(Melted(t, region)[1].year) == Some(y1)
    requires NormaliseValue(Melted(t, region)[0].value) == Some(v) && ValueParses(Melted(t, region)[0].value)
    requires NormaliseValue(Melted(t, region)[1].value) == None
    ensures Clean(t, region) == Ok([Dated(Melted(t, region)[0], y0).(value := Some(v))])
  {
    var long := Melted(t, region);
    UnpivotLength(YearLabels(t), Selected(t, region));
    DateTwo(long, NormaliseYear, y0, y1);
    var dated := ConvertYears(long, NormaliseYear).value;
    ValueTwo(dated, v);
    DropSecondOfTwo(ConvertValues(dated).value);
  }

  /** The labels "2011 " and "2010 " are the years 2011 and 2010. */
  lemma ExampleYear(text: string, year: int)
    requires (text, year) == ("2011 ", 2011) || (text, year) == ("2010 ", 2010)
    ensures NormaliseYear(text) == Some(year)
  {
    assert NatText(2) == "2";
    assert NatText(20) == "20";
    assert NatText(201) == "201";
    assert IntText(year) + " " == text;
    SpacedYearLabel(year, " ");
  }

  /** "21.5" is a decimal number to `float()`. */
  lemma ExampleDecimal()
    ensures IsFloatText("21.5")
  {
    var n := "21.5";
    StripPlain(n);
    assert Unsigned(n) == n;
    assert IndexOf(n, '.') == 2;
    assert n[..2] == "21" && n[3..] == "5";
  }

  /** "::" is no number to `float()`. */
  lemma NotDecimalExample()
    ensures !IsFloatText("::")
  {
    var colons := "::";
    StripPlain(colons);
    assert Unsigned(colons) == colons;
    assert IndexOf(colons, '.') == 2;
    assert !IsDigit(colons[0]);
  }

  /** "21.5 " is the number "21.5". */
  lemma ExampleNumber(cell: string)
    requires cell == "21.5 "
    ensures NormaliseValue(Some(cell)) == Some("21.5") && ValueParses(Some(cell))
  {
    assert "21.5" + " " == cell;
    FlaggedValue("21.5", " ");
    ExampleDecimal();
  }

  /** ": " is the missing marker. */
  lemma ExampleMissing(cell: string)
    requires cell == ": "
    ensures NormaliseValue(Some(cell)) == None && ValueParses(Some(cell))
  {
    assert ":" + " " == cell;
    MissingMarker(" ");
  }

  /** Cleaning the example for "PT" keeps the Portuguese observation of 2011
      with its year as an integer and its value stripped, and drops the
      missing one of 2010 and everything German. */
  lemma CleanExample(t: Table)
    requires IsExample(t)
    ensures Rectangular(t)
    ensures Clean(t, "PT") ==
      Ok([Record(Some("YR"), Some("F"), Some("Y65"), Some("PT"), 2011, Some("21.5"))])
  {
    ExampleShape(t);
    ExamplePortugal(t);
    ExampleGermany(t);
    SplitTwoRows(t);
    MeltFirstOfTwo(t, "PT");
    ExampleYear(t.columns[1], 2011);
    ExampleYear(t.columns[2], 2010);
    ExampleNumber(t.rows[0][1].value);
    ExampleMissing(t.rows[0][2].value);
    CleanFirstOfTwo(t, "PT", 2011, 2010, "21.5");
  }

  /** A table whose second column is named "region": line 36 writes the
      key's region over that column, so only the last column is a year
      column. */
  predicate IsOverwriteExample(t: Table) {
    t == Table(["k", "region", "2010"], [[Some("a,b,c,PT"), Some("1"), Some("2")]])
  }

  /** A table of three columns whose middle one is named after a key field
      and whose last one is not has the last as its only year column. */
  lemma MiddleOverwritten(t: Table)
    requires |t.columns| == 3
    requires IsKeyField(t.columns[1]) && !IsKeyField(t.columns[2])
    ensures Years(t) == [2]
  {
    var js := YearColumns(t.columns, 2);
    assert js == YearColumns(t.columns, 1);
    assert YearColumns(t.columns, 3) == js + [2];
  }

  /** A table of one row whose key has four pieces, and no later column
      named as the key column, splits. */
  lemma SplitOneRow(t: Table)
    requires Rectangular(t) && |t.columns| > 0 && |t.rows| == 1
    requires KeyColumnName !in t.columns[1..]
    requires PieceCount(t.rows[0][0]) == KeyFieldCount
    ensures SplitKeys(t) == Ok([SplitRow(t, 0)])
  {
    var keys := Keys(t);
    assert keys[1..] == [];
    assert Widest(keys) == KeyFieldCount;
    var r := SplitKeys(t).value;
    assert |r| == 1 && r[0] == SplitRow(t, 0);
    assert r == [SplitRow(t, 0)];
  }

  /** The overwritten column is no year column, and the single key splits
      into four fields. */
  lemma OverwriteSplit(t: Table)
    requires IsOverwriteExample(t) && Rectangular(t) && |t.columns| == 3 && |t.rows| == 1
    ensures Years(t) == [2] && YearLabels(t) == [t.columns[2]]
    ensures SplitKeys(t) == Ok([SplitRow(t, 0)])
    ensures SplitRow(t, 0) == KeyedRow(Some("a"), Some("b"), Some("c"), Some("PT"), [t.rows[0][2]])
    ensures ValueColumnName !in t.columns[1..]
  {
    assert t.columns[1..] == ["region", "2010"];
    MiddleOverwritten(t);
    ExampleKey(t.rows[0][0].value, ["a", "b", "c", "PT"]);
    SplitOneRow(t);
    assert SplitRow(t, 0).cells == [t.rows[0][2]];
  }

  /** "2010" is the year 2010. */
  lemma BareYear(text: string)
    requires text == "2010"
    ensures NormaliseYear(text) == Some(2010)
  {
    assert NatText(2) == "2";
    assert NatText(20) == "20";
    assert NatText(201) == "201";
    assert IntText(2010) + "" == text;
    SpacedYearLabel(2010, "");
  }

  /** "2" is the number "2". */
  lemma WholeNumber(cell: string)
    requires cell == "2"
    ensures NormaliseValue(Some(cell)) == Some("2") && ValueParses(Some(cell))
  {
    PlainValue(cell);
    StripPlain(cell);
    assert Unsigned(cell) == cell;
    assert IndexOf(cell, '.') == 1;
  }

  /** Cleaning that table for "PT" gives the one observation of 2010, from
      the last column, whatever the overwritten column held. */
  lemma OverwriteExample(t: Table)
    requires IsOverwriteExample(t) && Rectangular(t) && |t.columns| == 3 && |t.rows| == 1
    ensures Clean(t, "PT") == Ok([Record(Some("a"), Some("b"), Some("c"), Some("PT"), 2010, Some("2"))])
  {
    OverwriteSplit(t);
    BareYear(t.columns[2]);
    WholeNumber(t.rows[0][2].value);
    MeltOnlyRow(t, "PT");
    CleanOne(t, "PT", 2010, "2");
  }

  /** A table of one row, of the region, and one year column melts into
      that row's one cell. */
  lemma MeltOnlyRow(t: Table, region: string)
    requires Rectangular(t) && |t.rows| == 1 && |Years(t)| == 1
    requires SplitKeys(t) == Ok([SplitRow(t, 0)]) && SplitRow(t, 0).region == Some(region)
    ensures Melted(t, region) == [Melt(SplitRow(t, 0), YearLabels(t)[0], SplitRow(t, 0).cells[0])]
  {
    var row := SplitRow(t, 0);
    assert Selected(t, region) == [row] by {
      assert [row][1..] == [];
    }
    UnpivotOneColumn(YearLabels(t), row);
  }

  /** A melted table of one row whose year parses and whose value is a
      number cleans to that row, dated and normalised. */
  lemma CleanOne(t: Table, region: string, y: int, v: string)
    requires Rectangular(t) && SplitKeys(t).Ok? && |Melted(t, region)| == 1
    requires ValueColumnName !in t.columns[1..]
    requires NormaliseYear(Melted(t, region)[0].year) == Some(y)
    requires NormaliseValue(Melted(t, region)[0].value) == Some(v) && ValueParses(Melted(t, region)[0].value)
    ensures Clean(t, region) == Ok([Dated(Melted(t, region)[0], y).(value := Some(v))])
  {
    var long := Melted(t, region);
    UnpivotLength(YearLabels(t), Selected(t, region));
    DateOne(long, NormaliseYear, y);
    var dated := ConvertYears(long, NormaliseYear).value;
    ValueOne(dated, v);
    var valued := ConvertValues(dated).value;
    assert valued == [Dated(long[0], y).(value := Some(v))];
    DropMissingOrder(valued, []);
  }

  /** One melted row whose year parses is dated. */
  lemma DateOne(long: seq<LongRow>, parse: string -> Option<int>, y: int)
    requires |long| == 1 && parse(long[0].year) == Some(y)
    ensures ConvertYears(long, parse).Ok? && |ConvertYears(long, parse).value| == 1
    ensures ConvertYears(long, parse).value[0] == Dated(long[0], y)
  {
    ConvertYearsSpec(long, parse);
  }

  /** One dated row whose value is a number gets it normalised. */
  lemma ValueOne(dated: seq<Record>, v: string)
    requires |dated| == 1
    requires NormaliseValue(dated[0].value) == Some(v) && ValueParses(dated[0].value)
    ensures ConvertValues(dated).Ok? && |ConvertValues(dated).value| == 1
    ensures ConvertValues(dated).value[0] == dated[0].(value := Some(v))
  {
    assert dated[1..] == [];
    assert ConvertValues(dated) == Ok([dated[0].(value := Some(v))] + []);
  }

  /** One row melted over one year label gives its one cell. */
  lemma UnpivotOneColumn(labels: seq<string>, row: KeyedRow)
    requires |labels| == 1 && |row.cells| >= 1
    ensures Unpivot(labels, [row]) == [Melt(row, labels[0], row.cells[0])]
  {
    assert labels[..0] == [];
    assert Column([row], labels[0], 0) == [Melt(row, labels[0], row.cells[0])];
  }
}
