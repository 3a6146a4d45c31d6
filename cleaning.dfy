/** The table transformation of `clean_data` (life_expectancy/cleaning.py):
    split the composite key column into unit, sex, age and region, keep the
    rows of one region, unpivot the year columns into rows, turn the year
    label into an integer, strip annotations from the value, and drop the
    rows whose value is missing. Reading the raw file and writing the CSV
    around it are not part of the model. */
module Cleaning {
  import opened Seqs
  import opened PyText

  /** One cell of the data frame; `None` is pandas' missing value (NaN). */
  type Cell = Option<string>

  /** The raw table as `read_csv(sep="\t")` gives it: the column labels (the
      composite key column first, then one column per year) and the rows. */
  datatype Table = Table(columns: seq<string>, rows: seq<seq<Cell>>)

  /** A data frame has one cell per row and column. */
  predicate Rectangular(t: Table) {
    forall i :: 0 <= i < |t.rows| ==> |t.rows[i]| == |t.columns|
  }

  /** A row once its key column is split: the four id fields, then the
      cells of the year columns. */
  datatype KeyedRow = KeyedRow(unit: Cell, sex: Cell, age: Cell, region: Cell, cells: seq<Cell>)

  /** A row of the melted table: the id fields, the label of the year column
      the value came from, and the value. */
  datatype LongRow = LongRow(unit: Cell, sex: Cell, age: Cell, region: Cell, year: string, value: Cell)

  /** A row of the cleaned table, columns `unit, sex, age, region, year,
      value`; the value stays the normalised text `astype(float)` accepted. */
  datatype Record = Record(unit: Cell, sex: Cell, age: Cell, region: Cell, year: int, value: Cell)

  /** Why `clean_data` raises instead of returning a table. */
  datatype CleanError =
    | NoColumns               // `life_exp.columns[0]` of a frame without columns
    | KeyWidth(width: nat)    // the split gave `width` columns for the four names
    | BadYear(year: string)   // `astype(int)` rejected a year label
    | BadValue(text: string)  // `astype(float)` rejected a normalised value
    | KeyColumnTwice          // `.str` on two columns named "all_columns_in_one"
    | ValueColumnClash        // `melt` into "value" beside a column of that name
    | ValueNotText            // `.str` on a value column that holds no text

  datatype Result<T> = Ok(value: T) | Err(error: CleanError)

  /** The names the split key is assigned to: unit, sex, age, region. */
  const KeyFieldCount: nat := 4

  /** The names line 36 writes the key's pieces to. */
  predicate IsKeyField(name: string) {
    name == "unit" || name == "sex" || name == "age" || name == "region"
  }

  /** The label line 35 gives the key column. */
  const KeyColumnName: string := "all_columns_in_one"

  /** The column `melt` writes the cells to (its default `value_name`). */
  const ValueColumnName: string := "value"

  // ---------------------------------------------------------------------
  // Step 1: split the composite key column
  // ---------------------------------------------------------------------

  /** How many pieces `str.split(",")` cuts a key into; a missing key gives
      no pieces at all. */
  function PieceCount(key: Cell): nat {
    match key
    case None => 0
    case Some(s) => |Split(s, ',')|
  }

  /** Column `k` of `str.split(",", expand=True)` for one key: its `k`-th
      piece, or a missing cell for a key with fewer pieces. */
  function Piece(key: Cell, k: nat): Cell {
    match key
    case None => None
    case Some(s) =>
      var parts := Split(s, ',');
      if k < |parts| then Some(parts[k]) else None
  }

  /** The number of columns `str.split(",", expand=True)` produces: the
      largest piece count of any key, or 0 for no keys. */
  function Widest(keys: seq<Cell>): (w: nat)
    ensures forall i :: 0 <= i < |keys| ==> PieceCount(keys[i]) <= w
    ensures w == 0 || exists i :: 0 <= i < |keys| && PieceCount(keys[i]) == w
  {
    if keys == [] then 0
    else
      var rest := Widest(keys[1..]);
      assert forall i :: 1 <= i < |keys| ==> keys[i] == keys[1..][i - 1];
      if PieceCount(keys[0]) >= rest then PieceCount(keys[0]) else rest
  }

  /** The composite key column, the first of the table. */
  function Keys(t: Table): (keys: seq<Cell>)
    requires Rectangular(t) && |t.columns| > 0
    ensures |keys| == |t.rows|
    ensures forall i :: 0 <= i < |t.rows| ==> keys[i] == t.rows[i][0]
  {
    seq(|t.rows|, i requires 0 <= i < |t.rows| => t.rows[i][0])
  }

  /** The indices, among the first `n` labels, of the year columns: every
      column after the key whose label is none of the four names. Line 36
      writes the pieces over a column that already has one of those names,
      and `melt` then takes it as an id column. In table order. */
  function YearColumns(labels: seq<string>, n: nat): (js: seq<nat>)
    requires n <= |labels|
    ensures forall k :: 0 <= k < |js| ==> 0 < js[k] < n && !IsKeyField(labels[js[k]])
    ensures forall k, l :: 0 <= k < l < |js| ==> js[k] < js[l]
    ensures forall j :: 0 < j < n && !IsKeyField(labels[j]) ==> j in js
  {
    if n <= 1 then []
    else
      var js := YearColumns(labels, n - 1);
      if !IsKeyField(labels[n - 1]) then js + [n - 1] else js
  }

  /** The year columns of the table. */
  function Years(t: Table): seq<nat> {
    YearColumns(t.columns, |t.columns|)
  }

  /** Column `j` is a year column: it follows the key and line 36 does not
      write over it. */
  predicate YearColumn(t: Table, j: int) {
    0 < j < |t.columns| && !IsKeyField(t.columns[j])
  }

  /** The labels of the year columns, in table order. */
  function YearLabels(t: Table): (labels: seq<string>)
    ensures |labels| == |Years(t)|
  {
    var js := Years(t);
    seq(|js|, c requires 0 <= c < |js| => t.columns[js[c]])
  }

  /** Row `i` after the split: the four key columns, then the cells of the
      year columns; the key column is dropped and a column written over by
      line 36 is one of the four. */
  function SplitRow(t: Table, i: nat): KeyedRow
    requires Rectangular(t) && |t.columns| > 0 && i < |t.rows|
  {
    var row, js := t.rows[i], Years(t);
    var key := row[0];
    KeyedRow(Piece(key, 0), Piece(key, 1), Piece(key, 2), Piece(key, 3),
             seq(|js|, c requires 0 <= c < |js| => row[js[c]]))
  }

  /** Lines 34-37: rename the first column, assign its split to the four
      names, drop it. When a later column already bears the key column's new
      name, `life_exp.all_columns_in_one` is a frame of two columns and has
      no `.str`. The assignment raises unless the split has exactly four
      columns, that is unless the widest key has exactly four pieces. */
  function SplitKeys(t: Table): (r: Result<seq<KeyedRow>>)
    requires Rectangular(t)
    ensures r.Ok? ==> |t.columns| > 0 && |r.value| == |t.rows|
    ensures r.Ok? ==> forall i :: 0 <= i < |t.rows| ==> r.value[i] == SplitRow(t, i)
    ensures r.Ok? ==> forall i :: 0 <= i < |t.rows| ==> |r.value[i].cells| == |Years(t)|
  {
    if |t.columns| == 0 then Err(NoColumns)
    else if KeyColumnName in t.columns[1..] then Err(KeyColumnTwice)
    else
      var keys := Keys(t);
      var w := Widest(keys);
      if w != KeyFieldCount then Err(KeyWidth(w))
      else Ok(seq(|t.rows|, i requires 0 <= i < |t.rows| => SplitRow(t, i)))
  }

  /** The split succeeds exactly when the table has a column, no later
      column bears the key column's new name, no key has more than four
      pieces and some key has exactly four. */
  lemma {:induction false} SplitKeysSucceeds(t: Table)
    requires Rectangular(t)
    ensures SplitKeys(t).Ok? <==>
      && |t.columns| > 0
      && KeyColumnName !in t.columns[1..]
      && (forall i :: 0 <= i < |t.rows| ==> PieceCount(t.rows[i][0]) <= KeyFieldCount)
      && (exists i :: 0 <= i < |t.rows| && PieceCount(t.rows[i][0]) == KeyFieldCount)
  {
    if |t.columns| > 0 {
      var keys := Keys(t);
      assert forall i :: 0 <= i < |t.rows| ==> PieceCount(keys[i]) == PieceCount(t.rows[i][0]);
    }
  }

  /** A key with exactly four pieces fills the four fields with non-missing
      texts free of commas that, joined with commas, give back the key; a
      key with fewer pieces leaves the region missing. */
  lemma {:induction false} KeyFields(key: Cell)
    requires PieceCount(key) <= KeyFieldCount
    ensures PieceCount(key) == KeyFieldCount ==>
      && Piece(key, 0).Some? && Piece(key, 1).Some? && Piece(key, 2).Some? && Piece(key, 3).Some?
      && Join([Piece(key, 0).value, Piece(key, 1).value, Piece(key, 2).value, Piece(key, 3).value], ',') == key.value
      && ',' !in Piece(key, 0).value && ',' !in Piece(key, 1).value
      && ',' !in Piece(key, 2).value && ',' !in Piece(key, 3).value
    ensures PieceCount(key) < KeyFieldCount ==> Piece(key, 3) == None
  {
    if key.Some? {
      var parts := Split(key.value, ',');
      JoinSplit(key.value, ',');
      SplitPieces(key.value, ',');
      if |parts| == 4 {
        assert parts == [parts[0], parts[1], parts[2], parts[3]];
      }
    }
  }

  // ---------------------------------------------------------------------
  // Step 2: keep the rows of the requested region
  // ---------------------------------------------------------------------

  /** Line 40: `life_exp.loc[life_exp["region"] == region]`; a missing
      region never equals the requested text. */
  function SelectRegion(rows: seq<KeyedRow>, region: string): (r: seq<KeyedRow>)
    ensures forall i :: 0 <= i < |r| ==> r[i].region == Some(region) && r[i] in rows
    ensures forall i :: 0 <= i < |rows| && rows[i].region == Some(region) ==> rows[i] in r
  {
    Filter(rows, (row: KeyedRow) => row.region == Some(region))
  }

  /** The filter keeps relative order: selecting from two tables one after
      the other is selecting from their concatenation; and it is idempotent. */
  lemma {:induction false} SelectRegionOrder(a: seq<KeyedRow>, b: seq<KeyedRow>, region: string)
    ensures SelectRegion(a + b, region) == SelectRegion(a, region) + SelectRegion(b, region)
    ensures SelectRegion(SelectRegion(a, region), region) == SelectRegion(a, region)
  {
    FilterAppend(a, b, (row: KeyedRow) => row.region == Some(region));
    FilterIdempotent(a, (row: KeyedRow) => row.region == Some(region));
  }

  /** After a successful split every row that survives the region filter
      had a four-piece key, so none of its id fields is missing. */
  lemma {:induction false} SelectedFieldsPresent(t: Table, region: string)
    requires Rectangular(t) && SplitKeys(t).Ok?
    ensures forall i :: 0 <= i < |SelectRegion(SplitKeys(t).value, region)| ==>
      var row := SelectRegion(SplitKeys(t).value, region)[i];
      row.unit.Some? && row.sex.Some? && row.age.Some? && row.region == Some(region)
  {
    var keyed := SplitKeys(t).value;
    var sel := SelectRegion(keyed, region);
    SplitKeysSucceeds(t);
    forall i | 0 <= i < |sel|
      ensures sel[i].unit.Some? && sel[i].sex.Some? && sel[i].age.Some?
    {
      var k :| 0 <= k < |keyed| && keyed[k] == sel[i];
      var key := t.rows[k][0];
      KeyFields(key);
    }
  }

  // ---------------------------------------------------------------------
  // Step 3: unpivot the year columns
  // ---------------------------------------------------------------------

  /** Every row has at least `n` year cells. */
  predicate CellsCover(rows: seq<KeyedRow>, n: nat) {
    forall i :: 0 <= i < |rows| ==> n <= |rows[i].cells|
  }

  /** The melted row for one cell: the row's id fields, the column's label,
      the cell's value. */
  function Melt(row: KeyedRow, year: string, value: Cell): LongRow {
    LongRow(row.unit, row.sex, row.age, row.region, year, value)
  }

  /** The melted rows of year column `j`, in row order. */
  function Column(rows: seq<KeyedRow>, year: string, j: nat): (c: seq<LongRow>)
    requires CellsCover(rows, j + 1)
    ensures |c| == |rows|
    ensures forall i :: 0 <= i < |rows| ==> c[i] == Melt(rows[i], year, rows[i].cells[j])
  {
    seq(|rows|, i requires 0 <= i < |rows| => Melt(rows[i], year, rows[i].cells[j]))
  }

  /** Lines 43-47: `melt(id_vars=["unit", "sex", "age", "region"])`; every
      year column in turn contributes one row per table row. */
  function Unpivot(labels: seq<string>, rows: seq<KeyedRow>): seq<LongRow>
    requires CellsCover(rows, |labels|)
  {
    if labels == [] then []
    else
      var n := |labels| - 1;
      Unpivot(labels[..n], rows) + Column(rows, labels[n], n)
  }

  /** The melted table has one row per (year column, row) pair. */
  lemma {:induction false} UnpivotLength(labels: seq<string>, rows: seq<KeyedRow>)
    requires CellsCover(rows, |labels|)
    ensures |Unpivot(labels, rows)| == |labels| * |rows|
  {
    if labels != [] {
      var n := |labels| - 1;
      UnpivotLength(labels[..n], rows);
      MulSucc(n, |rows|);
    }
  }

  /** The position of row `r` of year column `c` in the melted table of
      `m` rows per column. */
  function Offset(c: nat, m: nat, r: nat): nat {
    if c == 0 then r else m + Offset(c - 1, m, r)
  }

  /** The offset is `c * m + r`. */
  lemma {:induction false} OffsetIs(c: nat, m: nat, r: nat)
    ensures Offset(c, m, r) == c * m + r
  {
    if c > 0 {
      OffsetIs(c - 1, m, r);
      MulSucc(c - 1, m);
    }
  }

  /** Row `r` of year column `c` sits at `c * |rows| + r` of the melted
      table and carries the id fields of row `r`, the label of column `c`
      and the cell at row `r`, column `c`. */
  lemma {:induction false} UnpivotAt(labels: seq<string>, rows: seq<KeyedRow>, c: nat, r: nat)
    requires CellsCover(rows, |labels|)
    requires c < |labels| && r < |rows|
    ensures Offset(c, |rows|, r) < |Unpivot(labels, rows)|
    ensures Unpivot(labels, rows)[Offset(c, |rows|, r)] == Melt(rows[r], labels[c], rows[r].cells[c])
  {
    var n := |labels| - 1;
    var m := |rows|;
    var prefix := Unpivot(labels[..n], rows);
    UnpivotLength(labels[..n], rows);
    UnpivotLength(labels, rows);
    MulSucc(n, m);
    OffsetIs(c, m, r);
    if c < n {
      UnpivotAt(labels[..n], rows, c, r);
      OffsetIs(c, m, r);
      assert labels[..n][c] == labels[c];
    }
  }

  lemma {:induction false} MulSucc(a: nat, m: nat)
    ensures (a + 1) * m == a * m + m
  {
  }

  /** Read the other way: every melted row is row `r` of some year column
      `c`, at position `c * |rows| + r`. */
  lemma {:induction false} UnpivotSource(labels: seq<string>, rows: seq<KeyedRow>, k: nat) returns (c: nat, r: nat)
    requires CellsCover(rows, |labels|)
    requires k < |Unpivot(labels, rows)|
    ensures c < |labels| && r < |rows| && k == Offset(c, |rows|, r)
    ensures Unpivot(labels, rows)[k] == Melt(rows[r], labels[c], rows[r].cells[c])
  {
    var n := |labels| - 1;
    var prefix := Unpivot(labels[..n], rows);
    UnpivotLength(labels[..n], rows);
    if k < |prefix| {
      c, r := UnpivotSource(labels[..n], rows, k);
      assert labels[..n][c] == labels[c];
    } else {
      c, r := n, k - |prefix|;
      OffsetIs(c, |rows|, r);
    }
  }

  // ---------------------------------------------------------------------
  // Step 4: the year label becomes an integer
  // ---------------------------------------------------------------------

  /** Whether `n` fits the 64-bit integers `astype(int)` produces. */
  predicate FitsInt64(n: int) {
    -0x8000_0000_0000_0000 <= n < 0x8000_0000_0000_0000
  }

  /** Line 50: `str.replace(" ", "")`, then `astype(int)`, which reads the
      label with `int()` and raises `OverflowError` when the number does not
      fit 64 bits. */
  function NormaliseYear(year: string): Option<int> {
    match ParseInt(Delete(year, IsBlank))
    case None => None
    case Some(n) => if FitsInt64(n) then Some(n) else None
  }

  /** A label whose text without spaces is an integer's own text gives
      that integer when it fits 64 bits, and fails otherwise. */
  lemma {:induction false} NormaliseYearText(year: string, n: int)
    requires Delete(year, IsBlank) == IntText(n)
    ensures NormaliseYear(year) == if FitsInt64(n) then Some(n) else None
  {
    ParseIntText(n);
  }

  /** A label that is an integer's text followed by spaces, as the labels
      of the raw file are, gives that integer when it fits 64 bits. */
  lemma {:induction false} SpacedYearLabel(n: int, pad: string)
    requires forall i :: 0 <= i < |pad| ==> IsBlank(pad[i])
    ensures NormaliseYear(IntText(n) + pad) == if FitsInt64(n) then Some(n) else None
  {
    var digits := IntText(n);
    DeleteAppend(digits, pad, IsBlank);
    DeleteNothing(digits, IsBlank);
    DeleteAll(pad, IsBlank);
    assert digits + "" == digits;
    NormaliseYearText(digits + pad, n);
  }

  /** A label that starts with a letter, such as the "geo" of the raw
      file's key heading, is no number once its spaces are gone, and makes
      the conversion fail. */
  lemma {:induction false} NonYearLabel(name: string)
    requires name != [] && IsAsciiLetter(name[0])
    ensures NormaliseYear(name) == None
  {
    var text := Delete(name, IsBlank);
    assert text == [name[0]] + Delete(name[1..], IsBlank);
    var trimmed := TrimStart(text);
    assert trimmed == text;
    var stripped := Strip(text);
    assert stripped != [] && stripped[0] == name[0];
  }

  /** A melted row with its year converted to `y`. */
  function Dated(row: LongRow, y: int): Record {
    Record(row.unit, row.sex, row.age, row.region, y, row.value)
  }

  /** The `year` column converted row by row with `parse` (in `Clean`,
      `NormaliseYear`); `astype(int)` raises for the whole column as soon as
      one label does not parse. */
  function ConvertYears(rows: seq<LongRow>, parse: string -> Option<int>): Result<seq<Record>> {
    if rows == [] then Ok([])
    else
      match parse(rows[0].year)
      case None => Err(BadYear(rows[0].year))
      case Some(y) =>
        match ConvertYears(rows[1..], parse)
        case Err(e) => Err(e)
        case Ok(rest) => Ok([Dated(rows[0], y)] + rest)
  }

  /** The conversion succeeds exactly when every label parses; then row `i`
      keeps every field of melted row `i` and carries its parsed year, and
      otherwise the error names a label that does not parse. */
  lemma {:induction false} ConvertYearsSpec(rows: seq<LongRow>, parse: string -> Option<int>)
    ensures ConvertYears(rows, parse).Ok? <==>
      forall i :: 0 <= i < |rows| ==> parse(rows[i].year).Some?
    ensures ConvertYears(rows, parse).Ok? ==> |ConvertYears(rows, parse).value| == |rows|
    ensures ConvertYears(rows, parse).Ok? ==> forall i :: 0 <= i < |rows| ==>
      ConvertYears(rows, parse).value[i] == Dated(rows[i], parse(rows[i].year).value)
    ensures ConvertYears(rows, parse).Err? ==>
      (exists i :: 0 <= i < |rows| && parse(rows[i].year).None? &&
                   ConvertYears(rows, parse).error == BadYear(rows[i].year))
  {
    if rows != [] {
      var tail := rows[1..];
      ConvertYearsSpec(tail, parse);
      assert forall i :: 1 <= i < |rows| ==> rows[i] == tail[i - 1];
      if parse(rows[0].year).Some? && ConvertYears(tail, parse).Err? {
        var i :| 0 <= i < |tail| && parse(tail[i].year).None? &&
                 ConvertYears(tail, parse).error == BadYear(tail[i].year);
        assert rows[i + 1] == tail[i];
      }
    }
  }

  // ---------------------------------------------------------------------
  // Step 5: strip annotations from the value; ":" means missing
  // ---------------------------------------------------------------------

  /** The characters `[a-zA-Z\s]` matches. */
  predicate IsAnnotation(c: char) {
    IsAsciiLetter(c) || IsSpace(c)
  }

  /** Lines 53-54: delete every ASCII letter and whitespace character, then
      replace the text ":" by a missing value. What is left is never ":" and
      holds no letter and no whitespace; a missing cell stays missing. */
  function NormaliseValue(c: Cell): (r: Cell)
    ensures c.None? ==> r.None?
    ensures r.Some? ==> r.value != ":"
    ensures r.Some? ==> forall i :: 0 <= i < |r.value| ==> !IsAnnotation(r.value[i])
    ensures c.Some? ==> (r.None? <==> Delete(c.value, IsAnnotation) == ":")
  {
    match c
    case None => None
    case Some(s) =>
      var t := Delete(s, IsAnnotation);
      if t == ":" then None else Some(t)
  }

  /** A value followed by a flag made of letters and spaces, as in
      "72.3 e", loses the flag (and the space before it). */
  lemma {:induction false} FlaggedValue(v: string, flag: string)
    requires v != ":" && forall i :: 0 <= i < |v| ==> !IsAnnotation(v[i])
    requires forall i :: 0 <= i < |flag| ==> IsAnnotation(flag[i])
    ensures NormaliseValue(Some(v + flag)) == Some(v)
  {
    DeleteAppend(v, flag, IsAnnotation);
    DeleteNothing(v, IsAnnotation);
    DeleteAll(flag, IsAnnotation);
    assert v + "" == v;
  }

  /** The marker ":" of a missing observation, followed by any flag of
      letters and spaces or by none, becomes a missing cell, which the
      conversion accepts. */
  lemma {:induction false} MissingMarker(flag: string)
    requires forall i :: 0 <= i < |flag| ==> IsAnnotation(flag[i])
    ensures NormaliseValue(Some(":" + flag)) == None
    ensures ValueParses(Some(":" + flag))
  {
    var colon := ":";
    DeleteAppend(colon, flag, IsAnnotation);
    DeleteNothing(colon, IsAnnotation);
    DeleteAll(flag, IsAnnotation);
    assert colon + "" == colon;
  }

  /** A flag with no number, such as "e", leaves the empty text, on which
      `float()` raises, so a table holding it cannot be cleaned. */
  lemma {:induction false} BareFlag(flag: string)
    requires forall i :: 0 <= i < |flag| ==> IsAnnotation(flag[i])
    ensures NormaliseValue(Some(flag)) == Some("")
    ensures !ValueParses(Some(flag))
  {
    DeleteAll(flag, IsAnnotation);
    assert !IsFloatText("") by {
      assert Strip("") == "" && Unsigned("") == "" && IndexOf("", '.') == 0;
    }
  }

  /** A value with nothing to delete, such as the doubled marker "::", is
      left as it is unless it is the marker itself, and is then accepted
      exactly when `float()` reads it as a number. */
  lemma {:induction false} PlainValue(v: string)
    requires forall i :: 0 <= i < |v| ==> !IsAnnotation(v[i])
    ensures NormaliseValue(Some(v)) == if v == ":" then None else Some(v)
    ensures v != ":" ==> (ValueParses(Some(v)) <==> IsFloatText(v))
  {
    DeleteNothing(v, IsAnnotation);
  }

  /** Normalising a normalised value changes nothing. */
  lemma {:induction false} NormaliseValueIdempotent(c: Cell)
    ensures NormaliseValue(NormaliseValue(c)) == NormaliseValue(c)
  {
    if c.Some? {
      DeleteIdempotent(c.value, IsAnnotation);
    }
  }

  /** Line 55: whether `astype(float)` accepts the normalised value. */
  predicate ValueParses(c: Cell) {
    var v := NormaliseValue(c);
    v.None? || IsFloatText(v.value)
  }

  /** The `value` column normalised row by row; `astype(float)` raises for
      the whole column as soon as one normalised value is not a number. */
  function ConvertValues(rows: seq<Record>): Result<seq<Record>> {
    if rows == [] then Ok([])
    else if !ValueParses(rows[0].value) then Err(BadValue(NormaliseValue(rows[0].value).value))
    else
      match ConvertValues(rows[1..])
      case Err(e) => Err(e)
      case Ok(rest) => Ok([rows[0].(value := NormaliseValue(rows[0].value))] + rest)
  }

  /** The conversion succeeds exactly when every normalised value parses;
      then row `i` keeps every field of row `i` but the value, which is
      normalised, and otherwise the error names a value that does not parse. */
  lemma {:induction false} ConvertValuesSpec(rows: seq<Record>)
    ensures ConvertValues(rows).Ok? <==>
      forall i :: 0 <= i < |rows| ==> ValueParses(rows[i].value)
    ensures ConvertValues(rows).Ok? ==> |ConvertValues(rows).value| == |rows|
    ensures ConvertValues(rows).Ok? ==> forall i :: 0 <= i < |rows| ==>
      ConvertValues(rows).value[i] == rows[i].(value := NormaliseValue(rows[i].value))
    ensures ConvertValues(rows).Err? ==>
      (exists i :: 0 <= i < |rows| && !ValueParses(rows[i].value) &&
                   ConvertValues(rows).error == BadValue(NormaliseValue(rows[i].value).value))
  {
    if rows != [] {
      ConvertValuesSpec(rows[1..]);
      assert forall i :: 1 <= i < |rows| ==> rows[i] == rows[1..][i - 1];
      if ValueParses(rows[0].value) && ConvertValues(rows[1..]).Err? {
        var i :| 0 <= i < |rows[1..]| && !ValueParses(rows[1..][i].value) &&
                 ConvertValues(rows[1..]).error == BadValue(NormaliseValue(rows[1..][i].value).value);
        assert rows[i + 1] == rows[1..][i];
      }
    }
  }

  // ---------------------------------------------------------------------
  // Step 6: drop the rows whose value is missing
  // ---------------------------------------------------------------------

  /** Line 56: `dropna(subset=["value"])`; the rows kept are unchanged and in
      their original order. */
  function DropMissing(rows: seq<Record>): (r: seq<Record>)
    ensures forall i :: 0 <= i < |r| ==> r[i].value.Some? && r[i] in rows
    ensures forall i :: 0 <= i < |rows| && rows[i].value.Some? ==> rows[i] in r
  {
    Filter(rows, (row: Record) => row.value.Some?)
  }

  /** The drop keeps the surviving rows in their order: dropping from two
      tables one after the other is dropping from their concatenation; and
      a table without missing values is left as it is. */
  lemma {:induction false} DropMissingOrder(a: seq<Record>, b: seq<Record>)
    ensures DropMissing(a + b) == DropMissing(a) + DropMissing(b)
    ensures (forall i :: 0 <= i < |a| ==> a[i].value.Some?) ==> DropMissing(a) == a
  {
    FilterAppend(a, b, (row: Record) => row.value.Some?);
    if forall i :: 0 <= i < |a| ==> a[i].value.Some? {
      FilterKeepsAll(a, (row: Record) => row.value.Some?);
    }
  }

  // ---------------------------------------------------------------------
  // The whole transformation
  // ---------------------------------------------------------------------

  /** The rows of `region` after a successful split (line 40). */
  function Selected(t: Table, region: string): (sel: seq<KeyedRow>)
    requires Rectangular(t) && SplitKeys(t).Ok?
    ensures CellsCover(sel, |Years(t)|)
  {
    SelectRegion(SplitKeys(t).value, region)
  }

  /** The melted table of the selected rows (lines 43-47). */
  function Melted(t: Table, region: string): seq<LongRow>
    requires Rectangular(t) && SplitKeys(t).Ok?
  {
    Unpivot(YearLabels(t), Selected(t, region))
  }

  /** Lines 33-56 of `clean_data`, from the loaded table to the cleaned one;
      `region` is the requested code. `melt` (lines 43-47) refuses to write
      the cells to "value" when a column of that name is among those it
      melts. A table without year columns melts into an empty value column
      of floats, on which the `.str` accessor of line 53 raises. */
  function Clean(t: Table, region: string): Result<seq<Record>>
    requires Rectangular(t)
  {
    match SplitKeys(t)
    case Err(e) => Err(e)
    case Ok(_) =>
      if ValueColumnName in t.columns[1..] then Err(ValueColumnClash)
      else
      match ConvertYears(Melted(t, region), NormaliseYear)
      case Err(e) => Err(e)
      case Ok(dated) =>
        if |Years(t)| == 0 then Err(ValueNotText)
        else
          match ConvertValues(dated)
          case Err(e) => Err(e)
          case Ok(valued) => Ok(DropMissing(valued))
  }

  // ---------------------------------------------------------------------
  // What the whole transformation promises, in terms of the raw table
  // ---------------------------------------------------------------------

  /** Raw row `i` has `region` as the fourth piece of its key. */
  predicate InRegion(t: Table, i: nat, region: string)
    requires Rectangular(t) && |t.columns| > 0 && i < |t.rows|
  {
    Piece(t.rows[i][0], 3) == Some(region)
  }

  /** The year a column name gives; only ever read for one that parses. */
  function YearOf(name: string): int {
    match NormaliseYear(name)
    case Some(y) => y
    case None => 0
  }

  /** The cleaned row that raw row `i` and year column `j` give: the key's
      four pieces, the column's year, the cell's normalised value. */
  function Observation(t: Table, i: nat, j: nat): Record
    requires Rectangular(t) && i < |t.rows| && 0 < j < |t.columns|
  {
    var key := t.rows[i][0];
    Record(Piece(key, 0), Piece(key, 1), Piece(key, 2), Piece(key, 3),
           YearOf(t.columns[j]), NormaliseValue(t.rows[i][j]))
  }

  /** Each selected row is the split of a raw row of the region. */
  lemma {:induction false} SelectedFrom(t: Table, region: string, r: nat) returns (i: nat)
    requires Rectangular(t) && SplitKeys(t).Ok? && r < |Selected(t, region)|
    ensures i < |t.rows| && InRegion(t, i, region)
    ensures Selected(t, region)[r] == SplitRow(t, i)
  {
    var keyed := SplitKeys(t).value;
    i :| 0 <= i < |keyed| && keyed[i] == Selected(t, region)[r];
  }

  /** Each raw row of the region is selected. */
  lemma {:induction false} SelectedHas(t: Table, region: string, i: nat) returns (r: nat)
    requires Rectangular(t) && SplitKeys(t).Ok?
    requires i < |t.rows| && InRegion(t, i, region)
    ensures r < |Selected(t, region)| && Selected(t, region)[r] == SplitRow(t, i)
  {
    var keyed := SplitKeys(t).value;
    assert keyed[i] == SplitRow(t, i);
    r :| 0 <= r < |Selected(t, region)| && Selected(t, region)[r] == keyed[i];
  }

  /** Cell `c` of a split row is the raw cell of the `c`-th year column,
      whose label is the `c`-th year label. */
  lemma {:induction false} MeltRaw(t: Table, i: nat, c: nat)
    requires Rectangular(t) && |t.columns| > 0 && i < |t.rows| && c < |Years(t)|
    ensures YearColumn(t, Years(t)[c])
    ensures SplitRow(t, i).cells[c] == t.rows[i][Years(t)[c]]
    ensures YearLabels(t)[c] == t.columns[Years(t)[c]]
  {
  }

  /** Melted row `p` comes from raw row `i` of the region and year column `j`. */
  lemma {:induction false} MeltedFrom(t: Table, region: string, p: nat) returns (i: nat, j: nat)
    requires Rectangular(t) && SplitKeys(t).Ok? && p < |Melted(t, region)|
    ensures i < |t.rows| && YearColumn(t, j) && InRegion(t, i, region)
    ensures Melted(t, region)[p] == Melt(SplitRow(t, i), t.columns[j], t.rows[i][j])
  {
    var sel := Selected(t, region);
    var c, r := UnpivotSource(YearLabels(t), sel, p);
    i := SelectedFrom(t, region, r);
    j := Years(t)[c];
    MeltRaw(t, i, c);
  }

  /** Raw row `i` of the region and year column `j` give melted row `p`. */
  lemma {:induction false} MeltedHas(t: Table, region: string, i: nat, j: nat) returns (p: nat)
    requires Rectangular(t) && SplitKeys(t).Ok?
    requires i < |t.rows| && YearColumn(t, j) && InRegion(t, i, region)
    ensures p < |Melted(t, region)|
    ensures Melted(t, region)[p] == Melt(SplitRow(t, i), t.columns[j], t.rows[i][j])
  {
    var sel := Selected(t, region);
    var labels := YearLabels(t);
    var r := SelectedHas(t, region, i);
    var c :| 0 <= c < |Years(t)| && Years(t)[c] == j;
    MeltRaw(t, i, c);
    UnpivotAt(labels, sel, c, r);
    p := Offset(c, |sel|, r);
  }

  /** `clean_data` returns a table exactly when the key splits into four
      columns, the table has a year column and none named "value", and,
      should any row belong to the region, every year label parses and
      every cell of the region's rows normalises to a missing value or a
      number. An unknown region therefore gives a table, never an error,
      once the table passes the checks on its shape. */
  lemma {:induction false} CleanSucceeds(t: Table, region: string)
    requires Rectangular(t)
    ensures Clean(t, region).Ok? <==>
      && SplitKeys(t).Ok?
      && ValueColumnName !in t.columns[1..]
      && |Years(t)| > 0
      && ((forall i :: 0 <= i < |t.rows| ==> !InRegion(t, i, region)) ||
          (forall j :: YearColumn(t, j) ==> NormaliseYear(t.columns[j]).Some?))
      && (forall i, j :: 0 <= i < |t.rows| && YearColumn(t, j) && InRegion(t, i, region) ==>
            ValueParses(t.rows[i][j]))
  {
    if SplitKeys(t).Ok? {
      YearsParse(t, region);
      var long := Melted(t, region);
      ConvertYearsSpec(long, NormaliseYear);
      if ConvertYears(long, NormaliseYear).Ok? {
        var dated := ConvertYears(long, NormaliseYear).value;
        ValuesParse(t, region, dated);
        ConvertValuesSpec(dated);
      }
    }
  }

  /** All melted years parse exactly when no row is of the region or every
      year label parses. */
  lemma {:induction false} YearsParse(t: Table, region: string)
    requires Rectangular(t) && SplitKeys(t).Ok?
    ensures (forall p :: 0 <= p < |Melted(t, region)| ==> NormaliseYear(Melted(t, region)[p].year).Some?) <==>
      ((forall i :: 0 <= i < |t.rows| ==> !InRegion(t, i, region)) ||
       (forall j :: YearColumn(t, j) ==> NormaliseYear(t.columns[j]).Some?))
  {
    var long := Melted(t, region);
    if forall p :: 0 <= p < |long| ==> NormaliseYear(long[p].year).Some? {
      if exists i :: 0 <= i < |t.rows| && InRegion(t, i, region) {
        var i :| 0 <= i < |t.rows| && InRegion(t, i, region);
        forall j | YearColumn(t, j) ensures NormaliseYear(t.columns[j]).Some? {
          var p := MeltedHas(t, region, i, j);
        }
      }
    } else {
      var p :| 0 <= p < |long| && NormaliseYear(long[p].year).None?;
      var i, j := MeltedFrom(t, region, p);
    }
  }

  /** All melted values parse exactly when every cell of the region's rows
      in a year column does. */
  lemma {:induction false} ValuesParse(t: Table, region: string, dated: seq<Record>)
    requires Rectangular(t) && SplitKeys(t).Ok?
    requires ConvertYears(Melted(t, region), NormaliseYear) == Ok(dated)
    ensures (forall p :: 0 <= p < |dated| ==> ValueParses(dated[p].value)) <==>
      (forall i, j :: 0 <= i < |t.rows| && YearColumn(t, j) && InRegion(t, i, region) ==>
         ValueParses(t.rows[i][j]))
  {
    var long := Melted(t, region);
    ConvertYearsSpec(long, NormaliseYear);
    if forall p :: 0 <= p < |dated| ==> ValueParses(dated[p].value) {
      forall i, j | 0 <= i < |t.rows| && YearColumn(t, j) && InRegion(t, i, region)
        ensures ValueParses(t.rows[i][j])
      {
        var p := MeltedHas(t, region, i, j);
        assert dated[p].value == long[p].value;
      }
    } else {
      var p :| 0 <= p < |dated| && !ValueParses(dated[p].value);
      var i, j := MeltedFrom(t, region, p);
      assert dated[p].value == long[p].value;
    }
  }

  /** With the key split, a region no row belongs to gives an empty table,
      whatever the year labels and the cells hold, once the table has a year
      column and none named "value"; otherwise `melt` or line 53 raises. */
  lemma {:induction false} CleanUnknownRegion(t: Table, region: string)
    requires Rectangular(t) && SplitKeys(t).Ok?
    requires forall i :: 0 <= i < |t.rows| ==> !InRegion(t, i, region)
    ensures Clean(t, region) ==
      if ValueColumnName in t.columns[1..] then Err(ValueColumnClash)
      else if |Years(t)| == 0 then Err(ValueNotText)
      else Ok([])
  {
    if |Selected(t, region)| > 0 {
      var i := SelectedFrom(t, region, 0);
    }
    UnpivotLength(YearLabels(t), Selected(t, region));
    assert Melted(t, region) == [];
  }

  /** A table without year columns, whose every column after the key is
      overwritten by line 36, fails at line 53 for every region, once its
      keys split. */
  lemma {:induction false} CleanKeysOnly(t: Table, region: string)
    requires Rectangular(t) && SplitKeys(t).Ok? && |Years(t)| == 0
    ensures Clean(t, region) == Err(ValueNotText)
  {
    UnpivotLength(YearLabels(t), Selected(t, region));
    assert Melted(t, region) == [];
  }

  /** Row `k` of the cleaned table is the observation of a raw row `i` of the
      region and a year column `j` whose normalised value is present: its id
      fields are the key's pieces, its year the column's parsed label, its
      value the cell's normalised text. */
  lemma {:induction false} CleanRowSource(t: Table, region: string, k: nat) returns (i: nat, j: nat)
    requires Rectangular(t) && Clean(t, region).Ok? && k < |Clean(t, region).value|
    ensures i < |t.rows| && YearColumn(t, j) && InRegion(t, i, region)
    ensures NormaliseYear(t.columns[j]).Some? && NormaliseValue(t.rows[i][j]).Some?
    ensures Clean(t, region).value[k] == Observation(t, i, j)
  {
    var long := Melted(t, region);
    ConvertYearsSpec(long, NormaliseYear);
    var dated := ConvertYears(long, NormaliseYear).value;
    ConvertValuesSpec(dated);
    var valued := ConvertValues(dated).value;
    var out := Clean(t, region).value;
    assert out == DropMissing(valued);
    var q :| 0 <= q < |valued| && valued[q] == out[k];
    i, j := MeltedFrom(t, region, q);
  }

  /** Conversely every raw row `i` of the region and year column `j` whose
      cell normalises to a present value gives its observation in the cleaned
      table. */
  lemma {:induction false} CleanCovers(t: Table, region: string, i: nat, j: nat)
    requires Rectangular(t) && Clean(t, region).Ok?
    requires i < |t.rows| && YearColumn(t, j) && InRegion(t, i, region)
    requires NormaliseValue(t.rows[i][j]).Some?
    ensures NormaliseYear(t.columns[j]).Some?
    ensures Observation(t, i, j) in Clean(t, region).value
  {
    var long := Melted(t, region);
    ConvertYearsSpec(long, NormaliseYear);
    var dated := ConvertYears(long, NormaliseYear).value;
    ConvertValuesSpec(dated);
    var valued := ConvertValues(dated).value;
    var p := MeltedHas(t, region, i, j);
    assert valued[p] == Observation(t, i, j);
  }

  // ---------------------------------------------------------------------
  // The cleaned table row by row, in order
  // ---------------------------------------------------------------------

  /** The indices of the raw rows, among the first `n`, that belong to
      `region`, in table order. */
  function RegionRows(t: Table, region: string, n: nat): (rs: seq<nat>)
    requires Rectangular(t) && |t.columns| > 0 && n <= |t.rows|
    ensures forall k :: 0 <= k < |rs| ==> rs[k] < n && InRegion(t, rs[k], region)
    ensures forall k, l :: 0 <= k < l < |rs| ==> rs[k] < rs[l]
    ensures forall i :: 0 <= i < n && InRegion(t, i, region) ==> i in rs
  {
    if n == 0 then []
    else
      var rs := RegionRows(t, region, n - 1);
      if InRegion(t, n - 1, region) then rs + [n - 1] else rs
  }

  /** The indices of all raw rows of `region`, in table order. */
  function Regions(t: Table, region: string): seq<nat>
    requires Rectangular(t) && |t.columns| > 0
  {
    RegionRows(t, region, |t.rows|)
  }

  /** Selecting among the first `n` rows of `keyed`, whose row `i` is of
      the region exactly when raw row `i` is, keeps the rows the region's
      indices name, in table order. */
  lemma {:induction false} SelectedPrefix(t: Table, region: string, keyed: seq<KeyedRow>, n: nat)
    requires Rectangular(t) && |t.columns| > 0 && |keyed| == |t.rows| && n <= |t.rows|
    requires forall i :: 0 <= i < |keyed| ==> (keyed[i].region == Some(region) <==> InRegion(t, i, region))
    ensures |SelectRegion(keyed[..n], region)| == |RegionRows(t, region, n)|
    ensures forall k :: 0 <= k < |RegionRows(t, region, n)| ==>
      SelectRegion(keyed[..n], region)[k] == keyed[RegionRows(t, region, n)[k]]
  {
    if n > 0 {
      var row := keyed[n - 1];
      SelectedPrefix(t, region, keyed, n - 1);
      assert keyed[..n] == keyed[..n - 1] + [row];
      SelectRegionOrder(keyed[..n - 1], [row], region);
      assert SelectRegion([row], region) == if row.region == Some(region) then [row] else [] by {
        assert [row][1..] == [];
      }
    }
  }

  /** The selected rows are the splits of the region's rows, in table order. */
  lemma {:induction false} SelectedRows(t: Table, region: string)
    requires Rectangular(t) && SplitKeys(t).Ok?
    ensures |Selected(t, region)| == |Regions(t, region)|
    ensures forall k :: 0 <= k < |Regions(t, region)| ==>
      Selected(t, region)[k] == SplitRow(t, Regions(t, region)[k])
  {
    var keyed := SplitKeys(t).value;
    SelectedPrefix(t, region, keyed, |t.rows|);
    assert keyed[..|t.rows|] == keyed;
  }

  /** Rows `rs` and columns `js` lie in the table. */
  predicate Observable(t: Table, rs: seq<nat>, js: seq<nat>) {
    && Rectangular(t)
    && (forall k :: 0 <= k < |rs| ==> rs[k] < |t.rows|)
    && (forall c :: 0 <= c < |js| ==> 0 < js[c] < |t.columns|)
  }

  /** The observations of rows `rs` in column `j`, in the order of `rs`. */
  function ObservationColumn(t: Table, rs: seq<nat>, j: nat): (o: seq<Record>)
    requires Rectangular(t) && (forall k :: 0 <= k < |rs| ==> rs[k] < |t.rows|)
    requires 0 < j < |t.columns|
    ensures |o| == |rs|
    ensures forall k :: 0 <= k < |rs| ==> o[k] == Observation(t, rs[k], j)
  {
    seq(|rs|, k requires 0 <= k < |rs| => Observation(t, rs[k], j))
  }

  /** A prefix of the columns is observable when the columns are. */
  lemma {:induction false} ObservablePrefix(t: Table, rs: seq<nat>, js: seq<nat>, n: nat)
    requires Observable(t, rs, js) && n < |js|
    ensures Observable(t, rs, js[..n])
  {
  }

  /** The observations of rows `rs` and year columns `js`, column by column
      and, within a column, in the order of `rs`. */
  function Observations(t: Table, rs: seq<nat>, js: seq<nat>): seq<Record>
    requires Observable(t, rs, js)
  {
    if js == [] then []
    else
      var n := |js| - 1;
      ObservablePrefix(t, rs, js, n);
      Observations(t, rs, js[..n]) + ObservationColumn(t, rs, js[n])
  }

  /** There is one observation per (column, row) pair. */
  lemma {:induction false} ObservationsLength(t: Table, rs: seq<nat>, js: seq<nat>)
    requires Observable(t, rs, js)
    ensures |Observations(t, rs, js)| == |js| * |rs|
  {
    if js != [] {
      var n := |js| - 1;
      ObservablePrefix(t, rs, js, n);
      ObservationsLength(t, rs, js[..n]);
      MulSucc(n, |rs|);
    }
  }

  /** The observation of row `r` of column `c` sits at `c * |rs| + r`. */
  lemma {:induction false} ObservationsAt(t: Table, rs: seq<nat>, js: seq<nat>, c: nat, r: nat)
    requires Observable(t, rs, js) && c < |js| && r < |rs|
    ensures Offset(c, |rs|, r) < |Observations(t, rs, js)|
    ensures Observations(t, rs, js)[Offset(c, |rs|, r)] == Observation(t, rs[r], js[c])
  {
    var n := |js| - 1;
    var m := |rs|;
    ObservablePrefix(t, rs, js, n);
    var prefix := Observations(t, rs, js[..n]);
    var column := ObservationColumn(t, rs, js[n]);
    assert Observations(t, rs, js) == prefix + column;
    ObservationsLength(t, rs, js[..n]);
    OffsetIs(c, m, r);
    if c < n {
      ObservationsAt(t, rs, js[..n], c, r);
      assert js[..n][c] == js[c];
    } else {
      assert c == n && |prefix| == n * m;
      assert Offset(c, m, r) == |prefix| + r;
      assert column[r] == Observation(t, rs[r], js[c]);
    }
  }


  /** The cleaned table, in full and in order: the observations of the
      region's rows in the year columns, year column by year column and,
      within one, in table order, with those whose value is missing left
      out. Two identical raw rows give two identical cleaned rows. */
  lemma {:induction false} CleanOrder(t: Table, region: string)
    requires Rectangular(t) && Clean(t, region).Ok?
    ensures |t.columns| > 0
    ensures Observable(t, Regions(t, region), Years(t))
    ensures Regions(t, region) != [] ==>
      forall c :: 0 <= c < |Years(t)| ==> NormaliseYear(t.columns[Years(t)[c]]).Some?
    ensures Clean(t, region).value == DropMissing(Observations(t, Regions(t, region), Years(t)))
  {
    var rs, js := Regions(t, region), Years(t);
    CleanSucceeds(t, region);
    if rs != [] {
      assert InRegion(t, rs[0], region);
      forall c | 0 <= c < |js| ensures NormaliseYear(t.columns[js[c]]).Some? {
        MeltRaw(t, 0, c);
      }
    }
    ValuedObservations(t, region);
  }

  /** Once both conversions succeed, the converted melted table is the
      sequence of observations. */
  lemma {:induction false} ValuedObservations(t: Table, region: string)
    requires Rectangular(t) && SplitKeys(t).Ok?
    requires ConvertYears(Melted(t, region), NormaliseYear).Ok?
    requires ConvertValues(ConvertYears(Melted(t, region), NormaliseYear).value).Ok?
    ensures Observable(t, Regions(t, region), Years(t))
    ensures ConvertValues(ConvertYears(Melted(t, region), NormaliseYear).value).value ==
      Observations(t, Regions(t, region), Years(t))
  {
    var rs, js := Regions(t, region), Years(t);
    var long := Melted(t, region);
    ConvertYearsSpec(long, NormaliseYear);
    var dated := ConvertYears(long, NormaliseYear).value;
    ConvertValuesSpec(dated);
    var valued := ConvertValues(dated).value;
    var obs := Observations(t, rs, js);
    SelectedRows(t, region);
    UnpivotLength(YearLabels(t), Selected(t, region));
    ObservationsLength(t, rs, js);
    forall p | 0 <= p < |valued| ensures valued[p] == obs[p] {
      ObservedAt(t, region, p);
    }
  }

  /** Melted row `p`, with its year and value converted, is the observation
      at position `p`. */
  lemma {:induction false} ObservedAt(t: Table, region: string, p: nat)
    requires Rectangular(t) && SplitKeys(t).Ok? && p < |Melted(t, region)|
    requires Observable(t, Regions(t, region), Years(t))
    requires ConvertYears(Melted(t, region), NormaliseYear).Ok?
    ensures p < |Observations(t, Regions(t, region), Years(t))|
    ensures Observations(t, Regions(t, region), Years(t))[p] ==
      var row := Melted(t, region)[p];
      Record(row.unit, row.sex, row.age, row.region,
             YearOf(row.year), NormaliseValue(row.value))
  {
    var rs, js := Regions(t, region), Years(t);
    var sel := Selected(t, region);
    SelectedRows(t, region);
    var c, r := UnpivotSource(YearLabels(t), sel, p);
    MeltRaw(t, rs[r], c);
    ObservationsAt(t, rs, js, c, r);
  }

  /** Every row of the cleaned table belongs to the requested region, has
      all four id fields, and has a present value that is not ":", holds no
      letter and no whitespace, is a number to `float()`, and is made of
      digits, signs, points and underscores only. */
  lemma {:induction false} CleanRecords(t: Table, region: string)
    requires Rectangular(t) && Clean(t, region).Ok?
    ensures forall k :: 0 <= k < |Clean(t, region).value| ==> RecordClean(Clean(t, region).value[k], region)
  {
    var out := Clean(t, region).value;
    SplitKeysSucceeds(t);
    forall k | 0 <= k < |out| ensures RecordClean(out[k], region) {
      var i, j := CleanRowSource(t, region, k);
      CleanSucceeds(t, region);
      KeyFields(t.rows[i][0]);
      FloatTextChars(NormaliseValue(t.rows[i][j]).value);
    }
  }

  /** What every cleaned row satisfies. */
  predicate RecordClean(o: Record, region: string) {
    && o.region == Some(region)
    && o.unit.Some? && o.sex.Some? && o.age.Some?
    && o.value.Some?
    && o.value.value != ":"
    && (forall c :: 0 <= c < |o.value.value| ==> !IsAnnotation(o.value.value[c]))
    && IsFloatText(o.value.value)
    && (forall c :: 0 <= c < |o.value.value| ==> IsDigit(o.value.value[c]) || o.value.value[c] in "+-._")
  }

  // ---------------------------------------------------------------------
  // clean_data, step by step
  // ---------------------------------------------------------------------

  /** `clean_data(region)` on the loaded table `raw`: the stages applied
      one after another to the working table, each step replacing it, and
      an error raised by a stage ending the call. */
  method CleanData(raw: Table, region: string) returns (result: Result<seq<Record>>)
    requires Rectangular(raw)
    ensures result == Clean(raw, region)
    ensures result.Ok? ==> forall k :: 0 <= k < |result.value| ==> RecordClean(result.value[k], region)
  {
    var keyed := SplitKeys(raw);
    if keyed.Err? {
      return Err(keyed.error);
    }
    var selected := SelectRegion(keyed.value, region);
    if ValueColumnName in raw.columns[1..] {
      return Err(ValueColumnClash);
    }
    var melted := Unpivot(YearLabels(raw), selected);
    var dated := ConvertYears(melted, NormaliseYear);
    if dated.Err? {
      return Err(dated.error);
    }
    if |Years(raw)| == 0 {
      return Err(ValueNotText);
    }
    var valued := ConvertValues(dated.value);
    if valued.Err? {
      return Err(valued.error);
    }
    result := Ok(DropMissing(valued.value));
    CleanRecords(raw, region);
  }
}
