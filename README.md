# Life expectancy cleaning, modelled in Dafny

This project models the core of a small batch pipeline that cleans a
Eurostat life-expectancy extract. Two parts are modelled.

- **`clean_data`** (`life_expectancy/cleaning.py`), from the loaded table to
  the cleaned one. The first column holds a composite key
  `unit,sex,age,geo`. It is split into four id columns and then dropped. The
  rows of one region are kept. The year columns, which are every other
  column not named after an id column, are unpivoted into one row per (row,
  year column). The year label becomes an integer. Annotation
  letters and whitespace are stripped from the value, and the marker `:`
  becomes a missing value. Values that are missing are dropped.
- **The region catalog** (`life_expectancy/countries.py`): the `Region`
  enumeration of 56 codes, and `Region.obtain_countries_list`, which keeps
  the 47 codes that are not aggregates, in declaration order.

Files:

- `seqs.dfy` (module `Seqs`): `Option`, an order-preserving `Filter`, `Map`,
  and generic lemmas about them.
- `pytext.dfy` (module `PyText`): the Python text operations the cleaning
  relies on. These are `str.split`, deleting characters (`str.replace` and the
  regular expression `[a-zA-Z\s]+`), the whitespace strip, and the texts
  `int()` and `float()` accept.
- `cleaning.dfy` (module `Cleaning`): each stage of `clean_data` as a
  function, `Clean` as their composition, the method `CleanData` that runs the
  stages one after another, and lemmas that relate the cleaned table back to
  the raw table.
- `cleaning_example.dfy` (module `CleaningExample`): a worked table with a
  Portuguese and a German row, cleaned for `PT`.
- `countries.dfy` (module `Countries`): the enumeration, its values, its
  declaration order, and `obtain_countries_list`.

A cell of the data frame is an `Option<string>`; `None` is pandas' missing
value. The cleaned value stays the normalised text that `float()` accepted.
`int()` and `float()` are modelled on texts whose digits are the ASCII
digits. `float()` is modelled only for texts without ASCII letters, and
normalised values never contain one. Both strip the whitespace Python
strips around a number, which is every `str.isspace()` character except
U+001C to U+001F. The year is an `int()` that must fit 64 bits, as
`astype(int)` requires. The float that Python builds from the value text
is not modelled.

The code behaves as follows at its edges, and the model does the same:

- A key with fewer than four pieces is not an error by itself.
  `str.split(",", expand=True)` pads short keys with missing cells. The
  assignment to the four names raises only when the widest key does not have
  exactly four pieces. A row with a short key has no region, so the region
  filter drops it (`SplitKeysSucceeds`, `KeyFields`).
- A value that is empty after normalisation (a bare flag such as `e`) is not
  dropped. `float("")` raises, so the whole call fails (`BareFlag`).
- A region code is not checked against the catalog. An unknown code yields
  an empty table, not an error (`CleanUnknownRegion`).
- A year label that does not parse fails the call only when some row
  belongs to the region. Otherwise the melted table is empty and nothing is
  converted (`CleanSucceeds`).
- A table without year columns fails, even when no row belongs to the
  region. `melt` turns it into an empty value column of floats, and the
  `.str` accessor at line 53 raises on it (`CleanKeysOnly`).
- A later column named `unit`, `sex`, `age` or `region` is overwritten by
  the key's piece at line 36, in place. `melt` then takes it as an id
  column, so it is no year column. Its own cells are lost, and its name is
  never read as a year (`YearColumns`, `OverwriteExample`).
- A later column named `all_columns_in_one` makes the key column's name
  ambiguous after the rename at line 35. `life_exp.all_columns_in_one` is then
  a frame of two columns, which has no `.str`, so line 36 raises for every
  region (`KeyColumnTwice`).
- A column named `value` makes `melt` at lines 43-47 raise, because the
  value column it writes would clash with it. This holds for every region
  (`ValueColumnClash`).

## Model

| member | source | states |
|---|---|---|
| `PyText.SplitPieces` | life_expectancy/cleaning.py:36 | no piece of `s.split(",")` contains the separator, and there is one piece more than there are separators |
| `PyText.JoinSplit` | life_expectancy/cleaning.py:36 | joining the pieces of a split with the separator gives back the key |
| `PyText.SplitJoin` | life_expectancy/cleaning.py:36 | splitting fields joined with commas gives back exactly those fields |
| `PyText.DeleteIdempotent` | life_expectancy/cleaning.py:53 | deleting a character class twice is deleting it once |
| `PyText.ParseIntText` | life_expectancy/cleaning.py:50 | `int()` reads every integer's own decimal text back as that integer |
| `PyText.ParseIntPadded` | life_expectancy/cleaning.py:50 | an integer's text followed by whitespace that `int()` strips, such as a tab, reads as that integer |
| `PyText.ParseIntSeparator` | life_expectancy/cleaning.py:50 | an integer's text followed by U+001C is no integer: `str.isspace()` holds for it, but `int()` does not strip it |
| `PyText.FloatTextChars` | life_expectancy/cleaning.py:55 | a letter-free, space-free text that `float()` accepts holds a digit, and otherwise only signs, points and underscores |
| `Cleaning.YearColumns` | life_expectancy/cleaning.py:34-47 | the year columns are exactly the columns after the key whose name is none of the four id names, in table order |
| `Cleaning.SplitKeys` | life_expectancy/cleaning.py:34-37 | on success every row becomes its key's four pieces in order (unit, sex, age, region) followed by the cells of its year columns; the key column and any column written over at line 36 are gone |
| `Cleaning.SplitKeysSucceeds` | life_expectancy/cleaning.py:35-36 | the split succeeds exactly when the table has a column, no later column is named `all_columns_in_one`, no key has more than four pieces and some key has exactly four |
| `Cleaning.KeyFields` | life_expectancy/cleaning.py:36 | a four-piece key fills all four fields with comma-free texts that join back to the key; a shorter key leaves the region missing |
| `Cleaning.SelectRegion` | life_expectancy/cleaning.py:40 | every kept row has the requested region, and every row with that region is kept |
| `Cleaning.SelectedRows` | life_expectancy/cleaning.py:36-40 | the selected rows are the splits of the raw rows of the region, in table order |
| `Cleaning.SelectRegionOrder` | life_expectancy/cleaning.py:40 | the region filter keeps relative order (it distributes over concatenation) and is idempotent |
| `Cleaning.SelectedFieldsPresent` | life_expectancy/cleaning.py:36-40 | after a successful split, every selected row has all four id fields present |
| `Cleaning.UnpivotLength` | life_expectancy/cleaning.py:43-47 | the melted table has (year columns) × (selected rows) rows |
| `Cleaning.UnpivotAt` | life_expectancy/cleaning.py:43-47 | row `r` of year column `c` is at position `c * rows + r` (column-major) and carries row `r`'s id fields, column `c`'s label and that cell |
| `Cleaning.UnpivotSource` | life_expectancy/cleaning.py:43-47 | every melted row is row `r` of some year column `c`, at position `c * rows + r`, with that row's fields and that cell |
| `Cleaning.MeltedFrom` | life_expectancy/cleaning.py:40-47 | every melted row comes from a raw row of the region and a year column of the raw table |
| `Cleaning.MeltedHas` | life_expectancy/cleaning.py:40-47 | every raw row of the region and every year column give a melted row |
| `Cleaning.NormaliseYearText` | life_expectancy/cleaning.py:50 | a label whose text without spaces is an integer's text gives that integer when it fits 64 bits, and fails otherwise |
| `Cleaning.SpacedYearLabel` | life_expectancy/cleaning.py:50 | a label that is an integer's text followed by spaces, such as `"2010 "`, gives that integer when it fits 64 bits, and fails otherwise |
| `Cleaning.NonYearLabel` | life_expectancy/cleaning.py:50 | a label that starts with a letter, such as `geo`, does not convert |
| `Cleaning.ConvertYearsSpec` | life_expectancy/cleaning.py:50 | the year conversion succeeds exactly when every label parses; then each row keeps its fields and gets its parsed year; otherwise the error names a label that does not parse |
| `Cleaning.NormaliseValue` | life_expectancy/cleaning.py:53-54 | the normalised value holds no ASCII letter and no whitespace, is never `":"`, and is missing exactly when the cell was missing or stripped to `":"` |
| `Cleaning.NormaliseValueIdempotent` | life_expectancy/cleaning.py:53-54 | normalising a normalised value changes nothing |
| `Cleaning.FlaggedValue` | life_expectancy/cleaning.py:53 | a value followed by a flag of letters and spaces loses the flag |
| `Cleaning.MissingMarker` | life_expectancy/cleaning.py:53-55 | `:` followed by any flag becomes a missing value, which the float conversion accepts |
| `Cleaning.BareFlag` | life_expectancy/cleaning.py:53-55 | a flag with no number normalises to the empty text, which the float conversion rejects |
| `Cleaning.PlainValue` | life_expectancy/cleaning.py:53-55 | a value with nothing to strip is kept as it is (unless it is `:`) and is accepted exactly when `float()` reads it |
| `Cleaning.ConvertValuesSpec` | life_expectancy/cleaning.py:53-55 | the value conversion succeeds exactly when every normalised value parses; then only the value of each row changes; otherwise the error names a value that does not parse |
| `Cleaning.DropMissing` | life_expectancy/cleaning.py:56 | every kept row has a value and is a row of the input; every row with a value is kept |
| `Cleaning.DropMissingOrder` | life_expectancy/cleaning.py:56 | the drop keeps the surviving rows in order and leaves a table without missing values unchanged |
| `Cleaning.CleanSucceeds` | life_expectancy/cleaning.py:33-56 | `clean_data` returns a table exactly when the key split succeeds, no column is named `value`, the table has a year column, the year labels parse (or no row is of the region), and every cell of the region's rows in a year column normalises to a missing value or a number |
| `Cleaning.CleanUnknownRegion` | life_expectancy/cleaning.py:40-56 | a region that no row belongs to gives an empty table, whatever the labels and cells hold, once the table has a year column and none named `value`; otherwise `melt` or line 53 raises |
| `Cleaning.CleanKeysOnly` | life_expectancy/cleaning.py:43-53 | a table without year columns fails at the `.str` accessor of line 53, for every region |
| `Cleaning.CleanRowSource` | life_expectancy/cleaning.py:33-56 | each cleaned row is the observation of a raw row of the region and a year column whose value is present: the key's pieces, the parsed year, the normalised value |
| `Cleaning.CleanCovers` | life_expectancy/cleaning.py:33-56 | each raw row of the region and year column whose value normalises to a present value gives its observation in the cleaned table |
| `Cleaning.ObservationsAt` | life_expectancy/cleaning.py:43-47 | the observations run column by column: that of row `r` of year column `c` is at `c * rows + r` |
| `Cleaning.CleanOrder` | life_expectancy/cleaning.py:33-56 | the cleaned table is exactly the observations of the region's rows in the year columns, year column by year column and in table order within one, with the missing values left out; identical raw rows give identical cleaned rows, each kept |
| `Cleaning.CleanRecords` | life_expectancy/cleaning.py:33-56 | every cleaned row has the requested region, all id fields, and a value that is not `:`, has no letter or whitespace, and is a number to `float()` |
| `Cleaning.CleanData` | life_expectancy/cleaning.py:33-56 | running the stages one after another gives `Clean`, and every cleaned row satisfies `RecordClean` |
| `CleaningExample.AnnotatedValueExample` | life_expectancy/cleaning.py:53 | `"72.3 e"` normalises to `"72.3"` |
| `CleaningExample.NotDecimalExample` | life_expectancy/cleaning.py:55 | `"::"` is no number to `float()` |
| `CleaningExample.OverwriteExample` | life_expectancy/cleaning.py:36-47 | a table with a column named `region` before its year column `2010`, cleaned for `PT`, gives the one observation of 2010; the overwritten column is not read as a year |
| `CleaningExample.CleanExample` | life_expectancy/tests/test_cleaning.py:16-19 | a table with a `PT` and a `DE` row, cleaned for `PT`, gives only the `PT` observation of 2011 with an integer year and a stripped value; the missing 2010 value is dropped |
| `Countries.ValueIsName` | life_expectancy/countries.py:11-66 | every member's value is its own name |
| `Countries.ValuesDistinct` | life_expectancy/countries.py:11-66 | no two members share a value |
| `Countries.FromValueOfValue` | life_expectancy/countries.py:11-66 | looking up a member's value finds that member |
| `Countries.ValueOfFromValue` | life_expectancy/countries.py:11-66 | a successful lookup finds a member whose value is the text looked up |
| `Countries.DeclaredOnce` | life_expectancy/countries.py:11-66 | the declaration lists 56 members, each exactly once, in order |
| `Countries.DeclaredValuesDistinct` | life_expectancy/countries.py:11-66 | the 56 values are pairwise distinct |
| `Countries.CountryPosition` | life_expectancy/countries.py:71-83 | a member passes the filter exactly when it is declared on lines 11-57 |
| `Countries.CountriesListIs` | life_expectancy/countries.py:68-83 | the list is the values of the 47 members declared on lines 11-57, in that order |
| `Countries.CountriesListNoAggregate` | life_expectancy/countries.py:71-83 | none of the nine aggregate codes is in the list |
| `Countries.CountriesListMembers` | life_expectancy/countries.py:83 | every element is the value of a `Region` member that is not an aggregate |
| `Countries.CountriesListComplete` | life_expectancy/countries.py:83 | a member's value is in the list exactly when the member is not an aggregate |
| `Countries.CountriesListOrder` | life_expectancy/countries.py:83 | the list follows the declaration order of the enumeration |
| `Countries.CountriesListDistinct` | life_expectancy/countries.py:83 | the list holds no value twice |

## Left out

- Reading the raw file (life_expectancy/cleaning.py:26-31), writing the CSV
  (line 59) and the command line (lines 64-68) are I/O and plumbing. The model
  takes the loaded table and the region as inputs and returns the cleaned
  table.
- `life_expectancy/load_save_data.py`, `life_expectancy/main.py` and
  `life_expectancy/find_countries.py` are not part of this model. They are
  file I/O through pandas and zipfile, and script orchestration.
- `PyText.ParseInt`: it reads ASCII digits only. Python's `int()` and
  `float()` also read every other Unicode decimal digit, so a year label
  such as `"٢٠١٠"` or a value such as `"٧٢.٣"` fails in the model but not in
  Python. The raw extract writes its numbers in ASCII digits.
- `astype(int)` is taken to produce 64-bit integers, as on Linux and with
  NumPy 2 everywhere. On Windows with NumPy 1.x it produces 32-bit integers,
  and the overflow bound would be lower.
- NumPy 1.x is assumed. Line 54 uses `np.NaN`, which NumPy 2.0 removed.
  Under NumPy 2, every call that reaches line 54 raises `AttributeError`
  there.
- pandas 2 is assumed for `melt`. It raises when a column is named `value`.
  pandas 1.x only warns and goes on.
- The type inference of `read_csv` is not modelled: every cell is text or
  missing. In pandas, a year column whose cells are all numbers is read as
  floats, and so is a year column with no cells at all. What happens next
  depends on whether some other year column holds text:
  - If one does, the melted value column holds objects. `.str.replace` then
    turns the float cells into missing values, and they are dropped.
  - If none does, the value column is all floats, and the `.str` accessor
    at line 53 raises.

  Neither case arises with the real extract, whose year columns all carry
  flags or `:`.
- Two columns with the same name are taken to be distinct columns.
  `read_csv` renames duplicate names, so the loaded table never has any. The
  one duplicate the code can create, `all_columns_in_one`, is modelled.
- The float that `astype(float)` builds is not modelled, and neither is
  floating point. The cleaned value is the normalised text, together with the
  proof that `float()` accepts it.
- An empty table (no rows) is modelled as a failed split (`KeyWidth(0)`).
  What pandas does with the split of an empty column depends on its version.
- The exact pandas exception type of each failure is not modelled. The
  `CleanError` cases say which stage failed and on which text.
- The region filter is not checked against the catalog, because
  `clean_data` does not check it either.
