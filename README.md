# Insurance dashboard and loop utilities, modelled in Dafny

This project models the data logic of two small scripts.

The first, `main.py`, is an insurance analytics dashboard. It reads a CSV of
policy holders (age, sex, bmi, children, smoker, region, charges). It
normalises the labels of an uploaded file, while the sample file keeps its
labels as read (see Findings), and it checks that the seven required columns
exist.
It then filters the rows with three inclusive sliders and three multiselects
and shows a smoker percentage, mean charges, per-region mean charges sorted
descending, and a region x smoker pivot of mean charges. Its `load_data`
helper also coerces the numeric columns and drops rows with a missing numeric
cell.

The second, `utill.py`, prints the even products of a multiplication table
and counts the students with grade A in a hard-coded list.

Modules, one file each:

- `Wrappers` (`wrappers.dfy`): `Option` (a missing cell or NaN aggregate) and `Result`.
- `Seqs` (`seqs.dfy`): `Where`, the order-preserving selection behind `df.loc[mask]` and `dropna`, with its subsequence, idempotence and concatenation lemmas.
- `Text` (`text.dfy`): `str.strip()`, `str.lower()`, Python's string order, and `sorted(set(...))`.
- `Table` (`table.dfy`): raw cells and frames as `read_csv` yields them, and the typed `Record`.
- `Loading` (`loading.dfy`): `load_data`, the two input branches, the required-column check.
- `Filters` (`filters.dfy`): control defaults, option lists and the six-way filter.
- `Metrics` (`metrics.dfy`): smoker rate, mean charges, per-region means, pivot.
- `Utill` (`utill.py`'s two loops): `utill.dfy`.

Numbers are Dafny `real`, so bounds and means are exact. Numeric record fields
are `Option<real>`, because pandas keeps an integer column that holds NaN as
floating point. The two loops in `utill.py` and the coercion loop of
`load_data` are methods with loop invariants. Each is proved equal to a
specification function, and the properties are lemmas about that function.
Everything else in the script is a single vectorised expression and is
modelled as a function.

Four behaviours of the code are easy to misread, and the model keeps them as
the code has them:

- the smoker rate is a percentage (0 to 100), not a fraction;
- the mean of an empty selection is NaN (`None` here), not 0;
- the order of regions with equal means is left open, because pandas' sort is not guaranteed stable;
- `load_data` fails with pandas' `KeyError` from `dropna` when a numeric column is absent.

## Model

| member | source | states |
|---|---|---|
| `Text.Strip` | main.py:27 | the result is the slice of the label left after removing whitespace (Python's `isspace` set) at both ends: everything outside it is whitespace, and its own first and last characters are not |
| `Text.Lower` | main.py:27 | same length, no upper-case letter left, each character lowered on its own |
| `Text.NormalizeLabelSpec` | main.py:27 | a normalised label has no whitespace at either end and no upper-case letter, and normalising it again changes nothing |
| `Text.SortDistinct` | main.py:74 | the result is strictly increasing in Python's string order (so free of duplicates) and holds exactly the input's values |
| `Loading.ToNumeric` | main.py:32 | after `to_numeric(errors="coerce")` a cell is a number or missing; numbers and blanks are unchanged, text that parses becomes that number, and text that does not parse becomes missing; the result is present iff the cell is a number or parsable text |
| `Loading.AbsentNumeric` | main.py:33 | lists exactly the numeric column names absent from the labels, the ones `dropna(subset=...)` raises `KeyError` for |
| `Loading.Loaded` | main.py:24-33 | `load_data` fails, naming the absent numeric columns, iff one is absent after normalisation; otherwise the labels are the normalised labels and normalisation fixed points, there are at most as many rows as in the file, and none has a missing numeric cell; which rows survive is stated by `Loading.LoadedSpec` and `Loading.LoadedKeepsParsable` |
| `Loading.LoadData` | main.py:24-33 | the labels are normalised, each present numeric column is coerced in the `for c in num_cols` loop, and the result equals `Loaded` |
| `Loading.LoadedSpec` | main.py:24-33 | `load_data` fails iff a numeric column is absent after normalisation, naming those columns; otherwise the labels are normalised and the rows kept are exactly the coerced rows with no missing numeric cell, at increasing positions |
| `Loading.LoadedKeepsParsable` | main.py:29-33 | the rows `load_data` keeps, in order, are exactly the file's rows whose every numeric cell is a number or text that parses: a blank or unparsable numeric field excludes the row |
| `Loading.UnparsableAgeDropped` | main.py:32-33 | a row whose age is the unparsable text "abc" is dropped |
| `Loading.LoadedRecordsNumeric` | main.py:29-33 | after `load_data` every record has age, bmi, children and charges |
| `Loading.SchemaCheck` | main.py:71-75 | the page stops iff some expected column is absent; the reported names are exactly the expected names minus the labels, sorted and without repeats |
| `Loading.Prepare` | main.py:71-75 | fails iff an expected column is absent from the labels, and then carries the absent names, each once, in sorted order; otherwise it yields one record per row, each read through the frame's labels |
| `Loading.ReadAsWritten` | main.py:50-54 | as written, neither branch coerces or drops a row; an upload gets normalised labels, each a normalisation fixed point, while the sample file keeps its labels as read; `Loading.ReadAsWrittenDependsOnBranch` shows the difference this makes |
| `Loading.ReadAsWrittenDependsOnBranch` | main.py:50-54 | as written, a file with the header `Age` passes the column check when uploaded and stops the page when read as the sample file |
| `Loading.Read` | main.py:50-54 | corrected read of the chosen file, through `load_data`: fails iff a numeric column is absent after normalisation, naming the absent ones; otherwise its labels are the normalised labels and are normalisation fixed points, it has at most the file's rows, and every row has all four numeric cells. The result is `Loading.Loaded` of the chosen file, so which rows survive, and in what order, is stated by `Loading.LoadedSpec` and `Loading.LoadedKeepsParsable` |
| `Loading.ReadIndependentOfBranch` | main.py:50-54 | with the corrected read a file gives the same frame uploaded or as the sample, and its labels are normalised |
| `Loading.Session` | main.py:50-75 | the page reaches the filters iff the corrected read succeeds and the column check passes; every record that reaches them has all four numeric fields |
| `Table.RecordsByColumn` | main.py:83-108 | each field of the records of a frame (one per row, in row order, `Table.Records`) is the cell of that row in the first column bearing the field's name: a number for age, bmi, children and charges and text for sex, smoker and region, any other cell reading as missing; a field whose name labels no column is missing |
| `Filters.Filter` | main.py:102-111 | a record is in the result iff it is in the table and passes all six tests (three inclusive ranges, three memberships, missing values never pass); the result is never longer |
| `Filters.FilterOrder` | main.py:111 | the result is the table with records removed, the rest kept at increasing positions; a position is kept iff its record passes |
| `Filters.FilterUnsatisfiable` | main.py:103-108 | an inverted range or an empty selection gives the empty table |
| `Filters.FilterIdempotent` | main.py:102-111 | filtering the filtered table with the same controls returns it unchanged |
| `Filters.PresentValues` | main.py:92 | `dropna()`: a string is listed iff the column holds it |
| `Filters.Options` | main.py:92-99 | each option list is strictly sorted, duplicate-free, and holds exactly the distinct present values of its column |
| `Filters.MinPresent` | main.py:83 | the least present value of the column, present in it; missing iff the column has no value |
| `Filters.MaxPresent` | main.py:83 | the greatest present value of the column, present in it; missing iff the column has no value |
| `Filters.TruncToInt` | main.py:83 | Python's `int()` on a float rounds toward zero |
| `Filters.Ceil` | main.py:86 | `np.ceil`: the least integer not below its argument |
| `Filters.DefaultCriteria` | main.py:83-99 | the default controls exist iff age, bmi and children each have at least one value, and then every present sex, smoker status and region is selected; the range bounds are given field by field by `Filters.DefaultFields`, and what the defaults keep by `Filters.DefaultsKeepComplete` |
| `Filters.DefaultsKeepComplete` | main.py:83-109 | with whole-number ages and children, the default controls keep exactly the records with all six filtered fields present |
| `Filters.FractionalAgeDropped` | main.py:83-84 | a fractional oldest age is cut by `int()` and falls outside the default range, so the whole-number hypothesis is needed |
| `Metrics.SmokerCount` | main.py:124 | at most the table's size, and zero iff no record has smoker "yes" |
| `Metrics.SmokerRate` | main.py:124 | 0 when no record has smoker "yes"; otherwise 100 x (smokers / records), in (0, 100] |
| `Metrics.SmokerRateIsPercentage` | main.py:124 | on a non-empty table the `"yes" in unique()` guard changes nothing: the rate is the plain percentage |
| `Metrics.MeanWithin` | main.py:120 | a mean lies between the least and the greatest value |
| `Metrics.ChargesWhere` | main.py:120 | the charges of the selected records: a value occurs iff a selected record has it as its charge, and there is exactly one charge per selected record with a charge, in table order, so repeated charges are kept |
| `Metrics.RepeatedChargeCounts` | main.py:120 | a charge shared by two records counts twice: charges 1, 1 and 4 have mean 2 |
| `Metrics.AvgCharges` | main.py:120 | the mean charges are missing (NaN) iff no record has a charge, and otherwise lie between the least and greatest charge |
| `Metrics.SortByMean` | main.py:135 | `sort_values(ascending=False)`: a permutation of its input in non-increasing order of the mean, NaN last |
| `Metrics.RegionEntries` | main.py:135 | the grouped table has one entry per distinct present region, each holding that region's mean |
| `Metrics.RegionMeans` | main.py:135 | one entry per region of the table and no other, no region twice, each entry the region's mean charges, in non-increasing order |
| `Metrics.RegionMean` | main.py:135 | a region's mean is NaN iff none of its records has a charge, and otherwise lies between the region's least and greatest charge |
| `Metrics.Pivot` | main.py:190 | the pivot's cells are exactly the (region, smoker) pairs of records that have a charge, and each cell lies between that pair's least and greatest charge |
| `Metrics.PivotSpec` | main.py:190 | the pivot has a cell for (region, smoker) iff some record has that region, that smoker status and a charge; absent pairs are not zero-filled; the cell lies between the pair's least and greatest charge |
| `Metrics.PivotKeysWithCharges` | main.py:190 | when every record has a charge, the pivot's cells are exactly the (region, smoker) pairs that occur |
| `Metrics.PivotRegionsCharted` | main.py:190 | every region in the pivot also has a bar in the region chart |
| `Metrics.EmptyTableAggregates` | main.py:116-135 | on the empty table the smoker rate is 0, the mean is NaN, there are no bars and the pivot is empty |
| `Metrics.TwoRecordScenario` | main.py:102-124 | of two records, selecting only smokers keeps the first; the mean charges are then its charges and the smoker rate is 100 |
| `Utill.PrintMultTable` | utill.py:1-5 | the nested loops emit exactly `MultTable(a, b + 1)` |
| `Utill.ProductParity` | utill.py:4 | `(i * j) % 2 == 0` iff one factor is even |
| `Utill.MultTableMembers` | utill.py:2-5 | a line (i, j, p) is emitted iff a <= i <= b, 1 <= j <= 12 and i*j is even, and then p == i*j |
| `Utill.MultTableInOrder` | utill.py:2-3 | the lines come in increasing (i, j) order |
| `Utill.LinesPerMultiplicand` | utill.py:2-4 | 12 lines for an even i, 6 for an odd i |
| `Utill.EmptyRange` | utill.py:2 | when a > b nothing is emitted |
| `Utill.PairsOfRows` | utill.py:2-4 | two consecutive multiplicands give 18 lines together |
| `Utill.ScriptTableLength` | utill.py:8 | `print_mult_table(5, 20)` emits 144 lines |
| `Utill.CountGradeA` | utill.py:18-21 | the number of grade-A students is at most the number of students |
| `Utill.CountA` | utill.py:18-21 | after the loop `count_A` equals the number of grade-A students; the loop keeps the count of the first k students |
| `Utill.CountGradeAPositions` | utill.py:18-21 | that number is the number of positions holding a grade-A student |
| `Utill.ScriptCount` | utill.py:10-21 | the hard-coded list has two grade-A students |
| `Utill.CountAScript` | utill.py:10-21 | the script's loop ends with `count_A == 2` |

## Left out

- Streamlit page setup, sidebar widgets, metric widgets, `st.stop`, `st.info`, `st.error`, `st.dataframe` and `st.cache_data` (main.py:11-18, 35-38, 116-125 display parts, 186, 191, 196, 200-207): user-interface code with no data logic. The text of the `st.error` message is not modelled; the sorted list it names is.
- The Altair charts, histogram binning and the regression trendline (main.py:136-177): rendering and floating-point fitting.
- `pd.read_csv`, `to_csv(...).encode("utf-8")` and the download (main.py:25, 51, 54, 197-205): file input and output. A frame arrives as labels and cells. Parsing numeric text inside `pd.to_numeric` is the parameter `parse`.
- File-location logic: `os.getcwd`, `INS_ABS_PATH` and the commented-out candidate search (main.py:41-48, 56-64). The `if df is None` check (main.py:66-68) is not modelled. As written `df` is never `None` there, because `read_csv` raises instead.
- Floating-point rounding, `.round(2)` on the pivot (main.py:190), and the currency and percent formatting (main.py:118-125). Reals are exact.
- Median charges (main.py:122).
- The order of equal means in `sort_values`, which pandas does not guarantee to be stable (main.py:135).
- Text.Lower: lowers only ASCII A-Z. Python's `str.lower()` also lowers other scripts' capitals and can change a string's length.
- Table.Records: a number in a categorical column (sex, smoker or region coded 0/1, say) is read as missing. `load_data` leaves such a column alone, so this applies to both read paths. pandas would list the numbers as options (main.py:92-99) and `isin` would keep the rows (main.py:106-108). In the model the default selection for that column is empty and the default filter keeps no row. The model covers only text-coded categorical columns.
- Table.Records: a text cell in a numeric column is read as missing. This only arises on the uncorrected read path, which skips `load_data`. There the source raises before the filter applies:
  - a `TypeError` from `min()` when the column also has a blank;
  - otherwise a `ValueError` from `int()` (main.py:83, 89);
  - or a `TypeError` from `np.floor` or `np.ceil` (main.py:86);
  - or a `TypeError` from `between` (main.py:103-105).
- Loading.Loaded: duplicate column labels are not an error in the model. It coerces every column under a numeric label and reads the first one. The source fails with a `TypeError` in both places a duplicated numeric label reaches. `pd.to_numeric` is given a DataFrame at main.py:32, and `int()` is given a Series at main.py:83. A duplicated categorical label fails too. `Sex` and `sex` both normalise to `sex`, so `df["sex"]` is a DataFrame, and `.unique()` raises an `AttributeError` at main.py:92. This happens on both read paths. The model reads the first such column and carries on.
- Filters.DefaultsKeepComplete: holds only for whole-number ages and children, because `int()` truncates the slider bounds (see `Filters.FractionalAgeDropped`).
- Filters.DefaultCriteria: a table with no age, bmi or children value yields no defaults. In the source, `int(nan)` raises, and the bmi slider is built from NaN bounds.
- The pivot is a map keyed by (region, smoker) pairs, not a nested region-by-smoker grid with NaN cells.
- `print(students)` and the printed text of each line (utill.py:5, 16, 23): lines are returned as (i, j, i*j) triples. A student dict without a `'grade'` key, which would raise `KeyError`, is not representable in the model.

## Findings

| source | as written | input that shows it | evidently intended | confidence | as-written member | corrected member |
|---|---|---|---|---|---|---|
| main.py:50-54 | The sample-file branch reads the CSV with no label normalisation. Neither branch calls `load_data`, so no coercion and no `dropna` happen. | A file whose header is `Age,sex,bmi,children,smoker,region,charges` passes the column check when uploaded but stops the page when used as the sample file. | Both branches read through `load_data`, as the commented-out sample search at main.py:56-64 does. | medium; not executed | `Loading.ReadAsWritten`, shown by `Loading.ReadAsWrittenDependsOnBranch` | `Loading.Read`, with `Loading.ReadIndependentOfBranch` and `Loading.Session` |
