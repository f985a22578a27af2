/** Reading the insurance frame: `load_data` (label normalisation, numeric
    coercion, dropping incomplete rows), the two input branches of the script,
    and the required-column check that stops the page. */
module Loading {
  import opened Wrappers
  import opened Seqs
  import opened Text
  import opened Table

  /** The columns `load_data` coerces and requires (`num_cols`, the `dropna` subset). */
  const NumCols: seq<string> := ["age", "bmi", "children", "charges"]

  /** `expected_cols`: the seven columns the dashboard needs. */
  const ExpectedCols: seq<string> := ["age", "sex", "bmi", "children", "smoker", "region", "charges"]

  function NormalizeLabels(labels: seq<string>): (r: seq<string>)
    ensures |r| == |labels|
    ensures forall k :: 0 <= k < |r| ==> r[k] == NormalizeLabel(labels[k])
  {
    seq(|labels|, k requires 0 <= k < |labels| => NormalizeLabel(labels[k]))
  }

  /** `pd.to_numeric(errors="coerce")` on one cell; `parse` is pandas' reading of
      a numeric string, `None` where it fails. */
  function ToNumeric(c: Cell, parse: string -> Option<real>): (d: Cell)
    ensures d.Blank? || d.Num?
    ensures c.Num? ==> d == c
    ensures c.Blank? ==> d == c
    ensures c.Str? && parse(c.s).None? ==> d == Blank
    ensures c.Str? && parse(c.s).Some? ==> d == Num(parse(c.s).value)
    ensures d != Blank <==> Parsable(c, parse)
  {
    match c
    case Blank => Blank
    case Num(_) => c
    case Str(s) => match parse(s) { case Some(x) => Num(x) case None => Blank }
  }

  /** A cell that `to_numeric(errors="coerce")` turns into a number. */
  predicate Parsable(c: Cell, parse: string -> Option<real>) {
    c.Num? || (c.Str? && parse(c.s).Some?)
  }

  /** A row with the cells under any label in `cols` coerced. */
  function CoerceRow(labels: seq<string>, row: seq<Cell>, cols: seq<string>, parse: string -> Option<real>): (r: seq<Cell>)
    ensures |r| == |row|
  {
    seq(|row|, k requires 0 <= k < |row| =>
      if k < |labels| && labels[k] in cols then ToNumeric(row[k], parse) else row[k])
  }

  /** `df[c] = pd.to_numeric(df[c], errors="coerce")` for one label `c`. */
  function CoerceColumn(rows: seq<seq<Cell>>, labels: seq<string>, c: string, parse: string -> Option<real>): (r: seq<seq<Cell>>)
    ensures |r| == |rows|
    ensures forall i :: 0 <= i < |rows| ==> r[i] == CoerceRow(labels, rows[i], [c], parse)
  {
    seq(|rows|, i requires 0 <= i < |rows| => CoerceRow(labels, rows[i], [c], parse))
  }

  /** No cell under a numeric label is missing (`notna` on the `dropna` subset). */
  predicate Complete(labels: seq<string>, row: seq<Cell>) {
    forall k :: 0 <= k < |labels| && labels[k] in NumCols ==> k < |row| && row[k] != Blank
  }

  function DropIncomplete(labels: seq<string>, rows: seq<seq<Cell>>): seq<seq<Cell>> {
    Where(rows, row => Complete(labels, row))
  }

  /** The names of `NumCols` absent from `labels`, in `NumCols` order: the
      `KeyError` that `dropna(subset=...)` raises. */
  function AbsentNumeric(labels: seq<string>): (r: seq<string>)
    ensures forall c :: c in r <==> c in NumCols && c !in labels
  {
    Where(NumCols, c => c !in labels)
  }

  /** Every row with the cells under the labels in `cols` coerced. */
  function CoercedRows(labels: seq<string>, rows: seq<seq<Cell>>, cols: seq<string>, parse: string -> Option<real>): (r: seq<seq<Cell>>)
    ensures |r| == |rows|
    ensures forall i :: 0 <= i < |rows| ==> r[i] == CoerceRow(labels, rows[i], cols, parse)
  {
    seq(|rows|, i requires 0 <= i < |rows| => CoerceRow(labels, rows[i], cols, parse))
  }

  /** What `load_data` returns for a frame read from a file: the `KeyError`
      naming the absent numeric columns exactly when one is absent after
      normalisation; otherwise a frame whose labels are the normalised labels,
      each a fixed point of normalisation, with no more rows than the file
      and no missing numeric cell. Which rows survive is `LoadedSpec` and
      `LoadedKeepsParsable`. */
  function Loaded(raw: Frame, parse: string -> Option<real>): (r: Result<Frame, seq<string>>)
    ensures r.Err? <==> exists c :: c in NumCols && c !in NormalizeLabels(raw.labels)
    ensures r.Err? ==> r.error == AbsentNumeric(NormalizeLabels(raw.labels))
    ensures r.Ok? ==>
      && r.value.labels == NormalizeLabels(raw.labels)
      && (forall k :: 0 <= k < |r.value.labels| ==> NormalizeLabel(r.value.labels[k]) == r.value.labels[k])
      && |r.value.rows| <= |raw.rows|
      && (forall i :: 0 <= i < |r.value.rows| ==> Complete(r.value.labels, r.value.rows[i]))
  {
    var labels := NormalizeLabels(raw.labels);
    NormalizeLabelsFixed(raw.labels);
    AbsentIff(labels);
    if AbsentNumeric(labels) != [] then Err(AbsentNumeric(labels))
    else
      var coerced := CoercedRows(labels, raw.rows, NumCols, parse);
      DroppedComplete(labels, coerced);
      Ok(Frame(labels, DropIncomplete(labels, coerced)))
  }

  lemma AbsentIff(labels: seq<string>)
    ensures AbsentNumeric(labels) != [] <==> exists c :: c in NumCols && c !in labels
  {
    var absent := AbsentNumeric(labels);
    if absent != [] {
      assert absent[0] in absent;
    }
  }

  lemma DroppedComplete(labels: seq<string>, rows: seq<seq<Cell>>)
    ensures |DropIncomplete(labels, rows)| <= |rows|
    ensures forall i :: 0 <= i < |DropIncomplete(labels, rows)| ==> Complete(labels, DropIncomplete(labels, rows)[i])
  {
    var kept := DropIncomplete(labels, rows);
    forall i | 0 <= i < |kept| ensures Complete(labels, kept[i]) {
      assert kept[i] in kept;
    }
  }

  lemma NormalizeLabelsFixed(labels: seq<string>)
    ensures forall k :: 0 <= k < |labels| ==> NormalizeLabel(NormalizeLabels(labels)[k]) == NormalizeLabels(labels)[k]
  {
    forall k | 0 <= k < |labels| ensures NormalizeLabel(NormalizeLabels(labels)[k]) == NormalizeLabels(labels)[k] {
      NormalizeLabelSpec(labels[k]);
    }
  }

  lemma ToNumericIdempotent(c: Cell, parse: string -> Option<real>)
    ensures ToNumeric(ToNumeric(c, parse), parse) == ToNumeric(c, parse)
  {
  }

  /** `load_data`: normalises the labels, coerces each numeric column that is
      present, then drops the rows with a missing numeric cell. */
  method LoadData(raw: Frame, parse: string -> Option<real>) returns (r: Result<Frame, seq<string>>)
    ensures r == Loaded(raw, parse)
  {
    var labels := NormalizeLabels(raw.labels);
    var rows := raw.rows;
    CoerceNothing(labels, raw.rows, parse);
    for n := 0 to |NumCols|
      invariant rows == CoercedRows(labels, raw.rows, NumCols[..n], parse)
    {
      var c := NumCols[n];
      assert NumCols[..n + 1] == NumCols[..n] + [c];
      if c in labels {
        CoerceColumnStep(labels, raw.rows, NumCols[..n], c, parse);
        rows := CoerceColumn(rows, labels, c, parse);
      } else {
        CoerceAbsentStep(labels, raw.rows, NumCols[..n], c, parse);
      }
    }
    assert NumCols[..|NumCols|] == NumCols;
    var absent := AbsentNumeric(labels);
    if absent != [] {
      r := Err(absent);
    } else {
      r := Ok(Frame(labels, DropIncomplete(labels, rows)));
    }
  }

  lemma CoerceNothing(labels: seq<string>, rows: seq<seq<Cell>>, parse: string -> Option<real>)
    ensures CoercedRows(labels, rows, [], parse) == rows
  {
    var r := CoercedRows(labels, rows, [], parse);
    forall i | 0 <= i < |rows| ensures r[i] == rows[i] {
      assert CoerceRow(labels, rows[i], [], parse) == rows[i];
    }
  }

  /** Coercing column `c` after the columns `cols` is coercing `cols + [c]`. */
  lemma CoerceColumnStep(labels: seq<string>, rows: seq<seq<Cell>>, cols: seq<string>, c: string, parse: string -> Option<real>)
    ensures CoerceColumn(CoercedRows(labels, rows, cols, parse), labels, c, parse) == CoercedRows(labels, rows, cols + [c], parse)
  {
    var lhs := CoerceColumn(CoercedRows(labels, rows, cols, parse), labels, c, parse);
    var rhs := CoercedRows(labels, rows, cols + [c], parse);
    forall i | 0 <= i < |rows| ensures lhs[i] == rhs[i] {
      CoerceRowStep(labels, rows[i], cols, c, parse);
    }
  }

  /** A label that no column carries is skipped by `if c in df.columns` and
      coercing it would change nothing either. */
  lemma CoerceAbsentStep(labels: seq<string>, rows: seq<seq<Cell>>, cols: seq<string>, c: string, parse: string -> Option<real>)
    requires c !in labels
    ensures CoercedRows(labels, rows, cols + [c], parse) == CoercedRows(labels, rows, cols, parse)
  {
    forall i | 0 <= i < |rows|
      ensures CoerceRow(labels, rows[i], cols + [c], parse) == CoerceRow(labels, rows[i], cols, parse)
    {
      var a := CoerceRow(labels, rows[i], cols + [c], parse);
      var b := CoerceRow(labels, rows[i], cols, parse);
      forall k | 0 <= k < |rows[i]| ensures a[k] == b[k] {
        if k < |labels| {
          assert labels[k] in labels;
        }
      }
    }
  }

  lemma CoerceRowStep(labels: seq<string>, row: seq<Cell>, cols: seq<string>, c: string, parse: string -> Option<real>)
    ensures CoerceRow(labels, CoerceRow(labels, row, cols, parse), [c], parse) == CoerceRow(labels, row, cols + [c], parse)
  {
    var lhs := CoerceRow(labels, CoerceRow(labels, row, cols, parse), [c], parse);
    var rhs := CoerceRow(labels, row, cols + [c], parse);
    forall k | 0 <= k < |row| ensures lhs[k] == rhs[k] {
      ToNumericIdempotent(row[k], parse);
    }
  }

  /** `load_data` fails exactly when a numeric column is absent after
      normalisation, naming those columns; otherwise the labels are normalised,
      and the rows kept are exactly the coerced rows with no missing numeric
      cell, in their original order. */
  lemma {:induction false} LoadedSpec(raw: Frame, parse: string -> Option<real>) returns (idx: seq<int>)
    ensures var labels := NormalizeLabels(raw.labels);
      && (Loaded(raw, parse).Err? <==> exists c :: c in NumCols && c !in labels)
      && (Loaded(raw, parse).Err? ==> Loaded(raw, parse).error == AbsentNumeric(labels))
    ensures Loaded(raw, parse).Ok? ==>
      var f := Loaded(raw, parse).value;
      var coerced := CoercedRows(f.labels, raw.rows, NumCols, parse);
      && f.labels == NormalizeLabels(raw.labels)
      && (forall k :: 0 <= k < |f.labels| ==> NormalizeLabel(f.labels[k]) == f.labels[k])
      && (forall i :: 0 <= i < |f.rows| ==> Complete(f.labels, f.rows[i]))
      && SubsequenceAt(f.rows, coerced, idx)
      && (forall i :: 0 <= i < |coerced| ==> (i in idx <==> Complete(f.labels, coerced[i])))
  {
    var labels := NormalizeLabels(raw.labels);
    var absent := AbsentNumeric(labels);
    if absent != [] {
      assert absent[0] in NumCols && absent[0] !in labels;
    }
    forall k | 0 <= k < |labels| ensures NormalizeLabel(labels[k]) == labels[k] {
      NormalizeLabelSpec(raw.labels[k]);
    }
    idx := [];
    if absent == [] {
      var coerced := CoercedRows(labels, raw.rows, NumCols, parse);
      idx := WhereSubsequence(coerced, row => Complete(labels, row));
      var rows := DropIncomplete(labels, coerced);
      assert forall i :: 0 <= i < |rows| ==> rows[i] in rows;
    }
  }

  /** After `load_data` every record has its age, bmi, children and charges. */
  lemma LoadedRecordsNumeric(raw: Frame, parse: string -> Option<real>)
    requires Loaded(raw, parse).Ok?
    ensures forall r :: r in Records(Loaded(raw, parse).value) ==> NumericPresent(r)
  {
    var labels := NormalizeLabels(raw.labels);
    var coerced := CoercedRows(labels, raw.rows, NumCols, parse);
    var rows := DropIncomplete(labels, coerced);
    assert Loaded(raw, parse).value == Frame(labels, rows);
    assert forall c :: c in NumCols ==> c in labels;
    forall i | 0 <= i < |rows| ensures NumericPresent(RowRecord(labels, rows[i])) {
      KeptRowNumeric(labels, raw.rows, parse, rows[i]);
    }
  }

  /** The rows `load_data` keeps are exactly the rows of the file whose every
      numeric cell is a number or text that parses as one: a blank or an
      unparsable numeric field excludes the row. */
  lemma LoadedKeepsParsable(raw: Frame, parse: string -> Option<real>) returns (idx: seq<int>)
    requires Loaded(raw, parse).Ok?
    ensures var f := Loaded(raw, parse).value;
      && SubsequenceAt(f.rows, CoercedRows(f.labels, raw.rows, NumCols, parse), idx)
      && (forall i :: 0 <= i < |raw.rows| ==>
            (i in idx <==> ParsableRow(f.labels, raw.rows[i], parse)))
  {
    idx := LoadedSpec(raw, parse);
    var f := Loaded(raw, parse).value;
    var coerced := CoercedRows(f.labels, raw.rows, NumCols, parse);
    forall i | 0 <= i < |raw.rows|
      ensures Complete(f.labels, coerced[i]) <==> ParsableRow(f.labels, raw.rows[i], parse)
    {
      CompleteIffParsable(f.labels, raw.rows[i], parse);
    }
  }

  /** Every cell under a numeric label exists and can be read as a number. */
  predicate ParsableRow(labels: seq<string>, row: seq<Cell>, parse: string -> Option<real>) {
    forall k :: 0 <= k < |labels| && labels[k] in NumCols ==> k < |row| && Parsable(row[k], parse)
  }

  lemma CompleteIffParsable(labels: seq<string>, row: seq<Cell>, parse: string -> Option<real>)
    ensures Complete(labels, CoerceRow(labels, row, NumCols, parse)) <==> ParsableRow(labels, row, parse)
  {
    var r := CoerceRow(labels, row, NumCols, parse);
    forall k | 0 <= k < |labels| && labels[k] in NumCols && k < |row|
      ensures r[k] != Blank <==> Parsable(row[k], parse)
    {
      assert r[k] == ToNumeric(row[k], parse);
    }
  }

  /** A row with text that does not parse under `age` is dropped. */
  lemma UnparsableAgeDropped(parse: string -> Option<real>)
    requires parse("abc").None?
    ensures var raw := Frame(["age", "bmi", "children", "charges"], [[Str("abc"), Num(20.0), Num(0.0), Num(100.0)]]);
      Loaded(raw, parse).Ok? && Loaded(raw, parse).value.rows == []
  {
    var raw := Frame(["age", "bmi", "children", "charges"], [[Str("abc"), Num(20.0), Num(0.0), Num(100.0)]]);
    HeaderNumericFixed();
    var f := Loaded(raw, parse).value;
    var idx := LoadedKeepsParsable(raw, parse);
    assert !ParsableRow(f.labels, raw.rows[0], parse) by {
      assert f.labels[0] == "age";
    }
    assert 0 !in idx;
  }

  lemma HeaderNumericFixed()
    ensures NormalizeLabels(["age", "bmi", "children", "charges"]) == ["age", "bmi", "children", "charges"]
  {
    var l := ["age", "bmi", "children", "charges"];
    AgeFixed();
    BmiFixed();
    ChildrenFixed();
    ChargesFixed();
    var r := NormalizeLabels(l);
    assert forall k :: 0 <= k < 4 ==> r[k] == l[k];
  }

  lemma KeptRowNumeric(labels: seq<string>, raw: seq<seq<Cell>>, parse: string -> Option<real>, row: seq<Cell>)
    requires forall c :: c in NumCols ==> c in labels
    requires row in DropIncomplete(labels, CoercedRows(labels, raw, NumCols, parse))
    ensures NumericPresent(RowRecord(labels, row))
  {
    var coerced := CoercedRows(labels, raw, NumCols, parse);
    assert row in coerced && Complete(labels, row);
    var j :| 0 <= j < |coerced| && coerced[j] == row;
    CoercedRecordNumeric(labels, raw[j], parse);
  }

  lemma CoercedRecordNumeric(labels: seq<string>, row: seq<Cell>, parse: string -> Option<real>)
    requires forall c :: c in NumCols ==> c in labels
    requires Complete(labels, CoerceRow(labels, row, NumCols, parse))
    ensures NumericPresent(RowRecord(labels, CoerceRow(labels, row, NumCols, parse)))
  {
    CoercedNumberPresent(labels, row, parse, "age");
    CoercedNumberPresent(labels, row, parse, "bmi");
    CoercedNumberPresent(labels, row, parse, "children");
    CoercedNumberPresent(labels, row, parse, "charges");
  }

  lemma CoercedNumberPresent(labels: seq<string>, row: seq<Cell>, parse: string -> Option<real>, name: string)
    requires name in NumCols && name in labels
    requires Complete(labels, CoerceRow(labels, row, NumCols, parse))
    ensures NumberAt(CoerceRow(labels, row, NumCols, parse), ColumnIndex(labels, name)).Some?
  {
    var k := ColumnIndex(labels, name).value;
    assert labels[k] in NumCols;
  }

  /** Outcome of `missing = expected_cols - set(df.columns)`: carry on, or stop
      the page naming the missing columns. */
  datatype Verdict = Proceed | Stop(missing: seq<string>)

  /** `sorted(expected_cols - set(labels))`. */
  function MissingColumns(labels: seq<string>): seq<string> {
    SortDistinct(Where(ExpectedCols, c => c !in labels))
  }

  /** The page stops exactly when some expected column is absent; it then
      reports precisely the absent expected names, each once, in sorted order. */
  function SchemaCheck(labels: seq<string>): (v: Verdict)
    ensures v.Stop? <==> exists c :: c in ExpectedCols && c !in labels
    ensures v.Stop? ==> StrictlySorted(v.missing)
    ensures v.Stop? ==> (set c | c in v.missing) == (set c | c in ExpectedCols) - (set c | c in labels)
  {
    var missing := MissingColumns(labels);
    if missing != [] then
      assert missing[0] in ExpectedCols;
      Stop(missing)
    else
      assert forall c :: c in ExpectedCols ==> c in missing || c in labels;
      Proceed
  }

  /** The script body past the schema check: the frame's records, or the
      missing columns that stop the page. */
  function Prepare(f: Frame): (r: Result<Table, seq<string>>)
    ensures r.Err? <==> exists c :: c in ExpectedCols && c !in f.labels
    ensures r.Err? ==> StrictlySorted(r.error)
    ensures r.Err? ==> (set c | c in r.error) == (set c | c in ExpectedCols) - (set c | c in f.labels)
    ensures r.Ok? ==> |r.value| == |f.rows|
    ensures r.Ok? ==> forall i :: 0 <= i < |f.rows| ==> r.value[i] == RowRecord(f.labels, f.rows[i])
  {
    match SchemaCheck(f.labels)
    case Stop(missing) => Err(missing)
    case Proceed => Ok(Records(f))
  }

  /** The input branches as written (main.py:50-54): neither coerces nor drops
      a row; an upload has its labels normalised, the sample file keeps its
      labels exactly as read. */
  function ReadAsWritten(uploaded: Option<Frame>, sample: Frame): (f: Frame)
    ensures f.rows == (if uploaded.Some? then uploaded.value.rows else sample.rows)
    ensures uploaded.Some? ==>
      && f.labels == NormalizeLabels(uploaded.value.labels)
      && forall k :: 0 <= k < |f.labels| ==> NormalizeLabel(f.labels[k]) == f.labels[k]
    ensures uploaded.None? ==> f.labels == sample.labels
  {
    match uploaded
    case Some(u) =>
      NormalizeLabelsFixed(u.labels);
      Frame(NormalizeLabels(u.labels), u.rows)
    case None => sample
  }

  /** The same file, with one capitalised header, passes the schema check when
      uploaded and stops the page when read as the sample file. */
  lemma ReadAsWrittenDependsOnBranch()
    ensures var file := Frame(["Age", "sex", "bmi", "children", "smoker", "region", "charges"], []);
      && SchemaCheck(ReadAsWritten(Some(file), file).labels) == Proceed
      && SchemaCheck(ReadAsWritten(None, file).labels).Stop?
  {
    UploadedHeaders();
    ExpectedColsPass();
    CapitalisedHeaderStops();
  }

  lemma ExpectedColsPass()
    ensures SchemaCheck(ExpectedCols) == Proceed
  {
  }

  lemma CapitalisedHeaderStops()
    ensures SchemaCheck(["Age", "sex", "bmi", "children", "smoker", "region", "charges"]).Stop?
  {
    var labels := ["Age", "sex", "bmi", "children", "smoker", "region", "charges"];
    forall k | 0 <= k < |labels| ensures labels[k] != "age" {
      assert labels[k][0] != 'a';
    }
    assert "age" in ExpectedCols;
  }

  lemma UploadedHeaders()
    ensures NormalizeLabels(["Age", "sex", "bmi", "children", "smoker", "region", "charges"]) == ExpectedCols
  {
    var labels := ["Age", "sex", "bmi", "children", "smoker", "region", "charges"];
    HeaderNamesNormalized();
    var r := NormalizeLabels(labels);
    assert |r| == |ExpectedCols|;
    forall k | 0 <= k < |r| ensures r[k] == ExpectedCols[k] {
      assert r[k] == NormalizeLabel(labels[k]);
    }
  }

  lemma HeaderNamesNormalized()
    ensures NormalizeLabel("Age") == "age"
    ensures NormalizeLabel("sex") == "sex"
    ensures NormalizeLabel("bmi") == "bmi"
    ensures NormalizeLabel("children") == "children"
    ensures NormalizeLabel("smoker") == "smoker"
    ensures NormalizeLabel("region") == "region"
    ensures NormalizeLabel("charges") == "charges"
  {
    CapitalisedFixed();
    SexFixed();
    BmiFixed();
    ChildrenFixed();
    SmokerFixed();
    RegionFixed();
    ChargesFixed();
  }

  /* One lemma per header name: checking several literals character by
     character in one proof is more than the solver can afford. */

  lemma AgeFixed()
    ensures NormalizeLabel("age") == "age"
  {
    LowerCaseFixed("age");
  }

  lemma SexFixed()
    ensures NormalizeLabel("sex") == "sex"
  {
    LowerCaseFixed("sex");
  }

  lemma BmiFixed()
    ensures NormalizeLabel("bmi") == "bmi"
  {
    LowerCaseFixed("bmi");
  }

  lemma ChildrenFixed()
    ensures NormalizeLabel("children") == "children"
  {
    LowerCaseFixed("children");
  }

  lemma SmokerFixed()
    ensures NormalizeLabel("smoker") == "smoker"
  {
    LowerCaseFixed("smoker");
  }

  lemma RegionFixed()
    ensures NormalizeLabel("region") == "region"
  {
    LowerCaseFixed("region");
  }

  lemma ChargesFixed()
    ensures NormalizeLabel("charges") == "charges"
  {
    LowerCaseFixed("charges");
  }

  lemma CapitalisedFixed()
    ensures NormalizeLabel("Age") == "age"
  {
    var s := "Age";
    StripTrimmed(s);
    var l := Lower(s);
    assert l[0] == 'a' && l[1] == 'g' && l[2] == 'e';
  }

  lemma LowerCaseFixed(s: string)
    requires s != [] && !IsSpace(s[0]) && !IsSpace(s[|s| - 1])
    requires forall i :: 0 <= i < |s| ==> !IsUpper(s[i])
    ensures NormalizeLabel(s) == s
  {
    StripTrimmed(s);
  }

  /** Both branches read through `load_data`, as the commented-out search for
      the sample file (main.py:56-64) does. */
  function Read(uploaded: Option<Frame>, sample: Frame, parse: string -> Option<real>): (r: Result<Frame, seq<string>>)
    ensures var file := if uploaded.Some? then uploaded.value else sample;
      && (r.Err? <==> exists c :: c in NumCols && c !in NormalizeLabels(file.labels))
      && (r.Err? ==> r.error == AbsentNumeric(NormalizeLabels(file.labels)))
    ensures var file := if uploaded.Some? then uploaded.value else sample;
      r.Ok? ==>
        && r.value.labels == NormalizeLabels(file.labels)
        && (forall k :: 0 <= k < |r.value.labels| ==> NormalizeLabel(r.value.labels[k]) == r.value.labels[k])
        && |r.value.rows| <= |file.rows|
        && (forall i :: 0 <= i < |r.value.rows| ==> Complete(r.value.labels, r.value.rows[i]))
  {
    Loaded(if uploaded.Some? then uploaded.value else sample, parse)
  }

  /** With both branches reading through `load_data`, a file yields the same
      frame whether it is uploaded or used as the sample, and that frame has
      normalised labels. */
  lemma ReadIndependentOfBranch(file: Frame, other: Frame, parse: string -> Option<real>)
    ensures Read(Some(file), other, parse) == Read(None, file, parse)
    ensures Read(None, file, parse).Ok? ==>
      forall k :: 0 <= k < |Read(None, file, parse).value.labels| ==>
        NormalizeLabel(Read(None, file, parse).value.labels[k]) == Read(None, file, parse).value.labels[k]
  {
    var _ := LoadedSpec(file, parse);
  }

  /** The page up to the filters, on the corrected read: load the chosen file,
      then check the columns. Every record that reaches the filters has its
      age, bmi, children and charges. */
  function Session(uploaded: Option<Frame>, sample: Frame, parse: string -> Option<real>): (r: Result<Table, seq<string>>)
    ensures r.Ok? ==> forall x :: x in r.value ==> NumericPresent(x)
    ensures r.Ok? <==>
      Read(uploaded, sample, parse).Ok? && SchemaCheck(Read(uploaded, sample, parse).value.labels) == Proceed
  {
    match Read(uploaded, sample, parse)
    case Err(absent) => Err(absent)
    case Ok(f) =>
      LoadedRecordsNumeric(if uploaded.Some? then uploaded.value else sample, parse);
      Prepare(f)
  }
}
