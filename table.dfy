/** The insurance table: raw CSV frames as pandas holds them, and the typed
    records the dashboard works on. */
module Table {
  import opened Wrappers

  /** One cell as `pd.read_csv` produces it: empty (NaN), a number, or text. */
  datatype Cell = Blank | Num(x: real) | Str(s: string)

  /** A data frame: column labels and rows of cells, position `k` of a row under label `k`. */
  datatype Frame = Frame(labels: seq<string>, rows: seq<seq<Cell>>)

  /** One policy holder. Every field may be missing; numeric columns are kept as
      reals because pandas stores a numeric column holding NaN as float64. */
  datatype Record = Record(
    age: Option<real>,
    sex: Option<string>,
    bmi: Option<real>,
    children: Option<real>,
    smoker: Option<string>,
    region: Option<string>,
    charges: Option<real>)

  type Table = seq<Record>

  /** Position of the first column labelled `name`, if any (`df[name]`). */
  function ColumnIndex(labels: seq<string>, name: string): (r: Option<nat>)
    ensures r.Some? <==> name in labels
    ensures r.Some? ==> r.value < |labels| && labels[r.value] == name
    ensures r.Some? ==> forall k :: 0 <= k < r.value ==> labels[k] != name
  {
    if labels == [] then None
    else if labels[0] == name then Some(0)
    else match ColumnIndex(labels[1..], name)
      case None => None
      case Some(k) => Some(k + 1)
  }

  function NumberAt(row: seq<Cell>, k: Option<nat>): Option<real> {
    if k.Some? && k.value < |row| && row[k.value].Num? then Some(row[k.value].x) else None
  }

  function TextAt(row: seq<Cell>, k: Option<nat>): Option<string> {
    if k.Some? && k.value < |row| && row[k.value].Str? then Some(row[k.value].s) else None
  }

  /** Reads one row through the seven columns the dashboard uses. */
  function RowRecord(labels: seq<string>, row: seq<Cell>): Record {
    Record(
      NumberAt(row, ColumnIndex(labels, "age")),
      TextAt(row, ColumnIndex(labels, "sex")),
      NumberAt(row, ColumnIndex(labels, "bmi")),
      NumberAt(row, ColumnIndex(labels, "children")),
      TextAt(row, ColumnIndex(labels, "smoker")),
      TextAt(row, ColumnIndex(labels, "region")),
      NumberAt(row, ColumnIndex(labels, "charges")))
  }

  /** The frame as a table of records, one per row, in row order. */
  function Records(f: Frame): (t: Table)
    ensures |t| == |f.rows|
    ensures forall i :: 0 <= i < |t| ==> t[i] == RowRecord(f.labels, f.rows[i])
  {
    seq(|f.rows|, i requires 0 <= i < |f.rows| => RowRecord(f.labels, f.rows[i]))
  }

  /** `k` is the first column labelled `name`. */
  predicate FirstAt(labels: seq<string>, name: string, k: int) {
    0 <= k < |labels| && labels[k] == name && forall m :: 0 <= m < k ==> labels[m] != name
  }

  /** The number in cell `k` of a row; anything else reads as missing. */
  function NumberCell(row: seq<Cell>, k: int): Option<real> {
    if 0 <= k < |row| && row[k].Num? then Some(row[k].x) else None
  }

  /** The text in cell `k` of a row; anything else reads as missing. */
  function TextCell(row: seq<Cell>, k: int): Option<string> {
    if 0 <= k < |row| && row[k].Str? then Some(row[k].s) else None
  }

  lemma FirstAtIndex(labels: seq<string>)
    ensures forall name, k :: FirstAt(labels, name, k) ==> ColumnIndex(labels, name) == Some(k)
  {
    forall name, k | FirstAt(labels, name, k) ensures ColumnIndex(labels, name) == Some(k) {
      assert labels[k] in labels;
    }
  }

  /** `df[name]` on a frame: each field of a record is read from the first
      column with that field's name, in the record's own row; a field whose
      name labels no column is missing. */
  lemma RecordsByColumn(f: Frame)
    ensures forall i, k :: 0 <= i < |f.rows| && FirstAt(f.labels, "age", k) ==> Records(f)[i].age == NumberCell(f.rows[i], k)
    ensures forall i, k :: 0 <= i < |f.rows| && FirstAt(f.labels, "sex", k) ==> Records(f)[i].sex == TextCell(f.rows[i], k)
    ensures forall i, k :: 0 <= i < |f.rows| && FirstAt(f.labels, "bmi", k) ==> Records(f)[i].bmi == NumberCell(f.rows[i], k)
    ensures forall i, k :: 0 <= i < |f.rows| && FirstAt(f.labels, "children", k) ==> Records(f)[i].children == NumberCell(f.rows[i], k)
    ensures forall i, k :: 0 <= i < |f.rows| && FirstAt(f.labels, "smoker", k) ==> Records(f)[i].smoker == TextCell(f.rows[i], k)
    ensures forall i, k :: 0 <= i < |f.rows| && FirstAt(f.labels, "region", k) ==> Records(f)[i].region == TextCell(f.rows[i], k)
    ensures forall i, k :: 0 <= i < |f.rows| && FirstAt(f.labels, "charges", k) ==> Records(f)[i].charges == NumberCell(f.rows[i], k)
    ensures forall i :: 0 <= i < |f.rows| && "age" !in f.labels ==> Records(f)[i].age.None?
    ensures forall i :: 0 <= i < |f.rows| && "sex" !in f.labels ==> Records(f)[i].sex.None?
    ensures forall i :: 0 <= i < |f.rows| && "bmi" !in f.labels ==> Records(f)[i].bmi.None?
    ensures forall i :: 0 <= i < |f.rows| && "children" !in f.labels ==> Records(f)[i].children.None?
    ensures forall i :: 0 <= i < |f.rows| && "smoker" !in f.labels ==> Records(f)[i].smoker.None?
    ensures forall i :: 0 <= i < |f.rows| && "region" !in f.labels ==> Records(f)[i].region.None?
    ensures forall i :: 0 <= i < |f.rows| && "charges" !in f.labels ==> Records(f)[i].charges.None?
  {
    FirstAtIndex(f.labels);
  }

  /** All four numeric fields are present: what `dropna(subset=...)` guarantees. */
  predicate NumericPresent(r: Record) {
    r.age.Some? && r.bmi.Some? && r.children.Some? && r.charges.Some?
  }
}
