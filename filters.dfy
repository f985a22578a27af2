/** The sidebar filters: default control values, the option lists of the
    multiselects, and the six-way mask applied to the table. */
module Filters {
  import opened Wrappers
  import opened Seqs
  import opened Text
  import opened Table

  /** The control values: three inclusive slider ranges and three multiselects. */
  datatype Criteria = Criteria(
    ageLo: int, ageHi: int,
    bmiLo: real, bmiHi: real,
    childrenLo: int, childrenHi: int,
    sexes: seq<string>, smokers: seq<string>, regions: seq<string>)

  /** `Series.between(lo, hi)`: inclusive at both ends; a missing value is never between. */
  predicate Between(v: Option<real>, lo: real, hi: real) {
    v.Some? && lo <= v.value <= hi
  }

  /** `Series.isin(sel)`: a missing value is in no selection of strings. */
  predicate IsIn(v: Option<string>, sel: seq<string>) {
    v.Some? && v.value in sel
  }

  /** The mask of main.py:102-109 for one record. */
  predicate Keep(r: Record, c: Criteria) {
    && Between(r.age, c.ageLo as real, c.ageHi as real)
    && Between(r.bmi, c.bmiLo, c.bmiHi)
    && Between(r.children, c.childrenLo as real, c.childrenHi as real)
    && IsIn(r.sex, c.sexes)
    && IsIn(r.smoker, c.smokers)
    && IsIn(r.region, c.regions)
  }

  /** `df.loc[mask]`: the records that pass all six tests, and only those. */
  function Filter(t: Table, c: Criteria): (r: Table)
    ensures |r| <= |t|
    ensures forall x :: x in r <==> x in t && Keep(x, c)
  {
    Where(t, x => Keep(x, c))
  }

  /** The filtered table is the input with some records removed: positions
      kept in increasing order, and a position is kept iff its record passes. */
  lemma FilterOrder(t: Table, c: Criteria) returns (idx: seq<int>)
    ensures SubsequenceAt(Filter(t, c), t, idx)
    ensures forall i :: 0 <= i < |t| ==> (i in idx <==> Keep(t[i], c))
  {
    idx := WhereSubsequence(t, x => Keep(x, c));
  }

  /** An inverted range or an empty selection lets nothing through. */
  lemma FilterUnsatisfiable(t: Table, c: Criteria)
    requires || c.ageLo > c.ageHi || c.bmiLo > c.bmiHi || c.childrenLo > c.childrenHi
             || c.sexes == [] || c.smokers == [] || c.regions == []
    ensures Filter(t, c) == []
  {
    WhereNone(t, x => Keep(x, c));
  }

  /** Filtering an already filtered table with the same controls changes nothing. */
  lemma FilterIdempotent(t: Table, c: Criteria)
    ensures Filter(Filter(t, c), c) == Filter(t, c)
  {
    WhereIdempotent(t, x => Keep(x, c));
  }

  function AgeColumn(t: Table): (col: seq<Option<real>>)
    ensures |col| == |t| && forall i :: 0 <= i < |t| ==> col[i] == t[i].age
  {
    seq(|t|, i requires 0 <= i < |t| => t[i].age)
  }

  function BmiColumn(t: Table): (col: seq<Option<real>>)
    ensures |col| == |t| && forall i :: 0 <= i < |t| ==> col[i] == t[i].bmi
  {
    seq(|t|, i requires 0 <= i < |t| => t[i].bmi)
  }

  function ChildrenColumn(t: Table): (col: seq<Option<real>>)
    ensures |col| == |t| && forall i :: 0 <= i < |t| ==> col[i] == t[i].children
  {
    seq(|t|, i requires 0 <= i < |t| => t[i].children)
  }

  function SexColumn(t: Table): (col: seq<Option<string>>)
    ensures |col| == |t| && forall i :: 0 <= i < |t| ==> col[i] == t[i].sex
  {
    seq(|t|, i requires 0 <= i < |t| => t[i].sex)
  }

  function SmokerColumn(t: Table): (col: seq<Option<string>>)
    ensures |col| == |t| && forall i :: 0 <= i < |t| ==> col[i] == t[i].smoker
  {
    seq(|t|, i requires 0 <= i < |t| => t[i].smoker)
  }

  function RegionColumn(t: Table): (col: seq<Option<string>>)
    ensures |col| == |t| && forall i :: 0 <= i < |t| ==> col[i] == t[i].region
  {
    seq(|t|, i requires 0 <= i < |t| => t[i].region)
  }

  /** `col.dropna()`: the present values, in order. */
  function PresentValues(col: seq<Option<string>>): (r: seq<string>)
    ensures forall x :: x in r <==> Some(x) in col
  {
    if col == [] then []
    else match col[0]
      case Some(x) => [x] + PresentValues(col[1..])
      case None => PresentValues(col[1..])
  }

  /** `sorted(col.dropna().unique().tolist())`: each distinct present value
      exactly once, in increasing order. */
  function Options(col: seq<Option<string>>): (r: seq<string>)
    ensures StrictlySorted(r)
    ensures forall i, j :: 0 <= i < j < |r| ==> r[i] != r[j]
    ensures forall x :: x in r <==> Some(x) in col
  {
    var r := SortDistinct(PresentValues(col));
    StrictlySortedDistinct(r);
    r
  }

  /** `col.min()`: the least present value; missing when no value is present. */
  function MinPresent(col: seq<Option<real>>): (m: Option<real>)
    ensures m.None? <==> forall i :: 0 <= i < |col| ==> col[i].None?
    ensures m.Some? ==> m in col
    ensures m.Some? ==> forall i :: 0 <= i < |col| && col[i].Some? ==> m.value <= col[i].value
  {
    if col == [] then None
    else
      var rest := MinPresent(col[1..]);
      assert forall i :: 1 <= i < |col| ==> col[i] == col[1..][i - 1];
      if col[0].None? then rest
      else if rest.None? || col[0].value <= rest.value then col[0]
      else rest
  }

  /** `col.max()`: the greatest present value; missing when no value is present. */
  function MaxPresent(col: seq<Option<real>>): (m: Option<real>)
    ensures m.None? <==> forall i :: 0 <= i < |col| ==> col[i].None?
    ensures m.Some? ==> m in col
    ensures m.Some? ==> forall i :: 0 <= i < |col| && col[i].Some? ==> col[i].value <= m.value
  {
    if col == [] then None
    else
      var rest := MaxPresent(col[1..]);
      assert forall i :: 1 <= i < |col| ==> col[i] == col[1..][i - 1];
      if col[0].None? then rest
      else if rest.None? || col[0].value >= rest.value then col[0]
      else rest
  }

  /** Python's `int(x)` on a float: rounds toward zero. */
  function TruncToInt(x: real): (n: int)
    ensures x >= 0.0 ==> n as real <= x < n as real + 1.0
    ensures x < 0.0 ==> n as real - 1.0 < x <= n as real
  {
    if x >= 0.0 then x.Floor else -((-x).Floor)
  }

  /** `np.ceil(x)`: the least integer not below `x`. */
  function Ceil(x: real): (n: int)
    ensures n as real - 1.0 < x <= n as real
  {
    -((-x).Floor)
  }

  predicate Whole(x: real) {
    x.Floor as real == x
  }

  /** The controls as the page first shows them (main.py:83-99): full ranges
      (ages and children truncated by `int`, bmi widened by floor and ceil) and
      every option selected. `int()` of a missing minimum raises, and a bmi
      slider without bounds cannot be built, so a numeric column with no value
      yields no controls. The defaults exist exactly when age, bmi and children
      each have a value, and then every present sex, smoker status and region
      is selected. */
  function DefaultCriteria(t: Table): (c: Option<Criteria>)
    ensures c.None? <==>
      || (forall i :: 0 <= i < |t| ==> t[i].age.None?)
      || (forall i :: 0 <= i < |t| ==> t[i].bmi.None?)
      || (forall i :: 0 <= i < |t| ==> t[i].children.None?)
    ensures c.Some? ==> forall i :: 0 <= i < |t| && t[i].sex.Some? ==> t[i].sex.value in c.value.sexes
    ensures c.Some? ==> forall i :: 0 <= i < |t| && t[i].smoker.Some? ==> t[i].smoker.value in c.value.smokers
    ensures c.Some? ==> forall i :: 0 <= i < |t| && t[i].region.Some? ==> t[i].region.value in c.value.regions
  {
    var ages, bmis, kids := AgeColumn(t), BmiColumn(t), ChildrenColumn(t);
    var sexes, smokers, regions := SexColumn(t), SmokerColumn(t), RegionColumn(t);
    assert (forall i :: 0 <= i < |t| ==> t[i].age.None?) <==> (forall i :: 0 <= i < |ages| ==> ages[i].None?);
    assert (forall i :: 0 <= i < |t| ==> t[i].bmi.None?) <==> (forall i :: 0 <= i < |bmis| ==> bmis[i].None?);
    assert (forall i :: 0 <= i < |t| ==> t[i].children.None?) <==> (forall i :: 0 <= i < |kids| ==> kids[i].None?);
    assert forall i :: 0 <= i < |t| ==> sexes[i] in sexes && smokers[i] in smokers && regions[i] in regions;
    var ageMin, ageMax := MinPresent(AgeColumn(t)), MaxPresent(AgeColumn(t));
    var bmiMin, bmiMax := MinPresent(BmiColumn(t)), MaxPresent(BmiColumn(t));
    var childMin, childMax := MinPresent(ChildrenColumn(t)), MaxPresent(ChildrenColumn(t));
    if ageMin.None? || bmiMin.None? || childMin.None? then None
    else Some(Criteria(
      TruncToInt(ageMin.value), TruncToInt(ageMax.value),
      bmiMin.value.Floor as real, Ceil(bmiMax.value) as real,
      TruncToInt(childMin.value), TruncToInt(childMax.value),
      Options(SexColumn(t)), Options(SmokerColumn(t)), Options(RegionColumn(t))))
  }

  lemma TruncWhole(x: real)
    requires Whole(x)
    ensures TruncToInt(x) as real == x
  {
    if x < 0.0 {
      var n := x.Floor;
      assert (-x).Floor == -n by {
        assert (-n) as real == -x;
      }
    }
  }

  /** A whole-number column's present values all lie in the truncated range of
      its minimum and maximum. */
  lemma WholeColumnInRange(col: seq<Option<real>>, i: int)
    requires forall k :: 0 <= k < |col| && col[k].Some? ==> Whole(col[k].value)
    requires 0 <= i < |col| && col[i].Some?
    ensures MinPresent(col).Some? && MaxPresent(col).Some?
    ensures TruncToInt(MinPresent(col).value) as real <= col[i].value <= TruncToInt(MaxPresent(col).value) as real
  {
    var lo, hi := MinPresent(col), MaxPresent(col);
    var j :| 0 <= j < |col| && col[j] == lo;
    var k :| 0 <= k < |col| && col[k] == hi;
    TruncWhole(lo.value);
    TruncWhole(hi.value);
  }

  /** The fields of the default controls, one by one. */
  lemma DefaultFields(t: Table)
    requires DefaultCriteria(t).Some?
    ensures var c := DefaultCriteria(t).value;
      && c.ageLo == TruncToInt(MinPresent(AgeColumn(t)).value)
      && c.ageHi == TruncToInt(MaxPresent(AgeColumn(t)).value)
      && c.bmiLo == MinPresent(BmiColumn(t)).value.Floor as real
      && c.bmiHi == Ceil(MaxPresent(BmiColumn(t)).value) as real
      && c.childrenLo == TruncToInt(MinPresent(ChildrenColumn(t)).value)
      && c.childrenHi == TruncToInt(MaxPresent(ChildrenColumn(t)).value)
      && c.sexes == Options(SexColumn(t))
      && c.smokers == Options(SmokerColumn(t))
      && c.regions == Options(RegionColumn(t))
  {
  }

  /** With whole-number ages and children, the default controls keep exactly
      the records that have all six filtered fields. */
  lemma DefaultsKeepComplete(t: Table)
    requires forall i :: 0 <= i < |t| && t[i].age.Some? ==> Whole(t[i].age.value)
    requires forall i :: 0 <= i < |t| && t[i].children.Some? ==> Whole(t[i].children.value)
    requires DefaultCriteria(t).Some?
    ensures forall i :: 0 <= i < |t| ==>
      (Keep(t[i], DefaultCriteria(t).value) <==>
        && t[i].age.Some? && t[i].bmi.Some? && t[i].children.Some?
        && t[i].sex.Some? && t[i].smoker.Some? && t[i].region.Some?)
  {
    DefaultFields(t);
    FullRangesKeepComplete(t, DefaultCriteria(t).value);
  }

  /** Controls spanning the whole columns and selecting every option keep
      exactly the records with all six fields. */
  lemma FullRangesKeepComplete(t: Table, c: Criteria)
    requires forall i :: 0 <= i < |t| && t[i].age.Some? ==> Whole(t[i].age.value)
    requires forall i :: 0 <= i < |t| && t[i].children.Some? ==> Whole(t[i].children.value)
    requires MinPresent(AgeColumn(t)).Some? && MinPresent(BmiColumn(t)).Some? && MinPresent(ChildrenColumn(t)).Some?
    requires MaxPresent(AgeColumn(t)).Some? && MaxPresent(BmiColumn(t)).Some? && MaxPresent(ChildrenColumn(t)).Some?
    requires c.ageLo == TruncToInt(MinPresent(AgeColumn(t)).value)
    requires c.ageHi == TruncToInt(MaxPresent(AgeColumn(t)).value)
    requires c.bmiLo == MinPresent(BmiColumn(t)).value.Floor as real
    requires c.bmiHi == Ceil(MaxPresent(BmiColumn(t)).value) as real
    requires c.childrenLo == TruncToInt(MinPresent(ChildrenColumn(t)).value)
    requires c.childrenHi == TruncToInt(MaxPresent(ChildrenColumn(t)).value)
    requires c.sexes == Options(SexColumn(t))
    requires c.smokers == Options(SmokerColumn(t))
    requires c.regions == Options(RegionColumn(t))
    ensures forall i :: 0 <= i < |t| ==>
      (Keep(t[i], c) <==>
        && t[i].age.Some? && t[i].bmi.Some? && t[i].children.Some?
        && t[i].sex.Some? && t[i].smoker.Some? && t[i].region.Some?)
  {
    var ages, bmis, kids := AgeColumn(t), BmiColumn(t), ChildrenColumn(t);
    var sexes, smokers, regions := SexColumn(t), SmokerColumn(t), RegionColumn(t);
    forall i | 0 <= i < |t| && t[i].age.Some? && t[i].bmi.Some? && t[i].children.Some?
                && t[i].sex.Some? && t[i].smoker.Some? && t[i].region.Some?
      ensures Keep(t[i], c)
    {
      WholeColumnInRange(ages, i);
      WholeColumnInRange(kids, i);
      assert bmis[i] == t[i].bmi;
      assert sexes[i] == t[i].sex && smokers[i] == t[i].smoker && regions[i] == t[i].region;
    }
  }

  /** `int()` truncation is why whole numbers are needed: a fractional oldest
      age falls outside the default age range. */
  lemma FractionalAgeDropped()
    ensures var t := [Record(Some(30.5), Some("female"), Some(20.0), Some(0.0), Some("no"), Some("north"), Some(100.0))];
      DefaultCriteria(t).Some? && Filter(t, DefaultCriteria(t).value) == []
  {
    var t := [Record(Some(30.5), Some("female"), Some(20.0), Some(0.0), Some("no"), Some("north"), Some(100.0))];
    assert MaxPresent(AgeColumn(t)) == Some(30.5);
    assert TruncToInt(30.5) == 30;
    FilterUnsatisfiableRecord(t, DefaultCriteria(t).value);
  }

  lemma FilterUnsatisfiableRecord(t: Table, c: Criteria)
    requires forall x :: x in t ==> !Keep(x, c)
    ensures Filter(t, c) == []
  {
    WhereNone(t, x => Keep(x, c));
  }
}
