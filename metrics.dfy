/** What the page computes from the filtered table: the smoker percentage, the
    mean charges, the per-region means behind the bar chart, and the
    region x smoker pivot. */
module Metrics {
  import opened Wrappers
  import opened Seqs
  import opened Text
  import opened Table
  import opened Filters

  predicate IsSmoker(r: Record) {
    r.smoker == Some("yes")
  }

  function SmokerCount(t: Table): (n: nat)
    ensures n <= |t|
    ensures n == 0 <==> forall i :: 0 <= i < |t| ==> !IsSmoker(t[i])
  {
    var s := Where(t, IsSmoker);
    assert s != [] ==> s[0] in s;
    |s|
  }

  /** `fdf["smoker"].eq("yes").mean() * 100` when "yes" occurs, else 0. */
  function SmokerRate(t: Table): (rate: real)
    ensures SmokerCount(t) == 0 ==> rate == 0.0
    ensures SmokerCount(t) > 0 ==> rate == 100.0 * SmokerCount(t) as real / |t| as real
    ensures SmokerCount(t) > 0 ==> 0.0 < rate <= 100.0
  {
    if exists i :: 0 <= i < |t| && t[i].smoker == Some("yes") then
      PercentageBounds(SmokerCount(t) as real, |t| as real);
      100.0 * SmokerCount(t) as real / |t| as real
    else 0.0
  }

  lemma PercentageBounds(n: real, m: real)
    requires 0.0 < n <= m
    ensures 0.0 < 100.0 * n / m <= 100.0
  {
    var q := 100.0 * n / m;
    assert q * m == 100.0 * n;
  }

  /** The `"yes" in unique()` guard only matters on the empty table: everywhere
      else the rate is the plain percentage of smokers. */
  lemma SmokerRateIsPercentage(t: Table)
    requires t != []
    ensures SmokerRate(t) == 100.0 * SmokerCount(t) as real / |t| as real
  {
  }

  function Sum(xs: seq<real>): real {
    if xs == [] then 0.0 else xs[0] + Sum(xs[1..])
  }

  function Mean(xs: seq<real>): real
    requires xs != []
  {
    Sum(xs) / |xs| as real
  }

  function MinOf(xs: seq<real>): (m: real)
    requires xs != []
    ensures m in xs && forall i :: 0 <= i < |xs| ==> m <= xs[i]
  {
    if |xs| == 1 then xs[0]
    else
      var rest := MinOf(xs[1..]);
      assert forall i :: 1 <= i < |xs| ==> xs[i] == xs[1..][i - 1];
      if xs[0] <= rest then xs[0] else rest
  }

  function MaxOf(xs: seq<real>): (m: real)
    requires xs != []
    ensures m in xs && forall i :: 0 <= i < |xs| ==> xs[i] <= m
  {
    if |xs| == 1 then xs[0]
    else
      var rest := MaxOf(xs[1..]);
      assert forall i :: 1 <= i < |xs| ==> xs[i] == xs[1..][i - 1];
      if xs[0] >= rest then xs[0] else rest
  }

  lemma {:induction false} SumBounds(xs: seq<real>, lo: real, hi: real)
    requires forall i :: 0 <= i < |xs| ==> lo <= xs[i] <= hi
    ensures |xs| as real * lo <= Sum(xs) <= |xs| as real * hi
  {
    if xs != [] {
      SumBounds(xs[1..], lo, hi);
      var n := |xs[1..]| as real;
      assert (n + 1.0) * lo == n * lo + lo;
      assert (n + 1.0) * hi == n * hi + hi;
    }
  }

  /** A mean lies between the least and the greatest of the values. */
  lemma MeanWithin(xs: seq<real>)
    requires xs != []
    ensures MinOf(xs) <= Mean(xs) <= MaxOf(xs)
  {
    var lo, hi := MinOf(xs), MaxOf(xs);
    var s, n := Sum(xs), |xs| as real;
    SumBounds(xs, lo, hi);
    QuotientBetween(s, n, lo, hi);
    assert Mean(xs) == s / n;
  }

  lemma QuotientBetween(s: real, n: real, lo: real, hi: real)
    requires n > 0.0 && n * lo <= s <= n * hi
    ensures lo <= s / n <= hi
  {
    var q := s / n;
    assert q * n == s;
  }

  /** The present charges of the records satisfying `p`, in table order: one
      charge per such record, so a charge shared by two records counts twice. */
  function ChargesWhere(t: Table, p: Record -> bool): (xs: seq<real>)
    ensures forall x :: x in xs <==> exists i :: 0 <= i < |t| && p(t[i]) && t[i].charges == Some(x)
    ensures var w := Where(t, (r: Record) => p(r) && r.charges.Some?);
      |xs| == |w| && forall k :: 0 <= k < |w| ==> w[k].charges == Some(xs[k])
  {
    if t == [] then []
    else
      var rest := ChargesWhere(t[1..], p);
      assert forall i :: 1 <= i < |t| ==> t[i] == t[1..][i - 1];
      var w := Where(t, (r: Record) => p(r) && r.charges.Some?);
      var w' := Where(t[1..], (r: Record) => p(r) && r.charges.Some?);
      assert w == if p(t[0]) && t[0].charges.Some? then [t[0]] + w' else w';
      if p(t[0]) && t[0].charges.Some? then
        assert forall k :: 1 <= k < |w| ==> w[k] == w'[k - 1];
        [t[0].charges.value] + rest
      else rest
  }

  /** `fdf["charges"].mean()`: missing (NaN) when no charge is present. */
  function AvgCharges(t: Table): (m: Option<real>)
    ensures m.None? <==> forall i :: 0 <= i < |t| ==> t[i].charges.None?
    ensures m.Some? ==>
      var xs := ChargesWhere(t, r => true);
      xs != [] && MinOf(xs) <= m.value <= MaxOf(xs)
  {
    var xs := ChargesWhere(t, r => true);
    if xs == [] then None
    else
      MeanWithin(xs);
      Some(Mean(xs))
  }

  /** A charge shared by two records is counted twice in the mean. */
  lemma RepeatedChargeCounts()
    ensures AvgCharges([Charged(1.0), Charged(1.0), Charged(4.0)]) == Some(2.0)
  {
    var t := [Charged(1.0), Charged(1.0), Charged(4.0)];
    ChargesOfThree();
    var xs := [1.0, 1.0, 4.0];
    assert xs[1..][1..] == [4.0] && Sum([4.0]) == 4.0;
    assert Sum(xs) == 6.0;
  }

  /** A record with a charge and nothing else. */
  function Charged(x: real): Record {
    Record(None, None, None, None, None, None, Some(x))
  }

  lemma ChargesOfThree()
    ensures ChargesWhere([Charged(1.0), Charged(1.0), Charged(4.0)], r => true) == [1.0, 1.0, 4.0]
  {
    var t := [Charged(1.0), Charged(1.0), Charged(4.0)];
    assert t[1..][1..] == [Charged(4.0)];
    assert ChargesWhere(t[1..][1..], r => true) == [4.0];
    assert ChargesWhere(t[1..], r => true) == [1.0, 4.0];
  }

  /** The distinct regions of the table (`groupby` drops a missing key). */
  function RegionsPresent(t: Table): set<string> {
    set i | 0 <= i < |t| && t[i].region.Some? :: t[i].region.value
  }

  function RegionCharges(t: Table, g: string): seq<real> {
    ChargesWhere(t, (r: Record) => r.region == Some(g))
  }

  /** `groupby("region")["charges"].mean()` for one region: missing (NaN)
      exactly when none of the region's records has a charge, and otherwise
      between the region's least and greatest charge. */
  function RegionMean(t: Table, g: string): (m: Option<real>)
    ensures m.None? <==> forall i :: 0 <= i < |t| && t[i].region == Some(g) ==> t[i].charges.None?
    ensures m.Some? ==> MinOf(RegionCharges(t, g)) <= m.value <= MaxOf(RegionCharges(t, g))
  {
    var xs := RegionCharges(t, g);
    if xs == [] then None
    else
      MeanWithin(xs);
      assert xs[0] in xs;
      Some(Mean(xs))
  }

  type Entry = (string, Option<real>)

  /** `a` sorts no later than `b` in `sort_values(ascending=False)`: larger
      first, NaN last. */
  predicate AtLeast(a: Option<real>, b: Option<real>) {
    b.None? || (a.Some? && a.value >= b.value)
  }

  predicate NonIncreasing(es: seq<Entry>) {
    forall i, j :: 0 <= i < j < |es| ==> AtLeast(es[i].1, es[j].1)
  }

  predicate Distinct(es: seq<Entry>) {
    forall i, j :: 0 <= i < j < |es| ==> es[i] != es[j]
  }

  function InsertByMean(e: Entry, s: seq<Entry>): (r: seq<Entry>)
    ensures multiset(r) == multiset(s) + multiset{e}
    ensures NonIncreasing(s) ==> NonIncreasing(r)
  {
    if s == [] || AtLeast(e.1, s[0].1) then [e] + s
    else
      var tail := InsertByMean(e, s[1..]);
      assert s == [s[0]] + s[1..];
      InsertedHead(e, s, tail);
      [s[0]] + tail
  }

  lemma InsertedHead(e: Entry, s: seq<Entry>, tail: seq<Entry>)
    requires s != [] && !AtLeast(e.1, s[0].1)
    requires multiset(tail) == multiset(s[1..]) + multiset{e}
    requires NonIncreasing(s[1..]) ==> NonIncreasing(tail)
    ensures NonIncreasing(s) ==> NonIncreasing([s[0]] + tail)
  {
    if NonIncreasing(s) {
      var r := [s[0]] + tail;
      assert forall j :: 1 <= j < |s| ==> s[j] == s[1..][j - 1];
      forall j | 0 <= j < |tail| ensures AtLeast(s[0].1, tail[j].1) {
        assert tail[j] in multiset(tail);
        assert tail[j] == e || tail[j] in s[1..];
      }
      forall i, j | 0 <= i < j < |r| ensures AtLeast(r[i].1, r[j].1) {
        if i == 0 {
          assert r[j] == tail[j - 1];
        } else {
          assert r[i] == tail[i - 1] && r[j] == tail[j - 1];
        }
      }
    }
  }

  lemma {:induction false} InsertDistinct(e: Entry, s: seq<Entry>)
    requires e !in s && Distinct(s)
    ensures Distinct(InsertByMean(e, s))
  {
    if s != [] && !AtLeast(e.1, s[0].1) {
      assert forall j :: 1 <= j < |s| ==> s[j] == s[1..][j - 1];
      InsertDistinct(e, s[1..]);
      var tail := InsertByMean(e, s[1..]);
      assert s[0] !in multiset(tail) by {
        assert s[0] != e && s[0] !in s[1..];
      }
      var r := [s[0]] + tail;
      assert r == InsertByMean(e, s);
      forall i, j | 0 <= i < j < |r| ensures r[i] != r[j] {
        assert r[j] == tail[j - 1];
        if i > 0 {
          assert r[i] == tail[i - 1];
        } else {
          assert tail[j - 1] in multiset(tail);
        }
      }
    }
  }

  /** `sort_values(..., ascending=False)`; the order among equal means is not
      modelled. */
  function SortByMean(es: seq<Entry>): (r: seq<Entry>)
    ensures multiset(r) == multiset(es)
    ensures NonIncreasing(r)
  {
    if es == [] then []
    else
      var init := es[..|es| - 1];
      assert es == init + [es[|es| - 1]];
      InsertByMean(es[|es| - 1], SortByMean(init))
  }

  lemma {:induction false} SortKeepsDistinct(es: seq<Entry>)
    requires Distinct(es)
    ensures Distinct(SortByMean(es))
  {
    if es != [] {
      var init := es[..|es| - 1];
      var last := es[|es| - 1];
      assert es == init + [last];
      assert forall i, j :: 0 <= i < j < |init| ==> init[i] == es[i] && init[j] == es[j];
      SortKeepsDistinct(init);
      assert last !in init;
      assert last !in multiset(SortByMean(init));
      InsertDistinct(last, SortByMean(init));
    }
  }

  /** The grouped table before sorting: one row per region, regions in sorted
      order as `groupby` produces them. */
  function RegionEntries(t: Table): (es: seq<Entry>)
    ensures Distinct(es)
    ensures forall k :: 0 <= k < |es| ==> es[k].1 == RegionMean(t, es[k].0)
    ensures forall g :: (exists k :: 0 <= k < |es| && es[k].0 == g) <==> g in RegionsPresent(t)
  {
    var regions := Options(RegionColumn(t));
    var es := seq(|regions|, k requires 0 <= k < |regions| => (regions[k], RegionMean(t, regions[k])));
    forall g ensures (exists k :: 0 <= k < |es| && es[k].0 == g) <==> g in RegionsPresent(t) {
      RegionOption(t, g);
      if g in regions {
        var k :| 0 <= k < |regions| && regions[k] == g;
        assert es[k].0 == g;
      }
    }
    es
  }

  lemma RegionOption(t: Table, g: string)
    ensures g in Options(RegionColumn(t)) <==> g in RegionsPresent(t)
  {
    var col := RegionColumn(t);
    if g in RegionsPresent(t) {
      var i :| 0 <= i < |t| && t[i].region.Some? && t[i].region.value == g;
      assert col[i] == Some(g);
    }
    if Some(g) in col {
      var i :| 0 <= i < |col| && col[i] == Some(g);
      assert t[i].region.value == g;
    }
  }

  /** `bar_data`: exactly one entry per region of the table, each holding that
      region's mean charges, in non-increasing order of the mean. */
  function RegionMeans(t: Table): (r: seq<Entry>)
    ensures forall k :: 0 <= k < |r| ==> r[k].1 == RegionMean(t, r[k].0)
    ensures forall g :: (exists k :: 0 <= k < |r| && r[k].0 == g) <==> g in RegionsPresent(t)
    ensures forall i, j :: 0 <= i < j < |r| ==> r[i].0 != r[j].0
    ensures NonIncreasing(r)
  {
    var es := RegionEntries(t);
    var r := SortByMean(es);
    SortKeepsDistinct(es);
    PermutedEntries(t, es, r);
    r
  }

  lemma PermutedEntries(t: Table, es: seq<Entry>, r: seq<Entry>)
    requires multiset(r) == multiset(es) && Distinct(r)
    requires forall k :: 0 <= k < |es| ==> es[k].1 == RegionMean(t, es[k].0)
    requires forall g :: (exists k :: 0 <= k < |es| && es[k].0 == g) <==> g in RegionsPresent(t)
    ensures forall k :: 0 <= k < |r| ==> r[k].1 == RegionMean(t, r[k].0)
    ensures forall g :: (exists k :: 0 <= k < |r| && r[k].0 == g) <==> g in RegionsPresent(t)
    ensures forall i, j :: 0 <= i < j < |r| ==> r[i].0 != r[j].0
  {
    forall k | 0 <= k < |r| ensures r[k].1 == RegionMean(t, r[k].0) && r[k].0 in RegionsPresent(t) {
      assert r[k] in multiset(es);
      var l :| 0 <= l < |es| && es[l] == r[k];
    }
    forall g | g in RegionsPresent(t) ensures exists k :: 0 <= k < |r| && r[k].0 == g {
      var l :| 0 <= l < |es| && es[l].0 == g;
      assert es[l] in multiset(r);
      var k :| 0 <= k < |r| && r[k] == es[l];
    }
  }

  function PairCharges(t: Table, region: string, smoker: string): seq<real> {
    ChargesWhere(t, (r: Record) => r.region == Some(region) && r.smoker == Some(smoker))
  }

  /** The (region, smoker) pairs that occur in the table. */
  function PairsPresent(t: Table): set<(string, string)> {
    set i | 0 <= i < |t| && t[i].region.Some? && t[i].smoker.Some? :: (t[i].region.value, t[i].smoker.value)
  }

  /** `pivot_table(index="region", columns="smoker", values="charges",
      aggfunc="mean")` as a map from (region, smoker) to mean charges; a pair
      with no charge has no cell. */
  function Pivot(t: Table): (m: map<(string, string), real>)
    ensures m.Keys == PairsCharged(t)
    ensures forall p :: p in m ==>
      PairCharges(t, p.0, p.1) != [] && MinOf(PairCharges(t, p.0, p.1)) <= m[p] <= MaxOf(PairCharges(t, p.0, p.1))
  {
    PairsChargedKeys(t);
    PairMeansWithin(t);
    map p | p in PairsPresent(t) && PairCharges(t, p.0, p.1) != [] :: Mean(PairCharges(t, p.0, p.1))
  }

  /** The (region, smoker) pairs of the records that have a charge. */
  function PairsCharged(t: Table): set<(string, string)> {
    set i | 0 <= i < |t| && t[i].region.Some? && t[i].smoker.Some? && t[i].charges.Some? ::
      (t[i].region.value, t[i].smoker.value)
  }

  lemma PairsChargedKeys(t: Table)
    ensures (set p | p in PairsPresent(t) && PairCharges(t, p.0, p.1) != []) == PairsCharged(t)
  {
    forall p | p in PairsPresent(t) && PairCharges(t, p.0, p.1) != [] ensures p in PairsCharged(t) {
      var xs := PairCharges(t, p.0, p.1);
      assert xs[0] in xs;
    }
    forall p | p in PairsCharged(t) ensures p in PairsPresent(t) && PairCharges(t, p.0, p.1) != [] {
      var i :| 0 <= i < |t| && t[i].region.Some? && t[i].smoker.Some? && t[i].charges.Some? &&
        p == (t[i].region.value, t[i].smoker.value);
      assert t[i].charges.value in PairCharges(t, p.0, p.1);
    }
  }

  lemma PairMeansWithin(t: Table)
    ensures forall p: (string, string) :: PairCharges(t, p.0, p.1) != [] ==>
      MinOf(PairCharges(t, p.0, p.1)) <= Mean(PairCharges(t, p.0, p.1)) <= MaxOf(PairCharges(t, p.0, p.1))
  {
    forall p: (string, string) | PairCharges(t, p.0, p.1) != []
      ensures MinOf(PairCharges(t, p.0, p.1)) <= Mean(PairCharges(t, p.0, p.1)) <= MaxOf(PairCharges(t, p.0, p.1))
    {
      MeanWithin(PairCharges(t, p.0, p.1));
    }
  }

  /** The pivot has a cell for a pair exactly when some record has that region,
      that smoker status and a charge; the cell lies between that pair's least
      and greatest charge. Pairs that do not occur are absent, not zero. */
  lemma PivotSpec(t: Table, region: string, smoker: string)
    ensures (region, smoker) in Pivot(t) <==>
      exists i :: 0 <= i < |t| && t[i].region == Some(region) && t[i].smoker == Some(smoker) && t[i].charges.Some?
    ensures (region, smoker) in Pivot(t) ==>
      var xs := PairCharges(t, region, smoker);
      xs != [] && MinOf(xs) <= Pivot(t)[(region, smoker)] <= MaxOf(xs)
  {
    var xs := PairCharges(t, region, smoker);
    if exists i :: 0 <= i < |t| && t[i].region == Some(region) && t[i].smoker == Some(smoker) && t[i].charges.Some? {
      var i :| 0 <= i < |t| && t[i].region == Some(region) && t[i].smoker == Some(smoker) && t[i].charges.Some?;
      assert t[i].charges.value in xs;
      assert (region, smoker) in PairsPresent(t);
    }
    if xs != [] {
      assert xs[0] in xs;
      MeanWithin(xs);
    }
  }

  /** When every record has a charge (as after `load_data`), the pivot's cells
      are exactly the pairs that occur. */
  lemma PivotKeysWithCharges(t: Table)
    requires forall i :: 0 <= i < |t| ==> t[i].charges.Some?
    ensures Pivot(t).Keys == PairsPresent(t)
  {
    forall p | p in PairsPresent(t) ensures p in Pivot(t) {
      PivotSpec(t, p.0, p.1);
    }
  }

  /** Every region of the pivot has a bar in the region chart. */
  lemma PivotRegionsCharted(t: Table, region: string, smoker: string)
    requires (region, smoker) in Pivot(t)
    ensures exists k :: 0 <= k < |RegionMeans(t)| && RegionMeans(t)[k].0 == region
  {
    PivotSpec(t, region, smoker);
    var i :| 0 <= i < |t| && t[i].region == Some(region) && t[i].smoker == Some(smoker) && t[i].charges.Some?;
    assert t[i].region.value == region;
    assert region in RegionsPresent(t);
    var r := RegionMeans(t);
  }

  /** An over-constrained filter leaves the empty table, and every aggregate
      of the page still has a value: no smokers, no mean, no bars, no cells. */
  lemma EmptyTableAggregates()
    ensures SmokerRate([]) == 0.0
    ensures AvgCharges([]) == None
    ensures RegionMeans([]) == []
    ensures Pivot([]) == map[]
  {
    assert RegionsPresent([]) == {};
    assert PairsPresent([]) == {};
  }

  /** Two policy holders; selecting only smokers keeps the first, whose charges
      are then the mean, and the smoker rate is 100 percent. */
  lemma TwoRecordScenario()
    ensures var first := Record(Some(19.0), Some("female"), Some(27.9), Some(0.0), Some("yes"), Some("southwest"), Some(16884.92));
      var second := Record(Some(18.0), Some("male"), Some(33.77), Some(1.0), Some("no"), Some("southeast"), Some(1725.55));
      var c := Criteria(18, 19, 27.0, 34.0, 0, 1, ["female", "male"], ["yes"], ["southeast", "southwest"]);
      && Filter([first, second], c) == [first]
      && AvgCharges([first]) == Some(16884.92)
      && SmokerRate([first]) == 100.0
  {
    var first := Record(Some(19.0), Some("female"), Some(27.9), Some(0.0), Some("yes"), Some("southwest"), Some(16884.92));
    var second := Record(Some(18.0), Some("male"), Some(33.77), Some(1.0), Some("no"), Some("southeast"), Some(1725.55));
    var c := Criteria(18, 19, 27.0, 34.0, 0, 1, ["female", "male"], ["yes"], ["southeast", "southwest"]);
    assert Keep(first, c) && !Keep(second, c);
    assert ChargesWhere([first], r => true) == [16884.92];
    assert SmokerCount([first]) == 1 by {
      assert Where([first], IsSmoker) == [first];
    }
  }
}
