/** Gauge panels (src/components/View/View.tsx): the colour band a value
    falls in, and the percentage of the [min, max] range it reaches.
    Numbers are exact reals; the JavaScript code works in doubles. */
module Gauge {

  import opened Values
  import Sorting

  datatype Threshold = Threshold(value: real, color: string)

  datatype GaugeConfig = GaugeConfig(min: real, max: real, thresholds: Option<seq<Threshold>>)

  /** What one gauge card shows. */
  datatype GaugeData = GaugeData(
    percent: real,
    originalValue: real,
    color: string,
    max: real,
    min: real,
    caption: JsValue)

  /** The colour used when no threshold applies. */
  const DefaultColor: string := "#10b981"

  // ---------------------------------------------------------------------
  // Threshold order

  /** The comparator `(a, b) => a.value - b.value` is negative exactly when `a.value < b.value`. */
  predicate ByValue(a: Threshold, b: Threshold) {
    a.value < b.value
  }

  lemma ByValueStrictWeakOrder(dom: seq<Threshold>)
    ensures Sorting.StrictWeakOrder(ByValue, dom)
  {
  }

  /** Ascending by value: no threshold is above a later one. */
  predicate Ascending(ts: seq<Threshold>) {
    forall i, j :: 0 <= i < j < |ts| ==> ts[i].value <= ts[j].value
  }

  /** `[...thresholds].sort((a, b) => a.value - b.value)`. */
  function SortByValue(ts: seq<Threshold>): (r: seq<Threshold>)
    ensures multiset(r) == multiset(ts)
    ensures Ascending(r)
  {
    ByValueStrictWeakOrder(ts);
    assert Sorting.Within(ts, ts);
    Sorting.SortSorted(ts, ByValue, ts);
    Sorting.Sort(ts, ByValue)
  }

  /** Thresholds with the same value keep their input order after sorting. */
  lemma EqualValuesKeepOrder(ts: seq<Threshold>, k: Threshold)
    requires k in ts
    ensures Sorting.TiedWith(SortByValue(ts), k, ByValue) == Sorting.TiedWith(ts, k, ByValue)
  {
    ByValueStrictWeakOrder(ts);
    Sorting.SortStable(ts, k, ByValue, ts);
  }

  // ---------------------------------------------------------------------
  // getGaugeColor

  /** The loop over the sorted thresholds, from position `i`: the first
      threshold whose band [value, next value) contains `v`. */
  function Scan(v: real, sorted: seq<Threshold>, i: nat): Option<string>
    requires i <= |sorted|
    decreases |sorted| - i
  {
    if i == |sorted| then None
    else if (i + 1 == |sorted| || v < sorted[i + 1].value) && v >= sorted[i].value then Some(sorted[i].color)
    else Scan(v, sorted, i + 1)
  }

  /** `getGaugeColor(value, thresholds)`. */
  function GaugeColor(v: real, thresholds: seq<Threshold>): (color: string)
    ensures |thresholds| == 0 ==> color == DefaultColor
  {
    var sorted := SortByValue(thresholds);
    match Scan(v, sorted, 0)
    case Some(c) => c
    case None => if |sorted| > 0 && sorted[0].color != "" then sorted[0].color else DefaultColor
  }

  /** `v` lies in the band of threshold `b` of an ascending list. */
  predicate InBand(v: real, sorted: seq<Threshold>, b: nat) {
    b < |sorted| && sorted[b].value <= v && (b + 1 == |sorted| || v < sorted[b + 1].value)
  }

  lemma {:induction false} ScanFindsBand(v: real, sorted: seq<Threshold>, i: nat, b: nat)
    requires Ascending(sorted) && InBand(v, sorted, b) && i <= b
    ensures Scan(v, sorted, i) == Some(sorted[b].color)
    decreases b - i
  {
    if i < b {
      assert sorted[i + 1].value <= sorted[b].value;
      ScanFindsBand(v, sorted, i + 1, b);
    }
  }

  lemma {:induction false} ScanMissesBelow(v: real, sorted: seq<Threshold>, i: nat)
    requires Ascending(sorted) && i <= |sorted|
    requires |sorted| > 0 && v < sorted[0].value
    ensures Scan(v, sorted, i) == None
    decreases |sorted| - i
  {
    if i < |sorted| {
      assert sorted[0].value <= sorted[i].value;
      ScanMissesBelow(v, sorted, i + 1);
    }
  }

  /** A value at or above the lowest threshold lies in some band. */
  lemma {:induction false} BandExists(v: real, sorted: seq<Threshold>, i: nat)
    requires Ascending(sorted) && i < |sorted| && sorted[i].value <= v
    ensures exists b: nat :: i <= b && InBand(v, sorted, b)
    decreases |sorted| - i
  {
    if !InBand(v, sorted, i) {
      BandExists(v, sorted, i + 1);
    }
  }

  /** The threshold whose band [value, next value) of the sorted list holds
      `v` gives the colour. */
  lemma BandColor(v: real, thresholds: seq<Threshold>, b: nat)
    requires InBand(v, SortByValue(thresholds), b)
    ensures GaugeColor(v, thresholds) == SortByValue(thresholds)[b].color
  {
    ScanFindsBand(v, SortByValue(thresholds), 0, b);
  }

  /** A value below every threshold gets the lowest threshold's colour, or
      the default colour when that colour is the empty string. */
  lemma BelowAllThresholds(v: real, thresholds: seq<Threshold>)
    requires |thresholds| > 0
    requires forall i :: 0 <= i < |thresholds| ==> v < thresholds[i].value
    ensures var lowest := SortByValue(thresholds)[0];
            && lowest in thresholds
            && (forall i :: 0 <= i < |thresholds| ==> lowest.value <= thresholds[i].value)
            && GaugeColor(v, thresholds) == (if lowest.color == "" then DefaultColor else lowest.color)
  {
    var sorted := SortByValue(thresholds);
    assert sorted[0] in multiset(thresholds);
    forall i | 0 <= i < |thresholds|
      ensures sorted[0].value <= thresholds[i].value
    {
      assert thresholds[i] in multiset(sorted);
      var j :| 0 <= j < |sorted| && sorted[j] == thresholds[i];
    }
    ScanMissesBelow(v, sorted, 0);
  }

  /** A value at or above some threshold takes its colour from a band of the
      sorted list: the fallback is used only below every threshold. */
  lemma AtOrAboveSomeThreshold(v: real, thresholds: seq<Threshold>, i: nat)
    requires i < |thresholds| && thresholds[i].value <= v
    ensures exists b: nat :: InBand(v, SortByValue(thresholds), b) &&
                        GaugeColor(v, thresholds) == SortByValue(thresholds)[b].color
  {
    var sorted := SortByValue(thresholds);
    assert thresholds[i] in multiset(sorted);
    var j :| 0 <= j < |sorted| && sorted[j] == thresholds[i];
    assert sorted[0].value <= v;
    BandExists(v, sorted, 0);
    var b :| 0 <= b && InBand(v, sorted, b);
    BandColor(v, thresholds, b);
  }

  /** No two thresholds share a value. */
  predicate DistinctValues(ts: seq<Threshold>) {
    forall i, j :: 0 <= i < |ts| && 0 <= j < |ts| && ts[i].value == ts[j].value ==> i == j
  }

  /** With distinct values the input order of the thresholds does not matter. */
  lemma OrderIndependent(v: real, t1: seq<Threshold>, t2: seq<Threshold>)
    requires multiset(t1) == multiset(t2)
    requires DistinctValues(t1)
    ensures GaugeColor(v, t1) == GaugeColor(v, t2)
  {
    var s1, s2 := SortByValue(t1), SortByValue(t2);
    assert Sorting.NoTies(ByValue, t1);
    assert Sorting.Within(s1, t1) by {
      forall i | 0 <= i < |s1|
        ensures s1[i] in t1
      {
        assert s1[i] in multiset(t1);
      }
    }
    Sorting.SortedUnique(s1, s2, ByValue, t1);
  }

  // ---------------------------------------------------------------------
  // generateGaugeData

  /** Bounds of a quotient by a positive number. */
  lemma DivBounds(x: real, d: real)
    requires d > 0.0
    ensures (x / d) * d == x
    ensures x <= 0.0 ==> x / d <= 0.0
    ensures x >= d ==> x / d >= 1.0
    ensures x <= d ==> x / d <= 1.0
  {
    var q := x / d;
    assert q * d == x;
    if q > 0.0 {
      PositiveProduct(q, d);
    }
    if q < 1.0 {
      PositiveProduct(1.0 - q, d);
      assert (1.0 - q) * d == d - q * d;
    }
    if q > 1.0 {
      PositiveProduct(q - 1.0, d);
      assert (q - 1.0) * d == q * d - d;
    }
  }

  /** Facts about the unclamped ratio `(v - min) / (max - min) * 100`. */
  lemma RawPercentage(v: real, min: real, max: real)
    requires max > min
    ensures var raw := (v - min) / (max - min) * 100.0;
            && (v <= min ==> raw <= 0.0)
            && (v >= max ==> raw >= 100.0)
            && (min <= v <= max ==> 0.0 <= raw <= 100.0)
            && raw * (max - min) == (v - min) * 100.0
  {
    DivBounds(v - min, max - min);
  }

  /** The share of [min, max] reached by `v`, as a percentage clamped to [0, 100]. */
  function Percentage(v: real, min: real, max: real): (p: real)
    requires max > min
    ensures 0.0 <= p <= 100.0
    ensures v <= min ==> p == 0.0
    ensures v >= max ==> p == 100.0
    ensures min <= v <= max ==> p * (max - min) == (v - min) * 100.0
  {
    RawPercentage(v, min, max);
    var raw := (v - min) / (max - min) * 100.0;
    var capped := if raw < 100.0 then raw else 100.0;
    if capped > 0.0 then capped else 0.0
  }

  /** A larger value never shows a smaller percentage. */
  lemma PercentageMonotone(v: real, w: real, min: real, max: real)
    requires max > min && v <= w
    ensures Percentage(v, min, max) <= Percentage(w, min, max)
  {
    var d := max - min;
    assert (v - min) / d <= (w - min) / d by {
      assert (w - min) / d - (v - min) / d == (w - v) / d;
    }
  }

  /** `row.value || 0`; a truthy value that is not a number is outside the
      model (`None`), since JavaScript would coerce it arithmetically. */
  function GaugeValue(v: JsValue): (r: Option<real>)
    ensures !Truthy(v) ==> r == Some(0.0)
    ensures v.JNum? ==> r == Some(v.n)
    ensures r.None? <==> Truthy(v) && !v.JNum?
  {
    if !Truthy(v) then Some(0.0)
    else if v.JNum? then Some(v.n)
    else None
  }

  /** `row.health || row.type || "Value"`. */
  function GaugeLabel(row: Row): (caption: JsValue)
    ensures Truthy(caption)
    ensures Truthy(Get(row, "health")) ==> caption == Get(row, "health")
    ensures !Truthy(Get(row, "health")) && Truthy(Get(row, "type")) ==> caption == Get(row, "type")
    ensures !Truthy(Get(row, "health")) && !Truthy(Get(row, "type")) ==> caption == JStr("Value")
  {
    var health := Get(row, "health");
    var kind := Get(row, "type");
    if Truthy(health) then health else if Truthy(kind) then kind else JStr("Value")
  }

  /** `generateGaugeData(row, gauge)`. */
  function GenerateGaugeData(row: Row, gauge: GaugeConfig): (r: Option<GaugeData>)
    requires gauge.max > gauge.min
    ensures r.Some? <==> GaugeValue(Get(row, "value")).Some?
    ensures r.Some? ==> 0.0 <= r.value.percent <= 100.0
    ensures r.Some? ==> r.value.percent == Percentage(r.value.originalValue, gauge.min, gauge.max)
    ensures r.Some? ==> r.value.originalValue == GaugeValue(Get(row, "value")).value
    ensures !Truthy(Get(row, "value")) ==> r.Some? && r.value.originalValue == 0.0
    ensures r.Some? ==> r.value.min == gauge.min && r.value.max == gauge.max
    ensures r.Some? ==> r.value.caption == GaugeLabel(row)
    ensures r.Some? && gauge.thresholds.None? ==> r.value.color == DefaultColor
    ensures r.Some? && gauge.thresholds.Some? ==>
              r.value.color == GaugeColor(r.value.originalValue, gauge.thresholds.value)
  {
    match GaugeValue(Get(row, "value"))
    case None => None
    case Some(value) =>
      var color := match gauge.thresholds
        case None => DefaultColor
        case Some(ts) => GaugeColor(value, ts);
      Some(GaugeData(Percentage(value, gauge.min, gauge.max), value, color,
                     gauge.max, gauge.min, GaugeLabel(row)))
  }
}
