/** The panels of a view (src/components/View/View.tsx) and the summaries
    of the older view (src/components/View.tsx): splitting them by type,
    the pie chart data built from their rows, the colour of each pie cell,
    the number cards and the gauge cards. */
module Panels {

  import opened Values
  import opened Collections
  import opened Gauge

  /** `piechart` options of a panel: whether labels show, and explicit
      colours keyed by slice name. */
  datatype PieConfig = PieConfig(showLabels: bool, colors: Option<map<string, string>>)

  /** One panel (or, in the older view, one summary). `kind` is the
      `type` discriminant; it is a free string, so unknown kinds occur. */
  datatype Panel = Panel(
    name: string,
    description: Option<string>,
    kind: string,
    rows: Option<seq<Row>>,
    gauge: Option<GaugeConfig>,
    piechart: Option<PieConfig>)

  // ---------------------------------------------------------------------
  // Classification

  /** The four groups the view renders. */
  datatype Classified = Classified(number: seq<Panel>, table: seq<Panel>, piechart: seq<Panel>, gauge: seq<Panel>)

  predicate OfKind(p: Panel, kind: string) {
    p.kind == kind
  }

  /** `view.panels?.filter((summary) => summary.type === kind) || []`. */
  function PanelsOfKind(panels: Option<seq<Panel>>, kind: string): (r: seq<Panel>)
    ensures panels.None? ==> r == []
    ensures forall i :: 0 <= i < |r| ==> r[i].kind == kind
    ensures panels.Some? ==> |r| <= |panels.value|
  {
    match panels
    case None => []
    case Some(ps) => Filter(ps, p => OfKind(p, kind))
  }

  /** The four panel groups of the view, each in input order. */
  function Classify(panels: Option<seq<Panel>>): (c: Classified)
    ensures panels.None? ==> c == Classified([], [], [], [])
    ensures forall i :: 0 <= i < |c.number| ==> c.number[i].kind == "number"
    ensures forall i :: 0 <= i < |c.table| ==> c.table[i].kind == "table"
    ensures forall i :: 0 <= i < |c.piechart| ==> c.piechart[i].kind == "piechart"
    ensures forall i :: 0 <= i < |c.gauge| ==> c.gauge[i].kind == "gauge"
  {
    Classified(PanelsOfKind(panels, "number"), PanelsOfKind(panels, "table"),
               PanelsOfKind(panels, "piechart"), PanelsOfKind(panels, "gauge"))
  }

  predicate KnownKind(p: Panel) {
    p.kind in {"number", "table", "piechart", "gauge"}
  }

  /** Every occurrence of a panel of one of the four kinds lands in exactly
      its own group; panels of any other kind land in none. */
  lemma ClassifyPartition(ps: seq<Panel>, p: Panel)
    ensures var c := Classify(Some(ps));
            multiset(c.number)[p] + multiset(c.table)[p] + multiset(c.piechart)[p] + multiset(c.gauge)[p]
            == if KnownKind(p) then multiset(ps)[p] else 0
  {
    FilterOccurrences(ps, q => OfKind(q, "number"), p);
    FilterOccurrences(ps, q => OfKind(q, "table"), p);
    FilterOccurrences(ps, q => OfKind(q, "piechart"), p);
    FilterOccurrences(ps, q => OfKind(q, "gauge"), p);
  }

  /** A panel is in a group exactly when it is among the panels and has that group's kind. */
  lemma ClassifyMembership(ps: seq<Panel>, p: Panel, kind: string)
    ensures p in PanelsOfKind(Some(ps), kind) <==> p in ps && p.kind == kind
  {
    FilterMembership(ps, q => OfKind(q, kind), p);
  }

  /** The classification is stable: classifying two lists one after the
      other gives the groups of their concatenation. */
  lemma ClassifyConcat(a: seq<Panel>, b: seq<Panel>)
    ensures var ca, cb, cab := Classify(Some(a)), Classify(Some(b)), Classify(Some(a + b));
            && cab.number == ca.number + cb.number
            && cab.table == ca.table + cb.table
            && cab.piechart == ca.piechart + cb.piechart
            && cab.gauge == ca.gauge + cb.gauge
  {
    FilterConcat(a, b, q => OfKind(q, "number"));
    FilterConcat(a, b, q => OfKind(q, "table"));
    FilterConcat(a, b, q => OfKind(q, "piechart"));
    FilterConcat(a, b, q => OfKind(q, "gauge"));
  }

  /** The older view's summaries: only the pie chart and number groups. */
  datatype Summaries = Summaries(piechart: seq<Panel>, number: seq<Panel>)

  function ClassifySummaries(summaries: Option<seq<Panel>>): (c: Summaries)
    ensures summaries.None? ==> c == Summaries([], [])
    ensures c.piechart == Classify(summaries).piechart && c.number == Classify(summaries).number
  {
    Summaries(PanelsOfKind(summaries, "piechart"), PanelsOfKind(summaries, "number"))
  }

  // ---------------------------------------------------------------------
  // Pie chart data

  datatype PieSlice = PieSlice(name: JsValue, value: JsValue)

  /** The slice of one row: named by its first key other than `count`. */
  function SliceOf(row: Row): PieSlice {
    PieSlice(LabelOf(row, "count"), Get(row, "count"))
  }

  /** `generatePieChartData(rows)`: one slice per row, in order, named by
      the first key other than `count` and sized by `count`. */
  function PieChartData(rows: seq<Row>): (slices: seq<PieSlice>)
    ensures |slices| == |rows|
    ensures forall i :: 0 <= i < |rows| ==> slices[i] == SliceOf(rows[i])
  {
    if |rows| == 0 then [] else [SliceOf(rows[0])] + PieChartData(rows[1..])
  }

  /** The data of consecutive row lists is the concatenation of their data. */
  lemma {:induction false} PieChartDataConcat(a: seq<Row>, b: seq<Row>)
    ensures PieChartData(a + b) == PieChartData(a) + PieChartData(b)
  {
    if |a| > 0 {
      assert (a + b)[0] == a[0] && (a + b)[1..] == a[1..] + b;
      PieChartDataConcat(a[1..], b);
    } else {
      assert a + b == b;
    }
  }

  /** A row whose keys are exactly a label key followed by `count` gives
      the slice (label value, count). */
  lemma PieSliceOfLabelledRow(labelKey: string, name: JsValue, count: JsValue)
    requires labelKey != "count"
    ensures PieChartData([[(labelKey, name), ("count", count)]]) == [PieSlice(name, count)]
  {
    var row: Row := [(labelKey, name), ("count", count)];
    assert row[1].0 == "count" && row[0].0 != "count";
  }

  /** `generatePieChartData(summary.rows || [])`. */
  function PanelPieData(p: Panel): (slices: seq<PieSlice>)
    ensures p.rows.None? ==> slices == []
    ensures p.rows.Some? ==> slices == PieChartData(p.rows.value)
  {
    PieChartData(p.rows.GetOr([]))
  }

  // ---------------------------------------------------------------------
  // Cell colours

  /** The palette of src/components/View/View.tsx. */
  const ColorBank: seq<string> := [
    "#4F83EF", "#28C19B", "#F4B23C", "#F25C54", "#9A7DFF",
    "#21B3D8", "#8BC34A", "#FF8C42", "#E8589C", "#5965F2",
    "#1FB3A3", "#F04E6E", "#B678FA", "#39C76E", "#E5C844",
    "#7F8FA6", "#8E7C70", "#D63A3A", "#2E6FF7", "#0A9C72"]

  /** The palette of the older view, src/components/View.tsx. */
  const LegacyColorBank: seq<string> := [
    "#3b82f6", "#10b981", "#f59e0b", "#ef4444", "#8b5cf6",
    "#06b6d4", "#84cc16", "#f97316", "#ec4899", "#6366f1",
    "#14b8a6", "#f43f5e", "#a855f7", "#22c55e", "#eab308",
    "#64748b", "#78716c", "#dc2626", "#2563eb", "#059669"]

  predicate Distinct<T(==)>(s: seq<T>) {
    forall i, j :: 0 <= i < j < |s| ==> s[i] != s[j]
  }

  lemma PalettesDistinct()
    ensures |ColorBank| == 20 && Distinct(ColorBank)
    ensures |LegacyColorBank| == 20 && Distinct(LegacyColorBank)
  {
    BankDistinct();
    LegacyBankDistinct();
  }

  lemma BankDistinct()
    ensures |ColorBank| == 20 && Distinct(ColorBank)
  {
  }

  lemma LegacyBankDistinct()
    ensures |LegacyColorBank| == 20 && Distinct(LegacyColorBank)
  {
  }

  /** The explicit colour configured for a slice name, when present and not empty. */
  function ExplicitColor(pie: Option<PieConfig>, key: string): (c: Option<string>)
    ensures c.Some? <==> pie.Some? && pie.value.colors.Some? && key in pie.value.colors.value
                         && pie.value.colors.value[key] != ""
    ensures c.Some? ==> c.value == pie.value.colors.value[key]
  {
    if pie.Some? && pie.value.colors.Some? && key in pie.value.colors.value
       && pie.value.colors.value[key] != ""
    then Some(pie.value.colors.value[key])
    else None
  }

  /** `summary.piechart?.colors?.[entry.name] || COLOR_BANK[i % COLOR_BANK.length]`.
      The slice name is used as a property key, i.e. converted with `String`. */
  function PieCellColor(pie: Option<PieConfig>, name: JsValue, i: nat, fmt: Formatters): (color: string)
    ensures ExplicitColor(pie, JsString(name, fmt)).Some? ==> color == ExplicitColor(pie, JsString(name, fmt)).value
    ensures ExplicitColor(pie, JsString(name, fmt)).None? ==> color == ColorBank[i % 20]
  {
    match ExplicitColor(pie, JsString(name, fmt))
    case Some(c) => c
    case None => ColorBank[i % 20]
  }

  /** A cell is coloured either explicitly or from the palette, and the
      palette colour repeats every 20 cells. */
  lemma PieCellColorPeriod(pie: Option<PieConfig>, name: JsValue, i: nat, fmt: Formatters)
    ensures PieCellColor(pie, name, i, fmt) == PieCellColor(pie, name, i + 20, fmt)
  {
    assert (i + 20) % 20 == i % 20;
  }

  /** Without explicit colours, the first 20 cells of a chart get 20 different colours. */
  lemma PaletteCellsDistinct(pie: Option<PieConfig>, a: JsValue, b: JsValue, i: nat, j: nat, fmt: Formatters)
    requires ExplicitColor(pie, JsString(a, fmt)).None? && ExplicitColor(pie, JsString(b, fmt)).None?
    requires i < j < 20
    ensures PieCellColor(pie, a, i, fmt) != PieCellColor(pie, b, j, fmt)
  {
    CellFromBank(pie, a, i, fmt);
    CellFromBank(pie, b, j, fmt);
    BankDistinct();
    DistinctAt(ColorBank, i, j);
  }

  /** A cell without an explicit colour among the first 20 takes the palette entry at its index. */
  lemma CellFromBank(pie: Option<PieConfig>, a: JsValue, i: nat, fmt: Formatters)
    requires ExplicitColor(pie, JsString(a, fmt)).None? && i < 20
    ensures PieCellColor(pie, a, i, fmt) == ColorBank[i]
  {
    assert i % 20 == i;
  }

  lemma DistinctAt<T>(s: seq<T>, i: nat, j: nat)
    requires Distinct(s) && i < j < |s|
    ensures s[i] != s[j]
  {
  }

  /** The fill of every cell of a panel's chart, in slice order. */
  function PanelCellColors(p: Panel, fmt: Formatters): (colors: seq<string>)
    ensures |colors| == |PanelPieData(p)|
    ensures forall i :: 0 <= i < |colors| ==> colors[i] == PieCellColor(p.piechart, PanelPieData(p)[i].name, i, fmt)
  {
    var slices := PanelPieData(p);
    seq(|slices|, i requires 0 <= i < |slices| => PieCellColor(p.piechart, slices[i].name, i, fmt))
  }

  // ---------------------------------------------------------------------
  // Number cards of the older view

  /** One number card: the heading and the figure. */
  datatype NumberCard = NumberCard(heading: JsValue, figure: JsValue)

  /** The cards of one summary: the heading is the value of the first key
      other than `value`, the figure is `row.value`. */
  function CardsOfRows(rows: seq<Row>): (cards: seq<NumberCard>)
    ensures |cards| == |rows|
    ensures forall i :: 0 <= i < |rows| ==>
              cards[i] == NumberCard(LabelOf(rows[i], "value"), Get(rows[i], "value"))
  {
    if |rows| == 0 then [] else [NumberCard(LabelOf(rows[0], "value"), Get(rows[0], "value"))] + CardsOfRows(rows[1..])
  }

  /** Every summary has rows. */
  predicate AllHaveRows(ss: seq<Panel>) {
    forall i :: 0 <= i < |ss| ==> ss[i].rows.Some?
  }

  /** The number of rows over a list of summaries, all of which have rows. */
  function RowCount(ss: seq<Panel>): nat
    requires AllHaveRows(ss)
  {
    if |ss| == 0 then 0 else |ss[0].rows.value| + RowCount(ss[1..])
  }

  /** The cards of every summary, one after the other. */
  function AllCards(ss: seq<Panel>): (cards: seq<NumberCard>)
    requires AllHaveRows(ss)
    ensures |cards| == RowCount(ss)
  {
    if |ss| == 0 then [] else CardsOfRows(ss[0].rows.value) + AllCards(ss[1..])
  }

  /** `numberSummaries.flatMap((summary) => summary.rows.map(...))`. A
      summary without rows makes `summary.rows.map` throw, which is `None`. */
  function NumberCards(ss: seq<Panel>): (r: Option<seq<NumberCard>>)
    ensures r.Some? <==> AllHaveRows(ss)
    ensures r.Some? ==> |r.value| == RowCount(ss)
  {
    if AllHaveRows(ss) then Some(AllCards(ss)) else None
  }

  /** The cards of a single summary are those of its rows. */
  lemma NumberCardsSingle(s: Panel, rows: seq<Row>)
    requires s.rows == Some(rows)
    ensures NumberCards([s]) == Some(CardsOfRows(rows))
  {
    assert AllHaveRows([s]);
    assert [s][1..] == [];
    var cards := CardsOfRows(rows);
    assert AllCards([s]) == cards + AllCards([]);
    assert cards + [] == cards;
  }

  /** Cards keep the summaries' order: those of one list of summaries are
      followed by those of the next. */
  lemma AllHaveRowsConcat(a: seq<Panel>, b: seq<Panel>)
    requires AllHaveRows(a) && AllHaveRows(b)
    ensures AllHaveRows(a + b)
  {
    forall i | 0 <= i < |a + b|
      ensures (a + b)[i].rows.Some?
    {
      if i < |a| {
        assert (a + b)[i] == a[i];
      } else {
        assert (a + b)[i] == b[i - |a|];
      }
    }
  }

  lemma {:induction false} AllCardsConcat(a: seq<Panel>, b: seq<Panel>)
    requires AllHaveRows(a) && AllHaveRows(b)
    ensures AllHaveRows(a + b)
    ensures AllCards(a + b) == AllCards(a) + AllCards(b)
  {
    AllHaveRowsConcat(a, b);
    if |a| > 0 {
      var ab := a + b;
      assert ab[0] == a[0] && ab[1..] == a[1..] + b;
      assert AllHaveRows(a[1..]) by {
        forall i | 0 <= i < |a[1..]|
          ensures a[1..][i].rows.Some?
        {
          assert a[1..][i] == a[i + 1];
        }
      }
      AllCardsConcat(a[1..], b);
      var head := CardsOfRows(a[0].rows.value);
      assert AllCards(ab) == head + (AllCards(a[1..]) + AllCards(b));
      assert head + (AllCards(a[1..]) + AllCards(b)) == (head + AllCards(a[1..])) + AllCards(b);
    } else {
      assert a + b == b;
    }
  }

  /** Summaries without rows anywhere make the whole list throw. */
  lemma NumberCardsConcat(a: seq<Panel>, b: seq<Panel>)
    ensures NumberCards(a + b) == if NumberCards(a).Some? && NumberCards(b).Some?
                                  then Some(NumberCards(a).value + NumberCards(b).value)
                                  else None
  {
    var ab := a + b;
    if AllHaveRows(a) && AllHaveRows(b) {
      AllCardsConcat(a, b);
    } else if !AllHaveRows(a) {
      var i :| 0 <= i < |a| && a[i].rows.None?;
      assert ab[i] == a[i];
    } else {
      var i :| 0 <= i < |b| && b[i].rows.None?;
      assert ab[|a| + i] == b[i];
    }
  }

  // ---------------------------------------------------------------------
  // Gauge cards

  /** Every gauge configuration among the panels has a proper range. */
  predicate ProperRanges(ps: seq<Panel>) {
    forall i :: 0 <= i < |ps| && ps[i].gauge.Some? ==> ps[i].gauge.value.max > ps[i].gauge.value.min
  }

  /** The gauges of one panel: none without a configuration or rows. */
  function PanelGauges(p: Panel): (r: Option<seq<GaugeData>>)
    requires p.gauge.Some? ==> p.gauge.value.max > p.gauge.value.min
    ensures p.gauge.None? || p.rows.None? ==> r == Some([])
    ensures p.gauge.Some? && p.rows.Some? && r.Some? ==> |r.value| == |p.rows.value|
  {
    if p.gauge.None? || p.rows.None? then Some([])
    else GaugesOfRows(p.rows.value, p.gauge.value)
  }

  /** `generateGaugeData` on every row; `None` when some row's value is not
      a number the model can evaluate. */
  function GaugesOfRows(rows: seq<Row>, g: GaugeConfig): (r: Option<seq<GaugeData>>)
    requires g.max > g.min
    ensures r.Some? <==> forall i :: 0 <= i < |rows| ==> GenerateGaugeData(rows[i], g).Some?
    ensures r.Some? ==> |r.value| == |rows|
    ensures r.Some? ==> forall i :: 0 <= i < |rows| ==> r.value[i] == GenerateGaugeData(rows[i], g).value
  {
    if |rows| == 0 then Some([])
    else match GenerateGaugeData(rows[0], g)
      case None => None
      case Some(d) =>
        match GaugesOfRows(rows[1..], g)
        case None => None
        case Some(rest) =>
          assert forall i :: 0 < i < |rows| ==> rows[i] == rows[1..][i - 1];
          Some([d] + rest)
  }

  /** `gaugeSummaries.flatMap(...)`, the rows of panels without a gauge
      configuration being dropped by `.filter(Boolean)`. Defined exactly when
      every panel's gauges are; the cards of consecutive panels concatenate
      (GaugeCardsConcat, GaugeCardsSingle). */
  function GaugeCards(ps: seq<Panel>): (r: Option<seq<GaugeData>>)
    requires ProperRanges(ps)
    ensures r.Some? <==> forall i :: 0 <= i < |ps| ==> PanelGauges(ps[i]).Some?
    ensures r.Some? ==> forall i :: 0 <= i < |r.value| ==> 0.0 <= r.value[i].percent <= 100.0
  {
    if |ps| == 0 then Some([])
    else
      assert forall i :: 0 < i < |ps| ==> ps[i] == ps[1..][i - 1];
      match PanelGauges(ps[0])
      case None => None
      case Some(first) =>
        match GaugeCards(ps[1..])
        case None => None
        case Some(rest) =>
          GaugesPercent(ps[0]);
          Some(first + rest)
  }

  lemma ProperRangesConcat(a: seq<Panel>, b: seq<Panel>)
    requires ProperRanges(a) && ProperRanges(b)
    ensures ProperRanges(a + b)
  {
    forall i | 0 <= i < |a + b| && (a + b)[i].gauge.Some?
      ensures (a + b)[i].gauge.value.max > (a + b)[i].gauge.value.min
    {
      if i < |a| {
        assert (a + b)[i] == a[i];
      } else {
        assert (a + b)[i] == b[i - |a|];
      }
    }
  }

  /** The cards of consecutive panel lists are the concatenation of their
      cards, in panel order, or a failure when either fails. */
  lemma {:induction false} GaugeCardsConcat(a: seq<Panel>, b: seq<Panel>)
    requires ProperRanges(a) && ProperRanges(b)
    ensures ProperRanges(a + b)
    ensures GaugeCards(a + b) == if GaugeCards(a).Some? && GaugeCards(b).Some?
                                 then Some(GaugeCards(a).value + GaugeCards(b).value)
                                 else None
  {
    ProperRangesConcat(a, b);
    if |a| == 0 {
      assert a + b == b;
      if GaugeCards(b).Some? {
        assert [] + GaugeCards(b).value == GaugeCards(b).value;
      }
    } else {
      var ab := a + b;
      assert ab[0] == a[0] && ab[1..] == a[1..] + b;
      assert ProperRanges(a[1..]) by {
        forall i | 0 <= i < |a[1..]| && a[1..][i].gauge.Some?
          ensures a[1..][i].gauge.value.max > a[1..][i].gauge.value.min
        {
          assert a[1..][i] == a[i + 1];
        }
      }
      GaugeCardsConcat(a[1..], b);
      match PanelGauges(a[0])
      case None =>
      case Some(first) =>
        if GaugeCards(a[1..]).Some? && GaugeCards(b).Some? {
          var x, y := GaugeCards(a[1..]).value, GaugeCards(b).value;
          assert first + (x + y) == (first + x) + y;
        }
    }
  }

  /** One panel's cards are its gauges. */
  lemma GaugeCardsSingle(p: Panel)
    requires p.gauge.Some? ==> p.gauge.value.max > p.gauge.value.min
    ensures ProperRanges([p])
    ensures GaugeCards([p]) == PanelGauges(p)
  {
    var ps := [p];
    assert ps[1..] == [];
    match PanelGauges(p)
    case None =>
    case Some(first) =>
      assert first + [] == first;
  }

  lemma GaugesPercent(p: Panel)
    requires p.gauge.Some? ==> p.gauge.value.max > p.gauge.value.min
    ensures PanelGauges(p).Some? ==> forall i :: 0 <= i < |PanelGauges(p).value| ==> 0.0 <= PanelGauges(p).value[i].percent <= 100.0
  {
  }

  /** A panel without a gauge configuration contributes no card. */
  lemma UnconfiguredGaugeSkipped(p: Panel, ps: seq<Panel>)
    requires p.gauge.None? && ProperRanges(ps)
    ensures ProperRanges([p] + ps)
    ensures GaugeCards([p] + ps) == GaugeCards(ps)
  {
    var all := [p] + ps;
    assert all[0] == p && all[1..] == ps;
    assert PanelGauges(p) == Some([]);
    match GaugeCards(ps)
    case None =>
    case Some(rest) =>
      assert [] + rest == rest;
  }
}
