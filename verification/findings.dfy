/** The findings section (src/components/sections/FindingsSection.tsx): the
    by-type and by-severity pie data, the fills of their sectors, the status
    class of the findings table and the icon of a finding's type. */
module Findings {

  import opened Values
  import opened Collections

  /** The fields of a finding the section decides on. */
  datatype Finding = Finding(kind: string, severity: string, status: string)

  function KindOf(f: Finding): string { f.kind }

  function SeverityOf(f: Finding): string { f.severity }

  // ---------------------------------------------------------------------
  // Colour tables

  /** A colour table as `Object.entries` lists it: key and colour in
      declaration order. */
  type ColorTable = seq<(string, string)>

  const TypeColors: ColorTable := [
    ("security", "#ef4444"), ("compliance", "#3b82f6"),
    ("performance", "#8b5cf6"), ("reliability", "#10b981")]

  const SeverityColors: ColorTable := [
    ("critical", "#ef4444"), ("high", "#f97316"),
    ("medium", "#eab308"), ("low", "#3b82f6")]

  /** `table[key]`: the colour declared for the key, `None` for `undefined`. */
  function KeyedColor(table: ColorTable, key: string): (c: Option<string>)
    ensures c.None? <==> forall i :: 0 <= i < |table| ==> table[i].0 != key
    ensures c.Some? ==> exists i :: 0 <= i < |table| && table[i] == (key, c.value)
  {
    if |table| == 0 then None
    else if table[0].0 == key then Some(table[0].1)
    else
      var c := KeyedColor(table[1..], key);
      assert forall i :: 0 <= i < |table[1..]| ==> table[1..][i] == table[i + 1];
      c
  }

  /** In a table whose keys are distinct, a declared entry is what the key finds. */
  lemma {:induction false} KeyedColorFinds(table: ColorTable, i: nat)
    requires i < |table|
    requires forall a, b :: 0 <= a < b < |table| ==> table[a].0 != table[b].0
    ensures KeyedColor(table, table[i].0) == Some(table[i].1)
  {
    if i > 0 {
      KeyedColorFinds(table[1..], i - 1);
    }
  }

  // ---------------------------------------------------------------------
  // Pie data

  /** `Object.entries(groupBy(findings, 'type')).map(...)`. */
  function ByType(findings: seq<Finding>): (counts: seq<(string, nat)>)
    ensures SumCounts(counts) == |findings|
  {
    GroupCounts(findings, KindOf)
  }

  /** `Object.entries(groupBy(findings, 'severity')).map(...)`. */
  function BySeverity(findings: seq<Finding>): (counts: seq<(string, nat)>)
    ensures SumCounts(counts) == |findings|
  {
    GroupCounts(findings, SeverityOf)
  }

  /** Each chart has one entry per distinct type (severity), counting the
      findings of that type (severity). */
  lemma PieDataSpec(findings: seq<Finding>)
    ensures forall i, j :: 0 <= i < j < |ByType(findings)| ==> ByType(findings)[i].0 != ByType(findings)[j].0
    ensures forall i :: 0 <= i < |ByType(findings)| ==>
              ByType(findings)[i].1 == |Select(findings, KindOf, ByType(findings)[i].0)| > 0
    ensures forall k :: k in Names(ByType(findings)) <==> exists j :: 0 <= j < |findings| && findings[j].kind == k
    ensures forall i, j :: 0 <= i < j < |BySeverity(findings)| ==> BySeverity(findings)[i].0 != BySeverity(findings)[j].0
    ensures forall i :: 0 <= i < |BySeverity(findings)| ==>
              BySeverity(findings)[i].1 == |Select(findings, SeverityOf, BySeverity(findings)[i].0)| > 0
    ensures forall k :: k in Names(BySeverity(findings)) <==> exists j :: 0 <= j < |findings| && findings[j].severity == k
  {
    GroupCountsSpec(findings, KindOf);
    GroupCountsSpec(findings, SeverityOf);
  }

  // ---------------------------------------------------------------------
  // Sector fills

  /** The fills as written: the `<Cell>` children are the table's entries in
      declaration order, and recharts pairs sector `i` with cell `i`; a
      sector past the last cell gets no fill of the table (`None`). */
  function PositionalFills(table: ColorTable, counts: seq<(string, nat)>): (fills: seq<Option<string>>)
    ensures |fills| == |counts|
    ensures forall i :: 0 <= i < |counts| ==> (fills[i].Some? <==> i < |table|)
    ensures forall i :: 0 <= i < |counts| && i < |table| ==> fills[i] == Some(table[i].1)
  {
    seq(|counts|, i requires 0 <= i < |counts| => if i < |table| then Some(table[i].1) else None)
  }

  /** The fills as intended: each sector coloured by its own key, as the
      incidents chart of the applications section does. */
  function KeyedFills(table: ColorTable, counts: seq<(string, nat)>): (fills: seq<Option<string>>)
    ensures |fills| == |counts|
    ensures forall i :: 0 <= i < |counts| ==> fills[i] == KeyedColor(table, counts[i].0)
  {
    seq(|counts|, i requires 0 <= i < |counts| => KeyedColor(table, counts[i].0))
  }

  /** As written, a sector's fill depends on its position only: two charts
      with as many sectors get the same fills whatever their keys. */
  lemma PositionalIgnoresKeys(table: ColorTable, a: seq<(string, nat)>, b: seq<(string, nat)>)
    requires |a| == |b|
    ensures PositionalFills(table, a) == PositionalFills(table, b)
  {
  }

  /** The input that shows it: a report whose only finding is a compliance
      finding draws its one sector in the security red, not the compliance blue. */
  lemma ComplianceDrawnRed()
    ensures var counts := ByType([Finding("compliance", "low", "open")]);
            counts == [("compliance", 1)] &&
            PositionalFills(TypeColors, counts) == [Some("#ef4444")] &&
            KeyedColor(TypeColors, "compliance") == Some("#3b82f6")
  {
    var findings := [Finding("compliance", "low", "open")];
    assert findings[..0] == [];
    assert GroupBy(findings, KindOf) == [Group("compliance", findings)];
  }

  /** Keyed fills follow the keys: the sector of a key gets that key's
      declared colour wherever the key lands in first-seen order, so a
      reordering of the findings changes no key's colour. */
  lemma KeyedFillsFollowKeys(table: ColorTable, a: seq<(string, nat)>, b: seq<(string, nat)>, i: nat, j: nat)
    requires i < |a| && j < |b| && a[i].0 == b[j].0
    ensures KeyedFills(table, a)[i] == KeyedFills(table, b)[j]
  {
  }

  /** Both tables declare each key once and give the keys different colours. */
  lemma TablesWellFormed()
    ensures forall s, t :: 0 <= s < t < |TypeColors| ==> TypeColors[s].0 != TypeColors[t].0
    ensures forall s, t :: 0 <= s < t < |TypeColors| ==> TypeColors[s].1 != TypeColors[t].1
    ensures forall s, t :: 0 <= s < t < |SeverityColors| ==> SeverityColors[s].0 != SeverityColors[t].0
    ensures forall s, t :: 0 <= s < t < |SeverityColors| ==> SeverityColors[s].1 != SeverityColors[t].1
  {
  }

  /** With keyed fills the sector of a declared type gets that type's
      declared colour, whatever its position. */
  lemma KeyedTypeFill(findings: seq<Finding>, i: nat, t: nat)
    requires i < |ByType(findings)| && t < |TypeColors|
    requires ByType(findings)[i].0 == TypeColors[t].0
    ensures KeyedFills(TypeColors, ByType(findings))[i] == Some(TypeColors[t].1)
  {
    TablesWellFormed();
    KeyedColorFinds(TypeColors, t);
  }

  /** With keyed fills the sector of a declared severity gets that
      severity's declared colour, whatever its position. */
  lemma KeyedSeverityFill(findings: seq<Finding>, i: nat, t: nat)
    requires i < |BySeverity(findings)| && t < |SeverityColors|
    requires BySeverity(findings)[i].0 == SeverityColors[t].0
    ensures KeyedFills(SeverityColors, BySeverity(findings))[i] == Some(SeverityColors[t].1)
  {
    TablesWellFormed();
    KeyedColorFinds(SeverityColors, t);
  }

  // ---------------------------------------------------------------------
  // Findings table

  /** The class of the status cell, chosen by exact comparison. */
  function StatusClass(status: string): (cls: string)
    ensures cls == "bg-red-100 text-red-800" <==> status == "open"
    ensures cls == "bg-green-100 text-green-800" <==> status == "resolved"
    ensures cls == "bg-blue-100 text-blue-800" <==> status == "in-progress"
    ensures cls == "bg-gray-100 text-gray-800" <==> status !in {"open", "resolved", "in-progress"}
  {
    if status == "open" then "bg-red-100 text-red-800"
    else if status == "resolved" then "bg-green-100 text-green-800"
    else if status == "in-progress" then "bg-blue-100 text-blue-800"
    else "bg-gray-100 text-gray-800"
  }

  datatype Icon = Shield | FileSearch | Activity | HardDrive | AlertCircle

  /** `getTypeIcon(type)`. */
  function TypeIcon(kind: string): (icon: Icon)
    ensures icon == Shield <==> kind == "security"
    ensures icon == FileSearch <==> kind == "compliance"
    ensures icon == Activity <==> kind == "performance"
    ensures icon == HardDrive <==> kind == "reliability"
  {
    match kind
    case "security" => Shield
    case "compliance" => FileSearch
    case "performance" => Activity
    case "reliability" => HardDrive
    case _ => AlertCircle
  }

  /** The types with their own icon are exactly the types with a declared
      colour; every other type gets the default icon and no colour. */
  lemma IconsMatchColors(kind: string)
    ensures TypeIcon(kind) != AlertCircle <==> KeyedColor(TypeColors, kind).Some?
  {
  }
}
