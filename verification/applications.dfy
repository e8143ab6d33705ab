/** The applications section (src/components/ApplicationsSection.tsx): the
    duration label, the authentication lookup of the users table, the
    incident statistics, the backup success count, the pipeline summaries
    and the status classes of its tables. */
module Applications {

  import opened Values
  import opened Text
  import opened Collections
  import Findings
  import Heatmap

  // ---------------------------------------------------------------------
  // Separators

  /** `sep` occurs in `s` at position `k`. */
  predicate SepAt(s: string, sep: string, k: nat) {
    k + |sep| <= |s| && s[k..k + |sep|] == sep
  }

  /** `s.indexOf(sep, from)`, `None` for -1. */
  function IndexOf(s: string, sep: string, from: nat): (r: Option<nat>)
    requires |sep| > 0
    ensures r.Some? ==> from <= r.value && SepAt(s, sep, r.value)
    ensures r.Some? ==> forall k: nat :: from <= k < r.value ==> !SepAt(s, sep, k)
    ensures r.None? ==> forall k: nat :: from <= k ==> !SepAt(s, sep, k)
    decreases |s| - from
  {
    if from + |sep| > |s| then None
    else if SepAt(s, sep, from) then Some(from)
    else IndexOf(s, sep, from + 1)
  }

  /** No separator starts inside a run of characters that differ from the
      separator's first character. */
  lemma NoSepIn(s: string, sep: string, from: nat, to: nat)
    requires |sep| > 0 && from <= to <= |s|
    requires forall k :: from <= k < to ==> s[k] != sep[0]
    ensures forall k: nat :: from <= k < to ==> !SepAt(s, sep, k)
  {
    forall k: nat | from <= k < to
      ensures !SepAt(s, sep, k)
    {
      if k + |sep| <= |s| {
        assert s[k..k + |sep|][0] == s[k];
      }
    }
  }

  /** The first separator at or after `from` is the one at `p`. */
  lemma IndexOfIs(s: string, sep: string, from: nat, p: nat)
    requires |sep| > 0 && from <= p && SepAt(s, sep, p)
    requires forall k: nat :: from <= k < p ==> !SepAt(s, sep, k)
    ensures IndexOf(s, sep, from) == Some(p)
  {
  }

  // ---------------------------------------------------------------------
  // calculateDuration

  /** `calculateDuration` once `differenceInHours` has given `hours`:
      `"<hours>h"` below a day, `"<d>d <r>h"` with whole days and the
      remaining hours from a day on. */
  function DurationLabel(hours: int): (text: string)
    ensures hours < 24 ==> text == IntToString(hours) + "h"
    ensures hours >= 24 ==> exists d: nat, r: nat ::
              24 * d + r == hours && r < 24 && text == NatToString(d) + "d " + NatToString(r) + "h"
  {
    if hours < 24 then IntToString(hours) + "h"
    else
      var d: nat := hours / 24;
      var r: nat := hours % 24;
      assert 24 * d + r == hours;
      NatToString(d) + "d " + NatToString(r) + "h"
  }

  /** Reads a duration label back: `"<d>d <r>h"` as `24 * d + r` hours,
      anything else as the integer it starts with. */
  function ReadDuration(text: string): Option<int> {
    match IndexOf(text, "d ", 0)
    case None => ParseInt(text)
    case Some(k) =>
      match (ParseInt(text[..k]), ParseInt(text[k + 2..]))
      case (Some(d), Some(r)) => Some(24 * d + r)
      case _ => None
  }

  /** A rendered integer is a minus sign and digits. */
  lemma IntToStringChars(i: int)
    ensures forall k :: 0 <= k < |IntToString(i)| ==> IntToString(i)[k] == '-' || IsDigit(IntToString(i)[k])
  {
    if i < 0 {
      var n := NatToString(-i);
      assert forall k :: 1 <= k < |IntToString(i)| ==> IntToString(i)[k] == n[k - 1];
    }
  }

  /** Below a day the label reads back as its hours. */
  lemma ReadBackBelowDay(hours: int)
    requires hours < 24
    ensures ReadDuration(DurationLabel(hours)) == Some(hours)
  {
    var text := DurationLabel(hours);
    IntToStringChars(hours);
    NoSepIn(text, "d ", 0, |text|);
    ParseIntOfIntToString(hours, "h");
  }

  /** After a run of digits, a separator that does not start with a digit
      is found right where the digits end. */
  lemma SeparatorAfterDigits(ds: string, sep: string, rest: string)
    requires AllDigits(ds) && |sep| > 0 && !IsDigit(sep[0])
    ensures IndexOf(ds + sep + rest, sep, 0) == Some(|ds|)
  {
    var text := ds + sep + rest;
    assert forall k :: 0 <= k < |ds| ==> text[k] == ds[k];
    NoSepIn(text, sep, 0, |ds|);
    assert text[|ds|..|ds| + |sep|] == sep;
    IndexOfIs(text, sep, 0, |ds|);
  }

  /** The separator of `"<d>d <r>h"` is the first one, right after the days. */
  lemma DaysSeparator(d: nat, r: nat)
    ensures var text := NatToString(d) + "d " + NatToString(r) + "h";
            IndexOf(text, "d ", 0) == Some(|NatToString(d)|) &&
            text[..|NatToString(d)|] == NatToString(d) &&
            text[|NatToString(d)| + 2..] == NatToString(r) + "h"
  {
    var ds := NatToString(d);
    var rest := NatToString(r) + "h";
    assert ds + "d " + NatToString(r) + "h" == ds + "d " + rest;
    SeparatorAfterDigits(ds, "d ", rest);
  }

  /** From a day on the label reads back as `24 * d + r` hours. */
  lemma ReadBackDays(hours: int)
    requires hours >= 24
    ensures ReadDuration(DurationLabel(hours)) == Some(hours)
  {
    DurationLabelParts(hours);
    DaysSeparator(hours / 24, hours % 24);
    assert NatToString(hours / 24) + "" == NatToString(hours / 24);
    ParseIntOfNatToString(hours / 24, "");
    ParseIntOfNatToString(hours % 24, "h");
  }

  /** The label determines the hours: reading it back gives them, so no two
      hour counts share a label. */
  lemma DurationLabelReadBack(hours: int)
    ensures ReadDuration(DurationLabel(hours)) == Some(hours)
  {
    if hours < 24 {
      ReadBackBelowDay(hours);
    } else {
      ReadBackDays(hours);
    }
  }

  /** Labels of whole days and remaining hours: `r` below 24, and
      `24 * d + r` is the hour count. */
  lemma DurationLabelParts(hours: int)
    requires hours >= 24
    ensures DurationLabel(hours) == NatToString(hours / 24) + "d " + NatToString(hours % 24) + "h"
    ensures 24 * (hours / 24) + hours % 24 == hours && 0 <= hours % 24 < 24
  {
  }

  // ---------------------------------------------------------------------
  // Authentication lookup

  datatype Authentication = Authentication(kind: string, domain: Option<string>)

  /** `a.domain || ''`: a missing or empty domain is the empty suffix. */
  function DomainOf(a: Authentication): string {
    if a.domain.Some? then a.domain.value else ""
  }

  predicate Matches(a: Authentication, email: string) {
    EndsWith(email, DomainOf(a))
  }

  /** `authentication.find(a => email.endsWith(a.domain || ''))`, as an index. */
  function FindAuth(auths: seq<Authentication>, email: string): (r: Option<nat>)
    ensures r.Some? ==> r.value < |auths| && Matches(auths[r.value], email)
    ensures r.Some? ==> forall j :: 0 <= j < r.value ==> !Matches(auths[j], email)
    ensures r.None? ==> forall j :: 0 <= j < |auths| ==> !Matches(auths[j], email)
  {
    if |auths| == 0 then None
    else if Matches(auths[0], email) then Some(0)
    else
      var r := FindAuth(auths[1..], email);
      assert forall j :: 0 < j < |auths| ==> auths[j] == auths[1..][j - 1];
      if r.None? then None else Some(r.value + 1)
  }

  /** The auth-type cell: the upper-cased type of the first authentication
      whose domain ends the user's email, "N/A" when none does. */
  function AuthType(auths: seq<Authentication>, email: string): (t: string)
    ensures (forall j :: 0 <= j < |auths| ==> !EndsWith(email, DomainOf(auths[j]))) ==> t == "N/A"
    ensures forall i ::
              (0 <= i < |auths| && EndsWith(email, DomainOf(auths[i])) &&
               (forall j :: 0 <= j < i ==> !EndsWith(email, DomainOf(auths[j]))))
              ==> t == ToUpper(auths[i].kind)
  {
    match FindAuth(auths, email)
    case None => "N/A"
    case Some(i) => ToUpper(auths[i].kind)
  }

  /** An authentication without a domain matches every email: when no
      earlier one matches, its type is shown. */
  lemma MissingDomainMatchesAll(auths: seq<Authentication>, email: string, i: nat)
    requires i < |auths| && DomainOf(auths[i]) == ""
    requires forall j :: 0 <= j < i ==> !EndsWith(email, DomainOf(auths[j]))
    ensures AuthType(auths, email) == ToUpper(auths[i].kind)
  {
    assert email[|email|..] == "";
  }

  /** Authentications listed after a matching one never change the result. */
  lemma {:induction false} AuthTypeFirstMatchWins(auths: seq<Authentication>, more: seq<Authentication>, email: string)
    requires FindAuth(auths, email).Some?
    ensures AuthType(auths + more, email) == AuthType(auths, email)
  {
    var i := FindAuth(auths, email).value;
    var all := auths + more;
    assert all[i] == auths[i];
    assert forall j :: 0 <= j < i ==> all[j] == auths[j];
  }

  // ---------------------------------------------------------------------
  // calculateIncidentStats

  datatype Incident = Incident(severity: string, date: string, resolvedDate: Option<string>)

  function IncidentSeverity(i: Incident): string { i.severity }

  /** `i.resolvedDate` is truthy: present and not the empty string. */
  predicate IsResolved(i: Incident) {
    i.resolvedDate.Some? && i.resolvedDate.value != ""
  }

  predicate IsOpen(i: Incident) { !IsResolved(i) }

  /** `incidents.filter(i => !i.resolvedDate)`. */
  function OpenIncidents(incidents: seq<Incident>): (open: seq<Incident>)
    ensures forall x :: x in open <==> x in incidents && !IsResolved(x)
  {
    FilterMembers(incidents, IsOpen);
    Filter(incidents, IsOpen)
  }

  /** `incidents.filter(i => i.resolvedDate)`. */
  function ResolvedIncidents(incidents: seq<Incident>): (resolved: seq<Incident>)
    ensures forall x :: x in resolved <==> x in incidents && IsResolved(x)
  {
    FilterMembers(incidents, IsResolved);
    Filter(incidents, IsResolved)
  }

  /** Open and resolved incidents split the incidents: together they hold
      each incident exactly as often as the input does. */
  lemma {:induction false} OpenResolvedPartition(incidents: seq<Incident>)
    ensures multiset(OpenIncidents(incidents)) + multiset(ResolvedIncidents(incidents)) == multiset(incidents)
    ensures |OpenIncidents(incidents)| + |ResolvedIncidents(incidents)| == |incidents|
  {
    if |incidents| > 0 {
      var init := incidents[..|incidents| - 1];
      var last := incidents[|incidents| - 1];
      OpenResolvedPartition(init);
      assert incidents == init + [last];
      assert multiset(incidents) == multiset(init) + multiset{last};
    }
  }

  /** Without a resolved incident there is nothing to average. */
  lemma NothingResolved(incidents: seq<Incident>)
    ensures (forall k :: 0 <= k < |incidents| ==> !IsResolved(incidents[k])) ==> ResolvedIncidents(incidents) == []
  {
    if |ResolvedIncidents(incidents)| > 0 {
      assert ResolvedIncidents(incidents)[0] in incidents;
    }
  }

  /** The resolution time of each resolved incident, in input order;
      `hoursBetween` stands for `differenceInHours` on the parsed dates. */
  function ResolutionTimes(incidents: seq<Incident>, hoursBetween: (string, string) -> int): (times: seq<int>)
    ensures |times| == |ResolvedIncidents(incidents)|
    ensures forall k :: 0 <= k < |times| ==>
              var r := ResolvedIncidents(incidents)[k];
              r.resolvedDate.Some? && times[k] == hoursBetween(r.resolvedDate.value, r.date)
  {
    var resolved := ResolvedIncidents(incidents);
    seq(|resolved|, k requires 0 <= k < |resolved| => hoursBetween(resolved[k].resolvedDate.value, resolved[k].date))
  }

  function Sum(xs: seq<int>): int {
    if |xs| == 0 then 0 else xs[0] + Sum(xs[1..])
  }

  /** The average resolution time, 0 when nothing is resolved. */
  function Average(times: seq<int>): (avg: real)
    ensures |times| == 0 ==> avg == 0.0
    ensures |times| > 0 ==> avg * |times| as real == Sum(times) as real
  {
    if |times| == 0 then 0.0 else Sum(times) as real / |times| as real
  }

  lemma {:induction false} SumBounds(xs: seq<int>, lo: int, hi: int)
    requires forall k :: 0 <= k < |xs| ==> lo <= xs[k] <= hi
    ensures lo * |xs| <= Sum(xs) <= hi * |xs|
  {
    if |xs| > 0 {
      SumBounds(xs[1..], lo, hi);
    }
  }

  /** A total between `lo * n` and `hi * n`, shared among `n`, gives each
      between `lo` and `hi`. */
  lemma QuotientBounds(total: real, n: real, lo: real, hi: real)
    requires n > 0.0 && lo * n <= total <= hi * n
    ensures lo <= total / n <= hi
  {
    var q := total / n;
    assert q * n == total;
    if q < lo {
      PositiveProduct(lo - q, n);
    }
    if q > hi {
      PositiveProduct(q - hi, n);
    }
  }

  lemma CastProduct(a: int, b: int)
    ensures (a * b) as real == a as real * b as real
  {
  }

  /** The average lies between the shortest and the longest resolution time. */
  lemma AverageBounds(times: seq<int>, lo: int, hi: int)
    requires |times| > 0
    requires forall k :: 0 <= k < |times| ==> lo <= times[k] <= hi
    ensures lo as real <= Average(times) <= hi as real
  {
    SumBounds(times, lo, hi);
    CastProduct(lo, |times|);
    CastProduct(hi, |times|);
    QuotientBounds(Sum(times) as real, |times| as real, lo as real, hi as real);
  }

  datatype IncidentStats = IncidentStats(
    openBySeverity: seq<Group<Incident>>,
    avgResolutionTime: real,
    incidentsByType: seq<(string, nat)>)

  /** `calculateIncidentStats(incidents)`, with the average kept exact
      rather than rendered by `toFixed(1)`. */
  function CalculateIncidentStats(incidents: seq<Incident>, hoursBetween: (string, string) -> int): (stats: IncidentStats)
    ensures TotalSize(stats.openBySeverity) + |ResolvedIncidents(incidents)| == |incidents|
    ensures (forall k :: 0 <= k < |incidents| ==> !IsResolved(incidents[k])) ==> stats.avgResolutionTime == 0.0
    ensures stats.avgResolutionTime == Average(ResolutionTimes(incidents, hoursBetween))
    ensures SumCounts(stats.incidentsByType) == |incidents|
  {
    var open := OpenIncidents(incidents);
    GroupByTotal(open, IncidentSeverity);
    OpenResolvedPartition(incidents);
    NothingResolved(incidents);
    IncidentStats(
      GroupBy(open, IncidentSeverity),
      Average(ResolutionTimes(incidents, hoursBetween)),
      GroupCounts(incidents, IncidentSeverity))
  }

  /** The open incidents grouped by severity hold exactly the open incidents
      of each severity; the by-type entries name each severity once and
      count its incidents. */
  lemma IncidentStatsGroups(incidents: seq<Incident>, hoursBetween: (string, string) -> int)
    ensures var stats := CalculateIncidentStats(incidents, hoursBetween);
            forall i :: 0 <= i < |stats.openBySeverity| ==>
              stats.openBySeverity[i].items ==
                Select(OpenIncidents(incidents), IncidentSeverity, stats.openBySeverity[i].key)
    ensures var stats := CalculateIncidentStats(incidents, hoursBetween);
            forall i, j :: 0 <= i < j < |stats.incidentsByType| ==>
              stats.incidentsByType[i].0 != stats.incidentsByType[j].0
    ensures var stats := CalculateIncidentStats(incidents, hoursBetween);
            forall i :: 0 <= i < |stats.incidentsByType| ==>
              stats.incidentsByType[i].1 == |Select(incidents, IncidentSeverity, stats.incidentsByType[i].0)|
  {
    GroupBySpec(OpenIncidents(incidents), IncidentSeverity);
    GroupCountsSpec(incidents, IncidentSeverity);
  }

  /** The incidents chart colours each sector by its own severity. */
  function IncidentFills(stats: IncidentStats): (fills: seq<Option<string>>)
    ensures |fills| == |stats.incidentsByType|
    ensures forall i :: 0 <= i < |fills| ==> fills[i] == Findings.KeyedColor(Findings.SeverityColors, stats.incidentsByType[i].0)
  {
    Findings.KeyedFills(Findings.SeverityColors, stats.incidentsByType)
  }

  // ---------------------------------------------------------------------
  // calculateBackupStats

  predicate IsExactlySuccessful(b: Heatmap.Backup) {
    b.status == "successful"
  }

  /** `backups.filter(b => b.status === 'successful').length`. */
  function BackupSuccessCount(backups: seq<Heatmap.Backup>): (n: nat)
    ensures n <= |backups|
    ensures n == |Filter(backups, IsExactlySuccessful)|
    ensures n == 0 <==> forall i :: 0 <= i < |backups| ==> backups[i].status != "successful"
    ensures n == |backups| <==> forall i :: 0 <= i < |backups| ==> backups[i].status == "successful"
  {
    CountIsFilterLength(backups, IsExactlySuccessful);
    Count(backups, IsExactlySuccessful)
  }

  /** The success count compares case-sensitively, and against a spelling
      the calendar heatmap does not accept: one backup with status
      "Successful" is a success on the heatmap and not in the statistics,
      and one with status "successful" the other way round. */
  lemma SuccessSpellingsDisagree()
    ensures var b := Heatmap.Backup("2024-01-01T00:00:00Z", "Successful");
            BackupSuccessCount([b]) == 0 && Heatmap.IsSuccessful(b)
    ensures var b := Heatmap.Backup("2024-01-01T00:00:00Z", "successful");
            BackupSuccessCount([b]) == 1 && !Heatmap.IsSuccessful(b)
  {
  }

  /** For every backup list, no backup is a success in both places: the
      statistics' count and the heatmap's count together never exceed the
      number of backups. */
  lemma {:induction false} SuccessSpellingsExclusive(backups: seq<Heatmap.Backup>)
    ensures BackupSuccessCount(backups) + Count(backups, Heatmap.IsSuccessful) <= |backups|
  {
    if |backups| > 0 {
      var init := backups[..|backups| - 1];
      SuccessSpellingsExclusive(init);
      assert Count(backups, IsExactlySuccessful) == Count(init, IsExactlySuccessful)
        + if IsExactlySuccessful(backups[|backups| - 1]) then 1 else 0;
      assert Count(backups, Heatmap.IsSuccessful) == Count(init, Heatmap.IsSuccessful)
        + if Heatmap.IsSuccessful(backups[|backups| - 1]) then 1 else 0;
    }
  }

  // ---------------------------------------------------------------------
  // Pipelines

  const PipelineStatusColors: Findings.ColorTable := [
    ("success", "bg-green-100 text-green-800"), ("failed", "bg-red-100 text-red-800"),
    ("running", "bg-blue-100 text-blue-800"), ("cancelled", "bg-gray-100 text-gray-800")]

  /** `PIPELINE_STATUS_COLORS[status]`, `None` for `undefined`. */
  function PipelineStatusClass(status: string): (cls: Option<string>)
    ensures cls.Some? <==> status in {"success", "failed", "running", "cancelled"}
  {
    Findings.KeyedColor(PipelineStatusColors, status)
  }

  /** Each listed pipeline status has its own class. */
  lemma PipelineClassesDistinct(a: string, b: string)
    requires PipelineStatusClass(a).Some? && PipelineStatusClass(b).Some?
    requires PipelineStatusClass(a) == PipelineStatusClass(b)
    ensures a == b
  {
  }

  function PipelineStatus(p: (string, string)): string { p.0 }

  /** The pipeline status summary: one entry per status with its count.
      A pipeline is its (status, duration) pair here. */
  function PipelineStatusCounts(pipelines: seq<(string, string)>): (counts: seq<(string, nat)>)
    ensures SumCounts(counts) == |pipelines|
  {
    GroupCounts(pipelines, PipelineStatus)
  }

  /** What one pipeline adds to the duration reduce. */
  datatype Seconds = Throws | NotANumber | Seconds(total: int)

  /** `s.replace(c, '')` with a one-character pattern: drops the first `c`. */
  function ReplaceFirst(s: string, c: char): (r: string)
    ensures c !in s ==> r == s
    ensures c in s ==> |r| == |s| - 1
  {
    if |s| == 0 then s
    else if s[0] == c then s[1..]
    else [s[0]] + ReplaceFirst(s[1..], c)
  }

  /** The first `c`, and only it, is dropped. */
  lemma {:induction false} ReplaceFirstAt(s: string, c: char, i: nat)
    requires i < |s| && s[i] == c && c !in s[..i]
    ensures ReplaceFirst(s, c) == s[..i] + s[i + 1..]
  {
    if i > 0 {
      assert s[0] == s[..i][0];
      assert s[1..][..i - 1] == s[1..i];
      ReplaceFirstAt(s[1..], c, i - 1);
      assert s[..i] == [s[0]] + s[1..i];
    }
  }

  /** `const [min, sec] = duration.split('m ')`: the text before the first
      separator, and the text from there to the next separator or the end
      (`None` for `undefined` when there is no separator). */
  function SplitMinSec(d: string): (parts: (string, Option<string>))
    ensures IndexOf(d, "m ", 0).None? ==> parts == (d, None)
    ensures IndexOf(d, "m ", 0).Some? ==>
              var k := IndexOf(d, "m ", 0).value;
              parts.0 == d[..k] && parts.1.Some? &&
              var e := k + 2 + |parts.1.value|;
              e <= |d| && parts.1.value == d[k + 2..e] &&
              (e == |d| || SepAt(d, "m ", e)) &&
              forall j: nat :: k + 2 <= j < e ==> !SepAt(d, "m ", j)
  {
    match IndexOf(d, "m ", 0)
    case None => (d, None)
    case Some(k) =>
      match IndexOf(d, "m ", k + 2)
      case None => (d[..k], Some(d[k + 2..]))
      case Some(e) => (d[..k], Some(d[k + 2..e]))
  }

  /** One step of the reduce: `parseInt(min) * 60 + parseInt(sec.replace('s', ''))`,
      a `TypeError` when there is no `sec`, NaN when either part has no digits. */
  function Contribution(d: string): (c: Seconds)
    ensures c.Throws? <==> IndexOf(d, "m ", 0).None?
  {
    match SplitMinSec(d)
    case (_, None) => Throws
    case (min, Some(sec)) =>
      match (ParseInt(min), ParseInt(ReplaceFirst(sec, 's')))
      case (Some(m), Some(s)) => Seconds(m * 60 + s)
      case _ => NotANumber
  }

  /** `acc + contribution`: a throw aborts the reduce, NaN absorbs numbers. */
  function Add(acc: Seconds, c: Seconds): Seconds {
    if acc.Throws? || c.Throws? then Throws
    else if acc.NotANumber? || c.NotANumber? then NotANumber
    else Seconds(acc.total + c.total)
  }

  /** The contribution of each pipeline, in order. */
  function Contributions(durations: seq<string>): (cs: seq<Seconds>)
    ensures |cs| == |durations|
    ensures forall i :: 0 <= i < |durations| ==> cs[i] == Contribution(durations[i])
  {
    seq(|durations|, i requires 0 <= i < |durations| => Contribution(durations[i]))
  }

  /** The reduce from 0, left to right: it throws when some step throws,
      and is a number only when every step is. */
  function Reduce(cs: seq<Seconds>): (r: Seconds)
    ensures r.Throws? <==> exists i :: 0 <= i < |cs| && cs[i].Throws?
    ensures r.Seconds? <==> forall i :: 0 <= i < |cs| ==> cs[i].Seconds?
  {
    if |cs| == 0 then Seconds(0)
    else
      var init := cs[..|cs| - 1];
      assert forall i :: 0 <= i < |init| ==> init[i] == cs[i];
      Add(Reduce(init), cs[|cs| - 1])
  }

  /** `pipelines.reduce((acc, curr) => acc + ..., 0)` over the durations. */
  function TotalDuration(durations: seq<string>): (r: Seconds)
    ensures r.Throws? <==> exists i :: 0 <= i < |durations| && Contribution(durations[i]).Throws?
    ensures r.Seconds? <==> forall i :: 0 <= i < |durations| ==> Contribution(durations[i]).Seconds?
  {
    Reduce(Contributions(durations))
  }

  /** The form the durations take: `"<m>m <s>s"`. */
  function PipelineDuration(m: nat, s: nat): string {
    NatToString(m) + "m " + NatToString(s) + "s"
  }

  /** A well-formed duration splits into its minutes and `"<s>s"`. */
  lemma SplitWellFormed(m: nat, s: nat)
    ensures SplitMinSec(PipelineDuration(m, s)) == (NatToString(m), Some(NatToString(s) + "s"))
  {
    var ms := NatToString(m);
    var ss := NatToString(s);
    var d := PipelineDuration(m, s);
    assert d == ms + "m " + (ss + "s");
    SeparatorAfterDigits(ms, "m ", ss + "s");
    NoSepIn(d, "m ", |ms| + 2, |d|);
    assert d[..|ms|] == ms;
    assert d[|ms| + 2..] == ss + "s";
  }

  /** `"<s>s".replace('s', '')` parses back to `s`. */
  lemma SecondsPart(s: nat)
    ensures ParseInt(ReplaceFirst(NatToString(s) + "s", 's')) == Some(s)
  {
    var ss := NatToString(s);
    var sec := ss + "s";
    assert sec[..|ss|] == ss && sec[|ss| + 1..] == [];
    ReplaceFirstAt(sec, 's', |ss|);
    assert ReplaceFirst(sec, 's') == ss + "";
    ParseIntOfNatToString(s, "");
  }

  /** A well-formed duration contributes `60 * m + s` seconds. */
  lemma ContributionOfWellFormed(m: nat, s: nat)
    ensures Contribution(PipelineDuration(m, s)) == Seconds(60 * m + s)
  {
    SplitWellFormed(m, s);
    SecondsPart(s);
    assert NatToString(m) + "" == NatToString(m);
    ParseIntOfNatToString(m, "");
    ContributionOfParts(PipelineDuration(m, s), NatToString(m), NatToString(s) + "s", m, s);
  }

  /** A duration whose two parts parse contributes their seconds. */
  lemma ContributionOfParts(d: string, min: string, sec: string, m: int, s: int)
    requires SplitMinSec(d) == (min, Some(sec))
    requires ParseInt(min) == Some(m) && ParseInt(ReplaceFirst(sec, 's')) == Some(s)
    ensures Contribution(d) == Seconds(60 * m + s)
  {
  }

  function SumSeconds(ms: seq<nat>, ss: seq<nat>): int
    requires |ms| == |ss|
  {
    if |ms| == 0 then 0 else SumSeconds(ms[..|ms| - 1], ss[..|ss| - 1]) + 60 * ms[|ms| - 1] + ss[|ss| - 1]
  }

  lemma {:induction false} ReduceWellFormed(cs: seq<Seconds>, ms: seq<nat>, ss: seq<nat>)
    requires |cs| == |ms| == |ss|
    requires forall i :: 0 <= i < |cs| ==> cs[i] == Seconds(60 * ms[i] + ss[i])
    ensures Reduce(cs) == Seconds(SumSeconds(ms, ss))
  {
    if |cs| > 0 {
      var n := |cs| - 1;
      ReduceWellFormed(cs[..n], ms[..n], ss[..n]);
    }
  }

  /** Over well-formed durations the reduce sums `60 * m + s` seconds. */
  lemma TotalOfWellFormed(durations: seq<string>, ms: seq<nat>, ss: seq<nat>)
    requires |durations| == |ms| == |ss|
    requires forall i :: 0 <= i < |durations| ==> durations[i] == PipelineDuration(ms[i], ss[i])
    ensures TotalDuration(durations) == Seconds(SumSeconds(ms, ss))
  {
    var cs := Contributions(durations);
    forall i | 0 <= i < |cs|
      ensures cs[i] == Seconds(60 * ms[i] + ss[i])
    {
      ContributionOfWellFormed(ms[i], ss[i]);
    }
    ReduceWellFormed(cs, ms, ss);
  }

  /** A duration without the `"m "` separator makes the reduce throw,
      whatever the other durations are. */
  lemma MissingSeparatorThrows(durations: seq<string>, i: nat)
    requires i < |durations| && forall k: nat :: !SepAt(durations[i], "m ", k)
    ensures TotalDuration(durations) == Throws
  {
    assert Contribution(durations[i]).Throws?;
  }
}
