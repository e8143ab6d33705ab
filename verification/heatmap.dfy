/** The backup calendar (src/components/BackupCalendarHeatmap.tsx): backups
    tallied per day into successful and failed counts, and the fill class
    of each calendar day. */
module Heatmap {

  import opened Values
  import opened Collections

  datatype Backup = Backup(date: string, status: string)

  /** One calendar entry. */
  datatype DayTally = DayTally(date: string, successful: nat, failed: nat)

  /** `date.split("T")[0]`: the text before the first "T", or all of it. */
  function DatePrefix(date: string): (day: string)
    ensures |day| <= |date| && day == date[..|day|]
    ensures 'T' !in day
    ensures |day| < |date| ==> date[|day|] == 'T'
  {
    if |date| == 0 || date[0] == 'T' then ""
    else [date[0]] + DatePrefix(date[1..])
  }

  function Day(b: Backup): string {
    DatePrefix(b.date)
  }

  /** `["Successful", "Completed"].includes(status)`: exact, case-sensitive. */
  predicate IsSuccessful(b: Backup) {
    b.status == "Successful" || b.status == "Completed"
  }

  // ---------------------------------------------------------------------
  // processBackupData

  /** The day's entry after counting backup `b`. */
  function Bump(t: DayTally, b: Backup): (r: DayTally)
    ensures r.date == t.date
    ensures r.successful + r.failed == t.successful + t.failed + 1
  {
    if IsSuccessful(b) then t.(successful := t.successful + 1) else t.(failed := t.failed + 1)
  }

  /** One step of the `forEach`: the backup's day gets a new entry, with
      zero counts, when the map does not hold it yet; then the day's
      successful or failed count goes up by one. */
  function Tally(ts: seq<DayTally>, b: Backup): (r: seq<DayTally>)
    ensures |r| == |ts| || |r| == |ts| + 1
  {
    if |ts| == 0 then [Bump(DayTally(Day(b), 0, 0), b)]
    else if ts[0].date == Day(b) then [Bump(ts[0], b)] + ts[1..]
    else [ts[0]] + Tally(ts[1..], b)
  }

  lemma TallyCons(t: DayTally, ts: seq<DayTally>, b: Backup)
    ensures Tally([t] + ts, b) == if t.date == Day(b) then [Bump(t, b)] + ts else [t] + Tally(ts, b)
  {
    assert ([t] + ts)[0] == t && ([t] + ts)[1..] == ts;
  }

  /** `processBackupData()`: the map's values, in insertion order. */
  function ProcessBackupData(backups: seq<Backup>): seq<DayTally> {
    if |backups| == 0 then []
    else Tally(ProcessBackupData(backups[..|backups| - 1]), backups[|backups| - 1])
  }

  /** The entry a group of same-day backups amounts to. */
  function Summary(g: Group<Backup>): (t: DayTally)
    ensures t.date == g.key
    ensures t.successful + t.failed == |g.items|
  {
    var s := Count(g.items, IsSuccessful);
    DayTally(g.key, s, |g.items| - s)
  }

  function Summaries(gs: seq<Group<Backup>>): (ts: seq<DayTally>)
    ensures |ts| == |gs|
    ensures forall i :: 0 <= i < |gs| ==> ts[i] == Summary(gs[i])
  {
    if |gs| == 0 then [] else [Summary(gs[0])] + Summaries(gs[1..])
  }

  lemma CountSnoc(xs: seq<Backup>, x: Backup)
    ensures Count(xs + [x], IsSuccessful) == Count(xs, IsSuccessful) + if IsSuccessful(x) then 1 else 0
  {
    assert (xs + [x])[..|xs|] == xs;
  }

  /** Counting one more backup of a day in its entry is the summary of the
      day's group with that backup appended. */
  lemma TallyOne(g: Group<Backup>, b: Backup)
    ensures Bump(Summary(g), b) == Summary(Group(g.key, g.items + [b]))
  {
    CountSnoc(g.items, b);
  }

  lemma SummariesCons(g: Group<Backup>, gs: seq<Group<Backup>>)
    ensures Summaries([g] + gs) == [Summary(g)] + Summaries(gs)
  {
    assert ([g] + gs)[1..] == gs;
  }

  /** A tally step on the summaries is the summary of a grouping step. */
  lemma {:induction false} TallySummaries(gs: seq<Group<Backup>>, b: Backup)
    ensures Tally(Summaries(gs), b) == Summaries(AddItem(gs, b, Day))
  {
    if |gs| == 0 {
      TallyOne(Group(Day(b), []), b);
      assert [] + [b] == [b];
      SummariesCons(Group(Day(b), [b]), []);
    } else {
      var g, rest := gs[0], gs[1..];
      assert gs == [g] + rest;
      SummariesCons(g, rest);
      TallyCons(Summary(g), Summaries(rest), b);
      if g.key == Day(b) {
        TallyOne(g, b);
        assert AddItem(gs, b, Day) == [Group(g.key, g.items + [b])] + rest;
        SummariesCons(Group(g.key, g.items + [b]), rest);
      } else {
        TallySummaries(rest, b);
        assert AddItem(gs, b, Day) == [g] + AddItem(rest, b, Day);
        SummariesCons(g, AddItem(rest, b, Day));
      }
    }
  }

  /** The single pass over the backups gives, in first-seen order, the
      summary of each group of `groupBy(backups, day)`. */
  lemma {:induction false} ProcessIsGrouping(backups: seq<Backup>)
    ensures ProcessBackupData(backups) == Summaries(GroupBy(backups, Day))
  {
    if |backups| > 0 {
      var init := backups[..|backups| - 1];
      ProcessIsGrouping(init);
      TallySummaries(GroupBy(init, Day), backups[|backups| - 1]);
    }
  }

  function TotalBackups(ts: seq<DayTally>): nat {
    if |ts| == 0 then 0 else ts[0].successful + ts[0].failed + TotalBackups(ts[1..])
  }

  lemma {:induction false} TotalOfSummaries(gs: seq<Group<Backup>>)
    ensures TotalBackups(Summaries(gs)) == TotalSize(gs)
  {
    if |gs| > 0 {
      TotalOfSummaries(gs[1..]);
      assert Summaries(gs)[1..] == Summaries(gs[1..]);
    }
  }

  /** No two entries share a day. */
  lemma ProcessDistinct(backups: seq<Backup>)
    ensures var ts := ProcessBackupData(backups);
            forall i, j :: 0 <= i < j < |ts| ==> ts[i].date != ts[j].date
  {
    ProcessIsGrouping(backups);
    GroupByDistinct(backups, Day);
  }

  /** Entry `i` counts exactly the backups of its day, at least one, and
      its successful count is the number of those that succeeded. */
  lemma ProcessEntry(backups: seq<Backup>, i: nat)
    requires i < |ProcessBackupData(backups)|
    ensures var t := ProcessBackupData(backups)[i];
            var ofDay := Select(backups, Day, t.date);
            && t.successful == Count(ofDay, IsSuccessful)
            && t.successful + t.failed == |ofDay|
            && t.successful + t.failed >= 1
  {
    ProcessIsGrouping(backups);
    GroupByGroup(backups, Day, i);
  }

  /** A day has an entry exactly when some backup falls on it. */
  lemma ProcessCoverage(backups: seq<Backup>, d: string)
    ensures var ts := ProcessBackupData(backups);
            (exists i :: 0 <= i < |ts| && ts[i].date == d) <==>
            (exists k :: 0 <= k < |backups| && Day(backups[k]) == d)
  {
    var gs := GroupBy(backups, Day);
    ProcessIsGrouping(backups);
    GroupByKeys(backups, Day, d);
    var ts := ProcessBackupData(backups);
    if exists i :: 0 <= i < |ts| && ts[i].date == d {
      var i :| 0 <= i < |ts| && ts[i].date == d;
      assert Keys(gs)[i] == d;
    }
    if d in Keys(gs) {
      var i :| 0 <= i < |gs| && Keys(gs)[i] == d;
      assert ts[i].date == d;
    }
  }

  /** The counts of all entries add up to the number of backups. */
  lemma ProcessTotal(backups: seq<Backup>)
    ensures TotalBackups(ProcessBackupData(backups)) == |backups|
  {
    ProcessIsGrouping(backups);
    TotalOfSummaries(GroupBy(backups, Day));
    GroupByTotal(backups, Day);
  }

  // ---------------------------------------------------------------------
  // getClassForValue

  const Gray := "fill-gray-100"
  const Green := "fill-green-200"
  const Orange := "fill-orange-200"
  const Red := "fill-red-200"

  lemma ScaleMonotone(a: real, b: real, t: real)
    requires t > 0.0 && a >= b
    ensures a * t >= b * t
  {
    if a > b {
      assert (a - b) * t > 0.0 by {
        PositiveProduct(a - b, t);
      }
      assert (a - b) * t == a * t - b * t;
    }
  }

  /** Scaling by a positive total keeps a comparison with a cut-off. */
  lemma ScaledCompare(rate: real, c: real, t: real)
    requires t > 0.0
    ensures rate >= c <==> rate * t >= c * t
    ensures rate == c <==> rate * t == c * t
  {
    if rate >= c {
      ScaleMonotone(rate, c, t);
    } else {
      PositiveProduct(c - rate, t);
      assert (c - rate) * t == c * t - rate * t;
    }
    if rate > c {
      PositiveProduct(rate - c, t);
      assert (rate - c) * t == rate * t - c * t;
    }
  }

  lemma DivTimes(a: real, t: real)
    requires t > 0.0
    ensures (a / t) * t == a
  {
  }

  /** A rate of `sr` out of `t`, against the two cut-offs. */
  lemma RateFacts(rate: real, sr: real, t: real)
    requires t > 0.0 && rate * t == sr
    ensures rate == 1.0 <==> sr == t
    ensures rate >= 0.5 <==> 2.0 * sr >= t
  {
    ScaledCompare(rate, 0.5, t);
    ScaledCompare(rate, 1.0, t);
  }

  /** The success rate `successful / (successful + failed)` against the
      two cut-offs, in whole numbers. */
  lemma RateCutoffs(s: nat, total: nat)
    requires total > 0 && s <= total
    ensures var rate := s as real / total as real;
            && (rate == 1.0 <==> s == total)
            && (rate >= 0.5 <==> 2 * s >= total)
  {
    DivTimes(s as real, total as real);
    RateFacts(s as real / total as real, s as real, total as real);
  }

  /** `getClassForValue(value)`. The entries this view produces carry no
      `count` field, so `value.count === 0` never holds; a day with no
      backup at all would divide 0 by 0, and NaN fails both comparisons. */
  function ClassForValue(value: Option<DayTally>): (cls: string)
    ensures value.None? ==> cls == Gray
    ensures value.Some? && value.value.successful + value.value.failed > 0 ==>
              && (cls == Green <==> value.value.failed == 0)
              && (cls == Orange <==> value.value.failed > 0 && 2 * value.value.successful >= value.value.successful + value.value.failed)
              && (cls == Red <==> 2 * value.value.successful < value.value.successful + value.value.failed)
    ensures value.Some? ==> cls != Gray
  {
    match value
    case None => Gray
    case Some(t) =>
      var total := t.successful + t.failed;
      if total == 0 then Red
      else
        var rate := t.successful as real / total as real;
        RateCutoffs(t.successful, total);
        if rate == 1.0 then Green
        else if rate >= 0.5 then Orange
        else Red
  }

  /** The entry of a day, if the tallies hold one. */
  function EntryFor(ts: seq<DayTally>, day: string): (r: Option<DayTally>)
    ensures r.Some? ==> r.value in ts && r.value.date == day
    ensures r.None? ==> forall i :: 0 <= i < |ts| ==> ts[i].date != day
  {
    if |ts| == 0 then None
    else if ts[0].date == day then Some(ts[0])
    else EntryFor(ts[1..], day)
  }

  /** Every backup of a day succeeded exactly when the day's successful
      count is its number of backups. */
  lemma AllOfDaySuccessful(backups: seq<Backup>, day: string)
    ensures var ofDay := Select(backups, Day, day);
            Count(ofDay, IsSuccessful) == |ofDay| <==>
            forall m :: 0 <= m < |backups| && Day(backups[m]) == day ==> IsSuccessful(backups[m])
  {
    var ofDay := Select(backups, Day, day);
    if Count(ofDay, IsSuccessful) == |ofDay| {
      forall m | 0 <= m < |backups| && Day(backups[m]) == day
        ensures IsSuccessful(backups[m])
      {
        SelectMembership(backups, Day, day, backups[m]);
        var p :| 0 <= p < |ofDay| && ofDay[p] == backups[m];
      }
    } else {
      var p :| 0 <= p < |ofDay| && !IsSuccessful(ofDay[p]);
      SelectMembership(backups, Day, day, ofDay[p]);
      var m :| 0 <= m < |backups| && backups[m] == ofDay[p];
    }
  }

  /** A calendar day is gray exactly when no backup falls on it. */
  lemma DayGray(backups: seq<Backup>, day: string)
    ensures ClassForValue(EntryFor(ProcessBackupData(backups), day)) == Gray <==>
            forall k :: 0 <= k < |backups| ==> Day(backups[k]) != day
  {
    ProcessCoverage(backups, day);
  }

  /** A day with backups is green exactly when all of them succeeded. */
  lemma DayGreen(backups: seq<Backup>, day: string)
    ensures ClassForValue(EntryFor(ProcessBackupData(backups), day)) == Green <==>
            (exists k :: 0 <= k < |backups| && Day(backups[k]) == day) &&
            forall m :: 0 <= m < |backups| && Day(backups[m]) == day ==> IsSuccessful(backups[m])
  {
    var ts := ProcessBackupData(backups);
    ProcessCoverage(backups, day);
    AllOfDaySuccessful(backups, day);
    var e := EntryFor(ts, day);
    if e.Some? {
      var i :| 0 <= i < |ts| && ts[i] == e.value;
      ProcessEntry(backups, i);
    }
  }
}
