/** The derived values the statistics screen shows: which milestones look
    unlocked and their labels, the seven-day window, the bar scales and
    the order of the category rows. */
module StatsScreen {
  import opened JsValues
  import opened JsStrings
  import opened JsArrays
  import opened Milestones
  import CounterScreen
  import Stats

  /** The screen's own `formatCategory`: split on '-', capitalise, join. */
  function FormatCategory(cat: string): (r: string) {
    Join(CounterScreen.MapCapitalize(Split(cat, '-')), " ")
  }

  /** Both screens label a category the same way. */
  lemma SameLabelAsCounter(cat: string)
    ensures FormatCategory(cat) == CounterScreen.FormatCategory(cat)
  {
    if cat == [] {
      assert Split(cat, '-') == [""];
    }
  }

  // ---------------------------------------------------------------------
  // Milestone cards

  /** A card shows as unlocked when its threshold was recorded or the
      lifetime total has reached it. */
  predicate Shown(m: Milestone, reached: seq<int>, lifetime: Num) {
    m.threshold in reached || AtLeast(lifetime, m.threshold)
  }

  /** While the recorded list holds exactly the thresholds passed, a card
      shows exactly when the total has reached it. */
  lemma ShownIffReached(m: Milestone, reached: seq<int>, total: int)
    requires m in Table && Stats.ExactlyReached(total, reached)
    ensures Shown(m, reached, Int(total)) <==> m.threshold <= total
  {
    assert m.threshold in Stats.Thresholds();
  }

  /** Every threshold is below 1000 or a whole number of thousands. */
  lemma ThresholdsRound(m: Milestone)
    requires m in Table
    ensures m.threshold < 1000 || m.threshold % 1000 == 0
  {
  }

  /** `m.threshold >= 1000 ? (m.threshold / 1000) + 'k' : m.threshold`, for
      thresholds whose thousands quotient is whole. */
  function ThresholdLabel(t: nat): (r: string)
    requires t < 1000 || t % 1000 == 0
  {
    if t >= 1000 then ShowInt(t / 1000) + "k" else ShowInt(t)
  }

  lemma NoKInNumerals(n: nat)
    ensures 'k' !in DecimalString(n)
  {
    var s := DecimalString(n);
    assert forall i :: 0 <= i < |s| ==> s[i] != 'k';
  }

  /** Different thresholds get different labels, and a label ends in 'k'
      exactly for thresholds of 1000 and more. */
  lemma LabelsDistinct(a: nat, b: nat)
    requires a < 1000 || a % 1000 == 0
    requires b < 1000 || b % 1000 == 0
    ensures ThresholdLabel(a) == ThresholdLabel(b) <==> a == b
    ensures ThresholdLabel(a)[|ThresholdLabel(a)| - 1] == 'k' <==> a >= 1000
  {
    NoKInNumerals(a);
    NoKInNumerals(a / 1000);
    NoKInNumerals(b);
    var la := ThresholdLabel(a);
    var lb := ThresholdLabel(b);
    var da := DecimalString(a);
    assert da[|da| - 1] in da;
    if a >= 1000 && b >= 1000 {
      if la == lb {
        assert ShowInt(a / 1000) == la[..|la| - 1] == ShowInt(b / 1000);
        ShowIntInjective(a / 1000, b / 1000);
      }
    } else if a < 1000 && b < 1000 {
      ShowIntInjective(a, b);
    } else if a >= 1000 {
      var db := DecimalString(b);
      assert db[|db| - 1] in db;
      assert la[|la| - 1] == 'k';
    } else {
      var db := DecimalString(b / 1000);
      NoKInNumerals(b / 1000);
      assert lb[|lb| - 1] == 'k';
    }
  }

  // ---------------------------------------------------------------------
  // Bar scales

  /** `Math.max(...xs, 1)`. */
  function MaxOr1(xs: seq<int>): (r: int)
    ensures r >= 1
    ensures forall x :: x in xs ==> x <= r
    ensures r == 1 || r in xs
  {
    if xs == [] then 1
    else
      var m := MaxOr1(xs[1..]);
      assert forall x :: x in xs ==> x == xs[0] || x in xs[1..];
      if xs[0] > m then xs[0] else m
  }

  function Totals(entries: seq<Stats.Entry>): (r: seq<int>)
    ensures |r| == |entries|
    ensures forall i :: 0 <= i < |entries| ==> r[i] == entries[i].total
  {
    if entries == [] then [] else [entries[0].total] + Totals(entries[1..])
  }

  /** `maxCatCount`: at least 1 and at least every category's total. */
  function MaxCatCount(entries: seq<Stats.Entry>): (r: int)
    ensures r >= 1
    ensures forall e :: e in entries ==> e.total <= r
  {
    var ts := Totals(entries);
    assert forall e :: e in entries ==> e.total in ts by {
      forall e | e in entries ensures e.total in ts {
        var i :| 0 <= i < |entries| && entries[i] == e;
        assert ts[i] == e.total;
      }
    }
    MaxOr1(ts)
  }

  // ---------------------------------------------------------------------
  // The week

  datatype DayBar = DayBar(day: int, count: int, isToday: bool)

  /** The bars for days `today - 6 + i` with `i` from `i0` to 6. */
  function WeekFrom(today: int, daily: map<int, int>, i0: nat): (r: seq<DayBar>)
    requires i0 <= 7
    ensures |r| == 7 - i0
    ensures forall k :: 0 <= k < |r| ==> r[k] == DayBar(today - 6 + i0 + k, Stats.DayCount(daily, today - 6 + i0 + k), i0 + k == 6)
    decreases 7 - i0
  {
    if i0 == 7 then []
    else
      var d := today - 6 + i0;
      [DayBar(d, Stats.DayCount(daily, d), i0 == 6)] + WeekFrom(today, daily, i0 + 1)
  }

  /** `weekDays`: seven bars for the days from six days ago to today,
      oldest first, each with that day's recorded total or 0; only the last
      bar is today's. */
  function WeekDays(today: int, daily: map<int, int>): (r: seq<DayBar>)
    ensures |r| == 7 && r[6].day == today
    ensures forall k :: 0 <= k < 7 ==> r[k].day == today - 6 + k && r[k].count == Stats.DayCount(daily, r[k].day)
    ensures forall k :: 0 <= k < 7 ==> (r[k].isToday <==> k == 6)
    ensures forall k :: 0 <= k < 7 && r[k].day !in daily ==> r[k].count == 0
  {
    WeekFrom(today, daily, 0)
  }

  function Counts(bars: seq<DayBar>): (r: seq<int>)
    ensures |r| == |bars|
    ensures forall i :: 0 <= i < |bars| ==> r[i] == bars[i].count
  {
    if bars == [] then [] else [bars[0].count] + Counts(bars[1..])
  }

  /** `maxWeekCount`. */
  function MaxWeekCount(bars: seq<DayBar>): (r: int)
    ensures r >= 1
    ensures forall i :: 0 <= i < |bars| ==> bars[i].count <= r
  {
    var cs := Counts(bars);
    assert forall i :: 0 <= i < |bars| ==> cs[i] in cs;
    MaxOr1(cs)
  }

  // ---------------------------------------------------------------------
  // Category rows

  /** `sort(([, a], [, b]) => b - a)`: larger totals first. */
  predicate TotalGe(a: Stats.Entry, b: Stats.Entry) {
    b.total - a.total <= 0
  }

  /** The rows: the breakdown's entries, larger totals first, and none when
      the breakdown is empty. */
  function Rows(entries: seq<Stats.Entry>): (r: seq<Stats.Entry>)
    ensures multiset(r) == multiset(entries)
    ensures forall i, j :: 0 <= i < j < |r| ==> r[i].total >= r[j].total
    ensures r == [] <==> entries == []
  {
    assert IsTotal(TotalGe);
    assert IsTransitive(TotalGe);
    SortBySorted(entries, TotalGe);
    var r := SortBy(entries, TotalGe);
    assert SortedBy(r, TotalGe);
    r
  }

  /** The category section is drawn only when there is some entry. */
  predicate ShowBreakdown(entries: seq<Stats.Entry>) {
    |entries| > 0
  }
}
