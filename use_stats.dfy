/** The statistics hook: lifetime total, per-day counts, the daily streak,
    milestone unlocking, and the per-category breakdown of stored counters.
    Days are integer day numbers, so yesterday is `today - 1`. */
module Stats {
  import opened JsValues
  import opened JsStrings
  import opened JsArrays
  import opened Milestones
  import opened Adhkar
  import Keys
  import Counter
  import Sequencer

  /** The streak record `{ current, best, lastDate }`; an empty `lastDate`
      is None. */
  datatype StreakRecord = StreakRecord(current: int, best: int, lastDate: Option<int>)

  const DefaultStreak := StreakRecord(0, 0, None)

  /** The streak update of one recorded tap on day `today`. */
  function NextStreak(s: StreakRecord, today: int): (r: StreakRecord)
    ensures r.lastDate == Some(today)
    ensures s.lastDate == Some(today) ==> r.current == s.current
    ensures s.lastDate == Some(today - 1) ==> r.current == s.current + 1
    ensures s.lastDate != Some(today) && s.lastDate != Some(today - 1) ==> r.current == 1
    ensures r.best >= r.current && r.best >= s.best
    ensures r.best == s.best || r.best == r.current
  {
    var current :=
      if s.lastDate == Some(today) then s.current
      else if s.lastDate == Some(today - 1) then s.current + 1
      else 1;
    StreakRecord(current, if s.best >= current then s.best else current, Some(today))
  }

  /** The streak after taps on each of `days`, from the default record. */
  function StreakAfter(days: seq<int>): StreakRecord {
    if days == [] then DefaultStreak else NextStreak(StreakAfter(days[..|days| - 1]), days[|days| - 1])
  }

  ghost predicate Nondecreasing(days: seq<int>) {
    forall i, j :: 0 <= i < j < |days| ==> days[i] <= days[j]
  }

  /** The current streak counts the run of consecutive days of `days` that
      ends on `last`: those days all occur and the day before them does not. */
  ghost predicate RunEndsAt(days: seq<int>, last: int, current: int) {
    current >= 1 && (forall x :: last - current < x <= last ==> x in days) && last - current !in days
  }

  /** For taps recorded in date order, the current streak counts exactly the
      run of consecutive active days that ends on the last active day: the
      `current` days up to it all saw a tap and the day before them did not. */
  lemma {:induction false} StreakIsRunOfDays(days: seq<int>)
    requires |days| > 0 && Nondecreasing(days)
    ensures var r := StreakAfter(days); var last := days[|days| - 1];
      r.lastDate == Some(last) && r.best >= r.current && RunEndsAt(days, last, r.current)
  {
    var n := |days|;
    var d := days[n - 1];
    var front := days[..n - 1];
    assert days == front + [d];
    StreakAfterAppend(front, d);
    if n == 1 {
      assert front == [];
      StreakFirstDay(d);
    } else {
      NondecreasingPrefix(days);
      StreakIsRunOfDays(front);
      StreakStep(front, StreakAfter(front), d);
    }
  }

  lemma StreakFirstDay(d: int)
    ensures NextStreak(DefaultStreak, d).current == 1 && RunEndsAt([] + [d], d, 1)
  {
    assert [] + [d] == [d];
  }

  lemma NondecreasingPrefix(days: seq<int>)
    requires |days| > 0 && Nondecreasing(days)
    ensures Nondecreasing(days[..|days| - 1])
  {
    var front := days[..|days| - 1];
    forall i, j | 0 <= i < j < |front| ensures front[i] <= front[j] {
      assert front[i] == days[i] && front[j] == days[j];
    }
  }

  lemma StreakStep(front: seq<int>, prev: StreakRecord, d: int)
    requires |front| > 0 && Nondecreasing(front + [d])
    requires prev.lastDate == Some(front[|front| - 1]) && RunEndsAt(front, front[|front| - 1], prev.current)
    ensures RunEndsAt(front + [d], d, NextStreak(prev, d).current)
  {
    var days := front + [d];
    var l := front[|front| - 1];
    assert forall x :: x in front ==> x <= l by {
      forall x | x in front ensures x <= l {
        var i :| 0 <= i < |front| && front[i] == x;
        assert days[i] == x && days[|front| - 1] == l;
      }
    }
    assert l <= d by {
      assert days[|front| - 1] == l && days[|front|] == d;
    }
    var r := NextStreak(prev, d);
    assert forall x :: x in front ==> x in days;
    assert d in days;
    if d == l {
      assert r.current == prev.current;
    } else if d == l + 1 {
      assert r.current == prev.current + 1;
      forall x | d - r.current < x <= d ensures x in days {
        if x < d { assert x in front; }
      }
      assert d - r.current !in front;
    } else {
      assert r.current == 1;
      assert d - 1 !in front;
    }
  }

  /** The streak after a tap on a later day equals folding that day in. */
  lemma StreakAfterAppend(days: seq<int>, d: int)
    ensures StreakAfter(days + [d]) == NextStreak(StreakAfter(days), d)
  {
    assert (days + [d])[..|days|] == days;
  }

  /** The test the hook's `find` applies: the total has passed the
      threshold and it is not yet recorded. */
  predicate Unlockable(m: Milestone, total: Num, reached: seq<int>) {
    AtLeast(total, m.threshold) && !(m.threshold in reached)
  }

  /** `ms.find(m => Unlockable(m, total, reached))`, the scan written out:
      the first element passing the test; on ascending thresholds it is
      also the lowest one. */
  function FindUnlockable(ms: seq<Milestone>, total: Num, reached: seq<int>): (r: Option<Milestone>)
    ensures r.Some? ==> r.value in ms && Unlockable(r.value, total, reached)
    ensures r.None? ==> forall m :: m in ms ==> !Unlockable(m, total, reached)
    ensures r.Some? && Ascending(ms) ==>
      forall m :: m in ms && m.threshold < r.value.threshold ==> !Unlockable(m, total, reached)
  {
    if ms == [] then None
    else if Unlockable(ms[0], total, reached) then
      assert Ascending(ms) ==> forall m :: m in ms ==> m.threshold >= ms[0].threshold by {
        forall m | Ascending(ms) && m in ms ensures m.threshold >= ms[0].threshold {
          var j :| 0 <= j < |ms| && ms[j] == m;
          var tj, t0 := ms[j].threshold, ms[0].threshold;
          assert j > 0 ==> tj > t0;
        }
      }
      Some(ms[0])
    else
      var r := FindUnlockable(ms[1..], total, reached);
      assert Ascending(ms) ==> Ascending(ms[1..]) by {
        forall i, j | Ascending(ms) && 0 <= i < j < |ms[1..]| ensures ms[1..][i].threshold < ms[1..][j].threshold {
          assert ms[1..][i] == ms[i + 1] && ms[1..][j] == ms[j + 1];
        }
      }
      assert forall m :: m in ms ==> m == ms[0] || m in ms[1..];
      r
  }

  /** `MILESTONES.find(m => m.threshold <= total && !reached.includes(...))`:
      the smallest threshold the total has passed that is not yet recorded. */
  function Unlock(total: Num, reached: seq<int>): (r: Option<Milestone>)
    ensures r.Some? ==> r.value in Table && AtLeast(total, r.value.threshold) && r.value.threshold !in reached
    ensures r.Some? ==> forall m :: m in Table && m.threshold < r.value.threshold && AtLeast(total, m.threshold) ==> m.threshold in reached
    ensures r.None? ==> forall m :: m in Table && AtLeast(total, m.threshold) ==> m.threshold in reached
    ensures total.NaN? ==> r.None?
  {
    TableAscending();
    FindUnlockable(Table, total, reached)
  }

  /** The thresholds of the table. */
  function Thresholds(): (ts: set<int>)
    ensures forall t :: t in ts <==> exists m :: m in Table && m.threshold == t
  {
    set m | m in Table :: m.threshold
  }

  ghost predicate NoDuplicates(xs: seq<int>) {
    forall i, j :: 0 <= i < j < |xs| ==> xs[i] != xs[j]
  }

  /** The recorded list holds, once each, exactly the thresholds at most
      `total`. */
  ghost predicate ExactlyReached(total: int, reached: seq<int>) {
    NoDuplicates(reached) && forall t :: t in reached <==> t in Thresholds() && t <= total
  }

  /** The reached list after a call that brings the total to `total`. */
  function ReachedAfter(total: Num, reached: seq<int>): (r: seq<int>)
    ensures |r| <= |reached| + 1 && reached <= r
  {
    var u := Unlock(total, reached);
    if u.Some? then reached + [u.value.threshold] else reached
  }

  /** The toast after a call that brings the total to `total`: the newly
      unlocked milestone, or the toast already showing when none is. */
  function ToastAfter(total: Num, reached: seq<int>, toast: Option<Milestone>): (r: Option<Milestone>)
    ensures Unlock(total, reached).Some? ==> r == Unlock(total, reached)
    ensures Unlock(total, reached).None? ==> r == toast
    ensures r.Some? && r != toast ==> r.value.threshold in ReachedAfter(total, reached)
  {
    var u := Unlock(total, reached);
    if u.Some? then u else toast
  }

  /** Recording never duplicates a threshold and only records thresholds
      the total has passed; with growing totals that stays true. */
  lemma ReachedStaysSound(old_total: int, total: int, reached: seq<int>)
    requires NoDuplicates(reached) && forall t :: t in reached ==> t in Thresholds() && t <= old_total
    requires old_total <= total
    ensures var r := ReachedAfter(Int(total), reached);
      NoDuplicates(r) && forall t :: t in r ==> t in Thresholds() && t <= total
  {
  }

  /** Counting one at a time, the reached list is always exactly the
      thresholds passed so far: each threshold is recorded on the tap that
      reaches it. */
  lemma TapKeepsExactlyReached(total: int, reached: seq<int>)
    requires ExactlyReached(total, reached)
    ensures ExactlyReached(total + 1, ReachedAfter(Int(total + 1), reached))
  {
    var u := Unlock(Int(total + 1), reached);
    if u.Some? {
      var t := u.value.threshold;
      assert t in Thresholds() && t !in reached && t <= total + 1;
      RecordNext(total, reached, t);
    } else {
      forall t | t in Thresholds() && t <= total + 1 ensures t in reached {
        var m :| m in Table && m.threshold == t;
        assert AtLeast(Int(total + 1), m.threshold);
      }
    }
  }

  /** Recording the threshold one above the total keeps the list exact. */
  lemma RecordNext(total: int, reached: seq<int>, t: int)
    requires ExactlyReached(total, reached)
    requires t in Thresholds() && t !in reached && t <= total + 1
    ensures ExactlyReached(total + 1, reached + [t])
  {
    var r := reached + [t];
    assert t == total + 1;
    forall i, j | 0 <= i < j < |r| ensures r[i] != r[j] {
      assert r[i] == reached[i];
      if j < |reached| { assert r[j] == reached[j]; }
    }
    assert forall x :: x in r <==> x in reached || x == t;
  }

  /** A large amount crossing two thresholds in one call records only the
      lower one: from 0, adding 600 records 100 and leaves 500 for a later
      call. */
  lemma OneMilestonePerCall()
    ensures ReachedAfter(Int(600), []) == [100]
    ensures Unlock(Int(600), [100]) == Some(Table[1])
  {
    TableAscending();
    assert Table[0].threshold == 100;
    assert Unlock(Int(600), []) == Some(Table[0]) by {
      assert AtLeast(Int(600), Table[0].threshold);
    }
    assert AtLeast(Int(600), Table[1].threshold) && Table[1].threshold !in [100];
  }

  /** `dailyStats[day] || 0`. */
  function DayCount(daily: map<int, int>, day: int): (r: int)
    ensures day in daily ==> r == daily[day]
    ensures day !in daily ==> r == 0
  {
    if day in daily then daily[day] else 0
  }

  // ---------------------------------------------------------------------
  // Category breakdown

  /** `parseInt(localStorage.getItem(COUNT_PREFIX + id) || '0')`; the
      default text "0" reads as 0 (`ParseZero`). */
  function ReadCount(store: map<string, string>, id: int): (r: Num)
    ensures Keys.CountKey(id) !in store ==> r == Int(0)
  {
    var k := Keys.CountKey(id);
    if k in store && store[k] != "" then ParseInt(store[k]) else Int(0)
  }

  /** The breakdown reads back exactly what the counter hook persisted. */
  lemma ReadsCounterRecord(store: map<string, string>, id: int, count: Num)
    requires id != 0
    ensures ReadCount(Counter.Persist(store, Some(id), count), id) == count
  {
    ParseShowNum(count);
  }

  /** The `reduce` over a category's items: NaN as soon as one record is
      not a number. */
  function CategoryTotal(items: seq<Item>, store: map<string, string>): Num {
    if items == [] then Int(0)
    else Add(ReadCount(store, items[0].id), CategoryTotal(items[1..], store))
  }

  /** Items none of whose records is stored total zero. */
  lemma {:induction false} TotalOfUnstored(items: seq<Item>, store: map<string, string>)
    requires forall it :: it in items ==> Keys.CountKey(it.id) !in store
    ensures CategoryTotal(items, store) == Int(0)
  {
    if items != [] {
      assert forall it :: it in items[1..] ==> it in items;
      TotalOfUnstored(items[1..], store);
    }
  }

  /** After the category's records are deleted (a category reset), its total
      is zero. */
  lemma TotalAfterReset(items: seq<Item>, store: map<string, string>)
    ensures CategoryTotal(items, store - Sequencer.CountKeys(items)) == Int(0)
  {
    TotalOfUnstored(items, store - Sequencer.CountKeys(items));
  }

  datatype Entry = Entry(category: string, total: int)

  function BreakdownOf(keys: seq<string>, lists: map<string, seq<Item>>, store: map<string, string>): (r: seq<Entry>)
    ensures forall e :: e in r <==> e.category in keys && CategoryTotal(Lookup(lists, e.category), store) == Int(e.total) && e.total > 0
    ensures |r| <= |keys|
  {
    if keys == [] then []
    else
      var t := CategoryTotal(Lookup(lists, keys[0]), store);
      var rest := BreakdownOf(keys[1..], lists, store);
      if t.Int? && t.n > 0 then [Entry(keys[0], t.n)] + rest else rest
  }

  /** `categoryBreakdown`: the categories of the stored catalog, in key
      order, each with the sum of its items' stored counts; totals that
      are zero, negative or NaN are left out, and a missing or unreadable
      catalog gives no entries. */
  function Breakdown(saved: Stored<Catalog>, store: map<string, string>): (r: seq<Entry>)
    ensures !saved.Parsed? ==> r == []
    ensures saved.Parsed? ==> forall e :: e in r <==>
      e.category in saved.value.keys && CategoryTotal(Get(saved.value, e.category), store) == Int(e.total) && e.total > 0
  {
    if saved.Parsed? then BreakdownOf(saved.value.keys, saved.value.lists, store) else []
  }

  /** A category just reset has no breakdown entry. */
  lemma ResetCategoryLeavesBreakdown(c: Catalog, cat: string, store: map<string, string>)
    ensures forall e :: e in Breakdown(Parsed(c), store - Sequencer.CountKeys(Get(c, cat))) ==> e.category != cat
  {
    TotalAfterReset(Get(c, cat), store);
  }

  // ---------------------------------------------------------------------
  // The hook's state

  /** `parseInt(getItem(LIFETIME_COUNT) || '0')`, the default reading as 0. */
  function LoadLifetime(store: map<string, string>): (r: Num)
    ensures Keys.LifetimeCount !in store ==> r == Int(0)
  {
    if Keys.LifetimeCount in store && store[Keys.LifetimeCount] != "" then ParseInt(store[Keys.LifetimeCount]) else Int(0)
  }

  /** The lifetime record is written as `String(lifetimeCount)`, which a
      later mount reads back exactly, NaN included. */
  lemma ReloadRestoresLifetime(store: map<string, string>, x: Num)
    ensures LoadLifetime(store[Keys.LifetimeCount := ShowNum(x)]) == x
  {
    ParseShowNum(x);
    if x.Int? {
      assert |ShowInt(x.n)| > 0 by { ShowIntNonEmpty(x.n); }
    }
  }

  lemma ShowIntNonEmpty(n: int)
    ensures ShowInt(n) != ""
  {
    assert |DecimalString(if n < 0 then -n else n)| >= 1;
  }

  /** Everything the hook keeps: the lifetime total, the thresholds
      recorded, the per-day totals, the streak and the pending toast.
      `store` holds localStorage's text records, where the lifetime total
      is written; the three JSON records are kept decoded in the `saved`
      fields. The persistence effects rewrite all four after every change. */
  class StatsState {
    var lifetime: Num
    var reached: seq<int>
    var daily: map<int, int>
    var streak: StreakRecord
    var toast: Option<Milestone>
    var store: map<string, string>
    var savedReached: seq<int>
    var savedDaily: map<int, int>
    var savedStreak: StreakRecord

    /** The records hold what the hook holds. */
    ghost predicate Valid()
      reads this
    {
      Keys.LifetimeCount in store && store[Keys.LifetimeCount] == ShowNum(lifetime) &&
      savedReached == reached && savedDaily == daily && savedStreak == streak
    }

    /** Mount: each record from storage, with the defaults 0, [], {} and
        `{ current: 0, best: 0, lastDate: '' }` for missing or unreadable
        records; the effects then write the four records back. */
    constructor (store: map<string, string>, savedReached: Stored<seq<int>>, savedDaily: Stored<map<int, int>>, savedStreak: Stored<StreakRecord>)
      ensures Valid()
      ensures lifetime == LoadLifetime(store)
      ensures reached == LoadOr(savedReached, [])
      ensures daily == LoadOr(savedDaily, map[])
      ensures streak == LoadOr(savedStreak, DefaultStreak)
      ensures toast == None
      ensures this.store == store[Keys.LifetimeCount := ShowNum(lifetime)]
    {
      lifetime := LoadLifetime(store);
      reached := LoadOr(savedReached, []);
      daily := LoadOr(savedDaily, map[]);
      streak := LoadOr(savedStreak, DefaultStreak);
      toast := None;
      this.store := store[Keys.LifetimeCount := ShowNum(LoadLifetime(store))];
      this.savedReached := LoadOr(savedReached, []);
      this.savedDaily := LoadOr(savedDaily, map[]);
      this.savedStreak := LoadOr(savedStreak, DefaultStreak);
    }

    /** `recordCount(amount)` on day `today`: the total grows by the
        amount, at most one new threshold is recorded and toasted (an older
        toast stays when none is), only today's bucket moves and the streak
        folds today in; all four records are rewritten. */
    method RecordCount(amount: int, today: int)
      modifies this
      ensures Valid()
      ensures lifetime == Plus(old(lifetime), amount)
      ensures reached == ReachedAfter(lifetime, old(reached))
      ensures toast == ToastAfter(lifetime, old(reached), old(toast))
      ensures daily == AddToDay(old(daily), today, amount)
      ensures streak == NextStreak(old(streak), today)
      ensures store == old(store)[Keys.LifetimeCount := ShowNum(lifetime)]
    {
      AddToLifetime(amount);
      daily := AddToDay(daily, today, amount);
      streak := NextStreak(streak, today);
      savedDaily, savedStreak := daily, streak;
    }

    /** The `setLifetimeCount` updater with its milestone check, and the
        writes of the lifetime and milestone records. */
    method AddToLifetime(amount: int)
      modifies this
      ensures lifetime == Plus(old(lifetime), amount)
      ensures reached == ReachedAfter(lifetime, old(reached))
      ensures toast == ToastAfter(lifetime, old(reached), old(toast))
      ensures daily == old(daily) && streak == old(streak)
      ensures store == old(store)[Keys.LifetimeCount := ShowNum(lifetime)]
      ensures savedReached == reached
      ensures savedDaily == old(savedDaily) && savedStreak == old(savedStreak)
    {
      var newTotal := Plus(lifetime, amount);
      reached, toast := ReachedAfter(newTotal, reached), ToastAfter(newTotal, reached, toast);
      lifetime := newTotal;
      store := store[Keys.LifetimeCount := ShowNum(lifetime)];
      savedReached := reached;
    }

    /** `todayCount`. */
    function TodayCount(today: int): (r: int)
      reads this
      ensures today in daily ==> r == daily[today]
      ensures today !in daily ==> r == 0
    {
      DayCount(daily, today)
    }

    /** `dismissMilestoneToast` (also the delayed clear); the toast is not
        persisted, so no record changes. */
    method DismissMilestoneToast()
      requires Valid()
      modifies this
      ensures Valid()
      ensures toast == None
      ensures lifetime == old(lifetime) && reached == old(reached) && daily == old(daily) && streak == old(streak)
      ensures store == old(store)
    {
      toast := None;
    }
  }

  /** `{ ...prev, [today]: (prev[today] || 0) + amount }`: only today's
      bucket moves, by exactly the amount, and it exists afterwards. */
  function AddToDay(daily: map<int, int>, today: int, amount: int): (r: map<int, int>)
    ensures today in r && DayCount(r, today) == DayCount(daily, today) + amount
    ensures forall d :: d != today ==> (d in r <==> d in daily) && DayCount(r, d) == DayCount(daily, d)
  {
    daily[today := DayCount(daily, today) + amount]
  }
}
