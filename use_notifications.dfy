/** Which prayer reminders get scheduled, and when: one fixed notification
    per prayer, five minutes after the prayer time, for enabled prayers
    whose reminder still lies in the future. */
module Notifications {
  import opened JsValues

  /** A prayer's fixed notification: its id and the adhkar category it
      opens (titles and bodies are display text and not modelled). */
  datatype Notice = Notice(prayer: string, id: int, category: string)

  const Notices: seq<Notice> := [
    Notice("fajr", 1, "morning"),
    Notice("dhuhr", 2, "after-prayer"),
    Notice("asr", 3, "evening"),
    Notice("maghrib", 4, "evening"),
    Notice("isha", 5, "after-prayer")
  ]

  /** Five minutes, in milliseconds. */
  const Delay := 5 * 60 * 1000

  /** One entry handed to the scheduler: the id, the time (epoch
      milliseconds) and the category carried along. */
  datatype Entry = Entry(id: int, at: int, category: string)

  /** `settings.notifications?.[prayer] !== false`: a prayer counts as
      enabled unless it is explicitly switched off, and when there is no
      preference at all. */
  predicate Enabled(prefs: Option<map<string, bool>>, prayer: string) {
    !(prefs.Some? && prayer in prefs.value && prefs.value[prayer] == false)
  }

  /** The prayer of `n` gets a reminder: enabled, with a time, and the time
      plus five minutes still ahead of `now`. */
  predicate Due(n: Notice, times: map<string, int>, prefs: Option<map<string, bool>>, now: int) {
    Enabled(prefs, n.prayer) && n.prayer in times && times[n.prayer] + Delay > now
  }

  function EntryFor(n: Notice, times: map<string, int>): Entry
    requires n.prayer in times
  {
    Entry(n.id, times[n.prayer] + Delay, n.category)
  }

  /** The entries for `ns`, in the table's order. */
  function Selected(ns: seq<Notice>, times: map<string, int>, prefs: Option<map<string, bool>>, now: int): (r: seq<Entry>)
    ensures |r| <= |ns|
    ensures forall e :: e in r <==> exists k :: 0 <= k < |ns| && Due(ns[k], times, prefs, now) && e == EntryFor(ns[k], times)
  {
    if ns == [] then []
    else
      var front := Selected(ns[..|ns| - 1], times, prefs, now);
      var last := ns[|ns| - 1];
      assert forall k :: 0 <= k < |ns| - 1 ==> ns[..|ns| - 1][k] == ns[k];
      if Due(last, times, prefs, now) then front + [EntryFor(last, times)] else front
  }

  /** The table's ids are 1 to 5, one per prayer. */
  lemma NoticeIds()
    ensures forall i :: 0 <= i < |Notices| ==> Notices[i].id == i + 1
    ensures forall i, j :: 0 <= i < j < |Notices| ==> Notices[i].prayer != Notices[j].prayer
  {
  }

  /** Every entry is for an enabled prayer, five minutes after its time and
      after `now`, and no two entries share an id. */
  lemma SelectedEntries(times: map<string, int>, prefs: Option<map<string, bool>>, now: int)
    ensures var r := Selected(Notices, times, prefs, now);
      (forall e :: e in r ==> (1 <= e.id <= 5 && e.at > now &&
        Enabled(prefs, Notices[e.id - 1].prayer) && Notices[e.id - 1].prayer in times &&
        e.at == times[Notices[e.id - 1].prayer] + Delay && e.category == Notices[e.id - 1].category)) &&
      IdsIncrease(r)
  {
    NoticeIds();
    SelectedIdsIncrease(Notices, times, prefs, now);
  }

  ghost predicate IdsIncrease(r: seq<Entry>) {
    forall i, j :: 0 <= i < j < |r| ==> r[i].id < r[j].id
  }

  /** Entries follow the table order, so with increasing ids they have
      increasing ids. */
  lemma {:induction false} SelectedIdsIncrease(ns: seq<Notice>, times: map<string, int>, prefs: Option<map<string, bool>>, now: int)
    requires forall i, j :: 0 <= i < j < |ns| ==> ns[i].id < ns[j].id
    ensures IdsIncrease(Selected(ns, times, prefs, now))
    decreases |ns|
  {
    if ns != [] {
      var init := ns[..|ns| - 1];
      var last := ns[|ns| - 1];
      assert forall i :: 0 <= i < |init| ==> init[i] == ns[i];
      SelectedIdsIncrease(init, times, prefs, now);
      var front := Selected(init, times, prefs, now);
      if Due(last, times, prefs, now) {
        var r := front + [EntryFor(last, times)];
        forall i, j | 0 <= i < j < |r| ensures r[i].id < r[j].id {
          if j == |r| - 1 {
            assert r[i] == front[i] && r[i] in front;
            var k :| 0 <= k < |init| && Due(init[k], times, prefs, now) && r[i] == EntryFor(init[k], times);
            assert init[k] == ns[k] && r[j] == EntryFor(last, times);
            assert ns[k].id < ns[|ns| - 1].id;
          } else {
            assert r[i] == front[i] && r[j] == front[j];
          }
        }
        assert Selected(ns, times, prefs, now) == r;
      } else {
        assert Selected(ns, times, prefs, now) == front;
      }
    }
  }

  /** `toSchedule`, built as the `forEach` pushes it. */
  method BuildSchedule(times: map<string, int>, prefs: Option<map<string, bool>>, now: int) returns (toSchedule: seq<Entry>)
    ensures toSchedule == Selected(Notices, times, prefs, now)
  {
    toSchedule := [];
    var i := 0;
    while i < |Notices|
      invariant 0 <= i <= |Notices|
      invariant toSchedule == Selected(Notices[..i], times, prefs, now)
    {
      var n := Notices[i];
      assert Notices[..i + 1][..i] == Notices[..i];
      if Enabled(prefs, n.prayer) && n.prayer in times {
        var at := times[n.prayer] + Delay;
        if at > now {
          toSchedule := toSchedule + [Entry(n.id, at, n.category)];
        }
      }
      i := i + 1;
    }
    assert Notices[..|Notices|] == Notices;
  }

  /** What one run of `scheduleNotifications` asks of the notification
      plugin. */
  datatype Effects = Effects(requestedPermission: bool, cancelled: seq<int>, scheduled: Option<seq<Entry>>)

  const NoEffects := Effects(false, [], None)

  /** The ids cancelled before scheduling: all five. */
  function AllIds(): (ids: seq<int>)
    ensures ids == [1, 2, 3, 4, 5]
  {
    [Notices[0].id, Notices[1].id, Notices[2].id, Notices[3].id, Notices[4].id]
  }

  /** `scheduleNotifications`. Without a native platform, prayer times or
      settings nothing happens; without permission only the request is
      made; otherwise the five ids are cancelled and the entries scheduled,
      the schedule call being made only with at least one entry. */
  method ScheduleNotifications(native: bool, times: Option<map<string, int>>, settings: Option<Option<map<string, bool>>>,
                               granted: bool, now: int) returns (fx: Effects)
    ensures !native || times.None? || settings.None? ==> fx == NoEffects
    ensures native && times.Some? && settings.Some? && !granted ==> fx == Effects(true, [], None)
    ensures native && times.Some? && settings.Some? && granted ==>
      var list := Selected(Notices, times.value, settings.value, now);
      fx == Effects(true, AllIds(), if |list| > 0 then Some(list) else None)
  {
    if !native || times.None? || settings.None? {
      return NoEffects;
    }
    if !granted {
      return Effects(true, [], None);
    }
    var list := BuildSchedule(times.value, settings.value, now);
    fx := Effects(true, AllIds(), if |list| > 0 then Some(list) else None);
  }

  /** Every scheduled id was cancelled first, so a run never leaves an
      older reminder beside a new one with the same id. */
  lemma ScheduledWereCancelled(times: map<string, int>, prefs: Option<map<string, bool>>, now: int)
    ensures forall e :: e in Selected(Notices, times, prefs, now) ==> e.id in AllIds()
  {
    NoticeIds();
    forall e | e in Selected(Notices, times, prefs, now) ensures e.id in AllIds() {
      var k :| 0 <= k < |Notices| && Due(Notices[k], times, prefs, now) && e == EntryFor(Notices[k], times);
      assert e.id == k + 1;
    }
  }
}
