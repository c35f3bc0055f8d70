/** The category sequencer: which dhikr is active, whether the
    category-complete (Aameen) screen is up, and the handlers that move
    through a category and between categories. */
module Sequencer {
  import opened JsValues
  import opened JsArrays
  import opened Adhkar
  import Keys
  import Counter

  /** `{ ...item, category: cat }`. */
  function Tagged(it: Item, cat: string): (r: Item)
    ensures r.id == it.id && r.count == it.count && r.category == Some(cat)
  {
    it.(category := Some(cat))
  }

  /** `adhkarData[cat] || []` for the category recorded on the active item
      (an item without one finds no list). */
  function ItemsOf(data: Catalog, cat: Option<string>): (r: seq<Item>)
    ensures cat.None? ==> r == []
    ensures cat.Some? ==> r == Get(data, cat.value)
  {
    if cat.Some? then Get(data, cat.value) else []
  }

  /** The selection the init effect makes when nothing is stored: the first
      item of the first category, tagged with it, if there is one. */
  function FirstSelection(data: Catalog): (r: Option<Item>)
    ensures r.Some? <==> |data.keys| > 0 && |Get(data, data.keys[0])| > 0
    ensures r.Some? ==> r.value == Tagged(Get(data, data.keys[0])[0], data.keys[0])
  {
    if |data.keys| > 0 && |Get(data, data.keys[0])| > 0 then
      Some(Tagged(Get(data, data.keys[0])[0], data.keys[0]))
    else None
  }

  /** A fresh install selects item 101 of the morning adhkar. */
  lemma FreshInstallSelection()
    ensures FirstSelection(Initial).Some?
    ensures FirstSelection(Initial).value.id == 101
    ensures FirstSelection(Initial).value.category == Some("morning")
  {
    InitialShape();
  }

  /** The value the context exposes when nothing is selected: the first item
      of the first category's list, without a category of its own. */
  function Fallback(data: Catalog): (r: Option<Item>)
    ensures r.Some? <==> |data.keys| > 0 && |Get(data, data.keys[0])| > 0
    ensures r.Some? ==> r.value == Get(data, data.keys[0])[0]
  {
    if |data.keys| > 0 && |Get(data, data.keys[0])| > 0 then Some(Get(data, data.keys[0])[0]) else None
  }

  /** The two fields the handlers update. */
  datatype Selection = Selection(active: Option<Item>, aameen: bool)

  /** `handleDhikrComplete`: the next item of the category, or the Aameen
      screen when the active item is the last one or is not found there. */
  function Complete(data: Catalog, s: Selection): (r: Selection)
    ensures s.active.None? ==> r == s
    ensures r.aameen != s.aameen ==> r.aameen && r.active == s.active
    ensures s.active.Some? ==> r.active.Some?
  {
    if s.active.None? then s
    else
      var a := s.active.value;
      var items := ItemsOf(data, a.category);
      var idx := FindIndex(items, IdIs(a.id));
      if 0 <= idx < |items| - 1 then Selection(Some(Tagged(items[idx + 1], a.category.value)), s.aameen)
      else Selection(s.active, true)
  }

  ghost predicate DistinctIds(items: seq<Item>) {
    forall i, j :: 0 <= i < j < |items| ==> items[i].id != items[j].id
  }

  /** On the item at position `j` of its category, completing moves to
      position `j + 1` and leaves the Aameen flag alone; on the last item it
      raises the Aameen flag and keeps the selection. */
  lemma CompleteAdvances(data: Catalog, cat: string, j: nat, aameen: bool)
    requires DistinctIds(Get(data, cat)) && j < |Get(data, cat)|
    ensures var items := Get(data, cat);
      var r := Complete(data, Selection(Some(Tagged(items[j], cat)), aameen));
      (j + 1 < |items| ==> r == Selection(Some(Tagged(items[j + 1], cat)), aameen)) &&
      (j + 1 == |items| ==> r == Selection(Some(Tagged(items[j], cat)), true))
  {
    var items := Get(data, cat);
    var a := Tagged(items[j], cat);
    var idx := FindIndex(items, IdIs(a.id));
    assert IdIs(a.id)(items[j]);
    assert 0 <= idx <= j;
    assert items[idx].id == a.id;
  }

  /** An active item whose id is not in its category's list (it was deleted,
      or the item has no category) completes the category at once. */
  lemma CompleteWhenMissing(data: Catalog, s: Selection)
    requires s.active.Some?
    requires forall it :: it in ItemsOf(data, s.active.value.category) ==> it.id != s.active.value.id
    ensures Complete(data, s) == Selection(s.active, true)
  {
  }

  /** `n` completions in a row. */
  function CompleteTimes(data: Catalog, s: Selection, n: nat): Selection {
    if n == 0 then s else Complete(data, CompleteTimes(data, s, n - 1))
  }

  /** Starting on the first item of a category with distinct ids, `j`
      completions (for `j` below the list length) sit on item `j`, and the
      `n`-th completion of an `n`-item category shows Aameen on its last
      item: the category is walked in order, each item once. */
  lemma {:induction false} CompleteWalk(data: Catalog, cat: string, j: nat)
    requires DistinctIds(Get(data, cat)) && 0 < |Get(data, cat)| && j <= |Get(data, cat)|
    ensures var items := Get(data, cat);
      var r := CompleteTimes(data, Selection(Some(Tagged(items[0], cat)), false), j);
      (j < |items| ==> r == Selection(Some(Tagged(items[j], cat)), false)) &&
      (j == |items| ==> r == Selection(Some(Tagged(items[j - 1], cat)), true))
  {
    if j > 0 {
      var items := Get(data, cat);
      var start := Selection(Some(Tagged(items[0], cat)), false);
      CompleteWalk(data, cat, j - 1);
      var prev := CompleteTimes(data, start, j - 1);
      assert CompleteTimes(data, start, j) == Complete(data, prev);
      WalkStep(data, cat, j, prev);
    }
  }

  lemma WalkStep(data: Catalog, cat: string, j: nat, prev: Selection)
    requires DistinctIds(Get(data, cat)) && 0 < j <= |Get(data, cat)|
    requires prev == Selection(Some(Tagged(Get(data, cat)[j - 1], cat)), false)
    ensures var items := Get(data, cat); var r := Complete(data, prev);
      (j < |items| ==> r == Selection(Some(Tagged(items[j], cat)), false)) &&
      (j == |items| ==> r == Selection(Some(Tagged(items[j - 1], cat)), true))
  {
    CompleteAdvances(data, cat, j - 1, false);
  }

  /** The position after `p` in a cycle of length `n`. */
  function Succ(p: nat, n: nat): (r: nat)
    requires p < n
    ensures r < n
  {
    if p + 1 < n then p + 1 else 0
  }

  /** `cats[(cats.indexOf(cat) + 1) % cats.length]`: the category after
      the active one, cyclically; an unknown category has index -1 and so
      leads to the first one; with no categories the index is NaN and there
      is none. */
  function NextCategory<K(==)>(keys: seq<K>, cat: Option<K>): (r: Option<K>)
    ensures r.Some? <==> |keys| > 0
    ensures r.Some? ==> r.value in keys
    ensures |keys| > 0 && (cat.None? || cat.value !in keys) ==> r == Some(keys[0])
    ensures cat.Some? && cat.value in keys ==> r == Some(keys[Succ(IndexOf(keys, cat.value), |keys|)])
  {
    if |keys| == 0 then None
    else
      var idx := if cat.Some? then IndexOf(keys, cat.value) else -1;
      RemOfSmall(idx + 1, |keys|);
      Some(keys[JsRem(idx + 1, |keys|)])
  }

  lemma RemOfSmall(a: int, n: int)
    requires 0 <= a <= n && n > 0
    ensures JsRem(a, n) == if a < n then a else 0
  {
    if a < n {
      DivMod(a, n, 0, a);
    } else {
      DivMod(a, n, 1, 0);
    }
  }

  function NextCategoryTimes<K(==)>(keys: seq<K>, cat: Option<K>, m: nat): Option<K> {
    if m == 0 then cat else NextCategory(keys, NextCategoryTimes(keys, cat, m - 1))
  }

  ghost predicate Distinct<K>(xs: seq<K>) {
    forall i, j :: 0 <= i < j < |xs| ==> xs[i] != xs[j]
  }

  /** From the `p`-th of distinct categories the next one is the
      cyclically following one. */
  lemma NextFrom<K>(keys: seq<K>, p: nat)
    requires Distinct(keys) && p < |keys|
    ensures NextCategory(keys, Some(keys[p])) == Some(keys[Succ(p, |keys|)])
  {
    var k := IndexOf(keys, keys[p]);
    assert 0 <= k && keys[k] == keys[p];
  }

  function SuccTimes(i: nat, m: nat, n: nat): (r: nat)
    requires i < n
    ensures r < n
  {
    if m == 0 then i else Succ(SuccTimes(i, m - 1, n), n)
  }

  lemma NextTimesStep<K>(keys: seq<K>, cat: Option<K>, m: nat)
    requires m > 0
    ensures NextCategoryTimes(keys, cat, m) == NextCategory(keys, NextCategoryTimes(keys, cat, m - 1))
  {
  }

  lemma {:induction false} NextCategoryWalk<K>(keys: seq<K>, i: nat, m: nat)
    requires Distinct(keys) && i < |keys|
    ensures NextCategoryTimes(keys, Some(keys[i]), m) == Some(keys[SuccTimes(i, m, |keys|)])
  {
    if m == 0 {
      assert NextCategoryTimes(keys, Some(keys[i]), 0) == Some(keys[i]);
    } else {
      var p := SuccTimes(i, m - 1, |keys|);
      var c := NextCategoryTimes(keys, Some(keys[i]), m - 1);
      NextCategoryWalk(keys, i, m - 1);
      assert c == Some(keys[p]);
      NextFrom(keys, p);
      NextTimesStep(keys, Some(keys[i]), m);
      assert NextCategoryTimes(keys, Some(keys[i]), m) == NextCategory(keys, c);
    }
  }

  lemma {:induction false} SuccTimesIsMod(i: nat, m: nat, n: nat)
    requires i < n
    ensures SuccTimes(i, m, n) == (i + m) % n
  {
    if m == 0 {
      DivMod(i, n, 0, i);
    } else {
      SuccTimesIsMod(i, m - 1, n);
      ModSucc(i + m - 1, n);
    }
  }

  /** Moving on `m` times from the `i`-th of `n` distinct categories lands
      on category `(i + m) mod n`, and `n` moves come back to the start:
      the categories are visited cyclically in key order. */
  lemma NextCategoryCycles(keys: seq<string>, i: nat, m: nat)
    requires DistinctKeys(keys) && i < |keys|
    ensures NextCategoryTimes(keys, Some(keys[i]), m) == Some(keys[(i + m) % |keys|])
    ensures NextCategoryTimes(keys, Some(keys[i]), |keys|) == Some(keys[i])
  {
    assert Distinct(keys);
    NextCategoryWalk(keys, i, m);
    SuccTimesIsMod(i, m, |keys|);
    NextCategoryWalk(keys, i, |keys|);
    SuccTimesIsMod(i, |keys|, |keys|);
    DivMod(i + |keys|, |keys|, 1, i);
  }

  lemma ModSucc(a: nat, n: nat)
    requires n > 0
    ensures Succ(a % n, n) == (a + 1) % n
  {
    var q, r := a / n, a % n;
    assert a == n * q + r;
    if r + 1 < n {
      DivMod(a + 1, n, q, r + 1);
    } else {
      assert a + 1 == n * (q + 1) + 0;
      DivMod(a + 1, n, q + 1, 0);
    }
  }

  /** `handleNextDhikr`: the first item of the next category when it has
      one (the selection stays otherwise); Aameen is cleared either way. */
  function Next(data: Catalog, s: Selection): (r: Selection)
    ensures s.active.None? ==> r == s
    ensures s.active.Some? ==> !r.aameen
    ensures s.active.Some? ==> var c := NextCategory(data.keys, s.active.value.category);
      (c.Some? && |Get(data, c.value)| > 0 ==> r.active == Some(Tagged(Get(data, c.value)[0], c.value))) &&
      (c.None? || |Get(data, c.value)| == 0 ==> r.active == s.active)
  {
    if s.active.None? then s
    else
      var c := NextCategory(data.keys, s.active.value.category);
      var items := if c.Some? then Get(data, c.value) else [];
      if |items| > 0 then Selection(Some(Tagged(items[0], c.value)), false)
      else Selection(s.active, false)
  }

  /** `handleResetCategory` on the selection: back to the first item, Aameen
      cleared; nothing changes without a selection or for an empty list. */
  function ResetSelection(data: Catalog, s: Selection): (r: Selection)
    ensures s.active.None? || ItemsOf(data, s.active.value.category) == [] ==> r == s
    ensures s.active.Some? && ItemsOf(data, s.active.value.category) != [] ==>
      r == Selection(Some(Tagged(ItemsOf(data, s.active.value.category)[0], s.active.value.category.value)), false)
  {
    if s.active.None? then s
    else
      var items := ItemsOf(data, s.active.value.category);
      if |items| > 0 then Selection(Some(Tagged(items[0], s.active.value.category.value)), false) else s
  }

  /** The counter records of a list of items. */
  function CountKeys(items: seq<Item>): (ks: set<string>)
    ensures forall it :: it in items ==> Keys.CountKey(it.id) in ks
    ensures forall k :: k in ks ==> exists it :: it in items && k == Keys.CountKey(it.id)
  {
    set it | it in items :: Keys.CountKey(it.id)
  }

  lemma CountKeysSnoc(items: seq<Item>, i: int)
    requires 0 <= i < |items|
    ensures CountKeys(items[..i + 1]) == CountKeys(items[..i]) + {Keys.CountKey(items[i].id)}
  {
    assert items[..i + 1] == items[..i] + [items[i]];
  }

  lemma MinusStep(m: map<string, string>, done: set<string>, k: string)
    ensures (m - done) - {k} == m - (done + {k})
  {
  }

  /** The `forEach` over a category's items: each item's count record is
      removed from storage, one at a time. */
  method DeleteCounts(store: map<string, string>, items: seq<Item>) returns (st: map<string, string>)
    ensures st == store - CountKeys(items)
  {
    st := store;
    var i := 0;
    while i < |items|
      invariant 0 <= i <= |items|
      invariant st == store - CountKeys(items[..i])
    {
      CountKeysSnoc(items, i);
      MinusStep(store, CountKeys(items[..i]), Keys.CountKey(items[i].id));
      st := st - {Keys.CountKey(items[i].id)};
      i := i + 1;
    }
    assert items[..|items|] == items;
  }

  /** The records `handleResetCategory` deletes. */
  function ResetKeys(data: Catalog, active: Option<Item>): set<string> {
    if active.None? then {} else CountKeys(ItemsOf(data, active.value.category))
  }

  /** A reset never deletes one of the app's fixed records. */
  lemma ResetSparesFixedKeys(data: Catalog, active: Option<Item>)
    ensures forall i :: 0 <= i < |Keys.FixedKeys| ==> Keys.FixedKeys[i] !in ResetKeys(data, active)
  {
    forall i | 0 <= i < |Keys.FixedKeys| ensures Keys.FixedKeys[i] !in ResetKeys(data, active) {
      if Keys.FixedKeys[i] in ResetKeys(data, active) {
        var it :| it in ItemsOf(data, active.value.category) && Keys.FixedKeys[i] == Keys.CountKey(it.id);
        Keys.NoFixedKeyIsCountKey(it.id);
      }
    }
  }

  /** After a reset, the counter of any item of the category starts again
      from its initial count on its next mount (an item with the falsy id 0
      never reads storage at all). */
  lemma ResetRestartsCounters(store: map<string, string>, items: seq<Item>, it: Item, initialCount: int)
    requires it in items
    ensures Counter.InitialCount(Some(it.id), initialCount, store - CountKeys(items)) == Int(initialCount)
  {
  }

  /** The selection the provider starts with: the stored one, or the
      first selection when the record is missing or null. */
  function MountSelection(data: Catalog, saved: Option<Item>): (r: Option<Item>)
    ensures saved.Some? ==> r == saved
    ensures saved.None? ==> r == FirstSelection(data)
  {
    if saved.Some? then saved else FirstSelection(data)
  }

  /** The selection record survives a reload: mounting again from what was
      written gives the same selection, and a catalog with nothing to select
      gives none again. */
  lemma ReloadRestoresSelection(data: Catalog, active: Option<Item>)
    requires active.None? ==> FirstSelection(data).None?
    ensures MountSelection(data, active) == active
  {
  }

  /** The provider's state. `store` holds localStorage's text records (the
      counters); the JSON record `tasbih_last_active_dhikr` is kept decoded
      in `savedSelection`, which the storage hook rewrites after every
      change of the selection. */
  class Sequencer {
    var data: Catalog
    var active: Option<Item>
    var aameen: bool
    var store: map<string, string>
    var savedSelection: Option<Item>

    /** The selection record holds the selection, and there is no
        selection only when the catalog has nothing to select. */
    ghost predicate Valid()
      reads this
    {
      Adhkar.Valid(data) && savedSelection == active &&
      (active.None? ==> FirstSelection(data).None?)
    }

    function Current(): Selection
      reads this
    {
      Selection(active, aameen)
    }

    /** Mount: the stored selection, or the first item of the first
        category when nothing is stored; the storage hook then writes the
        selection back. */
    constructor (data: Catalog, saved: Option<Item>, store: map<string, string>)
      requires Adhkar.Valid(data)
      ensures Valid()
      ensures this.data == data && this.store == store && !aameen
      ensures active == MountSelection(data, saved)
    {
      this.data := data;
      this.store := store;
      aameen := false;
      active := MountSelection(data, saved);
      savedSelection := MountSelection(data, saved);
    }

    /** `selectDhikr`. */
    method SelectDhikr(d: Item)
      requires Valid()
      modifies this
      ensures Valid()
      ensures data == old(data) && store == old(store)
      ensures active == Some(d) && !aameen
      ensures savedSelection == Some(d)
    {
      active := Some(d);
      aameen := false;
      savedSelection := active;
    }

    /** `selectCategory`: the first item of a non-empty category, tagged
        with it; an empty or missing category changes nothing. */
    method SelectCategory(cat: string)
      requires Valid()
      modifies this
      ensures Valid()
      ensures data == old(data) && store == old(store)
      ensures |Get(data, cat)| > 0 ==> active == Some(Tagged(Get(data, cat)[0], cat)) && !aameen
      ensures |Get(data, cat)| == 0 ==> active == old(active) && aameen == old(aameen)
      ensures savedSelection == active
    {
      var items := Get(data, cat);
      if |items| > 0 {
        active := Some(Tagged(items[0], cat));
        aameen := false;
        savedSelection := active;
      }
    }

    /** `handleDhikrComplete`; no counter is touched, and an advance is
        written to the selection record. */
    method HandleDhikrComplete()
      requires Valid()
      modifies this
      ensures Valid()
      ensures data == old(data) && store == old(store)
      ensures Current() == Complete(data, old(Current()))
      ensures savedSelection == active
    {
      var s := Complete(data, Selection(active, aameen));
      active, aameen := s.active, s.aameen;
      savedSelection := active;
    }

    /** `handleResetCategory`: deletes the counter record of every item of
        the active category, one by one, then restarts the category and
        writes the restarted selection to its record. */
    method HandleResetCategory()
      requires Valid()
      modifies this
      ensures Valid()
      ensures data == old(data)
      ensures Current() == ResetSelection(data, old(Current()))
      ensures store == old(store) - ResetKeys(data, old(active))
      ensures savedSelection == active
    {
      if active.None? {
        return;
      }
      var cat := active.value.category;
      var items := ItemsOf(data, cat);
      if |items| > 0 {
        store := DeleteCounts(store, items);
        active := Some(Tagged(items[0], cat.value));
        aameen := false;
        savedSelection := active;
      }
    }

    /** `handleNextDhikr`; the counters are untouched, and the new
        selection is written to its record. */
    method HandleNextDhikr()
      requires Valid()
      modifies this
      ensures Valid()
      ensures data == old(data) && store == old(store)
      ensures Current() == Next(data, old(Current()))
      ensures savedSelection == active
    {
      var s := Next(data, Selection(active, aameen));
      active, aameen := s.active, s.aameen;
      savedSelection := active;
    }

    /** `safeActiveDhikr`: the selection, or the untagged first item. */
    function SafeActiveDhikr(): (r: Option<Item>)
      reads this
      ensures active.Some? ==> r == active
      ensures active.None? ==> r == Fallback(data)
    {
      if active.Some? then active else Fallback(data)
    }
  }
}
