/** The catalog editor's handlers: save (add or edit), rename category,
    delete category, delete item and move item. Each takes the catalog before
    the update and gives the catalog after it. */
module CatalogEdits {
  import opened JsValues
  import opened JsStrings
  import opened JsArrays
  import opened Adhkar

  /** The editor form. `count` is the text of the count field (a number
      placed in the form is read through `parseInt` the same way). */
  datatype Draft = Draft(text: string, translation: string, count: string, category: string)

  /** Which category a save goes to: the typed name for "custom", trimmed and
      lower-cased, or "general" when nothing usable was typed. */
  function ResolveCategory(choice: string, customInput: string): (r: string)
    ensures choice != "custom" ==> r == choice
    ensures choice == "custom" && IsBlank(customInput) ==> r == "general"
    ensures choice == "custom" && !IsBlank(customInput) ==> r == ToLower(Trim(customInput))
    ensures choice == "custom" ==> r != [] && ToLower(r) == r
  {
    if choice == "custom" && !IsBlank(customInput) then
      ToLowerIdempotent(Trim(customInput));
      ToLower(Trim(customInput))
    else if choice == "custom" then "general"
    else choice
  }

  /** `parseInt(count) || 33`: NaN and 0 both give the default target. */
  function ParsedCount(count: string): (r: int)
    ensures r != 0
    ensures ParseInt(count).NaN? ==> r == 33
    ensures ParseInt(count).Int? && ParseInt(count).n != 0 ==> r == ParseInt(count).n
    ensures ParseInt(count) == Int(0) ==> r == 33
  {
    var v := ParseInt(count);
    if v.NaN? || v.n == 0 then 33 else v.n
  }

  /** A non-zero count written back into the form is read back unchanged. */
  lemma ParsedCountRoundTrip(n: int)
    requires n != 0
    ensures ParsedCount(ShowInt(n)) == n
  {
    ParseShowNum(Int(n));
  }

  /** The item a save stores. */
  function SavedItem(id: int, d: Draft, category: string): (it: Item)
    ensures it.id == id && it.text == d.text && it.translation == d.translation
    ensures it.count == ParsedCount(d.count) && it.category == Some(category)
  {
    Item(id, d.text, d.translation, ParsedCount(d.count), Some(category))
  }

  // ---------------------------------------------------------------------
  // Add

  /** `{ ...prev, [cat]: [item, ...(prev[cat] || [])] }`. */
  function AddItem(c: Catalog, category: string, item: Item): (r: Catalog)
    requires Valid(c)
    ensures Valid(r)
    ensures Get(r, category) == [item] + Get(c, category)
    ensures forall k :: k != category ==> (k in r.lists <==> k in c.lists) && Get(r, k) == Get(c, k)
    ensures category in c.lists ==> r.keys == c.keys
    ensures category !in c.lists ==> r.keys == c.keys + [category]
  {
    Put(c, category, [item] + Get(c, category))
  }

  /** Adding puts one more copy of the new id in the catalog and leaves every
      other id's count alone; so ids stay unique exactly when the new id
      was unused. */
  lemma AddOccurrences(c: Catalog, category: string, item: Item)
    requires Valid(c)
    ensures forall x :: Occurrences(AddItem(c, category, item), x) == Occurrences(c, x) + (if x == item.id then 1 else 0)
    ensures UniqueIds(c) ==> (UniqueIds(AddItem(c, category, item)) <==> Occurrences(c, item.id) == 0)
  {
    var r := AddItem(c, category, item);
    forall x ensures Occurrences(r, x) == Occurrences(c, x) + (if x == item.id then 1 else 0) {
      OccurrencesPut(c, category, [item] + Get(c, category), x);
      assert ([item] + Get(c, category))[1..] == Get(c, category);
    }
  }

  // ---------------------------------------------------------------------
  // Edit

  /** `items.splice(items.findIndex(it => it.id === id), 1)` when found. */
  function RemoveFirst(items: seq<Item>, id: int): (r: seq<Item>)
    ensures CountId(items, id) > 0 ==> CountId(r, id) == CountId(items, id) - 1
    ensures CountId(items, id) > 0 ==>
      var i := FindIndex(items, IdIs(id));
      0 <= i && items[i].id == id && (forall j :: 0 <= j < i ==> items[j].id != id) &&
      r == items[..i] + items[i + 1..]
    ensures CountId(items, id) == 0 ==> r == items
    ensures forall x :: x != id ==> CountId(r, x) == CountId(items, x)
  {
    var i := FindIndex(items, IdIs(id));
    if i < 0 then items
    else
      assert items == items[..i] + [items[i]] + items[i + 1..];
      assert items[..i] + [items[i]] == items[..i + 1];
      CountIdAppend(items[..i + 1], items[i + 1..], id);
      CountIdAppend(items[..i], [items[i]], id);
      CountIdAppend(items[..i], items[i + 1..], id);
      forall x | x != id ensures CountId(items[..i] + items[i + 1..], x) == CountId(items, x) {
        CountIdAppend(items[..i + 1], items[i + 1..], x);
        CountIdAppend(items[..i], [items[i]], x);
        CountIdAppend(items[..i], items[i + 1..], x);
      }
      items[..i] + items[i + 1..]
  }

  /** The catalog with the first item carrying `id` taken out of every
      category. */
  function Stripped(c: Catalog, id: int): (r: Catalog)
    requires Valid(c)
    ensures Valid(r) && r.keys == c.keys && r.lists.Keys == c.lists.Keys
    ensures forall k :: k in c.lists ==> r.lists[k] == RemoveFirst(c.lists[k], id)
  {
    Catalog(c.keys, map k | k in c.lists :: RemoveFirst(c.lists[k], id))
  }

  /** The catalog after editing item `item.id` into `category`. */
  function Edited(c: Catalog, category: string, item: Item): (r: Catalog)
    requires Valid(c)
    ensures Valid(r)
    ensures Get(r, category) == [item] + RemoveFirst(Get(c, category), item.id)
    ensures forall k :: k != category ==> (k in r.lists <==> k in c.lists) && Get(r, k) == RemoveFirst(Get(c, k), item.id)
    ensures r.keys == if category in c.lists then c.keys else c.keys + [category]
  {
    var s := Stripped(c, item.id);
    Put(s, category, [item] + Get(s, category))
  }

  /** After the first `i` categories: those lists have lost their first
      item with the id, the others are untouched. */
  ghost predicate StrippedBelow(c: Catalog, lists: map<string, seq<Item>>, id: int, i: int) {
    lists.Keys == c.lists.Keys &&
    forall j :: 0 <= j < |c.keys| ==>
      (c.keys[j] in c.lists &&
       lists[c.keys[j]] == (if j < i then RemoveFirst(c.lists[c.keys[j]], id) else c.lists[c.keys[j]]))
  }

  lemma StripStep(c: Catalog, lists: map<string, seq<Item>>, id: int, i: int)
    requires Valid(c) && 0 <= i < |c.keys| && StrippedBelow(c, lists, id, i)
    ensures StrippedBelow(c, lists[c.keys[i] := RemoveFirst(lists[c.keys[i]], id)], id, i + 1)
  {
    var k := c.keys[i];
    var next := lists[k := RemoveFirst(lists[k], id)];
    forall j | 0 <= j < |c.keys|
      ensures next[c.keys[j]] == (if j < i + 1 then RemoveFirst(c.lists[c.keys[j]], id) else c.lists[c.keys[j]])
    {
      if j != i { assert c.keys[j] != k; }
    }
  }

  lemma StrippedAll(c: Catalog, lists: map<string, seq<Item>>, id: int)
    requires Valid(c) && StrippedBelow(c, lists, id, |c.keys|)
    ensures Catalog(c.keys, lists) == Stripped(c, id)
  {
    forall k | k in c.lists ensures lists[k] == RemoveFirst(c.lists[k], id) {
      var j :| 0 <= j < |c.keys| && c.keys[j] == k;
    }
  }

  /** The `forEach` over the categories: each list loses, in place, its
      first item with the id. */
  method StripAll(c: Catalog, id: int) returns (s: Catalog)
    requires Valid(c)
    ensures s == Stripped(c, id)
  {
    var lists := c.lists;
    var i := 0;
    while i < |c.keys|
      invariant 0 <= i <= |c.keys|
      invariant StrippedBelow(c, lists, id, i)
    {
      var k := c.keys[i];
      var items := lists[k];
      StripStep(c, lists, id, i);
      var idx := FindIndex(items, IdIs(id));
      if idx != -1 {
        lists := lists[k := items[..idx] + items[idx + 1..]];
      } else {
        assert lists == lists[k := RemoveFirst(items, id)];
      }
      i := i + 1;
    }
    StrippedAll(c, lists, id);
    s := Catalog(c.keys, lists);
  }

  /** The edit branch: every category's list loses its first item with the
      edited id (in place, category by category), then the updated item is
      put first in the target list, which is created when missing. */
  method EditItem(c: Catalog, category: string, item: Item) returns (r: Catalog)
    requires Valid(c)
    ensures r == Edited(c, category, item)
  {
    var s := StripAll(c, item.id);
    var target := if category in s.lists then s.lists[category] else [];
    r := Put(s, category, [item] + target);
  }

  lemma {:induction false} StrippedOccurrencesIn(keys: seq<string>, before: map<string, seq<Item>>, after: map<string, seq<Item>>, id: int, x: int)
    requires after.Keys == before.Keys
    requires forall k :: k in before ==> after[k] == RemoveFirst(before[k], id)
    requires forall k :: k in keys ==> CountId(Lookup(before, k), id) <= 1
    ensures x != id ==> OccurrencesIn(keys, after, x) == OccurrencesIn(keys, before, x)
    ensures x == id ==> OccurrencesIn(keys, after, x) == 0
  {
    if keys != [] {
      StrippedOccurrencesIn(keys[1..], before, after, id, x);
    }
  }

  /** When ids are unique before the edit, the edited id occurs exactly once
      afterwards and every id stays unique. */
  lemma EditedOccurrences(c: Catalog, category: string, item: Item)
    requires Valid(c) && UniqueIds(c)
    ensures Occurrences(Edited(c, category, item), item.id) == 1
    ensures forall x :: x != item.id ==> Occurrences(Edited(c, category, item), x) == Occurrences(c, x)
    ensures UniqueIds(Edited(c, category, item))
  {
    var s := Stripped(c, item.id);
    var r := Put(s, category, [item] + Get(s, category));
    assert Edited(c, category, item) == r;
    EditedValueOccurrences(c, category, item);
  }

  /** `EditedOccurrences` on the value `Edited` builds. */
  lemma EditedValueOccurrences(c: Catalog, category: string, item: Item)
    requires Valid(c) && UniqueIds(c)
    ensures var s := Stripped(c, item.id);
      var r := Put(s, category, [item] + Get(s, category));
      Occurrences(r, item.id) == 1 &&
      (forall x :: x != item.id ==> Occurrences(r, x) == Occurrences(c, x)) &&
      UniqueIds(r)
  {
    var s := Stripped(c, item.id);
    var v := [item] + Get(s, category);
    assert v[1..] == Get(s, category);
    UniqueInEachList(c, item.id);
    forall x ensures Occurrences(Put(s, category, v), x) == Occurrences(c, x) - (if x == item.id then Occurrences(c, x) - 1 else 0) {
      OccurrencesPut(s, category, v, x);
      StrippedOccurrencesIn(c.keys, c.lists, s.lists, item.id, x);
    }
  }

  /** With unique ids, no single list holds an id twice. */
  lemma UniqueInEachList(c: Catalog, x: int)
    requires UniqueIds(c)
    ensures forall k :: k in c.keys ==> CountId(Lookup(c.lists, k), x) <= 1
  {
    forall k | k in c.keys ensures CountId(Lookup(c.lists, k), x) <= 1 {
      CountAtMostOccurrences(c.keys, c.lists, k, x);
      assert Occurrences(c, x) <= 1;
    }
  }

  // ---------------------------------------------------------------------
  // Save

  /** `handleSaveDhikr`: blank text changes nothing; otherwise an edit (a
      truthy `editingId`) or an add with id `now`, and the editor switches to
      the resolved category, returned as `tab`. */
  method SaveDhikr(c: Catalog, editingId: Option<int>, d: Draft, customInput: string, now: int)
    returns (r: Catalog, tab: Option<string>)
    requires Valid(c)
    ensures Valid(r)
    ensures IsBlank(d.text) ==> r == c && tab == None
    ensures !IsBlank(d.text) ==> tab == Some(ResolveCategory(d.category, customInput))
    ensures !IsBlank(d.text) && editingId.Some? && editingId.value != 0 ==>
      var cat := ResolveCategory(d.category, customInput);
      r == Edited(c, cat, SavedItem(editingId.value, d, cat))
    ensures !IsBlank(d.text) && !(editingId.Some? && editingId.value != 0) ==>
      var cat := ResolveCategory(d.category, customInput);
      r == AddItem(c, cat, SavedItem(now, d, cat))
  {
    if IsBlank(d.text) {
      return c, None;
    }
    var cat := ResolveCategory(d.category, customInput);
    if editingId.Some? && editingId.value != 0 {
      r := EditItem(c, cat, SavedItem(editingId.value, d, cat));
    } else {
      r := AddItem(c, cat, SavedItem(now, d, cat));
    }
    tab := Some(cat);
  }

  // ---------------------------------------------------------------------
  // Rename

  /** Every item of a renamed category gets the new key as its category. */
  function Retag(items: seq<Item>, k: string): (r: seq<Item>)
    ensures |r| == |items|
    ensures forall j :: 0 <= j < |r| ==> r[j] == items[j].(category := Some(k))
  {
    if items == [] then [] else [items[0].(category := Some(k))] + Retag(items[1..], k)
  }

  /** The key a rename input turns into. */
  function NormalizedKey(input: string): string {
    ToLower(Trim(input))
  }

  /** `saveCategoryRename` as written: a blank input or one equal to the old
      key changes nothing; otherwise the old list, retagged, is written under
      the normalised key (overwriting a category already there) and the
      old key is deleted. */
  function RenameCategory(c: Catalog, oldKey: string, input: string): (r: Catalog)
    requires Valid(c)
    ensures Valid(r)
    ensures IsBlank(input) || input == oldKey || oldKey !in c.lists ==> r == c
    ensures !IsBlank(input) && input != oldKey && oldKey in c.lists ==>
      oldKey !in r.lists &&
      r.keys == DropKey(if NormalizedKey(input) in c.lists then c.keys else c.keys + [NormalizedKey(input)], oldKey) &&
      (NormalizedKey(input) != oldKey ==>
        NormalizedKey(input) in r.lists && Get(r, NormalizedKey(input)) == Retag(c.lists[oldKey], NormalizedKey(input))) &&
      forall k :: k != oldKey && k != NormalizedKey(input) ==> (k in r.lists <==> k in c.lists) && Get(r, k) == Get(c, k)
  {
    if IsBlank(input) || input == oldKey then c
    else
      var newKey := NormalizedKey(input);
      if oldKey in c.lists then Remove(Put(c, newKey, Retag(c.lists[oldKey], newKey)), oldKey)
      else c
  }

  /** A rename whose input differs from the old key only in case or
      surrounding spaces loses the whole category: renaming "morning" to
      "Morning" deletes the morning list. */
  lemma RenameToSameKeyDeletes()
    ensures "morning" in Initial.lists && |Initial.lists["morning"]| == 10
    ensures "morning" !in RenameCategory(Initial, "morning", "Morning").lists
  {
    InitialValid();
    MorningNormalizes();
    assert Initial.lists["morning"] == Morning;
  }

  lemma MorningNormalizes()
    ensures !IsBlank("Morning") && NormalizedKey("Morning") == "morning"
  {
    var s := "Morning";
    assert |s| == 7 && s[0] == 'M' && s[6] == 'g';
    TrimKeeps(s);
    LowerMorning();
  }

  lemma LowerMorning()
    ensures ToLower("Morning") == "morning"
  {
    var s := "Morning";
    var l := ToLower(s);
    assert |l| == 7;
    assert l[0] == 'm' && l[1] == 'o' && l[2] == 'r' && l[3] == 'n';
    assert l[4] == 'i' && l[5] == 'n' && l[6] == 'g';
  }

  /** `saveCategoryRename` as a whole: the catalog update above, and the
      active tab switched to the normalised key unless the guard returns
      first (`None`: the tab stays as it was). */
  function SaveCategoryRename(c: Catalog, oldKey: string, input: string): (r: (Catalog, Option<string>))
    requires Valid(c)
    ensures r.0 == RenameCategory(c, oldKey, input)
    ensures r.1.None? <==> IsBlank(input) || input == oldKey
    ensures r.1.Some? ==> r.1.value == NormalizedKey(input)
    ensures r.1.Some? && oldKey in c.lists ==> (r.1.value in r.0.lists <==> r.1.value != oldKey)
  {
    var r := RenameCategory(c, oldKey, input);
    if IsBlank(input) || input == oldKey then (r, None)
    else (r, Some(NormalizedKey(input)))
  }

  /** After a rename of an existing category, the tab the editor switches to
      holds the renamed list, so `DeleteItem` there succeeds; after the
      rename of "morning" to "Morning" the tab names a deleted category: it
      then shows an empty list, and `DeleteItem` on it is None. */
  lemma RenamedTabDeletes(c: Catalog, oldKey: string, input: string, id: int)
    requires Valid(c) && oldKey in c.lists && !IsBlank(input) && input != oldKey
    ensures var (r, tab) := SaveCategoryRename(c, oldKey, input);
      tab.Some? && (DeleteItem(r, tab.value, id).Some? <==> NormalizedKey(input) != oldKey)
  {
  }

  /** The rename with the self-rename case fixed: an input that normalises
      back to the old key leaves the catalog as it was. */
  function RenameCategoryIntended(c: Catalog, oldKey: string, input: string): (r: Catalog)
    requires Valid(c)
    ensures Valid(r)
    ensures IsBlank(input) || input == oldKey || NormalizedKey(input) == oldKey ==> r == c
    ensures !IsBlank(input) && input != oldKey && NormalizedKey(input) != oldKey ==>
      r == RenameCategory(c, oldKey, input)
  {
    if IsBlank(input) || input == oldKey || NormalizedKey(input) == oldKey then c
    else RenameCategory(c, oldKey, input)
  }

  /** After the corrected rename of an existing category with a usable
      input, the category survives under the normalised key with the same
      items in the same order (tagged with that key when it changed), and no
      category other than the old and the new key is touched. */
  lemma RenameIntendedKeepsItems(c: Catalog, oldKey: string, input: string)
    requires Valid(c) && oldKey in c.lists && !IsBlank(input) && input != oldKey
    ensures var r := RenameCategoryIntended(c, oldKey, input);
      var k := NormalizedKey(input);
      k in r.lists &&
      r.lists[k] == (if k == oldKey then c.lists[oldKey] else Retag(c.lists[oldKey], k)) &&
      (k == oldKey ==> r == c) &&
      (k != oldKey ==> oldKey !in r.lists) &&
      forall other :: other != oldKey && other != k ==> Get(r, other) == Get(c, other)
  {
  }

  // ---------------------------------------------------------------------
  // Delete category, delete item

  /** `delete newData[k]`: that category alone disappears; the other keys
      keep their lists and their order. */
  function DeleteCategory(c: Catalog, k: string): (r: Catalog)
    requires Valid(c)
    ensures Valid(r)
    ensures k !in r.lists
    ensures forall other :: other != k ==> (other in r.lists <==> other in c.lists) && Get(r, other) == Get(c, other)
    ensures r.keys == DropKey(c.keys, k)
  {
    Remove(c, k)
  }

  /** `handleDeleteCategory`: when the user confirms, the category goes and
      the active tab is switched to "general"; otherwise nothing changes
      (`None`: the tab stays as it was). */
  function ConfirmDeleteCategory(c: Catalog, k: string, confirmed: bool): (r: (Catalog, Option<string>))
    requires Valid(c)
    ensures !confirmed ==> r == (c, None)
    ensures confirmed ==> r.0 == DeleteCategory(c, k) && r.1 == Some("general")
  {
    if confirmed then (DeleteCategory(c, k), Some("general")) else (c, None)
  }

  /** Deleting "general" leaves the editor on the tab it just deleted: the
      tab then shows an empty list, and `DeleteItem` on it is None; deleting
      any other category lands on "general", where `DeleteItem` succeeds
      exactly when "general" exists. */
  lemma DeletedTabDeletes(c: Catalog, k: string, id: int)
    requires Valid(c)
    ensures var (r, tab) := ConfirmDeleteCategory(c, k, true);
      tab == Some("general") &&
      (DeleteItem(r, tab.value, id).Some? <==> k != "general" && "general" in c.lists)
  {
  }

  /** `confirmDelete`: the active tab's list without the item; reading the
      list of a tab that does not exist throws, modelled as None. */
  function DeleteItem(c: Catalog, tab: string, id: int): (r: Option<Catalog>)
    requires Valid(c)
    ensures r.None? <==> tab !in c.lists
    ensures r.Some? ==> Valid(r.value) && r.value.keys == c.keys
    ensures r.Some? ==> CountId(Get(r.value, tab), id) == 0
    ensures r.Some? ==> forall it :: it in Get(r.value, tab) <==> it in c.lists[tab] && it.id != id
    ensures r.Some? ==> Get(r.value, tab) == Filter(c.lists[tab], IdIsNot(id))
    ensures r.Some? ==> forall k :: k != tab ==> Get(r.value, k) == Get(c, k)
  {
    if tab !in c.lists then None
    else Some(Put(c, tab, Filter(c.lists[tab], IdIsNot(id))))
  }

  // ---------------------------------------------------------------------
  // Move

  datatype Direction = Up | Down

  /** Exchanges two positions of a list. */
  function Swap(s: seq<Item>, i: nat, j: nat): (r: seq<Item>)
    requires i < |s| && j < |s|
    ensures |r| == |s| && multiset(r) == multiset(s)
    ensures r[i] == s[j] && r[j] == s[i]
    ensures forall k :: 0 <= k < |s| && k != i && k != j ==> r[k] == s[k]
  {
    var t := s[i := s[j]];
    MultisetUpdate(s, i, s[j]);
    MultisetUpdate(t, j, s[i]);
    t[j := s[i]]
  }

  lemma MultisetUpdate(s: seq<Item>, i: nat, v: Item)
    requires i < |s|
    ensures multiset(s[i := v]) == multiset(s) - multiset{s[i]} + multiset{v}
  {
  }

  /** The list after `moveItem(index, direction)`: swapped with the
      neighbour above or below, unchanged at either end. */
  function Moved(list: seq<Item>, index: nat, dir: Direction): (r: seq<Item>)
    requires index < |list|
    ensures |r| == |list| && multiset(r) == multiset(list)
    ensures dir == Up && index > 0 ==> r[index - 1] == list[index] && r[index] == list[index - 1]
    ensures dir == Down && index + 1 < |list| ==> r[index + 1] == list[index] && r[index] == list[index + 1]
    ensures forall k :: 0 <= k < |list| && k != index && (dir == Up ==> k != index - 1) && (dir == Down ==> k != index + 1) ==> r[k] == list[k]
    ensures (dir == Up && index == 0) || (dir == Down && index + 1 == |list|) ==> r == list
  {
    if dir == Up && index > 0 then Swap(list, index, index - 1)
    else if dir == Down && index + 1 < |list| then Swap(list, index, index + 1)
    else list
  }

  /** `moveItem(index, direction)` on the active tab: only that tab's list
      changes, as `Moved` says. The index is one of the rendered rows. */
  function MoveItem(c: Catalog, tab: string, index: nat, dir: Direction): (r: Catalog)
    requires Valid(c) && index < |Get(c, tab)|
    ensures Valid(r) && r.keys == c.keys
    ensures Get(r, tab) == Moved(Get(c, tab), index, dir)
    ensures forall k :: k != tab ==> Get(r, k) == Get(c, k)
    ensures (dir == Up && index == 0) || (dir == Down && index + 1 == |Get(c, tab)|) ==> r == c
  {
    var moved := Moved(Get(c, tab), index, dir);
    assert moved == c.lists[tab] ==> c.lists[tab := moved] == c.lists;
    Put(c, tab, moved)
  }

  /** Moving an item down and then moving it back up restores the catalog. */
  lemma MoveDownThenUp(c: Catalog, tab: string, index: nat)
    requires Valid(c) && index + 1 < |Get(c, tab)|
    ensures MoveItem(MoveItem(c, tab, index, Down), tab, index + 1, Up) == c
  {
    var once := MoveItem(c, tab, index, Down);
    var twice := MoveItem(once, tab, index + 1, Up);
    MovedDownThenUp(Get(c, tab), index);
    assert forall k :: k in twice.lists <==> k in c.lists;
    assert forall k :: k in twice.lists ==> twice.lists[k] == Get(twice, k) == Get(c, k) == c.lists[k];
    assert twice.lists == c.lists;
  }

  lemma MovedDownThenUp(list: seq<Item>, index: nat)
    requires index + 1 < |list|
    ensures Moved(Moved(list, index, Down), index + 1, Up) == list
  {
    var m := Moved(list, index, Down);
    var b := Moved(m, index + 1, Up);
    forall k | 0 <= k < |list| ensures b[k] == list[k] {
      if k != index && k != index + 1 {
        assert b[k] == m[k];
      }
    }
  }
}
