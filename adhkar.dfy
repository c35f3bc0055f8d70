/** Recitation items, the categorised catalog (a JavaScript object: keys in
    insertion order, each mapped to an ordered item list) and the catalog
    shipped with the app. */
module Adhkar {
  import opened JsValues
  import opened JsArrays

  /** A dhikr item. `category` is absent on the shipped items and is attached
      when an item is selected or saved from the editor. */
  datatype Item = Item(id: int, text: string, translation: string, count: int, category: Option<string>)

  /** Category key -> item list, with the keys in JavaScript property order. */
  datatype Catalog = Catalog(keys: seq<string>, lists: map<string, seq<Item>>)

  ghost predicate DistinctKeys(keys: seq<string>) {
    forall i, j :: 0 <= i < j < |keys| ==> keys[i] != keys[j]
  }

  /** The key order lists exactly the keys of the map, each once. */
  ghost predicate Valid(c: Catalog) {
    DistinctKeys(c.keys) && forall k :: k in c.lists <==> k in c.keys
  }

  /** `obj[k] || []` on a bare map. */
  function Lookup(lists: map<string, seq<Item>>, k: string): (r: seq<Item>)
    ensures k in lists ==> r == lists[k]
    ensures k !in lists ==> r == []
  {
    if k in lists then lists[k] else []
  }

  /** `obj[k] || []`: a missing category reads as an empty list. */
  function Get(c: Catalog, k: string): (r: seq<Item>)
    ensures k in c.lists ==> r == c.lists[k]
    ensures k !in c.lists ==> r == []
  {
    Lookup(c.lists, k)
  }

  /** `{ ...obj, [k]: v }`: an existing key keeps its place, a new key goes
      last. */
  function Put(c: Catalog, k: string, v: seq<Item>): (r: Catalog)
    requires Valid(c)
    ensures Valid(r)
    ensures r.lists == c.lists[k := v]
    ensures k in c.lists ==> r.keys == c.keys
    ensures k !in c.lists ==> r.keys == c.keys + [k]
  {
    if k in c.lists then Catalog(c.keys, c.lists[k := v])
    else Catalog(c.keys + [k], c.lists[k := v])
  }

  function DropKey(keys: seq<string>, k: string): (r: seq<string>)
    ensures forall x :: x in r <==> x in keys && x != k
    ensures DistinctKeys(keys) ==> DistinctKeys(r)
    ensures k !in keys ==> r == keys
  {
    if keys == [] then []
    else if keys[0] == k then DropKey(keys[1..], k)
    else
      var t := DropKey(keys[1..], k);
      assert DistinctKeys(keys) ==> keys[0] !in keys[1..] && DistinctKeys(keys[1..]) by {
        if DistinctKeys(keys) {
          forall i, j | 0 <= i < j < |keys[1..]| ensures keys[1..][i] != keys[1..][j] {
            assert keys[1..][i] == keys[i + 1] && keys[1..][j] == keys[j + 1];
          }
        }
      }
      [keys[0]] + t
  }

  /** `delete obj[k]` on a copy: the other keys keep their order. */
  function Remove(c: Catalog, k: string): (r: Catalog)
    requires Valid(c)
    ensures Valid(r)
    ensures r.lists == c.lists - {k}
    ensures r.keys == DropKey(c.keys, k)
  {
    Catalog(DropKey(c.keys, k), c.lists - {k})
  }

  // ---------------------------------------------------------------------
  // Item ids across the catalog

  /** The `item => item.id === id` callback. */
  function IdIs(id: int): Item -> bool {
    (it: Item) => it.id == id
  }

  /** The `item => item.id !== id` callback. */
  function IdIsNot(id: int): Item -> bool {
    (it: Item) => it.id != id
  }

  function CountId(items: seq<Item>, id: int): (n: nat)
    ensures n <= |items|
    ensures n == 0 <==> forall j :: 0 <= j < |items| ==> items[j].id != id
  {
    if items == [] then 0 else (if items[0].id == id then 1 else 0) + CountId(items[1..], id)
  }

  function OccurrencesIn(keys: seq<string>, lists: map<string, seq<Item>>, id: int): nat {
    if keys == [] then 0
    else CountId(Lookup(lists, keys[0]), id) + OccurrencesIn(keys[1..], lists, id)
  }

  /** How many items of the whole catalog carry `id`. */
  function Occurrences(c: Catalog, id: int): nat {
    OccurrencesIn(c.keys, c.lists, id)
  }

  /** Ids are unique across the catalog, not just within one category. */
  ghost predicate UniqueIds(c: Catalog) {
    forall id :: Occurrences(c, id) <= 1
  }

  function Flatten(keys: seq<string>, lists: map<string, seq<Item>>): seq<Item> {
    if keys == [] then [] else Lookup(lists, keys[0]) + Flatten(keys[1..], lists)
  }

  lemma {:induction false} CountIdAppend(a: seq<Item>, b: seq<Item>, id: int)
    ensures CountId(a + b, id) == CountId(a, id) + CountId(b, id)
  {
    if a == [] {
      assert a + b == b;
    } else {
      assert (a + b)[0] == a[0] && (a + b)[1..] == a[1..] + b;
      CountIdAppend(a[1..], b, id);
    }
  }

  lemma {:induction false} OccurrencesFlatten(keys: seq<string>, lists: map<string, seq<Item>>, id: int)
    ensures OccurrencesIn(keys, lists, id) == CountId(Flatten(keys, lists), id)
  {
    if keys != [] {
      OccurrencesFlatten(keys[1..], lists, id);
      CountIdAppend(Lookup(lists, keys[0]), Flatten(keys[1..], lists), id);
    }
  }

  lemma {:induction false} OccurrencesAppend(a: seq<string>, b: seq<string>, lists: map<string, seq<Item>>, x: int)
    ensures OccurrencesIn(a + b, lists, x) == OccurrencesIn(a, lists, x) + OccurrencesIn(b, lists, x)
  {
    if a == [] {
      assert a + b == b;
    } else {
      assert (a + b)[0] == a[0] && (a + b)[1..] == a[1..] + b;
      OccurrencesAppend(a[1..], b, lists, x);
    }
  }

  lemma {:induction false} OccurrencesUpdateAbsent(keys: seq<string>, lists: map<string, seq<Item>>, k: string, v: seq<Item>, x: int)
    requires k !in keys
    ensures OccurrencesIn(keys, lists[k := v], x) == OccurrencesIn(keys, lists, x)
  {
    if keys != [] {
      OccurrencesUpdateAbsent(keys[1..], lists, k, v, x);
    }
  }

  lemma {:induction false} OccurrencesUpdatePresent(keys: seq<string>, lists: map<string, seq<Item>>, k: string, v: seq<Item>, x: int)
    requires DistinctKeys(keys) && k in keys
    ensures OccurrencesIn(keys, lists[k := v], x) + CountId(Lookup(lists, k), x)
         == OccurrencesIn(keys, lists, x) + CountId(v, x)
  {
    var rest := keys[1..];
    assert DistinctKeys(rest) by {
      forall i, j | 0 <= i < j < |rest| ensures rest[i] != rest[j] {
        assert rest[i] == keys[i + 1] && rest[j] == keys[j + 1];
      }
    }
    if keys[0] == k {
      assert k !in rest;
      OccurrencesUpdateAbsent(rest, lists, k, v, x);
    } else {
      OccurrencesUpdatePresent(rest, lists, k, v, x);
    }
  }

  /** Writing list `v` under `k` replaces the ids of the old list there (none
      when `k` was absent) by the ids of `v`, and touches no other category. */
  lemma OccurrencesPut(c: Catalog, k: string, v: seq<Item>, x: int)
    requires Valid(c)
    ensures Occurrences(Put(c, k, v), x) + CountId(Get(c, k), x) == Occurrences(c, x) + CountId(v, x)
  {
    if k in c.lists {
      OccurrencesUpdatePresent(c.keys, c.lists, k, v, x);
    } else {
      OccurrencesAppend(c.keys, [k], c.lists[k := v], x);
      OccurrencesUpdateAbsent(c.keys, c.lists, k, v, x);
      assert OccurrencesIn([k], c.lists[k := v], x) == CountId(v, x);
    }
  }

  /** One category's ids are part of the catalog's. */
  lemma {:induction false} CountAtMostOccurrences(keys: seq<string>, lists: map<string, seq<Item>>, k: string, x: int)
    requires k in keys
    ensures CountId(Lookup(lists, k), x) <= OccurrencesIn(keys, lists, x)
  {
    if keys[0] != k {
      CountAtMostOccurrences(keys[1..], lists, k, x);
    }
  }

  ghost predicate IncreasingIds(items: seq<Item>) {
    forall j :: 0 <= j < |items| - 1 ==> items[j].id < items[j + 1].id
  }

  lemma {:induction false} IncreasingCountAtMostOne(items: seq<Item>, id: int)
    requires IncreasingIds(items)
    ensures CountId(items, id) <= 1
    ensures |items| > 0 && id < items[0].id ==> CountId(items, id) == 0
  {
    if items != [] {
      var rest := items[1..];
      assert IncreasingIds(rest) by {
        forall j | 0 <= j < |rest| - 1 ensures rest[j].id < rest[j + 1].id {
          assert rest[j] == items[j + 1] && rest[j + 1] == items[j + 2];
        }
      }
      IncreasingCountAtMostOne(rest, id);
      if rest != [] {
        IncreasingCountAtMostOne(rest, items[0].id);
      }
    }
  }

  // ---------------------------------------------------------------------
  // The shipped catalog (INITIAL_ADHKAR_DATA). The Arabic text and the
  // translations are display content and are left empty here; ids, targets
  // and key order are the source's.

  function Seed(id: int, count: int): Item {
    Item(id, "", "", count, None)
  }

  const Morning: seq<Item> := [Seed(101, 1), Seed(102, 3), Seed(103, 3), Seed(104, 3), Seed(105, 1),
                               Seed(106, 3), Seed(107, 1), Seed(108, 10), Seed(109, 7), Seed(110, 100)]
  const Evening: seq<Item> := [Seed(201, 1), Seed(202, 3), Seed(203, 3), Seed(204, 3), Seed(205, 1),
                               Seed(206, 3), Seed(207, 1), Seed(208, 7)]
  const AfterPrayer: seq<Item> := [Seed(301, 3), Seed(302, 1), Seed(303, 1), Seed(304, 33), Seed(305, 33),
                                   Seed(306, 33), Seed(307, 1), Seed(308, 1), Seed(309, 1)]
  const Quran: seq<Item> := [Seed(401, 1), Seed(402, 1), Seed(403, 1), Seed(404, 3)]
  const General: seq<Item> := [Seed(501, 100), Seed(502, 100), Seed(503, 100), Seed(504, 100),
                               Seed(505, 100), Seed(506, 100)]

  const InitialKeys: seq<string> := ["morning", "evening", "after-prayer", "quran", "general"]

  const Initial: Catalog := Catalog(InitialKeys,
    map["morning" := Morning, "evening" := Evening, "after-prayer" := AfterPrayer,
        "quran" := Quran, "general" := General])

  /** CATEGORY_META, keyed like the catalog (the icons are not modelled). */
  const CategoryMetaKeys: seq<string> := ["morning", "evening", "after-prayer", "quran", "general"]
  const CategoryMeta: map<string, string> :=
    map["morning" := "Morning", "evening" := "Evening", "after-prayer" := "After Prayer",
        "quran" := "Quran", "general" := "General"]

  /** The shipped catalog is well formed, its key order is morning, evening,
      after-prayer, quran, general, and every category has items. */
  lemma InitialShape()
    ensures Valid(Initial)
    ensures Initial.keys == ["morning", "evening", "after-prayer", "quran", "general"]
    ensures forall k :: k in Initial.lists ==> |Initial.lists[k]| > 0
    ensures Initial.lists[Initial.keys[0]][0].id == 101
  {
    InitialValid();
    InitialNonEmpty();
    assert Initial.lists[Initial.keys[0]] == Morning;
  }

  lemma InitialValid()
    ensures Valid(Initial)
    ensures Initial.keys == ["morning", "evening", "after-prayer", "quran", "general"]
  {
  }

  lemma InitialNonEmpty()
    ensures forall k :: k in Initial.lists ==> |Initial.lists[k]| > 0
  {
    assert |Morning| > 0 && |Evening| > 0 && |AfterPrayer| > 0 && |Quran| > 0 && |General| > 0;
  }

  /** Every shipped item has a positive target and no category field. */
  lemma InitialItems()
    ensures forall k, j :: k in Initial.lists && 0 <= j < |Initial.lists[k]| ==>
      Initial.lists[k][j].count >= 1 && Initial.lists[k][j].category.None?
  {
    forall k, j | k in Initial.lists && 0 <= j < |Initial.lists[k]|
      ensures Initial.lists[k][j].count >= 1 && Initial.lists[k][j].category.None?
    {
      assert k in InitialKeys;
    }
  }

  lemma IncreasingAppend(a: seq<Item>, b: seq<Item>)
    requires IncreasingIds(a) && IncreasingIds(b)
    requires a != [] && b != [] && a[|a| - 1].id < b[0].id
    ensures IncreasingIds(a + b)
  {
    var r := a + b;
    forall j | 0 <= j < |r| - 1 ensures r[j].id < r[j + 1].id {
      if j < |a| - 1 {
        assert r[j] == a[j] && r[j + 1] == a[j + 1];
      } else if j == |a| - 1 {
        assert r[j] == a[j] && r[j + 1] == b[0];
      } else {
        assert r[j] == b[j - |a|] && r[j + 1] == b[j + 1 - |a|];
      }
    }
  }

  lemma InitialFlatten()
    ensures Flatten(Initial.keys, Initial.lists) == Morning + (Evening + (AfterPrayer + (Quran + General)))
  {
    var ks, ls := Initial.keys, Initial.lists;
    assert Flatten(ks[5..], ls) == [];
    assert Flatten(ks[4..], ls) == General;
    assert Flatten(ks[3..], ls) == Quran + General;
    assert Flatten(ks[2..], ls) == AfterPrayer + (Quran + General);
    assert Flatten(ks[1..], ls) == Evening + (AfterPrayer + (Quran + General));
  }

  lemma ListsIncrease()
    ensures IncreasingIds(Morning) && IncreasingIds(Evening) && IncreasingIds(AfterPrayer)
    ensures IncreasingIds(Quran) && IncreasingIds(General)
  {
    MorningIncreasing();
    EveningIncreasing();
    OtherListsIncreasing();
  }

  lemma MorningIncreasing()
    ensures IncreasingIds(Morning)
  {
  }

  lemma EveningIncreasing()
    ensures IncreasingIds(Evening)
  {
  }

  lemma OtherListsIncreasing()
    ensures IncreasingIds(AfterPrayer) && IncreasingIds(Quran) && IncreasingIds(General)
  {
  }

  /** The shipped lists, one after the other, have increasing ids. */
  lemma FlatIncreasing()
    ensures IncreasingIds(Morning + (Evening + (AfterPrayer + (Quran + General))))
  {
    ListsIncrease();
    IncreasingAppend(Quran, General);
    IncreasingAppend(AfterPrayer, Quran + General);
    IncreasingAppend(Evening, AfterPrayer + (Quran + General));
    IncreasingAppend(Morning, Evening + (AfterPrayer + (Quran + General)));
  }

  /** Ids are unique across the whole shipped catalog. */
  lemma InitialIdsUnique()
    ensures UniqueIds(Initial)
  {
    InitialFlatten();
    FlatIncreasing();
    var all := Morning + (Evening + (AfterPrayer + (Quran + General)));
    forall id ensures Occurrences(Initial, id) <= 1 {
      OccurrencesFlatten(Initial.keys, Initial.lists, id);
      IncreasingCountAtMostOne(all, id);
    }
  }

  /** CATEGORY_META describes exactly the shipped categories. */
  lemma MetaMatchesCatalog()
    ensures CategoryMeta.Keys == Initial.lists.Keys
    ensures CategoryMetaKeys == Initial.keys
  {
  }
}
