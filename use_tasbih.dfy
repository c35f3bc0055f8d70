/** The per-item counter hook: one count, persisted under the item's
    counter record after every change. */
module Counter {
  import opened JsValues
  import opened JsStrings
  import Keys

  /** JavaScript truthiness of the id and target arguments (undefined, null
      and 0 are falsy). */
  predicate Given(x: Option<int>) {
    x.Some? && x.value != 0
  }

  /** The storage key built from the id; the same record as the app's
      counter-key namespace. */
  function StorageKey(id: int): (k: string)
    ensures k == Keys.CountKey(id)
  {
    "tasbih_count_" + ShowInt(id)
  }

  /** The count the hook starts with: the initial count without an id or
      without a saved record, otherwise `parseInt` of the saved text (NaN
      when that text is not a number). */
  function InitialCount(id: Option<int>, initialCount: int, store: map<string, string>): (r: Num)
    ensures !Given(id) ==> r == Int(initialCount)
    ensures Given(id) && StorageKey(id.value) !in store ==> r == Int(initialCount)
    ensures Given(id) && StorageKey(id.value) in store ==> r == ParseInt(store[StorageKey(id.value)])
  {
    if !Given(id) then Int(initialCount)
    else if StorageKey(id.value) in store then ParseInt(store[StorageKey(id.value)])
    else Int(initialCount)
  }

  /** The write the persistence effect makes: `count.toString()` under the
      key, and nothing without an id. */
  function Persist(store: map<string, string>, id: Option<int>, count: Num): (r: map<string, string>)
    ensures Given(id) ==> r == store[StorageKey(id.value) := ShowNum(count)]
    ensures !Given(id) ==> r == store
  {
    if Given(id) then store[StorageKey(id.value) := ShowNum(count)] else store
  }

  /** What the effect wrote is what a later mount reads back, NaN included:
      counts survive a reload exactly. */
  lemma ReloadReadsBack(store: map<string, string>, id: Option<int>, initialCount: int, count: Num)
    requires Given(id)
    ensures InitialCount(id, initialCount, Persist(store, id, count)) == count
  {
    ParseShowNum(count);
  }

  /** A record of another id is never disturbed. */
  lemma PersistOnlyOwnRecord(store: map<string, string>, id: int, other: int, count: Num)
    requires other != id
    ensures var r := Persist(store, Some(id), count);
      (StorageKey(other) in r <==> StorageKey(other) in store) &&
      (StorageKey(other) in store ==> r[StorageKey(other)] == store[StorageKey(other)])
  {
    Keys.CountKeyInjective(id, other);
  }

  class Tasbih {
    var id: Option<int>
    var target: Option<int>
    var count: Num
    var store: map<string, string>

    /** After every render the store holds the current count under the
        current item's key. */
    ghost predicate Valid()
      reads this
    {
      Given(id) ==> StorageKey(id.value) in store && store[StorageKey(id.value)] == ShowNum(count)
    }

    /** First mount: the count is read from storage once, then written back
        by the effect. */
    constructor (id: Option<int>, initialCount: int, target: Option<int>, store: map<string, string>)
      ensures Valid()
      ensures this.id == id && this.target == target
      ensures count == InitialCount(id, initialCount, store)
      ensures this.store == Persist(store, id, count)
    {
      this.id := id;
      this.target := target;
      count := InitialCount(id, initialCount, store);
      this.store := Persist(store, id, InitialCount(id, initialCount, store));
    }

    /** `increment`: one more; the target is reported only on the exact tap
        that makes the count equal to a given target, never past it. */
    method Increment() returns (reached: bool)
      modifies this
      ensures Valid()
      ensures id == old(id) && target == old(target)
      ensures count == Plus(old(count), 1)
      ensures reached <==> Given(target) && count == Int(target.value)
      ensures old(count).Int? && Given(target) && old(count).n >= target.value ==> !reached
      ensures store == Persist(old(store), id, count)
    {
      count := Plus(count, 1);
      reached := Given(target) && count == Int(target.value);
      store := Persist(store, id, count);
    }

    /** `reset`: back to zero, persisted. */
    method Reset()
      modifies this
      ensures Valid()
      ensures id == old(id) && target == old(target)
      ensures count == Int(0)
      ensures store == Persist(old(store), id, count)
    {
      count := Int(0);
      store := Persist(store, id, count);
    }

    /** A re-render for another item: the id and the target are that
        render's arguments, but storage is not read again, so the count in
        memory is written under the new item's key and is checked against
        the new target on the next tap. */
    method ChangeId(newId: Option<int>, newTarget: Option<int>)
      modifies this
      ensures Valid()
      ensures id == newId && target == newTarget
      ensures count == old(count)
      ensures store == Persist(old(store), newId, count)
    {
      id := newId;
      target := newTarget;
      store := Persist(store, id, count);
    }
  }
}
