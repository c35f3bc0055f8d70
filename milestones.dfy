/** The static table of lifetime milestones and its two lookups. */
module Milestones {
  import opened JsValues
  import opened JsArrays

  /** A milestone, identified by its threshold; its name, icon and quote
      are display text and not modelled. */
  datatype Milestone = Milestone(threshold: nat)

  const Table: seq<Milestone> := [
    Milestone(100), Milestone(500), Milestone(1000), Milestone(5000),
    Milestone(10000), Milestone(33000), Milestone(50000), Milestone(100000)
  ]

  ghost predicate Ascending(ms: seq<Milestone>) {
    forall i, j :: 0 <= i < j < |ms| ==> ms[i].threshold < ms[j].threshold
  }

  /** Thresholds are strictly ascending. */
  lemma TableAscending()
    ensures Ascending(Table)
    ensures |Table| == 8 && Table[0].threshold == 100 && Table[7].threshold == 100000
  {
  }

  /** `MILESTONES.find(...)` as an optional element. */
  function Find(ms: seq<Milestone>, p: Milestone -> bool): (r: Option<Milestone>)
    ensures r.Some? ==> p(r.value) && r.value in ms
    ensures r.Some? ==> exists k :: 0 <= k < |ms| && ms[k] == r.value && forall j :: 0 <= j < k ==> !p(ms[j])
    ensures r.None? ==> forall j :: 0 <= j < |ms| ==> !p(ms[j])
  {
    var i := FindIndex(ms, p);
    if i < 0 then None else Some(ms[i])
  }

  /** On ascending thresholds the element found is the lowest one that
      satisfies the test. */
  lemma FindLowest(ms: seq<Milestone>, p: Milestone -> bool)
    requires Ascending(ms)
    ensures Find(ms, p).Some? ==> forall m :: m in ms && m.threshold < Find(ms, p).value.threshold ==> !p(m)
    ensures Find(ms, p).None? ==> forall m :: m in ms ==> !p(m)
  {
    var r := Find(ms, p);
    if r.Some? {
      var k :| 0 <= k < |ms| && ms[k] == r.value && forall j :: 0 <= j < k ==> !p(ms[j]);
      forall m | m in ms && m.threshold < r.value.threshold ensures !p(m) {
        var j :| 0 <= j < |ms| && ms[j] == m;
        var tj, tk := ms[j].threshold, ms[k].threshold;
        assert j >= k ==> tj >= tk;
      }
    }
  }

  /** `getNextMilestone(n, reached)`: the first milestone above `n` that has
      not been celebrated. */
  function NextMilestone(n: int, reached: seq<int>): (r: Option<Milestone>)
    ensures r.Some? ==> r.value in Table && r.value.threshold > n && r.value.threshold !in reached
    ensures r.None? ==> forall m :: m in Table && m.threshold > n ==> m.threshold in reached
    ensures r.Some? ==> forall m :: m in Table && n < m.threshold < r.value.threshold ==> m.threshold in reached
  {
    var p := (m: Milestone) => m.threshold > n && m.threshold !in reached;
    TableAscending();
    FindLowest(Table, p);
    Find(Table, p)
  }

  /** Thresholds at most `n`, in table order (the filter). */
  function AtMost(ms: seq<Milestone>, n: int): (r: seq<Milestone>)
    ensures forall m :: m in r <==> m in ms && m.threshold <= n
  {
    Filter(ms, (m: Milestone) => m.threshold <= n)
  }

  /** `getUnlockedMilestones(n)`. */
  function UnlockedMilestones(n: int): (r: seq<Milestone>)
    ensures forall m :: m in r <==> m in Table && m.threshold <= n
  {
    AtMost(Table, n)
  }

  lemma {:induction false} AtMostIsPrefix(ms: seq<Milestone>, n: int)
    requires Ascending(ms)
    ensures AtMost(ms, n) <= ms
    ensures |AtMost(ms, n)| < |ms| ==> ms[|AtMost(ms, n)|].threshold > n
  {
    if ms != [] {
      assert Ascending(ms[1..]) by {
        forall i, j | 0 <= i < j < |ms[1..]| ensures ms[1..][i].threshold < ms[1..][j].threshold {
          assert ms[1..][i] == ms[i + 1] && ms[1..][j] == ms[j + 1];
        }
      }
      AtMostIsPrefix(ms[1..], n);
      if ms[0].threshold > n {
        AllAboveDropped(ms[1..], n, ms[0].threshold);
      }
    }
  }

  lemma {:induction false} AllAboveDropped(ms: seq<Milestone>, n: int, low: int)
    requires forall j :: 0 <= j < |ms| ==> ms[j].threshold > low
    requires low > n
    ensures AtMost(ms, n) == []
  {
    if ms != [] {
      AllAboveDropped(ms[1..], n, low);
    }
  }

  /** The unlocked list is a prefix of the table: exactly its first k entries
      for the k thresholds that are at most `n`. */
  lemma UnlockedIsPrefix(n: int)
    ensures UnlockedMilestones(n) <= Table
    ensures forall j :: |UnlockedMilestones(n)| <= j < |Table| ==> Table[j].threshold > n
  {
    TableAscending();
    AtMostIsPrefix(Table, n);
    var k := |UnlockedMilestones(n)|;
    forall j | k <= j < |Table| ensures Table[j].threshold > n {
      if j > k { assert Table[k].threshold < Table[j].threshold; }
    }
  }

  lemma {:induction false} AtMostMonotone(ms: seq<Milestone>, n: int, m: int)
    requires Ascending(ms) && n <= m
    ensures AtMost(ms, n) <= AtMost(ms, m)
  {
    if ms != [] {
      assert Ascending(ms[1..]) by {
        forall i, j | 0 <= i < j < |ms[1..]| ensures ms[1..][i].threshold < ms[1..][j].threshold {
          assert ms[1..][i] == ms[i + 1] && ms[1..][j] == ms[j + 1];
        }
      }
      if ms[0].threshold <= n {
        AtMostMonotone(ms[1..], n, m);
      } else {
        AllAboveDropped(ms[1..], n, ms[0].threshold);
      }
    }
  }

  /** A larger total unlocks a longer prefix. */
  lemma UnlockedMonotone(n: int, m: int)
    requires n <= m
    ensures UnlockedMilestones(n) <= UnlockedMilestones(m)
  {
    TableAscending();
    AtMostMonotone(Table, n, m);
  }
}
