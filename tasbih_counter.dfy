/** The counter screen's own arithmetic and text: the target, what remains,
    completion, the category label and the order of the category menu. */
module CounterScreen {
  import opened JsValues
  import opened JsStrings
  import opened JsArrays

  // ---------------------------------------------------------------------
  // Target, remaining, complete

  /** `activeDhikr.count || 33`: a missing or zero count means 33. */
  function TargetCount(count: Option<int>): (t: int)
    ensures count.Some? && count.value != 0 ==> t == count.value
    ensures count.None? || count.value == 0 ==> t == 33
    ensures t != 0
  {
    if count.Some? && count.value != 0 then count.value else 33
  }

  /** `Math.max(0, targetCount - count)`; NaN when the count is NaN. */
  function Remaining(target: int, count: Num): (r: Num)
    ensures count.NaN? <==> r.NaN?
    ensures r.Int? ==> r.n >= 0
    ensures count.Int? && count.n <= target ==> r == Int(target - count.n)
    ensures count.Int? && count.n >= target ==> r == Int(0)
  {
    match count
    case NaN => NaN
    case Int(c) => Int(if target - c > 0 then target - c else 0)
  }

  /** `count >= targetCount`; false for NaN. */
  predicate IsComplete(target: int, count: Num) {
    AtLeast(count, target)
  }

  /** The screen is complete exactly when nothing remains. */
  lemma CompleteIffNothingRemains(target: int, count: Num)
    ensures IsComplete(target, count) <==> Remaining(target, count) == Int(0)
  {
  }

  /** Counting up from zero one tap at a time, completion first holds on
      the tap that makes the count equal to a positive target. */
  lemma CompleteFirstAtTarget(target: int, c: int)
    requires target > 0 && 0 <= c
    requires !IsComplete(target, Int(c)) && IsComplete(target, Int(c + 1))
    ensures c + 1 == target
  {
  }

  // ---------------------------------------------------------------------
  // formatCategory

  /** `word.charAt(0).toUpperCase() + word.slice(1)`. */
  function Capitalize(w: string): (r: string)
    ensures |r| == |w|
    ensures w != [] ==> r[0] == UpperChar(w[0]) && r[1..] == w[1..]
  {
    if w == [] then [] else [UpperChar(w[0])] + w[1..]
  }

  function MapCapitalize(ws: seq<string>): (r: seq<string>)
    ensures |r| == |ws|
    ensures forall i :: 0 <= i < |ws| ==> r[i] == Capitalize(ws[i])
  {
    if ws == [] then [] else [Capitalize(ws[0])] + MapCapitalize(ws[1..])
  }

  /** `formatCategory(cat)`: the empty (falsy) name gives `''`, otherwise the
      name is split on '-', each word capitalised and the words joined by
      spaces. */
  function FormatCategory(cat: string): (r: string) {
    if cat == [] then [] else Join(MapCapitalize(Split(cat, '-')), " ")
  }

  /** What `FormatCategory` puts at position `k` of the name: a space for a
      dash, an upper-cased letter at the start of a word, the letter itself
      elsewhere. */
  function FormattedChar(s: string, k: int): (c: char)
    requires 0 <= k < |s|
  {
    if s[k] == '-' then ' '
    else if k == 0 || s[k - 1] == '-' then UpperChar(s[k])
    else s[k]
  }

  /** Peeling off the first word. */
  lemma FormatFirstWord(s: string, i: int)
    requires s != [] && i == IndexOfChar(s, '-') && i >= 0
    ensures FormatCategory(s) == Capitalize(s[..i]) + " " + Join(MapCapitalize(Split(s[i + 1..], '-')), " ")
  {
    var ws := Split(s, '-');
    assert ws == [s[..i]] + Split(s[i + 1..], '-');
    var cs := MapCapitalize(ws);
    assert |cs| >= 2;
    assert cs[1..] == MapCapitalize(Split(s[i + 1..], '-'));
  }

  /** `r` is `s` formatted position by position. */
  ghost predicate Charwise(s: string, r: string) {
    |r| == |s| && forall k :: 0 <= k < |s| ==> r[k] == FormattedChar(s, k)
  }

  lemma CharwiseOneWord(w: string)
    requires '-' !in w
    ensures Charwise(w, Capitalize(w))
  {
    var r := Capitalize(w);
    forall k | 0 <= k < |w| ensures r[k] == FormattedChar(w, k) {
      assert w[k] in w;
      if k > 0 { assert w[k - 1] in w; assert r[k] == r[1..][k - 1]; }
    }
  }

  lemma CharwiseCons(s: string, i: int, rest: string)
    requires 0 <= i < |s| && s[i] == '-' && '-' !in s[..i]
    requires Charwise(s[i + 1..], rest)
    ensures Charwise(s, Capitalize(s[..i]) + " " + rest)
  {
    var w := s[..i];
    var t := s[i + 1..];
    var r := Capitalize(w) + " " + rest;
    CharwiseOneWord(w);
    forall k | 0 <= k < |s| ensures r[k] == FormattedChar(s, k) {
      if k < i {
        assert s[k] == w[k] && r[k] == Capitalize(w)[k];
        if k > 0 { assert s[k - 1] == w[k - 1]; }
      } else if k > i {
        assert r[k] == rest[k - i - 1] && s[k] == t[k - i - 1];
        if k - i - 1 > 0 { assert s[k - 1] == t[k - i - 2]; }
      }
    }
  }

  /** The words after the first dash are the formatted rest of the name,
      the empty rest included. */
  lemma RestWords(t: string)
    ensures Join(MapCapitalize(Split(t, '-')), " ") == FormatCategory(t)
  {
    if t == [] {
      assert Split(t, '-') == [t];
    }
  }

  lemma OneWordCase(s: string)
    requires s != [] && '-' !in s
    ensures Charwise(s, FormatCategory(s))
  {
    assert Split(s, '-') == [s];
    CharwiseOneWord(s);
  }

  lemma ConsCase(s: string, i: int)
    requires s != [] && i == IndexOfChar(s, '-') && i >= 0
    requires Charwise(s[i + 1..], FormatCategory(s[i + 1..]))
    ensures Charwise(s, FormatCategory(s))
  {
    var t := s[i + 1..];
    FormatFirstWord(s, i);
    RestWords(t);
    CharwiseCons(s, i, FormatCategory(t));
  }

  /** The formatted name has the name's length and, position by position,
      the character `FormattedChar` prescribes. */
  lemma {:induction false} FormatCategoryCharwise(s: string)
    ensures Charwise(s, FormatCategory(s))
    decreases |s|
  {
    if s != [] {
      var i := IndexOfChar(s, '-');
      if i < 0 {
        OneWordCase(s);
      } else {
        FormatCategoryCharwise(s[i + 1..]);
        ConsCase(s, i);
      }
    }
  }

  /** The first `c` in `a + b`, when `a` has none, is the first in `b`. */
  lemma {:induction false} IndexOfCharAfter(a: string, b: string, c: char)
    requires c !in a
    ensures IndexOfChar(a + b, c) == if IndexOfChar(b, c) < 0 then -1 else |a| + IndexOfChar(b, c)
  {
    if a == [] {
      assert a + b == b;
    } else {
      assert (a + b)[0] == a[0] != c;
      assert (a + b)[1..] == a[1..] + b;
      assert c !in a[1..] by { assert forall x :: x in a[1..] ==> x in a; }
      IndexOfCharAfter(a[1..], b, c);
    }
  }

  /** A two-word name is formatted as both words capitalised, joined by a
      space ("after-prayer" becomes "After Prayer"). */
  lemma FormatTwoWords(a: string, b: string)
    requires a != [] && '-' !in a && '-' !in b
    ensures FormatCategory(a + "-" + b) == Capitalize(a) + " " + Capitalize(b)
  {
    var s := a + "-" + b;
    assert s == a + ("-" + b) && s[..|a|] == a && s[|a| + 1..] == b;
    assert ("-" + b)[0] == '-';
    assert IndexOfChar("-" + b, '-') == 0;
    IndexOfCharAfter(a, "-" + b, '-');
    assert IndexOfChar(s, '-') == |a|;
    FormatFirstWord(s, |a|);
    assert Split(b, '-') == [b];
    assert MapCapitalize([b]) == [Capitalize(b)];
  }

  /** `formatCategory(activeDhikr.category || 'general')`. */
  function CategoryLabel(category: Option<string>): (r: string)
    ensures category.Some? && category.value != [] ==> r == FormatCategory(category.value)
    ensures category.None? || category.value == [] ==> r == FormatCategory("general")
  {
    FormatCategory(if category.Some? && category.value != [] then category.value else "general")
  }

  // ---------------------------------------------------------------------
  // The category menu's order

  const SortOrder: seq<string> := ["morning", "evening", "after-prayer", "quran", "general"]

  /** `sortOrder.indexOf(name.toLowerCase())`. */
  function Rank(name: string): (i: int)
    ensures -1 <= i < |SortOrder|
    ensures i >= 0 ==> SortOrder[i] == ToLower(name)
    ensures i < 0 <==> ToLower(name) !in SortOrder
  {
    IndexOf(SortOrder, ToLower(name))
  }

  /** The comparator: ranked names by rank, ranked before unranked, and the
      rest by `localeCompare`. */
  function Compare(a: string, b: string): (r: int)
    ensures Rank(a) >= 0 && Rank(b) >= 0 ==> r == Rank(a) - Rank(b)
    ensures Rank(a) >= 0 && Rank(b) < 0 ==> r < 0
    ensures Rank(a) < 0 && Rank(b) >= 0 ==> r > 0
    ensures Rank(a) < 0 && Rank(b) < 0 ==> (r <= 0 <==> StrLe(a, b))
  {
    var ia := Rank(a);
    var ib := Rank(b);
    if ia != -1 && ib != -1 then ia - ib
    else if ia != -1 then -1
    else if ib != -1 then 1
    else if StrLe(a, b) then (if a == b then 0 else -1) else 1
  }

  /** `a` may stand before `b` in the sorted menu. */
  predicate CategoryLe(a: string, b: string) {
    Compare(a, b) <= 0
  }

  lemma CategoryLeTotal()
    ensures IsTotal(CategoryLe)
  {
    forall a, b ensures CategoryLe(a, b) || CategoryLe(b, a) {
      StrLeTotal(a, b);
    }
  }

  lemma CategoryLeTransitive()
    ensures IsTransitive(CategoryLe)
  {
    forall a, b, c | CategoryLe(a, b) && CategoryLe(b, c) ensures CategoryLe(a, c) {
      if Rank(a) < 0 && Rank(b) < 0 && Rank(c) < 0 {
        StrLeTransitive(a, b, c);
      }
    }
  }

  /** `Object.keys(adhkarData).sort(cmp)`, or `[]` without data. */
  function AllCategories(keys: Option<seq<string>>): (r: seq<string>)
    ensures keys.None? ==> r == []
    ensures keys.Some? ==> multiset(r) == multiset(keys.value)
    ensures SortedBy(r, CategoryLe)
  {
    CategoryLeTotal();
    CategoryLeTransitive();
    if keys.None? then [] else
      SortBySorted(keys.value, CategoryLe);
      SortBy(keys.value, CategoryLe)
  }

  /** In the menu, the names of the fixed order come first and in that
      order; the others follow in string order. */
  lemma MenuOrder(keys: seq<string>, i: int, j: int)
    requires 0 <= i < j < |AllCategories(Some(keys))|
    ensures var r := AllCategories(Some(keys));
      (Rank(r[j]) >= 0 ==> Rank(r[i]) >= 0 && Rank(r[i]) <= Rank(r[j])) &&
      (Rank(r[i]) < 0 ==> Rank(r[j]) < 0 && StrLe(r[i], r[j]))
  {
    var r := AllCategories(Some(keys));
    assert CategoryLe(r[i], r[j]);
  }

  // ---------------------------------------------------------------------
  // The main tap

  datatype TapAction = ResetCategory | Increment

  /** `handleMainClick`: while Aameen shows, a tap restarts the category
      instead of counting. */
  function MainClick(showAameen: bool): (a: TapAction)
    ensures a == Increment <==> !showAameen
    ensures a == ResetCategory <==> showAameen
  {
    if showAameen then ResetCategory else Increment
  }
}
