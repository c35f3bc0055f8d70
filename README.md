# Tasbih app: the dhikr progress engine in Dafny

This project models the logic of a digital tasbih (dhikr counter) app
written as React hooks and handlers. The model covers:
- **the per-item counter**: a count persisted under `tasbih_count_<id>`, with
  increment, reset and the exact-target signal;
- **the category sequencer**: the active dhikr, the Aameen
  (category-complete) flag, selection, auto-advance on completion, the
  category restart that deletes the counter records, and cycling to the next
  category;
- **the catalog editor's mutations**: add, edit, rename category, delete
  category, delete item and move item;
- **the statistics aggregator**: the lifetime total, the per-day buckets, the
  daily streak, at most one milestone unlock per call and its toast, and the
  per-category breakdown;
- **the shipped data tables**: the catalog, the milestones, the thirty duas
  and the storage key namespace;
- **the pure helpers of the screens**:
  - the counter's target, remaining count, completion, label formatting and
    menu order;
  - the statistics screen's unlock display, labels, bar scales, seven-day
    window and row order;
  - the Gregorian to tabular Hijri conversion with Arabic-Indic numerals;
  - the countdown formatter, the reminder switch and the coordinate check;
  - the selection of prayer reminders;
  - the once-a-day dua prompt and the focus lock.

How the runtime is modelled:
- localStorage is a `map<string, string>`.
- A JSON record read back from storage is a `Stored<T>` (missing, corrupt
  or parsed).
- A JavaScript number that counts is `Num`: an integer or NaN.
- A JavaScript object used as the catalog is a key sequence in property
  order plus a map.
- Days are integer day numbers, so yesterday is `today - 1`.
- Clocks (`Date.now()`, today, the current instant) are parameters.

There is one module per source file (`Stats`, `Sequencer`, `CatalogEdits`,
`Counter`, `Milestones`, `Adhkar`, `CounterScreen`, `StatsScreen`,
`HijriDate`, `PrayerTimesScreen`, `Notifications`, `Duas`, `Keys`,
`AppShell`). Three further modules hold the JavaScript built-ins the code
relies on:
- `JsValues`: optional values, stored records, NaN arithmetic, the
  truncating `%`.
- `JsStrings`: `String(n)`, `parseInt`, `trim`, ASCII case mapping,
  `split`/`join` and string order.
- `JsArrays`: `findIndex`, `indexOf`, `filter` and a sort.

Stateful code is modelled as classes:
- `Counter.Tasbih` (the hook's count and its store);
- `Sequencer.Sequencer` (the context's selection, the counter records and
  the selection record);
- `Stats.StatsState` (the statistics hook's fields and the four records its
  effects write);
- `AppShell.Shell` (the app's view state).

Each method is specified by the functions on values that the lemmas are
about. Loops in the source are loops in the model:
- the `forEach` that deletes counter records (`Sequencer.DeleteCounts`);
- the `forEach` that strips an edited item from every category
  (`CatalogEdits.StripAll`);
- the `forEach` that builds the reminder list (`Notifications.BuildSchedule`).

Behaviours of the code worth knowing, all modelled as written:
- **Add and edit put the item first** in its list.
- **Rename writes over a category already under the new key**, instead of
  refusing, and does not re-point the active selection.
- **Deleting a category does not repair an active selection** in it. Such a
  selection then completes at once (`Sequencer.CompleteWhenMissing`).
- **A call crossing two thresholds records only the lower one**
  (`Stats.OneMilestonePerCall`).

## Model

| member | source | states |
|---|---|---|
| Keys.CountKey | src/constants/keys.js:18 | an item's counter record is the counter prefix followed by the id, strictly longer than the prefix |
| Keys.FixedKeysDistinct | src/constants/keys.js:4-19 | the nine fixed record names are pairwise distinct |
| Keys.NoFixedKeyIsCountKey | src/constants/keys.js:5-18 | no fixed record name starts with the counter prefix, so no counter record is ever a fixed record |
| Keys.CountKeyInjective | src/constants/keys.js:18 | two ids share a counter record exactly when they are equal |
| Counter.StorageKey | src/hooks/useTasbih.js:5 | the hook's own key is the record of the shared counter namespace, the one the reset deletes and the breakdown reads |
| Counter.InitialCount | src/hooks/useTasbih.js:7-12 | without a truthy id, or without a saved record, the count starts at the initial count; otherwise it is `parseInt` of the saved text, possibly NaN |
| Counter.Persist | src/hooks/useTasbih.js:14-19 | the count's text is written under the item's record, and nothing is written without a truthy id |
| Counter.ReloadReadsBack | src/hooks/useTasbih.js:10-17 | what the effect wrote is read back unchanged on the next mount, NaN included |
| Counter.PersistOnlyOwnRecord | src/hooks/useTasbih.js:14-19 | persisting one item's count leaves every other item's record as it was |
| Counter.Tasbih.constructor | src/hooks/useTasbih.js:7-19 | the count is loaded once and the store then holds it under the item's key |
| Counter.Tasbih.Increment | src/hooks/useTasbih.js:37-45 | the count grows by exactly one and is persisted; the target is signalled only when a truthy target is hit exactly, never past it |
| Counter.Tasbih.Reset | src/hooks/useTasbih.js:47-48 | the count becomes 0 and is persisted |
| Counter.Tasbih.ChangeId | src/hooks/useTasbih.js:7-19 | a re-render for another item takes that item's id and target, but storage is not read again: the count in memory is written under the new item's record and checked against the new target |
| Milestones.TableAscending | src/data/milestones.js:2-51 | eight thresholds, strictly ascending from 100 to 100000 |
| Milestones.Find | src/data/milestones.js:55 | `find`: the first element passing the test, or none when no element does |
| Milestones.FindLowest | src/data/milestones.js:55 | on ascending thresholds, the element found is the lowest one that passes the test |
| Milestones.NextMilestone | src/data/milestones.js:54-56 | the lowest threshold above the count that is not yet celebrated; none exactly when every threshold above the count is celebrated |
| Milestones.UnlockedMilestones | src/data/milestones.js:59-61 | exactly the milestones whose threshold is at most the count |
| Milestones.UnlockedIsPrefix | src/data/milestones.js:59-61 | the unlocked list is a prefix of the table, and every milestone after it lies above the count |
| Milestones.UnlockedMonotone | src/data/milestones.js:59-61 | a larger count unlocks a list that extends the smaller count's list |
| Adhkar.Get | src/context/AdhkarContext.jsx:39 | `obj[k] \|\| []`: a category's list, empty for a missing category |
| Adhkar.Put | src/components/AdhkarList.jsx:194 | `{ ...obj, [k]: v }` keeps the catalog well formed; an existing key keeps its place and a new key is added last |
| Adhkar.Remove | src/components/AdhkarList.jsx:244-245 | `delete` on a copy drops only that key; the other keys keep their order |
| Adhkar.InitialShape | src/data/adhkar.js:2-50 | the shipped catalog is well formed, its key order is morning, evening, after-prayer, quran, general, no category is empty, and the first item is 101 |
| Adhkar.InitialItems | src/data/adhkar.js:3-49 | every shipped item has a target of at least 1 and no category field |
| Adhkar.InitialIdsUnique | src/data/adhkar.js:3-49 | no id occurs twice anywhere in the shipped catalog |
| Adhkar.MetaMatchesCatalog | src/data/adhkar.js:52-58 | the category metadata has exactly the catalog's keys, in the same order |
| Sequencer.Tagged | src/context/AdhkarContext.jsx:18 | `{ ...item, category }` keeps the id and the target and records the category |
| Sequencer.FirstSelection | src/context/AdhkarContext.jsx:14-21 | with nothing stored, the first item of the first category, tagged with it, when that category has items |
| Sequencer.FreshInstallSelection | src/context/AdhkarContext.jsx:14-21 | on the shipped catalog the first selection is item 101 in "morning" |
| Sequencer.Fallback | src/context/AdhkarContext.jsx:69 | the exposed fallback is the first item of the first list, without a category |
| Sequencer.Complete | src/context/AdhkarContext.jsx:36-46 | a no-op without a selection; the selection stays a selection; raising Aameen never moves it |
| Sequencer.CompleteAdvances | src/context/AdhkarContext.jsx:40-45 | on item j of a category, completion moves to item j+1 with the flag untouched; on the last item it raises Aameen and stays |
| Sequencer.CompleteWhenMissing | src/context/AdhkarContext.jsx:40-45 | an active id not found in its category's list raises Aameen at once and keeps the selection |
| Sequencer.CompleteWalk | src/context/AdhkarContext.jsx:36-46 | from a category's first item, j completions sit on item j; the n-th completion of an n-item category raises Aameen on the last item |
| Sequencer.NextCategory | src/context/AdhkarContext.jsx:61-63 | the category after the active one, cyclically; an unknown or missing category leads to the first; none with no categories |
| Sequencer.NextCategoryCycles | src/context/AdhkarContext.jsx:61-63 | m moves from the i-th of n distinct categories land on category (i+m) mod n, and n moves return to the start |
| Sequencer.Next | src/context/AdhkarContext.jsx:59-67 | a no-op without a selection; otherwise Aameen is cleared, and the first item of the next category is selected when it has one |
| Sequencer.ResetSelection | src/context/AdhkarContext.jsx:48-57 | back to the category's first item with Aameen cleared; nothing changes without a selection or for an empty category |
| Sequencer.DeleteCounts | src/context/AdhkarContext.jsx:53 | the loop removes exactly the counter records of the listed items from the store |
| Sequencer.ResetSparesFixedKeys | src/context/AdhkarContext.jsx:53 | a category reset never deletes one of the app's fixed records |
| Sequencer.ResetRestartsCounters | src/context/AdhkarContext.jsx:53 | after a reset, every item of the category starts again from the initial count on its next mount |
| Sequencer.MountSelection | src/context/AdhkarContext.jsx:10-21 | the stored selection when there is one, and the first selection when the record is missing or null |
| Sequencer.ReloadRestoresSelection | src/context/AdhkarContext.jsx:10-21 | mounting again from the written selection record gives the same selection; no selection is written only when there is nothing to select, and then none is selected again |
| Sequencer.Sequencer.constructor | src/context/AdhkarContext.jsx:9-21 | the mount selection with Aameen off; the selection record then holds it, and no selection means nothing can be selected |
| Sequencer.Sequencer.SelectDhikr | src/context/AdhkarContext.jsx:23-26 | selects the item, clears Aameen and writes the item to the selection record; counter records are untouched |
| Sequencer.Sequencer.SelectCategory | src/context/AdhkarContext.jsx:28-34 | a non-empty category selects its first item, tagged, clears Aameen and writes the selection record; an empty or missing one changes nothing |
| Sequencer.Sequencer.HandleDhikrComplete | src/context/AdhkarContext.jsx:36-46 | the state moves as `Complete` says, the selection record follows it, and no counter record is touched |
| Sequencer.Sequencer.HandleResetCategory | src/context/AdhkarContext.jsx:48-57 | deletes the counter records of the active category's items and no other text record, then restarts it as `ResetSelection` says and writes the restarted selection to its record |
| Sequencer.Sequencer.HandleNextDhikr | src/context/AdhkarContext.jsx:59-67 | the state moves as `Next` says, the selection record follows it, and no counter record is touched |
| Sequencer.Sequencer.SafeActiveDhikr | src/context/AdhkarContext.jsx:69 | the selection when there is one, and the fallback otherwise |
| CatalogEdits.ResolveCategory | src/components/AdhkarList.jsx:173-178 | "custom" with a non-blank input gives the input trimmed and lower-cased, with a blank input "general"; any other choice is kept |
| CatalogEdits.ParsedCount | src/components/AdhkarList.jsx:187 | `parseInt(count) \|\| 33`: never 0; 33 for NaN and for 0; otherwise the parsed number |
| CatalogEdits.ParsedCountRoundTrip | src/components/AdhkarList.jsx:187 | a non-zero target shown in the form is saved back unchanged |
| CatalogEdits.SavedItem | src/components/AdhkarList.jsx:187 | the saved item carries the given id, the form's texts, the parsed target and the resolved category |
| CatalogEdits.AddItem | src/components/AdhkarList.jsx:193-194 | the item goes first in its category, which is created last when missing; no other category changes |
| CatalogEdits.AddOccurrences | src/components/AdhkarList.jsx:193-194 | adding puts one more copy of the new id in the catalog and changes no other id's count; ids stay unique exactly when the new id was unused |
| CatalogEdits.RemoveFirst | src/components/AdhkarList.jsx:184-185 | `splice` at the found index: when the id occurs, the list without its first occurrence, the rest in order; one copy fewer of the id and no other id's count changed; the list unchanged otherwise |
| CatalogEdits.Stripped | src/components/AdhkarList.jsx:183-186 | every category loses its first item carrying the id, and the key order is kept |
| CatalogEdits.StripAll | src/components/AdhkarList.jsx:183-186 | the category-by-category loop computes exactly `Stripped` |
| CatalogEdits.Edited | src/components/AdhkarList.jsx:181-191 | the target list is the updated item followed by that list without its first copy of the id; every other list only loses its first copy of the id; the key order is kept, with the target key added last when it is new |
| CatalogEdits.EditItem | src/components/AdhkarList.jsx:181-191 | the edit branch's loop and insertion compute exactly `Edited` |
| CatalogEdits.EditedOccurrences | src/components/AdhkarList.jsx:181-191 | with unique ids before the edit, the edited id occurs exactly once afterwards and every other id's count is unchanged |
| CatalogEdits.SaveDhikr | src/components/AdhkarList.jsx:171-201 | blank text changes nothing; otherwise a truthy editing id edits and anything else adds with id `now`; the tab switches to the resolved category |
| CatalogEdits.Retag | src/components/AdhkarList.jsx:229 | every item of the list, in order, gets the new key as its category |
| CatalogEdits.RenameCategory | src/components/AdhkarList.jsx:217-238 | no-op for a blank input, an input equal to the old key or a missing old key; otherwise the old key is gone, the retagged list sits under the new key, other keys are untouched, and the key order is the old one with the new key kept in its place or added last, and the old key dropped |
| CatalogEdits.SaveCategoryRename | src/components/AdhkarList.jsx:217-238 | the catalog changes as `RenameCategory` says; the active tab is left alone exactly when the guard returns early, and otherwise becomes the normalised key, which names a category afterwards exactly when it differs from the old key |
| CatalogEdits.RenamedTabDeletes | src/components/AdhkarList.jsx:224-235 | after renaming an existing category, `DeleteItem` on the new tab succeeds exactly when the normalised key differs from the old key; otherwise the tab names a deleted category, shows an empty list and `DeleteItem` on it is None |
| CatalogEdits.RenameToSameKeyDeletes | src/components/AdhkarList.jsx:218-230 | renaming "morning" with the input "Morning" deletes its ten items |
| CatalogEdits.RenameCategoryIntended | src/components/AdhkarList.jsx:217-238 | the rename with the self-rename case guarded: an input that is blank, equal to the old key or normalising to it leaves the catalog equal to what it was; any other input renames exactly as the code does |
| CatalogEdits.RenameIntendedKeepsItems | src/components/AdhkarList.jsx:224-230 | the corrected rename keeps the category under the new key: the same list when the key is unchanged (and then the whole catalog is unchanged), otherwise exactly the old items retagged with the new key; the old key is gone and no other key changes |
| CatalogEdits.DeleteCategory | src/components/AdhkarList.jsx:243-247 | only that category disappears; the others keep their lists and their order |
| CatalogEdits.ConfirmDeleteCategory | src/components/AdhkarList.jsx:240-251 | unconfirmed, nothing changes; confirmed, the category is deleted and the active tab becomes "general" |
| CatalogEdits.DeletedTabDeletes | src/components/AdhkarList.jsx:243-248 | after a confirmed delete, `DeleteItem` on the tab succeeds exactly when another category than "general" was deleted and "general" exists; otherwise the tab shows an empty list and `DeleteItem` on it is None |
| CatalogEdits.DeleteItem | src/components/AdhkarList.jsx:265-273 | the active tab's list becomes its `filter` by a different id: the items with another id, in order and with their multiplicity; other tabs and the key order are unchanged; a tab that does not exist is an error |
| CatalogEdits.Swap | src/components/AdhkarList.jsx:285-287 | the two positions are exchanged, the rest stays, and the multiset of items is kept |
| CatalogEdits.Moved | src/components/AdhkarList.jsx:283-288 | the item changes place with its neighbour above or below, keeping length and items; a no-op at either end |
| CatalogEdits.MoveItem | src/components/AdhkarList.jsx:280-291 | only the active tab's list changes, as `Moved` says; a move past either end leaves the catalog as it was |
| CatalogEdits.MoveDownThenUp | src/components/AdhkarList.jsx:280-291 | moving an item down and then back up restores the catalog |
| Stats.NextStreak | src/hooks/useStats.js:63-83 | same day keeps the streak, the next day adds one, any other day restarts at 1; today becomes the last date; the best is the larger of the old best and the new streak |
| Stats.StreakIsRunOfDays | src/hooks/useStats.js:63-83 | for taps in date order, the streak is the length of the run of consecutive active days ending on the last active day, and the best is never below it |
| Stats.FindUnlockable | src/hooks/useStats.js:44-46 | the first table entry passed and not yet recorded; on ascending thresholds nothing lower qualifies |
| Stats.Unlock | src/hooks/useStats.js:44-46 | the lowest threshold the new total has passed that is not yet recorded, none when there is no such threshold, and none for a NaN total |
| Stats.ReachedAfter | src/hooks/useStats.js:47-48 | the recorded list only grows, by at most one threshold |
| Stats.ToastAfter | src/hooks/useStats.js:47-49 | the toast becomes the milestone unlocked, whose threshold is then recorded; with none unlocked the old toast stays |
| Stats.ReachedStaysSound | src/hooks/useStats.js:44-48 | the recorded list never holds a duplicate or a threshold above the total, and growing totals keep it so |
| Stats.TapKeepsExactlyReached | src/hooks/useStats.js:44-48 | counting one at a time, the recorded list is always exactly the thresholds passed so far |
| Stats.OneMilestonePerCall | src/hooks/useStats.js:44-49 | a call that takes the total from 0 to 600 records only 100; 500 waits for a later call |
| Stats.DayCount | src/hooks/useStats.js:59 | `prev[day] \|\| 0`: the day's total, 0 when missing |
| Stats.ReadCount | src/hooks/useStats.js:96 | an item's stored count, and 0 when there is no record |
| Stats.ReadsCounterRecord | src/hooks/useStats.js:96 | the breakdown reads exactly the count the counter hook persisted |
| Stats.TotalOfUnstored | src/hooks/useStats.js:95-97 | items none of whose counts is stored sum to 0 |
| Stats.TotalAfterReset | src/hooks/useStats.js:95-97 | after a category reset its items sum to 0 |
| Stats.BreakdownOf | src/hooks/useStats.js:93-99 | an entry for a category exactly when its items' stored counts sum to a positive number, with that sum |
| Stats.Breakdown | src/hooks/useStats.js:89-103 | the breakdown computed from the current store: the same over the stored catalog, and no entries for a missing or unreadable catalog |
| Stats.ResetCategoryLeavesBreakdown | src/hooks/useStats.js:93-98 | the breakdown computed after a category reset has no entry for that category |
| Stats.LoadLifetime | src/hooks/useStats.js:9-11 | an absent lifetime record reads as 0 |
| Stats.ReloadRestoresLifetime | src/hooks/useStats.js:10-31 | the lifetime record written as `String(lifetimeCount)` reads back as the same total on the next mount, NaN included |
| Stats.AddToDay | src/hooks/useStats.js:57-60 | today's bucket exists afterwards and grows by exactly the amount; no other day changes |
| Stats.StatsState.constructor | src/hooks/useStats.js:9-34 | each record loads from storage, with the defaults 0, [], {} and the empty streak when missing or unreadable; no toast; the effects then write all four records back |
| Stats.StatsState.RecordCount | src/hooks/useStats.js:31-84 | the lifetime total grows by the amount, milestones and toast follow `ReachedAfter` and `ToastAfter`, only today's bucket moves, the streak folds today in, and the four records are rewritten with the new values |
| Stats.StatsState.AddToLifetime | src/hooks/useStats.js:31-54 | the lifetime updater with its milestone check, writing the lifetime and milestone records; the per-day buckets and the streak are untouched |
| Stats.StatsState.TodayCount | src/hooks/useStats.js:86 | today's bucket, or 0 |
| Stats.StatsState.DismissMilestoneToast | src/hooks/useStats.js:114 | clears the toast and nothing else; no record is written |
| CounterScreen.TargetCount | src/components/TasbihCounter.jsx:9 | the item's target, or 33 when it is missing or 0; never 0 |
| CounterScreen.Remaining | src/components/TasbihCounter.jsx:16 | never negative; the target minus the count up to the target, 0 beyond it; NaN propagates |
| CounterScreen.CompleteIffNothingRemains | src/components/TasbihCounter.jsx:16-17 | complete exactly when nothing remains |
| CounterScreen.CompleteFirstAtTarget | src/components/TasbihCounter.jsx:17 | counting up one at a time, completion first holds on the tap that reaches a positive target |
| CounterScreen.FormatCategoryCharwise | src/components/TasbihCounter.jsx:19-22 | the label has the name's length; each dash becomes a space, each word's first letter is upper-cased, and the other characters are kept |
| CounterScreen.FormatTwoWords | src/components/TasbihCounter.jsx:19-22 | a two-word name becomes both words capitalised, joined by a space ("after-prayer" gives "After Prayer") |
| CounterScreen.CategoryLabel | src/components/TasbihCounter.jsx:24-25 | the active item's category formatted, with "general" when it has none |
| CounterScreen.Rank | src/components/TasbihCounter.jsx:37-40 | a name's place in the fixed order, case-insensitively, and -1 for a name outside it |
| CounterScreen.Compare | src/components/TasbihCounter.jsx:38-45 | ranked names by rank and before unranked ones; unranked names by string order |
| CounterScreen.CategoryLeTotal | src/components/TasbihCounter.jsx:38-45 | any two names are ordered one way or the other |
| CounterScreen.CategoryLeTransitive | src/components/TasbihCounter.jsx:38-45 | the menu order is transitive |
| CounterScreen.AllCategories | src/components/TasbihCounter.jsx:38-45 | the menu is a permutation of the catalog's keys, sorted by the comparator, and empty without data |
| CounterScreen.MenuOrder | src/components/TasbihCounter.jsx:37-45 | in the menu the fixed-order names come first and in that order; the others follow in string order |
| CounterScreen.MainClick | src/components/TasbihCounter.jsx:110-116 | a tap while Aameen shows restarts the category and does not count; otherwise it counts |
| StatsScreen.SameLabelAsCounter | src/components/StatsView.jsx:7 | the statistics screen labels a category exactly as the counter screen does |
| StatsScreen.ShownIffReached | src/components/StatsView.jsx:167 | while the recorded list is exactly the thresholds passed, a card shows unlocked exactly when the total reached its threshold |
| StatsScreen.ThresholdsRound | src/components/StatsView.jsx:195 | every threshold is below 1000 or a whole number of thousands, so its label is a whole number |
| StatsScreen.LabelsDistinct | src/components/StatsView.jsx:195 | different thresholds get different labels, and a label ends in "k" exactly for thresholds of 1000 and more |
| StatsScreen.MaxOr1 | src/components/StatsView.jsx:28 | `Math.max(...xs, 1)`: at least 1, at least every element, and 1 or an element |
| StatsScreen.MaxCatCount | src/components/StatsView.jsx:5 | at least 1 and at least every category total, so no bar width divides by zero |
| StatsScreen.WeekDays | src/components/StatsView.jsx:18-27 | seven bars for the days from six days ago to today, oldest first, each with that day's total or 0; only the last is today's |
| StatsScreen.MaxWeekCount | src/components/StatsView.jsx:28 | at least 1 and at least every bar's count |
| StatsScreen.Rows | src/components/StatsView.jsx:132 | the breakdown's entries as a permutation with larger totals first, empty exactly when the breakdown is |
| HijriDate.ToArabicNum | src/hooks/useHijriDate.js:9-12 | the decimal digits of the magnitude, each replaced by the Arabic-Indic digit of the same value at the same position, and no sign |
| HijriDate.ArabicNumInjective | src/hooks/useHijriDate.js:9-12 | two numbers are written alike exactly when their magnitudes are equal |
| HijriDate.FebruaryBeforeJanuary | src/hooks/useHijriDate.js:20-23 | as written, the day number of 2000-02-01 is below that of 2000-01-31 |
| HijriDate.MarchSkipsADay | src/hooks/useHijriDate.js:20-23 | as written, 2000-02-29 is day 2451604 and 2000-03-01 is day 2451606, so a day number is skipped |
| HijriDate.AsWrittenOffsets | src/hooks/useHijriDate.js:20-23 | as written, in 2000 January is two days above the correct number, February is exact, and March to December are one day above |
| HijriDate.JulianDayConsecutive | src/hooks/useHijriDate.js:20-23 | with the month term truncated, consecutive dates get consecutive numbers: within a month, across every month end (February with 29 days in leap years and 28 otherwise), and across the year end; 2000-01-01 is day 2451545 |
| HijriDate.CycleDay | src/hooks/useHijriDate.js:26-28 | the reduced day lies in 355..10985 for every day number |
| HijriDate.CycleYear | src/hooks/useHijriDate.js:29-30 | the product terms choose one linear estimate per half of the cycle, giving a year of 1..15 or 16..30 |
| HijriDate.YearDay | src/hooks/useHijriDate.js:31-32 | the day within the year lies in 30..384 |
| HijriDate.HijriOf | src/hooks/useHijriDate.js:26-35 | every day number gives a month in 1..12 and a day in 1..30 |
| HijriDate.GregorianToHijri | src/hooks/useHijriDate.js:14-38 | the conversion on the corrected day number gives a valid month and day |
| HijriDate.GregorianToHijriAsWritten | src/hooks/useHijriDate.js:14-38 | the conversion as written also always gives a valid month and day |
| HijriDate.MonthIndex | src/hooks/useHijriDate.js:45 | the clamped index is always a valid index of the month names and equals month - 1 for a valid month |
| HijriDate.HijriFor | src/hooks/useHijriDate.js:40-65 | the clamp never binds, so the name is that of the month; Ramadan iff month 9, Dhu al-Hijjah iff 12, special iff 7, 9 or 12; the Arabic text is day, name, year and the era mark |
| PrayerTimesScreen.Split | src/components/PrayerTimesView.jsx:16-19 | hours, minutes and seconds with minutes and seconds below 60 that add back up to the total |
| PrayerTimesScreen.SplitUnique | src/components/PrayerTimesView.jsx:16-19 | that decomposition is the only one |
| PrayerTimesScreen.FormatCountdown | src/components/PrayerTimesView.jsx:14-23 | empty without a positive span; otherwise hours and minutes, minutes and seconds, or seconds, as the largest non-zero unit decides |
| PrayerTimesScreen.CountdownShownWhenPositive | src/components/PrayerTimesView.jsx:14-23 | a positive span always shows something, "0s" below a second |
| PrayerTimesScreen.FormatTime | src/components/PrayerTimesView.jsx:9-12 | "--:--" without a time, the locale text otherwise |
| PrayerTimesScreen.Toggle | src/components/PrayerTimesView.jsx:47-53 | the prayer becomes true exactly when it was explicitly false; other prayers keep their entries |
| PrayerTimesScreen.ToggleFlipsReminder | src/components/PrayerTimesView.jsx:48-53 | the switch flips whether the scheduler sees the prayer as enabled and leaves every other prayer alone |
| PrayerTimesScreen.ManualSubmit | src/components/PrayerTimesView.jsx:57-67 | accepted exactly for two numbers within the inclusive bounds; the rejection message otherwise; the city is the trimmed input, or none when blank |
| Notifications.NoticeIds | src/hooks/useNotifications.js:5-11 | the five prayers have ids 1 to 5 and are distinct |
| Notifications.Selected | src/hooks/useNotifications.js:30-54 | an entry exactly for each prayer that is enabled, has a time and whose time plus five minutes is after now |
| Notifications.SelectedEntries | src/hooks/useNotifications.js:30-54 | every entry is five minutes after its prayer's time and after now, with its prayer's fixed id and category; the ids increase |
| Notifications.BuildSchedule | src/hooks/useNotifications.js:27-54 | the `forEach` builds exactly the selected list |
| Notifications.AllIds | src/hooks/useNotifications.js:23-25 | the cancelled ids are 1 to 5 |
| Notifications.ScheduleNotifications | src/hooks/useNotifications.js:14-62 | nothing without a native platform, times or settings; only the permission request without permission; otherwise all five ids are cancelled and the list is scheduled when non-empty |
| Notifications.ScheduledWereCancelled | src/hooks/useNotifications.js:23-54 | every scheduled id is among the cancelled ones |
| Duas.TableSize | src/data/duas.js:2-153 | thirty duas |
| Duas.DuaIndex | src/data/duas.js:162 | `dayOfYear % 30` with JavaScript's remainder; in range for a non-negative day |
| Duas.TodaysDua | src/data/duas.js:156-163 | a non-negative day shows entry day mod 30 of the table |
| Duas.Periodic | src/data/duas.js:162 | days thirty apart show the same dua |
| Duas.NextDayNextDua | src/data/duas.js:162 | the next day shows the next dua, wrapping after the thirtieth |
| AppShell.OfferCases | src/App.jsx:30-42 | switched off means no offer; no settings and no record means an offer; today's key already stored means no offer |
| AppShell.Shell.constructor | src/App.jsx:23-42 | launch on the counter view, unlocked, with the dua card exactly when it is enabled and not yet shown today |
| AppShell.Shell.DismissDua | src/App.jsx:44-47 | hides the card and stores today's key, after which no launch that day offers it, whatever the setting |
| AppShell.Shell.ToggleFocusLock | src/App.jsx:59 | flips the lock; the bottom navigation is visible exactly while unlocked |
| AppShell.Shell.SetView | src/App.jsx:84 | the bottom navigation changes the view and nothing else; the screen drawn is then the new view's, or none for the counter view without an active dhikr |
| AppShell.Shell.DrawnScreen | src/App.jsx:55-81 | exactly one screen, the current view's, is drawn, except that the counter view draws nothing without an active dhikr; the counter is drawn exactly on the counter view with an active dhikr |
| JsValues.LoadOr | src/hooks/useStats.js:13-16 | a parsed record gives its value; a missing or unreadable one gives the fallback |
| JsValues.Plus | src/hooks/useStats.js:41 | adding to a number grows it by exactly the amount; NaN stays NaN |
| JsValues.JsRem | src/context/AdhkarContext.jsx:63 | JavaScript's `%`: the Euclidean remainder for a non-negative dividend and never positive for a negative one |
| JsStrings.ParseShowNum | src/hooks/useTasbih.js:11 | `parseInt` of what `toString` wrote is the number again, NaN included |
| JsStrings.ShowIntInjective | src/constants/keys.js:18 | distinct integers print differently |
| JsStrings.BlankIffAllWhitespace | src/components/AdhkarList.jsx:172 | a text is blank after `trim` exactly when every character is whitespace |
| JsStrings.ToLowerIdempotent | src/components/AdhkarList.jsx:175 | lower-casing twice is lower-casing once |
| JsArrays.FilterAppend | src/components/AdhkarList.jsx:269 | `filter` of a concatenation is the concatenation of the filtered parts, so it keeps the order |
| JsArrays.FilterSingleton | src/components/AdhkarList.jsx:269 | a single element is kept exactly when it passes the test |
| JsArrays.SortBySorted | src/components/TasbihCounter.jsx:38 | the sort orders its result by any total, transitive comparator |

## Left out

- Rendering, styles, animation and icons are not modelled. The display texts are left out as well: the Arabic adhkar and translations, the dua texts, the milestone names, icons and quotes, and the notification titles and bodies. Ids, targets, thresholds and dua references are kept.
- Haptics, `setTimeout` delays and the notification plugin's asynchronous calls are not modelled. Delayed actions are separate, immediate events: the 500 ms completion is `HandleDhikrComplete`, the 5 s toast clear is `DismissMilestoneToast` and the 800 ms dua card is the constructor's flag.
- The completion effect itself (src/components/TasbihCounter.jsx:47-54) is not a member. It calls the `onComplete` prop, when one is passed, whenever `CounterScreen.IsComplete` holds.
- `Date`, `toISOString`, `toDateString` and `toLocale*` are not modelled: days are integers and times are given. The derivation of `dayOfYear` from milliseconds (src/data/duas.js:157-161) is not modelled either; it is an input.
- JSON text is not modelled. Records are parsed or not (`Stored`), and the `duaOnLaunch` setting arrives already parsed.
- `parseFloat` and floating point are not modelled. Coordinates arrive as reals or NaN, and the bar widths and percentages are left out.
- `localeCompare` is code-point order. The comparator is otherwise the source's.
- Case mapping covers ASCII letters only; other letters are unchanged.
- `Array.prototype.sort` is an insertion sort. The contracts state what any correct sort gives: a permutation, ordered by the comparator.
- JavaScript orders integer-like object keys first; category names are taken as non-numeric.
- Prayer-time computation, geolocation, the Qibla compass, settings backup and restore, and the settings wrapper are not part of this model. Of the storage hook (src/hooks/useLocalStorage.js) the model keeps the read at mount and the write after each change, but not its try/catch. Prayer times are an input map.
- The handlers at src/components/AdhkarList.jsx:32-131 are not modelled: they are never reached, since `AdhkarList` renders `AdhkarListFixed`.
- `window.confirm` is not modelled: the user's answer is the `confirmed` parameter of `CatalogEdits.ConfirmDeleteCategory`. The rename dialog's open and close flags are not modelled either.
- Component wiring is not modelled end to end, and the units here do not make up a working tap-to-stats pipeline. In this snapshot, src/App.jsx:56-61 passes `TasbihCounter` neither `activeDhikr` nor any handler it declares (src/components/TasbihCounter.jsx:8), so line 9 there reads `.count` of undefined. src/App.jsx:64 passes `AdhkarList` no catalog, so src/components/AdhkarList.jsx:301 indexes undefined. `recordCount` is never called. Each unit is modelled as its own code reads, with its inputs as parameters. React's render scheduling is not modelled.
- Stats.Breakdown: computed from the current store. The source caches it with `useMemo` keyed on the lifetime total, so after a category reset or a catalog edit the screen keeps showing the old entries until the lifetime total next changes. `Stats.ResetCategoryLeavesBreakdown` is about a fresh computation.
- JavaScript number precision is not modelled. `Num` is an unbounded integer and `String(n)` prints every digit, while JavaScript numbers lose exactness above 2^53 and print in exponent form from 1e21 on. So `Counter.ReloadReadsBack`, `JsStrings.ParseShowNum` and `Stats.ReloadRestoresLifetime` are exact only below those sizes.
- There is one localStorage, but each class keeps its own copy of it. The `Counter.Tasbih`, `Sequencer.Sequencer`, `Stats.StatsState` and `AppShell.Shell` classes do not share one map. JSON records are kept decoded beside the text records (`savedSelection`, `savedReached`, `savedDaily`, `savedStreak`). The catalog record is written by the editor's state, which is the catalog value `CatalogEdits` returns.
- CatalogEdits.SaveDhikr, CatalogEdits.SaveCategoryRename, CatalogEdits.ConfirmDeleteCategory: the `initialCategory` prop is taken as absent, as src/App.jsx:64 passes it, so the editor starts on "general" (src/components/AdhkarList.jsx:151) and the tab each handler returns is the one shown. With the prop set, the editor would start on it, and the effect at src/components/AdhkarList.jsx:159-163 would send the tab back to it after every catalog change these handlers make.
- Sequencer.Sequencer: its catalog is fixed for the object's lifetime. The provider also exposes `setAdhkarData` (src/context/AdhkarContext.jsx:73), which no method models. `Valid`'s clause that a missing selection means nothing can be selected depends on that: in the source, a null selection stays null when items are added later, since the selection is set only at mount.
- Sequencer.DeleteCounts, CatalogEdits.StripAll: the source updates storage and the copied catalog's arrays in place. The model computes the new store or catalog as a value that the caller assigns, so it does not capture aliasing with the previous state's arrays.
- Stats.StatsState.AddToLifetime: checks milestones against the recorded list at the time of the call. The source's callback reads the list captured at its last render, which can lag behind within one render.
- CatalogEdits.MoveItem: requires the index to be a rendered row of the active tab. No other index can be passed from the screen.
- StatsScreen.ThresholdLabel: defined only for thresholds that are below 1000 or whole thousands, which every table threshold is (`StatsScreen.ThresholdsRound`). Other values would show a fraction.
- HijriDate.GregorianToHijri: requires a month of 1 to 12, the only months a `Date` yields.

## Findings

| source | as written | input that shows it | evidently intended | confidence | as-written member | corrected member |
|---|---|---|---|---|---|---|
| src/components/AdhkarList.jsx:218-231 | the guard compares the raw input with the old key, but the list is written under the trimmed, lower-cased input and then the old key is deleted | renaming "morning" with the input "Morning": the new key equals the old key, so the fresh copy is deleted and the ten items are lost | an input that normalises to the old key changes nothing | high (not executed) | CatalogEdits.RenameToSameKeyDeletes | CatalogEdits.RenameIntendedKeepsItems |
| src/hooks/useHijriDate.js:20-23 | `Math.floor((M - 14) / 12)` floors a negative quotient: -2 in January instead of -1, and -1 from March to December instead of 0; only February is exact | 2000-02-01 gets day 2451576 and 2000-01-31 gets day 2451577; 2000-02-29 gets day 2451604 and 2000-03-01 gets day 2451606 | the integer formula's truncating division, giving consecutive day numbers | high (not executed) | HijriDate.FebruaryBeforeJanuary | HijriDate.JulianDayConsecutive |
