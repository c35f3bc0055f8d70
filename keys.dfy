/** The localStorage key namespace of the app. */
module Keys {
  import opened JsStrings

  const ThemeDark := "tasbih_theme_dark"
  const Settings := "tasbih_settings"
  const AdhkarData := "tasbih_adhkar_data"
  const ActiveDhikr := "tasbih_last_active_dhikr"
  const DuaLastShown := "tasbih_dua_last_shown"
  const LifetimeCount := "tasbih_lifetime_count"
  const Milestones := "tasbih_milestones_reached"
  const DailyStats := "tasbih_daily_stats"
  const Streak := "tasbih_streak"

  /** Prefix of the per-item counter records; the item id follows it. */
  const CountPrefix := "tasbih_count_"

  const FixedKeys: seq<string> :=
    [ThemeDark, Settings, AdhkarData, ActiveDhikr, DuaLastShown,
     LifetimeCount, Milestones, DailyStats, Streak]

  /** `${COUNT_PREFIX}${id}`: the record that holds the count of item `id`. */
  function CountKey(id: int): (k: string)
    ensures CountPrefix <= k && |k| > |CountPrefix|
  {
    CountPrefix + ShowInt(id)
  }

  /** The fixed keys are pairwise distinct. */
  lemma FixedKeysDistinct()
    ensures forall i, j :: 0 <= i < j < |FixedKeys| ==> FixedKeys[i] != FixedKeys[j]
  {
    forall i, j | 0 <= i < j < |FixedKeys| ensures FixedKeys[i] != FixedKeys[j] {
      assert |FixedKeys[i]| != |FixedKeys[j]| || FixedKeys[i][7] != FixedKeys[j][7]
        || FixedKeys[i][8] != FixedKeys[j][8] || FixedKeys[i][14] != FixedKeys[j][14];
    }
  }

  /** No fixed key starts with the counter prefix, so no counter record can
      overwrite or delete a fixed record. */
  lemma NoFixedKeyIsCountKey(id: int)
    ensures forall i :: 0 <= i < |FixedKeys| ==> !(CountPrefix <= FixedKeys[i])
    ensures CountKey(id) !in FixedKeys
  {
    forall i | 0 <= i < |FixedKeys| ensures !(CountPrefix <= FixedKeys[i]) {
      assert |FixedKeys[i]| < |CountPrefix| || FixedKeys[i][7] != CountPrefix[7];
    }
  }

  /** Distinct ids have distinct counter records. */
  lemma CountKeyInjective(a: int, b: int)
    ensures CountKey(a) == CountKey(b) <==> a == b
  {
    if CountKey(a) == CountKey(b) {
      assert ShowInt(a) == CountKey(a)[|CountPrefix|..] == CountKey(b)[|CountPrefix|..] == ShowInt(b);
      ShowIntInjective(a, b);
    }
  }
}
