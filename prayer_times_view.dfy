/** The prayer-times screen's pure helpers: the countdown text, the time
    placeholder, the per-prayer reminder switch and the check of manually
    entered coordinates. */
module PrayerTimesScreen {
  import opened JsValues
  import opened JsStrings
  import Notifications

  // ---------------------------------------------------------------------
  // Countdown

  /** Hours, minutes and seconds of a whole number of seconds. */
  datatype Clock = Clock(h: nat, m: nat, s: nat)

  /** `h = floor(t / 3600)`, `m = floor((t % 3600) / 60)`, `s = t % 60`: a
      decomposition of `t` with minutes and seconds below 60. */
  function Split(t: nat): (c: Clock)
    ensures c.m < 60 && c.s < 60
    ensures 3600 * c.h + 60 * c.m + c.s == t
  {
    Clock(t / 3600, (t % 3600) / 60, t % 60)
  }

  /** That decomposition is the only one. */
  lemma SplitUnique(t: nat, c: Clock)
    requires c.m < 60 && c.s < 60 && 3600 * c.h + 60 * c.m + c.s == t
    ensures c == Split(t)
  {
    var d := Split(t);
    assert 60 * c.m + c.s < 3600 && 60 * d.m + d.s < 3600;
    assert c.h == d.h;
    assert 60 * c.m + c.s == 60 * d.m + d.s;
  }

  /** `formatCountdown(ms)`: empty without a positive span, otherwise hours
      and minutes, minutes and seconds, or seconds alone, whichever is the
      largest non-zero unit. */
  function FormatCountdown(ms: Option<int>): (r: string)
    ensures ms.None? || ms.value <= 0 ==> r == ""
    ensures ms.Some? && ms.value > 0 ==>
      var c := Split(ms.value / 1000);
      (c.h > 0 ==> r == ShowInt(c.h) + "h " + ShowInt(c.m) + "m") &&
      (c.h == 0 && c.m > 0 ==> r == ShowInt(c.m) + "m " + ShowInt(c.s) + "s") &&
      (c.h == 0 && c.m == 0 ==> r == ShowInt(c.s) + "s")
  {
    if ms.None? || ms.value == 0 || ms.value < 0 then ""
    else
      var c := Split(ms.value / 1000);
      if c.h > 0 then ShowInt(c.h) + "h " + ShowInt(c.m) + "m"
      else if c.m > 0 then ShowInt(c.m) + "m " + ShowInt(c.s) + "s"
      else ShowInt(c.s) + "s"
  }

  /** Any positive span shows something, even under a second ("0s"). */
  lemma CountdownShownWhenPositive(ms: int)
    requires ms > 0
    ensures FormatCountdown(Some(ms)) != ""
    ensures ms < 1000 ==> FormatCountdown(Some(ms)) == "0s"
  {
    if ms < 1000 {
      assert ms / 1000 == 0;
      assert ShowInt(0) == "0";
    }
  }

  // ---------------------------------------------------------------------
  // Times and switches

  /** `formatTime(date)`: the placeholder without a time; the locale's time
      text (given) otherwise. */
  function FormatTime(localized: Option<string>): (r: string)
    ensures localized.None? ==> r == "--:--"
    ensures localized.Some? ==> r == localized.value
  {
    if localized.None? then "--:--" else localized.value
  }

  /** `toggleNotification(prayer)` on `settings.notifications || {}`: true
      when it was explicitly false, false otherwise. */
  function Toggle(prefs: Option<map<string, bool>>, prayer: string): (r: map<string, bool>)
    ensures prayer in r
    ensures r[prayer] <==> prefs.Some? && prayer in prefs.value && prefs.value[prayer] == false
    ensures forall p :: p != prayer ==> (p in r <==> prefs.Some? && p in prefs.value)
    ensures forall p :: p != prayer && p in r ==> r[p] == prefs.value[p]
  {
    var n := if prefs.Some? then prefs.value else map[];
    n[prayer := if prayer in n && n[prayer] == false then true else false]
  }

  /** The switch flips the reminder the scheduler will see for that prayer
      and leaves every other prayer as it was. */
  lemma ToggleFlipsReminder(prefs: Option<map<string, bool>>, prayer: string, other: string)
    ensures Notifications.Enabled(Some(Toggle(prefs, prayer)), prayer) <==> !Notifications.Enabled(prefs, prayer)
    ensures other != prayer ==>
      (Notifications.Enabled(Some(Toggle(prefs, prayer)), other) <==> Notifications.Enabled(prefs, other))
  {
  }

  // ---------------------------------------------------------------------
  // Manual coordinates

  /** A number read by `parseFloat`: a real value or NaN. */
  datatype Float = Finite(v: real) | NotANumber

  /** The accepted range: both numbers, latitude within [-90, 90] and
      longitude within [-180, 180], bounds included. */
  predicate ValidCoordinates(lat: Float, lng: Float) {
    lat.Finite? && lng.Finite? && -90.0 <= lat.v <= 90.0 && -180.0 <= lng.v <= 180.0
  }

  datatype Submit = Rejected(message: string) | Accepted(lat: real, lng: real, city: Option<string>)

  const InvalidMessage := "Invalid coordinates. Lat: -90 to 90, Lng: -180 to 180"

  /** `handleManualSubmit`: the rejection test of the source, then the
      trimmed city name or none when it is blank. */
  function ManualSubmit(lat: Float, lng: Float, cityInput: string): (r: Submit)
    ensures r.Accepted? <==> ValidCoordinates(lat, lng)
    ensures r.Rejected? ==> r.message == InvalidMessage
    ensures r.Accepted? ==> r.lat == lat.v && r.lng == lng.v
    ensures r.Accepted? ==> (r.city.None? <==> IsBlank(cityInput))
    ensures r.Accepted? && r.city.Some? ==> r.city.value == Trim(cityInput)
  {
    if lat.NotANumber? || lng.NotANumber? || lat.v < -90.0 || lat.v > 90.0 || lng.v < -180.0 || lng.v > 180.0 then
      Rejected(InvalidMessage)
    else
      Accepted(lat.v, lng.v, if Trim(cityInput) == [] then None else Some(Trim(cityInput)))
  }
}
