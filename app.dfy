/** The app shell: the once-a-day offer of the dua card, the focus lock
    that hides the bottom navigation, and which screen is drawn. */
module AppShell {
  import opened JsValues
  import Keys

  /** `duaOnLaunch` from the settings record: enabled unless it is
      explicitly false; an absent or unreadable record counts as enabled. */
  predicate DuaEnabled(duaOnLaunch: Stored<Option<bool>>) {
    !(duaOnLaunch.Parsed? && duaOnLaunch.value == Some(false))
  }

  /** The launch condition: enabled, and not yet shown under today's key
      (an absent record never equals the key). */
  predicate ShouldOfferDua(store: map<string, string>, duaOnLaunch: Stored<Option<bool>>, todayKey: string) {
    DuaEnabled(duaOnLaunch) && !(Keys.DuaLastShown in store && store[Keys.DuaLastShown] == todayKey)
  }

  /** The offer is made exactly when it is not switched off and today's key
      is not the one last stored. */
  lemma OfferCases(store: map<string, string>, duaOnLaunch: Stored<Option<bool>>, todayKey: string)
    ensures duaOnLaunch.Parsed? && duaOnLaunch.value == Some(false) ==> !ShouldOfferDua(store, duaOnLaunch, todayKey)
    ensures !duaOnLaunch.Parsed? && Keys.DuaLastShown !in store ==> ShouldOfferDua(store, duaOnLaunch, todayKey)
    ensures Keys.DuaLastShown in store && store[Keys.DuaLastShown] == todayKey ==> !ShouldOfferDua(store, duaOnLaunch, todayKey)
  {
  }

  datatype View = Counter | AdhkarList | Prayer | Stats | Settings

  class Shell {
    var view: View
    var focusLocked: bool
    var showDua: bool
    var store: map<string, string>

    /** Launch: the counter screen, unlocked, and the dua card when the
        launch condition holds (its delay is not modelled). */
    constructor (store: map<string, string>, duaOnLaunch: Stored<Option<bool>>, todayKey: string)
      ensures view == Counter && !focusLocked
      ensures showDua <==> ShouldOfferDua(store, duaOnLaunch, todayKey)
      ensures this.store == store
    {
      view := Counter;
      focusLocked := false;
      showDua := ShouldOfferDua(store, duaOnLaunch, todayKey);
      this.store := store;
    }

    /** `handleDismissDua`: hide the card and store today's key, after which
        no launch on the same day offers it again, whatever the setting. */
    method DismissDua(todayKey: string)
      modifies this
      ensures !showDua
      ensures store == old(store)[Keys.DuaLastShown := todayKey]
      ensures view == old(view) && focusLocked == old(focusLocked)
      ensures forall s: Stored<Option<bool>> :: !ShouldOfferDua(store, s, todayKey)
    {
      showDua := false;
      store := store[Keys.DuaLastShown := todayKey];
    }

    /** `onToggleFocusLock`. */
    method ToggleFocusLock()
      modifies this
      ensures focusLocked == !old(focusLocked)
      ensures BottomNavVisible() <==> !focusLocked
      ensures forall a :: DrawnScreen(a) == old(DrawnScreen(a))
      ensures view == old(view) && showDua == old(showDua) && store == old(store)
    {
      focusLocked := !focusLocked;
    }

    /** `setCurrentView` from the bottom navigation. */
    method SetView(v: View)
      modifies this
      ensures view == v
      ensures forall a :: DrawnScreen(a) == (if v == Counter && !a then None else Some(v))
      ensures focusLocked == old(focusLocked) && showDua == old(showDua) && store == old(store)
    {
      view := v;
    }

    /** The bottom navigation is drawn exactly while not locked. */
    predicate BottomNavVisible()
      reads this
    {
      !focusLocked
    }

    /** The screen drawn above the navigation: the current view's screen,
        except that the counter view draws nothing without an active
        dhikr. */
    function DrawnScreen(hasActiveDhikr: bool): (r: Option<View>)
      reads this
      ensures r.Some? ==> r.value == view
      ensures r.None? <==> view == Counter && !hasActiveDhikr
      ensures r == Some(Counter) <==> view == Counter && hasActiveDhikr
    {
      if view == Counter && !hasActiveDhikr then None else Some(view)
    }
  }
}
