/** The theme controller of script.js: the `data-theme` marker on the root
    element, the `preferred-theme` storage entry, the
    `prefers-color-scheme: dark` media query and the optional theme switch.

    The functions on `ThemeState` are the specification of each handler; the
    class `ThemeController` holds the same state in fields and updates it
    step by step as the script does. */
module Theme {

  import opened Wrappers

  const Light := "light"
  const Dark := "dark"

  /** The two values the script ever writes to the marker or to storage. */
  predicate IsConcrete(t: string)
  {
    t == Light || t == Dark
  }

  /** JavaScript truthiness of a value that is a string or null: null and the
      empty string are falsy (`current ?`, `!stored`, `a || b`). */
  predicate Truthy(v: Option<string>)
  {
    v.Some? && v.value != ""
  }

  /** `getSystemTheme`: the theme the media query reports. */
  function SystemTheme(prefersDark: bool): (t: string)
    ensures IsConcrete(t)
    ensures t == Dark <==> prefersDark
  {
    if prefersDark then Dark else Light
  }

  /** The theme in force: the marker when it is set to a non-empty value,
      otherwise the system preference. */
  function Effective(marker: Option<string>, prefersDark: bool): (t: string)
    ensures Truthy(marker) ==> t == marker.value
    ensures !Truthy(marker) ==> t == SystemTheme(prefersDark)
  {
    if marker.Some? && marker.value != "" then marker.value else SystemTheme(prefersDark)
  }

  /** The value `toggleTheme` moves to: `light` from `dark`, `dark` from
      anything else. */
  function Flip(t: string): (next: string)
    ensures IsConcrete(next)
    ensures IsConcrete(t) ==> IsConcrete(next) && next != t
    ensures !IsConcrete(t) ==> next == Dark
  {
    if t == Dark then Light else Dark
  }

  /** Everything the theme handlers read or write. `switchChecked` is `None`
      when the page has no theme switch. */
  datatype ThemeState = ThemeState(
    marker: Option<string>,
    stored: Option<string>,
    prefersDark: bool,
    switchChecked: Option<bool>)
  {
    function EffectiveTheme(): string
    {
      Effective(marker, prefersDark)
    }
  }

  /** Marker and storage only ever hold `light` or `dark`, when they hold anything. */
  predicate WellFormed(s: ThemeState)
  {
    (s.marker.None? || IsConcrete(s.marker.value)) &&
    (s.stored.None? || IsConcrete(s.stored.value))
  }

  /** `applyTheme(theme)`: set the marker to a concrete theme, clear it
      otherwise (`None` stands for both a removed attribute and the
      `undefined` argument). */
  function AfterApplyTheme(s: ThemeState, theme: Option<string>): (r: ThemeState)
    ensures r.marker.Some? <==> theme.Some? && IsConcrete(theme.value)
    ensures r.marker.Some? ==> r.marker == theme
    ensures r.stored == s.stored && r.prefersDark == s.prefersDark && r.switchChecked == s.switchChecked
  {
    s.(marker := if theme.Some? && (theme.value == Light || theme.value == Dark) then theme else None)
  }

  /** `loadInitialTheme`: apply the stored value if it is `light` or `dark`,
      otherwise clear the marker and so defer to the system. */
  function AfterLoadInitialTheme(s: ThemeState): (r: ThemeState)
    ensures s.stored.Some? && IsConcrete(s.stored.value) ==> r.marker == s.stored
    ensures !(s.stored.Some? && IsConcrete(s.stored.value)) ==> r.marker.None?
    ensures s.stored.Some? && IsConcrete(s.stored.value) ==> r.EffectiveTheme() == s.stored.value
    ensures !(s.stored.Some? && IsConcrete(s.stored.value)) ==> r.EffectiveTheme() == SystemTheme(s.prefersDark)
    ensures r.stored == s.stored && r.prefersDark == s.prefersDark && r.switchChecked == s.switchChecked
  {
    if s.stored.Some? && (s.stored.value == Light || s.stored.value == Dark) then
      AfterApplyTheme(s, s.stored)
    else
      AfterApplyTheme(s, None)
  }

  /** `toggleTheme`: write the opposite of the effective theme to both the
      marker and storage. */
  function AfterToggleTheme(s: ThemeState): (r: ThemeState)
    ensures r.marker == r.stored == Some(Flip(s.EffectiveTheme()))
    ensures WellFormed(r)
    ensures IsConcrete(s.EffectiveTheme()) ==> r.EffectiveTheme() != s.EffectiveTheme()
    ensures r.prefersDark == s.prefersDark && r.switchChecked == s.switchChecked
  {
    var current := s.marker;
    var next :=
      if current.Some? && current.value != "" then (if current.value == Dark then Light else Dark)
      else if SystemTheme(s.prefersDark) == Dark then Light else Dark;
    AfterApplyTheme(s, Some(next)).(stored := Some(next))
  }

  /** The media-query change listener: the system preference becomes
      `prefersDark`, and the marker is cleared only when nothing (or the empty
      string) is stored. */
  function AfterSystemChange(s: ThemeState, prefersDark: bool): (r: ThemeState)
    ensures r.prefersDark == prefersDark
    ensures !Truthy(s.stored) ==> r.marker.None? && r.EffectiveTheme() == SystemTheme(prefersDark)
    ensures Truthy(s.stored) ==> r.marker == s.marker
    ensures r.stored == s.stored && r.switchChecked == s.switchChecked
  {
    var s1 := s.(prefersDark := prefersDark);
    if !(s1.stored.Some? && s1.stored.value != "") then AfterApplyTheme(s1, None) else s1
  }

  /** The `DOMContentLoaded` handler: load the theme, then, if the switch
      exists, check it exactly when the effective theme is `dark`. */
  function AfterContentLoaded(s: ThemeState): (r: ThemeState)
    ensures r.marker == AfterLoadInitialTheme(s).marker
    ensures s.switchChecked.Some? ==> r.switchChecked == Some(r.EffectiveTheme() == Dark)
    ensures s.switchChecked.None? ==> r.switchChecked.None?
    ensures r.stored == s.stored && r.prefersDark == s.prefersDark
  {
    var s1 := AfterLoadInitialTheme(s);
    if s1.switchChecked.Some? then
      var effective := if s1.marker.Some? && s1.marker.value != "" then s1.marker.value else SystemTheme(s1.prefersDark);
      s1.(switchChecked := Some(effective == Dark))
    else s1
  }

  /** The user flips the switch and its `change` listener runs: the new
      position decides the value written to both the marker and storage.
      Without a switch there is nothing to flip. */
  function AfterSwitchFlip(s: ThemeState): (r: ThemeState)
    ensures s.switchChecked.Some? ==>
      r.switchChecked == Some(!s.switchChecked.value) &&
      r.marker == r.stored == Some(if r.switchChecked.value then Dark else Light)
    ensures s.switchChecked.None? ==> r == s
    ensures r.prefersDark == s.prefersDark
  {
    match s.switchChecked
    case None => s
    case Some(was) =>
      var checked := !was;
      var next := if checked then Dark else Light;
      AfterApplyTheme(s.(switchChecked := Some(checked)), Some(next)).(stored := Some(next))
  }

  /** The events that reach the theme controller. */
  datatype ThemeEvent = Loaded | Toggle | SystemChanged(prefersDark: bool) | SwitchFlip

  /** One handler run. Each handler keeps marker and storage well formed, only
      a media-query change moves the system preference, and no handler adds
      or removes the switch. */
  function Step(s: ThemeState, e: ThemeEvent): (r: ThemeState)
    ensures WellFormed(s) ==> WellFormed(r)
    ensures r.prefersDark == (if e.SystemChanged? then e.prefersDark else s.prefersDark)
    ensures r.switchChecked.Some? == s.switchChecked.Some?
  {
    match e
    case Loaded => AfterContentLoaded(s)
    case Toggle => AfterToggleTheme(s)
    case SystemChanged(d) => AfterSystemChange(s, d)
    case SwitchFlip => AfterSwitchFlip(s)
  }

  /** The handlers run in event order. The switch stays present or absent,
      and without media-query changes the system preference is unchanged. */
  function Run(s: ThemeState, events: seq<ThemeEvent>): (r: ThemeState)
    ensures r.switchChecked.Some? == s.switchChecked.Some?
    ensures (forall i :: 0 <= i < |events| ==> !events[i].SystemChanged?) ==> r.prefersDark == s.prefersDark
    decreases |events|
  {
    if events == [] then s else Run(Step(s, events[0]), events[1..])
  }

  /** After the page has loaded, marker and storage hold only concrete values:
      every handler keeps the storage invariant, and loading clears any
      unexpected marker. */
  lemma LoadedIsWellFormed(s: ThemeState)
    requires s.stored.None? || IsConcrete(s.stored.value)
    ensures WellFormed(AfterContentLoaded(s))
  {
  }

  lemma {:induction false} RunPreservesWellFormed(s: ThemeState, events: seq<ThemeEvent>)
    requires WellFormed(s)
    ensures WellFormed(Run(s, events))
    decreases |events|
  {
    if events != [] {
      var s1 := Step(s, events[0]);
      assert WellFormed(s1);
      RunPreservesWellFormed(s1, events[1..]);
    }
  }

  /** Toggling twice restores the effective theme once the marker is well formed. */
  lemma ToggleTwice(s: ThemeState)
    requires WellFormed(s)
    ensures AfterToggleTheme(AfterToggleTheme(s)).EffectiveTheme() == s.EffectiveTheme()
  {
  }

  /** When the switch shows the effective theme, flipping it writes the same
      marker and storage as `toggleTheme` would. */
  lemma SwitchAgreesWithToggle(s: ThemeState)
    requires WellFormed(s)
    requires s.switchChecked == Some(s.EffectiveTheme() == Dark)
    ensures AfterSwitchFlip(s).marker == AfterToggleTheme(s).marker
    ensures AfterSwitchFlip(s).stored == AfterToggleTheme(s).stored
  {
  }

  function SystemChanges(s: ThemeState, prefs: seq<bool>): ThemeState
    decreases |prefs|
  {
    if prefs == [] then s else SystemChanges(AfterSystemChange(s, prefs[0]), prefs[1..])
  }

  /** An explicit stored choice overrides system changes: while a concrete
      theme is stored and applied, any series of media-query changes leaves
      the marker and the effective theme as they were. */
  lemma {:induction false} StoredChoiceOverridesSystem(s: ThemeState, prefs: seq<bool>)
    requires s.stored.Some? && IsConcrete(s.stored.value)
    requires s.marker == s.stored
    ensures SystemChanges(s, prefs).marker == s.marker
    ensures SystemChanges(s, prefs).EffectiveTheme() == s.EffectiveTheme()
    decreases |prefs|
  {
    if prefs != [] {
      StoredChoiceOverridesSystem(AfterSystemChange(s, prefs[0]), prefs[1..]);
    }
  }

  /** With nothing stored, the effective theme follows the last system change. */
  lemma {:induction false} NothingStoredFollowsSystem(s: ThemeState, prefs: seq<bool>)
    requires !Truthy(s.stored)
    requires prefs != []
    ensures SystemChanges(s, prefs).EffectiveTheme() == SystemTheme(prefs[|prefs| - 1])
    decreases |prefs|
  {
    var s1 := AfterSystemChange(s, prefs[0]);
    if |prefs| > 1 {
      NothingStoredFollowsSystem(s1, prefs[1..]);
    }
  }

  /** The switch is set only at load: after a system change with nothing
      stored it can show the old theme, and flipping it then writes the theme
      already in force, so the page does not change. */
  lemma SwitchCanGoStale()
    ensures var loaded := AfterContentLoaded(ThemeState(None, None, false, Some(false)));
            var changed := AfterSystemChange(loaded, true);
            loaded.switchChecked == Some(false) &&
            changed.EffectiveTheme() == Dark && changed.switchChecked == Some(false) &&
            AfterSwitchFlip(changed).EffectiveTheme() == changed.EffectiveTheme()
  {
  }

  /** The theme controller as the script keeps it: fields for the root
      element's marker, the storage entry, the media query and the switch. */
  class ThemeController {
    var marker: Option<string>
    var stored: Option<string>
    var prefersDark: bool
    var switchChecked: Option<bool>

    function State(): ThemeState
      reads this
    {
      ThemeState(marker, stored, prefersDark, switchChecked)
    }

    /** The page as the markup, the browser's storage and the operating
        system present it before any script runs. */
    constructor (initialMarker: Option<string>, storedValue: Option<string>, systemDark: bool, hasSwitch: bool)
      ensures State() == ThemeState(initialMarker, storedValue, systemDark, if hasSwitch then Some(false) else None)
    {
      marker := initialMarker;
      stored := storedValue;
      prefersDark := systemDark;
      switchChecked := if hasSwitch then Some(false) else None;
    }

    method ApplyTheme(theme: Option<string>)
      modifies this
      ensures State() == AfterApplyTheme(old(State()), theme)
    {
      if theme.Some? && (theme.value == Light || theme.value == Dark) {
        marker := theme;
      } else {
        marker := None;
      }
    }

    method LoadInitialTheme()
      modifies this
      ensures State() == AfterLoadInitialTheme(old(State()))
    {
      var s := stored;
      if s.Some? && (s.value == Light || s.value == Dark) {
        ApplyTheme(s);
      } else {
        ApplyTheme(None);
      }
    }

    method ToggleTheme()
      modifies this
      ensures State() == AfterToggleTheme(old(State()))
    {
      var current := marker;
      var next;
      if current.Some? && current.value != "" {
        next := if current.value == Dark then Light else Dark;
      } else {
        next := if SystemTheme(prefersDark) == Dark then Light else Dark;
      }
      ApplyTheme(Some(next));
      stored := Some(next);
    }

    method OnSystemChange(systemDark: bool)
      modifies this
      ensures State() == AfterSystemChange(old(State()), systemDark)
    {
      prefersDark := systemDark;
      var s := stored;
      if !(s.Some? && s.value != "") {
        ApplyTheme(None);
      }
    }

    method OnContentLoaded()
      modifies this
      ensures State() == AfterContentLoaded(old(State()))
    {
      LoadInitialTheme();
      if switchChecked.Some? {
        var effective := if marker.Some? && marker.value != "" then marker.value else SystemTheme(prefersDark);
        switchChecked := Some(effective == Dark);
      }
    }

    method OnSwitchFlipped()
      modifies this
      ensures State() == AfterSwitchFlip(old(State()))
    {
      if switchChecked.Some? {
        var checked := !switchChecked.value;
        switchChecked := Some(checked);
        var next := if checked then Dark else Light;
        ApplyTheme(Some(next));
        stored := Some(next);
      }
    }
  }
}
