/**
 * The theme provider: the theme it starts with, how toggling and setting
 * change it, and the effect that mirrors it into the page's root attribute
 * and the persisted setting.
 */
module Theme {
  import opened Options

  const Light := "light"
  const Dark := "dark"

  /** `getInitialTheme`: a persisted `light` or `dark` wins; otherwise the
      system preference, when the browser can report one, picks `dark`;
      otherwise `light`. The stored value, the availability of
      `matchMedia` and the preference are inputs. */
  function InitialTheme(stored: Option<string>, hasMatchMedia: bool, prefersDark: bool): (t: string)
    ensures t == Light || t == Dark
    ensures stored == Some(Light) || stored == Some(Dark) ==> t == stored.value
    ensures stored != Some(Light) && stored != Some(Dark) ==>
      (t == Dark <==> hasMatchMedia && prefersDark)
  {
    if stored == Some(Light) || stored == Some(Dark) then stored.value
    else if hasMatchMedia && prefersDark then Dark
    else Light
  }

  /** The updater of `toggleTheme`. */
  function Toggled(t: string): (u: string)
    ensures u == Light || u == Dark
    ensures u == Light <==> t == Dark
  {
    if t == Dark then Light else Dark
  }

  /** Toggling twice gives back `light` or `dark`; any other value comes
      back as `light`. */
  lemma ToggleTwice(t: string)
    ensures t == Light || t == Dark ==> Toggled(Toggled(t)) == t
    ensures t != Light && t != Dark ==> Toggled(Toggled(t)) == Light
  {
  }

  /** `applyTheme`: the `data-theme` attribute the root gets, absent for
      any theme but `dark`. */
  function RootAttribute(t: string): (a: Option<string>)
    ensures a.Some? <==> t == Dark
    ensures a.Some? ==> a.value == Dark
  {
    if t == Dark then Some(Dark) else None
  }

  /** The root attribute tells the two themes apart, and every toggle
      switches it between present and absent. */
  lemma ToggleFlipsRootAttribute(t: string, u: string)
    ensures (t == Light || t == Dark) && (u == Light || u == Dark) ==>
      (RootAttribute(t) == RootAttribute(u) <==> t == u)
    ensures RootAttribute(Toggled(t)).Some? <==> RootAttribute(t).None?
  {
  }

  class ThemeProvider {
    var theme: string
    /** The `data-theme` attribute of the document root. */
    var rootAttribute: Option<string>
    /** The value persisted under the theme key. */
    var stored: Option<string>

    /** Mounting: the state starts from the persisted value or the system
        preference; the page and the storage are as they were. */
    constructor(stored0: Option<string>, rootAttribute0: Option<string>,
                hasMatchMedia: bool, prefersDark: bool)
      ensures theme == InitialTheme(stored0, hasMatchMedia, prefersDark)
      ensures stored == stored0 && rootAttribute == rootAttribute0
    {
      stored := stored0;
      rootAttribute := rootAttribute0;
      if stored0 == Some(Light) || stored0 == Some(Dark) {
        theme := stored0.value;
      } else if hasMatchMedia && prefersDark {
        theme := Dark;
      } else {
        theme := Light;
      }
    }

    /** The effect that runs after each theme change: the root attribute
        follows the theme and the theme is persisted. */
    method ApplyEffect()
      modifies this
      ensures theme == old(theme)
      ensures rootAttribute == RootAttribute(theme)
      ensures stored == Some(theme)
    {
      if theme == Dark {
        rootAttribute := Some(Dark);
      } else {
        rootAttribute := None;
      }
      stored := Some(theme);
    }

    /** `setTheme` takes any value. */
    method SetTheme(t: string)
      modifies this
      ensures theme == t
      ensures rootAttribute == old(rootAttribute) && stored == old(stored)
    {
      theme := t;
    }

    method ToggleTheme()
      modifies this
      ensures theme == Toggled(old(theme))
      ensures rootAttribute == old(rootAttribute) && stored == old(stored)
    {
      theme := if theme == Dark then Light else Dark;
    }
  }

  /** After the effect has persisted `light` or `dark`, the next mount
      starts from it whatever the system prefers. */
  lemma PersistedThemeRestored(t: string, hasMatchMedia: bool, prefersDark: bool)
    requires t == Light || t == Dark
    ensures InitialTheme(Some(t), hasMatchMedia, prefersDark) == t
  {
  }

  /** Any other value set through `setTheme` is persisted too, but the next
      mount ignores it and falls back to the system preference. */
  lemma OtherThemeNotRestored(t: string, hasMatchMedia: bool, prefersDark: bool)
    requires t != Light && t != Dark
    ensures InitialTheme(Some(t), hasMatchMedia, prefersDark)
      == InitialTheme(None, hasMatchMedia, prefersDark)
  {
  }
}
