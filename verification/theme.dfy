/** The light/dark theme preference of script.js: a `data-theme` attribute on
    the root element mirrored into `localStorage` under the key "theme". */
module Theme {
  import opened Optional

  const Light: string := "light"
  const Dark: string := "dark"

  /** The two places the theme lives: the root element's `data-theme`
      attribute and the stored preference. `None` is what `getAttribute` and
      `getItem` return when nothing is set. */
  datatype Page = Page(attribute: Option<string>, stored: Option<string>)

  /** One of the two themes the page knows. */
  predicate Known(theme: string)
  {
    theme == Light || theme == Dark
  }

  /** The theme `toggleTheme` switches to: dark after light, light after
      anything else (dark, a missing attribute, or an unrecognised value). */
  function Flip(current: Option<string>): (next: string)
    ensures Known(next)
    ensures next == Dark <==> current == Some(Light)
    ensures current.Some? && Known(current.value) ==> next != current.value
  {
    if current == Some(Light) then Dark else Light
  }

  /** `toggleTheme`: the new theme is written both to the attribute and to
      storage. */
  function ToggleTheme(p: Page): (q: Page)
    ensures q.attribute == q.stored
    ensures q.attribute.Some? && Known(q.attribute.value)
    ensures q.attribute == Some(Dark) <==> p.attribute == Some(Light)
  {
    var next := Flip(p.attribute);
    Page(Some(next), Some(next))
  }

  /** The startup script: apply `localStorage.getItem('theme') || 'dark'`.
      Storage is only read. */
  function LoadTheme(stored: Option<string>): (p: Page)
    ensures p.stored == stored
    ensures p.attribute.Some?
    ensures stored.Some? && stored.value != "" ==> p.attribute == stored
    ensures stored == None || stored == Some("") ==> p.attribute == Some(Dark)
  {
    // `||` treats null and the empty string alike: both are falsy.
    var applied := if stored.Some? && stored.value != "" then stored.value else Dark;
    Page(Some(applied), stored)
  }

  /** Toggling twice gives back a known theme. */
  lemma ToggleTwiceIsIdentity(p: Page)
    requires p.attribute.Some? && Known(p.attribute.value)
    ensures ToggleTheme(ToggleTheme(p)).attribute == p.attribute
    ensures ToggleTheme(ToggleTheme(p)).stored == p.attribute
  {
  }

  /** A toggled preference survives a reload: startup re-applies exactly the
      theme the toggle showed. */
  lemma ReloadKeepsToggledTheme(p: Page)
    ensures LoadTheme(ToggleTheme(p).stored) == ToggleTheme(p)
  {
  }

  /** A stored value outside the two themes is applied as it is at startup,
      and the first toggle replaces it by light. */
  lemma UnknownStoredValuePropagates(s: string)
    requires s != "" && !Known(s)
    ensures LoadTheme(Some(s)).attribute == Some(s)
    ensures ToggleTheme(LoadTheme(Some(s))) == Page(Some(Light), Some(Light))
  {
  }

  /** Applying `n` toggles in a row. */
  function ToggleTimes(p: Page, n: nat): Page
  {
    if n == 0 then p else ToggleTheme(ToggleTimes(p, n - 1))
  }

  /** From a fresh load, any positive number of toggles leaves the page on a
      known theme with the stored value equal to the applied one, and the
      themes alternate. */
  lemma {:induction false} TogglesAlternate(stored: Option<string>, n: nat)
    requires n >= 1
    ensures var q := ToggleTimes(LoadTheme(stored), n);
      && q.attribute == q.stored
      && q.attribute.Some? && Known(q.attribute.value)
      && q.attribute == ToggleTimes(LoadTheme(stored), n % 2 + 2).attribute
  {
    if n > 2 {
      TogglesAlternate(stored, n - 2);
      assert (n - 2) % 2 == n % 2;
    } else if n == 1 {
      var q1 := ToggleTimes(LoadTheme(stored), 1);
      ToggleTwiceIsIdentity(q1);
    }
  }
}
