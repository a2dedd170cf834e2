/** The theme provider: the dark/light flag, the `dark` class on the document
    body, and the `theme` entry in `localStorage`. The saved entry and the
    system preference are parameters of the mount effect. */
module ThemeProvider {
  import opened Js

  const ThemeKey := "theme"
  const Dark := "dark"
  const Light := "light"

  /** The flag, whether the body carries the `dark` class, and the stored
      `theme` entry (`None` when there is none). */
  datatype ThemeState = ThemeState(isDark: bool, bodyDark: bool, stored: Option<string>)

  /** `savedTheme === 'dark' || (!savedTheme && prefersDark)`: a saved `'dark'`
      wins, any other saved value means light, and only a missing or empty
      entry defers to the system. */
  predicate ShouldUseDark(saved: Option<string>, prefersDark: bool) {
    saved == Some(Dark) || ((saved == None || saved == Some("")) && prefersDark)
  }

  /** The mount effect: the flag and the body class both follow
      `ShouldUseDark`; nothing is written to storage. */
  function Mount(saved: Option<string>, prefersDark: bool): (r: ThemeState)
    ensures r.isDark == r.bodyDark
    ensures r.stored == saved
    ensures r.isDark <==> saved == Some(Dark) || ((saved == None || saved == Some("")) && prefersDark)
  {
    var dark := ShouldUseDark(saved, prefersDark);
    ThemeState(dark, dark, saved)
  }

  /** `theme`: the flag as the CSS name of the theme. */
  function Theme(s: ThemeState): (t: string)
    ensures t == Dark || t == Light
  {
    if s.isDark then Dark else Light
  }

  lemma ThemeNamesFlag(s: ThemeState)
    ensures Theme(s) == Dark <==> s.isDark
    ensures Theme(s) == Light <==> !s.isDark
  {
    assert Dark[0] != Light[0];
  }

  /** `toggleTheme`: the flag flips, the body class follows it, and the new
      theme's name is stored. When `setItem` throws (`ok` false) nothing
      catches it: the exception escapes `toggleTheme` after the flag and the
      body class have already changed, and the earlier entry stays. */
  function Toggle(s: ThemeState, ok: bool): (r: ThemeState)
    ensures r.isDark == !s.isDark && r.bodyDark == r.isDark
    ensures ok ==> r.stored == Some(Theme(r))
    ensures !ok ==> r.stored == s.stored
  {
    var dark := !s.isDark;
    ThemeState(dark, dark, if ok then Some(if dark then Dark else Light) else s.stored)
  }

  /** Toggling twice restores the flag and the body class; with storage
      working, a state whose entry already names its theme comes back
      entirely. */
  lemma ToggleTwice(s: ThemeState, ok: bool)
    ensures Toggle(Toggle(s, ok), ok).isDark == s.isDark
    ensures s.bodyDark == s.isDark ==> Toggle(Toggle(s, ok), ok).bodyDark == s.bodyDark
    ensures ok && s.bodyDark == s.isDark && s.stored == Some(Theme(s)) ==> Toggle(Toggle(s, ok), ok) == s
  {
  }

  /** `n` toggles in a row. */
  function Toggles(s: ThemeState, n: nat, ok: bool): ThemeState {
    if n == 0 then s else Toggle(Toggles(s, n - 1, ok), ok)
  }

  /** After the mount and any number of toggles the body class mirrors the
      flag, and the flag is the mounted one flipped once per toggle. */
  lemma {:induction false} TogglesAfterMount(saved: Option<string>, prefersDark: bool, n: nat, ok: bool)
    ensures var s := Toggles(Mount(saved, prefersDark), n, ok);
      && s.bodyDark == s.isDark
      && (s.isDark <==> (ShouldUseDark(saved, prefersDark) != (n % 2 == 1)))
  {
    if n > 0 {
      TogglesAfterMount(saved, prefersDark, n - 1, ok);
    }
  }

  /** After a toggle, a reload comes back to the chosen theme whatever the
      system prefers. */
  lemma ReloadKeepsChoice(s: ThemeState, prefersDark: bool)
    ensures Mount(Toggle(s, true).stored, prefersDark).isDark == Toggle(s, true).isDark
  {
    assert Dark[0] != Light[0];
  }

  /** A saved entry that is neither empty nor `'dark'` (such as `'light'`)
      gives the light theme whatever the system prefers. */
  lemma SavedLightWins(v: string, prefersDark: bool)
    requires v != [] && v != Dark
    ensures !Mount(Some(v), prefersDark).isDark
    ensures Theme(Mount(Some(v), prefersDark)) == Light
  {
  }
}
