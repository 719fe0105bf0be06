/** Resolution of the theme preference to the dark/light appearance, and the
    counter screen's sun/moon toggle. */
module Theme {

  /** The preference the settings screen offers. */
  datatype ThemePreference = Light | Dark | System

  /** The operating system's appearance as reported to the app; `Unknown` is
      the `null` a platform without one reports. */
  datatype ColorScheme = SchemeLight | SchemeDark | Unknown

  /** Whether the app is drawn dark: always for `Dark`, never for `Light`,
      and following the system appearance for `System`. */
  function DarkMode(theme: ThemePreference, scheme: ColorScheme): (r: bool)
    ensures theme == Dark ==> r
    ensures theme == Light ==> !r
    ensures theme == System ==> (r <==> scheme == SchemeDark)
  {
    theme == Dark || (theme == System && scheme == SchemeDark)
  }

  /** The toggle as the counter screen writes it: `Dark` becomes `Light` and
      every other preference becomes `Dark`. */
  function ToggleThemeAsWritten(theme: ThemePreference): (r: ThemePreference)
    ensures r != System
    ensures r == Light <==> theme == Dark
  {
    if theme == Dark then Light else Dark
  }

  /** Under `System` with a dark system appearance, the written toggle leaves
      the app dark although its sun icon offers the light appearance. */
  lemma ToggleAsWrittenCanKeepDark()
    ensures DarkMode(System, SchemeDark)
    ensures DarkMode(ToggleThemeAsWritten(System), SchemeDark)
  {
  }

  /** The toggle the icon promises: switch to the opposite of what is shown.
      It agrees with the written toggle whenever the preference is explicit. */
  function ToggleTheme(theme: ThemePreference, scheme: ColorScheme): (r: ThemePreference)
    ensures DarkMode(r, scheme) == !DarkMode(theme, scheme)
    ensures r != System
    ensures theme != System ==> r == ToggleThemeAsWritten(theme)
  {
    if DarkMode(theme, scheme) then Light else Dark
  }

  /** Two presses of the corrected toggle restore the appearance. */
  lemma ToggleTwiceRestoresAppearance(theme: ThemePreference, scheme: ColorScheme)
    ensures DarkMode(ToggleTheme(ToggleTheme(theme, scheme), scheme), scheme) == DarkMode(theme, scheme)
  {
  }
}
