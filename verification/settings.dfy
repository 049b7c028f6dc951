/** `applyTheme` in profile/profile.js: the body's class list carries at
    most one theme class; 'auto' (and any other value) leaves the choice to
    the stylesheet's media queries. */
module Settings {

  const LightTheme := "light-theme"
  const DarkTheme := "dark-theme"

  function ApplyTheme(classes: set<string>, theme: string): (r: set<string>)
    ensures r - {LightTheme, DarkTheme} == classes - {LightTheme, DarkTheme}
    ensures LightTheme in r <==> theme == "light"
    ensures DarkTheme in r <==> theme == "dark"
  {
    var base := classes - {LightTheme, DarkTheme};
    if theme == "light" then base + {LightTheme}
    else if theme == "dark" then base + {DarkTheme}
    else base
  }

  /** Never both theme classes at once, whatever the list held before. */
  lemma AtMostOneTheme(classes: set<string>, theme: string)
    ensures !(LightTheme in ApplyTheme(classes, theme) && DarkTheme in ApplyTheme(classes, theme))
  {
  }

  /** The result depends only on the last theme applied. */
  lemma {:induction false} LastThemeWins(classes: set<string>, t1: string, t2: string)
    ensures ApplyTheme(ApplyTheme(classes, t1), t2) == ApplyTheme(classes, t2)
  {
    var a := ApplyTheme(classes, t1);
    assert a - {LightTheme, DarkTheme} == classes - {LightTheme, DarkTheme};
  }

  /** The label next to a settings toggle follows its checkbox. */
  function ToggleLabel(checked: bool): (text: string)
    ensures text == "Enabled" <==> checked
    ensures text == "Disabled" <==> !checked
  {
    if checked then "Enabled" else "Disabled"
  }
}
