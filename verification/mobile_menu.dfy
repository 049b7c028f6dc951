/** The mobile navigation menu (`initializeMobileMenu` in script.js): the
    hamburger toggle, the backdrop, and the four pieces of DOM state that
    opening and closing keep in step. Focus moves and the timers that delay
    closing are left out; a delayed close is applied as a close. */
module MobileMenu {

  /** The `active` class on `#mainNav` and on the backdrop, the toggle's
      `aria-expanded` attribute, and the `menu-open` class on `body`. */
  datatype Menu = Menu(navActive: bool, backdropActive: bool, ariaExpanded: string, bodyMenuOpen: bool)

  /** All four agree on whether the menu is open. */
  predicate Consistent(m: Menu)
  {
    && m.backdropActive == m.navActive
    && m.bodyMenuOpen == m.navActive
    && m.ariaExpanded == (if m.navActive then "true" else "false")
  }

  predicate IsOpen(m: Menu)
  {
    m.navActive && m.backdropActive && m.ariaExpanded == "true" && m.bodyMenuOpen
  }

  predicate IsClosed(m: Menu)
  {
    !m.navActive && !m.backdropActive && m.ariaExpanded == "false" && !m.bodyMenuOpen
  }

  /** `openMenu` sets all four, whatever they were. */
  function Open(m: Menu): (r: Menu)
    ensures IsOpen(r) && Consistent(r)
  {
    Menu(true, true, "true", true)
  }

  /** `closeMenu` clears all four, whatever they were. */
  function Close(m: Menu): (r: Menu)
    ensures IsClosed(r) && Consistent(r)
  {
    Menu(false, false, "false", false)
  }

  /** `toggleMenu` decides on the navigation's `active` class alone. */
  function Toggle(m: Menu): (r: Menu)
    ensures m.navActive ==> IsClosed(r)
    ensures !m.navActive ==> IsOpen(r)
    ensures r.navActive != m.navActive
  {
    if m.navActive then Close(m) else Open(m)
  }

  /** On a consistent menu toggling twice changes nothing. */
  lemma ToggleInvolution(m: Menu)
    requires Consistent(m)
    ensures Toggle(Toggle(m)) == m
  {
  }

  datatype Key = EscapeKey | OtherKey

  datatype Event =
    | ToggleClick                // click on `#mobileMenuToggle`
    | BackdropClick              // click on the backdrop
    | NavLinkClick               // click on a `.nav-link` (closes after a delay)
    | KeyDown(key: Key)          // `keydown` on the document
    | Resize(innerWidth: int)    // the debounced `resize` handler

  /** The width above which the desktop layout takes over. */
  const DesktopWidth := 768

  function Handle(m: Menu, e: Event): (r: Menu)
    ensures e.KeyDown? && (e.key == OtherKey || !m.navActive) ==> r == m
    ensures e.KeyDown? && e.key == EscapeKey && m.navActive ==> IsClosed(r)
    ensures e.Resize? && (e.innerWidth <= DesktopWidth || !m.navActive) ==> r == m
    ensures e.Resize? && e.innerWidth > DesktopWidth && m.navActive ==> IsClosed(r)
    ensures e.BackdropClick? || e.NavLinkClick? ==> IsClosed(r)
    ensures e.ToggleClick? ==> r == Toggle(m)
  {
    match e
    case ToggleClick => Toggle(m)
    case BackdropClick => Close(m)
    case NavLinkClick => Close(m)
    case KeyDown(key) => if key == EscapeKey && m.navActive then Close(m) else m
    case Resize(w) => if w > DesktopWidth && m.navActive then Close(m) else m
  }

  /** Every event keeps a consistent menu consistent. */
  lemma {:induction false} HandlePreservesConsistent(m: Menu, e: Event)
    requires Consistent(m)
    ensures Consistent(Handle(m, e))
  {
  }

  /** A sequence of events applied in order. */
  function HandleAll(m: Menu, es: seq<Event>): (r: Menu)
    ensures Consistent(m) ==> Consistent(r)
    decreases |es|
  {
    if |es| == 0 then m
    else
      assert Consistent(m) ==> Consistent(Handle(m, es[0])) by {
        if Consistent(m) { HandlePreservesConsistent(m, es[0]); }
      }
      HandleAll(Handle(m, es[0]), es[1..])
  }

  /** The parts of the page `initializeMobileMenu` reads and writes: whether
      the toggle and the navigation exist, the toggle's `data-initialized`
      flag, how many backdrops there are, how many `.nav-link` elements the
      navigation holds, and how many copies of each listener it has added
      (the link listeners counted together over all links). */
  datatype Page = Page(
    hasToggle: bool,
    hasNav: bool,
    initialized: bool,
    backdrops: nat,
    toggleListeners: nat,
    backdropListeners: nat,
    keyListeners: nat,
    resizeListeners: nat,
    navLinks: nat,
    linkListeners: nat)

  /** One run of `initializeMobileMenu`. */
  function Initialize(p: Page): (r: Page)
    ensures !p.hasToggle || !p.hasNav || p.initialized ==> r == p
    ensures p.hasToggle && p.hasNav && !p.initialized ==>
      && r.initialized
      && r.backdrops == (if p.backdrops == 0 then 1 else p.backdrops)
      && r.toggleListeners == p.toggleListeners + 1
      && r.backdropListeners == p.backdropListeners + 1
      && r.keyListeners == p.keyListeners + 1
      && r.resizeListeners == p.resizeListeners + 1
      && r.linkListeners == p.linkListeners + p.navLinks
    ensures r.hasToggle == p.hasToggle && r.hasNav == p.hasNav && r.navLinks == p.navLinks
  {
    if !p.hasToggle || !p.hasNav then p
    else if p.initialized then p
    else p.(
      initialized := true,
      backdrops := if p.backdrops == 0 then 1 else p.backdrops,
      toggleListeners := p.toggleListeners + 1,
      backdropListeners := p.backdropListeners + 1,
      keyListeners := p.keyListeners + 1,
      resizeListeners := p.resizeListeners + 1,
      linkListeners := p.linkListeners + p.navLinks)
  }

  /** A second initialisation is a no-op. */
  lemma InitializeIdempotent(p: Page)
    ensures Initialize(Initialize(p)) == Initialize(p)
  {
  }

  function InitializeTimes(p: Page, n: nat): Page
  {
    if n == 0 then p else Initialize(InitializeTimes(p, n - 1))
  }

  predicate Fresh(p: Page)
  {
    !p.initialized && p.backdrops == 0
    && p.toggleListeners == 0 && p.backdropListeners == 0 && p.keyListeners == 0 && p.resizeListeners == 0
    && p.linkListeners == 0
  }

  /** However often a page with a menu runs the initialisation, it ends up
      with one backdrop and one copy of each listener. */
  lemma {:induction false} InitializeTimesOnce(p: Page, n: nat)
    requires Fresh(p) && p.hasToggle && p.hasNav && n >= 1
    ensures var q := InitializeTimes(p, n);
      q.initialized && q.backdrops == 1
      && q.toggleListeners == 1 && q.backdropListeners == 1 && q.keyListeners == 1 && q.resizeListeners == 1
      && q.linkListeners == p.navLinks
  {
    if n > 1 {
      InitializeTimesOnce(p, n - 1);
      InitializeIdempotent(InitializeTimes(p, n - 2));
    }
  }
}
