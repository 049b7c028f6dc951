/** The documentation pages' own script (docs/doc_script.js): the floating
    button that opens the sidebar on narrow screens, and the copy buttons
    added to code blocks. */
module DocsSidebar {
  import opened Web
  import opened Text

  /** The button's caption (`innerHTML`), `background`, `color`, and `top` in
      pixels (absent until the first update). */
  datatype Button = Button(caption: string, background: string, color: string, top: Option<int>)

  /** The widget: the sidebar's `open` class, the script's cached `isOpen`,
      the button, and the window's `scrollY`. */
  datatype Widget = Widget(open: bool, isOpen: bool, button: Button, scrollY: int)

  const MinTop := 160
  const StickyTop := 10
  const OpenTop := 10

  const CloseLabel := "\U{D7}"
  const MenuLabel := "\U{2630}"
  const AccentBackground := "var(--accent-blue)"

  function Clamp(lo: int, hi: int, x: int): int
  {
    if x < lo then lo else if x > hi then hi else x
  }

  /** The sticky position of the closed button: 160 at the top of the page,
      moving up with the scroll, never above 10. */
  function ClosedTop(scrollY: int): (top: int)
    ensures StickyTop <= top <= MinTop
    ensures StickyTop <= MinTop - scrollY <= MinTop ==> top == MinTop - scrollY
    ensures MinTop - scrollY < StickyTop ==> top == StickyTop
    ensures MinTop - scrollY > MinTop ==> top == MinTop
  {
    Clamp(StickyTop, MinTop, MinTop - scrollY)
  }

  /** The button as `updateButton` leaves it for a given open state. */
  function ButtonFor(open: bool, scrollY: int): (b: Button)
    ensures b.top.Some?
    ensures open ==> b.caption == CloseLabel && b.background == AccentBackground && b.color == "white" && b.top.value == OpenTop
    ensures !open ==> b.caption == MenuLabel && b.background == "white" && b.color == "var(--metal-dark)" && b.top.value == ClosedTop(scrollY)
  {
    if open then Button(CloseLabel, AccentBackground, "white", Some(OpenTop))
    else Button(MenuLabel, "white", "var(--metal-dark)", Some(ClosedTop(scrollY)))
  }

  /** `updateButton`: re-reads the class into `isOpen` and restyles the button. */
  function UpdateButton(w: Widget): (r: Widget)
    ensures Synced(r)
    ensures r.open == w.open && r.scrollY == w.scrollY
  {
    w.(isOpen := w.open, button := ButtonFor(w.open, w.scrollY))
  }

  /** The cached flag and the button agree with the sidebar's class. */
  predicate Synced(w: Widget)
  {
    w.isOpen == w.open && w.button == ButtonFor(w.open, w.scrollY)
  }

  /** Where a document click landed. Clicks on the button itself stop
      propagating, so the document listener never sees `InButton` from the
      button's own handler; it is kept for clicks on its children. */
  datatype Target = InSidebar | InButton | Elsewhere

  datatype Event =
    | ButtonClick
    | DocumentClick(target: Target)
    | EscapeKey
    | OtherKey
    | Scroll(y: int)

  function Handle(w: Widget, e: Event): (r: Widget)
    ensures e.ButtonClick? ==> r.open == !w.open && Synced(r)
    ensures e.DocumentClick? ==> (r.open <==> w.open && !(w.isOpen && e.target == Elsewhere))
    ensures e.EscapeKey? ==> (r.open <==> w.open && !w.isOpen)
    ensures e.OtherKey? ==> r == w
    ensures e.Scroll? ==> r.open == w.open && r.scrollY == e.y
    ensures e.Scroll? && !w.isOpen ==> Synced(r)
    ensures e.Scroll? && w.isOpen ==> r.button == w.button
  {
    match e
    case ButtonClick => UpdateButton(w.(open := !w.open))
    case DocumentClick(t) =>
      if w.isOpen && t == Elsewhere then UpdateButton(w.(open := false)) else w
    case EscapeKey => if w.isOpen then UpdateButton(w.(open := false)) else w
    case OtherKey => w
    case Scroll(y) =>
      var moved := w.(scrollY := y);
      if !w.isOpen then UpdateButton(moved) else moved
  }

  /** On a synced widget every event keeps it synced: the open button stays
      at 10 whatever the scroll, and the closed one follows the scroll. */
  lemma {:induction false} HandleKeepsSynced(w: Widget, e: Event)
    requires Synced(w)
    ensures Synced(Handle(w, e))
  {
  }

  /** With the widget synced: an outside click closes an open sidebar, and
      clicks inside leave it as it is. */
  lemma OutsideClickCloses(w: Widget, t: Target)
    requires Synced(w)
    ensures t == Elsewhere ==> !Handle(w, DocumentClick(t)).open
    ensures t != Elsewhere ==> Handle(w, DocumentClick(t)) == w
  {
  }

  /** Whenever a synced sidebar is closed its button sits at the clamped
      position for the current scroll. */
  lemma {:induction false} ClosedButtonPosition(w: Widget, e: Event)
    requires Synced(w)
    ensures var r := Handle(w, e);
      !r.open ==> r.button.top == Some(Clamp(StickyTop, MinTop, MinTop - r.scrollY))
  {
    HandleKeepsSynced(w, e);
  }

  /** The button before the first update. */
  const InitialButton := Button("Menu", "white", "var(--metal-dark)", None)

  const SidebarErrorMarkup := "<p style=\"color:red;padding:20px;\">Sidebar failed to load</p>"

  const NarrowWidth := 768

  datatype Setup =
    | NotDocsPage
    | Loaded(createdSidebar: bool, sidebarHtml: string, widget: Option<Widget>)

  /** The `DOMContentLoaded` setup: nothing without `.docs` and `.content`; a
      sidebar is created when missing; the fetched sidebar fills it, or the
      error notice does when the fetch fails or is not 2xx; the button exists
      only at widths up to 768, and starts synced (`updateButton` then
      `handleScroll`). */
  function SetupSidebar(hasDocs: bool, hasContent: bool, hasSidebar: bool, open: bool,
                        response: Response, innerWidth: int, scrollY: int): (r: Setup)
    ensures r.NotDocsPage? <==> !hasDocs || !hasContent
    ensures r.Loaded? ==> r.createdSidebar == !hasSidebar
    ensures r.Loaded? && !response.Succeeded() ==> r.sidebarHtml == SidebarErrorMarkup && r.widget.None?
    ensures r.Loaded? && response.Succeeded() ==> r.sidebarHtml == response.body
    ensures r.Loaded? && r.widget.Some? <==> r.Loaded? && response.Succeeded() && innerWidth <= NarrowWidth
    ensures r.Loaded? && r.widget.Some? ==> Synced(r.widget.value) && r.widget.value.open == open
  {
    if !hasDocs || !hasContent then NotDocsPage
    else if !response.Succeeded() then Loaded(!hasSidebar, SidebarErrorMarkup, None)
    else if innerWidth > NarrowWidth then Loaded(!hasSidebar, response.body, None)
    else
      var w := UpdateButton(Widget(open, false, InitialButton, scrollY));
      var w' := if !w.isOpen then UpdateButton(w) else w;
      Loaded(!hasSidebar, response.body, Some(w'))
  }

  /** A `pre` inside `.content-wrapper`: whether its parent is a
      `pre-wrapper`, how many copy buttons that wrapper holds, the text of
      its inner `code` element if it has one, and its own text. */
  datatype Pre = Pre(wrapped: bool, buttons: nat, code: Option<string>, text: string)

  /** One `pre` in `addCopyButtons`: skipped when already wrapped, otherwise
      wrapped and given a button. */
  function AddCopyButton(p: Pre): (r: Pre)
    ensures r.wrapped
    ensures p.wrapped ==> r == p
    ensures !p.wrapped ==> r.buttons == p.buttons + 1
    ensures r.code == p.code && r.text == p.text
  {
    if p.wrapped then p else p.(wrapped := true, buttons := p.buttons + 1)
  }

  /** The document part `addCopyButtons` works on: the `pre` elements, whether
      a `.content-wrapper` exists, and how many observers it carries. */
  datatype Doc = Doc(pres: seq<Pre>, hasWrapper: bool, observers: nat)

  function AddCopyButtons(d: Doc): (r: Doc)
    ensures |r.pres| == |d.pres|
    ensures forall i :: 0 <= i < |d.pres| ==> r.pres[i] == AddCopyButton(d.pres[i])
    ensures r.hasWrapper == d.hasWrapper
    ensures r.observers == (if d.hasWrapper && d.observers == 0 then 1 else d.observers)
  {
    Doc(seq(|d.pres|, i requires 0 <= i < |d.pres| => AddCopyButton(d.pres[i])),
        d.hasWrapper,
        if d.hasWrapper && d.observers == 0 then 1 else d.observers)
  }

  /** Running `addCopyButtons` again (as the mutation observer does after
      the wrapping it caused) changes nothing. */
  lemma AddCopyButtonsIdempotent(d: Doc)
    ensures AddCopyButtons(AddCopyButtons(d)) == AddCopyButtons(d)
  {
  }

  function AddCopyButtonsTimes(d: Doc, n: nat): Doc
  {
    if n == 0 then d else AddCopyButtons(AddCopyButtonsTimes(d, n - 1))
  }

  /** From a page with no wrappers, any number of runs wraps every `pre` with
      exactly one button and installs at most one observer. */
  lemma {:induction false} AddCopyButtonsTimesOnce(d: Doc, n: nat)
    requires forall i :: 0 <= i < |d.pres| ==> !d.pres[i].wrapped && d.pres[i].buttons == 0
    requires d.observers == 0 && n >= 1
    ensures var r := AddCopyButtonsTimes(d, n);
      && |r.pres| == |d.pres|
      && (forall i :: 0 <= i < |r.pres| ==> r.pres[i].wrapped && r.pres[i].buttons == 1)
      && r.observers == (if d.hasWrapper then 1 else 0)
  {
    if n > 1 {
      AddCopyButtonsTimesOnce(d, n - 1);
      AddCopyButtonsIdempotent(AddCopyButtonsTimes(d, n - 2));
    }
  }

  /** The text the copy button puts on the clipboard: the inner `code`
      element's text when there is one, else the `pre`'s, trimmed. */
  function CopyText(p: Pre): (t: string)
    ensures p.code.Some? ==> exists k :: TrimmedAt(p.code.value, t, k)
    ensures p.code.None? ==> exists k :: TrimmedAt(p.text, t, k)
    ensures t == [] || (!IsSpace(t[0]) && !IsSpace(t[|t| - 1]))
  {
    Trim(if p.code.Some? then p.code.value else p.text)
  }

  /** The copy button's face: a check mark on success and a cross on failure
      for two seconds, then the clipboard again. */
  datatype Face = Face(caption: string, background: string)

  const IdleFace := Face("\U{1F4CB}", "#398fff")

  function CopyFeedback(copied: bool): (f: Face)
    ensures f != IdleFace
    ensures copied ==> f == Face("\U{2705}", "#28a745")
    ensures !copied ==> f == Face("\U{274C}", "#dc3545")
  {
    if copied then Face("\U{2705}", "#28a745") else Face("\U{274C}", "#dc3545")
  }
}
