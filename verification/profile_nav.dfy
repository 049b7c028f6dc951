/** The single-page profile navigation of profile/profile_script.js: sidebar
    clicks load `<page>.html` into `#main-content`, record the page in the
    session history, and move the `active` class; the back and forward
    buttons replay the recorded page. */
module ProfileNav {
  import opened Web

  /** An element with a `data-page` attribute in `#profile-sidebar`. */
  datatype NavLink = NavLink(page: string, active: bool)

  /** A session-history entry: its state's `page` (absent for the entry the
      document was first loaded with) and its URL. */
  datatype Entry = Entry(state: Option<string>, url: string)

  /** The session history: the entries and the current position. */
  datatype History = History(entries: seq<Entry>, cursor: nat)
  {
    predicate Valid() { cursor < |entries| }
  }

  /** `history.pushState`: drops every entry after the current one and
      appends the new one. */
  function Push(h: History, e: Entry): (r: History)
    requires h.Valid()
    ensures r.Valid() && r.cursor == h.cursor + 1
    ensures r.entries == h.entries[..h.cursor + 1] + [e]
  {
    History(h.entries[..h.cursor + 1] + [e], h.cursor + 1)
  }

  datatype Nav = Nav(main: string, history: History, links: seq<NavLink>)

  const ErrorMarkup := "<p>Error loading content.</p>"
  const UrlPrefix := "/tyxar_web/profile/"

  /** The file fetched for a page, relative to the profile directory. */
  function PageFile(page: string): string
  {
    page + ".html"
  }

  /** `updateActiveSidebarItem(p)`: a link is active exactly when its page is `p`. */
  function UpdateActiveSidebarItem(links: seq<NavLink>, p: string): (r: seq<NavLink>)
    ensures |r| == |links|
    ensures forall k :: 0 <= k < |links| ==> r[k].page == links[k].page && (r[k].active <==> links[k].page == p)
  {
    seq(|links|, k requires 0 <= k < |links| => NavLink(links[k].page, links[k].page == p))
  }

  /** When the sidebar's pages are distinct, at most one link is active. */
  lemma AtMostOneActive(links: seq<NavLink>, p: string)
    requires forall i, j :: 0 <= i < j < |links| ==> links[i].page != links[j].page
    ensures var r := UpdateActiveSidebarItem(links, p);
      forall i, j :: 0 <= i < |r| && 0 <= j < |r| && r[i].active && r[j].active ==> i == j
  {
  }

  /** `loadContent(page)` with the response to `fetch(page + ".html")`: on a
      2xx response the fragment replaces the main content, the page is
      pushed onto the history with URL `/tyxar_web/profile/<page>`, and the
      sidebar follows; otherwise only the error paragraph is written. */
  function LoadContent(s: Nav, page: string, response: Response): (r: Nav)
    requires s.history.Valid()
    ensures r.history.Valid()
    ensures response.Succeeded() ==>
      && r.main == response.body
      && r.history == Push(s.history, Entry(Some(page), UrlPrefix + page))
      && r.links == UpdateActiveSidebarItem(s.links, page)
    ensures !response.Succeeded() ==> r == s.(main := ErrorMarkup)
  {
    if response.Succeeded() then
      Nav(response.body, Push(s.history, Entry(Some(page), UrlPrefix + page)), UpdateActiveSidebarItem(s.links, page))
    else s.(main := ErrorMarkup)
  }

  /** What a click in the sidebar leads to. */
  datatype Click =
    | Ignored                // not inside an element with `data-page`
    | Logout(called: bool)   // `logout()` called when it is defined
    | Fetch(file: string)    // `loadContent(page)`

  /** The sidebar's click listener; `target` is the `[data-page]` element
      the click landed in, if any. */
  function SidebarClick(s: Nav, target: Option<nat>, logoutDefined: bool, response: Response): (r: (Nav, Click))
    requires s.history.Valid()
    ensures r.0.history.Valid()
    ensures r.1.Ignored? <==> target.None? || target.value >= |s.links|
    ensures r.1.Logout? <==> !r.1.Ignored? && s.links[target.value].page == "logout"
    ensures r.1.Logout? ==> r.1.called == logoutDefined
    ensures !r.1.Fetch? ==> r.0 == s
    ensures r.1.Fetch? ==> var page := s.links[target.value].page;
      r.1.file == PageFile(page) && r.0 == LoadContent(s, page, response)
  {
    if target.None? || target.value >= |s.links| then (s, Ignored)
    else
      var page := s.links[target.value].page;
      if page == "logout" then (s, Logout(logoutDefined))
      else (LoadContent(s, page, response), Fetch(PageFile(page)))
  }

  /** Only an entry whose state carries a non-empty page is replayed. */
  predicate Replays(e: Entry)
  {
    e.state.Some? && e.state.value != ""
  }

  /** The `popstate` listener as written: it calls `loadContent`, which
      pushes the replayed page as a new entry. */
  function PopstateAsWritten(s: Nav, response: Response): (r: Nav)
    requires s.history.Valid()
    ensures r.history.Valid()
    ensures !Replays(s.history.entries[s.history.cursor]) ==> r == s
    ensures Replays(s.history.entries[s.history.cursor]) ==>
      r == LoadContent(s, s.history.entries[s.history.cursor].state.value, response)
  {
    var e := s.history.entries[s.history.cursor];
    if Replays(e) then LoadContent(s, e.state.value, response) else s
  }

  /** The back button with the listener as written. Going back from the first
      entry leaves the page, which is outside this model. */
  function GoBackAsWritten(s: Nav, response: Response): (r: Nav)
    requires s.history.Valid()
    ensures r.history.Valid()
    ensures s.history.cursor == 0 ==> r == s
    ensures s.history.cursor > 0 ==>
      var b := s.history.cursor - 1;
      var e := s.history.entries[b];
      && (!Replays(e) ==> r == s.(history := History(s.history.entries, b)))
      && (Replays(e) && !response.Succeeded() ==>
            r == s.(history := History(s.history.entries, b), main := ErrorMarkup))
      && (Replays(e) && response.Succeeded() ==>
            && r.main == response.body
            && r.history == History(s.history.entries[..b + 1] + [Entry(Some(e.state.value), UrlPrefix + e.state.value)], b + 1)
            && r.links == UpdateActiveSidebarItem(s.links, e.state.value))
  {
    if s.history.cursor == 0 then s
    else PopstateAsWritten(s.(history := s.history.(cursor := s.history.cursor - 1)), response)
  }

  /** Going back to a replayable entry and loading it successfully throws
      the entry that was current away: the history now ends with a copy of
      the entry gone back to, so the forward button has nowhere to go. */
  lemma BackDiscardsForwardEntries(s: Nav, response: Response)
    requires s.history.Valid() && s.history.cursor > 0
    requires Replays(s.history.entries[s.history.cursor - 1]) && response.Succeeded()
    ensures var r := GoBackAsWritten(s, response);
      && r.history.cursor == s.history.cursor
      && |r.history.entries| == s.history.cursor + 1
      && r.history.entries[..s.history.cursor] == s.history.entries[..s.history.cursor]
      && r.history.entries[s.history.cursor].state == s.history.entries[s.history.cursor - 1].state
  {
  }

  /** A concrete instance: after visiting the overview and then the account
      page, going back leaves no account entry in the history. */
  lemma BackForgetsAccountPage()
    ensures var o := Entry(Some("overview"), "/tyxar_web/profile/overview");
      var a := Entry(Some("account"), "/tyxar_web/profile/account");
      var s := Nav("account", History([o, a], 1), []);
      var r := GoBackAsWritten(s, Received(true, "overview"));
      a in s.history.entries && a !in r.history.entries
  {
    var o := Entry(Some("overview"), "/tyxar_web/profile/overview");
    var a := Entry(Some("account"), "/tyxar_web/profile/account");
    var s := Nav("account", History([o, a], 1), []);
    assert UrlPrefix + "overview" == o.url;
    assert [o, a][..1] == [o];
    var r := GoBackAsWritten(s, Received(true, "overview"));
    assert r.history.entries == [o, o];
  }

  /** `loadContent` without the history push, as a replay needs it. */
  function ReplayContent(s: Nav, page: string, response: Response): (r: Nav)
    ensures r.history == s.history
    ensures response.Succeeded() ==> r.main == response.body && r.links == UpdateActiveSidebarItem(s.links, page)
    ensures !response.Succeeded() ==> r == s.(main := ErrorMarkup)
  {
    if response.Succeeded() then Nav(response.body, s.history, UpdateActiveSidebarItem(s.links, page))
    else s.(main := ErrorMarkup)
  }

  /** The `popstate` listener as evidently intended: it replays the page
      without recording a new entry. */
  function Popstate(s: Nav, response: Response): (r: Nav)
    requires s.history.Valid()
    ensures r.history == s.history
    ensures !Replays(s.history.entries[s.history.cursor]) ==> r == s
    ensures Replays(s.history.entries[s.history.cursor]) && response.Succeeded() ==>
      r.main == response.body
      && r.links == UpdateActiveSidebarItem(s.links, s.history.entries[s.history.cursor].state.value)
    ensures Replays(s.history.entries[s.history.cursor]) && !response.Succeeded() ==> r == s.(main := ErrorMarkup)
  {
    var e := s.history.entries[s.history.cursor];
    if Replays(e) then ReplayContent(s, e.state.value, response) else s
  }

  function GoBack(s: Nav, response: Response): (r: Nav)
    requires s.history.Valid()
    ensures r.history.Valid()
    ensures r.history.entries == s.history.entries
    ensures r.history.cursor == if s.history.cursor == 0 then 0 else s.history.cursor - 1
  {
    if s.history.cursor == 0 then s
    else Popstate(s.(history := s.history.(cursor := s.history.cursor - 1)), response)
  }

  function GoForward(s: Nav, response: Response): (r: Nav)
    requires s.history.Valid()
    ensures r.history.Valid()
    ensures r.history.entries == s.history.entries
    ensures r.history.cursor == if s.history.cursor + 1 < |s.history.entries| then s.history.cursor + 1 else s.history.cursor
  {
    if s.history.cursor + 1 >= |s.history.entries| then s
    else Popstate(s.(history := s.history.(cursor := s.history.cursor + 1)), response)
  }

  /** With the intended listener, back then forward returns to the same
      place in an unchanged history, and a successful replay shows the page
      of the entry returned to. */
  lemma {:induction false} BackThenForward(s: Nav, r1: Response, r2: Response)
    requires s.history.Valid() && s.history.cursor > 0
    ensures var t := GoForward(GoBack(s, r1), r2);
      && t.history == s.history
      && (Replays(s.history.entries[s.history.cursor]) && r2.Succeeded() ==> t.main == r2.body)
  {
    var b := GoBack(s, r1);
    assert b.history.cursor + 1 < |b.history.entries|;
  }
}
