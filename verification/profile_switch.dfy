/** The dashboard content switcher of profile_script.js: a click on a
    `.sidebar-link[data-page]` marks that link active and loads the page's
    fragment into `#profileContent`. */
module ProfileSwitch {
  import opened Web
  import opened Text

  const UrlPrefix := "/tyxar_web/profile/"
  const UrlSuffix := ".html"

  /** The pages with a fragment of their own. */
  predicate KnownPage(page: string)
  {
    page == "overview" || page == "account" || page == "settings" || page == "activity"
  }

  /** The `switch` in `loadContent`: a known page maps to its own fragment,
      anything else to the overview. */
  function ContentUrl(page: string): (url: string)
    ensures KnownPage(page) ==> url == UrlPrefix + page + UrlSuffix
    ensures !KnownPage(page) ==> url == UrlPrefix + "overview" + UrlSuffix
  {
    match page
    case "overview" => "/tyxar_web/profile/overview.html"
    case "account" => "/tyxar_web/profile/account.html"
    case "settings" => "/tyxar_web/profile/settings.html"
    case "activity" => "/tyxar_web/profile/activity.html"
    case _ => "/tyxar_web/profile/overview.html"
  }

  /** The page a fragment URL belongs to: the part between prefix and suffix. */
  function PageOfUrl(url: string): (page: string)
    requires StartsWith(url, UrlPrefix) && |url| >= |UrlPrefix| + |UrlSuffix|
  {
    url[|UrlPrefix|..|url| - |UrlSuffix|]
  }

  /** Reading the page back out of the URL gives the page for every known
      page, and the overview for every other one. */
  lemma {:induction false} ContentUrlRoundTrip(page: string)
    ensures var url := ContentUrl(page);
      StartsWith(url, UrlPrefix) && EndsWith(url, UrlSuffix)
      && |url| >= |UrlPrefix| + |UrlSuffix|
      && PageOfUrl(url) == (if KnownPage(page) then page else "overview")
  {
    var p := if KnownPage(page) then page else "overview";
    var url := UrlPrefix + p + UrlSuffix;
    assert ContentUrl(page) == url;
    assert url[..|UrlPrefix|] == UrlPrefix;
    assert url[|UrlPrefix|..|url| - |UrlSuffix|] == p;
    assert url[|url| - |UrlSuffix|..] == UrlSuffix;
  }

  /** Two pages fetch the same fragment exactly when they name the same
      known page or both fall back to the overview. */
  lemma ContentUrlSame(p: string, q: string)
    ensures ContentUrl(p) == ContentUrl(q) <==>
      (if KnownPage(p) then p else "overview") == (if KnownPage(q) then q else "overview")
  {
    ContentUrlRoundTrip(p);
    ContentUrlRoundTrip(q);
  }

  const LoadingMarkup := "<div class=\"content-loading\"><div class=\"loading-spinner\"></div><p>Loading...</p></div>"

  function ErrorMarkup(page: string): string
  {
    "<div class=\"content-error\"><h3>Error</h3><p>Could not load " + page + " content.</p></div>"
  }

  /** What `loadContent` does: nothing without the container; otherwise it
      shows the spinner, fetches `url`, and ends with `html` in the
      container. */
  datatype Load = NoContainer | Loaded(url: string, html: string)

  function LoadContent(hasContainer: bool, page: string, response: Response): (r: Load)
    ensures r.NoContainer? <==> !hasContainer
    ensures r.Loaded? ==> r.url == ContentUrl(page)
    ensures r.Loaded? && response.Succeeded() ==> r.html == response.body
    ensures r.Loaded? && !response.Succeeded() ==> r.html == ErrorMarkup(page)
  {
    if !hasContainer then NoContainer
    else Loaded(ContentUrl(page), if response.Succeeded() then response.body else ErrorMarkup(page))
  }

  /** The error notice names the page that was asked for, even an unknown one
      whose overview fragment failed. */
  lemma ErrorNamesPage(page: string, response: Response)
    requires !response.Succeeded()
    ensures var r := LoadContent(true, page, response);
      r.Loaded? && exists i :: At(r.html, page, i)
  {
    var m := ErrorMarkup(page);
    var pre := "<div class=\"content-error\"><h3>Error</h3><p>Could not load ";
    assert m[|pre|..|pre| + |page|] == page;
    assert At(m, page, |pre|);
  }

  /** A `.sidebar-link`: its `data-page` attribute if it has one, and its
      `active` class. */
  datatype SidebarLink = SidebarLink(page: Option<string>, active: bool)

  datatype Effect =
    | Ignored              // not inside a `.sidebar-link[data-page]`
    | Prevented            // default prevented, but the page value is empty
    | Switch(page: string) // links updated and the page loaded

  /** `profileContentHandler`: `target` is the `.sidebar-link[data-page]`
      the click landed in, if any. */
  function HandleClick(links: seq<SidebarLink>, target: Option<nat>): (r: (seq<SidebarLink>, Effect))
    ensures |r.0| == |links|
    ensures forall k :: 0 <= k < |links| ==> r.0[k].page == links[k].page
    ensures r.1.Ignored? <==> target.None? || target.value >= |links| || links[target.value].page.None?
    ensures r.1.Switch? ==> r.1.page == links[target.value].page.value && r.1.page != ""
    ensures r.1.Switch? <==> !r.1.Ignored? && links[target.value].page.value != ""
    ensures !r.1.Switch? ==> r.0 == links
    ensures r.1.Switch? ==> forall k :: 0 <= k < |links| ==> (r.0[k].active <==> k == target.value)
  {
    if target.None? || target.value >= |links| || links[target.value].page.None? then (links, Ignored)
    else
      var t := target.value;
      var page := links[t].page.value;
      if page == "" then (links, Prevented)
      else (seq(|links|, k requires 0 <= k < |links| => links[k].(active := k == t)), Switch(page))
  }

  /** After a switch exactly one link is active. */
  lemma SwitchLeavesOneActive(links: seq<SidebarLink>, target: Option<nat>)
    requires HandleClick(links, target).1.Switch?
    ensures var r := HandleClick(links, target).0;
      |set k | 0 <= k < |r| && r[k].active| == 1
  {
    var r := HandleClick(links, target).0;
    assert (set k | 0 <= k < |r| && r[k].active) == {target.value};
  }

  /** `initializeContentSwitching`: remove-then-add of the delegated handler. */
  function InitializeContentSwitching(clickListeners: seq<Handler>): (r: seq<Handler>)
    ensures Occurrences(r, "profileContentHandler") == 1
    ensures forall g :: g != "profileContentHandler" ==> Occurrences(r, g) == Occurrences(clickListeners, g)
  {
    Register(clickListeners, "profileContentHandler")
  }

  /** The dashboard initialises switching once directly and once more after
      the sidebar arrives; the second run changes nothing. */
  lemma InitializeContentSwitchingIdempotent(clickListeners: seq<Handler>)
    ensures InitializeContentSwitching(InitializeContentSwitching(clickListeners)) == InitializeContentSwitching(clickListeners)
  {
    RegisterIdempotent(clickListeners, "profileContentHandler");
  }
}
