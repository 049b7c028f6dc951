/** The documentation content loader (`contentLoaderHandler` in script.js):
    a click on an `a[data-page]` link resolves the attribute to a document
    path and an optional fragment, marks the link active, and either loads
    the document into `#content` or, on pages without that container,
    navigates the browser to it. */
module ContentLoader {
  import opened Web
  import opened Text

  /** A value is bare when it is neither an absolute URL, nor a root-relative
      path, nor already names an `.html` document. */
  predicate IsBare(page: string)
  {
    !StartsWith(page, "http") && !StartsWith(page, "/") && !Contains(page, ".html")
  }

  /** The full path: bare names live under `docs/`, everything else is used
      as written. */
  function ResolvePage(page: string): (full: string)
    ensures IsBare(page) <==> full != page
    ensures full == page || (StartsWith(full, "docs/") && full[5..] == page)
  {
    if IsBare(page) then "docs/" + page else page
  }

  /** `fullPath.split('#')` destructured into `[path, hash]`: the text before
      the first '#', and the segment between the first and the second '#'
      (absent when there is no '#'). */
  function SplitHash(full: string): (r: (string, Option<string>))
    ensures '#' !in r.0 && StartsWith(full, r.0)
    ensures r.1.None? <==> '#' !in full
    ensures r.1.None? ==> r.0 == full
    ensures r.1.Some? ==> var h := r.1.value;
      && '#' !in h
      && |r.0| + 1 + |h| <= |full|
      && full[|r.0|] == '#'
      && full[|r.0| + 1..|r.0| + 1 + |h|] == h
      && (|r.0| + 1 + |h| == |full| || full[|r.0| + 1 + |h|] == '#')
  {
    var i := IndexOf(full, "#");
    if i == -1 then
      forall k | 0 <= k < |full| ensures full[k] != '#' {
        AtSingle(full, '#', k);
      }
      (full, None)
    else
      forall k | 0 <= k < i ensures full[k] != '#' {
        AtSingle(full, '#', k);
      }
      AtSingle(full, '#', i);
      var rest := full[i + 1..];
      var j := IndexOf(rest, "#");
      var hash := if j == -1 then rest else rest[..j];
      forall k | 0 <= k < |hash| ensures hash[k] != '#' {
        AtSingle(rest, '#', k);
      }
      assert j != -1 ==> rest[j] == '#' by {
        if j != -1 { AtSingle(rest, '#', j); }
      }
      (full[..i], Some(hash))
  }

  /** Joins a path and an optional fragment with '#'. */
  function JoinHash(path: string, hash: Option<string>): string
  {
    if hash.Some? then path + "#" + hash.value else path
  }

  /** Splitting undoes joining, as long as neither part contains '#'. */
  lemma {:induction false} SplitJoin(path: string, hash: Option<string>)
    requires '#' !in path
    requires hash.Some? ==> '#' !in hash.value
    ensures SplitHash(JoinHash(path, hash)) == (path, hash)
  {
    var full := JoinHash(path, hash);
    var (p, h) := SplitHash(full);
    if hash.None? {
      assert '#' !in full;
    } else {
      assert full[|path|] == '#';
      assert '#' in full;
      forall k | 0 <= k < |p| ensures full[k] != '#' {
        assert full[k] == p[k];
      }
      forall k | 0 <= k < |path| ensures full[k] != '#' {
        assert full[k] == path[k];
      }
      assert full[|p|] == '#';
      assert |p| == |path|;
      assert p == path;
      forall k | |path| + 1 <= k < |full| ensures full[k] != '#' {
        assert full[k] == hash.value[k - |path| - 1];
      }
      assert |p| + 1 + |h.value| == |full|;
      assert h.value == full[|path| + 1..];
    }
  }

  /** `hash ? path + '#' + hash : path` — an empty hash is falsy. */
  function LinkUrl(path: string, hash: Option<string>): (url: string)
    ensures StartsWith(url, path)
    ensures url == path <==> hash.None? || hash.value == ""
  {
    if hash.Some? && hash.value != "" then path + "#" + hash.value else path
  }

  /** The document fetched for a path: `.html` is appended unless present. */
  function DocumentFile(path: string): (file: string)
    ensures EndsWith(file, ".html")
    ensures StartsWith(file, path)
    ensures |file| <= |path| + 5
    ensures '#' in file <==> '#' in path
    ensures EndsWith(path, ".html") ==> file == path
    ensures !EndsWith(path, ".html") ==> file == path + ".html"
  {
    if EndsWith(path, ".html") then path else path + ".html"
  }

  /** Appending `.html` happens at most once. */
  lemma DocumentFileIdempotent(path: string)
    ensures DocumentFile(DocumentFile(path)) == DocumentFile(path)
  {
  }

  /** For a path and a non-empty fragment without '#', the URL given to the
      browser is exactly the joined value. */
  lemma LinkUrlRebuildsPath(path: string, hash: Option<string>)
    requires '#' !in path
    requires hash.Some? ==> '#' !in hash.value && hash.value != ""
    ensures var (p, h) := SplitHash(JoinHash(path, hash)); LinkUrl(p, h) == JoinHash(path, hash)
  {
    SplitJoin(path, hash);
  }

  /** An `a[data-page]` element: its attribute value and its `active` class. */
  datatype Link = Link(page: string, active: bool)

  /** What the handler does after the click. */
  datatype Effect =
    | Ignored                                   // not a data-page link, or an empty value
    | Navigate(url: string)                     // no `#content`: full navigation
    | Load(file: string, hash: Option<string>)  // fetch `file` into `#content`

  /** `contentLoaderHandler`: `target` is the index of the `a[data-page]` the
      click landed in (`closest`), if any; `hasContent` whether the page has
      a `#content` container. */
  function HandleClick(links: seq<Link>, target: Option<nat>, hasContent: bool): (r: (seq<Link>, Effect))
    ensures |r.0| == |links|
    ensures forall k :: 0 <= k < |links| ==> r.0[k].page == links[k].page
    ensures r.1.Ignored? <==> target.None? || target.value >= |links| || links[target.value].page == ""
    ensures r.1.Ignored? ==> r.0 == links
    ensures !r.1.Ignored? ==> forall k :: 0 <= k < |links| ==> (r.0[k].active <==> k == target.value)
    ensures r.1.Navigate? <==> !r.1.Ignored? && !hasContent
    ensures r.1.Load? ==> EndsWith(r.1.file, ".html") && '#' !in r.1.file
    ensures !r.1.Ignored? ==> var (p, h) := SplitHash(ResolvePage(links[target.value].page));
      && (r.1.Navigate? ==> r.1.url == LinkUrl(p, h))
      && (r.1.Load? ==> r.1 == Load(DocumentFile(p), h))
  {
    if target.None? || target.value >= |links| || links[target.value].page == "" then (links, Ignored)
    else
      var marked := MarkActive(links, target.value);
      var (path, hash) := SplitHash(ResolvePage(links[target.value].page));
      if !hasContent then (marked, Navigate(LinkUrl(path, hash)))
      else (marked, Load(DocumentFile(path), hash))
  }

  /** Every link loses `active`, then the clicked one gains it. */
  function MarkActive(links: seq<Link>, t: nat): (r: seq<Link>)
    ensures |r| == |links|
    ensures forall k :: 0 <= k < |links| ==> r[k].page == links[k].page && (r[k].active <==> k == t)
  {
    seq(|links|, k requires 0 <= k < |links| => links[k].(active := k == t))
  }

  /** A bare page name without fragment is fetched from `docs/<name>.html`. */
  lemma BareNameFetchesFromDocs(page: string)
    requires page != "" && IsBare(page) && '#' !in page
    ensures HandleClick([Link(page, false)], Some(0), true).1 == Load("docs/" + page + ".html", None)
  {
    var full := "docs/" + page;
    assert '#' !in full by {
      forall k | 0 <= k < |full| ensures full[k] != '#' {
        if k >= 5 { assert full[k] == page[k - 5]; }
      }
    }
    if |page| >= 5 {
      assert full[|full| - 5..] == page[|page| - 5..];
      assert !At(page, ".html", |page| - 5);
    } else {
      assert full[|full| - 5] == "docs/"[|page|];
    }
    assert !EndsWith(full, ".html");
  }

  /** The markup `#content` ends up with once the fetch settles: the document
      on a 2xx response, the "Page not found." notice otherwise. */
  function LoadedContent(response: Response): (html: string)
    ensures response.Succeeded() ==> html == response.body
    ensures !response.Succeeded() ==> html == NotFoundMarkup
  {
    if response.Succeeded() then response.body else NotFoundMarkup
  }

  const LoadingMarkup := "<div class=\"content-wrapper\"><h1>Loading...</h1></div>"
  const NotFoundMarkup := "<div class=\"content-wrapper\"><h1>Error</h1><p>Page not found.</p></div>"

  /** `initializeContentLoader`: remove-then-add of the delegated handler. */
  function InitializeContentLoader(clickListeners: seq<Handler>): (r: seq<Handler>)
    ensures Occurrences(r, "contentLoaderHandler") == 1
    ensures forall g :: g != "contentLoaderHandler" ==> Occurrences(r, g) == Occurrences(clickListeners, g)
  {
    Register(clickListeners, "contentLoaderHandler")
  }

  /** However often the sidebar and footer re-run initialisation, one
      handler is registered. */
  lemma InitializeContentLoaderIdempotent(clickListeners: seq<Handler>)
    ensures InitializeContentLoader(InitializeContentLoader(clickListeners)) == InitializeContentLoader(clickListeners)
  {
    RegisterIdempotent(clickListeners, "contentLoaderHandler");
  }
}
