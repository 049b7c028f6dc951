/** The in-page search of `initializeSearch` (script.js): case-insensitive
    containment and occurrence counting, snippet windowing, highlighting,
    the per-page search with its body cache, and the ranking of the hits.

    Regular expressions built from the escaped query are literal,
    case-insensitive matches: leftmost first, non-overlapping. The markup
    stripping of `extractText` is not modelled: a fetched page body stands
    for the text extracted from it. */
module Search {
  import opened Web
  import opened Text
  import Sorting

  /** The query occurs in `t` at `i`, ignoring case. */
  predicate MatchAt(t: string, q: string, i: int)
  {
    At(Lower(t), Lower(q), i)
  }

  // ---------------------------------------------------------------------
  // Highlighting (`highlightText`)

  /** One piece of highlighted output: a character copied as is, or a match
      wrapped in a highlight span. */
  datatype Piece = Plain(c: char) | Mark(text: string)

  const HighlightOpen := "<span class=\"highlight\">"
  const HighlightClose := "</span>"

  /** The text a list of pieces carries, spans stripped. */
  function Raw(ps: seq<Piece>): string
  {
    if |ps| == 0 then ""
    else (match ps[0] case Plain(c) => [c] case Mark(s) => s) + Raw(ps[1..])
  }

  /** The markup a list of pieces renders to. */
  function Render(ps: seq<Piece>): string
  {
    if |ps| == 0 then ""
    else (match ps[0]
          case Plain(c) => [c]
          case Mark(s) => HighlightOpen + s + HighlightClose) + Render(ps[1..])
  }

  function NumMarks(ps: seq<Piece>): nat
  {
    if |ps| == 0 then 0 else (if ps[0].Mark? then 1 else 0) + NumMarks(ps[1..])
  }

  /** Every character of `t`, unmarked. */
  function Plains(t: string): (ps: seq<Piece>)
    ensures Raw(ps) == t && Render(ps) == t && NumMarks(ps) == 0
    ensures forall j :: 0 <= j < |ps| ==> ps[j].Plain?
  {
    if |t| == 0 then []
    else
      var rest := Plains(t[1..]);
      assert ([Plain(t[0])] + rest)[1..] == rest;
      [Plain(t[0])] + rest
  }

  /** The replacement `text.replace(/(query)/gi, '<span class="highlight">$1</span>')`
      as pieces: scanning left to right, a case-insensitive match is wrapped
      (keeping its original letters) and scanning resumes after it. */
  function HighlightPieces(t: string, q: string): (ps: seq<Piece>)
    ensures Raw(ps) == t
    ensures forall j :: 0 <= j < |ps| && ps[j].Mark? ==> q != "" && |ps[j].text| == |q| && Lower(ps[j].text) == Lower(q)
    decreases |t|
  {
    if q == "" || |t| < |q| then Plains(t)
    else if Lower(t[..|q|]) == Lower(q) then
      var rest := HighlightPieces(t[|q|..], q);
      assert ([Mark(t[..|q|])] + rest)[1..] == rest;
      assert t == t[..|q|] + t[|q|..];
      [Mark(t[..|q|])] + rest
    else
      var rest := HighlightPieces(t[1..], q);
      assert ([Plain(t[0])] + rest)[1..] == rest;
      assert t == [t[0]] + t[1..];
      [Plain(t[0])] + rest
  }

  /** The pieces of an unmarked text, from any position on, carry the rest
      of the text. */
  lemma {:induction false} PlainsSuffix(t: string)
    ensures |Plains(t)| == |t|
    ensures forall j :: 0 <= j <= |t| ==> Raw(Plains(t)[j..]) == t[j..]
    decreases |t|
  {
    if |t| > 0 {
      var ps := Plains(t);
      var rest := Plains(t[1..]);
      PlainsSuffix(t[1..]);
      assert ps == [Plain(t[0])] + rest;
      forall j | 1 <= j <= |t| ensures Raw(ps[j..]) == t[j..] {
        assert ps[j..] == rest[j - 1..];
        assert t[1..][j - 1..] == t[j..];
      }
    }
  }

  /** No unmarked character of `ps` starts a case-insensitive match of `q`
      in the text that follows it. */
  predicate Leftmost(ps: seq<Piece>, q: string)
  {
    forall j :: 0 <= j < |ps| && ps[j].Plain? ==> !MatchAt(Raw(ps[j..]), q, 0)
  }

  lemma LeftmostCons(x: Piece, rest: seq<Piece>, q: string)
    requires Leftmost(rest, q)
    requires x.Plain? ==> !MatchAt(Raw([x] + rest), q, 0)
    ensures Leftmost([x] + rest, q)
  {
    var ps := [x] + rest;
    forall j | 0 <= j < |ps| && ps[j].Plain? ensures !MatchAt(Raw(ps[j..]), q, 0) {
      if j > 0 {
        assert ps[j..] == rest[j - 1..];
        assert ps[j] == rest[j - 1];
      }
    }
  }

  /** The spans are placed leftmost: no character left unmarked starts a
      case-insensitive match of the query in the text that follows it. */
  lemma {:induction false} HighlightLeftmost(t: string, q: string)
    requires q != ""
    ensures Leftmost(HighlightPieces(t, q), q)
    decreases |t|
  {
    if |t| < |q| {
      PlainsSuffix(t);
    } else if Lower(t[..|q|]) == Lower(q) {
      var rest := HighlightPieces(t[|q|..], q);
      HighlightLeftmost(t[|q|..], q);
      LeftmostCons(Mark(t[..|q|]), rest, q);
    } else {
      var rest := HighlightPieces(t[1..], q);
      HighlightLeftmost(t[1..], q);
      assert Raw([Plain(t[0])] + rest) == t;
      LowerTake(t, |q|);
      assert Lower(t)[0..0 + |Lower(q)|] == Lower(t[..|q|]);
      LeftmostCons(Plain(t[0]), rest, q);
    }
  }

  /** `highlightText(text, query)`. */
  function HighlightText(t: string, q: string): (r: string)
    ensures q == "" ==> r == t
  {
    if q == "" then t else Render(HighlightPieces(t, q))
  }

  // ---------------------------------------------------------------------
  // Relevance (`searchInContent`)

  /** Number of leftmost non-overlapping occurrences of `p` in `s`, as
      `(s.match(new RegExp(p, 'g')) || []).length` counts them; the empty
      pattern matches at every position, end included. */
  function CountOcc(s: string, p: string): (n: nat)
    ensures p != "" ==> n * |p| <= |s|
    decreases |s|
  {
    if p == "" then |s| + 1
    else if |s| < |p| then 0
    else if s[..|p|] == p then 1 + CountOcc(s[|p|..], p)
    else CountOcc(s[1..], p)
  }

  /** A page counts some occurrence exactly when it contains the query. */
  lemma {:induction false} CountPositiveIffContains(s: string, p: string)
    ensures CountOcc(s, p) > 0 <==> Contains(s, p)
    decreases |s|
  {
    if p == "" {
      assert At(s, p, 0);
    } else if |s| < |p| {
      forall i | 0 <= i <= |s| ensures !At(s, p, i) { }
    } else if s[..|p|] == p {
      assert At(s, p, 0);
    } else {
      CountPositiveIffContains(s[1..], p);
      if Contains(s, p) {
        var i :| 0 <= i <= |s| && At(s, p, i);
        assert i != 0;
        assert At(s[1..], p, i - 1) by {
          assert s[1..][i - 1..i - 1 + |p|] == s[i..i + |p|];
        }
      }
      if Contains(s[1..], p) {
        var i :| 0 <= i <= |s[1..]| && At(s[1..], p, i);
        assert At(s, p, i + 1) by {
          assert s[1..][i..i + |p|] == s[i + 1..i + 1 + |p|];
        }
      }
    }
  }

  /** The number of spans the highlighter would put into a text is the
      relevance the page gets for it. */
  lemma {:induction false} MarksAreOccurrences(t: string, q: string)
    requires q != ""
    ensures NumMarks(HighlightPieces(t, q)) == CountOcc(Lower(t), Lower(q))
    decreases |t|
  {
    var lt, lq := Lower(t), Lower(q);
    var ps := HighlightPieces(t, q);
    if |t| < |q| {
      assert CountOcc(lt, lq) == 0;
    } else {
      LowerTake(t, |q|);
      if Lower(t[..|q|]) == lq {
        var rest := HighlightPieces(t[|q|..], q);
        assert ps == [Mark(t[..|q|])] + rest;
        assert ps[1..] == rest;
        assert NumMarks(ps) == 1 + NumMarks(rest);
        LowerDrop(t, |q|);
        assert CountOcc(lt, lq) == 1 + CountOcc(Lower(t[|q|..]), lq);
        MarksAreOccurrences(t[|q|..], q);
      } else {
        var rest := HighlightPieces(t[1..], q);
        assert ps == [Plain(t[0])] + rest;
        assert ps[1..] == rest;
        assert NumMarks(ps) == NumMarks(rest);
        LowerDrop(t, 1);
        assert CountOcc(lt, lq) == CountOcc(Lower(t[1..]), lq);
        MarksAreOccurrences(t[1..], q);
      }
    }
  }

  // ---------------------------------------------------------------------
  // Snippets (`getSnippet`)

  const MaxLength := 150
  const Before := 50
  const After := 100
  const Ellipsis := "..."

  function Min(a: int, b: int): int { if a <= b then a else b }
  function Max(a: int, b: int): int { if a >= b then a else b }

  /** The window `text.substring(start, end)` around the first match `i`:
      at most 50 characters before it and 100 after it. */
  function Window(text: string, q: string, i: nat): (w: (nat, nat))
    requires i + |q| <= |text|
    ensures w.0 <= i && i + |q| <= w.1 <= |text|
    ensures w.0 == 0 || i - w.0 == Before
    ensures w.1 == |text| || w.1 - (i + |q|) == After
    ensures i - w.0 <= Before && w.1 - (i + |q|) <= After
  {
    (Max(0, i - Before), Min(|text|, i + |q| + After))
  }

  /** `text[s..e]`, with an ellipsis in front when it does not start the
      text and one behind when it does not end it. */
  function Framed(text: string, s: nat, e: nat): (r: string)
    requires s <= e <= |text|
    ensures |r| == (if s > 0 then |Ellipsis| else 0) + (e - s) + (if e < |text| then |Ellipsis| else 0)
    ensures s > 0 ==> r[..|Ellipsis|] == Ellipsis && r[|Ellipsis|..|Ellipsis| + (e - s)] == text[s..e]
    ensures s == 0 ==> r[..e - s] == text[s..e]
    ensures e < |text| ==> r[|r| - |Ellipsis|..] == Ellipsis
  {
    (if s > 0 then Ellipsis else "") + text[s..e] + (if e < |text| then Ellipsis else "")
  }

  /** The snippet before highlighting: the framed window around the first
      match, or the first 150 characters and an ellipsis. */
  function SnippetText(text: string, q: string): (r: string)
    ensures !Contains(Lower(text), Lower(q)) ==>
      |r| == Min(MaxLength, |text|) + |Ellipsis| && r[..|r| - |Ellipsis|] == text[..Min(MaxLength, |text|)]
      && r[|r| - |Ellipsis|..] == Ellipsis
    ensures Contains(Lower(text), Lower(q)) ==> var i := IndexOf(Lower(text), Lower(q));
      i + |q| <= |text| && r == Framed(text, Window(text, q, i).0, Window(text, q, i).1)
  {
    var i := IndexOf(Lower(text), Lower(q));
    if i == -1 then text[..Min(MaxLength, |text|)] + Ellipsis
    else
      var (s, e) := Window(text, q, i);
      Framed(text, s, e)
  }

  /** `getSnippet(text, query)`: a text without the query gives its first
      150 characters and an ellipsis, unhighlighted; otherwise the window is
      highlighted. */
  function Snippet(text: string, q: string): (r: string)
    ensures !Contains(Lower(text), Lower(q)) ==> r == SnippetText(text, q)
  {
    if IndexOf(Lower(text), Lower(q)) == -1 then SnippetText(text, q)
    else HighlightText(SnippetText(text, q), q)
  }

  /** The snippet of a matching text holds the first match and is at most
      156 characters longer than the query. */
  lemma {:induction false} SnippetHoldsMatch(text: string, q: string)
    requires Contains(Lower(text), Lower(q))
    ensures |SnippetText(text, q)| <= |q| + 2 * |Ellipsis| + MaxLength
    ensures exists k :: MatchAt(SnippetText(text, q), q, k)
  {
    var i := IndexOf(Lower(text), Lower(q));
    var (s, e) := Window(text, q, i);
    var r := SnippetText(text, q);
    assert r == Framed(text, s, e);
    var k := FramedHoldsMatch(text, q, i, s, e);
  }

  /** A match inside `text[s..e]` survives putting any `pre` in front and
      any `post` behind. */
  lemma MiddleMatch(pre: string, text: string, post: string, q: string, i: nat, s: nat, e: nat)
    requires At(Lower(text), Lower(q), i)
    requires s <= i && i + |q| <= e <= |text|
    ensures MatchAt(pre + text[s..e] + post, q, |pre| + (i - s))
  {
    var r := pre + text[s..e] + post;
    var k := |pre| + (i - s);
    assert r[k..k + |q|] == text[i..i + |q|] by {
      SliceOfMiddle(pre, text[s..e], post, i - s, i - s + |q|);
      SliceOfSlice(text, s, e, i - s, i - s + |q|);
    }
    LowerSlice(r, k, k + |q|);
    LowerSlice(text, i, i + |q|);
  }

  /** A framed window around a match holds that match, shifted by the
      width of the front ellipsis. */
  lemma FramedHoldsMatch(text: string, q: string, i: nat, s: nat, e: nat) returns (k: nat)
    requires At(Lower(text), Lower(q), i)
    requires s <= i && i + |q| <= e <= |text|
    ensures MatchAt(Framed(text, s, e), q, k)
  {
    var pre := if s > 0 then Ellipsis else "";
    var post := if e < |text| then Ellipsis else "";
    assert Framed(text, s, e) == pre + text[s..e] + post;
    k := |pre| + (i - s);
    MiddleMatch(pre, text, post, q, i, s, e);
  }

  // ---------------------------------------------------------------------
  // One page (`searchInContent`, `searchPage`)

  datatype Page = Page(url: string, title: string)
  datatype Hit = Hit(url: string, title: string, snippet: string, relevance: nat)

  /** `searchInContent(text, page, query)`: no hit exactly when the
      lowercased text does not include the lowercased query; a hit carries
      the page, the snippet and a relevance of at least one. */
  function SearchInContent(text: string, page: Page, q: string): (r: Option<Hit>)
    ensures r.None? <==> !Contains(Lower(text), Lower(q))
    ensures r.Some? ==> && r.value.url == page.url && r.value.title == page.title
                        && r.value.relevance >= 1
                        && r.value.relevance == CountOcc(Lower(text), Lower(q))
                        && r.value.snippet == Snippet(text, q)
  {
    if !Contains(Lower(text), Lower(q)) then None
    else
      CountPositiveIffContains(Lower(text), Lower(q));
      Some(Hit(page.url, page.title, Snippet(text, q), CountOcc(Lower(text), Lower(q))))
  }

  /** A cache entry is used only when it is non-empty (an empty string is
      falsy). */
  predicate Cached(cache: map<string, string>, url: string)
  {
    url in cache && cache[url] != ""
  }

  /** `searchPage(page, query)`: the cached body if there is one, otherwise
      the fetched one, which is then cached; a non-2xx response or a failure
      gives no hit and leaves the cache alone. */
  function SearchPage(cache: map<string, string>, page: Page, q: string, response: Response): (r: (Option<Hit>, map<string, string>))
    ensures Cached(cache, page.url) ==> r == (SearchInContent(cache[page.url], page, q), cache)
    ensures !Cached(cache, page.url) && response.Succeeded() ==>
      r == (SearchInContent(response.body, page, q), cache[page.url := response.body])
    ensures !Cached(cache, page.url) && !response.Succeeded() ==> r == (None, cache)
  {
    if Cached(cache, page.url) then (SearchInContent(cache[page.url], page, q), cache)
    else if response.Succeeded() then (SearchInContent(response.body, page, q), cache[page.url := response.body])
    else (None, cache)
  }

  /** A page whose body is cached is answered from the cache, whatever the
      network would have said. */
  lemma CachedPageIgnoresNetwork(cache: map<string, string>, page: Page, q: string, r1: Response, r2: Response)
    requires Cached(cache, page.url)
    ensures SearchPage(cache, page, q, r1) == SearchPage(cache, page, q, r2)
  {
  }

  /** The cache only grows: every entry other than the page's own is kept. */
  lemma SearchPageKeepsCache(cache: map<string, string>, page: Page, q: string, response: Response)
    ensures var c := SearchPage(cache, page, q, response).1;
      forall u :: u in cache ==> u in c && (u != page.url ==> c[u] == cache[u])
  {
  }

  // ---------------------------------------------------------------------
  // All pages (`performSearch`)

  const SearchablePages: seq<Page> := [
    Page("/", "Home"),
    Page("about", "About"),
    Page("blade", "BLADE"),
    Page("docs", "Documentation"),
    Page("docs/cli", "CLI"),
    Page("docs/blade", "Development"),
    Page("docs/faq", "FAQ"),
    Page("docs/get-started", "Getting Started"),
    Page("docs/syntax", "Syntax"),
    Page("download", "Download"),
    Page("menu", "Menu"),
    Page("releases", "Releases"),
    Page("account", "Sign In")
  ]

  const MinQueryLength := 2
  const MaxResults := 10

  /** The body of `u` is fetched and cached by a search of `pages`: one of
      the pages has that URL, no body is cached for it yet, and the fetch
      comes back with a 2xx status. */
  predicate Refreshed(cache: map<string, string>, pages: seq<Page>, fetch: string -> Response, u: string)
  {
    && !Cached(cache, u) && fetch(u).Succeeded()
    && exists j :: 0 <= j < |pages| && pages[j].url == u
  }

  /** Every page is searched against the cache as it was when the search
      started (the calls all read it before any fetch settles); `fetch`
      answers a URL. Returns the per-page outcomes and the cache afterwards. */
  function SearchAll(cache: map<string, string>, pages: seq<Page>, q: string, fetch: string -> Response): (r: (seq<Option<Hit>>, map<string, string>))
    ensures |r.0| == |pages|
    ensures forall j :: 0 <= j < |pages| ==> r.0[j] == SearchPage(cache, pages[j], q, fetch(pages[j].url)).0
    ensures forall u :: u in cache ==> u in r.1
    ensures forall u :: u in r.1 <==> u in cache || Refreshed(cache, pages, fetch, u)
    ensures forall u :: u in r.1 ==>
      r.1[u] == if Refreshed(cache, pages, fetch, u) then fetch(u).body else cache[u]
  {
    if |pages| == 0 then ([], cache)
    else
      var rest := SearchAll(cache, pages[1..], q, fetch);
      var hits, c := rest.0, rest.1;
      var (h, _) := SearchPage(cache, pages[0], q, fetch(pages[0].url));
      var c' := if !Cached(cache, pages[0].url) && fetch(pages[0].url).Succeeded()
                then c[pages[0].url := fetch(pages[0].url).body] else c;
      RefreshedCons(cache, pages, fetch);
      ([h] + hits, c')
  }

  lemma RefreshedCons(cache: map<string, string>, pages: seq<Page>, fetch: string -> Response)
    requires |pages| > 0
    ensures forall u :: Refreshed(cache, pages, fetch, u) <==>
      (u == pages[0].url && !Cached(cache, u) && fetch(u).Succeeded()) || Refreshed(cache, pages[1..], fetch, u)
  {
    forall u | Refreshed(cache, pages, fetch, u) && u != pages[0].url
      ensures Refreshed(cache, pages[1..], fetch, u)
    {
      var j :| 0 <= j < |pages| && pages[j].url == u;
      assert pages[1..][j - 1].url == u;
    }
    forall u | Refreshed(cache, pages[1..], fetch, u)
      ensures Refreshed(cache, pages, fetch, u)
    {
      var j :| 0 <= j < |pages[1..]| && pages[1..][j].url == u;
      assert pages[j + 1].url == u;
    }
    forall u | u == pages[0].url && !Cached(cache, u) && fetch(u).Succeeded()
      ensures Refreshed(cache, pages, fetch, u)
    {
      assert pages[0].url == u;
    }
  }

  /** Every hit of a search names one of the searched pages and has a
      positive relevance. */
  lemma HitsComeFromPages(cache: map<string, string>, pages: seq<Page>, q: string, fetch: string -> Response, h: Hit)
    requires Some(h) in SearchAll(cache, pages, q, fetch).0
    ensures h.relevance >= 1 && exists p :: p in pages && p.url == h.url
  {
    var outcomes := SearchAll(cache, pages, q, fetch).0;
    var j :| 0 <= j < |outcomes| && outcomes[j] == Some(h);
    assert pages[j] in pages;
  }

  /** The hits, nulls dropped, order kept. */
  function Present(rs: seq<Option<Hit>>): (hs: seq<Hit>)
    ensures forall h :: h in hs <==> Some(h) in rs
    ensures |hs| <= |rs|
  {
    if |rs| == 0 then []
    else
      assert rs == [rs[0]] + rs[1..];
      (if rs[0].Some? then [rs[0].value] else []) + Present(rs[1..])
  }

  /** `(a, b) => b.relevance - a.relevance` is `<= 0`. */
  predicate MoreRelevant(a: Hit, b: Hit)
  {
    a.relevance >= b.relevance
  }

  lemma MoreRelevantIsTotalPreorder()
    ensures Sorting.TotalPreorder(MoreRelevant)
  {
  }

  /** `results.filter(r => r !== null).sort(byRelevance).slice(0, 10)`: the at
      most ten most relevant hits, most relevant first; no dropped hit is
      more relevant than a kept one. */
  function Rank(rs: seq<Option<Hit>>): (top: seq<Hit>)
    ensures |top| == Min(MaxResults, |Present(rs)|)
    ensures multiset(top) <= multiset(Present(rs))
    ensures |Present(rs)| <= MaxResults ==> multiset(top) == multiset(Present(rs))
    ensures Sorting.SortedBy(MoreRelevant, top)
    ensures forall h :: h in multiset(Present(rs)) - multiset(top) ==>
              forall k :: 0 <= k < |top| ==> MoreRelevant(top[k], h)
  {
    var all := Present(rs);
    var sorted := Sorting.Sort(all, MoreRelevant);
    MoreRelevantIsTotalPreorder();
    Sorting.SortSorted(all, MoreRelevant);
    var n := Min(MaxResults, |sorted|);
    Sorting.PrefixOfSorted(sorted, MoreRelevant, n);
    assert multiset(all) - multiset(sorted[..n]) == multiset(sorted[n..]);
    sorted[..n]
  }

  /** Every ranked hit is a hit some page produced. */
  lemma RankedHitsComeFromPages(rs: seq<Option<Hit>>, h: Hit)
    requires h in Rank(rs)
    ensures Some(h) in rs
  {
    assert h in multiset(Rank(rs));
    assert h in multiset(Present(rs));
  }

  /** The ranking is empty exactly when no page produced a hit. */
  lemma RankEmptyIff(rs: seq<Option<Hit>>)
    ensures |Rank(rs)| == 0 <==> forall j :: 0 <= j < |rs| ==> rs[j].None?
  {
    if j :| 0 <= j < |rs| && rs[j].Some? {
      assert Some(rs[j].value) in rs;
      assert rs[j].value in Present(rs);
    } else {
      PresentAllNone(rs);
    }
  }

  lemma {:induction false} PresentAllNone(rs: seq<Option<Hit>>)
    requires forall j :: 0 <= j < |rs| ==> rs[j].None?
    ensures Present(rs) == []
  {
    if |rs| > 0 {
      PresentAllNone(rs[1..]);
    }
  }

  /** What the results box shows. */
  datatype View = Hidden | NoResults(query: string) | Results(hits: seq<Hit>)

  /** `performSearch(query)` once every page has answered: a trimmed query
      shorter than two characters hides the box without searching; otherwise
      the ranked hits, or the "No results" notice. */
  function PerformSearch(query: string, cache: map<string, string>, fetch: string -> Response): (r: (View, map<string, string>))
    ensures |Trim(query)| < MinQueryLength ==> r == (Hidden, cache)
    ensures var outs := SearchAll(cache, SearchablePages, Trim(query), fetch).0;
      r.0.Results? ==> r.0.hits == Rank(outs)
    ensures var outs := SearchAll(cache, SearchablePages, Trim(query), fetch).0;
      r.0.NoResults? <==> |Trim(query)| >= MinQueryLength && forall j :: 0 <= j < |outs| ==> outs[j].None?
    ensures |Trim(query)| >= MinQueryLength ==> r.0 != Hidden
    ensures |Trim(query)| >= MinQueryLength ==> r.1 == SearchAll(cache, SearchablePages, Trim(query), fetch).1
    ensures r.0.Results? ==> 1 <= |r.0.hits| <= MaxResults
    ensures r.0.Results? ==> forall h :: h in r.0.hits ==> h.relevance >= 1 && exists p :: p in SearchablePages && p.url == h.url
  {
    if |Trim(query)| < MinQueryLength then (Hidden, cache)
    else
      var q := Trim(query);
      var all := SearchAll(cache, SearchablePages, q, fetch);
      var outcomes, cache' := all.0, all.1;
      var top := Rank(outcomes);
      RankEmptyIff(outcomes);
      forall h | h in top ensures h.relevance >= 1 && exists p :: p in SearchablePages && p.url == h.url {
        RankedHitsComeFromPages(outcomes, h);
        HitsComeFromPages(cache, SearchablePages, q, fetch, h);
      }
      if |top| == 0 then (NoResults(q), cache') else (Results(top), cache')
  }

  /** What typing in the box does (`input` handler). */
  datatype InputAction = ClearResults | Schedule(query: string)

  function OnInput(value: string): (a: InputAction)
    ensures a.ClearResults? <==> |Trim(value)| < MinQueryLength
    ensures a.Schedule? ==> a.query == Trim(value)
  {
    var q := Trim(value);
    if |q| < MinQueryLength then ClearResults else Schedule(q)
  }

  /** A scheduled search always runs: the handler already trimmed the query,
      and trimming again changes nothing. */
  lemma ScheduledQueryPassesGuard(value: string, cache: map<string, string>, fetch: string -> Response)
    requires OnInput(value).Schedule?
    ensures PerformSearch(OnInput(value).query, cache, fetch).0 != Hidden
  {
    TrimIdempotent(value);
  }
  /** What submitting the search form does: a query that is blank after
      trimming does nothing; any other navigates to the results page, with
      the trimmed query passed through `encode` (`encodeURIComponent`). */
  function SubmitTarget(value: string, encode: string -> string): (url: Option<string>)
    ensures url.None? <==> Trim(value) == ""
    ensures url.Some? ==> url.value == "search?q=" + encode(Trim(value))
  {
    var q := Trim(value);
    if q == "" then None else Some("search?q=" + encode(q))
  }

  /** The highlighted markup for a non-empty query is a rendering of pieces
      that strip back to the text, with one span per occurrence counted for
      the page's relevance. */
  lemma HighlightStrips(t: string, q: string)
    requires q != ""
    ensures exists ps ::
              Render(ps) == HighlightText(t, q) && Raw(ps) == t && NumMarks(ps) == CountOcc(Lower(t), Lower(q))
  {
    var ps := HighlightPieces(t, q);
    MarksAreOccurrences(t, q);
    assert Render(ps) == HighlightText(t, q) && Raw(ps) == t;
  }
}
