# tyxar_web front-end logic in Dafny

This project models the decision logic inside the browser scripts of the Tyxar
web site. It covers the documentation content loader, the site search, the
mobile menu and the floating docs sidebar. It also covers the profile
dashboard's page switching and history, the projects page, the password and
two-factor checks, and the sign-in/dashboard views.

The network, the DOM, the hosted auth client and the timers are modelled only
by what they return. A fetch is `Web.Response`: either a response arrived, with
its `ok` flag and body, or the request failed. The page state the scripts read
and write becomes immutable datatypes. Every handler is a pure transition on
them.

Modules follow the scripts:

- `Web`: responses, optional values, `Array.prototype.find`, and the
  remove-then-add listener registration.
- `Text`: ASCII lower-casing, substring search, JavaScript `trim`, the string
  order standing for `localeCompare`, and decimal rendering.
- `Sorting`: the stable comparator sort of `Array.prototype.sort`.
- `ContentLoader`: `contentLoaderHandler` and `initializeContentLoader` in
  script.js.
- `Search`: highlighting, occurrence counting, snippets, the per-page search
  with its cache, and the ranking in `initializeSearch` (script.js).
- `SearchKeys`: the keyboard selection of the search results (script.js).
- `MobileMenu`: `initializeMobileMenu` (script.js).
- `DocsSidebar`: the floating sidebar button, its setup, and the copy buttons
  of docs/doc_script.js.
- `ProfileSwitch`: the content switcher of profile_script.js.
- `ProfileNav`: the single-page navigation and history of
  profile/profile_script.js.
- `Projects`: the project list of profile/profile.js.
- `Security`: the password and six-digit code checks of profile/profile.js.
- `RelativeDate`: `formatDate` in profile/profile.js.
- `Settings`: `applyTheme` and the toggle labels in profile/profile.js.
- `AuthView`: the auth and dashboard views of profile/js.js.

## Model

| member | source | states |
|---|---|---|
| Web.FindFirst | profile/profile.js:680 | `find` yields the first matching position: nothing exactly when no element matches, otherwise a match with no match before it |
| Web.FindFirstSame | profile/profile.js:596-600 | two lists whose elements match at the same positions have the same first match |
| Web.Register | profile_script.js:29-35 | removing then adding a listener leaves exactly one copy of it, with every other listener's count unchanged |
| Web.RegisterIdempotent | profile_script.js:29-35 | registering a listener that is already registered changes nothing |
| Text.TrimIdempotent | script.js:491 | trimming an already trimmed string changes nothing |
| Text.NatToStringRoundTrip | profile/profile.js:591-593 | the decimal rendering of a number reads back as that number |
| Text.LexLeTotal | profile/profile.js:523 | the string order used for `localeCompare` compares any two names |
| Text.LexLeTransitive | profile/profile.js:523 | the string order is transitive |
| Text.LexLeAntisymmetric | profile/profile.js:523 | two names ordered both ways are equal |
| Sorting.SortSorted | profile/profile.js:520-532 | with a total preorder as comparator the sort yields an ordered permutation of its input |
| Sorting.PrefixOfSorted | script.js:443-446 | the first n elements of an ordered list are ordered, and no later element comes before any of them |
| ContentLoader.ResolvePage | script.js:25-28 | a value that is neither a URL, nor root-relative, nor an `.html` path gets the `docs/` prefix; every other value is kept as it is |
| ContentLoader.SplitHash | script.js:30 | the path is the text before the first '#', and the fragment is the next '#'-free segment, present exactly when the value has a '#' |
| ContentLoader.SplitJoin | script.js:30-31 | splitting a path joined with a fragment gives back the path and the fragment |
| ContentLoader.LinkUrl | script.js:31 | the navigation URL extends the path, and equals it exactly when the fragment is missing or empty |
| ContentLoader.LinkUrlRebuildsPath | script.js:30-31 | for a non-empty fragment, splitting and rebuilding the URL gives back the original value |
| ContentLoader.DocumentFile | script.js:42 | a path ending in `.html` is fetched as it is, and any other path is fetched with `.html` appended |
| ContentLoader.DocumentFileIdempotent | script.js:42 | `.html` is appended at most once |
| ContentLoader.HandleClick | script.js:11-42 | a click outside a link, or on one with an empty value, is ignored; otherwise exactly the clicked link becomes active, and the page either navigates to the link URL built from the resolved value's path and fragment (no content container) or fetches `DocumentFile` of that path, carrying the fragment |
| ContentLoader.MarkActive | script.js:21-22 | after a click exactly the clicked link is active |
| ContentLoader.BareNameFetchesFromDocs | script.js:25-42 | a bare page name is fetched from `docs/<name>.html` |
| ContentLoader.LoadedContent | script.js:43-63 | a 2xx response's body is shown; a non-2xx status or a failed request shows the "Page not found" markup |
| ContentLoader.InitializeContentLoader | script.js:1-9 | after initialisation exactly one content-loader listener is registered, and all other listeners are kept |
| ContentLoader.InitializeContentLoaderIdempotent | script.js:1-9 | initialising twice is the same as initialising once |
| Search.HighlightPieces | script.js:358-361 | the highlighted pieces strip back to the original text, and each span holds a case-insensitive copy of the query |
| Search.HighlightLeftmost | script.js:360-361 | matches are taken leftmost: no character left outside a span starts a case-insensitive match of the query in the text that follows it |
| Search.HighlightText | script.js:359 | an empty query leaves the text unchanged |
| Search.HighlightStrips | script.js:358-361 | for a non-empty query the markup renders pieces that strip back to the text, with one span per counted occurrence |
| Search.MarksAreOccurrences | script.js:360-361 | the number of highlight spans equals the occurrence count used for relevance |
| Search.CountOcc | script.js:414 | non-overlapping occurrences of a non-empty pattern fit inside the text |
| Search.CountPositiveIffContains | script.js:409-414 | the occurrence count is positive exactly when the text contains the query |
| Search.Window | script.js:371-373 | the snippet window contains the first match, with at most 50 characters before it and 100 after it, and is cut only at the text's ends |
| Search.Framed | script.js:373-376 | the framed snippet is the window's text, preceded by `...` exactly when the window starts after the text's start and followed by `...` exactly when it ends before the text's end |
| Search.SnippetText | script.js:365-376 | with no match the snippet is the first 150 characters followed by `...`; with a match it frames the window around the first case-insensitive occurrence |
| Search.Snippet | script.js:366-368 | without a match the snippet is the unhighlighted opening text with an ellipsis |
| Search.SnippetHoldsMatch | script.js:365-378 | the snippet of a matching text contains a case-insensitive match and is at most 156 characters longer than the query |
| Search.FramedHoldsMatch | script.js:373-376 | adding ellipses keeps the match, shifted by the leading ellipsis |
| Search.SearchInContent | script.js:404-421 | there is no hit exactly when the lowercased text does not contain the lowercased query; a hit names the page and its relevance is the number of non-overlapping occurrences of the lowercased query in the lowercased text |
| Search.SearchPage | script.js:382-401 | a non-empty cached body is searched without fetching; otherwise a 2xx body is searched and cached, and a failure gives no hit and leaves the cache alone |
| Search.CachedPageIgnoresNetwork | script.js:385-387 | a cached page's outcome does not depend on the network |
| Search.SearchPageKeepsCache | script.js:394 | the cache only grows: entries of other pages are never changed |
| Search.SearchAll | script.js:384-440 | every searchable page gets its own outcome, computed against the cache as it was when the search started; afterwards the cache holds the fetched body for exactly those searched URLs that had no non-empty entry and answered with a 2xx status, and every other entry is as before |
| Search.HitsComeFromPages | script.js:438-440 | every hit names one of the searched pages and has positive relevance |
| Search.Present | script.js:444 | dropping nulls keeps exactly the hits |
| Search.MoreRelevantIsTotalPreorder | script.js:445 | the relevance comparator is a total preorder |
| Search.Rank | script.js:443-446 | the ranking keeps min(10, number of hits) hits, most relevant first; all hits are kept when there are at most ten, and no dropped hit outranks a kept one |
| Search.RankedHitsComeFromPages | script.js:443-446 | every ranked hit is one that some page produced |
| Search.PerformSearch | script.js:425-460 | a trimmed query shorter than two characters hides the box without searching; otherwise the hits shown are the ranking of the pages' outcomes, and "No results" is shown exactly when no page produced a hit; the cache kept for later searches is the one the page searches leave |
| Search.RankEmptyIff | script.js:443-446 | the ranked list is empty exactly when no page produced a hit |
| Search.OnInput | script.js:487-501 | typing clears the results exactly when the trimmed value is shorter than two characters, and otherwise schedules a search for the trimmed value |
| Search.ScheduledQueryPassesGuard | script.js:491-500 | a scheduled query always passes the search's own length guard |
| Search.SubmitTarget | script.js:504-511 | submitting navigates to `search?q=` with the encoded trimmed query, and does nothing exactly when the trimmed value is blank |
| SearchKeys.KeyDown | script.js:521-539 | ArrowDown moves to min(i+1, n-1) and ArrowUp to max(i-1, -1); Escape resets the index to -1 and hides the results; Enter activates an item exactly when 0 <= index < n |
| SearchKeys.SelectionBounds | script.js:526-531 | starting from -1 or above, the index never drops below -1, and ArrowDown never passes the last item |
| SearchKeys.DownThenUp | script.js:524-531 | ArrowUp undoes ArrowDown unless the selection was already on the last item |
| SearchKeys.UpdateSelection | script.js:542-549 | item i is active exactly when i is the index, so some item is active exactly when the index is in range |
| SearchKeys.Run | script.js:521-539 | any run of key presses from -1 keeps the index at or above -1 |
| MobileMenu.Open | script.js:112-116 | opening sets all four open markers |
| MobileMenu.Close | script.js:126-131 | closing clears all four open markers |
| MobileMenu.Toggle | script.js:101-109 | toggling closes an open navigation and opens a closed one, deciding on the navigation's class alone |
| MobileMenu.ToggleInvolution | script.js:101-131 | on a consistent menu toggling twice changes nothing |
| MobileMenu.Handle | script.js:134-163 | Escape and a resize above 768 pixels close only an open menu; a backdrop or link click closes the menu; the toggle button toggles it |
| MobileMenu.HandlePreservesConsistent | script.js:101-163 | every event keeps the four markers in agreement |
| MobileMenu.HandleAll | script.js:101-163 | any sequence of events keeps the four markers in agreement |
| MobileMenu.Initialize | script.js:74-169 | without the toggle or the nav, or when already initialised, nothing changes; otherwise the page is marked, has a backdrop, and gains one toggle, backdrop, keydown and resize listener plus one click listener per `.nav-link` |
| MobileMenu.InitializeIdempotent | script.js:84-89 | a second initialisation is a no-op |
| MobileMenu.InitializeTimesOnce | script.js:84-98 | however often it runs, initialisation leaves one backdrop, one toggle, backdrop, keydown and resize listener, and one click listener per `.nav-link` |
| DocsSidebar.ClosedTop | docs/doc_script.js:62-65 | the closed button's top is 160 minus the scroll offset, clamped to the range 10 to 160 |
| DocsSidebar.ButtonFor | docs/doc_script.js:51-66 | when open the button shows '×' on the accent background at top 10; when closed it shows '☰' on white at the clamped top |
| DocsSidebar.UpdateButton | docs/doc_script.js:51-67 | after an update the cached flag and the button agree with the sidebar's class |
| DocsSidebar.Handle | docs/doc_script.js:70-95 | a button click flips the class; an outside click and Escape close only an open sidebar; a scroll restyles the button only while the sidebar is closed |
| DocsSidebar.HandleKeepsSynced | docs/doc_script.js:70-95 | every event keeps the flag, the class and the button in agreement |
| DocsSidebar.OutsideClickCloses | docs/doc_script.js:77-82 | a click outside both the sidebar and the button closes the sidebar; a click inside either changes nothing |
| DocsSidebar.ClosedButtonPosition | docs/doc_script.js:58-65 | whenever the sidebar is closed after an event, the button sits at the clamped top for the current scroll |
| DocsSidebar.SetupSidebar | docs/doc_script.js:1-106 | pages without the docs layout are left alone; a failed sidebar fetch shows the error text and no button; the button exists only at 768 pixels or narrower |
| DocsSidebar.AddCopyButton | docs/doc_script.js:113-153 | an unwrapped `pre` is wrapped and gains one copy button; an already wrapped one is skipped |
| DocsSidebar.AddCopyButtons | docs/doc_script.js:110-165 | every `pre` is processed on its own, and the mutation observer is installed only once |
| DocsSidebar.AddCopyButtonsIdempotent | docs/doc_script.js:113-121 | running the copy-button pass again changes nothing |
| DocsSidebar.AddCopyButtonsTimesOnce | docs/doc_script.js:113-164 | from a page with no wrappers, any number of runs wraps each `pre` once with exactly one copy button, and installs at most one observer |
| DocsSidebar.CopyText | docs/doc_script.js:129-133 | the copied text is the trimmed text of the inner `code` if present, else of the `pre`; it neither starts nor ends with whitespace |
| DocsSidebar.CopyFeedback | docs/doc_script.js:134-149 | the copy button shows a check on success and a cross on failure, never its idle face |
| ProfileSwitch.ContentUrl | profile_script.js:62-78 | the four known pages map to their own fragment URL; any other page maps to the overview URL |
| ProfileSwitch.ContentUrlRoundTrip | profile_script.js:62-78 | the page read back from the URL is the page itself when known, and "overview" otherwise |
| ProfileSwitch.ContentUrlSame | profile_script.js:62-78 | two pages share a URL exactly when they name the same page once unknown pages are read as the overview |
| ProfileSwitch.LoadContent | profile_script.js:54-97 | without the container nothing happens; otherwise the switch's URL is fetched, and its body or the error markup is shown |
| ProfileSwitch.ErrorNamesPage | profile_script.js:94-96 | the error text names the requested page, even when the overview URL was fetched |
| ProfileSwitch.HandleClick | profile_script.js:37-51 | a click outside a `data-page` link is ignored; a link with an empty page is prevented but changes nothing; otherwise exactly the clicked link becomes active and its page loads |
| ProfileSwitch.SwitchLeavesOneActive | profile_script.js:46-48 | after a switch exactly one link is active |
| ProfileSwitch.InitializeContentSwitching | profile_script.js:29-35 | exactly one content handler is registered, and all other listeners are kept |
| ProfileSwitch.InitializeContentSwitchingIdempotent | profile_script.js:29-35 | the second initialisation after the sidebar loads changes nothing |
| ProfileNav.Push | profile/profile_script.js:33 | a push drops the forward entries and appends the new one as the current entry |
| ProfileNav.UpdateActiveSidebarItem | profile/profile_script.js:70-80 | a link is active exactly when its page is the given page |
| ProfileNav.AtMostOneActive | profile/profile_script.js:70-80 | with distinct pages, at most one link is active |
| ProfileNav.LoadContent | profile/profile_script.js:24-46 | a 2xx response replaces the content, pushes `{page}` with URL `/tyxar_web/profile/<page>` and marks the page active; any failure writes only the error paragraph |
| ProfileNav.SidebarClick | profile/profile_script.js:48-68 | clicks outside a `data-page` element are ignored; "logout" calls logout if it is defined and loads nothing; any other page is loaded |
| ProfileNav.PopstateAsWritten | profile/profile_script.js:83-87 | as written, an entry without a page is ignored, and one with a page is reloaded through `loadContent`, pushing a new entry |
| ProfileNav.GoBackAsWritten | profile/profile_script.js:83-87 | as written, Back from the first entry changes nothing; otherwise the cursor moves back one entry, a non-replayable entry leaves the page as it is, a failed load shows the error markup, and a successful load shows the body and replaces every later entry with a fresh copy of the entry gone back to |
| ProfileNav.BackDiscardsForwardEntries | profile/profile_script.js:33 | as written, a successful Back to a page entry drops every entry after it |
| ProfileNav.BackForgetsAccountPage | profile/profile_script.js:83-87 | after visiting overview then account, Back leaves no entry for account to go forward to |
| ProfileNav.ReplayContent | profile/profile_script.js:26-45 | a replay shows the page and marks it active without touching the history |
| ProfileNav.Popstate | profile/profile_script.js:83-87 | the corrected listener replays only entries with a page and never changes the history; a replay shows the fetched body and marks the sidebar, or the error markup when the fetch fails |
| ProfileNav.GoBack | profile/profile_script.js:83-87 | with the corrected listener, Back only moves the cursor back |
| ProfileNav.GoForward | profile/profile_script.js:83-87 | with the corrected listener, Forward only moves the cursor forward |
| ProfileNav.BackThenForward | profile/profile_script.js:83-87 | with the corrected listener, Back then Forward returns to the same history position |
| Projects.EmptyTermMatchesAll | profile/profile.js:505-514 | an empty search term matches every project |
| Projects.SearchTerm | profile/profile.js:505 | without the search box the term is empty; otherwise it is the box's value lowercased |
| Projects.Filtered | profile/profile.js:507-517 | the list holds exactly the projects that pass both the tab filter and the search, each as often as in the input |
| Projects.SortKeyOf | profile/profile.js:521-531 | 'name', 'created' and 'size' choose their own comparator; every other value sorts by last update |
| Projects.LeIsTotalPreorder | profile/profile.js:520-531 | every comparator is a total preorder, so the sort is well defined |
| Projects.SortProjects | profile/profile.js:520-532 | the output is a permutation: names ascending, ids descending, or last update descending |
| Projects.RenderProjects | profile/profile.js:501-532 | without the grid nothing renders; otherwise the rendered list is an ordered permutation of the filtered projects |
| Projects.AllShowsEverything | profile/profile.js:507-516 | the 'all' tab with an empty search shows every project, in order |
| Projects.LanguageForType | profile/profile.js:489-499 | web, mobile, library and game map to JavaScript, desktop to Python, and everything else to Unknown |
| Projects.ProjectIcon | profile/profile.js:571-581 | each known type has its own icon, and every other type gets the folder |
| Projects.FallbacksExactly | profile/profile.js:489-581 | exactly the types without an entry of their own get the fallback language and icon |
| Projects.CreateProject | profile/profile.js:453-476 | a blank name is rejected with the list unchanged; otherwise one active project with one collaborator and zero stars and forks is prepended, and every other project is kept |
| Projects.ArchiveProject | profile/profile.js:678-687 | after confirmation the first project with the id is archived and nothing else changes; without confirmation or a match the list is unchanged |
| Projects.UpdateStats | profile/profile.js:689-706 | without all four counters nothing changes; otherwise total, active and shared are the list length and the two counts |
| Projects.CountsBounded | profile/profile.js:696-698 | the active and shared counts never exceed the total |
| Projects.StatsMatchTabs | profile/profile.js:696-698 | the active and shared counts equal the sizes of the 'active' and 'shared' tabs |
| Projects.CreateProjectStats | profile/profile.js:476-478 | creating a project raises the total and the active count by one and leaves the shared count unchanged |
| Projects.ArchiveProjectStats | profile/profile.js:678-687 | archiving an active project lowers the active count by one; the total and shared counts never change |
| Projects.CountUpdate | profile/profile.js:697-698 | replacing one project changes each count only by that project's difference |
| Projects.ToggleProjectMenu | profile/profile.js:596-601 | every other menu is hidden and the project's own menu flips; without that menu nothing changes |
| Projects.ToggleTwice | profile/profile.js:596-601 | toggling one menu twice restores its visibility and leaves every other menu hidden |
| Projects.CloseMenus | profile/profile.js:439-443 | a click outside the project actions hides every menu; a click inside changes nothing |
| Security.SavePassword | profile/profile.js:285-315 | a mismatch is reported first, then a length under 8; the update is requested exactly for a matching password of 8 or more characters; a successful update shows "Just now", and a failed one shows the failure notice and keeps the old date |
| Security.Verify2FA | profile/profile.js:317-335 | a code of exactly six decimal digits enables two-factor and clears the input; anything else reports an error and changes nothing |
| Security.ValidCodeIff | profile/profile.js:319 | the accepted codes are exactly the six-digit zero-padded renderings of the numbers below one million |
| Security.CodeRoundTrip | profile/profile.js:319 | every number below one million renders to an accepted code that reads back as the number |
| RelativeDate.CeilDiv | profile/profile.js:592-593 | `Math.ceil(d / k)` is the least multiple count covering d |
| RelativeDate.CeilDivMonotone | profile/profile.js:592-593 | rounding up preserves order |
| RelativeDate.FormatDateAsWrittenAtZero | profile/profile.js:589-591 | as written, a zero day count reads "-1 days ago" |
| RelativeDate.AgeOf | profile/profile.js:589-593 | 1 (and 0) is today, 2 yesterday, 3 to 7 are d-1 days, 8 to 30 are ceil(d/7) weeks, and larger counts are ceil(d/30) months |
| RelativeDate.FormatDate | profile/profile.js:583-594 | the corrected text is never negative: 0 and 1 read "today" and 2 reads "yesterday" |
| RelativeDate.FormatDateAgrees | profile/profile.js:589-593 | for every positive day count the corrected text is the source's text |
| RelativeDate.AgeMonotone | profile/profile.js:589-593 | an older date never reads as more recent than a newer one |
| Settings.ApplyTheme | profile/profile.js:253-263 | other classes are kept; the light class is present exactly for 'light' and the dark class exactly for 'dark' |
| Settings.AtMostOneTheme | profile/profile.js:255-261 | the two theme classes are never present together |
| Settings.LastThemeWins | profile/profile.js:253-263 | applying two themes in a row equals applying the second one alone |
| Settings.ToggleLabel | profile/profile.js:155-159 | the label reads "Enabled" exactly when the box is checked, and "Disabled" otherwise |
| AuthView.FirstTruthy | profile/js.js:127 | an `a \|\| b \|\| ...` chain yields the first present non-empty value, else the fallback |
| AuthView.DisplayName | profile/js.js:127 | the dashboard name is the full name, else the user name, else the name, else "User" (also when all three are empty); it is never empty |
| AuthView.AccountPageName | profile/profile.js:104-105 | the account page shows the full name, else the name, else "Not set" |
| AuthView.NamesAgreeWithoutUserName | profile/profile.js:104-105 | when a full name or a name is set and the user name does not come first, both pages show the same name |
| AuthView.RoleLabel | profile/js.js:139 | the admin caption appears exactly for a profile flagged admin; everything else reads "User" |
| AuthView.AuthStatus | profile/js.js:41-85 | the status line is the error's message if there is one, else the action's fixed success text |
| AuthView.SuccessTextsDistinct | profile/js.js:41-85 | the four success texts tell the actions apart |
| AuthView.ShowSignup | profile/js.js:96-100 | only the signup form is visible and the status is cleared; the auth box and dashboard are untouched |
| AuthView.ShowLogin | profile/js.js:102-106 | only the login form is visible and the status is cleared; the auth box and dashboard are untouched |
| AuthView.ShowAuth | profile/js.js:108-112 | the dashboard is hidden, the auth box is shown, and the login form is selected |
| AuthView.OneFormVisible | profile/js.js:96-106 | exactly one form is visible after either switch, and a later switch overrides an earlier one |
| AuthView.LoadPageContent | profile/js.js:212-233 | every pane and the dashboard main are hidden; only `<page>-content` is shown and filled, and only if it exists and an answer arrives |
| AuthView.AtMostOnePane | profile/js.js:214-225 | for loads that settle one at a time, after a page load at most one pane is visible |
| AuthView.LoadUser | profile/js.js:117-146 | without a user the auth view is shown; with one the auth box is hidden and the dashboard shown, with the forms and the status line left as they were, the dashboard shows their name, email and role, and the overview opens |
| AuthView.OnAuthStateChange | profile/js.js:181-187 | a sign-in or token refresh reloads the user, a sign-out shows the auth view, and other events change nothing |
| AuthView.OneOfAuthAndDashboard | profile/js.js:181-187 | after any auth event exactly one of the auth box and the dashboard is visible, if that held before |
| AuthView.OnDocumentClick | profile/js.js:256-262 | a click on an element carrying `data-page` loads that page, and other clicks change nothing |

## Left out

- Network, DOM and hosted services: fetches, the auth and profile-table calls, OAuth redirects and `localStorage` are inputs (a `Response`, an optional user, an admin flag, an update-failed flag). The model does not cover their timing, retries or concurrency.
- Timers and focus: debounce and transition delays, `setTimeout`, `focus()`, `scrollIntoView` and scrolling to an anchor carry no decision logic.
- `extractText`: it depends on the browser's HTML parser. The fetched body stands for the extracted text.
- Markup rendering: the HTML built by `displayResults` and by the project cards is not modelled; only the "No results" choice is.
- The "Error performing search" branch of `performSearch` is not modelled: every per-page failure is already caught inside `searchPage`.
- Unicode and locale behaviour: `toLowerCase` is ASCII lowercasing, `localeCompare` is the lexicographic order on characters, string length counts characters rather than UTF-16 units, and `trim` uses ASCII whitespace plus U+00A0, U+FEFF, U+2028 and U+2029. The other Unicode space separators that JavaScript also trims (U+1680, U+2000 to U+200A, U+202F, U+205F and U+3000) are not treated as whitespace.
- `encodeURIComponent` is a parameter of `Search.SubmitTarget`.
- Floating point: `parseFloat(size)` is a parameter of the size comparator. NaN sizes, which would make the comparator inconsistent, are not modelled. The size total and its `toFixed(1)` rendering are left out.
- Dates: `formatDate` takes the whole-day difference, and a project's dates are day numbers. Millisecond arithmetic and the locale date strings are left out.
- Object lookups: `searchCache[url]`, the language map and the icon map are exact-key lookups. Keys such as `constructor` that JavaScript would find on `Object.prototype` are not modelled.
- The sidebar and dashboard loaders (`loadSidebar`, the top-level fetch of `docs/sidebar.html` at docs/doc_script.js:188-201 that re-runs `initializeContentLoader` and `addCopyButtons`, `initializeProfileDashboard`, `loadHTML`, the header/footer fetches, `populateAccountData`) only move fetched markup into place. They are not modelled beyond the re-initialisation they trigger.
- Search.HighlightText: its own contract states only the empty-query case. The non-empty case is carried by `Search.HighlightPieces`, `Search.HighlightStrips` and `Search.MarksAreOccurrences`.
- Search.Snippet: its contract states only the no-match case. The window is on `Search.Window`, the ellipsis rule on `Search.Framed` and `Search.SnippetText`, and the match it holds on `Search.SnippetHoldsMatch`.
- Sorting.Sort: stability is used to pick the model (an insertion sort) but is not stated as a property. Only the permutation and the order are proved.
- Projects.SearchTerm: states the term's length, not its letters; lowercasing is `Text.Lower`.
- Overlapping page loads: `loadPageContent` (profile/js.js:214-225) hides every pane at once but shows its pane only when its fetch settles. Two loads in flight, for example a sidebar click (profile/js.js:260) while the overview load from profile/js.js:146 is pending, can leave two panes visible. The model settles each load before the next starts, so `AuthView.AtMostOnePane` covers only that case.
- Fractional scroll offsets: `window.scrollY` (docs/doc_script.js:62) can be fractional in browsers. The model takes it as an integer.
- The loading markup shown while a fetch is pending is a constant of each loader, not a state of the model.

## Findings

| source | as written | input that shows it | evidently intended | confidence | as-written member | corrected member |
|---|---|---|---|---|---|---|
| profile/profile.js:586-591 | a day difference of 0 skips the `=== 1` and `=== 2` tests and reaches the `d <= 7` branch | a project dated exactly now, so `Math.ceil(0 / day)` is 0, gives "-1 days ago" | 0 reads as "today" | low, not executed (needs a date equal to the current millisecond) | RelativeDate.FormatDateAsWrittenAtZero | RelativeDate.FormatDate |
| profile/profile_script.js:83-87 | the `popstate` listener calls `loadContent`, which pushes a new history entry | visit overview, then account, then press Back: the Back push drops the account entry, so Forward has nowhere to go | Back and Forward replay the page without pushing, so Back then Forward returns to account | medium, not executed | ProfileNav.BackForgetsAccountPage | ProfileNav.BackThenForward |
