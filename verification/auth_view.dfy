/** The sign-in page and account dashboard of profile/js.js, with the
    account fields of profile/profile.js: which of the login form, the
    signup form, the auth box and the dashboard are visible, the status
    line, the name and role shown, and the page panes of the dashboard. The
    hosted auth client is abstracted to what its calls return. */
module AuthView {
  import opened Web

  /** `a || b || ... || fallback` over optional strings: the first value
      that is present and non-empty, else the fallback. */
  function FirstTruthy(candidates: seq<Option<string>>, fallback: string): (r: string)
    ensures (forall i :: 0 <= i < |candidates| ==> !Truthy(candidates[i])) ==> r == fallback
    ensures forall k :: (0 <= k < |candidates| && Truthy(candidates[k])
      && forall i :: 0 <= i < k ==> !Truthy(candidates[i])) ==> r == candidates[k].value
  {
    if |candidates| == 0 then fallback
    else if Truthy(candidates[0]) then candidates[0].value
    else FirstTruthy(candidates[1..], fallback)
  }

  predicate Truthy(v: Option<string>)
  {
    v.Some? && v.value != ""
  }

  /** `user.user_metadata`, when present. */
  datatype Metadata = Metadata(fullName: Option<string>, userName: Option<string>, name: Option<string>)

  /** The dashboard's name: full name, then user name, then name, then 'User'. */
  function DisplayName(meta: Option<Metadata>): (r: string)
    ensures r != ""
    ensures meta.None? ==> r == "User"
    ensures meta.Some? && Truthy(meta.value.fullName) ==> r == meta.value.fullName.value
    ensures meta.Some? && !Truthy(meta.value.fullName) && Truthy(meta.value.userName) ==> r == meta.value.userName.value
    ensures meta.Some? && !Truthy(meta.value.fullName) && !Truthy(meta.value.userName) && Truthy(meta.value.name) ==> r == meta.value.name.value
    ensures meta.Some? && !Truthy(meta.value.fullName) && !Truthy(meta.value.userName) && !Truthy(meta.value.name) ==> r == "User"
  {
    var m := if meta.Some? then meta.value else Metadata(None, None, None);
    var c := [m.fullName, m.userName, m.name];
    assert c[0] == m.fullName && c[1] == m.userName && c[2] == m.name;
    FirstTruthy(c, "User")
  }

  /** The account page's name (`loadUserData`): full name, then name, then
      'Not set'; the user name is not consulted. */
  function AccountPageName(meta: Option<Metadata>): (r: string)
    ensures meta.None? ==> r == "Not set"
    ensures meta.Some? && Truthy(meta.value.fullName) ==> r == meta.value.fullName.value
    ensures meta.Some? && !Truthy(meta.value.fullName) && Truthy(meta.value.name) ==> r == meta.value.name.value
    ensures meta.Some? && !Truthy(meta.value.fullName) && !Truthy(meta.value.name) ==> r == "Not set"
  {
    var m := if meta.Some? then meta.value else Metadata(None, None, None);
    var c := [m.fullName, m.name];
    assert c[0] == m.fullName && c[1] == m.name;
    FirstTruthy(c, "Not set")
  }

  /** Whichever name a user has, the two pages show the same one unless the
      user name is the first name set. */
  lemma NamesAgreeWithoutUserName(meta: Option<Metadata>)
    requires meta.Some? && (Truthy(meta.value.fullName) || !Truthy(meta.value.userName)) && (Truthy(meta.value.fullName) || Truthy(meta.value.name))
    ensures DisplayName(meta) == AccountPageName(meta)
  {
  }

  /** `profile?.is_admin ? admin : "User"`; `isAdmin` is the row's flag
      when the profile row was found. */
  function RoleLabel(isAdmin: Option<bool>, admin: string): (r: string)
    ensures r == admin <==> isAdmin == Some(true) || admin == "User"
    ensures r != admin ==> r == "User"
  {
    if isAdmin == Some(true) then admin else "User"
  }

  /** The two admin captions: "Admin" on the dashboard and the account pane,
      "Administrator" on the account page. */
  const DashboardAdmin := "Admin"
  const AccountPageAdmin := "Administrator"

  datatype AuthAction = Signup | Login | GitHub | Google

  function SuccessText(a: AuthAction): string
  {
    match a
    case Signup => "Check your email to confirm signup."
    case Login => "Logged in."
    case GitHub => "Redirecting to GitHub..."
    case Google => "Redirecting to Google..."
  }

  /** The status line after an auth call: the error's message, else the
      action's own text. */
  function AuthStatus(a: AuthAction, error: Option<string>): (text: string)
    ensures error.Some? ==> text == error.value
    ensures error.None? ==> text == SuccessText(a)
  {
    if error.Some? then error.value else SuccessText(a)
  }

  /** The success texts tell the four actions apart. */
  lemma SuccessTextsDistinct(a: AuthAction, b: AuthAction)
    ensures SuccessText(a) == SuccessText(b) <==> a == b
  {
  }

  /** The `hidden` classes of the auth box, the dashboard and the two forms,
      and the status line. */
  datatype View = View(authBoxHidden: bool, dashboardHidden: bool, loginHidden: bool, signupHidden: bool, status: string)

  function ShowSignup(v: View): (r: View)
    ensures r.loginHidden && !r.signupHidden && r.status == ""
    ensures r.authBoxHidden == v.authBoxHidden && r.dashboardHidden == v.dashboardHidden
  {
    v.(loginHidden := true, signupHidden := false, status := "")
  }

  function ShowLogin(v: View): (r: View)
    ensures !r.loginHidden && r.signupHidden && r.status == ""
    ensures r.authBoxHidden == v.authBoxHidden && r.dashboardHidden == v.dashboardHidden
  {
    v.(signupHidden := true, loginHidden := false, status := "")
  }

  function ShowAuth(v: View): (r: View)
    ensures r.dashboardHidden && !r.authBoxHidden
    ensures !r.loginHidden && r.signupHidden && r.status == ""
  {
    ShowLogin(v.(dashboardHidden := true, authBoxHidden := false))
  }

  /** Exactly one of the two forms is visible after either switch. */
  lemma OneFormVisible(v: View)
    ensures ShowSignup(v).loginHidden != ShowSignup(v).signupHidden
    ensures ShowLogin(v).loginHidden != ShowLogin(v).signupHidden
    ensures ShowLogin(ShowSignup(v)) == ShowLogin(v)
    ensures ShowSignup(ShowLogin(v)) == ShowSignup(v)
  {
  }

  /** A `.page-container` pane: its element id, `hidden` class and markup. */
  datatype Pane = Pane(id: string, hidden: bool, html: string)

  /** The dashboard's fields. */
  datatype Board = Board(name: string, email: string, role: string)

  datatype Screen = Screen(view: View, board: Board, mainHidden: bool, panes: seq<Pane>)

  /** The pane `getElementById(id)` finds. */
  function FindPane(panes: seq<Pane>, id: string): Option<nat>
  {
    FindFirst(panes, (p: Pane) => p.id == id)
  }

  /** `loadPageContent(page)`: every pane and the dashboard main are hidden;
      the pane `<page>-content`, if there is one, is filled and shown once
      the fetch settles. The status code is not checked, so any answer is
      shown; only a failed request leaves the pane hidden. */
  function LoadPageContent(s: Screen, page: string, response: Response): (r: Screen)
    ensures r.mainHidden && r.view == s.view && r.board == s.board
    ensures |r.panes| == |s.panes|
    ensures forall i :: 0 <= i < |s.panes| ==> r.panes[i].id == s.panes[i].id
    ensures var k := FindPane(s.panes, page + "-content");
      forall i :: 0 <= i < |s.panes| ==> (!r.panes[i].hidden <==> k == Some(i) && response.Received?)
    ensures var k := FindPane(s.panes, page + "-content");
      k.Some? && response.Received? ==> r.panes[k.value].html == response.body
    ensures var k := FindPane(s.panes, page + "-content");
      forall i :: 0 <= i < |s.panes| && !(k == Some(i) && response.Received?) ==> r.panes[i].html == s.panes[i].html
  {
    var k := FindPane(s.panes, page + "-content");
    var shown := k.Some? && response.Received?;
    var panes := seq(|s.panes|, i requires 0 <= i < |s.panes| =>
      if shown && k == Some(i) then Pane(s.panes[i].id, false, response.body)
      else s.panes[i].(hidden := true));
    s.(mainHidden := true, panes := panes)
  }

  /** At most one pane is visible after a page load. */
  lemma AtMostOnePane(s: Screen, page: string, response: Response)
    ensures var r := LoadPageContent(s, page, response).panes;
      forall i, j :: 0 <= i < |r| && 0 <= j < |r| && !r[i].hidden && !r[j].hidden ==> i == j
  {
  }

  /** The signed-in user as `getUser` returns it. */
  datatype User = User(meta: Option<Metadata>, email: string)

  /** `loadUser`: without a user the auth view returns; with one the
      dashboard shows their name, email and role and opens the overview.
      `isAdmin` is the profile row's answer, `overview` the response for the
      overview pane. */
  function LoadUser(s: Screen, user: Option<User>, isAdmin: Option<bool>, overview: Response): (r: Screen)
    ensures user.None? ==> r == s.(view := ShowAuth(s.view))
    ensures user.Some? ==>
      && r.board == Board(DisplayName(user.value.meta), user.value.email, RoleLabel(isAdmin, DashboardAdmin))
      && r.view.authBoxHidden && !r.view.dashboardHidden
      && r.view == s.view.(authBoxHidden := true, dashboardHidden := false)
      && r == LoadPageContent(r.(mainHidden := s.mainHidden, panes := s.panes), "overview", overview)
  {
    if user.None? then s.(view := ShowAuth(s.view))
    else
      var u := user.value;
      var board := Board(DisplayName(u.meta), u.email, RoleLabel(isAdmin, DashboardAdmin));
      var view := s.view.(authBoxHidden := true, dashboardHidden := false);
      LoadPageContent(Screen(view, board, s.mainHidden, s.panes), "overview", overview)
  }

  /** `onAuthStateChange`: a sign-in or token refresh reloads the user, a
      sign-out shows the auth view, and any other event changes nothing. */
  function OnAuthStateChange(s: Screen, event: string, user: Option<User>, isAdmin: Option<bool>, overview: Response): (r: Screen)
    ensures event == "SIGNED_IN" || event == "TOKEN_REFRESHED" ==> r == LoadUser(s, user, isAdmin, overview)
    ensures event == "SIGNED_OUT" ==> r == s.(view := ShowAuth(s.view))
    ensures event !in {"SIGNED_IN", "TOKEN_REFRESHED", "SIGNED_OUT"} ==> r == s
  {
    if event == "SIGNED_IN" || event == "TOKEN_REFRESHED" then LoadUser(s, user, isAdmin, overview)
    else if event == "SIGNED_OUT" then s.(view := ShowAuth(s.view))
    else s
  }

  /** After any auth event exactly one of the auth box and the dashboard is
      visible, provided that held before. */
  lemma {:induction false} OneOfAuthAndDashboard(s: Screen, event: string, user: Option<User>, isAdmin: Option<bool>, overview: Response)
    requires s.view.authBoxHidden != s.view.dashboardHidden
    ensures var r := OnAuthStateChange(s, event, user, isAdmin, overview);
      r.view.authBoxHidden != r.view.dashboardHidden
  {
  }

  /** The document click listener: a click whose target itself carries
      `data-page` loads that page. */
  function OnDocumentClick(s: Screen, targetPage: Option<string>, response: Response): (r: Screen)
    ensures targetPage.None? ==> r == s
    ensures targetPage.Some? ==> r == LoadPageContent(s, targetPage.value, response)
  {
    if targetPage.Some? then LoadPageContent(s, targetPage.value, response) else s
  }
}
