/** The projects page of profile/profile.js: the in-memory project list,
    the filter tabs, the search box, the sort menu, creating and archiving
    projects, and the counters above the grid. */
module Projects {
  import opened Web
  import opened Text
  import Sorting

  /** A project record. `lastUpdated` is the `YYYY-MM-DD` date as a day
      number, which is how `new Date(...)` differences order it; `kind` is
      the source's `type` field. */
  datatype Project = Project(
    id: int,
    name: string,
    description: string,
    kind: string,
    visibility: string,
    status: string,
    lastUpdated: int,
    size: string,
    collaborators: int,
    commits: int,
    language: string,
    stars: int,
    forks: int)

  /** The filter tabs: 'all', 'active', 'archived', 'shared'; any other value
      matches nothing. */
  predicate MatchesFilter(filter: string, p: Project)
  {
    || filter == "all"
    || (filter == "active" && p.status == "active")
    || (filter == "archived" && p.status == "archived")
    || (filter == "shared" && p.collaborators > 1)
  }

  /** The search predicate against the already lowercased search term. */
  predicate MatchesSearch(term: string, p: Project)
  {
    Contains(Lower(p.name), term) || Contains(Lower(p.description), term)
  }

  predicate Shown(filter: string, term: string, p: Project)
  {
    MatchesFilter(filter, p) && MatchesSearch(term, p)
  }

  /** The empty term is in every string. */
  lemma EmptyTermMatchesAll(p: Project)
    ensures MatchesSearch("", p)
  {
    assert At(Lower(p.name), "", 0);
  }

  /** The search term: the box's value lowercased, or '' without a box. */
  function SearchTerm(searchValue: Option<string>): (term: string)
    ensures searchValue.None? ==> term == ""
    ensures searchValue.Some? ==> |term| == |searchValue.value|
  {
    if searchValue.Some? then Lower(searchValue.value) else ""
  }

  /** `sampleProjects.filter(...)`: the projects passing both filter and
      search, each as often as it occurs, in their list order. */
  function Filtered(ps: seq<Project>, filter: string, term: string): (r: seq<Project>)
    ensures forall p :: multiset(r)[p] == if Shown(filter, term, p) then multiset(ps)[p] else 0
    ensures forall i :: 0 <= i < |r| ==> Shown(filter, term, r[i])
    ensures |r| <= |ps|
  {
    if |ps| == 0 then []
    else
      assert ps == [ps[0]] + ps[1..];
      (if Shown(filter, term, ps[0]) then [ps[0]] else []) + Filtered(ps[1..], filter, term)
  }

  /** The sort menu: 'name', 'created', 'size', and 'updated' for every
      other value. */
  datatype SortKey = ByName | ByCreated | BySize | ByUpdated

  function SortKeyOf(sort: string): (k: SortKey)
    ensures k == ByName <==> sort == "name"
    ensures k == ByCreated <==> sort == "created"
    ensures k == BySize <==> sort == "size"
  {
    if sort == "name" then ByName
    else if sort == "created" then ByCreated
    else if sort == "size" then BySize
    else ByUpdated
  }

  /** `compare(a, b) <= 0` for each comparator: names ascending, ids
      descending, sizes descending, and last update descending. `parseSize`
      stands for `parseFloat` of the size text. */
  function Le(key: SortKey, parseSize: string -> real): (Project, Project) -> bool
  {
    match key
    case ByName => (a: Project, b: Project) => LexLe(a.name, b.name)
    case ByCreated => (a: Project, b: Project) => b.id - a.id <= 0
    case BySize => (a: Project, b: Project) => parseSize(b.size) - parseSize(a.size) <= 0.0
    case ByUpdated => (a: Project, b: Project) => b.lastUpdated - a.lastUpdated <= 0
  }

  /** Every comparator is a total preorder, so the stable sort is well defined. */
  lemma LeIsTotalPreorder(key: SortKey, parseSize: string -> real)
    ensures Sorting.TotalPreorder(Le(key, parseSize))
  {
    if key == ByName {
      var le := Le(key, parseSize);
      forall x: Project, y: Project ensures le(x, y) || le(y, x) {
        LexLeTotal(x.name, y.name);
      }
      forall x: Project, y: Project, z: Project | le(x, y) && le(y, z) ensures le(x, z) {
        LexLeTransitive(x.name, y.name, z.name);
      }
    }
  }

  /** `filteredProjects.sort(...)`: a permutation, ordered by the key. */
  function SortProjects(ps: seq<Project>, key: SortKey, parseSize: string -> real): (r: seq<Project>)
    ensures multiset(r) == multiset(ps)
    ensures Sorting.SortedBy(Le(key, parseSize), r)
    ensures key == ByName ==> forall i, j :: 0 <= i < j < |r| ==> LexLe(r[i].name, r[j].name)
    ensures key == ByCreated ==> forall i, j :: 0 <= i < j < |r| ==> r[i].id >= r[j].id
    ensures key == ByUpdated ==> forall i, j :: 0 <= i < j < |r| ==> r[i].lastUpdated >= r[j].lastUpdated
  {
    LeIsTotalPreorder(key, parseSize);
    Sorting.SortSorted(ps, Le(key, parseSize));
    Sorting.Sort(ps, Le(key, parseSize))
  }

  /** `renderProjects`: nothing without the grid; otherwise the projects
      shown, in display order. */
  function RenderProjects(hasGrid: bool, ps: seq<Project>, filter: string, searchValue: Option<string>,
                          sort: string, parseSize: string -> real): (r: Option<seq<Project>>)
    ensures r.None? <==> !hasGrid
    ensures r.Some? ==> multiset(r.value) == multiset(Filtered(ps, filter, SearchTerm(searchValue)))
    ensures r.Some? ==> Sorting.SortedBy(Le(SortKeyOf(sort), parseSize), r.value)
  {
    if !hasGrid then None
    else Some(SortProjects(Filtered(ps, filter, SearchTerm(searchValue)), SortKeyOf(sort), parseSize))
  }

  /** With the 'all' tab and an empty search box every project is shown. */
  lemma {:induction false} AllShowsEverything(ps: seq<Project>)
    ensures Filtered(ps, "all", "") == ps
  {
    if |ps| > 0 {
      EmptyTermMatchesAll(ps[0]);
      AllShowsEverything(ps[1..]);
    }
  }

  /** The create-project form. */
  datatype Form = Form(name: string, description: string, kind: string, visibility: string, initializeRepo: bool)

  datatype Created = Rejected | Created(projects: seq<Project>)

  /** `getLanguageForType`. */
  function LanguageForType(kind: string): (lang: string)
    ensures kind in {"web", "mobile", "library", "game"} ==> lang == "JavaScript"
    ensures kind == "desktop" ==> lang == "Python"
    ensures kind !in {"web", "mobile", "library", "game", "desktop"} ==> lang == "Unknown"
  {
    match kind
    case "web" => "JavaScript"
    case "mobile" => "JavaScript"
    case "desktop" => "Python"
    case "library" => "JavaScript"
    case "game" => "JavaScript"
    case "other" => "Unknown"
    case _ => "Unknown"
  }

  /** `getProjectIcon`; 'other' and unknown types share the folder. */
  function ProjectIcon(kind: string): (icon: string)
    ensures kind == "web" ==> icon == "\U{1F310}"
    ensures kind == "mobile" ==> icon == "\U{1F4F1}"
    ensures kind == "desktop" ==> icon == "\U{1F4BB}"
    ensures kind == "library" ==> icon == "\U{1F4DA}"
    ensures kind == "game" ==> icon == "\U{1F3AE}"
    ensures kind !in {"web", "mobile", "desktop", "library", "game"} ==> icon == DefaultIcon
  {
    match kind
    case "web" => "\U{1F310}"
    case "mobile" => "\U{1F4F1}"
    case "desktop" => "\U{1F4BB}"
    case "library" => "\U{1F4DA}"
    case "game" => "\U{1F3AE}"
    case "other" => DefaultIcon
    case _ => DefaultIcon
  }

  const DefaultIcon := "\U{1F4C1}"

  /** The fallbacks are hit exactly by the types without an entry of their own. */
  lemma FallbacksExactly(kind: string)
    ensures LanguageForType(kind) == "Unknown" <==> kind !in {"web", "mobile", "library", "game", "desktop"}
    ensures ProjectIcon(kind) == DefaultIcon <==> kind !in {"web", "mobile", "desktop", "library", "game"}
  {
  }

  /** `createProject`: a name that trims to nothing is rejected; otherwise the
      new project goes to the front. `now` is `Date.now()`, `today` the
      current date. */
  function CreateProject(ps: seq<Project>, f: Form, now: int, today: int): (r: Created)
    ensures r.Rejected? <==> Trim(f.name) == ""
    ensures r.Created? ==>
      && |r.projects| == |ps| + 1
      && r.projects[1..] == ps
      && var p := r.projects[0];
      && p.id == now && p.name == f.name && p.description == f.description
      && p.kind == f.kind && p.visibility == f.visibility
      && p.status == "active" && p.lastUpdated == today && p.size == "0 MB"
      && p.collaborators == 1 && (p.commits == 1 <==> f.initializeRepo) && (p.commits == 0 <==> !f.initializeRepo)
      && p.language == LanguageForType(f.kind)
      && p.stars == 0 && p.forks == 0
  {
    if Trim(f.name) == "" then Rejected
    else
      var p := Project(now, f.name, f.description, f.kind, f.visibility, "active", today, "0 MB",
                       1, if f.initializeRepo then 1 else 0, LanguageForType(f.kind), 0, 0);
      Created([p] + ps)
  }

  /** The index `sampleProjects.find` stops at, if any. */
  function FindIndex(ps: seq<Project>, id: int): Option<nat>
  {
    FindFirst(ps, (p: Project) => p.id == id)
  }

  /** `archiveProject`: after confirmation, the first project with the id
      becomes archived; nothing else changes. */
  function ArchiveProject(ps: seq<Project>, id: int, confirmed: bool): (r: seq<Project>)
    ensures |r| == |ps|
    ensures !confirmed || FindIndex(ps, id).None? ==> r == ps
    ensures confirmed && FindIndex(ps, id).Some? ==> var k := FindIndex(ps, id).value;
      && r[k] == ps[k].(status := "archived")
      && forall i :: 0 <= i < |ps| && i != k ==> r[i] == ps[i]
  {
    var k := FindIndex(ps, id);
    if !confirmed || k.None? then ps
    else ps[k.value := ps[k.value].(status := "archived")]
  }

  function CountActive(ps: seq<Project>): nat
  {
    if |ps| == 0 then 0 else (if ps[0].status == "active" then 1 else 0) + CountActive(ps[1..])
  }

  function CountShared(ps: seq<Project>): nat
  {
    if |ps| == 0 then 0 else (if ps[0].collaborators > 1 then 1 else 0) + CountShared(ps[1..])
  }

  datatype Stats = Stats(total: nat, active: nat, shared: nat)

  /** `updateStats`: nothing unless all four counters exist; the size total
      is not modelled. */
  function UpdateStats(hasCounters: bool, ps: seq<Project>): (r: Option<Stats>)
    ensures r.None? <==> !hasCounters
    ensures r.Some? ==> r.value.total == |ps| && r.value.active <= |ps| && r.value.shared <= |ps|
    ensures r.Some? ==> r.value.active == CountActive(ps) && r.value.shared == CountShared(ps)
  {
    CountsBounded(ps);
    if hasCounters then Some(Stats(|ps|, CountActive(ps), CountShared(ps))) else None
  }

  lemma {:induction false} CountsBounded(ps: seq<Project>)
    ensures CountActive(ps) <= |ps| && CountShared(ps) <= |ps|
  {
    if |ps| > 0 { CountsBounded(ps[1..]); }
  }

  /** The counters agree with the tabs: the active count is the length of the
      'active' tab and the shared count that of the 'shared' tab, with an
      empty search. */
  lemma {:induction false} StatsMatchTabs(ps: seq<Project>)
    ensures CountActive(ps) == |Filtered(ps, "active", "")|
    ensures CountShared(ps) == |Filtered(ps, "shared", "")|
  {
    if |ps| > 0 {
      EmptyTermMatchesAll(ps[0]);
      StatsMatchTabs(ps[1..]);
      FilteredLength(ps, "active", "");
      FilteredLength(ps, "shared", "");
    }
  }

  lemma FilteredLength(ps: seq<Project>, filter: string, term: string)
    requires |ps| > 0
    ensures |Filtered(ps, filter, term)| == (if Shown(filter, term, ps[0]) then 1 else 0) + |Filtered(ps[1..], filter, term)|
  {
  }

  /** Creating a project adds one to the total and to the active count and
      leaves the shared count alone. */
  lemma CreateProjectStats(ps: seq<Project>, f: Form, now: int, today: int)
    requires CreateProject(ps, f, now, today).Created?
    ensures var qs := CreateProject(ps, f, now, today).projects;
      |qs| == |ps| + 1 && CountActive(qs) == CountActive(ps) + 1 && CountShared(qs) == CountShared(ps)
  {
    var qs := CreateProject(ps, f, now, today).projects;
    assert qs[1..] == ps;
  }

  /** Archiving an active project lowers the active count by one; archiving
      anything else, or nothing, leaves it; the shared count never moves. */
  lemma {:induction false} ArchiveProjectStats(ps: seq<Project>, id: int, confirmed: bool)
    ensures var qs := ArchiveProject(ps, id, confirmed);
      var k := FindIndex(ps, id);
      && CountShared(qs) == CountShared(ps)
      && CountActive(qs) == CountActive(ps) - (if confirmed && k.Some? && ps[k.value].status == "active" then 1 else 0)
  {
    var k := FindIndex(ps, id);
    if confirmed && k.Some? {
      CountUpdate(ps, k.value, ps[k.value].(status := "archived"));
    }
  }

  /** Replacing one element changes each count by the difference at that spot. */
  lemma {:induction false} CountUpdate(ps: seq<Project>, k: nat, q: Project)
    requires k < |ps|
    ensures CountActive(ps[k := q]) + (if ps[k].status == "active" then 1 else 0)
         == CountActive(ps) + (if q.status == "active" then 1 else 0)
    ensures CountShared(ps[k := q]) + (if ps[k].collaborators > 1 then 1 else 0)
         == CountShared(ps) + (if q.collaborators > 1 then 1 else 0)
  {
    if k > 0 {
      CountUpdate(ps[1..], k - 1, q);
      assert ps[k := q][1..] == ps[1..][k - 1 := q];
    } else {
      assert ps[k := q][1..] == ps[1..];
    }
  }

  /** A project's `⋯` menu: the project id in its element id, and whether
      it is displayed. */
  datatype Menu = Menu(projectId: int, visible: bool)

  /** `toggleProjectMenu`: every menu is hidden, then the project's own
      menu shows unless it was showing. Without such a menu the lookup
      throws before anything changes. */
  function ToggleProjectMenu(menus: seq<Menu>, projectId: int): (r: seq<Menu>)
    ensures |r| == |menus|
    ensures forall i :: 0 <= i < |menus| ==> r[i].projectId == menus[i].projectId
    ensures FindMenu(menus, projectId).None? ==> r == menus
    ensures FindMenu(menus, projectId).Some? ==> var k := FindMenu(menus, projectId).value;
      forall i :: 0 <= i < |r| ==> (r[i].visible <==> i == k && !menus[k].visible)
  {
    var k := FindMenu(menus, projectId);
    if k.None? then menus
    else
      var t := k.value;
      seq(|menus|, i requires 0 <= i < |menus| => Menu(menus[i].projectId, i == t && !menus[t].visible))
  }

  /** The menu `getElementById('menu-' + projectId)` finds. */
  function FindMenu(menus: seq<Menu>, projectId: int): Option<nat>
  {
    FindFirst(menus, (m: Menu) => m.projectId == projectId)
  }

  /** Toggling the same menu twice restores that menu's display and leaves
      every other menu hidden. */
  lemma ToggleTwice(menus: seq<Menu>, projectId: int)
    requires FindMenu(menus, projectId).Some?
    ensures var k := FindMenu(menus, projectId).value;
      var r := ToggleProjectMenu(ToggleProjectMenu(menus, projectId), projectId);
      forall i :: 0 <= i < |r| ==> (r[i].visible <==> i == k && menus[k].visible)
  {
    var once := ToggleProjectMenu(menus, projectId);
    FindFirstSame(menus, once, (m: Menu) => m.projectId == projectId);
  }

  /** A click outside every `.project-actions` hides all menus. */
  function CloseMenus(menus: seq<Menu>, insideActions: bool): (r: seq<Menu>)
    ensures insideActions ==> r == menus
    ensures !insideActions ==> |r| == |menus| && forall i :: 0 <= i < |r| ==> r[i] == menus[i].(visible := false)
  {
    if insideActions then menus
    else seq(|menus|, i requires 0 <= i < |menus| => menus[i].(visible := false))
  }
}
