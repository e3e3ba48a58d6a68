/** The tab list manager behind the tab strip: an ordered list of tabs, the
    derived active tab, and the transitions the provider applies to the list
    (add, close, activate, update, duplicate, reorder). Each transition is the
    pure function the provider passes to its state setter. Ids, which the
    provider reads from the clock, are parameters. */
module TabsContext {
  import opened Wrappers
  import opened Seqs

  /** One browsing session in the strip; order in the list is display order. */
  datatype Tab = Tab(id: string, url: string, title: string, favicon: string, active: bool)

  /** `Partial<Tab>`: each present field overrides the tab's own. */
  datatype TabPatch = TabPatch(
    id: Option<string>,
    url: Option<string>,
    title: Option<string>,
    favicon: Option<string>,
    active: Option<bool>)

  /** What the bridge's `getTabs` produced when the provider mounted. */
  datatype SavedTabs = NothingSaved | Saved(tabs: seq<Tab>) | LoadFailed

  const DefaultUrl: string := "https://www.google.com"
  const NewTabTitle: string := "New Tab"
  const EmptyPatch: TabPatch := TabPatch(None, None, None, None, None)

  /** The tab `addTab` and the empty-list rules create. */
  function FreshTab(id: string, url: string): (r: Tab) {
    Tab(id, url, NewTabTitle, "", true)
  }

  predicate IsActive(t: Tab) {
    t.active
  }

  function HasId(id: string): (r: Tab -> bool) {
    (t: Tab) => t.id == id
  }

  function NotId(id: string): (r: Tab -> bool) {
    (t: Tab) => t.id != id
  }

  function Deactivate(t: Tab): (r: Tab) {
    t.(active := false)
  }

  function CountActive(tabs: seq<Tab>): (r: nat) {
    Count(IsActive, tabs)
  }

  /** The invariant the tab strip expects after every mutation. */
  predicate ExactlyOneActive(tabs: seq<Tab>) {
    CountActive(tabs) == 1
  }

  predicate UniqueIds(tabs: seq<Tab>) {
    forall i, j :: 0 <= i < j < |tabs| ==> tabs[i].id != tabs[j].id
  }

  /** `a` and `b` agree on every field except possibly `active`. */
  predicate SameButActive(a: Tab, b: Tab) {
    a.id == b.id && a.url == b.url && a.title == b.title && a.favicon == b.favicon
  }

  // ----- derived state -----

  /** The derived active tab: the first tab flagged active, or none. */
  function ActiveTab(tabs: seq<Tab>): (r: Option<Tab>)
    ensures r.None? <==> CountActive(tabs) == 0
    ensures r.Some? ==> r.value.active
    ensures r.Some? ==> exists i :: 0 <= i < |tabs| && tabs[i] == r.value
                                    && forall j :: 0 <= j < i ==> !tabs[j].active
  {
    CountZero(IsActive, tabs);
    Find(IsActive, tabs)
  }

  /** Under the invariant the derived active tab is the one flagged tab. */
  lemma ActiveTabOfExactlyOne(tabs: seq<Tab>, k: nat)
    requires k < |tabs| && tabs[k].active && ExactlyOneActive(tabs)
    ensures ActiveTab(tabs) == Some(tabs[k])
  {
    var i := FirstIndex(IsActive, tabs).value;
    if i < k {
      CountTwo(IsActive, tabs, i, k);
    }
  }

  // ----- loading -----

  /** The list the provider adopts on mount: a non-empty saved list verbatim
      (no repair of its flags), one fresh default tab when nothing or an empty
      list was saved, and the current list when the bridge call failed. */
  function LoadTabs(current: seq<Tab>, saved: SavedTabs, freshId: string): (r: seq<Tab>)
    ensures saved.Saved? && |saved.tabs| > 0 ==> r == saved.tabs
    ensures saved.NothingSaved? || saved == Saved([]) ==> r == [FreshTab(freshId, DefaultUrl)]
    ensures saved.LoadFailed? ==> r == current
  {
    match saved
    case Saved(ts) => if |ts| > 0 then ts else [FreshTab(freshId, DefaultUrl)]
    case NothingSaved => [FreshTab(freshId, DefaultUrl)]
    case LoadFailed => current
  }

  /** A first load from an empty store yields a valid one-tab list. */
  lemma LoadEmptyIsValid(saved: SavedTabs, freshId: string)
    requires saved.NothingSaved? || saved == Saved([])
    ensures ExactlyOneActive(LoadTabs([], saved, freshId))
    ensures ActiveTab(LoadTabs([], saved, freshId)) == Some(FreshTab(freshId, DefaultUrl))
  {
    var r := LoadTabs([], saved, freshId);
    CountOnlyAt(IsActive, r, 0);
  }

  /** A failed first load keeps the initial empty list: no tab and no
      derived active tab, the one state that breaks the never-empty rule. */
  lemma FailedFirstLoadIsEmpty(freshId: string)
    ensures LoadTabs([], LoadFailed, freshId) == [] && ActiveTab([]).None?
  {
  }

  // ----- addTab -----

  /** Appending an active tab to a list whose flags were all cleared leaves
      exactly one active tab. */
  lemma AppendActive(tabs: seq<Tab>, t: Tab)
    requires t.active
    ensures ExactlyOneActive(Map(Deactivate, tabs) + [t])
  {
    CountConcat(IsActive, Map(Deactivate, tabs), [t]);
    CountZero(IsActive, Map(Deactivate, tabs));
    CountSingleton(IsActive, t);
  }

  /** `addTab(url)`: every tab is deactivated and a fresh active tab is
      appended; the url defaults to the start page. */
  function AddTab(tabs: seq<Tab>, freshId: string, url: Option<string>): (r: seq<Tab>)
    ensures |r| == |tabs| + 1
    ensures r[|tabs|] == Tab(freshId, url.GetOr(DefaultUrl), NewTabTitle, "", true)
    ensures forall i :: 0 <= i < |tabs| ==> SameButActive(r[i], tabs[i]) && !r[i].active
    ensures ExactlyOneActive(r)
  {
    var added := FreshTab(freshId, url.GetOr(DefaultUrl));
    AppendActive(tabs, added);
    Map(Deactivate, tabs) + [added]
  }

  // ----- closeTab -----

  /** The tabs `closeTab(id)` keeps before repairing the active flag. */
  function Survivors(tabs: seq<Tab>, id: string): (r: seq<Tab>)
    ensures |r| <= |tabs|
    ensures forall i :: 0 <= i < |r| ==> r[i].id != id && r[i] in tabs
    ensures forall i :: 0 <= i < |tabs| && tabs[i].id != id ==> tabs[i] in r
    ensures CountActive(r) <= CountActive(tabs)
  {
    CountFilter(IsActive, NotId(id), tabs);
    Filter(NotId(id), tabs)
  }

  /** Survivors keep their relative order: filtering distributes over
      concatenation, and a single tab is kept exactly when its id differs. */
  lemma SurvivorsKeepOrder(a: seq<Tab>, b: seq<Tab>, id: string)
    ensures Survivors(a + b, id) == Survivors(a, id) + Survivors(b, id)
    ensures forall t: Tab :: Survivors([t], id) == if t.id == id then [] else [t]
  {
    FilterConcat(NotId(id), a, b);
    forall t: Tab
      ensures Survivors([t], id) == if t.id == id then [] else [t]
    {
      assert [t][1..] == [];
    }
  }

  /** `closeTab(id)`: every tab with that id is removed; when survivors
      remain and none is active the LAST survivor is activated; when none
      remain a fresh default tab replaces them. */
  function CloseTab(tabs: seq<Tab>, id: string, freshId: string): (r: seq<Tab>)
    ensures |r| >= 1 && CountActive(r) >= 1
    ensures |Survivors(tabs, id)| == 0 ==> r == [FreshTab(freshId, DefaultUrl)]
    ensures |Survivors(tabs, id)| > 0 && CountActive(Survivors(tabs, id)) > 0 ==> r == Survivors(tabs, id)
    ensures |Survivors(tabs, id)| > 0 && CountActive(Survivors(tabs, id)) == 0 ==>
              var s := Survivors(tabs, id);
              |r| == |s| && r[..|s| - 1] == s[..|s| - 1] && r[|s| - 1] == s[|s| - 1].(active := true)
    ensures CountActive(tabs) <= 1 ==> ExactlyOneActive(r)
  {
    var s := Survivors(tabs, id);
    if |s| == 0 then
      CountOnlyAt(IsActive, [FreshTab(freshId, DefaultUrl)], 0);
      [FreshTab(freshId, DefaultUrl)]
    else if CountActive(s) > 0 then
      s
    else
      var n := |s| - 1;
      var r := s[..n] + [s[n].(active := true)];
      CountConcat(IsActive, s[..n], [s[n].(active := true)]);
      CountSingleton(IsActive, s[n].(active := true));
      assert forall j :: 0 <= j < n ==> s[..n][j] == s[j];
      CountZero(IsActive, s);
      CountZero(IsActive, s[..n]);
      assert r[..n] == s[..n];
      r
  }

  /** Closing an id no tab carries is a no-op only while some tab is active. */
  lemma CloseUnknownId(tabs: seq<Tab>, id: string, freshId: string)
    requires forall i :: 0 <= i < |tabs| ==> tabs[i].id != id
    requires CountActive(tabs) > 0
    ensures CloseTab(tabs, id, freshId) == tabs
  {
    FilterAllKept(NotId(id), tabs);
    CountZero(IsActive, tabs);
  }

  /** When no tab is active, closing an unknown id activates the last tab. */
  lemma CloseUnknownIdActivatesLast(tabs: seq<Tab>, id: string, freshId: string)
    requires |tabs| > 0 && CountActive(tabs) == 0
    requires forall i :: 0 <= i < |tabs| ==> tabs[i].id != id
    ensures |CloseTab(tabs, id, freshId)| == |tabs|
    ensures CloseTab(tabs, id, freshId)[|tabs| - 1] == tabs[|tabs| - 1].(active := true)
    ensures CloseTab(tabs, id, freshId) != tabs
  {
    FilterAllKept(NotId(id), tabs);
    CountZero(IsActive, tabs);
  }

  // ----- setActiveTab -----

  function ActivateIf(id: string): (r: Tab -> Tab) {
    (t: Tab) => t.(active := t.id == id)
  }

  /** `setActiveTab(id)`: a tab is active afterwards exactly when its id is
      `id`; nothing else changes. With an unknown id no tab stays active, and
      with a duplicated id several become active. */
  function SetActiveTab(tabs: seq<Tab>, id: string): (r: seq<Tab>)
    ensures |r| == |tabs|
    ensures forall i :: 0 <= i < |tabs| ==> SameButActive(r[i], tabs[i]) && (r[i].active <==> tabs[i].id == id)
    ensures CountActive(r) == Count(HasId(id), tabs)
  {
    CountMap(IsActive, ActivateIf(id), HasId(id), tabs);
    Map(ActivateIf(id), tabs)
  }

  /** Activating the id of a tab whose id is unique restores the invariant
      and makes that tab the derived active tab. */
  lemma SetActiveUniqueId(tabs: seq<Tab>, k: nat)
    requires k < |tabs| && UniqueIds(tabs)
    ensures ExactlyOneActive(SetActiveTab(tabs, tabs[k].id))
    ensures ActiveTab(SetActiveTab(tabs, tabs[k].id)) == Some(tabs[k].(active := true))
  {
    var r := SetActiveTab(tabs, tabs[k].id);
    CountOnlyAt(IsActive, r, k);
    ActiveTabOfExactlyOne(r, k);
  }

  /** An id no tab carries leaves no tab active and no derived active tab. */
  lemma SetActiveUnknownId(tabs: seq<Tab>, id: string)
    requires forall i :: 0 <= i < |tabs| ==> tabs[i].id != id
    ensures CountActive(SetActiveTab(tabs, id)) == 0
    ensures ActiveTab(SetActiveTab(tabs, id)).None?
  {
    CountZero(HasId(id), tabs);
  }

  /** Two tabs sharing the id both become active. */
  lemma SetActiveDuplicateId(tabs: seq<Tab>, i: nat, j: nat)
    requires i < j < |tabs| && tabs[i].id == tabs[j].id
    ensures CountActive(SetActiveTab(tabs, tabs[i].id)) >= 2
    ensures !ExactlyOneActive(SetActiveTab(tabs, tabs[i].id))
  {
    CountTwo(IsActive, SetActiveTab(tabs, tabs[i].id), i, j);
  }

  // ----- updateTab -----

  /** `{...t, ...u}`: present fields of the patch override, absent ones keep
      the tab's own. */
  function ApplyPatch(t: Tab, u: TabPatch): (r: Tab)
    ensures r.id == (if u.id.Some? then u.id.value else t.id)
    ensures r.url == (if u.url.Some? then u.url.value else t.url)
    ensures r.title == (if u.title.Some? then u.title.value else t.title)
    ensures r.favicon == (if u.favicon.Some? then u.favicon.value else t.favicon)
    ensures r.active == (if u.active.Some? then u.active.value else t.active)
  {
    Tab(u.id.GetOr(t.id), u.url.GetOr(t.url), u.title.GetOr(t.title), u.favicon.GetOr(t.favicon),
        u.active.GetOr(t.active))
  }

  function PatchIf(id: string, u: TabPatch): (r: Tab -> Tab) {
    (t: Tab) => if t.id == id then ApplyPatch(t, u) else t
  }

  /** `updateTab(id, u)`: every tab carrying `id` takes the patch, every
      other tab is untouched. The patch may overwrite `active` and `id`. */
  function UpdateTab(tabs: seq<Tab>, id: string, u: TabPatch): (r: seq<Tab>)
    ensures |r| == |tabs|
    ensures forall i :: 0 <= i < |tabs| && tabs[i].id != id ==> r[i] == tabs[i]
    ensures forall i :: 0 <= i < |tabs| && tabs[i].id == id ==> r[i] == ApplyPatch(tabs[i], u)
  {
    Map(PatchIf(id, u), tabs)
  }

  /** An empty patch, or an id no tab carries, changes nothing. */
  lemma UpdateIdentity(tabs: seq<Tab>, id: string, u: TabPatch)
    requires u == EmptyPatch || forall i :: 0 <= i < |tabs| ==> tabs[i].id != id
    ensures UpdateTab(tabs, id, u) == tabs
  {
    var r := UpdateTab(tabs, id, u);
    assert forall i :: 0 <= i < |tabs| ==> r[i] == tabs[i];
  }

  /** A patch without `active` keeps every active flag. */
  lemma UpdateKeepsFlags(tabs: seq<Tab>, id: string, u: TabPatch)
    requires u.active.None?
    ensures CountActive(UpdateTab(tabs, id, u)) == CountActive(tabs)
    ensures forall i :: 0 <= i < |tabs| ==> UpdateTab(tabs, id, u)[i].active == tabs[i].active
  {
    CountMap(IsActive, PatchIf(id, u), IsActive, tabs);
  }

  /** A patch can activate a second tab and can duplicate an id. */
  lemma UpdateCanBreakInvariants()
    ensures var tabs := [Tab("1", "a", "A", "", true), Tab("2", "b", "B", "", false)];
            && ExactlyOneActive(tabs)
            && !ExactlyOneActive(UpdateTab(tabs, "2", EmptyPatch.(active := Some(true))))
            && UniqueIds(tabs)
            && !UniqueIds(UpdateTab(tabs, "2", EmptyPatch.(id := Some("1"))))
  {
    var tabs := [Tab("1", "a", "A", "", true), Tab("2", "b", "B", "", false)];
    CountOnlyAt(IsActive, tabs, 0);
    CountTwo(IsActive, UpdateTab(tabs, "2", EmptyPatch.(active := Some(true))), 0, 1);
    assert UpdateTab(tabs, "2", EmptyPatch.(id := Some("1")))[1].id == "1";
  }

  // ----- duplicateTab -----

  /** `duplicateTab(id)`: an unknown id changes nothing; otherwise every tab
      is deactivated and a copy of the FIRST tab carrying `id`, with the
      fresh id and active, is appended. */
  function DuplicateTab(tabs: seq<Tab>, id: string, freshId: string): (r: seq<Tab>)
    ensures (forall i :: 0 <= i < |tabs| ==> tabs[i].id != id) ==> r == tabs
    ensures forall k :: 0 <= k < |tabs| && tabs[k].id == id && (forall j :: 0 <= j < k ==> tabs[j].id != id) ==>
              && |r| == |tabs| + 1
              && r[|tabs|] == Tab(freshId, tabs[k].url, tabs[k].title, tabs[k].favicon, true)
              && (forall i :: 0 <= i < |tabs| ==> SameButActive(r[i], tabs[i]) && !r[i].active)
              && ExactlyOneActive(r)
  {
    match FirstIndex(HasId(id), tabs)
    case None => tabs
    case Some(k) =>
      var copy := tabs[k].(id := freshId, active := true);
      AppendActive(tabs, copy);
      Map(Deactivate, tabs) + [copy]
  }

  /** With a fresh id not already in use, duplication keeps ids unique. */
  lemma DuplicateKeepsIdsUnique(tabs: seq<Tab>, k: nat, freshId: string)
    requires k < |tabs| && UniqueIds(tabs)
    requires forall i :: 0 <= i < |tabs| ==> tabs[i].id != freshId
    ensures UniqueIds(DuplicateTab(tabs, tabs[k].id, freshId))
  {
    var id := tabs[k].id;
    var first := FirstIndex(HasId(id), tabs).value;
    assert first == k;
  }

  /** A clock-derived id can collide: duplicating with an id already in use
      yields two tabs with that id. */
  lemma DuplicateCollidingId(tabs: seq<Tab>, k: nat)
    requires k < |tabs|
    ensures var r := DuplicateTab(tabs, tabs[k].id, tabs[k].id);
            |r| == |tabs| + 1 && !UniqueIds(r)
  {
    var id := tabs[k].id;
    var first := FirstIndex(HasId(id), tabs).value;
    var r := DuplicateTab(tabs, id, id);
    assert r[first].id == r[|tabs|].id;
  }

  // ----- reorderTabs -----

  /** `reorderTabs(from, to)` for in-range indices: the tab at `from` moves
      to `to`, the tabs in between shift by one, and the list is otherwise a
      permutation of the input with every tab (and so every flag) intact. */
  function ReorderTabs(tabs: seq<Tab>, from: nat, to: nat): (r: seq<Tab>)
    requires from < |tabs| && to < |tabs|
    ensures |r| == |tabs| && r[to] == tabs[from]
    ensures multiset(r) == multiset(tabs)
    ensures CountActive(r) == CountActive(tabs)
    ensures forall i :: 0 <= i < |tabs| && i < from && i < to ==> r[i] == tabs[i]
    ensures forall i :: 0 <= i < |tabs| && i > from && i > to ==> r[i] == tabs[i]
    ensures forall i :: from <= i < to ==> r[i] == tabs[i + 1]
    ensures forall i :: to < i <= from ==> r[i] == tabs[i - 1]
  {
    var rest := RemoveAt(tabs, from);
    SplitAt(tabs, from);
    CountSplice(IsActive, tabs[..from], tabs[from + 1..], tabs[from]);
    assert rest[..to] + rest[to..] == rest;
    CountSplice(IsActive, rest[..to], rest[to..], tabs[from]);
    InsertAt(rest, to, tabs[from])
  }

  /** Moving a tab back to where it came from restores the list. */
  lemma ReorderInverse(tabs: seq<Tab>, from: nat, to: nat)
    requires from < |tabs| && to < |tabs|
    ensures ReorderTabs(ReorderTabs(tabs, from, to), to, from) == tabs
  {
    var rest := RemoveAt(tabs, from);
    RemoveInsert(rest, to, tabs[from]);
    InsertRemove(tabs, from);
  }

  // ----- the invariant over sessions -----

  /** One call into the provider. */
  datatype Action =
    | Add(url: Option<string>, freshId: string)
    | Close(id: string, freshId: string)
    | Activate(id: string)
    | Update(id: string, patch: TabPatch)
    | Duplicate(id: string, freshId: string)
    | Reorder(from: nat, to: nat)

  predicate InRange(tabs: seq<Tab>, a: Action) {
    a.Reorder? ==> a.from < |tabs| && a.to < |tabs|
  }

  function Apply(tabs: seq<Tab>, a: Action): (r: seq<Tab>)
    requires InRange(tabs, a)
  {
    match a
    case Add(url, freshId) => AddTab(tabs, freshId, url)
    case Close(id, freshId) => CloseTab(tabs, id, freshId)
    case Activate(id) => SetActiveTab(tabs, id)
    case Update(id, u) => UpdateTab(tabs, id, u)
    case Duplicate(id, freshId) => DuplicateTab(tabs, id, freshId)
    case Reorder(from, to) => ReorderTabs(tabs, from, to)
  }

  /** The calls that cannot break the invariant: activation of an id exactly
      one tab carries, and updates that leave `active` alone. */
  predicate WellBehaved(tabs: seq<Tab>, a: Action) {
    && InRange(tabs, a)
    && (a.Activate? ==> Count(HasId(a.id), tabs) == 1)
    && (a.Update? ==> a.patch.active.None?)
  }

  predicate WellBehavedRun(tabs: seq<Tab>, acts: seq<Action>)
    decreases |acts|
  {
    |acts| == 0 || (WellBehaved(tabs, acts[0]) && WellBehavedRun(Apply(tabs, acts[0]), acts[1..]))
  }

  function Run(tabs: seq<Tab>, acts: seq<Action>): (r: seq<Tab>)
    requires WellBehavedRun(tabs, acts)
    decreases |acts|
  {
    if |acts| == 0 then tabs else Run(Apply(tabs, acts[0]), acts[1..])
  }

  lemma ApplyKeepsExactlyOne(tabs: seq<Tab>, a: Action)
    requires ExactlyOneActive(tabs) && WellBehaved(tabs, a)
    ensures ExactlyOneActive(Apply(tabs, a))
  {
    match a
    case Update(id, u) => UpdateKeepsFlags(tabs, id, u);
    case Duplicate(id, freshId) =>
      if FirstIndex(HasId(id), tabs).Some? {
        var k := FirstIndex(HasId(id), tabs).value;
        assert tabs[k].id == id;
      }
    case _ =>
  }

  /** Exactly one tab stays active through any sequence of well-behaved calls. */
  lemma {:induction false} RunKeepsExactlyOne(tabs: seq<Tab>, acts: seq<Action>)
    requires ExactlyOneActive(tabs) && WellBehavedRun(tabs, acts)
    ensures ExactlyOneActive(Run(tabs, acts))
    decreases |acts|
  {
    if |acts| > 0 {
      ApplyKeepsExactlyOne(tabs, acts[0]);
      RunKeepsExactlyOne(Apply(tabs, acts[0]), acts[1..]);
    }
  }

  /** A session that starts from an empty store keeps exactly one active tab
      for as long as the calls are well behaved. */
  lemma SessionKeepsExactlyOne(saved: SavedTabs, freshId: string, acts: seq<Action>)
    requires saved.NothingSaved? || saved == Saved([])
    requires WellBehavedRun(LoadTabs([], saved, freshId), acts)
    ensures ExactlyOneActive(Run(LoadTabs([], saved, freshId), acts))
  {
    LoadEmptyIsValid(saved, freshId);
    RunKeepsExactlyOne(LoadTabs([], saved, freshId), acts);
  }
}
