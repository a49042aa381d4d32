/** workspaceReducer of workspaceStore.ts: tabs, their groups, and what is active. */
module Workspace {
  import opened Wrappers

  /** A query tab: its result tabs and the active one. Titles and the like play no part here. */
  datatype Tab = Tab(id: string, results: seq<string>, activeResult: Option<string>)

  datatype Group = Group(id: string, tabIds: seq<string>, active: Option<string>)

  datatype State = State(tabs: seq<Tab>, active: Option<string>, groups: Option<seq<Group>>)

  datatype Action =
    | TabAdded(tabId: string, split: bool, groupId: Option<string>)
    | TabClosed(tabId: string)
    | TabActivated(tabId: string)
    | TabActivatedByIndex(index: int)
    | TabCycled(forward: bool)
    | PanelCycled(forward: bool)
    | ResultCycled(forward: bool)
    | ResultAdded(tabId: string, resultId: string)
    | ResultClosed(tabId: string, resultId: string)
    | ResultActivated(tabId: string, resultId: string)

  const Empty: State := State([], None, None)

  function Ids(tabs: seq<Tab>): seq<string> {
    seq(|tabs|, i requires 0 <= i < |tabs| => tabs[i].id)
  }

  function Groups(s: State): seq<Group> {
    if s.groups.Some? then s.groups.value else [Group("main", Ids(s.tabs), s.active)]
  }

  /** Array.indexOf */
  function IndexOf(s: seq<string>, x: string): (i: int)
    ensures -1 <= i < |s|
  {
    if s == [] then -1 else if s[0] == x then 0 else var i := IndexOf(s[1..], x); if i < 0 then -1 else i + 1
  }

  predicate Holds(g: Group, tabId: Option<string>) {
    tabId.Some? && tabId.value in g.tabIds
  }

  function GroupHolding(groups: seq<Group>, tabId: Option<string>): (i: int)
    ensures -1 <= i < |groups|
  {
    if groups == [] then -1
    else if Holds(groups[0], tabId) then 0
    else var i := GroupHolding(groups[1..], tabId); if i < 0 then -1 else i + 1
  }

  function GroupNamed(groups: seq<Group>, id: string): (i: int)
    ensures -1 <= i < |groups|
  {
    if groups == [] then -1
    else if groups[0].id == id then 0
    else var i := GroupNamed(groups[1..], id); if i < 0 then -1 else i + 1
  }

  function Max0(i: int): nat {
    if i < 0 then 0 else i
  }

  function Without(s: seq<string>, x: string): seq<string> {
    if s == [] then [] else (if s[0] == x then [] else [s[0]]) + Without(s[1..], x)
  }

  function WithoutTab(tabs: seq<Tab>, id: string): seq<Tab> {
    if tabs == [] then [] else (if tabs[0].id == id then [] else [tabs[0]]) + WithoutTab(tabs[1..], id)
  }

  /** s[min(i, s.length - 1)], undefined when empty. */
  function AtMost(s: seq<string>, i: int): Option<string> {
    var k := if i <= |s| - 1 then i else |s| - 1;
    if 0 <= k < |s| then Some(s[k]) else None
  }

  function UpdateTab(s: State, tabId: string, f: Tab -> Tab): State {
    s.(tabs := seq(|s.tabs|, i requires 0 <= i < |s.tabs| => if s.tabs[i].id == tabId then f(s.tabs[i]) else s.tabs[i]))
  }

  function Focused(g: Group, tabId: string): Group {
    if tabId in g.tabIds then g.(active := Some(tabId)) else g
  }

  function Activate(s: State, tabId: string): State {
    if s.active == Some(tabId) || tabId !in Ids(s.tabs) then s
    else
      var groups := Groups(s);
      s.(active := Some(tabId), groups := Some(seq(|groups|, i requires 0 <= i < |groups| => Focused(groups[i], tabId))))
  }

  function AddTab(s: State, tabId: string, split: bool, groupId: Option<string>): State
    requires s.groups != Some([])
  {
    var tab := Tab(tabId, [], None);
    var groups := Groups(s);
    var at := Max0(if groupId.Some? && groupId.value != "" then GroupNamed(groups, groupId.value) else GroupHolding(groups, s.active));
    var groups' :=
      if split && s.tabs != [] then groups[..at + 1] + [Group(tabId, [tabId], Some(tabId))] + groups[at + 1..]
      else groups[at := groups[at].(tabIds := groups[at].tabIds + [tabId], active := Some(tabId))];
    State(s.tabs + [tab], Some(tabId), Some(groups'))
  }

  function CloseTab(s: State, tabId: string): State {
    var groups := Groups(s);
    var at := GroupHolding(groups, Some(tabId));
    if at < 0 then s
    else
      var g := groups[at];
      var tabIds := Without(g.tabIds, tabId);
      var next := g.(tabIds := tabIds,
        active := if g.active == Some(tabId) then AtMost(tabIds, IndexOf(g.tabIds, tabId)) else g.active);
      var groups' := groups[..at] + (if tabIds != [] then [next] else []) + groups[at + 1..];
      var active :=
        if s.active != Some(tabId) then s.active
        else if next.active.Some? then next.active
        else if groups' == [] then None
        else groups'[if at <= |groups'| - 1 then at else |groups'| - 1].active;
      State(WithoutTab(s.tabs, tabId), active, if groups' == [] then None else Some(groups'))
  }

  function Flat(groups: seq<Group>): seq<string> {
    if groups == [] then [] else groups[0].tabIds + Flat(groups[1..])
  }

  /** (i + direction + n) % n */
  function Turned(i: nat, forward: bool, n: nat): (r: nat)
    requires i < n
    ensures r < n
  {
    (i + (if forward then 1 else -1) + n) % n
  }

  function CycleTab(s: State, forward: bool): State {
    var ids := Flat(Groups(s));
    if ids == [] then s
    else Activate(s, ids[Turned(Max0(if s.active.Some? then IndexOf(ids, s.active.value) else -1), forward, |ids|)])
  }

  function CyclePanel(s: State, forward: bool): State {
    var groups := Groups(s);
    if groups == [] then s
    else
      var g := groups[Turned(Max0(GroupHolding(groups, s.active)), forward, |groups|)];
      if g.active.Some? then Activate(s, g.active.value)
      else if g.tabIds != [] then Activate(s, g.tabIds[0])
      else s
  }

  function ActivateIndex(s: State, index: int): State {
    var groups := Groups(s);
    var at := GroupHolding(groups, s.active);
    if at < 0 || !(0 <= index < |groups[at].tabIds|) then s else Activate(s, groups[at].tabIds[index])
  }

  function CycledResult(t: Tab, forward: bool): Tab {
    if |t.results| < 2 then t
    else
      var i := Max0(if t.activeResult.Some? then IndexOf(t.results, t.activeResult.value) else -1);
      t.(activeResult := Some(t.results[Turned(i, forward, |t.results|)]))
  }

  function ClosedResult(t: Tab, resultId: string): Tab {
    var results := Without(t.results, resultId);
    t.(results := results,
       activeResult := if t.activeResult == Some(resultId) then AtMost(results, IndexOf(t.results, resultId)) else t.activeResult)
  }

  function Reduce(s: State, a: Action): State
    requires s.groups != Some([])
  {
    match a
    case TabAdded(tabId, split, groupId) => AddTab(s, tabId, split, groupId)
    case TabClosed(tabId) => CloseTab(s, tabId)
    case TabActivated(tabId) => Activate(s, tabId)
    case TabActivatedByIndex(index) => ActivateIndex(s, index)
    case TabCycled(forward) => CycleTab(s, forward)
    case PanelCycled(forward) => CyclePanel(s, forward)
    case ResultCycled(forward) => if s.active.None? then s else UpdateTab(s, s.active.value, t => CycledResult(t, forward))
    case ResultAdded(tabId, r) => UpdateTab(s, tabId, (t: Tab) => t.(results := t.results + [r], activeResult := Some(r)))
    case ResultClosed(tabId, r) => UpdateTab(s, tabId, t => ClosedResult(t, r))
    case ResultActivated(tabId, r) => UpdateTab(s, tabId, (t: Tab) => t.(activeResult := Some(r)))
  }

  // ---- the invariant ----

  ghost predicate Distinct(s: seq<string>) {
    forall x :: multiset(s)[x] <= 1
  }

  /** A tab's results are distinct, and one of them is active when there are any. */
  ghost predicate TabOk(t: Tab) {
    && Distinct(t.results)
    && if t.results == [] then t.activeResult == None else t.activeResult.Some? && t.activeResult.value in t.results
  }

  /** No group is empty, and its active tab is one of its own. */
  predicate GroupOk(g: Group) {
    g.active.Some? && g.active.value in g.tabIds
  }

  /** The active tab is some group's active tab. */
  predicate ActiveOk(active: Option<string>, groups: seq<Group>) {
    active.Some? && exists k :: 0 <= k < |groups| && groups[k].active == active
  }

  ghost predicate Inv(s: State) {
    && Distinct(Ids(s.tabs))
    && (forall k :: 0 <= k < |s.tabs| ==> TabOk(s.tabs[k]))
    && (s.groups.None? ==> s.tabs == [] && s.active == None)
    && (s.groups.Some? ==> GroupsOk(s, s.groups.value))
  }

  /** The groups partition the tabs. */
  ghost predicate GroupsOk(s: State, groups: seq<Group>) {
    && groups != [] && (forall k :: 0 <= k < |groups| ==> GroupOk(groups[k]))
    && multiset(Flat(groups)) == multiset(Ids(s.tabs))
    && ActiveOk(s.active, groups)
  }

  /** New ids are fresh, and only a tab's own results are activated. */
  predicate Valid(s: State, a: Action) {
    match a
    case TabAdded(tabId, _, _) => tabId !in Ids(s.tabs)
    case ResultAdded(tabId, r) => forall k :: 0 <= k < |s.tabs| && s.tabs[k].id == tabId ==> r !in s.tabs[k].results
    case ResultActivated(tabId, r) => forall k :: 0 <= k < |s.tabs| && s.tabs[k].id == tabId ==> r in s.tabs[k].results
    case _ => true
  }

  // ---- sequences ----

  lemma {:induction false} FlatSplit(a: seq<Group>, b: seq<Group>)
    ensures Flat(a + b) == Flat(a) + Flat(b)
    decreases a
  {
    if a == [] {
      assert a + b == b;
    } else {
      assert (a + b)[1..] == a[1..] + b;
      FlatSplit(a[1..], b);
    }
  }

  lemma FlatHead(groups: seq<Group>)
    requires groups != []
    ensures Flat(groups) == groups[0].tabIds + Flat(groups[1..])
  {
  }

  lemma JoinedTwice(a: seq<string>, b: seq<string>, c: seq<string>)
    ensures a + (b + c) == a + b + c
  {
  }

  lemma FlatAt(groups: seq<Group>, at: nat)
    requires at < |groups|
    ensures Flat(groups) == Flat(groups[..at]) + groups[at].tabIds + Flat(groups[at + 1..])
  {
    hide Flat;
    FlatSplit(groups[..at], groups[at..]);
    assert groups[..at] + groups[at..] == groups;
    FlatHead(groups[at..]);
    assert groups[at..][0] == groups[at] && groups[at..][1..] == groups[at + 1..];
    JoinedTwice(Flat(groups[..at]), groups[at].tabIds, Flat(groups[at + 1..]));
  }

  lemma {:induction false} FlatMember(groups: seq<Group>, x: string)
    ensures x in Flat(groups) <==> exists k :: 0 <= k < |groups| && x in groups[k].tabIds
    decreases groups
  {
    if groups != [] {
      FlatMember(groups[1..], x);
      assert forall k :: 1 <= k < |groups| ==> groups[k] == groups[1..][k - 1];
    }
  }

  lemma InMultiset(s: seq<string>, x: string)
    ensures x in s <==> multiset(s)[x] > 0
  {
  }

  lemma {:induction false} HoldingFound(groups: seq<Group>, tabId: Option<string>)
    ensures var at := GroupHolding(groups, tabId);
      if at < 0 then forall k :: 0 <= k < |groups| ==> !Holds(groups[k], tabId)
      else Holds(groups[at], tabId)
    decreases groups
  {
    if groups != [] && !Holds(groups[0], tabId) {
      HoldingFound(groups[1..], tabId);
      assert forall k :: 1 <= k < |groups| ==> groups[k] == groups[1..][k - 1];
    }
  }

  lemma {:induction false} WithoutCounts(s: seq<string>, x: string)
    ensures forall y :: multiset(Without(s, x))[y] == if y == x then 0 else multiset(s)[y]
    decreases s
  {
    if s != [] {
      WithoutCounts(s[1..], x);
      assert s == [s[0]] + s[1..];
    }
  }

  lemma {:induction false} WithoutTabIds(tabs: seq<Tab>, x: string)
    ensures Ids(WithoutTab(tabs, x)) == Without(Ids(tabs), x)
    ensures forall t :: t in WithoutTab(tabs, x) ==> t in tabs
    decreases tabs
  {
    if tabs != [] {
      WithoutTabIds(tabs[1..], x);
      assert Ids(tabs) == [tabs[0].id] + Ids(tabs[1..]);
      assert Ids(WithoutTab(tabs, x)) == (if tabs[0].id == x then [] else [tabs[0].id]) + Ids(WithoutTab(tabs[1..], x));
    }
  }

  // ---- every step keeps the invariant ----

  lemma FlatSame(a: seq<Group>, b: seq<Group>)
    requires |a| == |b| && forall k :: 0 <= k < |a| ==> a[k].tabIds == b[k].tabIds
    ensures Flat(a) == Flat(b)
    decreases a
  {
    if a != [] {
      FlatSame(a[1..], b[1..]);
    }
  }

  lemma SameMembers(s: State, groups: seq<Group>, x: string)
    requires GroupsOk(s, groups)
    ensures x in Flat(groups) <==> x in Ids(s.tabs)
  {
    InMultiset(Flat(groups), x);
    InMultiset(Ids(s.tabs), x);
  }

  lemma ActivateKeepsInv(s: State, tabId: string)
    requires Inv(s)
    ensures Inv(Activate(s, tabId)) && Ids(Activate(s, tabId).tabs) == Ids(s.tabs)
    ensures Flat(Groups(Activate(s, tabId))) == Flat(Groups(s))
  {
    hide Flat;
    if s.active != Some(tabId) && tabId in Ids(s.tabs) {
      var groups, groups' := Groups(s), Groups(Activate(s, tabId));
      FlatSame(groups, groups');
      SameMembers(s, groups, tabId);
      FlatMember(groups, tabId);
      var k :| 0 <= k < |groups| && tabId in groups[k].tabIds;
      assert groups'[k].active == Some(tabId);
    }
  }

  lemma SplitOff(groups: seq<Group>, at: nat, one: Group)
    requires at <= |groups|
    ensures multiset(Flat(groups[..at] + [one] + groups[at..])) == multiset(Flat(groups)) + multiset(one.tabIds)
  {
    FlatSplit(groups[..at] + [one], groups[at..]);
    FlatSplit(groups[..at], [one]);
    FlatSplit(groups[..at], groups[at..]);
    assert groups[..at] + groups[at..] == groups;
    assert [one][1..] == [] && Flat([one]) == one.tabIds + [];
  }

  lemma Appended(groups: seq<Group>, at: nat, g: Group, tabId: string)
    requires at < |groups| && g.tabIds == groups[at].tabIds + [tabId]
    ensures multiset(Flat(groups[at := g])) == multiset(Flat(groups)) + multiset([tabId])
  {
    var groups' := groups[at := g];
    FlatAt(groups, at);
    FlatAt(groups', at);
    assert groups'[..at] == groups[..at] && groups'[at + 1..] == groups[at + 1..];
  }

  lemma AddedGroups(s: State, tabId: string, split: bool, groupId: Option<string>)
    requires Inv(s) && s.groups.Some? && tabId !in Ids(s.tabs)
    ensures var s' := AddTab(s, tabId, split, groupId);
      s'.groups.Some? && GroupsOk(s', s'.groups.value)
  {
    hide Flat, GroupNamed, GroupHolding;
    var groups, s' := s.groups.value, AddTab(s, tabId, split, groupId);
    var at := Max0(if groupId.Some? && groupId.value != "" then GroupNamed(groups, groupId.value) else GroupHolding(groups, s.active));
    var groups' := s'.groups.value;
    assert Ids(s'.tabs) == Ids(s.tabs) + [tabId];
    if split && s.tabs != [] {
      SplitOff(groups, at + 1, Group(tabId, [tabId], Some(tabId)));
      assert groups'[at + 1].active == Some(tabId);
    } else {
      Appended(groups, at, groups'[at], tabId);
      assert groups'[at].active == Some(tabId);
    }
  }

  lemma FirstTab(s: State, tabId: string, split: bool, groupId: Option<string>)
    requires Inv(s) && s.groups.None?
    ensures var s' := AddTab(s, tabId, split, groupId);
      s'.groups.Some? && GroupsOk(s', s'.groups.value)
  {
    var s' := AddTab(s, tabId, split, groupId);
    var g := Group("main", [tabId], Some(tabId));
    assert Ids(s.tabs) == [] && Groups(s) == [Group("main", [], None)];
    assert [] + [tabId] == [tabId];
    assert Groups(s)[0 := g] == [g];
    assert s'.groups == Some([g]);
    assert [g][1..] == [] && Flat([g]) == [tabId] + [];
    assert Ids(s'.tabs) == [tabId];
    assert [g][0].active == s'.active;
  }

  lemma AddKeepsInv(s: State, tabId: string, split: bool, groupId: Option<string>)
    requires Inv(s) && s.groups != Some([]) && tabId !in Ids(s.tabs)
    ensures Inv(AddTab(s, tabId, split, groupId))
  {
    hide GroupsOk, GroupNamed, GroupHolding;
    var s' := AddTab(s, tabId, split, groupId);
    assert Ids(s'.tabs) == Ids(s.tabs) + [tabId];
    InMultiset(Ids(s.tabs), tabId);
    if s.groups.Some? {
      AddedGroups(s, tabId, split, groupId);
    } else {
      FirstTab(s, tabId, split, groupId);
    }
  }

  /** The group a tab is closed in, afterwards. */
  function AfterClose(g: Group, tabId: string): Group {
    var tabIds := Without(g.tabIds, tabId);
    g.(tabIds := tabIds,
       active := if g.active == Some(tabId) then AtMost(tabIds, IndexOf(g.tabIds, tabId)) else g.active)
  }

  lemma {:induction false} IndexOfFound(s: seq<string>, x: string)
    requires x in s
    ensures IndexOf(s, x) >= 0 && s[IndexOf(s, x)] == x
    decreases s
  {
    if s[0] != x {
      IndexOfFound(s[1..], x);
    }
  }

  lemma AfterCloseOk(g: Group, tabId: string)
    requires GroupOk(g) && tabId in g.tabIds
    ensures var g' := AfterClose(g, tabId);
      && (g'.tabIds != [] ==> GroupOk(g'))
      && (g'.tabIds == [] ==> g'.active == None)
  {
    WithoutCounts(g.tabIds, tabId);
    IndexOfFound(g.tabIds, tabId);
    var g' := AfterClose(g, tabId);
    if g.active != Some(tabId) {
      InMultiset(g.tabIds, g.active.value);
      InMultiset(g'.tabIds, g.active.value);
    }
  }

  lemma KeptFlat(groups: seq<Group>, at: nat, g: Group)
    requires at < |groups|
    ensures Flat(groups[..at] + (if g.tabIds != [] then [g] else []) + groups[at + 1..])
      == Flat(groups[..at]) + g.tabIds + Flat(groups[at + 1..])
  {
    var keep := if g.tabIds != [] then [g] else [];
    FlatSplit(groups[..at] + keep, groups[at + 1..]);
    FlatSplit(groups[..at], keep);
    assert [g][1..] == [];
    assert Flat(keep) == g.tabIds;
  }

  /** Taking x out of the only stretch that holds it. */
  lemma BagOfThree(a: seq<string>, m: seq<string>, b: seq<string>)
    ensures multiset(a + m + b) == multiset(a) + multiset(m) + multiset(b)
  {
  }

  lemma WithoutMiddle(a: seq<string>, m: seq<string>, b: seq<string>, x: string)
    requires x in m && Distinct(a + m + b)
    ensures multiset(a + Without(m, x) + b) == multiset(Without(a + m + b, x))
  {
    hide Without;
    WithoutCounts(m, x);
    WithoutCounts(a + m + b, x);
    InMultiset(m, x);
    BagOfThree(a, m, b);
    BagOfThree(a, Without(m, x), b);
  }

  lemma ClosedFlat(groups: seq<Group>, at: nat, tabId: string)
    requires at < |groups| && tabId in groups[at].tabIds && Distinct(Flat(groups))
    ensures var g' := AfterClose(groups[at], tabId);
      multiset(Flat(groups[..at] + (if g'.tabIds != [] then [g'] else []) + groups[at + 1..]))
      == multiset(Without(Flat(groups), tabId))
  {
    hide Flat, Without;
    FlatAt(groups, at);
    KeptFlat(groups, at, AfterClose(groups[at], tabId));
    WithoutMiddle(Flat(groups[..at]), groups[at].tabIds, Flat(groups[at + 1..]), tabId);
  }

  lemma ClosedIds(s: State, tabId: string)
    requires Distinct(Ids(s.tabs)) && forall k :: 0 <= k < |s.tabs| ==> TabOk(s.tabs[k])
    ensures var tabs := WithoutTab(s.tabs, tabId);
      && Distinct(Ids(tabs)) && (forall k :: 0 <= k < |tabs| ==> TabOk(tabs[k]))
      && multiset(Ids(tabs)) == multiset(Without(Ids(s.tabs), tabId))
  {
    WithoutTabIds(s.tabs, tabId);
    WithoutCounts(Ids(s.tabs), tabId);
    var tabs := WithoutTab(s.tabs, tabId);
    forall k | 0 <= k < |tabs| ensures TabOk(tabs[k]) {
      assert tabs[k] in tabs;
    }
  }

  lemma SameCounts(a: seq<string>, b: seq<string>, x: string)
    requires multiset(a) == multiset(b)
    ensures multiset(Without(a, x)) == multiset(Without(b, x))
  {
    WithoutCounts(a, x);
    WithoutCounts(b, x);
  }

  predicate AllGroupsOk(groups: seq<Group>) {
    forall k :: 0 <= k < |groups| ==> GroupOk(groups[k])
  }

  lemma ClosedActive(s: State, tabId: string, at: nat)
    requires Inv(s) && s.groups.Some? && at == GroupHolding(s.groups.value, Some(tabId))
    ensures var s' := CloseTab(s, tabId);
      s'.groups.None? ==> s'.active == None
    ensures var s' := CloseTab(s, tabId);
      s'.groups.Some? ==> s'.groups.value != [] && AllGroupsOk(s'.groups.value) && ActiveOk(s'.active, s'.groups.value)
  {
    hide Flat, Without, WithoutTab, IndexOf, AtMost, Distinct;
    var groups, s' := s.groups.value, CloseTab(s, tabId);
    HoldingFound(groups, Some(tabId));
    var g, next := groups[at], AfterClose(groups[at], tabId);
    AfterCloseOk(g, tabId);
    var groups' := groups[..at] + (if next.tabIds != [] then [next] else []) + groups[at + 1..];
    assert s'.groups == if groups' == [] then None else Some(groups');
    var j :| 0 <= j < |groups| && groups[j].active == s.active;
    if s.active != Some(tabId) {
      if j == at {
        assert groups'[at] == next;
      } else {
        var i := if j < at then j else if next.tabIds != [] then j else j - 1;
        assert groups'[i] == groups[j];
      }
    } else if next.tabIds != [] {
      assert groups'[at] == next;
    }
  }

  lemma CloseKeepsInv(s: State, tabId: string)
    requires Inv(s)
    ensures Inv(CloseTab(s, tabId))
  {
    var groups, s' := Groups(s), CloseTab(s, tabId);
    HoldingFound(groups, Some(tabId));
    var at := GroupHolding(groups, Some(tabId));
    if at >= 0 {
      assert s.groups.Some?;
      ClosedIds(s, tabId);
      ClosedFlat(groups, at, tabId);
      SameCounts(Flat(groups), Ids(s.tabs), tabId);
      ClosedActive(s, tabId, at);
      if s'.groups.None? {
        assert multiset(Ids(s'.tabs)) == multiset{};
        assert Ids(s'.tabs) == [];
      }
    }
  }

  lemma UpdateKeepsInv(s: State, tabId: string, f: Tab -> Tab)
    requires Inv(s)
    requires forall k :: 0 <= k < |s.tabs| && s.tabs[k].id == tabId ==> f(s.tabs[k]).id == tabId && TabOk(f(s.tabs[k]))
    ensures Inv(UpdateTab(s, tabId, f))
  {
    var s' := UpdateTab(s, tabId, f);
    assert Ids(s'.tabs) == Ids(s.tabs);
  }

  lemma ClosedResultOk(t: Tab, r: string)
    requires TabOk(t)
    ensures TabOk(ClosedResult(t, r))
  {
    var t' := ClosedResult(t, r);
    WithoutCounts(t.results, r);
    if t.activeResult == Some(r) {
      IndexOfFound(t.results, r);
    } else if t.results != [] {
      InMultiset(t.results, t.activeResult.value);
      InMultiset(t'.results, t.activeResult.value);
    }
  }

  lemma StepKeepsInv(s: State, a: Action)
    requires Inv(s) && Valid(s, a)
    ensures s.groups != Some([]) && Inv(Reduce(s, a))
  {
    match a {
      case TabAdded(tabId, split, groupId) => AddKeepsInv(s, tabId, split, groupId);
      case TabClosed(tabId) => CloseKeepsInv(s, tabId);
      case TabActivated(tabId) => ActivateKeepsInv(s, tabId);
      case TabActivatedByIndex(index) =>
        var at := GroupHolding(Groups(s), s.active);
        if at >= 0 && 0 <= index < |Groups(s)[at].tabIds| {
          ActivateKeepsInv(s, Groups(s)[at].tabIds[index]);
        }
      case TabCycled(forward) => CycleKeepsInv(s, forward);
      case PanelCycled(forward) => PanelKeepsInv(s, forward);
      case ResultCycled(forward) =>
        if s.active.Some? {
          UpdateKeepsInv(s, s.active.value, t => CycledResult(t, forward));
        }
      case ResultAdded(tabId, r) =>
        UpdateKeepsInv(s, tabId, (t: Tab) => t.(results := t.results + [r], activeResult := Some(r)));
      case ResultClosed(tabId, r) =>
        forall k | 0 <= k < |s.tabs| ensures TabOk(ClosedResult(s.tabs[k], r)) {
          ClosedResultOk(s.tabs[k], r);
        }
        UpdateKeepsInv(s, tabId, t => ClosedResult(t, r));
      case ResultActivated(tabId, r) =>
        UpdateKeepsInv(s, tabId, (t: Tab) => t.(activeResult := Some(r)));
    }
  }

  lemma CycleKeepsInv(s: State, forward: bool)
    requires Inv(s)
    ensures Inv(CycleTab(s, forward))
  {
    var ids := Flat(Groups(s));
    if ids != [] {
      ActivateKeepsInv(s, ids[Turned(Max0(if s.active.Some? then IndexOf(ids, s.active.value) else -1), forward, |ids|)]);
    }
  }

  lemma PanelKeepsInv(s: State, forward: bool)
    requires Inv(s)
    ensures Inv(CyclePanel(s, forward))
  {
    var groups := Groups(s);
    if groups != [] {
      var g := groups[Turned(Max0(GroupHolding(groups, s.active)), forward, |groups|)];
      if g.active.Some? {
        ActivateKeepsInv(s, g.active.value);
      }
    }
  }

  // ---- runs ----

  ghost predicate ValidRun(s: State, run: seq<Action>)
    requires Inv(s)
    decreases |run|
  {
    run == [] || (Valid(s, run[0]) && (StepKeepsInv(s, run[0]); ValidRun(Reduce(s, run[0]), run[1..])))
  }

  ghost function After(s: State, run: seq<Action>): State
    requires Inv(s) && ValidRun(s, run)
    decreases |run|
  {
    if run == [] then s
    else
      StepKeepsInv(s, run[0]);
      After(Reduce(s, run[0]), run[1..])
  }

  /** Two different groups never hold the same tab. */
  lemma HeldOnce(groups: seq<Group>, i: nat, j: nat, x: string)
    requires i < j < |groups| && x in groups[i].tabIds && x in groups[j].tabIds
    ensures !Distinct(Flat(groups))
  {
    FlatAt(groups, i);
    FlatMember(groups[i + 1..], x);
    assert groups[i + 1..][j - i - 1] == groups[j];
    InMultiset(groups[i].tabIds, x);
    InMultiset(Flat(groups[i + 1..]), x);
    assert multiset(Flat(groups))[x] >= 2;
  }

  /** What the invariant says of a workspace with tabs. */
  ghost predicate WellFormed(s: State) {
    && s.groups.Some? && s.active.Some?
    && (forall k :: 0 <= k < |s.groups.value| ==> s.groups.value[k].tabIds != [] && GroupOk(s.groups.value[k]))
    && (forall x :: (x in Ids(s.tabs) <==> exists k :: 0 <= k < |s.groups.value| && x in s.groups.value[k].tabIds))
    && (forall i, j, x :: 0 <= i < j < |s.groups.value| && x in s.groups.value[i].tabIds ==> x !in s.groups.value[j].tabIds)
    && s.active.value in Ids(s.tabs)
    && (forall k :: 0 <= k < |s.groups.value| && s.active.value in s.groups.value[k].tabIds ==>
          s.groups.value[k].active == s.active)
  }

  lemma InvSaysSo(s: State)
    requires Inv(s) && s.tabs != []
    ensures WellFormed(s)
  {
    var groups := s.groups.value;
    assert Distinct(Flat(groups));
    forall i, j, x | 0 <= i < j < |groups| && x in groups[i].tabIds ensures x !in groups[j].tabIds {
      if x in groups[j].tabIds {
        HeldOnce(groups, i, j, x);
      }
    }
    forall x ensures x in Ids(s.tabs) <==> exists k :: 0 <= k < |groups| && x in groups[k].tabIds {
      SameMembers(s, groups, x);
      FlatMember(groups, x);
    }
  }

  /**
   * After any run of actions from the empty workspace the groups partition the tabs, none is empty,
   * each has an active tab of its own, the active tab is its own group's, and there is one exactly
   * when there are tabs; a tab has an active result exactly when it has results.
   */
  lemma {:induction false} RunKeepsWorkspace(s: State, run: seq<Action>)
    requires Inv(s) && ValidRun(s, run)
    ensures var s' := After(s, run);
      && Inv(s') && (s'.active.Some? <==> s'.tabs != []) && (s'.tabs != [] ==> WellFormed(s'))
      && forall k :: 0 <= k < |s'.tabs| ==> TabOk(s'.tabs[k])
    decreases |run|
  {
    if run == [] {
      if s.tabs != [] {
        InvSaysSo(s);
      } else if s.groups.Some? {
        assert Ids(s.tabs) == [];
        var groups := s.groups.value;
        FlatMember(groups, groups[0].active.value);
        SameMembers(s, groups, groups[0].active.value);
        assert false;
      }
    } else {
      StepKeepsInv(s, run[0]);
      RunKeepsWorkspace(Reduce(s, run[0]), run[1..]);
    }
  }

  lemma EmptyIsFine()
    ensures Inv(Empty)
  {
    assert Ids(Empty.tabs) == [];
  }

  // ---- cycling ----

  lemma Repeated(s: seq<string>, i: nat, j: nat)
    requires i < j < |s| && s[i] == s[j]
    ensures !Distinct(s)
  {
    assert s == s[..i + 1] + s[i + 1..];
    assert s[i] == s[..i + 1][i] && s[j] == s[i + 1..][j - i - 1];
    InMultiset(s[..i + 1], s[i]);
    InMultiset(s[i + 1..], s[i]);
    assert multiset(s)[s[i]] >= 2;
  }

  lemma {:induction false} IndexOfAtOrBefore(s: seq<string>, k: nat)
    requires k < |s|
    ensures 0 <= IndexOf(s, s[k]) <= k && s[IndexOf(s, s[k])] == s[k]
    decreases s
  {
    if s[0] != s[k] {
      IndexOfAtOrBefore(s[1..], k - 1);
    }
  }

  lemma IndexOfAt(s: seq<string>, k: nat)
    requires Distinct(s) && k < |s|
    ensures IndexOf(s, s[k]) == k
  {
    IndexOfAtOrBefore(s, k);
    var i := IndexOf(s, s[k]);
    if i < k {
      Repeated(s, i, k);
    }
  }

  /** The same tabs in the same order as `ids`, with the one at k active. */
  ghost predicate ActiveAt(s: State, tabs: seq<Tab>, ids: seq<string>, k: nat) {
    Inv(s) && s.tabs == tabs && Flat(Groups(s)) == ids && k < |ids| && s.active == Some(ids[k])
  }

  lemma CycleMoves(s: State, forward: bool, tabs: seq<Tab>, ids: seq<string>, k: nat)
    requires tabs != [] && ActiveAt(s, tabs, ids, k)
    ensures ActiveAt(CycleTab(s, forward), tabs, ids, Turned(k, forward, |ids|))
  {
    hide Turned, IndexOf, Flat;
    IndexOfAt(ids, k);
    var x := ids[Turned(k, forward, |ids|)];
    SameMembers(s, Groups(s), x);
    ActivateKeepsInv(s, x);
  }

  function Cycled(s: State, forward: bool, n: nat): State {
    if n == 0 then s else CycleTab(Cycled(s, forward, n - 1), forward)
  }

  lemma TurnOne(k: nat, j: nat, n: nat)
    requires n > 0
    ensures Turned((k + j) % n, true, n) == (k + j + 1) % n
  {
    var q, r := (k + j) / n, (k + j) % n;
    assert k + j == q * n + r;
    if r + 1 < n {
      ModOf(k + j + 1, n, q, r + 1);
      ModOf(r + 1 + n, n, 1, r + 1);
    } else {
      ModOf(k + j + 1, n, q + 1, 0);
      ModOf(r + 1 + n, n, 2, 0);
    }
  }

  lemma MulSmall(d: int, n: int)
    requires 0 <= n && -n < d * n < n
    ensures d == 0
  {
    assert d >= 1 ==> d * n >= n;
    assert d <= -1 ==> d * n <= -n;
  }

  lemma ModOf(a: nat, n: nat, q: nat, r: nat)
    requires r < n && a == q * n + r
    ensures a % n == r
  {
    var q', r' := a / n, a % n;
    assert a == q' * n + r';
    assert (q - q') * n == q * n - q' * n;
    MulSmall(q - q', n);
  }

  lemma {:induction false} CycledActive(s: State, tabs: seq<Tab>, ids: seq<string>, k: nat, j: nat)
    requires tabs != [] && ActiveAt(s, tabs, ids, k)
    ensures ActiveAt(Cycled(s, true, j), tabs, ids, (k + j) % |ids|)
    decreases j
  {
    hide ActiveAt, CycleTab, Turned;
    var n := |ids|;
    assert n > k by { PlaceInside(s, tabs, ids, k); }
    if j == 0 {
      ModOf(k, n, 0, k);
    } else {
      CycledActive(s, tabs, ids, k, j - 1);
      CycleMoves(Cycled(s, true, j - 1), true, tabs, ids, (k + (j - 1)) % n);
      TurnOne(k, j - 1, n);
    }
  }

  lemma PlaceInside(s: State, tabs: seq<Tab>, ids: seq<string>, k: nat)
    requires ActiveAt(s, tabs, ids, k)
    ensures k < |ids|
  {
  }

  /** Where the active tab stands in the order tabs are cycled through. */
  lemma ActivePlace(s: State) returns (k: nat)
    requires Inv(s) && s.tabs != []
    ensures ActiveAt(s, s.tabs, Flat(Groups(s)), k) && |Flat(Groups(s))| == |s.tabs|
  {
    var groups := s.groups.value;
    var ids := Flat(groups);
    var i :| 0 <= i < |groups| && groups[i].active == s.active;
    FlatMember(groups, s.active.value);
    k :| k < |ids| && ids[k] == s.active.value;
    assert |ids| == |multiset(ids)| == |multiset(Ids(s.tabs))| == |s.tabs|;
  }

  /** Forward j times, for the j that leads from place k to place p. */
  lemma CycledTo(s: State, ids: seq<string>, k: nat, p: nat)
    requires s.tabs != [] && ActiveAt(s, s.tabs, ids, k) && p < |ids|
    ensures var j := if p >= k then p - k else p + |ids| - k;
      Cycled(s, true, j).active == Some(ids[p])
  {
    hide Cycled;
    var n := |ids|;
    var j := if p >= k then p - k else p + n - k;
    CycledActive(s, s.tabs, ids, k, j);
    ModOf(k + j, n, if p >= k then 0 else 1, p);
  }

  lemma CycledApart(s: State, ids: seq<string>, k: nat, i: nat, j: nat)
    requires s.tabs != [] && ActiveAt(s, s.tabs, ids, k) && i < j < |ids|
    ensures Cycled(s, true, i).active != Cycled(s, true, j).active
  {
    hide Cycled, Flat;
    CycledActive(s, s.tabs, ids, k, i);
    CycledActive(s, s.tabs, ids, k, j);
    DifferentPlaces(k, i, j, |ids|);
    IndexOfAt(ids, (k + i) % |ids|);
    IndexOfAt(ids, (k + j) % |ids|);
  }

  /** Cycling forward as often as there are tabs visits every tab once and comes back. */
  lemma CyclingVisitsAll(s: State, x: string)
    requires Inv(s) && x in Ids(s.tabs)
    ensures exists j: nat :: j < |s.tabs| && Cycled(s, true, j).active == Some(x)
    ensures Cycled(s, true, |s.tabs|).active == s.active
    ensures forall i: nat, j: nat :: i < j < |s.tabs| ==> Cycled(s, true, i).active != Cycled(s, true, j).active
  {
    hide Cycled, Flat;
    var k := ActivePlace(s);
    var ids := Flat(Groups(s));
    var n := |ids|;
    SameMembers(s, Groups(s), x);
    var p: nat :| p < n && ids[p] == x;
    CycledTo(s, ids, k, p);
    CycledActive(s, s.tabs, ids, k, n);
    ModOf(k + n, n, 1, k);
    forall i: nat, j: nat | i < j < n ensures Cycled(s, true, i).active != Cycled(s, true, j).active {
      CycledApart(s, ids, k, i, j);
    }
  }

  lemma DifferentPlaces(k: nat, i: nat, j: nat, n: nat)
    requires k < n && i < j < n
    ensures (k + i) % n != (k + j) % n
  {
    ModOf(k + i, n, if k + i < n then 0 else 1, if k + i < n then k + i else k + i - n);
    ModOf(k + j, n, if k + j < n then 0 else 1, if k + j < n then k + j else k + j - n);
  }

  lemma TurnedBack(k: nat, n: nat)
    requires k < n
    ensures Turned(Turned(k, true, n), false, n) == k
  {
    if k + 1 < n {
      ModOf(k + 1 + n, n, 1, k + 1);
      ModOf(k + 1 - 1 + n, n, 1, k);
    } else {
      ModOf(k + 1 + n, n, 2, 0);
      ModOf(0 - 1 + n, n, 0, k);
    }
  }

  /** Cycling backward undoes cycling forward on the active tab. */
  lemma BackUndoesForward(s: State)
    requires Inv(s) && s.tabs != []
    ensures CycleTab(CycleTab(s, true), false).active == s.active
  {
    hide CycleTab, Flat, Turned;
    var k := ActivePlace(s);
    var ids := Flat(Groups(s));
    CycleMoves(s, true, s.tabs, ids, k);
    CycleMoves(CycleTab(s, true), false, s.tabs, ids, Turned(k, true, |ids|));
    TurnedBack(k, |ids|);
  }
}
