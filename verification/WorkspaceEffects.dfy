module WorkspaceEffects {
  // What each action of the workspace does, read off the state before it.

  import opened Wrappers
  import opened Workspace

  /** The groups in the state, or the one group a workspace without groups stands for. */
  function Shown(s: State): seq<Group> {
    if s.groups.Some? then s.groups.value
    else [Group("main", seq(|s.tabs|, i requires 0 <= i < |s.tabs| => s.tabs[i].id), s.active)]
  }

  predicate OpenTab(s: State, t: string) {
    exists i :: 0 <= i < |s.tabs| && s.tabs[i].id == t
  }

  predicate InGroup(g: Group, t: Option<string>) {
    t.Some? && t.value in g.tabIds
  }

  // ---- activating ----

  /** The state with `t` active: it becomes the active tab of the group that has it, and no tab changes. */
  ghost predicate Activated(s: State, s': State, t: string) {
    && s'.tabs == s.tabs && s'.active == Some(t)
    && |Shown(s')| == |Shown(s)|
    && forall k :: 0 <= k < |Shown(s)| ==>
         Shown(s')[k] == Group(Shown(s)[k].id, Shown(s)[k].tabIds, if t in Shown(s)[k].tabIds then Some(t) else Shown(s)[k].active)
  }

  lemma IdsShown(s: State, t: string)
    ensures Groups(s) == Shown(s)
    ensures t in Ids(s.tabs) <==> OpenTab(s, t)
  {
    assert Ids(s.tabs) == seq(|s.tabs|, i requires 0 <= i < |s.tabs| => s.tabs[i].id);
    if t in Ids(s.tabs) {
      var i :| 0 <= i < |Ids(s.tabs)| && Ids(s.tabs)[i] == t;
      assert s.tabs[i].id == t;
    }
    if OpenTab(s, t) {
      var i :| 0 <= i < |s.tabs| && s.tabs[i].id == t;
      assert Ids(s.tabs)[i] == t;
    }
  }

  lemma ActiveIsItsGroups(s: State, k: nat)
    requires Inv(s) && s.active.Some? && k < |Shown(s)| && s.active.value in Shown(s)[k].tabIds
    ensures Shown(s)[k].active == s.active
  {
    if s.tabs == [] {
      SameMembers(s, Shown(s), s.active.value);
      FlatMember(Shown(s), s.active.value);
    } else {
      InvSaysSo(s);
    }
  }

  lemma ActivateDoes(s: State, t: string)
    requires Inv(s)
    ensures OpenTab(s, t) ==> Activated(s, Activate(s, t), t)
    ensures !OpenTab(s, t) ==> Activate(s, t) == s
  {
    IdsShown(s, t);
    if s.active == Some(t) {
      forall k | 0 <= k < |Shown(s)| && t in Shown(s)[k].tabIds ensures Shown(s)[k].active == Some(t) {
        ActiveIsItsGroups(s, k);
      }
    }
  }

  /** Activating a tab makes it active wherever it is held and changes nothing else. */
  lemma TabActivatedDoes(s: State, t: string)
    requires Inv(s)
    ensures var s' := Reduce(s, TabActivated(t));
      if OpenTab(s, t) then Activated(s, s', t) else s' == s
  {
    ActivateDoes(s, t);
  }

  lemma HeldIsOpen(s: State, k: nat, i: nat)
    requires Inv(s) && k < |Shown(s)| && i < |Shown(s)[k].tabIds|
    ensures OpenTab(s, Shown(s)[k].tabIds[i])
  {
    var t := Shown(s)[k].tabIds[i];
    IdsShown(s, t);
    if s.groups.Some? {
      SameMembers(s, Shown(s), t);
      FlatMember(Shown(s), t);
    }
  }

  /** The group that has a tab is the only one. */
  lemma OneGroupHas(s: State, t: string, at: nat)
    requires Inv(s) && at < |Shown(s)| && t in Shown(s)[at].tabIds
    ensures GroupHolding(Shown(s), Some(t)) == at
  {
    var groups := Shown(s);
    HoldingFound(groups, Some(t));
    assert Holds(groups[at], Some(t));
    var k := GroupHolding(groups, Some(t));
    if k != at && s.groups.Some? {
      assert Distinct(Flat(groups));
      if k < at { HeldOnce(groups, k, at, t); } else { HeldOnce(groups, at, k, t); }
    }
  }

  /** The tab at an index of the active tab's group is activated; an index outside it does nothing. */
  lemma TabActivatedByIndexDoes(s: State, index: int, at: nat)
    requires Inv(s) && at < |Shown(s)| && InGroup(Shown(s)[at], s.active)
    ensures var s' := Reduce(s, TabActivatedByIndex(index));
      if 0 <= index < |Shown(s)[at].tabIds| then Activated(s, s', Shown(s)[at].tabIds[index]) else s' == s
  {
    IdsShown(s, "");
    OneGroupHas(s, s.active.value, at);
    if 0 <= index < |Shown(s)[at].tabIds| {
      HeldIsOpen(s, at, index);
      ActivateDoes(s, Shown(s)[at].tabIds[index]);
    }
  }

  /** The place after i, or before it, of n in a circle. */
  function Around(i: nat, forward: bool, n: nat): (next: nat)
    requires i < n
    ensures next < n
  {
    if forward then (if i == n - 1 then 0 else i + 1) else if i == 0 then n - 1 else i - 1
  }

  /** The panel after, or before, the active one takes over with its own active tab; the last is followed by the first. */
  lemma PanelCycledDoes(s: State, forward: bool, at: nat)
    requires Inv(s) && at < |Shown(s)| && InGroup(Shown(s)[at], s.active)
    ensures var next := Around(at, forward, |Shown(s)|);
      Shown(s)[next].active.Some? && Activated(s, Reduce(s, PanelCycled(forward)), Shown(s)[next].active.value)
  {
    hide Inv, Turned, GroupHolding, Activated, Activate, OpenTab, Groups, Shown, Reduce;
    var n := |Shown(s)|;
    var next := Around(at, forward, n);
    IdsShown(s, "");
    OneGroupHas(s, s.active.value, at);
    TurnIs(at, forward, n);
    GroupsAreOk(s, at, next);
    var t := Shown(s)[next].active.value;
    var i :| 0 <= i < |Shown(s)[next].tabIds| && Shown(s)[next].tabIds[i] == t;
    HeldIsOpen(s, next, i);
    ActivateDoes(s, t);
    assert CyclePanel(s, forward) == Activate(s, t);
    ReducesTo(s, forward);
  }

  lemma ReducesTo(s: State, forward: bool)
    requires s.groups != Some([])
    ensures Reduce(s, PanelCycled(forward)) == CyclePanel(s, forward)
    ensures Reduce(s, TabCycled(forward)) == CycleTab(s, forward)
  {
    hide CyclePanel, CycleTab;
  }

  lemma GroupsAreOk(s: State, at: nat, next: nat)
    requires Inv(s) && s.active.Some? && at < |Shown(s)| && next < |Shown(s)|
    ensures s.groups.Some? && s.groups != Some([]) && GroupOk(Shown(s)[next])
  {
    hide Flat, Distinct, Ids;
  }

  lemma TurnIs(i: nat, forward: bool, n: nat)
    requires i < n
    ensures Turned(i, forward, n) == Around(i, forward, n)
  {
    if forward && i == n - 1 {
      assert (i + 1 + n) % n == 0 by { Wraps(n, 0); assert i + 1 + n == 2 * n + 0; }
    } else if forward {
      Wraps1(n, i + 1);
    } else if i == 0 {
      assert (n - 1) % n == n - 1;
    } else {
      Wraps1(n, i - 1);
    }
  }

  lemma Wraps(n: nat, r: nat)
    requires r < n
    ensures (2 * n + r) % n == r
  {
  }

  lemma Wraps1(n: nat, r: nat)
    requires r < n
    ensures (n + r) % n == r
  {
  }

  /** Where tab `i` of group `at` stands when the groups' tabs are put one after the other. */
  function Place(groups: seq<Group>, at: nat, i: nat): nat
    requires at < |groups| && i < |groups[at].tabIds|
  {
    if at == 0 then i else |groups[0].tabIds| + Place(groups[1..], at - 1, i)
  }

  lemma {:induction false} FlatPlace(groups: seq<Group>, at: nat, i: nat)
    requires at < |groups| && i < |groups[at].tabIds|
    ensures Place(groups, at, i) < |Flat(groups)| && Flat(groups)[Place(groups, at, i)] == groups[at].tabIds[i]
    decreases at
  {
    if at > 0 { FlatPlace(groups[1..], at - 1, i); }
  }

  lemma {:induction false} PlaceNext(groups: seq<Group>, at: nat, i: nat)
    requires at < |groups| && i < |groups[at].tabIds| && forall k :: 0 <= k < |groups| ==> groups[k].tabIds != []
    ensures i + 1 < |groups[at].tabIds| ==> Place(groups, at, i + 1) == Place(groups, at, i) + 1
    ensures i + 1 == |groups[at].tabIds| && at + 1 < |groups| ==> Place(groups, at + 1, 0) == Place(groups, at, i) + 1
    ensures i + 1 == |groups[at].tabIds| && at + 1 == |groups| ==> Place(groups, at, i) + 1 == |Flat(groups)|
    decreases at
  {
    if at > 0 {
      PlaceNext(groups[1..], at - 1, i);
    } else if |groups| == 1 {
      assert groups[1..] == [] && Flat(groups[1..]) == [];
    }
  }

  lemma {:induction false} IndexOfOnce(ids: seq<string>, x: string, i: nat)
    requires i < |ids| && ids[i] == x && forall j :: 0 <= j < |ids| && j != i ==> ids[j] != x
    ensures IndexOf(ids, x) == i
  {
    if i > 0 {
      assert ids[0] != x;
      IndexOfOnce(ids[1..], x, i - 1);
    }
  }

  lemma Twice(ids: seq<string>, a: nat, b: nat)
    requires a < b < |ids| && ids[a] == ids[b]
    ensures multiset(ids)[ids[a]] >= 2
  {
    assert ids == ids[..a] + [ids[a]] + ids[a + 1..b] + [ids[b]] + ids[b + 1..];
  }

  lemma OnceIn(ids: seq<string>, i: nat)
    requires Distinct(ids) && i < |ids|
    ensures forall j :: 0 <= j < |ids| && j != i ==> ids[j] != ids[i]
    ensures IndexOf(ids, ids[i]) == i
  {
    hide IndexOf;
    forall j | 0 <= j < |ids| && j != i ensures ids[j] != ids[i] {
      if ids[j] == ids[i] {
        if i < j { Twice(ids, i, j); } else { Twice(ids, j, i); }
      }
    }
    IndexOfOnce(ids, ids[i], i);
  }

  /** The tab after one, at group `at` and place `i`: the next of its group, else the first of the next group, else the very first. */
  function TabAfter(groups: seq<Group>, at: nat, i: nat): string
    requires at < |groups| && i < |groups[at].tabIds| && forall k :: 0 <= k < |groups| ==> groups[k].tabIds != []
  {
    if i + 1 < |groups[at].tabIds| then groups[at].tabIds[i + 1]
    else if at + 1 < |groups| then groups[at + 1].tabIds[0]
    else groups[0].tabIds[0]
  }

  function TabBefore(groups: seq<Group>, at: nat, i: nat): string
    requires at < |groups| && i < |groups[at].tabIds| && forall k :: 0 <= k < |groups| ==> groups[k].tabIds != []
  {
    if i > 0 then groups[at].tabIds[i - 1]
    else
      var g := groups[if at > 0 then at - 1 else |groups| - 1];
      g.tabIds[|g.tabIds| - 1]
  }

  lemma FlatTurn(groups: seq<Group>, at: nat, i: nat, forward: bool)
    requires at < |groups| && i < |groups[at].tabIds| && forall k :: 0 <= k < |groups| ==> groups[k].tabIds != []
    ensures var n, p := |Flat(groups)|, Place(groups, at, i);
      p < n && Flat(groups)[Turned(p, forward, n)] == if forward then TabAfter(groups, at, i) else TabBefore(groups, at, i)
  {
    hide Turned, Flat, Place;
    var n, p := |Flat(groups)|, Place(groups, at, i);
    FlatPlace(groups, at, i);
    TurnIs(p, forward, n);
    FirstPlace(groups);
    FlatPlace(groups, 0, 0);
    PlaceNext(groups, at, i);
    if forward {
      if i + 1 < |groups[at].tabIds| {
        FlatPlace(groups, at, i + 1);
      } else if at + 1 < |groups| {
        FlatPlace(groups, at + 1, 0);
      }
    } else {
      var h := if at > 0 then at - 1 else |groups| - 1;
      if i > 0 {
        PlaceNext(groups, at, i - 1);
        FlatPlace(groups, at, i - 1);
      } else {
        PlaceNext(groups, h, |groups[h].tabIds| - 1);
        FlatPlace(groups, h, |groups[h].tabIds| - 1);
      }
    }
  }

  lemma FirstPlace(groups: seq<Group>)
    requires groups != [] && groups[0].tabIds != []
    ensures Place(groups, 0, 0) == 0
  {
  }

  /** Cycling activates the neighbour of the active tab across the groups, wrapping at the ends. */
  lemma TabCycledDoes(s: State, forward: bool, at: nat, i: nat)
    requires Inv(s) && at < |Shown(s)| && i < |Shown(s)[at].tabIds| && s.active == Some(Shown(s)[at].tabIds[i])
    ensures forall k :: 0 <= k < |Shown(s)| ==> Shown(s)[k].tabIds != []
    ensures Activated(s, Reduce(s, TabCycled(forward)),
      if forward then TabAfter(Shown(s), at, i) else TabBefore(Shown(s), at, i))
  {
    hide Inv, Turned, Activated, Activate, OpenTab, Groups, Shown, Flat, TabAfter, TabBefore, IndexOf, Place, Reduce;
    var groups := Shown(s);
    IdsShown(s, "");
    forall k | 0 <= k < |groups| ensures groups[k].tabIds != [] { GroupsAreOk(s, at, k); }
    FlatTurn(groups, at, i, forward);
    FlatOnce(s, at, i);
    NextIsOpen(s, at, i, forward);
    GroupsAreOk(s, at, at);
    ReducesTo(s, forward);
    ActivateDoes(s, if forward then TabAfter(groups, at, i) else TabBefore(groups, at, i));
  }

  lemma FlatOnce(s: State, at: nat, i: nat)
    requires Inv(s) && s.active.Some? && at < |Shown(s)| && i < |Shown(s)[at].tabIds|
    ensures Place(Shown(s), at, i) < |Flat(Shown(s))|
    ensures IndexOf(Flat(Shown(s)), Shown(s)[at].tabIds[i]) == Place(Shown(s), at, i)
  {
    GroupsAreOk(s, at, at);
    assert Distinct(Flat(Shown(s)));
    hide Inv, Distinct, IndexOf;
    FlatPlace(Shown(s), at, i);
    OnceIn(Flat(Shown(s)), Place(Shown(s), at, i));
  }

  lemma NextIsOpen(s: State, at: nat, i: nat, forward: bool)
    requires Inv(s) && at < |Shown(s)| && i < |Shown(s)[at].tabIds| && forall k :: 0 <= k < |Shown(s)| ==> Shown(s)[k].tabIds != []
    ensures OpenTab(s, if forward then TabAfter(Shown(s), at, i) else TabBefore(Shown(s), at, i))
  {
    hide Inv, OpenTab;
    var groups := Shown(s);
    var h := if at > 0 then at - 1 else |groups| - 1;
    HeldIsOpen(s, 0, 0);
    if i + 1 < |groups[at].tabIds| { HeldIsOpen(s, at, i + 1); }
    if at + 1 < |groups| { HeldIsOpen(s, at + 1, 0); }
    if i > 0 { HeldIsOpen(s, at, i - 1); }
    HeldIsOpen(s, h, |groups[h].tabIds| - 1);
  }

  // ---- adding ----

  /** The group a new tab goes to, or beside: the first one named, else, unnamed, the active tab's, else the first. */
  predicate Target(s: State, groupId: Option<string>, at: nat) {
    && at < |Shown(s)|
    && if groupId.Some? && groupId.value != "" then
         if exists k :: 0 <= k < |Shown(s)| && Shown(s)[k].id == groupId.value
         then Shown(s)[at].id == groupId.value && forall k :: 0 <= k < at ==> Shown(s)[k].id != groupId.value
         else at == 0
       else if s.active.Some? then InGroup(Shown(s)[at], s.active) else at == 0
  }

  lemma {:induction false} NamedFound(groups: seq<Group>, id: string)
    ensures var at := GroupNamed(groups, id);
      if at < 0 then forall k :: 0 <= k < |groups| ==> groups[k].id != id
      else groups[at].id == id && forall k :: 0 <= k < at ==> groups[k].id != id
    decreases groups
  {
    if groups != [] && groups[0].id != id {
      NamedFound(groups[1..], id);
      assert forall k :: 1 <= k < |groups| ==> groups[k] == groups[1..][k - 1];
    }
  }

  lemma TargetIs(s: State, groupId: Option<string>, at: nat)
    requires Inv(s) && Target(s, groupId, at)
    ensures at == Max0(if groupId.Some? && groupId.value != "" then GroupNamed(Groups(s), groupId.value) else GroupHolding(Groups(s), s.active))
  {
    IdsShown(s, "");
    if groupId.Some? && groupId.value != "" {
      NamedFound(Shown(s), groupId.value);
    } else if s.active.Some? {
      OneGroupHas(s, s.active.value, at);
    } else {
      HoldingFound(Shown(s), None);
    }
  }

  /** A new tab comes last, empty and active; it joins the target group, or a group of its own right after it. */
  lemma TabAddedDoes(s: State, t: string, split: bool, groupId: Option<string>, at: nat)
    requires Inv(s) && Valid(s, TabAdded(t, split, groupId)) && Target(s, groupId, at)
    ensures s.groups != Some([])
    ensures var s', g := Reduce(s, TabAdded(t, split, groupId)), Shown(s)[at];
      && s'.tabs == s.tabs + [Tab(t, [], None)]
      && s'.active == Some(t)
      && s'.groups == Some(
           if split && s.tabs != [] then Shown(s)[..at + 1] + [Group(t, [t], Some(t))] + Shown(s)[at + 1..]
           else Shown(s)[..at] + [Group(g.id, g.tabIds + [t], Some(t))] + Shown(s)[at + 1..])
  {
    IdsShown(s, t);
    TargetIs(s, groupId, at);
    hide Inv, GroupNamed, GroupHolding, Ids, Flat, Distinct, Target, OpenTab, Shown, Groups, AddTab, Max0;
    AddedIs(s, t, split, groupId, at);
  }

  lemma AddedIs(s: State, t: string, split: bool, groupId: Option<string>, at: nat)
    requires s.groups != Some([]) && at < |Groups(s)|
    requires at == Max0(if groupId.Some? && groupId.value != "" then GroupNamed(Groups(s), groupId.value) else GroupHolding(Groups(s), s.active))
    ensures var s', g := AddTab(s, t, split, groupId), Groups(s)[at];
      && s'.tabs == s.tabs + [Tab(t, [], None)]
      && s'.active == Some(t)
      && s'.groups == Some(
           if split && s.tabs != [] then Groups(s)[..at + 1] + [Group(t, [t], Some(t))] + Groups(s)[at + 1..]
           else Groups(s)[..at] + [Group(g.id, g.tabIds + [t], Some(t))] + Groups(s)[at + 1..])
  {
    hide Groups, GroupNamed, GroupHolding, Max0;
    ReplacedIs(Groups(s), at, Group(Groups(s)[at].id, Groups(s)[at].tabIds + [t], Some(t)));
  }

  lemma ReplacedIs(groups: seq<Group>, at: nat, g: Group)
    requires at < |groups|
    ensures groups[at := g] == groups[..at] + [g] + groups[at + 1..]
  {
  }

  // ---- closing ----

  lemma {:induction false} WithoutOne(ids: seq<string>, i: nat)
    requires i < |ids| && forall j :: 0 <= j < |ids| && j != i ==> ids[j] != ids[i]
    ensures Without(ids, ids[i]) == ids[..i] + ids[i + 1..]
  {
    if i == 0 {
      WithoutNone(ids[1..], ids[0]);
    } else {
      assert ids[0] != ids[i];
      WithoutOne(ids[1..], i - 1);
    }
  }

  lemma {:induction false} WithoutNone(ids: seq<string>, x: string)
    requires x !in ids
    ensures Without(ids, x) == ids
  {
    if ids != [] { WithoutNone(ids[1..], x); }
  }

  lemma {:induction false} WithoutTabOne(tabs: seq<Tab>, i: nat)
    requires i < |tabs| && forall j :: 0 <= j < |tabs| && j != i ==> tabs[j].id != tabs[i].id
    ensures WithoutTab(tabs, tabs[i].id) == tabs[..i] + tabs[i + 1..]
  {
    if i == 0 {
      WithoutTabNone(tabs[1..], tabs[0].id);
    } else {
      assert tabs[0].id != tabs[i].id;
      WithoutTabOne(tabs[1..], i - 1);
    }
  }

  lemma {:induction false} WithoutTabNone(tabs: seq<Tab>, x: string)
    requires forall j :: 0 <= j < |tabs| ==> tabs[j].id != x
    ensures WithoutTab(tabs, x) == tabs
  {
    if tabs != [] { WithoutTabNone(tabs[1..], x); }
  }

  /** The one at the same place, or the last one when that was the end. */
  function Neighbour(left: seq<string>, i: nat): string
    requires left != [] && i <= |left|
  {
    if i < |left| then left[i] else left[|left| - 1]
  }

  /** What is left of the group a tab is closed in. */
  function GroupLeft(g: Group, i: nat): Group
    requires i < |g.tabIds| && |g.tabIds| > 1
  {
    var left := g.tabIds[..i] + g.tabIds[i + 1..];
    Group(g.id, left, if g.active == Some(g.tabIds[i]) then Some(Neighbour(left, i)) else g.active)
  }

  lemma TabAndGroupPlaces(s: State, tab: nat, at: nat, i: nat)
    requires Inv(s) && tab < |s.tabs| && at < |Shown(s)| && i < |Shown(s)[at].tabIds| && Shown(s)[at].tabIds[i] == s.tabs[tab].id
    ensures WithoutTab(s.tabs, s.tabs[tab].id) == s.tabs[..tab] + s.tabs[tab + 1..]
    ensures var g := Shown(s)[at];
      && IndexOf(g.tabIds, s.tabs[tab].id) == i
      && Without(g.tabIds, s.tabs[tab].id) == g.tabIds[..i] + g.tabIds[i + 1..]
  {
    var groups, g := Shown(s), Shown(s)[at];
    OnceIn(Ids(s.tabs), tab);
    forall j | 0 <= j < |s.tabs| && j != tab ensures s.tabs[j].id != s.tabs[tab].id {
      assert Ids(s.tabs)[j] != Ids(s.tabs)[tab];
    }
    WithoutTabOne(s.tabs, tab);
    assert Distinct(Flat(groups));
    FlatAt(groups, at);
    assert forall x :: multiset(g.tabIds)[x] <= multiset(Flat(groups))[x];
    OnceIn(g.tabIds, i);
    WithoutOne(g.tabIds, i);
  }

  /**
   * Closing takes exactly the tab named out of the tabs and of its group, in place; every other tab
   * and its results stay. An emptied group goes. If the tab was active, the one that follows it in
   * its group is active now, or the last one there, or, its group gone, the active one of the group
   * in its place.
   */
  lemma TabClosedDoes(s: State, tab: nat, at: nat, i: nat)
    requires Inv(s) && tab < |s.tabs| && at < |Shown(s)| && i < |Shown(s)[at].tabIds| && Shown(s)[at].tabIds[i] == s.tabs[tab].id
    ensures s.groups.Some?
    ensures var s', groups, t := Reduce(s, TabClosed(s.tabs[tab].id)), Shown(s), s.tabs[tab].id;
      && s'.tabs == s.tabs[..tab] + s.tabs[tab + 1..]
      && (s.active != Some(t) ==> s'.active == s.active)
      && (|groups[at].tabIds| > 1 ==>
            && s'.groups == Some(groups[..at] + [GroupLeft(groups[at], i)] + groups[at + 1..])
            && (s.active == Some(t) ==> s'.active == Some(Neighbour(groups[at].tabIds[..i] + groups[at].tabIds[i + 1..], i))))
      && (|groups[at].tabIds| == 1 && |groups| > 1 ==>
            && s'.groups == Some(groups[..at] + groups[at + 1..])
            && (s.active == Some(t) ==> s'.active == (if at + 1 < |groups| then groups[at + 1] else groups[at - 1]).active))
      && (|groups[at].tabIds| == 1 && |groups| == 1 ==> s'.groups == None && (s.active == Some(t) ==> s'.active == None))
  {
    var groups, t := Shown(s), s.tabs[tab].id;
    IdsShown(s, t);
    assert s.groups.Some?;
    OneGroupHas(s, t, at);
    TabAndGroupPlaces(s, tab, at, i);
    if s.active == Some(t) { ActiveIsItsGroups(s, at); }
    hide Inv, Without, WithoutTab, IndexOf, GroupHolding;
    ClosedAt(s, t, at, i);
  }

  lemma ClosedAt(s: State, t: string, at: nat, i: nat)
    requires s.groups.Some? && at < |s.groups.value| && GroupHolding(s.groups.value, Some(t)) == at
    requires var g := s.groups.value[at];
      && i < |g.tabIds| && g.tabIds[i] == t && IndexOf(g.tabIds, t) == i
      && Without(g.tabIds, t) == g.tabIds[..i] + g.tabIds[i + 1..]
      && (s.active == Some(t) ==> g.active == Some(t))
    ensures var s', groups := CloseTab(s, t), s.groups.value;
      && s'.tabs == WithoutTab(s.tabs, t)
      && (s.active != Some(t) ==> s'.active == s.active)
      && (|groups[at].tabIds| > 1 ==>
            && s'.groups == Some(groups[..at] + [GroupLeft(groups[at], i)] + groups[at + 1..])
            && (s.active == Some(t) ==> s'.active == Some(Neighbour(groups[at].tabIds[..i] + groups[at].tabIds[i + 1..], i))))
      && (|groups[at].tabIds| == 1 && |groups| > 1 ==>
            && s'.groups == Some(groups[..at] + groups[at + 1..])
            && (s.active == Some(t) ==> s'.active == (if at + 1 < |groups| then groups[at + 1] else groups[at - 1]).active))
      && (|groups[at].tabIds| == 1 && |groups| == 1 ==> s'.groups == None && (s.active == Some(t) ==> s'.active == None))
  {
    hide Without, WithoutTab, IndexOf, GroupHolding;
    var groups, g := s.groups.value, s.groups.value[at];
    if |g.tabIds| == 1 {
      assert g.tabIds[..i] + g.tabIds[i + 1..] == [];
      assert groups[..at] + [] + groups[at + 1..] == groups[..at] + groups[at + 1..];
    }
  }

  /** Closing a tab that is not open does nothing. */
  lemma ClosingNoTab(s: State, t: string)
    requires Inv(s) && !OpenTab(s, t)
    ensures Reduce(s, TabClosed(t)) == s
  {
    IdsShown(s, t);
    HoldingFound(Shown(s), Some(t));
    var at := GroupHolding(Shown(s), Some(t));
    if at >= 0 {
      var i :| 0 <= i < |Shown(s)[at].tabIds| && Shown(s)[at].tabIds[i] == t;
      HeldIsOpen(s, at, i);
    }
  }

  // ---- results ----

  /** Only the named tab's results change, to these. */
  ghost predicate OnlyResults(s: State, s': State, tab: nat, results: seq<string>, active: Option<string>)
    requires tab < |s.tabs|
  {
    s' == s.(tabs := s.tabs[tab := Tab(s.tabs[tab].id, results, active)])
  }

  lemma UpdatedAlone(s: State, tab: nat, f: Tab -> Tab)
    requires Inv(s) && tab < |s.tabs|
    ensures UpdateTab(s, s.tabs[tab].id, f) == s.(tabs := s.tabs[tab := f(s.tabs[tab])])
  {
    OnceIn(Ids(s.tabs), tab);
    forall j | 0 <= j < |s.tabs| && j != tab ensures s.tabs[j].id != s.tabs[tab].id {
      assert Ids(s.tabs)[j] != Ids(s.tabs)[tab];
    }
  }

  /** A new result comes last in its tab and is the active one there. */
  lemma ResultAddedDoes(s: State, tab: nat, r: string)
    requires Inv(s) && tab < |s.tabs|
    ensures OnlyResults(s, Reduce(s, ResultAdded(s.tabs[tab].id, r)), tab, s.tabs[tab].results + [r], Some(r))
  {
    UpdatedAlone(s, tab, (t: Tab) => t.(results := t.results + [r], activeResult := Some(r)));
  }

  /** Activating a result changes which one of its tab is active. */
  lemma ResultActivatedDoes(s: State, tab: nat, r: string)
    requires Inv(s) && tab < |s.tabs|
    ensures OnlyResults(s, Reduce(s, ResultActivated(s.tabs[tab].id, r)), tab, s.tabs[tab].results, Some(r))
  {
    UpdatedAlone(s, tab, (t: Tab) => t.(activeResult := Some(r)));
  }

  /** Closing takes one result out in place; if it was active, the following one is, or the last. */
  lemma ResultClosedDoes(s: State, tab: nat, i: nat)
    requires Inv(s) && tab < |s.tabs| && i < |s.tabs[tab].results|
    ensures var t := s.tabs[tab];
      var left := t.results[..i] + t.results[i + 1..];
      OnlyResults(s, Reduce(s, ResultClosed(t.id, t.results[i])), tab, left,
        if t.activeResult != Some(t.results[i]) then t.activeResult
        else if left == [] then None else Some(Neighbour(left, i)))
  {
    ClosedResultIs(s.tabs[tab], i);
    hide ClosedResult, Inv;
    UpdatedAlone(s, tab, t => ClosedResult(t, s.tabs[tab].results[i]));
  }

  lemma ClosedResultIs(t: Tab, i: nat)
    requires Distinct(t.results) && i < |t.results|
    ensures var left := t.results[..i] + t.results[i + 1..];
      ClosedResult(t, t.results[i]) == Tab(t.id, left,
        if t.activeResult != Some(t.results[i]) then t.activeResult
        else if left == [] then None else Some(Neighbour(left, i)))
  {
    OnceIn(t.results, i);
    WithoutOne(t.results, i);
    hide Without, IndexOf, Distinct;
  }

  /** The active tab's next result, or the one before, becomes its active one, wrapping at the ends. */
  lemma ResultCycledDoes(s: State, forward: bool, tab: nat, i: nat)
    requires Inv(s) && tab < |s.tabs| && s.active == Some(s.tabs[tab].id)
    requires i < |s.tabs[tab].results| && s.tabs[tab].activeResult == Some(s.tabs[tab].results[i])
    ensures var results := s.tabs[tab].results;
      OnlyResults(s, Reduce(s, ResultCycled(forward)), tab, results, Some(results[Around(i, forward, |results|)]))
  {
    var t := s.tabs[tab];
    OnceIn(t.results, i);
    TurnIs(i, forward, |t.results|);
    UpdatedAlone(s, tab, t => CycledResult(t, forward));
  }

  /** With no tab open only adding one does anything. */
  lemma NothingOpen(s: State, a: Action)
    requires Inv(s) && s.tabs == [] && !a.TabAdded?
    ensures s.groups != Some([]) && Reduce(s, a) == s
  {
    if s.groups.Some? {
      var g := s.groups.value[0];
      assert GroupOk(g);
      var i :| 0 <= i < |g.tabIds| && g.tabIds[i] == g.active.value;
      HeldIsOpen(s, 0, i);
      assert false;
    }
    assert Groups(s) == [Group("main", [], None)];
    assert Flat(Groups(s)) == [];
  }
}
