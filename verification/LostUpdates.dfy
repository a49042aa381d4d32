module LostUpdates {
  // What a committed change set did to the table, row by row.

  import opened Wrappers
  import opened Names
  import opened EditPlanner
  import opened EditCommit

  /**
   * The transaction's own version is new: no row had it, no client was ever shown it, and
   * inserted rows take physical places nobody used.
   */
  ghost predicate FreshTransaction(server: Server, changes: seq<Change>, before: Table) {
    && (forall id :: id in before ==> before[id].version != server.xid)
    && (forall i :: 0 <= i < |changes| && !changes[i].Insert? ==> changes[i].identity.xmin != Some(server.xid))
    && (forall i :: server.newId(i) !in before)
  }

  ghost predicate Committing(meta: TableMeta, server: Server, changes: seq<Change>, before: Table, tables: seq<Table>) {
    && Catalog(meta) && TableOk(meta, before)
    && (forall i :: 0 <= i < |changes| ==> Accepts(meta, changes[i]))
    && Trace(meta, server, PlansOf(changes), tables) && tables[0] == before
    && FreshTransaction(server, changes, before)
  }

  /** The row statement `k` hit, as a set. */
  function Hit(tables: seq<Table>, plans: seq<RowPlan>, k: nat): set<nat>
    requires k < |tables| && k < |plans|
  {
    if plans[k].operation == InsertRow then {} else Matches(tables[k], plans[k])
  }

  /** Statement `k` of the transaction, by itself. */
  lemma StatementRan(meta: TableMeta, server: Server, changes: seq<Change>, before: Table,
                     tables: seq<Table>, k: nat)
    requires Committing(meta, server, changes, before, tables) && k < |tables| - 1
    ensures k < |changes| && Accepts(meta, changes[k])
    ensures Exec(meta, server, k, PlanOf(changes[k]), tables[k]) == Affected(1, tables[k + 1])
  {
    assert PlansOf(changes)[k] == PlanOf(changes[k]);
  }

  /** Inside the transaction a row is either as it was before or carries the new version. */
  lemma {:induction false} OldOrNew(meta: TableMeta, server: Server, changes: seq<Change>, before: Table,
                                    tables: seq<Table>, k: nat)
    requires Committing(meta, server, changes, before, tables) && k < |tables|
    ensures TableOk(meta, tables[k])
    ensures forall id :: id in tables[k] ==>
      tables[k][id].version == server.xid || (id in before && tables[k][id] == before[id])
  {
    hide Trace, FreshTransaction, Exec, PlanOf, Accepts, Catalog, TableOk;
    if k > 0 {
      OldOrNew(meta, server, changes, before, tables, k - 1);
      StatementRan(meta, server, changes, before, tables, k - 1);
      ExecOldOrNew(meta, server, k - 1, changes[k - 1], tables[k - 1], tables[k]);
    }
  }

  /** The statement's effect on rows, its key checks left aside. */
  lemma ExecNewVersions(meta: TableMeta, server: Server, i: nat, p: RowPlan, t: Table, t': Table)
    requires Exec(meta, server, i, p, t) == Affected(1, t')
    ensures forall id :: id in t' ==> t'[id].version == server.xid || (id in t && t'[id] == t[id])
  {
    hide AllHold, TableOk, Assigned;
  }

  lemma ExecOldOrNew(meta: TableMeta, server: Server, i: nat, c: Change, t: Table, t': Table)
    requires Catalog(meta) && Accepts(meta, c) && TableOk(meta, t)
    requires Exec(meta, server, i, PlanOf(c), t) == Affected(1, t')
    ensures TableOk(meta, t')
    ensures forall id :: id in t' ==> t'[id].version == server.xid || (id in t && t'[id] == t[id])
  {
    hide PlanOf, Accepts, AllHold, TableOk, Assigned, Catalog, Exec;
    ExecBounds(meta, server, i, c, t);
    ExecNewVersions(meta, server, i, PlanOf(c), t, t');
  }

  /** Where the key conditions stand in a plan, and what they compare with. */
  lemma KeyPlace(c: Change, k: nat)
    requires !c.Insert? && k < |c.identity.key|
    ensures var p, s := PlanOf(c), Slot(KeyEquals(c.identity.key[k].column), |SetBounds(c)| + k + 1);
      k < |p.where| && p.where[k] == s && BindAt(p.params, s.number) == BindOf(c.identity.key[k].value)
  {
    hide LockBounds, BindOf, SetBounds;
  }

  lemma VersionPlace(c: Change)
    requires !c.Insert? && c.identity.xmin.Some?
    ensures var p, n := PlanOf(c), |c.identity.key|;
      && |p.where| == n + 1
      && p.where[n] == Slot(VersionEquals, |SetBounds(c)| + n + 1)
      && BindAt(p.params, |SetBounds(c)| + n + 1) == Text(Some(c.identity.xmin.value))
  {
  }

  function Shown(c: Change, names: seq<string>): seq<string>
    requires !c.Insert?
  {
    ShownNames(c.identity.key, names)
  }

  lemma ShownPlace(c: Change, i: nat)
    requires !c.Insert? && c.identity.xmin.None? && i < |Shown(c, Sorted(c.originals.Keys))|
    ensures var p, n, name := PlanOf(c), |c.identity.key| + i, Shown(c, Sorted(c.originals.Keys))[i];
      && n < |p.where|
      && p.where[n] == Slot(SameAsShown(name), |SetBounds(c)| + n + 1)
      && BindAt(p.params, |SetBounds(c)| + n + 1) == BindOf(ValueAt(c.originals, name))
  {
    hide ShownNames, BindOf, SetBounds;
    var shown := ShownBounds(c.originals, Shown(c, Sorted(c.originals.Keys)));
    assert LockBounds(c.identity, c.originals) == shown;
    assert WhereBounds(c.identity, c.originals)[|c.identity.key| + i] == shown[i];
  }

  lemma WhereLength(c: Change)
    requires !c.Insert?
    ensures |PlanOf(c).where| == |c.identity.key|
      + (if c.identity.xmin.Some? then 1 else |Shown(c, Sorted(c.originals.Keys))|)
  {
  }

  /** A version lock holds only on the row with that version. */
  lemma VersionPinned(c: Change, row: TableRow)
    requires !c.Insert? && c.identity.xmin.Some?
    requires AllHold(PlanOf(c).where, PlanOf(c).params, row)
    ensures row.version == c.identity.xmin.value
  {
    VersionPlace(c);
    assert Holds(PlanOf(c).where[|c.identity.key|], PlanOf(c).params, row);
  }

  lemma {:induction false} TablesOk(meta: TableMeta, server: Server, changes: seq<Change>, before: Table,
                                    tables: seq<Table>, k: nat)
    requires Committing(meta, server, changes, before, tables) && k < |tables|
    ensures TableOk(meta, tables[k])
  {
    hide Trace, FreshTransaction, Exec, PlanOf, Accepts, Catalog, TableOk;
    if k > 0 {
      TablesOk(meta, server, changes, before, tables, k - 1);
      StatementRan(meta, server, changes, before, tables, k - 1);
      ExecBounds(meta, server, k - 1, changes[k - 1], tables[k - 1]);
    }
  }

  lemma ExecCount(meta: TableMeta, server: Server, i: nat, p: RowPlan, t: Table)
    requires p.operation != InsertRow && Exec(meta, server, i, p, t).Affected?
    ensures Exec(meta, server, i, p, t).count == |Matches(t, p)|
  {
  }

  /** An update or delete that ran in the transaction matched one row and no other. */
  lemma OneHit(meta: TableMeta, server: Server, changes: seq<Change>, before: Table, tables: seq<Table>, k: nat)
    returns (id: nat)
    requires Committing(meta, server, changes, before, tables) && k < |tables| - 1
    requires k < |changes| && !changes[k].Insert?
    ensures Matches(tables[k], PlanOf(changes[k])) == {id}
    ensures id in tables[k] && AllHold(PlanOf(changes[k]).where, PlanOf(changes[k]).params, tables[k][id])
  {
    TablesOk(meta, server, changes, before, tables, k);
    StatementRan(meta, server, changes, before, tables, k);
    ExecCount(meta, server, k, PlanOf(changes[k]), tables[k]);
    AtMostOneMatch(meta, changes[k], tables[k]);
    var hit := Matches(tables[k], PlanOf(changes[k]));
    assert |hit| == 1;
    assert hit != {};
    id :| id in hit;
    assert hit == {id};
  }

  /**
   * No update is lost: every version-locked statement of a transaction that got this far hit
   * exactly one row, and that row still was, untouched, the version the user had seen.
   */
  lemma VersionedHitsAreCurrent(meta: TableMeta, server: Server, changes: seq<Change>, before: Table,
                                tables: seq<Table>, k: nat)
    requires Committing(meta, server, changes, before, tables) && k < |tables| - 1
    requires !changes[k].Insert? && changes[k].identity.xmin.Some?
    ensures exists id ::
      && id in before && before[id].version == changes[k].identity.xmin.value
      && Matches(tables[k], PlanOf(changes[k])) == {id}
      && tables[k][id] == before[id]
  {
    var id := OneHit(meta, server, changes, before, tables, k);
    OldOrNew(meta, server, changes, before, tables, k);
    VersionPinned(changes[k], tables[k][id]);
    assert tables[k][id].version != server.xid;
  }

  /** A displayed-values lock: the row hit showed, at that moment, every value the user saw. */
  lemma ShownHitsAreCurrent(meta: TableMeta, server: Server, changes: seq<Change>, before: Table,
                            tables: seq<Table>, k: nat)
    requires Committing(meta, server, changes, before, tables) && k < |tables| - 1
    requires !changes[k].Insert? && changes[k].identity.xmin.None?
    ensures exists id ::
      && Matches(tables[k], PlanOf(changes[k])) == {id}
      && forall n :: n in changes[k].originals && !IsKeyName(changes[k].identity.key, n) ==>
           n in tables[k][id].cells && tables[k][id].cells[n] == BindOf(changes[k].originals[n])
  {
    var c, t := changes[k], tables[k];
    var id := OneHit(meta, server, changes, before, tables, k);
    forall n | n in c.originals && !IsKeyName(c.identity.key, n)
      ensures n in t[id].cells && t[id].cells[n] == BindOf(c.originals[n])
    {
      ShownPinned(c, t[id], n);
    }
  }

  lemma ShownPinned(c: Change, row: TableRow, n: string)
    requires !c.Insert? && c.identity.xmin.None? && n in c.originals && !IsKeyName(c.identity.key, n)
    requires AllHold(PlanOf(c).where, PlanOf(c).params, row)
    ensures n in row.cells && row.cells[n] == BindOf(c.originals[n])
  {
    hide PlanOf, BindOf, ShownNames, Sorted, IsKeyName;
    var names := Shown(c, Sorted(c.originals.Keys));
    assert n in names;
    var i :| 0 <= i < |names| && names[i] == n;
    ShownPlace(c, i);
    assert Holds(PlanOf(c).where[|c.identity.key| + i], PlanOf(c).params, row);
  }

  lemma ExecLeavesOthers(meta: TableMeta, server: Server, i: nat, p: RowPlan, t: Table, t': Table, id: nat)
    requires Exec(meta, server, i, p, t) == Affected(1, t')
    requires id in t && id != server.newId(i)
    requires p.operation != InsertRow ==> id !in Matches(t, p)
    ensures id in t' && t'[id] == t[id]
  {
  }

  /** A row no statement hit comes through unchanged. */
  lemma {:induction false} UnhitRowsUnchanged(meta: TableMeta, server: Server, changes: seq<Change>, before: Table,
                                              tables: seq<Table>, k: nat, id: nat)
    requires Committing(meta, server, changes, before, tables) && k < |tables| && id in before
    requires forall j :: 0 <= j < k ==> id !in Hit(tables, PlansOf(changes), j)
    ensures id in tables[k] && tables[k][id] == before[id]
  {
    if k > 0 {
      UnhitRowsUnchanged(meta, server, changes, before, tables, k - 1, id);
      StatementRan(meta, server, changes, before, tables, k - 1);
      assert id !in Hit(tables, PlansOf(changes), k - 1);
      ExecLeavesOthers(meta, server, k - 1, PlanOf(changes[k - 1]), tables[k - 1], tables[k], id);
    }
  }

  /**
   * A conflict is real: when a statement finds no row, every row of the table before the
   * transaction that its WHERE would have matched was already hit by this same change set.
   */
  lemma ConflictIsReal(meta: TableMeta, server: Server, changes: seq<Change>, before: Table,
                       tables: seq<Table>, id: nat)
    requires Committing(meta, server, changes, before, tables) && |tables| <= |changes|
    requires Missed(meta, server, PlansOf(changes), tables) && id in before
    requires AllHold(PlanOf(changes[|tables| - 1]).where, PlanOf(changes[|tables| - 1]).params, before[id])
    ensures exists j :: 0 <= j < |tables| - 1 && id in Hit(tables, PlansOf(changes), j)
  {
    var k := |tables| - 1;
    MissedNothing(meta, server, changes, tables);
    if forall j :: 0 <= j < k ==> id !in Hit(tables, PlansOf(changes), j) {
      UnhitRowStillMatches(meta, server, changes, before, tables, k, id);
    }
  }

  lemma UnhitRowStillMatches(meta: TableMeta, server: Server, changes: seq<Change>, before: Table,
                             tables: seq<Table>, k: nat, id: nat)
    requires Committing(meta, server, changes, before, tables) && k < |tables| && k < |changes| && id in before
    requires AllHold(PlanOf(changes[k]).where, PlanOf(changes[k]).params, before[id])
    requires forall j :: 0 <= j < k ==> id !in Hit(tables, PlansOf(changes), j)
    ensures id in Matches(tables[k], PlanOf(changes[k]))
  {
    UnhitRowsUnchanged(meta, server, changes, before, tables, k, id);
  }

  lemma InsertAlwaysAffects(meta: TableMeta, server: Server, i: nat, c: Change, t: Table)
    requires Exec(meta, server, i, PlanOf(c), t).Affected?
    ensures c.Insert? ==> Exec(meta, server, i, PlanOf(c), t).count == 1
  {
    hide TableOk, Matches, Assigned, SetBounds;
  }

  lemma MissedNothing(meta: TableMeta, server: Server, changes: seq<Change>, tables: seq<Table>)
    requires 1 <= |tables| <= |changes| && Missed(meta, server, PlansOf(changes), tables)
    ensures var k := |tables| - 1;
      !changes[k].Insert? && Matches(tables[k], PlanOf(changes[k])) == {}
  {
    var k := |tables| - 1;
    assert PlansOf(changes)[k] == PlanOf(changes[k]);
    InsertAlwaysAffects(meta, server, k, changes[k], tables[k]);
    hide Exec, PlanOf, Matches;
    if !changes[k].Insert? { ExecCount(meta, server, k, PlanOf(changes[k]), tables[k]); }
  }

  /** The effect of a version-locked hit: a deleted row is gone, an updated one has the new cells. */
  lemma HitTakesEffect(meta: TableMeta, server: Server, changes: seq<Change>, before: Table,
                       tables: seq<Table>, k: nat, id: nat)
    requires Committing(meta, server, changes, before, tables) && k < |tables| - 1
    requires !changes[k].Insert? && Matches(tables[k], PlanOf(changes[k])) == {id}
    ensures changes[k].Delete? ==> id !in tables[k + 1]
    ensures changes[k].Update? ==> id in tables[k + 1]
    ensures changes[k].Update? ==>
      tables[k + 1][id] == TableRow(Assigned(tables[k][id].cells, PlanOf(changes[k]).sets, PlanOf(changes[k]).params),
                                    server.xid)
  {
    StatementRan(meta, server, changes, before, tables, k);
  }

  /** Two version-locked statements of one transaction never hit the same row. */
  lemma VersionedHitsDisjoint(meta: TableMeta, server: Server, changes: seq<Change>, before: Table,
                              tables: seq<Table>, j: nat, k: nat, id: nat)
    requires Committing(meta, server, changes, before, tables) && j < k < |tables| - 1
    requires !changes[j].Insert? && !changes[k].Insert? && changes[k].identity.xmin.Some?
    requires Matches(tables[j], PlanOf(changes[j])) == {id}
    ensures id !in Matches(tables[k], PlanOf(changes[k]))
  {
    HitTakesEffect(meta, server, changes, before, tables, j, id);
    StaysNew(meta, server, changes, before, tables, j, k, id);
    if id in Matches(tables[k], PlanOf(changes[k])) {
      VersionPinned(changes[k], tables[k][id]);
    }
  }

  /** Once a statement touched a row, it is gone or carries the new version from then on. */
  lemma {:induction false} StaysNew(meta: TableMeta, server: Server, changes: seq<Change>, before: Table,
                                    tables: seq<Table>, j: nat, k: nat, id: nat)
    requires Committing(meta, server, changes, before, tables) && j < k < |tables|
    requires id in tables[j + 1] ==> tables[j + 1][id].version == server.xid
    ensures id in tables[k] ==> tables[k][id].version == server.xid
  {
    hide Trace, FreshTransaction, Catalog, TableOk, Accepts, Exec, PlanOf;
    if k > j + 1 {
      StaysNew(meta, server, changes, before, tables, j, k - 1, id);
      StatementKeepsNew(meta, server, changes, before, tables, k - 1, id);
    }
  }

  lemma StatementKeepsNew(meta: TableMeta, server: Server, changes: seq<Change>, before: Table,
                          tables: seq<Table>, k: nat, id: nat)
    requires Committing(meta, server, changes, before, tables) && k < |tables| - 1
    requires id in tables[k] ==> tables[k][id].version == server.xid
    ensures id in tables[k + 1] ==> tables[k + 1][id].version == server.xid
  {
    StatementRan(meta, server, changes, before, tables, k);
    ExecKeepsNew(meta, server, k, changes[k], tables[k], tables[k + 1], id);
  }

  lemma ExecKeepsNew(meta: TableMeta, server: Server, i: nat, c: Change, t: Table, t': Table, id: nat)
    requires Exec(meta, server, i, PlanOf(c), t) == Affected(1, t')
    requires id in t ==> t[id].version == server.xid
    ensures id in t' ==> t'[id].version == server.xid
  {
  }

  // ---- the committed table ----

  function Lookup(t: Table, id: nat): Option<TableRow> {
    if id in t then Some(t[id]) else None
  }

  ghost predicate VersionLocked(changes: seq<Change>) {
    forall i :: 0 <= i < |changes| && !changes[i].Insert? ==> changes[i].identity.xmin.Some?
  }

  /** The change is about this row, as the row was before the transaction. */
  ghost predicate Concerns(c: Change, before: Table, id: nat) {
    !c.Insert? && id in before && AllHold(PlanOf(c).where, PlanOf(c).params, before[id])
  }

  /** One row once the first `n` changes are saved, each applied to what was there before them all. */
  ghost function SavedRow(server: Server, changes: seq<Change>, before: Table, id: nat, n: nat): Option<TableRow>
    requires n <= |changes|
  {
    if n == 0 then Lookup(before, id)
    else
      var c, p := changes[n - 1], PlanOf(changes[n - 1]);
      if c.Insert? && id == server.newId(n - 1) then
        Some(TableRow(Assigned(server.defaults(n - 1), p.sets, p.params), server.xid))
      else if Concerns(c, before, id) then
        (if c.Delete? then None else Some(TableRow(Assigned(before[id].cells, p.sets, p.params), server.xid)))
      else SavedRow(server, changes, before, id, n - 1)
  }

  lemma ExecOnRow(meta: TableMeta, server: Server, i: nat, c: Change, t: Table, t': Table, id: nat)
    requires Exec(meta, server, i, PlanOf(c), t) == Affected(1, t')
    ensures var p := PlanOf(c);
      Lookup(t', id) ==
        if c.Insert? then
          (if id == server.newId(i) then Some(TableRow(Assigned(server.defaults(i), p.sets, p.params), server.xid))
           else Lookup(t, id))
        else if id in Matches(t, p) then
          (if c.Delete? then None else Some(TableRow(Assigned(t[id].cells, p.sets, p.params), server.xid)))
        else Lookup(t, id)
  {
    hide AllHold, Assigned, TableOk;
  }

  /** A version-locked statement hits the row it concerned before the transaction, as it was then. */
  lemma HitIsConcerned(meta: TableMeta, server: Server, changes: seq<Change>, before: Table,
                       tables: seq<Table>, k: nat, id: nat)
    requires Committing(meta, server, changes, before, tables) && k < |tables| - 1
    requires !changes[k].Insert? && changes[k].identity.xmin.Some?
    ensures id in Matches(tables[k], PlanOf(changes[k])) <==> Concerns(changes[k], before, id)
    ensures Concerns(changes[k], before, id) ==> id in tables[k] && tables[k][id] == before[id]
  {
    hide Committing, Catalog, PlanOf, Accepts, AllHold, SameKey;
    ChangeAccepted(meta, server, changes, before, tables, k);
    VersionedHitsAreCurrent(meta, server, changes, before, tables, k);
    var c := changes[k];
    var hit :| hit in before && Matches(tables[k], PlanOf(c)) == {hit} && tables[k][hit] == before[hit];
    assert hit in Matches(tables[k], PlanOf(c));
    if Concerns(c, before, id) {
      WherePinsKey(meta, c, before[hit], before[id]);
    }
  }

  lemma ChangeAccepted(meta: TableMeta, server: Server, changes: seq<Change>, before: Table, tables: seq<Table>, k: nat)
    requires Committing(meta, server, changes, before, tables) && k < |tables| - 1
    ensures k < |changes| && Catalog(meta) && Accepts(meta, changes[k]) && TableOk(meta, before)
  {
    hide Trace, FreshTransaction, Catalog, Accepts, TableOk;
    StatementRan(meta, server, changes, before, tables, k);
  }

  /**
   * A change set of version-locked changes that went through leaves the table it was made
   * against with its rows deleted or rewritten and its inserts added, and nothing else: each
   * change acts on the row as the user saw it, whatever the others did.
   */
  lemma {:induction false} SavedTable(meta: TableMeta, server: Server, changes: seq<Change>, before: Table,
                                      tables: seq<Table>, n: nat, id: nat)
    requires Committing(meta, server, changes, before, tables) && n < |tables| && VersionLocked(changes)
    requires n <= |changes|
    ensures Lookup(tables[n], id) == SavedRow(server, changes, before, id, n)
  {
    hide Trace, FreshTransaction, Catalog, TableOk, Accepts, PlanOf, Exec, Matches, Assigned, Concerns, Lookup;
    if n > 0 {
      SavedTable(meta, server, changes, before, tables, n - 1, id);
      SavedStep(meta, server, changes, before, tables, n - 1, id);
    }
  }

  /** One more statement moves a row as SavedRow says. */
  lemma SavedStep(meta: TableMeta, server: Server, changes: seq<Change>, before: Table,
                  tables: seq<Table>, k: nat, id: nat)
    requires Committing(meta, server, changes, before, tables) && k < |tables| - 1 && VersionLocked(changes)
    requires k < |changes| && Lookup(tables[k], id) == SavedRow(server, changes, before, id, k)
    ensures Lookup(tables[k + 1], id) == SavedRow(server, changes, before, id, k + 1)
  {
    hide Committing, PlanOf, Accepts, Exec, Matches, Assigned, Concerns;
    var c := changes[k];
    StatementRan(meta, server, changes, before, tables, k);
    ExecOnRow(meta, server, k, c, tables[k], tables[k + 1], id);
    if c.Insert? {
      InsertConcernsNone(c, before, id);
    } else {
      HitIsConcerned(meta, server, changes, before, tables, k, id);
    }
  }

  lemma InsertConcernsNone(c: Change, before: Table, id: nat)
    requires c.Insert?
    ensures !Concerns(c, before, id)
  {
  }

  /** No version, and nothing shown outside the key. */
  predicate KeyOnly(c: Change)
    requires !c.Insert?
  {
    c.identity.xmin.None? && forall n :: n in c.originals ==> IsKeyName(c.identity.key, n)
  }

  lemma NothingShownIff(c: Change)
    requires !c.Insert?
    ensures Shown(c, Sorted(c.originals.Keys)) == []
      <==> forall n :: n in c.originals ==> IsKeyName(c.identity.key, n)
  {
    var names := Shown(c, Sorted(c.originals.Keys));
    assert |names| > 0 ==> names[0] in names;
  }

  /** The conditions are the key's alone exactly when there is no version and nothing outside the key was shown. */
  lemma KeyOnlyConditions(c: Change)
    requires !c.Insert?
    ensures KeyOnly(c) <==> |PlanOf(c).where| == |c.identity.key|
  {
    WhereLength(c);
    NothingShownIff(c);
  }

  /** Such a plan is accepted, yet matches its row whatever the row has become. */
  lemma KeyOnlyLockIgnoresChanges(meta: TableMeta, c: Change, seen: TableRow, now: TableRow)
    requires Catalog(meta) && Accepts(meta, c) && !c.Insert? && KeyOnly(c)
    requires SameKey(meta, seen, now) && AllHold(PlanOf(c).where, PlanOf(c).params, seen)
    ensures AllHold(PlanOf(c).where, PlanOf(c).params, now)
  {
    var p, key := PlanOf(c), c.identity.key;
    KeyOnlyConditions(c);
    forall k | 0 <= k < |p.where| ensures Holds(p.where[k], p.params, now) {
      KeyPlace(c, k);
      assert Holds(p.where[k], p.params, seen);
      KeyColumnAgrees(meta, c.identity, k, seen, now);
    }
  }

  lemma KeyColumnAgrees(meta: TableMeta, identity: Identity, k: nat, a: TableRow, b: TableRow)
    requires CoversKey(meta, identity) && k < |identity.key| && KeyUsable(meta, identity.key[k])
    requires SameKey(meta, a, b)
    ensures var n := identity.key[k].column; n in a.cells && n in b.cells && a.cells[n] == b.cells[n]
  {
    FindIsColumn(meta.columns, identity.key[k].column);
    assert Attributes(identity.key)[k] in multiset(Attributes(identity.key));
    assert identity.key[k].attribute in multiset(meta.primaryKey);
  }

  /** A cell outside the key can change, or the version, and the row keeps its key. */
  lemma OtherVersionSameKey(meta: TableMeta, seen: TableRow, version: string)
    requires SameKey(meta, seen, seen)
    ensures SameKey(meta, seen, seen.(version := version))
  {
  }

  lemma OtherCellSameKey(meta: TableMeta, c: Change, seen: TableRow, n: string, b: Bind)
    requires Catalog(meta) && !c.Insert? && Accepts(meta, c) && SameKey(meta, seen, seen)
    requires !IsKeyName(c.identity.key, n)
    ensures SameKey(meta, seen, seen.(cells := seen.cells[n := b]))
  {
    forall i | 0 <= i < |meta.columns| && meta.columns[i].attribute in meta.primaryKey
      ensures meta.columns[i].name != n
    {
      var attribute := meta.columns[i].attribute;
      assert attribute in multiset(meta.primaryKey);
      assert attribute in Attributes(c.identity.key);
      var k :| 0 <= k < |c.identity.key| && c.identity.key[k].attribute == attribute;
      FoundByAttribute(meta, c.identity.key[k], i);
    }
  }

  /** Unless the lock is the key alone, some change to the row is noticed. */
  lemma SomeChangeNoticed(meta: TableMeta, c: Change, seen: TableRow) returns (now: TableRow)
    requires Catalog(meta) && Accepts(meta, c) && !c.Insert? && !KeyOnly(c)
    requires AllHold(PlanOf(c).where, PlanOf(c).params, seen)
    ensures SameKey(meta, seen, now) && !AllHold(PlanOf(c).where, PlanOf(c).params, now)
  {
    hide PlanOf, BindOf, AllHold, SameKey, Accepts;
    WherePinsKey(meta, c, seen, seen);
    if c.identity.xmin.Some? {
      VersionPinned(c, seen);
      now := seen.(version := seen.version + "1");
      OtherVersionSameKey(meta, seen, now.version);
      if AllHold(PlanOf(c).where, PlanOf(c).params, now) { VersionPinned(c, now); }
    } else {
      var n :| n in c.originals && !IsKeyName(c.identity.key, n);
      var other := if BindOf(c.originals[n]) == Text(None) then Text(Some("")) else Text(None);
      now := seen.(cells := seen.cells[n := other]);
      OtherCellSameKey(meta, c, seen, n, other);
      if AllHold(PlanOf(c).where, PlanOf(c).params, now) { ShownPinned(c, now, n); }
    }
  }

  /**
   * The lock lets its row through whatever the row has become exactly when there is no version
   * and nothing outside the key was shown.
   */
  lemma KeyOnlyLockIff(meta: TableMeta, c: Change, seen: TableRow)
    requires Catalog(meta) && Accepts(meta, c) && !c.Insert?
    requires AllHold(PlanOf(c).where, PlanOf(c).params, seen)
    ensures (forall now :: SameKey(meta, seen, now) ==> AllHold(PlanOf(c).where, PlanOf(c).params, now)) <==> KeyOnly(c)
  {
    hide PlanOf, AllHold, SameKey, Accepts, KeyOnly;
    if KeyOnly(c) {
      forall now | SameKey(meta, seen, now) ensures AllHold(PlanOf(c).where, PlanOf(c).params, now) {
        KeyOnlyLockIgnoresChanges(meta, c, seen, now);
      }
    } else {
      var now := SomeChangeNoticed(meta, c, seen);
    }
  }

  /** An update that shows only its key is accepted: the planner's guard asks for some shown value, not a lock. */
  lemma KeyOnlyLockIsAccepted()
    ensures exists meta: TableMeta, c: Change :: Catalog(meta) && Accepts(meta, c) && !c.Insert? && KeyOnly(c)
  {
    var meta := TableMeta(1, [1], [Column("id", 1, false), Column("name", 2, false)]);
    var c := Update("u:0", Identity(1, [KeyValue(1, "id", Scalar("7"))], None),
                    map["id" := Scalar("7")], map["name" := Scalar("x")]);
    assert Attributes(c.identity.key) == [1];
    assert Find(meta.columns, "id") == Some(meta.columns[0]);
    assert Find(meta.columns[1..], "name") == Some(meta.columns[1]);
    assert IsKeyName(c.identity.key, "id") by { assert c.identity.key[0].column == "id"; }
    assert CoversKey(meta, c.identity) && KeysUsable(meta, c.identity.key);
    assert "id" in c.originals && "name" in c.changes;
    assert Accepts(meta, c);
    assert Catalog(meta) by { assert meta.columns[0].attribute == meta.primaryKey[0]; }
    assert KeyOnly(c);
  }
}
