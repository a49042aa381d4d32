module DraftRuns {
  // Over whole runs: what is drafted at a row is what was drafted on that row, wherever it moved.

  import opened Wrappers
  import opened Drafts
  import opened GridDrafts
  import opened Splices
  import opened Sums

  /** What one row of the grid carries: its changed cells, none if unchanged, and its delete mark. */
  datatype RowDraft = RowDraft(cells: Cells, marked: bool)

  const NoDraft: RowDraft := RowDraft(map[], false)

  function DraftAt(s: Sys, i: int): RowDraft {
    RowDraft(CellsOf(s.edits.updates, i), i in s.edits.deletes)
  }

  /** What an action does to one row's draft, knowing only where the row stands and the lock. */
  function Redrafted(d: RowDraft, a: Action, at: int, locked: bool): RowDraft {
    match a
    case SetCell(row, column, draft) =>
      if locked || row != at then d
      else d.(cells := if draft.None? then d.cells - {column} else d.cells[column := draft.value])
    case ToggleDelete(row) => if locked || row != at then d else d.(marked := !d.marked)
    case Resolve(conflicts) => if at in ConflictRows(conflicts) then NoDraft else d
    case _ => d
  }

  /** The draft of the row at `i`, kept by itself through a run: only actions on that row matter. */
  function OwnDraft(s: Sys, actions: seq<Action>, i: int, d: RowDraft): RowDraft
    decreases |actions|
  {
    if |actions| == 0 then d
    else if !Enabled(s, actions[0]) || i < 0 then OwnDraft(s, actions[1..], i, d)
    else
      var moved := Moved(s, actions[0], i);
      if moved.None? then NoDraft
      else OwnDraft(Step(s, actions[0]), actions[1..], moved.value, Redrafted(d, actions[0], i, s.edits.locked))
  }

  // ---- edits ----

  lemma {:induction false} CellsOfPut(updates: seq<Update>, row: int, cells: Cells, i: int)
    ensures CellsOf(Put(updates, row, cells), i) == if i == row then cells else CellsOf(updates, i)
  {
    if |updates| > 0 && updates[0].row != row {
      CellsOfPut(updates[1..], row, cells, i);
    }
  }

  lemma {:induction false} CellsOfMissing(updates: seq<Update>, i: int)
    requires i !in UpdateRows(updates)
    ensures CellsOf(updates, i) == map[]
  {
    if |updates| > 0 {
      assert UpdateRows(updates)[0] == updates[0].row && UpdateRows(updates[1..]) == UpdateRows(updates)[1..];
      CellsOfMissing(updates[1..], i);
    }
  }

  lemma {:induction false} CellsOfDrop(updates: seq<Update>, row: int, i: int)
    requires DistinctInts(UpdateRows(updates))
    ensures CellsOf(DropRow(updates, row), i) == if i == row then map[] else CellsOf(updates, i)
  {
    if |updates| > 0 {
      HeadTailDistinct(UpdateRows(updates));
      assert UpdateRows(updates[1..]) == UpdateRows(updates)[1..];
      if updates[0].row == row {
        CellsOfMissing(updates[1..], row);
      } else {
        CellsOfDrop(updates[1..], row, i);
      }
    }
  }

  lemma {:induction false} InWithout(s: seq<int>, v: int, i: int)
    requires DistinctInts(s)
    ensures i in Without(s, v) <==> i in s && i != v
  {
    if |s| > 0 {
      HeadTailDistinct(s);
      assert s == [s[0]] + s[1..];
      InWithout(s[1..], v, i);
    }
  }

  // ---- resolutions ----

  lemma {:induction false} CellsOfKept(updates: seq<Update>, resolved: seq<int>, i: int)
    ensures CellsOf(KeptUpdates(updates, resolved), i) == if i in resolved then map[] else CellsOf(updates, i)
  {
    if |updates| > 0 {
      CellsOfKept(updates[1..], resolved, i);
      var kept := KeptUpdates(updates[1..], resolved);
      if updates[0].row in resolved {
        assert [] + kept == kept;
      } else {
        assert ([updates[0]] + kept)[1..] == kept;
      }
    }
  }

  /** Rebasing keeps lookups apart, since no two rows land on one place. */
  lemma {:induction false} CellsOfMoved(updates: seq<Update>, removed: seq<nat>, i: nat)
    requires DistinctNats(removed) && i !in removed
    requires forall u :: u in updates ==> u.row >= 0 && u.row !in removed
    ensures CellsOf(MovedUpdates(updates, removed), Rebased(removed, i)) == CellsOf(updates, i)
  {
    if |updates| > 0 {
      var first, rest := updates[0], updates[1..];
      assert MovedUpdates(updates, removed)[1..] == MovedUpdates(rest, removed);
      assert first in updates;
      if first.row < i { RebasedKeepsOrder(removed, first.row, i); }
      if i < first.row { RebasedKeepsOrder(removed, i, first.row); }
      CellsOfMoved(rest, removed, i);
    }
  }

  lemma InMovedDeletes(deletes: seq<int>, removed: seq<nat>, i: nat)
    requires DistinctNats(removed) && i !in removed
    requires forall d :: d in deletes ==> d >= 0 && d !in removed
    ensures Rebased(removed, i) in MovedDeletes(deletes, removed) <==> i in deletes
  {
    var moved := MovedDeletes(deletes, removed);
    if i in deletes {
      var k :| 0 <= k < |deletes| && deletes[k] == i;
      assert moved[k] == Rebased(removed, i);
    }
    if Rebased(removed, i) in moved {
      var k :| 0 <= k < |moved| && moved[k] == Rebased(removed, i);
      assert deletes[k] in deletes;
      if deletes[k] < i { RebasedKeepsOrder(removed, deletes[k], i); }
      if i < deletes[k] { RebasedKeepsOrder(removed, i, deletes[k]); }
    }
  }

  lemma {:induction false} ValidNames(rows: seq<GridRow>, conflicts: seq<Conflict>, i: nat)
    requires i < |rows|
    ensures i in ConflictRows(Valid(rows, conflicts)) <==> i in ConflictRows(conflicts)
  {
    if |conflicts| > 0 {
      var init, last := conflicts[..|conflicts| - 1], conflicts[|conflicts| - 1];
      ValidNames(rows, init, i);
      assert ConflictRows(conflicts) == ConflictRows(init) + [last.idx];
      assert ConflictRows(Valid(rows, init) + [last]) == ConflictRows(Valid(rows, init)) + [last.idx];
      assert Valid(rows, init) + [] == Valid(rows, init);
    }
  }

  lemma ResolveFollows(s: Sys, conflicts: seq<Conflict>, i: nat)
    requires Inv(s) && DistinctNats(ConflictRows(conflicts)) && i < |s.rows|
    requires i !in Gone(Valid(s.rows, conflicts))
    ensures DraftAt(Settled(s, conflicts), Rebased(Gone(Valid(s.rows, conflicts)), i)) ==
      if i in ConflictRows(conflicts) then NoDraft else DraftAt(s, i)
  {
    hide Settled, Rebased, Inv, Valid, ConflictRows, Gone, CellsOf, DistinctNats;
    var valid := Valid(s.rows, conflicts);
    var gone, resolved := Gone(valid), ConflictRows(valid);
    ResolutionKeepsDrafts(s, conflicts);
    ValidConflicts(s.rows, conflicts);
    ValidNames(s.rows, conflicts, i);
    SurvivorsSpared(s, conflicts);
    CellsOfMoved(Survivors(s, conflicts), gone, i);
    CellsOfKept(s.edits.updates, resolved, i);
    InMovedDeletes(SurvivingDeletes(s, conflicts), gone, i);
    KeptDeletesSpared(s, conflicts);
  }

  lemma SurvivorsSpared(s: Sys, conflicts: seq<Conflict>)
    requires Inv(s) && DistinctNats(ConflictRows(conflicts))
    ensures var gone := Gone(Valid(s.rows, conflicts));
      && (forall u :: u in Survivors(s, conflicts) ==> u.row >= 0 && u.row !in gone)
      && (forall d :: d in SurvivingDeletes(s, conflicts) ==> d >= 0 && d !in gone)
  {
    var valid := Valid(s.rows, conflicts);
    ResolutionKeepsDrafts(s, conflicts);
    ValidConflicts(s.rows, conflicts);
    KeptAreUnresolved(s.edits.updates, ConflictRows(valid));
    KeptDeletesUnresolved(s.edits.deletes, ConflictRows(valid));
  }

  lemma KeptDeletesSpared(s: Sys, conflicts: seq<Conflict>)
    requires Inv(s)
    ensures forall d :: d in SurvivingDeletes(s, conflicts) <==>
      d in s.edits.deletes && d !in ConflictRows(Valid(s.rows, conflicts))
  {
    KeptDeletesUnresolved(s.edits.deletes, ConflictRows(Valid(s.rows, conflicts)));
  }

  // ---- steps and runs ----

  /** An action changes a row's draft as the row alone would have it, and moves it with the row. */
  lemma DraftFollows(s: Sys, a: Action, i: nat)
    requires Inv(s) && Enabled(s, a) && i < |s.rows| && Moved(s, a, i).Some?
    ensures DraftAt(Step(s, a), Moved(s, a, i).value) == Redrafted(DraftAt(s, i), a, i, s.edits.locked)
  {
    match a
    case SetCell(row, column, draft) =>
      var cells := if draft.None? then CellsOf(s.edits.updates, row) - {column}
                   else CellsOf(s.edits.updates, row)[column := draft.value];
      CellsOfPut(s.edits.updates, row, cells, i);
      CellsOfDrop(s.edits.updates, row, i);
    case ToggleDelete(row) => InWithout(s.edits.deletes, row, i);
    case Resolve(conflicts) => ResolveFollows(s, conflicts, i);
    case _ =>
  }

  /**
   * After any run of edits, marks, pages, locks and resolutions, what is drafted where a row now
   * stands is what was drafted on that row itself: no draft strays, none is lost.
   */
  lemma {:induction false} DraftsFollowRun(s: Sys, actions: seq<Action>, i: nat)
    requires Inv(s) && i < |s.rows| && Followed(s, actions, i).Some?
    ensures DraftAt(Run(s, actions), Followed(s, actions, i).value) == OwnDraft(s, actions, i, DraftAt(s, i))
    decreases |actions|
  {
    hide Inv, Enabled, Step, Moved, DraftAt, Redrafted;
    if |actions| > 0 {
      if Enabled(s, actions[0]) {
        RowFollows(s, actions[0], i);
        DraftFollows(s, actions[0], i);
        StepKeepsInv(s, actions[0]);
        DraftsFollowRun(Step(s, actions[0]), actions[1..], Moved(s, actions[0], i).value);
      } else {
        DraftsFollowRun(s, actions[1..], i);
      }
    }
  }

  /** No action of the run edits, marks or resolves the row, wherever it stands then. */
  predicate Untouched(s: Sys, actions: seq<Action>, i: int)
    decreases |actions|
  {
    |actions| == 0 || (
      if !Enabled(s, actions[0]) || i < 0 then Untouched(s, actions[1..], i)
      else
        && (actions[0].SetCell? || actions[0].ToggleDelete? ==> actions[0].row != i)
        && (actions[0].Resolve? ==> i !in ConflictRows(actions[0].conflicts))
        && (Moved(s, actions[0], i).Some? ==> Untouched(Step(s, actions[0]), actions[1..], Moved(s, actions[0], i).value)))
  }

  /** An untouched row stays on the grid, and its draft is untouched too. */
  lemma {:induction false} UntouchedFollowed(s: Sys, actions: seq<Action>, i: nat, d: RowDraft)
    requires Inv(s) && i < |s.rows| && Untouched(s, actions, i)
    ensures Followed(s, actions, i).Some? && OwnDraft(s, actions, i, d) == d
    decreases |actions|
  {
    hide Inv, Enabled, Step;
    if |actions| > 0 {
      if Enabled(s, actions[0]) {
        assert Moved(s, actions[0], i).Some? by { UntouchedStays(s, actions[0], i); }
        RowFollows(s, actions[0], i);
        StepKeepsInv(s, actions[0]);
        UntouchedFollowed(Step(s, actions[0]), actions[1..], Moved(s, actions[0], i).value, d);
      } else {
        UntouchedFollowed(s, actions[1..], i, d);
      }
    }
  }

  lemma UntouchedStays(s: Sys, a: Action, i: nat)
    requires Enabled(s, a) && i < |s.rows| && (a.Resolve? ==> i !in ConflictRows(a.conflicts))
    ensures Moved(s, a, i).Some?
  {
    if a.Resolve? {
      ValidConflicts(s.rows, a.conflicts);
      ValidNames(s.rows, a.conflicts, i);
    }
  }

  lemma {:induction false} CellsOfIn(updates: seq<Update>, i: int)
    requires CellsOf(updates, i) != map[]
    ensures Update(i, CellsOf(updates, i)) in updates
  {
    if updates[0].row != i { CellsOfIn(updates[1..], i); }
  }

  lemma {:induction false} InCellsOf(updates: seq<Update>, u: Update)
    requires DistinctInts(UpdateRows(updates)) && u in updates
    ensures CellsOf(updates, u.row) == u.cells
  {
    assert UpdateRows(updates[1..]) == UpdateRows(updates)[1..];
    if updates[0] != u {
      var k :| 0 <= k < |updates| && updates[k] == u;
      assert UpdateRows(updates)[0] == updates[0].row && UpdateRows(updates)[k] == u.row;
      assert updates[1..][k - 1] == u;
      InCellsOf(updates[1..], u);
    }
  }

  /** A draft whose row no action touches is there after the run, on the row it was made on. */
  lemma UntouchedDraftSurvives(s: Sys, actions: seq<Action>, i: nat, cells: Cells)
    requires Inv(s) && Update(i, cells) in s.edits.updates && Untouched(s, actions, i)
    ensures i < |s.rows| && Followed(s, actions, i).Some?
    ensures var s', j := Run(s, actions), Followed(s, actions, i).value;
      && Update(j, cells) in s'.edits.updates
      && (j in s'.edits.deletes <==> i in s.edits.deletes)
      && 0 <= j < |s'.rows| && s'.rows[j].identity == s.rows[i].identity
  {
    var k :| 0 <= k < |s.edits.updates| && s.edits.updates[k] == Update(i, cells);
    assert UpdateRows(s.edits.updates)[k] == i;
    InCellsOf(s.edits.updates, Update(i, cells));
    UntouchedFollowed(s, actions, i, DraftAt(s, i));
    DraftsFollowRun(s, actions, i);
    RowFollowsRun(s, actions, i);
    RunKeepsInv(s, actions);
    CellsOfIn(Run(s, actions).edits.updates, Followed(s, actions, i).value);
  }

  // ---- the count, the rows' contents, and what no action on rows touches ----

  /** The changed cells, each by its row and column. */
  function CellDrafts(updates: seq<Update>): set<(int, string)> {
    set u, c | u in updates && c in u.cells :: (u.row, c)
  }

  lemma CellsOfOne(u: Update)
    ensures |set c | c in u.cells :: (u.row, c)| == |u.cells|
  {
    var pairs := set c | c in u.cells :: (u.row, c);
    PairsCount(u.row, u.cells.Keys);
    assert pairs == set c | c in u.cells.Keys :: (u.row, c);
  }

  lemma {:induction false} PairsCount(row: int, names: set<string>)
    ensures |set c | c in names :: (row, c)| == |names|
    decreases names
  {
    if names != {} {
      var n :| n in names;
      PairsCount(row, names - {n});
      assert (set c | c in names :: (row, c)) == (set c | c in names - {n} :: (row, c)) + {(row, n)};
    }
  }

  lemma CellDraftsCons(u: Update, rest: seq<Update>)
    requires u.row !in UpdateRows(rest)
    ensures |CellDrafts([u] + rest)| == |u.cells| + |CellDrafts(rest)|
  {
    var own := set c | c in u.cells :: (u.row, c);
    forall v | v in rest ensures v.row != u.row {
      var k :| 0 <= k < |rest| && rest[k] == v;
      assert UpdateRows(rest)[k] == v.row;
    }
    CellsOfOne(u);
    assert forall v :: v in [u] + rest <==> v == u || v in rest;
    assert CellDrafts([u] + rest) == own + CellDrafts(rest);
    assert own !! CellDrafts(rest);
  }

  lemma {:induction false} SizesCount(updates: seq<Update>)
    requires DistinctInts(UpdateRows(updates))
    ensures SumSeq(UpdateSizes(updates)) == |CellDrafts(updates)|
  {
    if updates == [] {
      assert CellDrafts([]) == {};
    } else {
      var first, rest := updates[0], updates[1..];
      HeadTailDistinct(UpdateRows(updates));
      assert UpdateRows(rest) == UpdateRows(updates)[1..];
      SizesCount(rest);
      assert updates == [first] + rest;
      SizesCons(first, rest);
      hide CellDrafts, UpdateSizes, SumSeq;
      CellDraftsCons(first, rest);
    }
  }

  lemma SizesCons(u: Update, rest: seq<Update>)
    ensures SumSeq(UpdateSizes([u] + rest)) == |u.cells| + SumSeq(UpdateSizes(rest))
  {
    SumSeqAppend([|u.cells|], UpdateSizes(rest));
    assert UpdateSizes([u] + rest) == [|u.cells|] + UpdateSizes(rest);
    assert SumSeq([|u.cells|]) == |u.cells|;
  }

  /** The count shown is the changed cells, the rows marked for deletion and the rows to insert. */
  lemma CountIsDrafts(s: Sys, actions: seq<Action>)
    requires Inv(s)
    ensures var e := Run(s, actions).edits;
      e.pendingCount == |CellDrafts(e.updates)| + |set d | d in e.deletes| + |e.inserts|
  {
    RunKeepsInv(s, actions);
    var e := Run(s, actions).edits;
    hide Run, CellDrafts;
    SizesCount(e.updates);
    DistinctAsSet(e.deletes);
  }

  lemma {:induction false} DistinctAsSet(rows: seq<int>)
    requires DistinctInts(rows)
    ensures |set d | d in rows| == |rows|
  {
    if rows == [] {
      assert (set d | d in rows) == {};
    } else {
      HeadTailDistinct(rows);
      DistinctAsSet(rows[1..]);
      assert rows == [rows[0]] + rows[1..];
      assert (set d | d in rows) == (set d | d in rows[1..]) + {rows[0]};
    }
  }

  lemma LastIsNew(conflicts: seq<Conflict>)
    requires conflicts != [] && DistinctNats(ConflictRows(conflicts))
    ensures var init, last := conflicts[..|conflicts| - 1], conflicts[|conflicts| - 1];
      && conflicts == init + [last] && DistinctNats(ConflictRows(init))
      && ConflictRows(conflicts) == ConflictRows(init) + [last.idx]
      && last.idx !in ConflictRows(init) && forall c :: c in init ==> c.idx != last.idx
  {
    var init, last, all := conflicts[..|conflicts| - 1], conflicts[|conflicts| - 1], ConflictRows(conflicts);
    assert ConflictRows(init) == all[..|init|] && all[|init|] == last.idx;
    forall c | c in init ensures c.idx != last.idx {
      var k :| 0 <= k < |init| && init[k] == c;
      assert all[k] == c.idx;
    }
  }

  lemma {:induction false} RefreshedCells(rows: seq<GridRow>, conflicts: seq<Conflict>, i: nat)
    requires i < |rows| && DistinctNats(ConflictRows(conflicts))
    ensures forall c :: c in conflicts && c.idx == i && c.current.Some? ==>
      Refreshed(rows, conflicts)[i].cells == c.current.value
    ensures i !in ConflictRows(conflicts) ==> Refreshed(rows, conflicts)[i].cells == rows[i].cells
  {
    if conflicts != [] {
      LastIsNew(conflicts);
      RefreshedCells(rows, conflicts[..|conflicts| - 1], i);
    }
  }

  lemma {:induction false} ValidHas(rows: seq<GridRow>, conflicts: seq<Conflict>, c: Conflict)
    requires c in conflicts && c.idx < |rows|
    ensures c in Valid(rows, conflicts)
  {
    var init, last := conflicts[..|conflicts| - 1], conflicts[|conflicts| - 1];
    assert conflicts == init + [last];
    if c != last { ValidHas(rows, init, c); }
  }

  lemma {:induction false} GoneHas(conflicts: seq<Conflict>, c: Conflict)
    requires c in conflicts && DistinctNats(ConflictRows(conflicts))
    ensures c.idx in Gone(conflicts) <==> c.current.None?
  {
    var init := conflicts[..|conflicts| - 1];
    LastIsNew(conflicts);
    GoneNamed(init);
    if c in init { GoneHas(init, c); }
  }

  lemma {:induction false} GoneNamed(conflicts: seq<Conflict>)
    ensures forall r :: r in Gone(conflicts) ==> r in ConflictRows(conflicts)
  {
    if conflicts != [] {
      var init, last := conflicts[..|conflicts| - 1], conflicts[|conflicts| - 1];
      GoneNamed(init);
      assert ConflictRows(conflicts) == ConflictRows(init) + [last.idx];
    }
  }

  /**
   * A resolution shows, on each row it names, what the server has there now, or takes the row out;
   * the cells of every other row, the inserts and the lock stay.
   */
  lemma ResolvedShows(s: Sys, conflicts: seq<Conflict>, i: nat)
    requires Inv(s) && Enabled(s, Resolve(conflicts)) && i < |s.rows|
    ensures var s', moved := Step(s, Resolve(conflicts)), Moved(s, Resolve(conflicts), i);
      && (moved.Some? ==> 0 <= moved.value < |s'.rows|)
      && (forall c :: c in conflicts && c.idx == i ==> (moved.Some? <==> c.current.Some?))
      && (forall c :: c in conflicts && c.idx == i && c.current.Some? ==> s'.rows[moved.value].cells == c.current.value)
      && ((forall c :: c in conflicts ==> c.idx != i) ==> moved.Some? && s'.rows[moved.value].cells == s.rows[i].cells)
      && s'.edits.inserts == s.edits.inserts && s'.edits.locked == s.edits.locked
  {
    var valid := Valid(s.rows, conflicts);
    var gone := Gone(valid);
    ValidConflicts(s.rows, conflicts);
    RefreshedCells(s.rows, valid, i);
    RemovalMovesRows(Refreshed(s.rows, valid), gone, i);
    hide Rebased, Refreshed, SpliceAll, SortDescending, DistinctNats, Inv;
    forall c | c in conflicts && c.idx == i ensures c in valid && (i in gone <==> c.current.None?) {
      ValidHas(s.rows, conflicts, c);
      GoneHas(valid, c);
    }
    if i in ConflictRows(valid) {
      var k :| 0 <= k < |valid| && ConflictRows(valid)[k] == i;
      assert valid[k] in valid && valid[k].idx == i;
    }
  }

  /** Edits and marks leave the rows, the inserts and the lock alone; a page leaves the drafts alone. */
  lemma RestStays(s: Sys, a: Action)
    requires Enabled(s, a)
    ensures var s' := Step(s, a);
      && (a.SetCell? || a.ToggleDelete? ==> s'.rows == s.rows && s'.edits.inserts == s.edits.inserts && s'.edits.locked == s.edits.locked)
      && (a.SetCell? ==> s'.edits.deletes == s.edits.deletes)
      && (a.ToggleDelete? ==> s'.edits.updates == s.edits.updates)
      && (a.AddInsert? ==> s' == s.(edits := s.edits.(inserts := s.edits.inserts + [a.draftId], pendingCount := s'.edits.pendingCount)))
      && (a.AppendPage? ==> s' == s.(rows := s.rows + a.rows))
      && (a.Lock? ==> s' == s.(edits := s.edits.(locked := a.locked, pendingCount := s'.edits.pendingCount)))
  {
    hide Count;
  }

  // ---- no other rows ----

  /** Every place below the moved end is where some row that stays lands. */
  lemma {:induction false} Preimage(removed: seq<nat>, n: nat, j: nat) returns (i: nat)
    requires DistinctNats(removed) && j < Rebased(removed, n)
    ensures i < n && i !in removed && Rebased(removed, i) == j
    decreases n
  {
    NoneBelowZero(removed);
    if n > 0 {
      CountStep(removed, n - 1);
      if n - 1 !in removed && j == Rebased(removed, n - 1) {
        i := n - 1;
      } else {
        i := Preimage(removed, n - 1, j);
      }
    }
  }

  lemma {:induction false} NoneBelowZero(removed: seq<nat>)
    ensures CountBelow(removed, 0) == 0
  {
    if |removed| > 0 { NoneBelowZero(removed[1..]); }
  }

  /** Every row of the grid after an action was there before, or came with the page, with no draft. */
  lemma EveryRowHasOrigin(s: Sys, a: Action, j: nat)
    requires Inv(s) && Enabled(s, a) && j < |Step(s, a).rows|
    ensures (exists i: nat :: i < |s.rows| && Moved(s, a, i) == Some(j as int))
      || (a.AppendPage? && j >= |s.rows| && DraftAt(Step(s, a), j) == NoDraft)
  {
    match a
    case Resolve(conflicts) =>
      var valid := Valid(s.rows, conflicts);
      ValidConflicts(s.rows, conflicts);
      RemovalMovesRows(Refreshed(s.rows, valid), Gone(valid), 0);
      AllBelow(Gone(valid), |s.rows|);
      assert CountBelow(Gone(valid), |s.rows|) == |Gone(valid)|;
      var i := Preimage(Gone(valid), |s.rows|, j);
      assert Moved(s, a, i) == Some(j as int);
    case AppendPage(rows) =>
      if j < |s.rows| {
        assert Moved(s, a, j) == Some(j as int);
      } else {
        assert j !in UpdateRows(s.edits.updates);
        CellsOfMissing(s.edits.updates, j);
      }
    case _ => assert Moved(s, a, j) == Some(j as int);
  }
}
