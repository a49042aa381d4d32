module GridDrafts {
  // Drafts and grid rows together: every draft stays on the row it was made on.

  import opened Wrappers
  import opened Splices
  import opened Drafts

  /** A grid row: which database row it shows, and what it shows of it. */
  datatype GridRow = GridRow(identity: nat, cells: string)

  /** One conflicting row: its index, and the server's current cells if the row still exists. */
  datatype Conflict = Conflict(idx: nat, current: Option<string>)

  predicate DistinctInts(s: seq<int>) {
    forall i, j :: 0 <= i < j < |s| ==> s[i] != s[j]
  }

  /** One splice: rows below it stay, rows above it move up by one. */
  lemma SpliceMoves<T>(rows: seq<T>, m: nat, i: nat)
    requires m < |rows| && i < |rows| && i != m
    ensures |Splice(rows, m)| == |rows| - 1
    ensures var j := if i > m then i - 1 else i; Splice(rows, m)[j] == rows[i]
  {
  }

  /** Splicing from the highest index down: every other row moves up by the removed rows below it. */
  lemma {:induction false} SpliceDescending<T>(rows: seq<T>, removed: seq<nat>, i: nat)
    requires StrictlyDescending(removed) && InRange(removed, |rows|) && i < |rows| && i !in removed
    ensures 0 <= Rebased(removed, i) < |rows| - |removed| && |SpliceAll(rows, removed)| == |rows| - |removed|
    ensures SpliceAll(rows, removed)[Rebased(removed, i)] == rows[i]
    decreases |removed|
  {
    hide Splice;
    if |removed| > 0 {
      var m, rest := removed[0], removed[1..];
      assert m in removed && forall k :: 0 <= k < |rest| ==> rest[k] == removed[k + 1];
      SpliceMoves(rows, m, i);
      if i < m {
        SpliceDescending(Splice(rows, m), rest, i);
      } else {
        AllBelow(rest, m);
        SpliceDescending(Splice(rows, m), rest, i - 1);
        assert CountBelow(rest, i - 1) == CountBelow(rest, i);
      }
    }
  }

  /** Indexes all below `m` count fully for every i from m on. */
  lemma {:induction false} AllBelow(removed: seq<nat>, m: nat)
    requires forall j :: 0 <= j < |removed| ==> removed[j] < m
    ensures forall i :: i >= m ==> CountBelow(removed, i) == |removed|
  {
    if |removed| > 0 { AllBelow(removed[1..], m); }
  }

  lemma {:induction false} InsertCounts(s: seq<nat>, v: nat, i: int)
    ensures CountBelow(InsertDescending(s, v), i) == CountBelow(s, i) + (if v < i then 1 else 0)
  {
    if |s| > 0 && v < s[0] { InsertCounts(s[1..], v, i); }
  }

  lemma {:induction false} SortCounts(s: seq<nat>, i: int)
    ensures CountBelow(SortDescending(s), i) == CountBelow(s, i)
  {
    if |s| > 0 {
      SortCounts(s[1..], i);
      InsertCounts(SortDescending(s[1..]), s[0], i);
    }
  }

  /** What removeRows does to the grid, for distinct rows of it. */
  lemma RemovalMovesRows<T>(rows: seq<T>, removed: seq<nat>, i: nat)
    requires DistinctNats(removed) && InRange(removed, |rows|)
    ensures |SpliceAll(rows, SortDescending(removed))| == |rows| - |removed|
    ensures i < |rows| && i !in removed ==>
      && 0 <= Rebased(removed, i) < |rows| - |removed|
      && SpliceAll(rows, SortDescending(removed))[Rebased(removed, i)] == rows[i]
  {
    SortStrict(removed, |rows|);
    SortCounts(removed, i);
    SpliceShortens(rows, SortDescending(removed));
    if i < |rows| && i !in removed { SpliceDescending(rows, SortDescending(removed), i); }
  }

  lemma {:induction false} CountStep(removed: seq<nat>, i: nat)
    requires DistinctNats(removed)
    ensures CountBelow(removed, i + 1) == CountBelow(removed, i) + (if i in removed then 1 else 0)
  {
    if |removed| > 0 {
      assert removed == [removed[0]] + removed[1..];
      CountStep(removed[1..], i);
    }
  }

  /** Two surviving rows never land on one index, and keep their order. */
  lemma {:induction false} RebasedKeepsOrder(removed: seq<nat>, i: nat, j: nat)
    requires DistinctNats(removed) && i < j
    ensures Rebased(removed, i) <= Rebased(removed, j)
    ensures i !in removed ==> Rebased(removed, i) < Rebased(removed, j)
    decreases j - i
  {
    CountStep(removed, i);
    if i + 1 < j { RebasedKeepsOrder(removed, i + 1, j); }
  }

  // ---- the grid and its drafts ----

  datatype Sys = Sys(rows: seq<GridRow>, edits: Snapshot)

  function UpdateRows(updates: seq<Update>): seq<int> {
    seq(|updates|, i requires 0 <= i < |updates| => updates[i].row)
  }

  predicate OnGrid(s: seq<int>, n: nat) {
    forall i :: 0 <= i < |s| ==> 0 <= s[i] < n
  }

  predicate NoneEmpty(updates: seq<Update>) {
    forall u :: u in updates ==> u.cells != map[]
  }

  /** One draft per row and kind, none empty, each on a row of the grid, and an honest count. */
  predicate Inv(s: Sys) {
    && NoneEmpty(s.edits.updates)
    && DistinctInts(UpdateRows(s.edits.updates)) && OnGrid(UpdateRows(s.edits.updates), |s.rows|)
    && DistinctInts(s.edits.deletes) && OnGrid(s.edits.deletes, |s.rows|)
    && s.edits.pendingCount == Count(s.edits)
  }

  function ConflictRows(conflicts: seq<Conflict>): seq<nat> {
    seq(|conflicts|, i requires 0 <= i < |conflicts| => conflicts[i].idx)
  }

  function Gone(conflicts: seq<Conflict>): seq<nat> {
    if |conflicts| == 0 then []
    else
      var last := conflicts[|conflicts| - 1];
      Gone(conflicts[..|conflicts| - 1]) + (if last.current.None? then [last.idx] else [])
  }

  function Refreshed(rows: seq<GridRow>, conflicts: seq<Conflict>): (r: seq<GridRow>)
    ensures |r| == |rows|
    ensures forall i :: 0 <= i < |rows| ==> r[i].identity == rows[i].identity
  {
    if |conflicts| == 0 then rows
    else
      var last := conflicts[|conflicts| - 1];
      var before := Refreshed(rows, conflicts[..|conflicts| - 1]);
      if last.current.Some? && last.idx < |rows|
      then before[last.idx := before[last.idx].(cells := last.current.value)] else before
  }

  function Valid(rows: seq<GridRow>, conflicts: seq<Conflict>): seq<Conflict> {
    if |conflicts| == 0 then []
    else
      var last := conflicts[|conflicts| - 1];
      Valid(rows, conflicts[..|conflicts| - 1]) + (if last.idx < |rows| then [last] else [])
  }

  function Settled(s: Sys, conflicts: seq<Conflict>): Sys {
    var valid := Valid(s.rows, conflicts);
    Sys(SpliceAll(Refreshed(s.rows, valid), SortDescending(Gone(valid))),
        Resolved(s.edits, ConflictRows(valid), Gone(valid)))
  }

  lemma SnocConflict(rows: seq<GridRow>, v: seq<Conflict>, c: Conflict)
    ensures ConflictRows(v + [c]) == ConflictRows(v) + [c.idx]
    ensures Gone(v + [c]) == if c.current.None? then Gone(v) + [c.idx] else Gone(v)
    ensures Refreshed(rows, v + [c]) ==
      if c.current.Some? && c.idx < |rows|
      then Refreshed(rows, v)[c.idx := Refreshed(rows, v)[c.idx].(cells := c.current.value)]
      else Refreshed(rows, v)
  {
    assert (v + [c])[..|v|] == v;
  }

  lemma ValidSnoc(rows: seq<GridRow>, conflicts: seq<Conflict>, i: nat)
    requires i < |conflicts|
    ensures Valid(rows, conflicts[..i + 1]) ==
      if conflicts[i].idx < |rows| then Valid(rows, conflicts[..i]) + [conflicts[i]] else Valid(rows, conflicts[..i])
  {
    assert conflicts[..i + 1][..i] == conflicts[..i];
  }

  /** Overwrites conflicting rows with the server's values, then compacts both stores once. */
  method ApplyServerValues(store: EditStore, tab: string, rows: seq<GridRow>, conflicts: seq<Conflict>)
    returns (rows': seq<GridRow>)
    requires store.Valid()
    modifies store
    ensures store.Valid()
    ensures Sys(rows', store.Get(tab)) == Settled(Sys(rows, old(store.Get(tab))), conflicts)
    ensures forall t :: t != tab ==> store.Get(t) == old(store.Get(t))
  {
    var resolved, removed: seq<nat> := [], [];
    rows' := rows;
    ghost var valid: seq<Conflict> := [];
    var i := 0;
    while i < |conflicts|
      invariant 0 <= i <= |conflicts|
      invariant store.states == old(store.states)
      invariant |rows'| == |rows| && valid == Valid(rows, conflicts[..i])
      invariant resolved == ConflictRows(valid) && removed == Gone(valid) && rows' == Refreshed(rows, valid)
    {
      var c := conflicts[i];
      ValidSnoc(rows, conflicts, i);
      SnocConflict(rows, valid, c);
      i := i + 1;
      if c.idx >= |rows| { continue; }
      valid := valid + [c];
      resolved := resolved + [c.idx];
      if c.current.Some? {
        rows' := rows'[c.idx := rows'[c.idx].(cells := c.current.value)];
      } else {
        removed := removed + [c.idx];
      }
    }
    assert conflicts[..i] == conflicts;
    store.ResolveRows(tab, resolved, removed);
    rows' := SpliceAll(rows', SortDescending(removed));
  }

  // ---- every run of edits, new pages and conflict resolutions ----

  datatype Action =
    | SetCell(row: nat, column: string, draft: Option<Option<string>>)
    | ToggleDelete(row: nat)
    | AddInsert(draftId: string)
    | AppendPage(rows: seq<GridRow>)
    | Lock(locked: bool)
    | Resolve(conflicts: seq<Conflict>)

  /** Edits are made on rows of the grid; one resolution names each row once. */
  predicate Enabled(s: Sys, a: Action) {
    match a
    case SetCell(row, _, _) => row < |s.rows|
    case ToggleDelete(row) => row < |s.rows|
    case AddInsert(_) => !s.edits.locked
    case Resolve(conflicts) => DistinctNats(ConflictRows(conflicts))
    case _ => true
  }

  function Step(s: Sys, a: Action): Sys {
    match a
    case SetCell(row, column, draft) => s.(edits := CellSet(s.edits, row, column, draft))
    case ToggleDelete(row) => s.(edits := DeleteToggled(s.edits, row))
    case AddInsert(draftId) => s.(edits := Counted(s.edits.(inserts := s.edits.inserts + [draftId])))
    case AppendPage(rows) => s.(rows := s.rows + rows)
    case Lock(locked) => s.(edits := Counted(s.edits.(locked := locked)))
    case Resolve(conflicts) => Settled(s, conflicts)
  }

  function Run(s: Sys, actions: seq<Action>): Sys
    decreases |actions|
  {
    if |actions| == 0 then s
    else Run(if Enabled(s, actions[0]) then Step(s, actions[0]) else s, actions[1..])
  }

  /** Where the row at `i` stands after an action; None once the action took it off the grid. */
  function Moved(s: Sys, a: Action, i: nat): Option<int> {
    if !a.Resolve? then Some(i)
    else
      var gone := Gone(Valid(s.rows, a.conflicts));
      if i in gone then None else Some(Rebased(gone, i))
  }

  function Followed(s: Sys, actions: seq<Action>, i: nat): Option<int>
    decreases |actions|
  {
    if |actions| == 0 then Some(i)
    else if !Enabled(s, actions[0]) then Followed(s, actions[1..], i)
    else
      var j := Moved(s, actions[0], i);
      if j.None? || j.value < 0 then None else Followed(Step(s, actions[0]), actions[1..], j.value)
  }

  lemma DistinctSnoc(s: seq<nat>, x: nat)
    requires DistinctNats(s) && x !in s
    ensures DistinctNats(s + [x])
  {
  }

  lemma {:induction false} GoneAreConflicts(conflicts: seq<Conflict>, n: nat)
    requires DistinctNats(ConflictRows(conflicts)) && InRange(ConflictRows(conflicts), n)
    ensures DistinctNats(Gone(conflicts)) && InRange(Gone(conflicts), n)
    ensures forall r :: r in Gone(conflicts) ==> r in ConflictRows(conflicts)
  {
    if |conflicts| > 0 {
      var init, last := conflicts[..|conflicts| - 1], conflicts[|conflicts| - 1];
      var rows := ConflictRows(conflicts);
      assert ConflictRows(init) == rows[..|init|] && rows == ConflictRows(init) + [last.idx];
      GoneAreConflicts(init, n);
      assert rows[|init|] == last.idx && last.idx !in ConflictRows(init);
      DistinctSnoc(Gone(init), last.idx);
    }
  }

  lemma {:induction false} ValidAreDistinct(rows: seq<GridRow>, conflicts: seq<Conflict>)
    requires DistinctNats(ConflictRows(conflicts))
    ensures var v := Valid(rows, conflicts);
      && DistinctNats(ConflictRows(v)) && InRange(ConflictRows(v), |rows|)
      && (forall c :: c in v ==> c in conflicts)
      && forall r :: r in ConflictRows(v) ==> r in ConflictRows(conflicts)
  {
    if |conflicts| > 0 {
      var init, last := conflicts[..|conflicts| - 1], conflicts[|conflicts| - 1];
      var all := ConflictRows(conflicts);
      assert ConflictRows(init) == all[..|init|] && all == ConflictRows(init) + [last.idx];
      ValidAreDistinct(rows, init);
      var v := Valid(rows, init);
      assert all[|init|] == last.idx && last.idx !in ConflictRows(init);
      assert ConflictRows(v + [last]) == ConflictRows(v) + [last.idx];
      DistinctSnoc(ConflictRows(v), last.idx);
      assert v + [] == v;
    }
  }

  lemma ValidConflicts(rows: seq<GridRow>, conflicts: seq<Conflict>)
    requires DistinctNats(ConflictRows(conflicts))
    ensures var v := Valid(rows, conflicts);
      && DistinctNats(ConflictRows(v)) && InRange(ConflictRows(v), |rows|)
      && DistinctNats(Gone(v)) && InRange(Gone(v), |rows|)
      && (forall c :: c in v ==> c in conflicts)
      && (forall r :: r in Gone(v) ==> r in ConflictRows(v))
  {
    ValidAreDistinct(rows, conflicts);
    GoneAreConflicts(Valid(rows, conflicts), |rows|);
  }

  /** A row that stays on the grid keeps its identity at the index it moves to. */
  lemma RowFollows(s: Sys, a: Action, i: nat)
    requires Enabled(s, a) && i < |s.rows| && Moved(s, a, i).Some?
    ensures var j := Moved(s, a, i).value;
      0 <= j < |Step(s, a).rows| && Step(s, a).rows[j].identity == s.rows[i].identity
  {
    if a.Resolve? {
      var valid := Valid(s.rows, a.conflicts);
      ValidConflicts(s.rows, a.conflicts);
      RemovalMovesRows(Refreshed(s.rows, valid), Gone(valid), i);
    }
  }

  /** Over any run, a row of the grid is found again, as the same database row, where it is followed to. */
  lemma {:induction false} RowFollowsRun(s: Sys, actions: seq<Action>, i: nat)
    requires i < |s.rows| && Followed(s, actions, i).Some?
    ensures var j := Followed(s, actions, i).value;
      0 <= j < |Run(s, actions).rows| && Run(s, actions).rows[j].identity == s.rows[i].identity
    decreases |actions|
  {
    if |actions| > 0 {
      if Enabled(s, actions[0]) {
        RowFollows(s, actions[0], i);
        RowFollowsRun(Step(s, actions[0]), actions[1..], Moved(s, actions[0], i).value);
      } else {
        RowFollowsRun(s, actions[1..], i);
      }
    }
  }

  // ---- the rebase itself: survivors move with their rows, in order, none lost or merged ----

  lemma {:induction false} PutNew(updates: seq<Update>, row: int, cells: Cells)
    requires row !in UpdateRows(updates)
    ensures Put(updates, row, cells) == updates + [Update(row, cells)]
  {
    if |updates| > 0 {
      assert UpdateRows(updates)[0] == updates[0].row;
      assert UpdateRows(updates[1..]) == UpdateRows(updates)[1..];
      PutNew(updates[1..], row, cells);
    }
  }

  /** Rebased survivors in their old order. */
  function MovedUpdates(updates: seq<Update>, removed: seq<nat>): seq<Update> {
    seq(|updates|, i requires 0 <= i < |updates| => Update(Rebased(removed, updates[i].row), updates[i].cells))
  }

  function MovedDeletes(deletes: seq<int>, removed: seq<nat>): seq<int> {
    seq(|deletes|, i requires 0 <= i < |deletes| => Rebased(removed, deletes[i]))
  }

  ghost predicate Spared(rows: seq<int>, removed: seq<nat>) {
    forall i :: 0 <= i < |rows| ==> rows[i] !in removed
  }

  /** Rows outside the removed ones land on distinct places. */
  lemma RebasedDistinct(rows: seq<int>, removed: seq<nat>)
    requires DistinctInts(rows) && DistinctNats(removed) && Spared(rows, removed)
    requires forall i :: 0 <= i < |rows| ==> rows[i] >= 0
    ensures forall i, j :: 0 <= i < j < |rows| ==> Rebased(removed, rows[i]) != Rebased(removed, rows[j])
  {
    forall i, j | 0 <= i < j < |rows| ensures Rebased(removed, rows[i]) != Rebased(removed, rows[j]) {
      if rows[i] < rows[j] { RebasedKeepsOrder(removed, rows[i], rows[j]); }
      else { RebasedKeepsOrder(removed, rows[j], rows[i]); }
    }
  }

  /** Building the new Map merges nothing: it is the survivors, each under its moved row. */
  lemma {:induction false} FromUpdatesMoves(updates: seq<Update>, removed: seq<nat>)
    requires DistinctInts(UpdateRows(updates)) && DistinctNats(removed) && Spared(UpdateRows(updates), removed)
    requires forall i :: 0 <= i < |updates| ==> updates[i].row >= 0
    ensures FromUpdates(updates, removed) == MovedUpdates(updates, removed)
  {
    if |updates| > 0 {
      var init, last := updates[..|updates| - 1], updates[|updates| - 1];
      assert UpdateRows(init) == UpdateRows(updates)[..|init|];
      FromUpdatesMoves(init, removed);
      RebasedDistinct(UpdateRows(updates), removed);
      var row := Rebased(removed, last.row);
      forall k | 0 <= k < |init| ensures UpdateRows(MovedUpdates(init, removed))[k] != row {
        assert UpdateRows(updates)[k] == init[k].row && UpdateRows(updates)[|init|] == last.row;
      }
      PutNew(MovedUpdates(init, removed), row, last.cells);
    }
  }

  lemma {:induction false} FromDeletesMoves(deletes: seq<int>, removed: seq<nat>)
    requires DistinctInts(deletes) && DistinctNats(removed) && Spared(deletes, removed)
    requires forall i :: 0 <= i < |deletes| ==> deletes[i] >= 0
    ensures FromDeletes(deletes, removed) == MovedDeletes(deletes, removed)
  {
    if |deletes| > 0 {
      var init, last := deletes[..|deletes| - 1], deletes[|deletes| - 1];
      FromDeletesMoves(init, removed);
      RebasedDistinct(deletes, removed);
      forall k | 0 <= k < |init| ensures MovedDeletes(init, removed)[k] != Rebased(removed, last) {
        assert deletes[k] == init[k];
      }
    }
  }

  lemma {:induction false} KeptAreUnresolved(updates: seq<Update>, resolved: seq<int>)
    requires DistinctInts(UpdateRows(updates))
    ensures DistinctInts(UpdateRows(KeptUpdates(updates, resolved)))
    ensures forall u :: u in KeptUpdates(updates, resolved) <==> u in updates && u.row !in resolved
  {
    if |updates| > 0 {
      var kept, rest := KeptUpdates(updates[1..], resolved), updates[1..];
      assert UpdateRows(rest) == UpdateRows(updates)[1..];
      KeptAreUnresolved(rest, resolved);
      assert updates == [updates[0]] + rest;
      forall k | 0 <= k < |kept| ensures kept[k].row != updates[0].row {
        assert kept[k] in rest;
        var m :| 0 <= m < |rest| && rest[m] == kept[k];
        assert UpdateRows(updates)[m + 1] == kept[k].row && UpdateRows(updates)[0] == updates[0].row;
      }
      if updates[0].row !in resolved {
        assert UpdateRows([updates[0]] + kept) == [updates[0].row] + UpdateRows(kept);
      } else {
        assert [] + kept == kept;
      }
    }
  }

  lemma {:induction false} KeptDeletesUnresolved(deletes: seq<int>, resolved: seq<int>)
    requires DistinctInts(deletes)
    ensures DistinctInts(KeptDeletes(deletes, resolved))
    ensures forall d :: d in KeptDeletes(deletes, resolved) <==> d in deletes && d !in resolved
  {
    if |deletes| > 0 {
      KeptDeletesUnresolved(deletes[1..], resolved);
      assert deletes == [deletes[0]] + deletes[1..];
    }
  }

  lemma {:induction false} GoneAreRows(conflicts: seq<Conflict>)
    ensures forall r :: r in Gone(conflicts) ==> r in ConflictRows(conflicts)
  {
    if |conflicts| > 0 {
      var init := conflicts[..|conflicts| - 1];
      GoneAreRows(init);
      assert ConflictRows(conflicts) == ConflictRows(init) + [conflicts[|conflicts| - 1].idx];
    }
  }

  /** The drafts a resolution keeps: those whose rows were not in conflict. */
  function Survivors(s: Sys, conflicts: seq<Conflict>): seq<Update> {
    KeptUpdates(s.edits.updates, ConflictRows(Valid(s.rows, conflicts)))
  }

  function SurvivingDeletes(s: Sys, conflicts: seq<Conflict>): seq<int> {
    KeptDeletes(s.edits.deletes, ConflictRows(Valid(s.rows, conflicts)))
  }

  /**
   * A resolution moves every surviving draft to where its row went: same drafts, same order,
   * none lost, none merged, each still on the database row it was made on.
   */
  lemma ResolutionKeepsDrafts(s: Sys, conflicts: seq<Conflict>)
    requires Inv(s) && DistinctNats(ConflictRows(conflicts))
    ensures var s', gone := Settled(s, conflicts), Gone(Valid(s.rows, conflicts));
      && s'.edits.updates == MovedUpdates(Survivors(s, conflicts), gone)
      && s'.edits.deletes == MovedDeletes(SurvivingDeletes(s, conflicts), gone)
    ensures var s', gone := Settled(s, conflicts), Gone(Valid(s.rows, conflicts));
      && |s'.rows| == |s.rows| - |gone|
      && (forall u :: u in Survivors(s, conflicts) ==>
            && 0 <= u.row < |s.rows| && 0 <= Rebased(gone, u.row) < |s'.rows|
            && s'.rows[Rebased(gone, u.row)].identity == s.rows[u.row].identity)
      && (forall d :: d in SurvivingDeletes(s, conflicts) ==>
            && 0 <= d < |s.rows| && 0 <= Rebased(gone, d) < |s'.rows|
            && s'.rows[Rebased(gone, d)].identity == s.rows[d].identity)
  {
    var valid := Valid(s.rows, conflicts);
    var gone, resolved := Gone(valid), ConflictRows(valid);
    ValidConflicts(s.rows, conflicts);
    GoneAreRows(valid);
    KeptAreUnresolved(s.edits.updates, resolved);
    KeptDeletesUnresolved(s.edits.deletes, resolved);
    var kept, deletes := Survivors(s, conflicts), SurvivingDeletes(s, conflicts);
    forall u | u in kept ensures 0 <= u.row < |s.rows| && u.row !in gone {
      var m :| 0 <= m < |s.edits.updates| && s.edits.updates[m] == u;
      assert UpdateRows(s.edits.updates)[m] == u.row;
    }
    forall d | d in deletes ensures 0 <= d < |s.rows| && d !in gone {
      var m :| 0 <= m < |s.edits.deletes| && s.edits.deletes[m] == d;
    }
    FromUpdatesMoves(kept, gone);
    FromDeletesMoves(deletes, gone);
    RemovalMovesRows(Refreshed(s.rows, valid), gone, 0);
    forall i | 0 <= i < |s.rows| && i !in gone
      ensures 0 <= Rebased(gone, i) < |s.rows| - |gone|
      ensures Settled(s, conflicts).rows[Rebased(gone, i)].identity == s.rows[i].identity
    {
      RemovalMovesRows(Refreshed(s.rows, valid), gone, i);
    }
  }

  lemma ResolutionKeepsInv(s: Sys, conflicts: seq<Conflict>)
    requires Inv(s) && DistinctNats(ConflictRows(conflicts))
    ensures Inv(Settled(s, conflicts))
  {
    var valid := Valid(s.rows, conflicts);
    var gone, resolved := Gone(valid), ConflictRows(valid);
    var kept, deletes := Survivors(s, conflicts), SurvivingDeletes(s, conflicts);
    ResolutionKeepsDrafts(s, conflicts);
    ValidConflicts(s.rows, conflicts);
    GoneAreRows(valid);
    KeptAreUnresolved(s.edits.updates, resolved);
    KeptDeletesUnresolved(s.edits.deletes, resolved);
    forall k | 0 <= k < |kept| ensures UpdateRows(kept)[k] >= 0 && UpdateRows(kept)[k] !in gone {
      assert kept[k] in kept;
    }
    forall k | 0 <= k < |deletes| ensures deletes[k] >= 0 && deletes[k] !in gone {
      assert deletes[k] in deletes;
    }
    RebasedDistinct(UpdateRows(kept), gone);
    RebasedDistinct(deletes, gone);
    var s' := Settled(s, conflicts);
    forall i | 0 <= i < |kept|
      ensures UpdateRows(s'.edits.updates)[i] == Rebased(gone, UpdateRows(kept)[i])
      ensures 0 <= UpdateRows(s'.edits.updates)[i] < |s'.rows|
    {
      assert kept[i] in kept;
    }
    forall i | 0 <= i < |deletes| ensures 0 <= s'.edits.deletes[i] < |s'.rows| {
      assert deletes[i] in deletes;
    }
  }

  lemma HeadTailDistinct(s: seq<int>)
    requires DistinctInts(s) && |s| > 0
    ensures DistinctInts(s[1..]) && s[0] !in s[1..]
  {
  }

  lemma ConsDistinct(x: int, s: seq<int>)
    requires DistinctInts(s) && x !in s
    ensures DistinctInts([x] + s)
  {
  }

  lemma RowsCons(u: Update, rest: seq<Update>)
    ensures UpdateRows([u] + rest) == [u.row] + UpdateRows(rest)
  {
  }

  lemma {:induction false} PutRows(updates: seq<Update>, row: int, cells: Cells)
    requires DistinctInts(UpdateRows(updates))
    ensures UpdateRows(Put(updates, row, cells)) ==
      if row in UpdateRows(updates) then UpdateRows(updates) else UpdateRows(updates) + [row]
  {
    hide UpdateRows, DistinctInts;
    if |updates| > 0 {
      var first, rest := updates[0], updates[1..];
      assert updates == [first] + rest;
      RowsCons(first, rest);
      HeadTailDistinct(UpdateRows(updates));
      assert UpdateRows(updates)[1..] == UpdateRows(rest);
      if first.row == row {
        RowsCons(Update(row, cells), rest);
      } else {
        PutRows(rest, row, cells);
        RowsCons(first, Put(rest, row, cells));
      }
    } else {
      NoRows();
      RowsCons(Update(row, cells), []);
      assert [Update(row, cells)] + [] == [Update(row, cells)];
    }
  }

  lemma NoRows()
    ensures UpdateRows([]) == []
  {
  }

  lemma {:induction false} DropRowRows(updates: seq<Update>, row: int)
    requires DistinctInts(UpdateRows(updates))
    ensures DistinctInts(UpdateRows(DropRow(updates, row)))
    ensures forall r :: r in UpdateRows(DropRow(updates, row)) ==> r in UpdateRows(updates)
  {
    if |updates| > 0 {
      var rest := updates[1..];
      assert UpdateRows(updates) == [updates[0].row] + UpdateRows(rest);
      assert UpdateRows(rest) == UpdateRows(updates)[1..];
      HeadTailDistinct(UpdateRows(updates));
      if updates[0].row != row {
        DropRowRows(rest, row);
        ConsDistinct(updates[0].row, UpdateRows(DropRow(rest, row)));
        assert UpdateRows([updates[0]] + DropRow(rest, row)) == [updates[0].row] + UpdateRows(DropRow(rest, row));
      }
    }
  }

  lemma {:induction false} WithoutKeeps(s: seq<int>, v: int)
    requires DistinctInts(s)
    ensures DistinctInts(Without(s, v))
    ensures forall x :: x in Without(s, v) ==> x in s
  {
    if |s| > 0 {
      HeadTailDistinct(s);
      assert s == [s[0]] + s[1..];
      if s[0] != v {
        WithoutKeeps(s[1..], v);
        ConsDistinct(s[0], Without(s[1..], v));
      }
    }
  }

  lemma {:induction false} PutNoneEmpty(updates: seq<Update>, row: int, cells: Cells)
    requires NoneEmpty(updates)
    ensures cells != map[] ==> NoneEmpty(Put(updates, row, cells))
    ensures NoneEmpty(DropRow(updates, row))
  {
    if |updates| > 0 && updates[0].row != row {
      assert updates == [updates[0]] + updates[1..];
      PutNoneEmpty(updates[1..], row, cells);
    }
  }

  lemma InRows(s: seq<int>, n: nat)
    requires forall x :: x in s ==> 0 <= x < n
    ensures OnGrid(s, n)
  {
    forall i | 0 <= i < |s| ensures 0 <= s[i] < n { assert s[i] in s; }
  }

  lemma SetCellKeepsInv(s: Sys, row: nat, column: string, draft: Option<Option<string>>)
    requires Inv(s) && row < |s.rows|
    ensures Inv(s.(edits := CellSet(s.edits, row, column, draft)))
  {
    hide Put, DropRow, CellsOf, DistinctInts, NoneEmpty, UpdateSizes, UpdateRows;
    var cells := if draft.None? then CellsOf(s.edits.updates, row) - {column}
                 else CellsOf(s.edits.updates, row)[column := draft.value];
    PutRows(s.edits.updates, row, cells);
    PutNoneEmpty(s.edits.updates, row, cells);
    DropRowRows(s.edits.updates, row);
    SnocDistinct(UpdateRows(s.edits.updates), row);
    InRows(UpdateRows(DropRow(s.edits.updates, row)), |s.rows|);
  }

  lemma SnocDistinct(s: seq<int>, x: int)
    requires DistinctInts(s)
    ensures x !in s ==> DistinctInts(s + [x])
  {
  }

  lemma ToggleKeepsInv(s: Sys, row: nat)
    requires Inv(s) && row < |s.rows|
    ensures Inv(s.(edits := DeleteToggled(s.edits, row)))
  {
    hide Without, DistinctInts, NoneEmpty, UpdateSizes, UpdateRows;
    WithoutKeeps(s.edits.deletes, row);
    SnocDistinct(s.edits.deletes, row);
    InRows(Without(s.edits.deletes, row), |s.rows|);
  }

  lemma StepKeepsInv(s: Sys, a: Action)
    requires Inv(s) && Enabled(s, a)
    ensures Inv(Step(s, a))
  {
    hide CellSet, DeleteToggled, Settled, DistinctInts, NoneEmpty, UpdateSizes, UpdateRows;
    match a
    case SetCell(row, column, draft) => SetCellKeepsInv(s, row, column, draft);
    case ToggleDelete(row) => ToggleKeepsInv(s, row);
    case AddInsert(draftId) =>
    case AppendPage(rows) =>
    case Lock(locked) =>
    case Resolve(conflicts) => ResolutionKeepsInv(s, conflicts);
  }

  /** After every run the drafts sit on grid rows, one per row and kind, and the count is right. */
  lemma {:induction false} RunKeepsInv(s: Sys, actions: seq<Action>)
    requires Inv(s)
    ensures Inv(Run(s, actions))
    decreases |actions|
  {
    if |actions| > 0 {
      if Enabled(s, actions[0]) {
        StepKeepsInv(s, actions[0]);
        RunKeepsInv(Step(s, actions[0]), actions[1..]);
      } else {
        RunKeepsInv(s, actions[1..]);
      }
    }
  }
}
