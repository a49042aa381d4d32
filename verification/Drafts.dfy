module Drafts {
  // Row-index drafts of editStore.ts and their rebase when conflicting rows leave the grid.

  import opened Wrappers
  import opened Sums

  /** One row's changed cells; None stands for SQL NULL. */
  type Cells = map<string, Option<string>>

  datatype Update = Update(row: int, cells: Cells)

  /** `updates` and `deletes` keep insertion order, as the source's Map and Set do. */
  datatype Snapshot = Snapshot(
    updates: seq<Update>, deletes: seq<int>, inserts: seq<string>, pendingCount: nat, locked: bool)

  const Empty: Snapshot := Snapshot([], [], [], 0, false)

  function UpdateSizes(updates: seq<Update>): seq<nat> {
    seq(|updates|, i requires 0 <= i < |updates| => |updates[i].cells|)
  }

  /** How many drafts there really are. */
  function Count(s: Snapshot): nat {
    SumSeq(UpdateSizes(s.updates)) + |s.deletes| + |s.inserts|
  }

  function Counted(s: Snapshot): Snapshot {
    s.(pendingCount := Count(s))
  }

  /** Map.set: an existing key keeps its place. */
  function Put(updates: seq<Update>, row: int, cells: Cells): seq<Update> {
    if |updates| == 0 then [Update(row, cells)]
    else if updates[0].row == row then [Update(row, cells)] + updates[1..]
    else [updates[0]] + Put(updates[1..], row, cells)
  }

  function DropRow(updates: seq<Update>, row: int): seq<Update> {
    if |updates| == 0 then []
    else if updates[0].row == row then updates[1..]
    else [updates[0]] + DropRow(updates[1..], row)
  }

  function CellsOf(updates: seq<Update>, row: int): Cells {
    if |updates| == 0 then map[]
    else if updates[0].row == row then updates[0].cells
    else CellsOf(updates[1..], row)
  }

  function CellSet(s: Snapshot, row: int, column: string, draft: Option<Option<string>>): Snapshot {
    if s.locked then s
    else
      var current := CellsOf(s.updates, row);
      var cells := if draft.None? then current - {column} else current[column := draft.value];
      Counted(s.(updates := if cells == map[] then DropRow(s.updates, row) else Put(s.updates, row, cells)))
  }

  function Without(s: seq<int>, v: int): seq<int> {
    if |s| == 0 then [] else if s[0] == v then s[1..] else [s[0]] + Without(s[1..], v)
  }

  function DeleteToggled(s: Snapshot, row: int): Snapshot {
    if s.locked then s
    else Counted(s.(deletes := if row in s.deletes then Without(s.deletes, row) else s.deletes + [row]))
  }

  /** removed.filter((r) => r < i).length */
  function CountBelow(removed: seq<nat>, i: int): nat {
    if |removed| == 0 then 0 else (if removed[0] < i then 1 else 0) + CountBelow(removed[1..], i)
  }

  /** Where a row index points once the removed rows are gone. */
  function Rebased(removed: seq<nat>, i: int): int {
    i - CountBelow(removed, i)
  }

  function KeptUpdates(updates: seq<Update>, resolved: seq<int>): seq<Update> {
    if |updates| == 0 then []
    else (if updates[0].row in resolved then [] else [updates[0]]) + KeptUpdates(updates[1..], resolved)
  }

  function KeptDeletes(deletes: seq<int>, resolved: seq<int>): seq<int> {
    if |deletes| == 0 then []
    else (if deletes[0] in resolved then [] else [deletes[0]]) + KeptDeletes(deletes[1..], resolved)
  }

  /** new Map(entries): entries set one after the other. */
  function FromUpdates(updates: seq<Update>, removed: seq<nat>): seq<Update> {
    if |updates| == 0 then []
    else
      var last := updates[|updates| - 1];
      Put(FromUpdates(updates[..|updates| - 1], removed), Rebased(removed, last.row), last.cells)
  }

  function FromDeletes(deletes: seq<int>, removed: seq<nat>): seq<int> {
    if |deletes| == 0 then []
    else
      var before := FromDeletes(deletes[..|deletes| - 1], removed);
      var row := Rebased(removed, deletes[|deletes| - 1]);
      if row in before then before else before + [row]
  }

  function Resolved(s: Snapshot, resolved: seq<int>, removed: seq<nat>): Snapshot {
    Counted(s.(updates := FromUpdates(KeptUpdates(s.updates, resolved), removed),
               deletes := FromDeletes(KeptDeletes(s.deletes, resolved), removed)))
  }

  /** The per-tab edit buffers. */
  class EditStore {
    var states: map<string, Snapshot>

    constructor ()
      ensures Valid() && states == map[]
    {
      states := map[];
    }

    /** The count shown is always the real number of drafts. */
    ghost predicate Valid()
      reads this
    {
      forall t :: t in states ==> states[t].pendingCount == Count(states[t])
    }

    function Get(tab: string): Snapshot
      reads this
    {
      if tab in states then states[tab] else Empty
    }

    method Commit(tab: string, next: Snapshot)
      requires Valid()
      modifies this
      ensures Valid() && states == old(states)[tab := Counted(next)]
    {
      states := states[tab := next.(pendingCount := Count(next))];
    }

    method SetCell(tab: string, row: int, column: string, draft: Option<Option<string>>)
      requires Valid()
      modifies this
      ensures Valid() && Get(tab) == CellSet(old(Get(tab)), row, column, draft)
      ensures forall t :: t != tab ==> Get(t) == old(Get(t))
    {
      var s := Get(tab);
      if s.locked { return; }
      var cells := CellsOf(s.updates, row);
      cells := if draft.None? then cells - {column} else cells[column := draft.value];
      Commit(tab, s.(updates := if cells == map[] then DropRow(s.updates, row) else Put(s.updates, row, cells)));
    }

    method ToggleDelete(tab: string, row: int)
      requires Valid()
      modifies this
      ensures Valid() && Get(tab) == DeleteToggled(old(Get(tab)), row)
      ensures forall t :: t != tab ==> Get(t) == old(Get(t))
    {
      var s := Get(tab);
      if s.locked { return; }
      Commit(tab, s.(deletes := if row in s.deletes then Without(s.deletes, row) else s.deletes + [row]));
    }

    method AddInsert(tab: string, draftId: string) returns (ok: bool)
      requires Valid()
      modifies this
      ensures Valid() && ok == !old(Get(tab)).locked
      ensures Get(tab) == if ok then Counted(old(Get(tab)).(inserts := old(Get(tab)).inserts + [draftId])) else old(Get(tab))
      ensures forall t :: t != tab ==> Get(t) == old(Get(t))
    {
      ok := !Get(tab).locked;
      if ok { Commit(tab, Get(tab).(inserts := Get(tab).inserts + [draftId])); }
    }

    /** Clears resolved drafts and moves the others to where their rows will be. */
    method ResolveRows(tab: string, resolved: seq<int>, removed: seq<nat>)
      requires Valid()
      modifies this
      ensures Valid() && Get(tab) == Resolved(old(Get(tab)), resolved, removed)
      ensures forall t :: t != tab ==> Get(t) == old(Get(t))
    {
      var s := Get(tab);
      var updates, deletes: seq<int> := FromUpdates(KeptUpdates(s.updates, resolved), removed), [];
      deletes := FromDeletes(KeptDeletes(s.deletes, resolved), removed);
      Commit(tab, s.(updates := updates, deletes := deletes));
    }
  }
}
