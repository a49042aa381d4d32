module EditCommit {
  // Preview order and the one-transaction commit of edit_service.rs, over a model table.

  import opened Wrappers
  import opened Sums
  import opened EditPlanner

  const MAX_BATCH_ROWS: nat := 500

  /** The changes of one kind, in the order they came. */
  function Only(changes: seq<Change>, op: Operation): seq<Change> {
    if |changes| == 0 then []
    else
      var last := changes[|changes| - 1];
      Only(changes[..|changes| - 1], op) + (if Kind(last) == op then [last] else [])
  }

  function Kind(c: Change): Operation {
    match c case Delete(_, _, _) => DeleteRow case Update(_, _, _, _) => UpdateRow case Insert(_, _) => InsertRow
  }

  /** Save order: deletes, then updates, then inserts. */
  function SaveOrder(changes: seq<Change>): seq<Change> {
    Only(changes, DeleteRow) + Only(changes, UpdateRow) + Only(changes, InsertRow)
  }

  ghost function PlansOf(changes: seq<Change>): seq<RowPlan> {
    seq(|changes|, i requires 0 <= i < |changes| => PlanOf(changes[i]))
  }

  predicate DistinctRows(changes: seq<Change>) {
    forall i, j :: 0 <= i < j < |changes| ==> changes[i].rowId != changes[j].rowId
  }

  /** A change joins exactly one of the three kinds. */
  lemma AddOne(c: Change, d: multiset<Change>, u: multiset<Change>, n: multiset<Change>)
    ensures d + u + n + multiset{c}
      == (d + if Kind(c) == DeleteRow then multiset{c} else multiset{})
       + (u + if Kind(c) == UpdateRow then multiset{c} else multiset{})
       + (n + if Kind(c) == InsertRow then multiset{c} else multiset{})
  {
  }

  lemma OnlySnoc(changes: seq<Change>, op: Operation)
    requires |changes| > 0
    ensures var init, last := changes[..|changes| - 1], changes[|changes| - 1];
      multiset(Only(changes, op)) == multiset(Only(init, op)) + (if Kind(last) == op then multiset{last} else multiset{})
  {
    hide Kind;
  }

  lemma SnocBag(changes: seq<Change>)
    requires |changes| > 0
    ensures multiset(changes) == multiset(changes[..|changes| - 1]) + multiset{changes[|changes| - 1]}
  {
    assert changes == changes[..|changes| - 1] + [changes[|changes| - 1]];
  }

  lemma {:induction false} OnlyPartitions(changes: seq<Change>)
    ensures multiset(changes) == multiset(Only(changes, DeleteRow))
      + multiset(Only(changes, UpdateRow)) + multiset(Only(changes, InsertRow))
    decreases |changes|
  {
    if |changes| > 0 {
      hide Only, Kind;
      var init, last := changes[..|changes| - 1], changes[|changes| - 1];
      OnlyPartitions(init);
      SnocBag(changes);
      OnlySnoc(changes, DeleteRow);
      OnlySnoc(changes, UpdateRow);
      OnlySnoc(changes, InsertRow);
      var d, u, n := multiset(Only(init, DeleteRow)), multiset(Only(init, UpdateRow)), multiset(Only(init, InsertRow));
      AddOne(last, d, u, n);
    }
  }

  /** Saving reorders the changes by kind and loses or repeats none. */
  lemma SaveOrderPermutes(changes: seq<Change>)
    ensures multiset(SaveOrder(changes)) == multiset(changes)
    ensures forall c :: c in SaveOrder(changes) <==> c in changes
  {
    OnlyPartitions(changes);
    forall c ensures c in SaveOrder(changes) <==> c in changes {
      assert c in SaveOrder(changes) <==> c in multiset(SaveOrder(changes));
      assert c in changes <==> c in multiset(changes);
    }
  }

  /** Of two changes of one kind, the earlier one is still saved first. */
  lemma {:induction false} OnlyKeepsOrder(changes: seq<Change>, i: nat, j: nat)
    requires i < j < |changes| && Kind(changes[i]) == Kind(changes[j])
    ensures StandsBefore(Only(changes, Kind(changes[i])), changes[i], changes[j])
  {
    var init, last, op := changes[..|changes| - 1], changes[|changes| - 1], Kind(changes[i]);
    var kept, more := Only(init, op), if Kind(last) == op then [last] else [];
    assert Only(changes, op) == kept + more;
    hide Only;
    if j < |init| {
      OnlyKeepsOrder(init, i, j);
      StandsBeforeStays(kept, more, changes[i], changes[j]);
    } else {
      OnlyHas(init, i);
      var a :| 0 <= a < |kept| && kept[a] == init[i];
      assert (kept + more)[a] == changes[i] && (kept + more)[|kept|] == changes[j];
    }
  }

  lemma {:induction false} OnlyOne(changes: seq<Change>, op: Operation)
    ensures forall c :: c in Only(changes, op) ==> Kind(c) == op
  {
    if changes != [] { OnlyOne(changes[..|changes| - 1], op); }
  }

  /** In save order no delete comes after an update or insert, and no insert before an update or delete. */
  lemma SaveOrderSorts(changes: seq<Change>, i: nat, j: nat)
    requires i < j < |SaveOrder(changes)|
    ensures var order := SaveOrder(changes);
      (order[j].Delete? ==> order[i].Delete?) && (order[i].Insert? ==> order[j].Insert?)
  {
    OnlyOne(changes, DeleteRow);
    OnlyOne(changes, UpdateRow);
    OnlyOne(changes, InsertRow);
    hide Only;
    var d, u, n := Only(changes, DeleteRow), Only(changes, UpdateRow), Only(changes, InsertRow);
    InOneOfThree(d, u, n, i);
    InOneOfThree(d, u, n, j);
  }

  lemma InOneOfThree(d: seq<Change>, u: seq<Change>, n: seq<Change>, i: nat)
    requires i < |d + u + n|
    ensures if i < |d| then (d + u + n)[i] in d else if i < |d| + |u| then (d + u + n)[i] in u else (d + u + n)[i] in n
  {
  }

  ghost predicate StandsBefore(kept: seq<Change>, x: Change, y: Change) {
    exists a, b :: 0 <= a < b < |kept| && kept[a] == x && kept[b] == y
  }

  lemma StandsBeforeStays(kept: seq<Change>, more: seq<Change>, x: Change, y: Change)
    requires StandsBefore(kept, x, y)
    ensures StandsBefore(kept + more, x, y)
  {
    var a, b :| 0 <= a < b < |kept| && kept[a] == x && kept[b] == y;
    assert (kept + more)[a] == x && (kept + more)[b] == y;
  }

  lemma {:induction false} OnlyHas(changes: seq<Change>, i: nat)
    requires i < |changes|
    ensures exists a :: 0 <= a < |Only(changes, Kind(changes[i]))| && Only(changes, Kind(changes[i]))[a] == changes[i]
  {
    var init, op := changes[..|changes| - 1], Kind(changes[i]);
    if i < |init| {
      OnlyHas(init, i);
      var a :| 0 <= a < |Only(init, op)| && Only(init, op)[a] == init[i];
      assert Only(changes, op)[a] == changes[i];
    } else {
      assert Only(changes, op)[|Only(init, op)|] == changes[i];
    }
  }

  lemma PlansAppend(a: seq<Change>, b: seq<Change>)
    ensures PlansOf(a + b) == PlansOf(a) + PlansOf(b)
  {
    hide PlanOf;
  }

  method PlanOne(meta: TableMeta, c: Change) returns (r: Result<RowPlan, PlanError>)
    ensures r.Ok? <==> Accepts(meta, c)
    ensures r.Ok? ==> r.value == PlanOf(c)
  {
    match c {
      case Delete(_, _, _) => r := PlanDelete(meta, c);
      case Update(_, _, _, _) => r := PlanUpdate(meta, c);
      case Insert(_, _) => r := PlanInsert(meta, c);
    }
  }

  ghost predicate KindAccepted(meta: TableMeta, changes: seq<Change>, op: Operation) {
    forall i :: 0 <= i < |changes| && Kind(changes[i]) == op ==> Accepts(meta, changes[i])
  }

  lemma NothingPlanned(meta: TableMeta, changes: seq<Change>, op: Operation)
    ensures changes[..0] == [] && Only(changes[..0], op) == [] && KindAccepted(meta, changes[..0], op)
    ensures PlansOf([]) == []
  {
  }

  /** What one more change adds to a pass. */
  lemma PassNext(meta: TableMeta, changes: seq<Change>, op: Operation, i: nat)
    requires i < |changes|
    ensures var c := changes[i];
      && Only(changes[..i + 1], op) == Only(changes[..i], op) + (if Kind(c) == op then [c] else [])
      && (KindAccepted(meta, changes[..i + 1], op)
          <==> KindAccepted(meta, changes[..i], op) && (Kind(c) == op ==> Accepts(meta, c)))
      && (Kind(c) == op && !Accepts(meta, c) ==> !KindAccepted(meta, changes, op))
  {
    hide Accepts;
    assert changes[..i + 1] == changes[..i] + [changes[i]];
    assert changes[..i + 1][..i] == changes[..i];
  }

  /** One pass of the preview: the plans of one kind, after those planned already. */
  method PlanKind(meta: TableMeta, changes: seq<Change>, op: Operation, plans: seq<RowPlan>)
    returns (r: Result<seq<RowPlan>, PlanError>)
    ensures r.Ok? <==> KindAccepted(meta, changes, op)
    ensures r.Ok? ==> r.value == plans + PlansOf(Only(changes, op))
  {
    hide PlanOf, Accepts, Only, KindAccepted;
    var out := plans;
    var i := 0;
    NothingPlanned(meta, changes, op);
    assert plans + [] == plans;
    while i < |changes|
      invariant 0 <= i <= |changes|
      invariant KindAccepted(meta, changes[..i], op)
      invariant out == plans + PlansOf(Only(changes[..i], op))
    {
      PassNext(meta, changes, op, i);
      if Kind(changes[i]) == op {
        var plan := PlanOne(meta, changes[i]);
        if plan.Err? {
          return Err(plan.error);
        }
        PlansAppend(Only(changes[..i], op), [changes[i]]);
        assert PlansOf([changes[i]]) == [plan.value];
        out := out + [plan.value];
      }
      i := i + 1;
    }
    assert changes[..i] == changes;
    r := Ok(out);
  }

  const VERSION_COLUMN := "__dbpod_xmin"
  const MAX_PREVIEWS: nat := 32
  const MAX_PREVIEW_BYTES: nat := 5 * 1024 * 1024
  const MAX_ALL_PREVIEW_BYTES: nat := 50 * 1024 * 1024

  /** What surrounds a preview: the connection, the relation, and the result the rows came from. */
  datatype Surroundings = Surroundings(
    connected: bool, readOnly: bool, baseTable: bool, resultHeld: bool, sameConnection: bool, queryRunning: bool)

  /** The first reason to refuse a preview whatever it changes. */
  function Obstacle(around: Surroundings, meta: TableMeta): Option<PlanError> {
    if !around.connected then Some(UnknownConnection)
    else if around.readOnly then Some(ReadOnly)
    else if !around.baseTable then Some(NotABaseTable)
    else if meta.primaryKey == [] then Some(NoPrimaryKey)
    else if exists i :: 0 <= i < |meta.columns| && meta.columns[i].name == VERSION_COLUMN then Some(ReservedColumn)
    else if !around.resultHeld then Some(ResultReleased)
    else if !around.sameConnection then Some(OtherConnection)
    else if around.queryRunning then Some(QueryRunning)
    else None
  }

  /** Room for one more preview of `bytes` beside those still pending. */
  predicate RoomFor(pending: seq<nat>, bytes: nat) {
    |pending| < MAX_PREVIEWS && bytes <= MAX_PREVIEW_BYTES && SumSeq(pending) + bytes <= MAX_ALL_PREVIEW_BYTES
  }

  predicate BatchOk(changes: seq<Change>) {
    0 < |changes| <= MAX_BATCH_ROWS && DistinctRows(changes)
  }

  ghost predicate AllAccepted(meta: TableMeta, changes: seq<Change>) {
    forall i :: 0 <= i < |changes| ==> Accepts(meta, changes[i])
  }

  /** What a change set must be and where it must come from, for plans of `size` bytes. */
  ghost predicate Previewable(around: Surroundings, meta: TableMeta, changes: seq<Change>, pending: seq<nat>, size: nat) {
    && 0 < |changes| <= 500 && (forall i, j :: 0 <= i < j < |changes| ==> changes[i].rowId != changes[j].rowId)
    && around.connected && !around.readOnly && around.baseTable && meta.primaryKey != []
    && (forall i :: 0 <= i < |meta.columns| ==> meta.columns[i].name != "__dbpod_xmin")
    && around.resultHeld && around.sameConnection && !around.queryRunning
    && |pending| < 32 && size <= 5_242_880 && SumSeq(pending) + size <= 52_428_800
  }

  lemma PreviewableIff(around: Surroundings, meta: TableMeta, changes: seq<Change>, pending: seq<nat>, size: nat)
    ensures Previewable(around, meta, changes, pending, size) <==>
      BatchOk(changes) && Obstacle(around, meta).None? && RoomFor(pending, size)
  {
  }

  /** Three passes: deletes, updates, inserts. */
  method PlanAll(meta: TableMeta, changes: seq<Change>) returns (r: Result<seq<RowPlan>, PlanError>)
    ensures r.Ok? <==> AllAccepted(meta, changes)
    ensures r.Ok? ==> r.value == PlansOf(SaveOrder(changes))
  {
    hide PlanOf, Accepts, PlansOf, Only, KindAccepted, AllAccepted, SaveOrder;
    KindsCover(meta, changes);
    r := PlanKind(meta, changes, DeleteRow, []);
    if r.Err? { return; }
    r := PlanKind(meta, changes, UpdateRow, r.value);
    if r.Err? { return; }
    r := PlanKind(meta, changes, InsertRow, r.value);
    if r.Err? { return; }
    PlansAppend(Only(changes, DeleteRow), Only(changes, UpdateRow));
    PlansAppend(Only(changes, DeleteRow) + Only(changes, UpdateRow), Only(changes, InsertRow));
    SavesInThree(changes);
  }

  /**
   * Plans a whole change set, or rejects it as one. `pending` are the sizes of the previews not
   * yet expired, and `weigh` the size of plans, their SQL text and their parameters.
   */
  method Preview(around: Surroundings, meta: TableMeta, changes: seq<Change>, pending: seq<nat>,
                 weigh: seq<RowPlan> -> nat)
    returns (r: Result<seq<RowPlan>, PlanError>)
    ensures r.Ok? <==>
      && Previewable(around, meta, changes, pending, weigh(PlansOf(SaveOrder(changes))))
      && forall i :: 0 <= i < |changes| ==> Accepts(meta, changes[i])
    ensures r.Ok? ==> r.value == PlansOf(SaveOrder(changes))
    ensures changes == [] ==> r == Err(NoChanges)
    ensures |changes| > 500 ==> r == Err(TooManyChanges)
    ensures 0 < |changes| <= 500 && !BatchOk(changes) ==> r == Err(DuplicateRow)
    ensures BatchOk(changes) && Obstacle(around, meta).Some? ==> r == Err(Obstacle(around, meta).value)
    ensures BatchOk(changes) && Obstacle(around, meta).None? && AllAccepted(meta, changes) && r.Err? ==>
      r.error == PreviewsTooLarge
  {
    PreviewableIff(around, meta, changes, pending, weigh(PlansOf(SaveOrder(changes))));
    assert AllAccepted(meta, changes) <==> forall i :: 0 <= i < |changes| ==> Accepts(meta, changes[i]);
    hide PlanOf, Accepts, PlansOf, Only, KindAccepted, AllAccepted, DistinctRows, Obstacle, Previewable, SaveOrder;
    if changes == [] {
      return Err(NoChanges);
    }
    if |changes| > MAX_BATCH_ROWS {
      return Err(TooManyChanges);
    }
    if !DistinctRows(changes) {
      return Err(DuplicateRow);
    }
    var obstacle := Obstacle(around, meta);
    if obstacle.Some? {
      return Err(obstacle.value);
    }
    r := PlanAll(meta, changes);
    if r.Err? { return; }
    if !RoomFor(pending, weigh(r.value)) {
      return Err(PreviewsTooLarge);
    }
  }

  lemma SavesInThree(changes: seq<Change>)
    ensures SaveOrder(changes) == Only(changes, DeleteRow) + Only(changes, UpdateRow) + Only(changes, InsertRow)
  {
  }

  lemma KindsCover(meta: TableMeta, changes: seq<Change>)
    ensures AllAccepted(meta, changes) <==>
      KindAccepted(meta, changes, DeleteRow) && KindAccepted(meta, changes, UpdateRow)
      && KindAccepted(meta, changes, InsertRow)
  {
  }

  /** Every plan's placeholders are $1 to $n in order, one for each parameter. */
  lemma PlaceholdersInOrder(c: Change)
    ensures var p := PlanOf(c);
      && p.rowId == c.rowId && p.operation == (if c.Delete? then DeleteRow else if c.Update? then UpdateRow else InsertRow)
      && |p.sets + p.where| == |p.params|
      && (forall k :: 0 <= k < |p.params| ==> (p.sets + p.where)[k].number == k + 1)
      && (p.lookup.Some? ==>
            && |p.lookup.value.0| == |p.lookup.value.1|
            && forall k :: 0 <= k < |p.lookup.value.0| ==> p.lookup.value.0[k].number == k + 1)
  {
  }

  // ---- the table the statements run against ----

  datatype TableRow = TableRow(cells: map<string, Bind>, version: string)

  /** Rows under their physical identity. */
  type Table = map<nat, TableRow>

  predicate Catalog(meta: TableMeta) {
    && (forall i, j :: 0 <= i < j < |meta.columns| ==>
          meta.columns[i].name != meta.columns[j].name && meta.columns[i].attribute != meta.columns[j].attribute)
    && forall k :: 0 <= k < |meta.primaryKey| ==>
         exists i :: 0 <= i < |meta.columns| && meta.columns[i].attribute == meta.primaryKey[k]
  }

  /** Two rows that agree on every key column. */
  predicate SameKey(meta: TableMeta, a: TableRow, b: TableRow) {
    forall i :: 0 <= i < |meta.columns| && meta.columns[i].attribute in meta.primaryKey ==>
      var n := meta.columns[i].name;
      n in a.cells && n in b.cells && a.cells[n] == b.cells[n]
  }

  predicate TableOk(meta: TableMeta, t: Table) {
    forall i, j :: i in t && j in t && SameKey(meta, t[i], t[j]) ==> i == j
  }

  function BindAt(params: seq<Bind>, number: nat): Bind {
    if 1 <= number <= |params| then params[number - 1] else Text(None)
  }

  /** SQL truth of one condition; an equality with NULL is never true. */
  predicate Holds(s: Slot, params: seq<Bind>, row: TableRow) {
    var b := BindAt(params, s.number);
    match s.term
    case KeyEquals(column) => column in row.cells && row.cells[column] == b && b != Text(None)
    case VersionEquals => b == Text(Some(row.version))
    case SameAsShown(column) => column in row.cells && row.cells[column] == b
    case Assign(_) => true
  }

  predicate AllHold(where: seq<Slot>, params: seq<Bind>, row: TableRow) {
    forall k :: 0 <= k < |where| ==> Holds(where[k], params, row)
  }

  function Matches(t: Table, p: RowPlan): set<nat> {
    set id | id in t && AllHold(p.where, p.params, t[id])
  }

  function Assigned(cells: map<string, Bind>, sets: seq<Slot>, params: seq<Bind>): map<string, Bind> {
    if |sets| == 0 then cells
    else
      var last := sets[|sets| - 1];
      var before := Assigned(cells, sets[..|sets| - 1], params);
      if last.term.Assign? then before[last.term.column := BindAt(params, last.number)] else before
  }

  /** What the server decides: statement errors, new rows, result decoding, and COMMIT itself. */
  datatype Server = Server(
    xid: string, rejects: nat -> bool, newId: nat -> nat, defaults: nat -> map<string, Bind>, decodes: nat -> bool)

  datatype Executed = Rejected | Affected(count: nat, table: Table)

  function AfterDelete(t: Table, hit: set<nat>): Table {
    t - hit
  }

  function AfterUpdate(t: Table, p: RowPlan, xid: string): Table {
    map id | id in t ::
      if id in Matches(t, p) then TableRow(Assigned(t[id].cells, p.sets, p.params), xid) else t[id]
  }

  function AfterInsert(t: Table, p: RowPlan, id: nat, defaults: map<string, Bind>, xid: string): Table {
    t[id := TableRow(Assigned(defaults, p.sets, p.params), xid)]
  }

  /** Statement `i` against the table: rejected by the server or by the unique key, or its row count. */
  function Exec(meta: TableMeta, server: Server, i: nat, p: RowPlan, t: Table): Executed {
    if server.rejects(i) then Rejected
    else
      var hit := Matches(t, p);
      match p.operation
      case DeleteRow => Affected(|hit|, AfterDelete(t, hit))
      case UpdateRow =>
        var t' := AfterUpdate(t, p, server.xid);
        if TableOk(meta, t') then Affected(|hit|, t') else Rejected
      case InsertRow =>
        var t' := AfterInsert(t, p, server.newId(i), server.defaults(i), server.xid);
        if TableOk(meta, t') then Affected(1, t') else Rejected
  }

  /** Plans made from accepted changes of this table. */
  ghost predicate Planned(meta: TableMeta, changes: seq<Change>, plans: seq<RowPlan>) {
    plans == PlansOf(changes) && AllAccepted(meta, changes)
  }

  lemma KeyConditionAgrees(c: Change, k: nat, a: TableRow, b: TableRow)
    requires !c.Insert? && k < |c.identity.key|
    requires AllHold(PlanOf(c).where, PlanOf(c).params, a) && AllHold(PlanOf(c).where, PlanOf(c).params, b)
    ensures var n := c.identity.key[k].column;
      n in a.cells && n in b.cells && a.cells[n] == b.cells[n]
  {
    hide SetBounds, LockBounds, BindOf;
    var p := PlanOf(c);
    assert p.where[k] == Slot(KeyEquals(c.identity.key[k].column), |SetBounds(c)| + 1 + k);
    assert Holds(p.where[k], p.params, a) && Holds(p.where[k], p.params, b);
  }

  /** The WHERE pins every key column, so no two rows can match. */
  lemma WherePinsKey(meta: TableMeta, c: Change, a: TableRow, b: TableRow)
    requires Catalog(meta) && Accepts(meta, c) && !c.Insert?
    requires AllHold(PlanOf(c).where, PlanOf(c).params, a) && AllHold(PlanOf(c).where, PlanOf(c).params, b)
    ensures SameKey(meta, a, b)
  {
    hide PlanOf, AllHold;
    var key := c.identity.key;
    forall i | 0 <= i < |meta.columns| && meta.columns[i].attribute in meta.primaryKey
      ensures var n := meta.columns[i].name;
        n in a.cells && n in b.cells && a.cells[n] == b.cells[n]
    {
      var attribute := meta.columns[i].attribute;
      assert attribute in multiset(meta.primaryKey);
      assert attribute in Attributes(key);
      var k :| 0 <= k < |key| && key[k].attribute == attribute;
      FoundByAttribute(meta, key[k], i);
      KeyConditionAgrees(c, k, a, b);
    }
  }

  lemma {:induction false} FindIsColumn(columns: seq<Column>, name: string)
    requires Find(columns, name).Some?
    ensures exists i :: 0 <= i < |columns| && columns[i] == Find(columns, name).value && columns[i].name == name
  {
    if columns[0].name == name {
      assert columns[0] == Find(columns, name).value;
    } else {
      FindIsColumn(columns[1..], name);
      var j :| 0 <= j < |columns[1..]| && columns[1..][j] == Find(columns, name).value && columns[1..][j].name == name;
      assert columns[j + 1] == columns[1..][j];
    }
  }

  lemma FoundByAttribute(meta: TableMeta, k: KeyValue, i: nat)
    requires Catalog(meta) && KeyUsable(meta, k) && i < |meta.columns|
    requires meta.columns[i].attribute == k.attribute
    ensures meta.columns[i].name == k.column
  {
    FindIsColumn(meta.columns, k.column);
  }

  /** An update or delete plan affects at most one row of a table with a unique key. */
  lemma AtMostOneMatch(meta: TableMeta, c: Change, t: Table)
    requires Catalog(meta) && Accepts(meta, c) && !c.Insert? && TableOk(meta, t)
    ensures |Matches(t, PlanOf(c))| <= 1
    ensures forall i, j :: i in Matches(t, PlanOf(c)) && j in Matches(t, PlanOf(c)) ==> i == j
  {
    hide Accepts, Catalog, SameKey, PlanOf, AllHold;
    var hit := Matches(t, PlanOf(c));
    forall i, j | i in hit && j in hit ensures i == j {
      WherePinsKey(meta, c, t[i], t[j]);
    }
    if hit != {} {
      var i :| i in hit;
      assert hit == {i};
    }
  }

  lemma DeleteKeepsKey(meta: TableMeta, t: Table, hit: set<nat>)
    requires TableOk(meta, t)
    ensures TableOk(meta, AfterDelete(t, hit))
  {
  }

  /** Each statement that ran left a table with a unique key, and never touched two rows. */
  lemma ExecBounds(meta: TableMeta, server: Server, i: nat, c: Change, t: Table)
    requires Catalog(meta) && Accepts(meta, c) && TableOk(meta, t)
    ensures var e := Exec(meta, server, i, PlanOf(c), t);
      e.Affected? ==> e.count <= 1 && TableOk(meta, e.table)
  {
    if !c.Insert? { AtMostOneMatch(meta, c, t); }
    DeleteKeepsKey(meta, t, Matches(t, PlanOf(c)));
  }

  datatype Failure = ServerError | SafetyViolation | BudgetExceeded | OutcomeUnknown

  datatype Event = Completed(rowIds: seq<string>) | Conflict(rowId: string) | Failed(why: Failure)

  /** How COMMIT ends: acknowledged, refused by the server, or the answer was lost either way. */
  datatype CommitReply = Acked | Refused | Lost(applied: bool)

  /** Tables before each statement and after the last one, when every statement hit one row. */
  ghost predicate Trace(meta: TableMeta, server: Server, plans: seq<RowPlan>, tables: seq<Table>) {
    && 1 <= |tables| <= |plans| + 1
    && forall i :: 0 <= i < |tables| - 1 ==>
         Exec(meta, server, i, plans[i], tables[i]) == Affected(1, tables[i + 1])
  }

  function RowIds(plans: seq<RowPlan>): seq<string> {
    seq(|plans|, i requires 0 <= i < |plans| => plans[i].rowId)
  }

  /** A statement that never touches two rows and keeps the key unique. */
  ghost predicate SafeStatement(meta: TableMeta, server: Server, i: nat, p: RowPlan) {
    forall t :: TableOk(meta, t) ==>
      var e := Exec(meta, server, i, p, t);
      e.Affected? ==> e.count <= 1 && TableOk(meta, e.table)
  }

  lemma PlannedAreSafe(meta: TableMeta, changes: seq<Change>, plans: seq<RowPlan>, server: Server)
    requires Catalog(meta) && Planned(meta, changes, plans)
    ensures forall i :: 0 <= i < |plans| ==> SafeStatement(meta, server, i, plans[i])
  {
    forall i, t | 0 <= i < |plans| && TableOk(meta, t)
      ensures var e := Exec(meta, server, i, plans[i], t);
        e.Affected? ==> e.count <= 1 && TableOk(meta, e.table)
    {
      ExecBounds(meta, server, i, changes[i], t);
    }
  }

  lemma TraceSnoc(meta: TableMeta, server: Server, plans: seq<RowPlan>, tables: seq<Table>, next: Table)
    requires Trace(meta, server, plans, tables) && |tables| <= |plans|
    requires Exec(meta, server, |tables| - 1, plans[|tables| - 1], tables[|tables| - 1]) == Affected(1, next)
    ensures Trace(meta, server, plans, tables + [next])
  {
  }

  /** Statement `i` had its answer in time, and the row it read back fitted. */
  predicate GoesOn(server: Server, plans: seq<RowPlan>, deadline: Option<nat>, i: nat)
    requires i < |plans|
  {
    deadline != Some(i) && (plans[i].operation == DeleteRow || server.decodes(i))
  }

  /** The statement after the trace is why it stopped: no answer, an error, no row, or a row too large. */
  ghost predicate Stops(meta: TableMeta, server: Server, plans: seq<RowPlan>, deadline: Option<nat>,
                        tables: seq<Table>, event: Event)
    requires 1 <= |tables| <= |plans|
  {
    var i := |tables| - 1;
    var e := Exec(meta, server, i, plans[i], tables[i]);
    if deadline == Some(i) then event == Failed(OutcomeUnknown)
    else if e.Rejected? then event == Failed(ServerError)
    else if e.count == 0 then event == Conflict(plans[i].rowId)
    else plans[i].operation != DeleteRow && !server.decodes(i) && event == Failed(BudgetExceeded)
  }

  /**
   * Applies a change set in one transaction. `tables` is the history the transaction saw;
   * `after` is what the database holds when the event is sent. The deadline may pass before
   * statement `deadline` has answered; while COMMIT runs, its answer is lost.
   */
  method Commit(meta: TableMeta, ghost changes: seq<Change>, plans: seq<RowPlan>, before: Table,
                server: Server, reply: CommitReply, deadline: Option<nat>)
    returns (event: Event, after: Table, ghost tables: seq<Table>)
    requires Catalog(meta) && TableOk(meta, before) && Planned(meta, changes, plans)
    ensures Trace(meta, server, plans, tables) && tables[0] == before
    ensures event != Failed(SafetyViolation)
    ensures event.Completed? ==>
      |tables| == |plans| + 1 && after == tables[|plans|] && event.rowIds == RowIds(plans)
    ensures event == Failed(OutcomeUnknown) ==>
      after == before || (|tables| == |plans| + 1 && after == tables[|plans|])
    ensures !event.Completed? && event != Failed(OutcomeUnknown) ==> after == before
    ensures event.Conflict? ==> |tables| <= |plans| && Missed(meta, server, plans, tables)
    ensures forall i :: 0 <= i < |tables| - 1 ==> GoesOn(server, plans, deadline, i)
    ensures |tables| <= |plans| ==> Stops(meta, server, plans, deadline, tables, event)
    ensures |tables| == |plans| + 1 ==>
      && (event.Completed? <==> reply.Acked?)
      && (reply.Refused? ==> event == Failed(ServerError))
      && (reply.Lost? ==> event == Failed(OutcomeUnknown) && after == if reply.applied then tables[|plans|] else before)
  {
    hide Planned, Exec, TableOk;
    PlannedAreSafe(meta, changes, plans, server);
    tables := [before];
    var work := before;
    var updated: seq<string> := [];
    var i := 0;
    while i < |plans|
      invariant 0 <= i <= |plans| && |tables| == i + 1
      invariant Trace(meta, server, plans, tables) && tables[0] == before && tables[i] == work
      invariant TableOk(meta, work)
      invariant updated == RowIds(plans[..i])
      invariant forall j :: 0 <= j < i ==> GoesOn(server, plans, deadline, j)
    {
      if deadline == Some(i) {
        return Failed(OutcomeUnknown), before, tables;
      }
      assert SafeStatement(meta, server, i, plans[i]);
      var result := Exec(meta, server, i, plans[i], work);
      if result.Rejected? {
        return Failed(ServerError), before, tables;
      }
      if result.count == 0 {
        return Conflict(plans[i].rowId), before, tables;
      }
      if result.count != 1 {
        return Failed(SafetyViolation), before, tables;
      }
      if plans[i].operation != DeleteRow && !server.decodes(i) {
        return Failed(BudgetExceeded), before, tables;
      }
      assert RowIds(plans[..i + 1]) == RowIds(plans[..i]) + [plans[i].rowId];
      updated := updated + [plans[i].rowId];
      TraceSnoc(meta, server, plans, tables, result.table);
      tables := tables + [result.table];
      work := result.table;
      i := i + 1;
    }
    assert plans[..i] == plans;
    match reply {
      case Acked => return Completed(updated), work, tables;
      case Refused => return Failed(ServerError), before, tables;
      case Lost(applied) => return Failed(OutcomeUnknown), if applied then work else before, tables;
    }
  }

  /** The statement after the trace ran and found no row. */
  ghost predicate Missed(meta: TableMeta, server: Server, plans: seq<RowPlan>, tables: seq<Table>)
    requires 1 <= |tables| <= |plans|
  {
    var i := |tables| - 1;
    Exec(meta, server, i, plans[i], tables[i]).Affected? && Exec(meta, server, i, plans[i], tables[i]).count == 0
  }
}
