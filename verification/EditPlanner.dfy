module EditPlanner {
  // The optimistic-lock planner of edit_service.rs, with statements kept as terms instead of text.

  import opened Wrappers
  import opened Names

  datatype Inline = TooLarge | BadBase64 | Bytes(value: seq<nat>)

  datatype DbValue = Null | Boolean(b: bool) | Binary(inline: Inline) | Array | Scalar(text: string)

  datatype Bind = Text(text: Option<string>) | Bytea(value: seq<nat>)

  datatype PlanError =
    | RelationMismatch | KeyNotCovered | KeyColumnMismatch | UnknownColumn | GeneratedColumn
    | NotEditable | NoVersion | EmptyUpdate | DuplicateRow | NoChanges | TooManyChanges
    | UnknownConnection | ReadOnly | NotABaseTable | NoPrimaryKey | ReservedColumn | ResultReleased
    | OtherConnection | QueryRunning | PreviewsTooLarge

  datatype Column = Column(name: string, attribute: int, generated: bool)

  datatype TableMeta = TableMeta(relationOid: nat, primaryKey: seq<int>, columns: seq<Column>)

  datatype KeyValue = KeyValue(attribute: int, column: string, value: DbValue)

  datatype Identity = Identity(relationOid: nat, key: seq<KeyValue>, xmin: Option<string>)

  datatype InsertCell = Value(value: DbValue) | NullCell | Default

  datatype Change =
    | Update(rowId: string, identity: Identity, originals: map<string, DbValue>, changes: map<string, DbValue>)
    | Insert(rowId: string, values: map<string, InsertCell>)
    | Delete(rowId: string, identity: Identity, originals: map<string, DbValue>)

  /** One place of a statement that takes a parameter. */
  datatype Term =
    | Assign(column: string)       // SET column = $n, or column and $n of an INSERT
    | KeyEquals(column: string)    // column = $n
    | VersionEquals                // xmin::text = $n
    | SameAsShown(column: string)  // column IS NOT DISTINCT FROM $n

  /** A term and the number of its placeholder. */
  datatype Slot = Slot(term: Term, number: nat)

  datatype Operation = DeleteRow | UpdateRow | InsertRow

  /** `lookup` holds the key conditions alone, for the re-read after a conflict. */
  datatype RowPlan = RowPlan(
    rowId: string, operation: Operation, sets: seq<Slot>, where: seq<Slot>, params: seq<Bind>,
    lookup: Option<(seq<Slot>, seq<Bind>)>)

  function ToBind(v: DbValue): Result<Bind, PlanError> {
    match v
    case Null => Ok(Text(None))
    case Boolean(b) => Ok(Text(Some(if b then "true" else "false")))
    case Binary(Bytes(value)) => Ok(Bytea(value))
    case Binary(_) => Err(NotEditable)
    case Array => Err(NotEditable)
    case Scalar(text) => Ok(Text(Some(text)))
  }

  function Find(columns: seq<Column>, name: string): Option<Column> {
    if |columns| == 0 then None
    else if columns[0].name == name then Some(columns[0])
    else Find(columns[1..], name)
  }

  /** A term with the value bound to its placeholder. */
  datatype Bound = Bound(term: Term, bind: Bind)

  /** Placeholders are handed out in the order the statement mentions them. */
  function Number(bounds: seq<Bound>, from: nat): seq<Slot> {
    seq(|bounds|, i requires 0 <= i < |bounds| => Slot(bounds[i].term, from + i))
  }

  function Binds(bounds: seq<Bound>): seq<Bind> {
    seq(|bounds|, i requires 0 <= i < |bounds| => bounds[i].bind)
  }

  predicate KeyUsable(meta: TableMeta, k: KeyValue) {
    var c := Find(meta.columns, k.column);
    c.Some? && c.value.attribute == k.attribute && ToBind(k.value).Ok?
  }

  predicate KeysUsable(meta: TableMeta, key: seq<KeyValue>) {
    forall i :: 0 <= i < |key| ==> KeyUsable(meta, key[i])
  }

  predicate Usable(meta: TableMeta, name: string, v: DbValue) {
    Find(meta.columns, name).Some? && ToBind(v).Ok?
  }

  /** The bind of a value a plan was accepted with. */
  function BindOf(v: DbValue): Bind {
    if ToBind(v).Ok? then ToBind(v).value else Text(None)
  }

  function ValueAt(values: map<string, DbValue>, name: string): DbValue {
    if name in values then values[name] else Null
  }

  /** The key conditions: one equality per key column of the identity, in its order. */
  function KeyBounds(key: seq<KeyValue>): seq<Bound> {
    seq(|key|, i requires 0 <= i < |key| => Bound(KeyEquals(key[i].column), BindOf(key[i].value)))
  }

  predicate IsKeyName(key: seq<KeyValue>, name: string) {
    exists i :: 0 <= i < |key| && key[i].column == name
  }

  /** The displayed originals that can serve as a lock: everything shown outside the key. */
  function ShownNames(key: seq<KeyValue>, names: seq<string>): (shown: seq<string>)
    ensures forall n :: n in shown <==> n in names && !IsKeyName(key, n)
  {
    if |names| == 0 then []
    else
      var last := names[|names| - 1];
      assert names == names[..|names| - 1] + [last];
      ShownNames(key, names[..|names| - 1]) + (if IsKeyName(key, last) then [] else [last])
  }

  function ShownBounds(originals: map<string, DbValue>, names: seq<string>): seq<Bound> {
    seq(|names|, i requires 0 <= i < |names| => Bound(SameAsShown(names[i]), BindOf(ValueAt(originals, names[i]))))
  }

  function AssignBounds(values: map<string, DbValue>, names: seq<string>): seq<Bound> {
    seq(|names|, i requires 0 <= i < |names| => Bound(Assign(names[i]), BindOf(ValueAt(values, names[i]))))
  }

  /** The identity names exactly the table's key columns. */
  ghost predicate CoversKey(meta: TableMeta, identity: Identity) {
    && identity.relationOid == meta.relationOid
    && meta.primaryKey != []
    && multiset(meta.primaryKey) == multiset(Attributes(identity.key))
  }

  function Attributes(key: seq<KeyValue>): seq<int> {
    seq(|key|, i requires 0 <= i < |key| => key[i].attribute)
  }

  ghost predicate LockUsable(meta: TableMeta, identity: Identity, originals: map<string, DbValue>) {
    && KeysUsable(meta, identity.key)
    && (identity.xmin.Some? || originals != map[])
    && (identity.xmin.None? ==>
          forall n :: n in originals && !IsKeyName(identity.key, n) ==> Usable(meta, n, originals[n]))
  }

  /** The row version when there is one, otherwise the originals shown outside the key. */
  ghost function LockBounds(identity: Identity, originals: map<string, DbValue>): seq<Bound> {
    if identity.xmin.Some? then [Bound(VersionEquals, Text(Some(identity.xmin.value)))]
    else ShownBounds(originals, ShownNames(identity.key, Sorted(originals.Keys)))
  }

  ghost function WhereBounds(identity: Identity, originals: map<string, DbValue>): seq<Bound> {
    KeyBounds(identity.key) + LockBounds(identity, originals)
  }

  ghost predicate Accepts(meta: TableMeta, c: Change) {
    match c
    case Delete(_, identity, originals) =>
      CoversKey(meta, identity) && LockUsable(meta, identity, originals)
    case Update(_, identity, originals, changes) =>
      && changes != map[]
      && CoversKey(meta, identity) && LockUsable(meta, identity, originals)
      && forall n :: n in changes ==> Usable(meta, n, changes[n]) && !Find(meta.columns, n).value.generated
    case Insert(_, values) =>
      forall n :: n in values ==> InsertUsable(meta, n, values[n])
  }

  predicate InsertUsable(meta: TableMeta, name: string, cell: InsertCell) {
    && Find(meta.columns, name).Some?
    && ToBind(GivenValue(cell)).Ok?
    && (!cell.Default? ==> !Find(meta.columns, name).value.generated)
  }

  function GivenValue(c: InsertCell): DbValue {
    if c.Value? then c.value else Null
  }

  /** An insert's places: the cells not left to their defaults, in the order of their names. */
  function InsertBounds(values: map<string, InsertCell>, names: seq<string>): seq<Bound> {
    if |names| == 0 then []
    else
      var last := names[|names| - 1];
      InsertBounds(values, names[..|names| - 1])
      + (if last !in values || values[last].Default? then [] else [Bound(Assign(last), BindOf(GivenValue(values[last])))])
  }

  /** The statement a change stands for: its parameter places in order, each with its value. */
  ghost function SetBounds(c: Change): seq<Bound> {
    match c
    case Delete(_, _, _) => []
    case Update(_, _, _, changes) => AssignBounds(changes, Sorted(changes.Keys))
    case Insert(_, values) => InsertBounds(values, Sorted(values.Keys))
  }

  ghost function PlanOf(c: Change): RowPlan {
    var sets := SetBounds(c);
    var wheres := if c.Insert? then [] else WhereBounds(c.identity, c.originals);
    RowPlan(
      c.rowId,
      match c { case Delete(_, _, _) => DeleteRow case Update(_, _, _, _) => UpdateRow case Insert(_, _) => InsertRow },
      Number(sets, 1),
      Number(wheres, |sets| + 1),
      Binds(sets) + Binds(wheres),
      if c.Insert? then None
      else Some((Number(KeyBounds(c.identity.key), 1), Binds(KeyBounds(c.identity.key)))))
  }

  /** Placeholders and parameters as one growing list: `next` is always one past the last. */
  datatype Draft = Draft(slots: seq<Slot>, params: seq<Bind>, next: nat)

  /** The draft holds exactly these terms, numbered on from what was there before. */
  ghost predicate Drafted(before: Draft, bounds: seq<Bound>, after: Draft) {
    && after.slots == Number(bounds, before.next)
    && after.params == before.params + Binds(bounds)
    && after.next == before.next + |bounds|
  }

  function Pushed(d: Draft, term: Term, bind: Bind): Draft {
    Draft(d.slots + [Slot(term, d.next)], d.params + [bind], d.next + 1)
  }

  lemma DraftedSnoc(before: Draft, bounds: seq<Bound>, d: Draft, b: Bound)
    requires Drafted(before, bounds, d)
    ensures Drafted(before, bounds + [b], Pushed(d, b.term, b.bind))
  {
    assert Number(bounds + [b], before.next) == Number(bounds, before.next) + [Slot(b.term, before.next + |bounds|)];
    assert Binds(bounds + [b]) == Binds(bounds) + [b.bind];
  }

  lemma DraftedAppend(before: Draft, a: seq<Bound>, mid: Draft, b: seq<Bound>, after: Draft)
    requires Drafted(before, a, mid) && Drafted(mid.(slots := []), b, after)
    ensures Drafted(before, a + b, after.(slots := mid.slots + after.slots))
  {
    assert Number(a + b, before.next) == Number(a, before.next) + Number(b, before.next + |a|);
    assert Binds(a + b) == Binds(a) + Binds(b);
  }

  const EmptyDraft: Draft := Draft([], [], 1)

  /** Two drafts one after the other are the statement's places and parameters. */
  lemma Assembled(c: Change, sets: Draft, wheres: Draft, lookup: Draft)
    requires !c.Insert?
    requires Drafted(EmptyDraft, SetBounds(c), sets)
    requires Drafted(sets.(slots := []), WhereBounds(c.identity, c.originals), wheres)
    requires Drafted(EmptyDraft, KeyBounds(c.identity.key), lookup)
    ensures PlanOf(c) == RowPlan(
      c.rowId, if c.Update? then UpdateRow else DeleteRow, sets.slots, wheres.slots, wheres.params,
      Some((lookup.slots, lookup.params)))
  {
    assert EmptyDraft.params == [];
    assert [] + Binds(SetBounds(c)) == Binds(SetBounds(c));
    assert [] + Binds(KeyBounds(c.identity.key)) == Binds(KeyBounds(c.identity.key));
  }

  lemma InsertAssembled(c: Change, sets: Draft)
    requires c.Insert?
    requires Drafted(EmptyDraft, SetBounds(c), sets)
    ensures PlanOf(c) == RowPlan(c.rowId, InsertRow, sets.slots, [], sets.params, None)
  {
    assert Binds([]) == [];
    assert [] + Binds(SetBounds(c)) + [] == Binds(SetBounds(c));
  }

  method ValidateIdentity(meta: TableMeta, identity: Identity) returns (r: Result<(), PlanError>)
    ensures r.Ok? <==> CoversKey(meta, identity)
  {
    if identity.relationOid != meta.relationOid {
      return Err(RelationMismatch);
    }
    if meta.primaryKey == [] || multiset(meta.primaryKey) != multiset(Attributes(identity.key)) {
      return Err(KeyNotCovered);
    }
    r := Ok(());
  }

  method PkConditions(meta: TableMeta, identity: Identity, start: Draft) returns (r: Result<Draft, PlanError>)
    requires start.slots == []
    ensures r.Ok? <==> KeysUsable(meta, identity.key)
    ensures r.Ok? ==> Drafted(start, KeyBounds(identity.key), r.value)
  {
    var d := start;
    var i := 0;
    while i < |identity.key|
      invariant 0 <= i <= |identity.key|
      invariant KeysUsable(meta, identity.key[..i])
      invariant Drafted(start, KeyBounds(identity.key[..i]), d)
    {
      var pk := identity.key[i];
      var col := Find(meta.columns, pk.column);
      if col.None? {
        return Err(UnknownColumn);
      }
      if col.value.attribute != pk.attribute {
        return Err(KeyColumnMismatch);
      }
      var bind := ToBind(pk.value);
      if bind.Err? {
        return Err(bind.error);
      }
      DraftedSnoc(start, KeyBounds(identity.key[..i]), d, Bound(KeyEquals(pk.column), bind.value));
      assert identity.key[..i + 1] == identity.key[..i] + [pk];
      assert KeyBounds(identity.key[..i + 1])
          == KeyBounds(identity.key[..i]) + [Bound(KeyEquals(pk.column), bind.value)];
      d := Pushed(d, KeyEquals(pk.column), bind.value);
      i := i + 1;
    }
    assert identity.key[..i] == identity.key;
    r := Ok(d);
  }

  /** The displayed-columns fallback lock. */
  method ShownConditions(meta: TableMeta, identity: Identity, originals: map<string, DbValue>, start: Draft)
    returns (r: Result<Draft, PlanError>)
    requires start.slots == [] && identity.xmin.None?
    ensures r.Ok? <==>
      forall n :: n in originals && !IsKeyName(identity.key, n) ==> Usable(meta, n, originals[n])
    ensures r.Ok? ==> Drafted(start, LockBounds(identity, originals), r.value)
  {
    var names := SortNames(originals.Keys);
    ListsUnique(names, Sorted(originals.Keys), originals.Keys);
    var d := start;
    var i := 0;
    while i < |names|
      invariant 0 <= i <= |names|
      invariant forall n :: n in names[..i] && !IsKeyName(identity.key, n) ==> Usable(meta, n, originals[n])
      invariant Drafted(start, ShownBounds(originals, ShownNames(identity.key, names[..i])), d)
    {
      var name := names[i];
      assert name in names;
      assert names[..i + 1] == names[..i] + [name];
      assert names[..i + 1][..i] == names[..i];
      i := i + 1;
      if IsKeyName(identity.key, name) { continue; }
      if Find(meta.columns, name).None? {
        return Err(UnknownColumn);
      }
      var bind := ToBind(originals[name]);
      if bind.Err? {
        return Err(bind.error);
      }
      ghost var shown := ShownNames(identity.key, names[..i - 1]);
      DraftedSnoc(start, ShownBounds(originals, shown), d, Bound(SameAsShown(name), bind.value));
      assert ShownBounds(originals, shown + [name])
          == ShownBounds(originals, shown) + [Bound(SameAsShown(name), bind.value)];
      d := Pushed(d, SameAsShown(name), bind.value);
    }
    assert names[..i] == names;
    r := Ok(d);
  }

  method WhereClause(meta: TableMeta, identity: Identity, originals: map<string, DbValue>, start: Draft)
    returns (r: Result<Draft, PlanError>)
    requires start.slots == []
    ensures r.Ok? <==> LockUsable(meta, identity, originals)
    ensures r.Ok? ==> Drafted(start, WhereBounds(identity, originals), r.value)
  {
    var keys := PkConditions(meta, identity, start);
    if keys.Err? {
      return keys;
    }
    if identity.xmin.None? && originals == map[] {
      return Err(NoVersion);
    }
    var d := keys.value;
    var lock;
    if identity.xmin.Some? {
      DraftedSnoc(d.(slots := []), [], d.(slots := []), Bound(VersionEquals, Text(Some(identity.xmin.value))));
      lock := Ok(Pushed(d.(slots := []), VersionEquals, Text(Some(identity.xmin.value))));
      assert [] + LockBounds(identity, originals) == LockBounds(identity, originals);
    } else {
      lock := ShownConditions(meta, identity, originals, d.(slots := []));
      if lock.Err? {
        return lock;
      }
    }
    DraftedAppend(start, KeyBounds(identity.key), d, LockBounds(identity, originals), lock.value);
    r := Ok(lock.value.(slots := d.slots + lock.value.slots));
  }

  /** The SET list of an update, in sorted column order. */
  method SetClause(meta: TableMeta, changes: map<string, DbValue>) returns (r: Result<Draft, PlanError>)
    ensures r.Ok? <==>
      forall n :: n in changes ==> Usable(meta, n, changes[n]) && !Find(meta.columns, n).value.generated
    ensures r.Ok? ==> Drafted(EmptyDraft, AssignBounds(changes, Sorted(changes.Keys)), r.value)
  {
    var names := SortNames(changes.Keys);
    ListsUnique(names, Sorted(changes.Keys), changes.Keys);
    var d := EmptyDraft;
    var i := 0;
    while i < |names|
      invariant 0 <= i <= |names|
      invariant forall n :: n in names[..i] ==>
        n in changes && Usable(meta, n, changes[n]) && !Find(meta.columns, n).value.generated
      invariant Drafted(EmptyDraft, AssignBounds(changes, names[..i]), d)
    {
      var name := names[i];
      assert name in names;
      var col := Find(meta.columns, name);
      if col.None? {
        return Err(UnknownColumn);
      }
      if col.value.generated {
        return Err(GeneratedColumn);
      }
      var bind := ToBind(changes[name]);
      if bind.Err? {
        return Err(bind.error);
      }
      DraftedSnoc(EmptyDraft, AssignBounds(changes, names[..i]), d, Bound(Assign(name), bind.value));
      assert names[..i + 1] == names[..i] + [name];
      assert AssignBounds(changes, names[..i + 1])
          == AssignBounds(changes, names[..i]) + [Bound(Assign(name), bind.value)];
      d := Pushed(d, Assign(name), bind.value);
      i := i + 1;
    }
    assert names[..i] == names;
    r := Ok(d);
  }

  method PlanUpdate(meta: TableMeta, c: Change) returns (r: Result<RowPlan, PlanError>)
    requires c.Update?
    ensures r.Ok? <==> Accepts(meta, c)
    ensures r.Ok? ==> r.value == PlanOf(c)
  {
    if c.changes == map[] {
      return Err(EmptyUpdate);
    }
    var valid := ValidateIdentity(meta, c.identity);
    if valid.Err? {
      return Err(valid.error);
    }
    var sets := SetClause(meta, c.changes);
    if sets.Err? {
      return Err(sets.error);
    }
    var where := WhereClause(meta, c.identity, c.originals, sets.value.(slots := []));
    if where.Err? {
      return Err(where.error);
    }
    var lookup := PkConditions(meta, c.identity, EmptyDraft);
    assert lookup.Ok?;
    Assembled(c, sets.value, where.value, lookup.value);
    r := Ok(RowPlan(c.rowId, UpdateRow, sets.value.slots, where.value.slots, where.value.params,
                    Some((lookup.value.slots, lookup.value.params))));
  }

  method PlanDelete(meta: TableMeta, c: Change) returns (r: Result<RowPlan, PlanError>)
    requires c.Delete?
    ensures r.Ok? <==> Accepts(meta, c)
    ensures r.Ok? ==> r.value == PlanOf(c)
  {
    var valid := ValidateIdentity(meta, c.identity);
    if valid.Err? {
      return Err(valid.error);
    }
    var where := WhereClause(meta, c.identity, c.originals, EmptyDraft);
    if where.Err? {
      return Err(where.error);
    }
    var lookup := PkConditions(meta, c.identity, EmptyDraft);
    assert lookup.Ok?;
    Assembled(c, EmptyDraft, where.value, lookup.value);
    r := Ok(RowPlan(c.rowId, DeleteRow, [], where.value.slots, where.value.params,
                    Some((lookup.value.slots, lookup.value.params))));
  }

  lemma DraftedNothing(d: Draft)
    requires d.slots == []
    ensures Drafted(d, [], d)
  {
    assert d.params + Binds([]) == d.params;
  }

  lemma NothingListed(values: map<string, InsertCell>, names: seq<string>)
    ensures InsertBounds(values, names[..0]) == []
  {
  }

  /** What one more name adds to an insert's places. */
  lemma NextListed(values: map<string, InsertCell>, names: seq<string>, i: nat)
    requires i < |names| && names[i] in values
    ensures InsertBounds(values, names[..i + 1]) ==
      if values[names[i]].Default? then InsertBounds(values, names[..i])
      else InsertBounds(values, names[..i]) + [Bound(Assign(names[i]), BindOf(GivenValue(values[names[i]])))]
  {
    assert names[..i + 1][..i] == names[..i];
    assert InsertBounds(values, names[..i]) + [] == InsertBounds(values, names[..i]);
  }

  /** The columns and placeholders of an insert; cells left to their defaults take none. */
  method InsertList(meta: TableMeta, values: map<string, InsertCell>) returns (r: Result<Draft, PlanError>)
    ensures r.Ok? <==> forall n :: n in values ==> InsertUsable(meta, n, values[n])
    ensures r.Ok? ==>
      Drafted(EmptyDraft, InsertBounds(values, Sorted(values.Keys)), r.value)
  {
    hide Drafted, Sorted, Find, InsertBounds;
    var names := SortNames(values.Keys);
    ListsUnique(names, Sorted(values.Keys), values.Keys);
    var d := EmptyDraft;
    DraftedNothing(d);
    NothingListed(values, names);
    var i := 0;
    while i < |names|
      invariant 0 <= i <= |names|
      invariant forall n :: n in names[..i] ==> n in values && InsertUsable(meta, n, values[n])
      invariant Drafted(EmptyDraft, InsertBounds(values, names[..i]), d)
    {
      var name := names[i];
      assert name in names;
      assert names[..i + 1] == names[..i] + [name];
      NextListed(values, names, i);
      i := i + 1;
      var col := Find(meta.columns, name);
      if col.None? {
        return Err(UnknownColumn);
      }
      ghost var before := InsertBounds(values, names[..i - 1]);
      if values[name].Default? {
        continue;
      }
      var bind := ToBind(GivenValue(values[name]));
      if bind.Err? {
        return Err(bind.error);
      }
      if col.value.generated {
        return Err(GeneratedColumn);
      }
      DraftedSnoc(EmptyDraft, before, d, Bound(Assign(name), bind.value));
      d := Pushed(d, Assign(name), bind.value);
    }
    assert names[..i] == names;
    r := Ok(d);
  }

  method PlanInsert(meta: TableMeta, c: Change) returns (r: Result<RowPlan, PlanError>)
    requires c.Insert?
    ensures r.Ok? <==> Accepts(meta, c)
    ensures r.Ok? ==> r.value == PlanOf(c)
  {
    var list := InsertList(meta, c.values);
    if list.Err? {
      return Err(list.error);
    }
    InsertAssembled(c, list.value);
    r := Ok(RowPlan(c.rowId, InsertRow, list.value.slots, [], list.value.params, None));
  }
}
