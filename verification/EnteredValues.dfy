module EnteredValues {
  // What the planner's parameters mean to the server, and so what a saved edit leaves in its row.

  import opened Wrappers
  import opened Names
  import opened EditPlanner
  import opened EditCommit
  import opened LostUpdates

  // ---- the server's side: reading a parameter for a column ----

  datatype ColumnKind = BooleanColumn | ByteaColumn | OtherColumn

  datatype Stored = SqlNull | Truth(b: bool) | Octets(bytes: seq<nat>) | Chars(text: string)

  const TRUE_WORDS: set<string> := {"t", "tr", "tru", "true", "y", "ye", "yes", "on", "1"}
  const FALSE_WORDS: set<string> := {"f", "fa", "fal", "fals", "false", "n", "no", "of", "off", "0"}

  /** PostgreSQL's input of a parameter; None when the column cannot take it. */
  function ReadParam(kind: ColumnKind, b: Bind): Option<Stored> {
    match b
    case Text(None) => Some(SqlNull)
    case Bytea(bytes) => if kind.ByteaColumn? then Some(Octets(bytes)) else None
    case Text(Some(text)) =>
      match kind
      case BooleanColumn =>
        if text in TRUE_WORDS then Some(Truth(true)) else if text in FALSE_WORDS then Some(Truth(false)) else None
      case ByteaColumn => None
      case OtherColumn => Some(Chars(text))
  }

  /** What the user means by a value. */
  function Meant(v: DbValue): Stored {
    match v
    case Boolean(b) => Truth(b)
    case Binary(Bytes(bytes)) => Octets(bytes)
    case Scalar(text) => Chars(text)
    case _ => SqlNull
  }

  function KindOf(v: DbValue): ColumnKind {
    match v case Boolean(_) => BooleanColumn case Binary(_) => ByteaColumn case _ => OtherColumn
  }

  /** The parameter brings the server exactly the value meant, NULL for any kind of column. */
  ghost predicate Carries(b: Bind, v: DbValue) {
    if v.Null? then forall kind: ColumnKind :: ReadParam(kind, b) == Some(SqlNull)
    else ReadParam(KindOf(v), b) == Some(Meant(v))
  }

  /** What can be sent: everything but arrays and binaries that are too large or not base64. */
  lemma SentIff(v: DbValue)
    ensures ToBind(v).Ok? <==> v.Null? || v.Boolean? || v.Scalar? || (v.Binary? && v.inline.Bytes?)
    ensures ToBind(v).Ok? ==> Carries(BindOf(v), v)
  {
  }

  // ---- what is accepted ----

  predicate Sendable(v: DbValue) {
    v.Null? || v.Boolean? || v.Scalar? || (v.Binary? && v.inline.Bytes?)
  }

  predicate HasColumn(meta: TableMeta, name: string) {
    exists i :: 0 <= i < |meta.columns| && meta.columns[i].name == name
  }

  predicate HasPlainColumn(meta: TableMeta, name: string) {
    exists i :: 0 <= i < |meta.columns| && meta.columns[i].name == name && !meta.columns[i].generated
  }

  predicate NamesColumn(meta: TableMeta, k: KeyValue) {
    && Sendable(k.value)
    && exists i :: 0 <= i < |meta.columns| && meta.columns[i].name == k.column && meta.columns[i].attribute == k.attribute
  }

  /** The identity names the relation and its key columns, each under its own name with a value that can be sent. */
  ghost predicate Identifies(meta: TableMeta, identity: Identity) {
    && identity.relationOid == meta.relationOid && meta.primaryKey != []
    && multiset(meta.primaryKey) == multiset(Attributes(identity.key))
    && forall k :: 0 <= k < |identity.key| ==> NamesColumn(meta, identity.key[k])
  }

  /** There is a row version, or originals, all of which outside the key can be compared. */
  ghost predicate Lockable(meta: TableMeta, identity: Identity, originals: map<string, DbValue>) {
    identity.xmin.Some? || (
      && originals != map[]
      && forall n :: n in originals && (forall k :: 0 <= k < |identity.key| ==> identity.key[k].column != n) ==>
           HasColumn(meta, n) && Sendable(originals[n]))
  }

  ghost predicate Acceptable(meta: TableMeta, c: Change) {
    match c
    case Delete(_, identity, originals) => Identifies(meta, identity) && Lockable(meta, identity, originals)
    case Update(_, identity, originals, changes) =>
      && changes != map[] && Identifies(meta, identity) && Lockable(meta, identity, originals)
      && forall n :: n in changes ==> HasPlainColumn(meta, n) && Sendable(changes[n])
    case Insert(_, values) =>
      forall n :: n in values ==>
        if values[n].Default? then HasColumn(meta, n)
        else HasPlainColumn(meta, n) && (values[n].Value? ==> Sendable(values[n].value))
  }

  lemma {:induction false} FoundIff(columns: seq<Column>, name: string)
    requires forall i, j :: 0 <= i < j < |columns| ==> columns[i].name != columns[j].name
    ensures Find(columns, name).Some? <==> exists i :: 0 <= i < |columns| && columns[i].name == name
    ensures forall i :: 0 <= i < |columns| && columns[i].name == name ==> Find(columns, name) == Some(columns[i])
    decreases |columns|
  {
    if columns != [] && columns[0].name != name {
      FoundIff(columns[1..], name);
      assert forall i :: 1 <= i < |columns| ==> columns[i] == columns[1..][i - 1];
      if Find(columns, name).Some? {
        var i :| 0 <= i < |columns[1..]| && columns[1..][i].name == name;
        assert columns[i + 1].name == name;
      }
    }
  }

  lemma ColumnsFound(meta: TableMeta, n: string)
    requires Catalog(meta)
    ensures Find(meta.columns, n).Some? <==> HasColumn(meta, n)
    ensures Find(meta.columns, n).Some? && !Find(meta.columns, n).value.generated <==> HasPlainColumn(meta, n)
  {
    FoundIff(meta.columns, n);
  }

  lemma KeyFound(meta: TableMeta, k: KeyValue)
    requires Catalog(meta)
    ensures KeyUsable(meta, k) <==> NamesColumn(meta, k)
  {
    FoundIff(meta.columns, k.column);
    SentIff(k.value);
  }

  lemma IdentifiesIff(meta: TableMeta, identity: Identity)
    requires Catalog(meta)
    ensures Identifies(meta, identity) <==> CoversKey(meta, identity) && KeysUsable(meta, identity.key)
  {
    hide KeyUsable, Catalog, NamesColumn, Attributes;
    forall k | 0 <= k < |identity.key| ensures KeyUsable(meta, identity.key[k]) <==> NamesColumn(meta, identity.key[k]) {
      KeyFound(meta, identity.key[k]);
    }
  }

  lemma LockableIff(meta: TableMeta, identity: Identity, originals: map<string, DbValue>)
    requires Catalog(meta)
    ensures Lockable(meta, identity, originals) && KeysUsable(meta, identity.key) <==> LockUsable(meta, identity, originals)
  {
    hide KeysUsable, Catalog, HasColumn, ToBind, Sendable, Find;
    forall n: string, v: DbValue ensures Usable(meta, n, v) <==> HasColumn(meta, n) && Sendable(v) {
      ColumnsFound(meta, n);
      SentIff(v);
      SendableIs(v);
    }
  }

  lemma SendableIs(v: DbValue)
    ensures Sendable(v) <==> v.Null? || v.Boolean? || v.Scalar? || (v.Binary? && v.inline.Bytes?)
  {
  }

  /**
   * A change is planned exactly when it identifies its row by the whole key, can be locked, and
   * enters values that can be sent into columns that exist and are not generated.
   */
  lemma AcceptsIff(meta: TableMeta, c: Change)
    requires Catalog(meta)
    ensures Accepts(meta, c) <==> Acceptable(meta, c)
  {
    hide Catalog, HasColumn, HasPlainColumn, Identifies, Lockable, CoversKey, LockUsable, KeysUsable, Find, ToBind;
    if !c.Insert? {
      IdentifiesIff(meta, c.identity);
      LockableIff(meta, c.identity, c.originals);
      if LockUsable(meta, c.identity, c.originals) { LockHasKeys(meta, c.identity, c.originals); }
    }
    forall n: string
      ensures Find(meta.columns, n).Some? <==> HasColumn(meta, n)
      ensures Find(meta.columns, n).Some? && !Find(meta.columns, n).value.generated <==> HasPlainColumn(meta, n)
    {
      ColumnsFound(meta, n);
    }
    forall v: DbValue ensures ToBind(v).Ok? <==> Sendable(v) { SentIff(v); }
  }

  lemma LockHasKeys(meta: TableMeta, identity: Identity, originals: map<string, DbValue>)
    requires LockUsable(meta, identity, originals)
    ensures KeysUsable(meta, identity.key)
  {
  }

  // ---- the statement ----

  /** The values a change enters, by column; an insert's defaults are not among them. */
  function Typed(c: Change): map<string, DbValue> {
    match c
    case Delete(_, _, _) => map[]
    case Update(_, _, _, changes) => changes
    case Insert(_, values) => map n | n in values && !values[n].Default? :: if values[n].Value? then values[n].value else Null
  }

  /** The values a lock without a version compares: everything shown outside the key. */
  function ShownValues(c: Change): map<string, DbValue>
    requires !c.Insert?
  {
    map n | n in c.originals && !IsKeyName(c.identity.key, n) :: c.originals[n]
  }

  predicate OfKind(t: Term, lock: bool) {
    if lock then t.SameAsShown? else t.Assign?
  }

  predicate DistinctNames(names: seq<string>) {
    forall i, j :: 0 <= i < j < |names| ==> names[i] != names[j]
  }

  /** The columns listed, each once. */
  ghost predicate ListsOnce(names: seq<string>, keys: set<string>) {
    DistinctNames(names) && forall n :: n in names <==> n in keys
  }

  function ColumnOf(t: Term): string {
    if t.VersionEquals? then "" else t.column
  }

  function Columns(slots: seq<Slot>): seq<string> {
    seq(|slots|, k requires 0 <= k < |slots| => ColumnOf(slots[k].term))
  }

  function BoundColumns(bounds: seq<Bound>): seq<string> {
    seq(|bounds|, k requires 0 <= k < |bounds| => ColumnOf(bounds[k].term))
  }

  ghost predicate PlaceCarries(s: Slot, params: seq<Bind>, values: map<string, DbValue>, lock: bool) {
    OfKind(s.term, lock) && s.term.column in values && Carries(BindAt(params, s.number), values[s.term.column])
  }

  /** One place for each of these columns and no other, each with a parameter that brings its value. */
  ghost predicate PlacesCarry(slots: seq<Slot>, params: seq<Bind>, values: map<string, DbValue>, lock: bool) {
    && ListsOnce(Columns(slots), values.Keys)
    && forall k :: 0 <= k < |slots| ==> PlaceCarries(slots[k], params, values, lock)
  }

  predicate Brings(b: Bound, values: map<string, DbValue>, lock: bool) {
    OfKind(b.term, lock) && b.term.column in values && b.bind == BindOf(values[b.term.column])
  }

  /** The same of terms and values before they are numbered. */
  ghost predicate BoundsBring(bounds: seq<Bound>, values: map<string, DbValue>, lock: bool) {
    && ListsOnce(BoundColumns(bounds), values.Keys)
    && forall k :: 0 <= k < |bounds| ==> Brings(bounds[k], values, lock)
  }

  lemma NumberedCarry(bounds: seq<Bound>, from: nat, params: seq<Bind>, values: map<string, DbValue>, lock: bool)
    requires BoundsBring(bounds, values, lock)
    requires forall n :: n in values ==> ToBind(values[n]).Ok?
    requires forall k :: 0 <= k < |bounds| ==> BindAt(params, from + k) == bounds[k].bind
    ensures PlacesCarry(Number(bounds, from), params, values, lock)
  {
    hide ToBind, Carries, BindAt, BindOf, ListsOnce;
    var slots := Number(bounds, from);
    assert Columns(slots) == BoundColumns(bounds);
    forall k | 0 <= k < |slots| ensures PlaceCarries(slots[k], params, values, lock) {
      assert Brings(bounds[k], values, lock) && BindAt(params, from + k) == bounds[k].bind;
      SentIff(values[bounds[k].term.column]);
      assert slots[k] == Slot(bounds[k].term, from + k);
    }
  }

  lemma SortedOnce(keys: set<string>)
    ensures ListsOnce(Sorted(keys), keys)
  {
    IncreasingDistinct(Sorted(keys));
  }

  lemma UpdateBounds(changes: map<string, DbValue>)
    ensures BoundsBring(AssignBounds(changes, Sorted(changes.Keys)), changes, false)
  {
    hide BindOf, Sorted, ListsOnce;
    var names := Sorted(changes.Keys);
    SortedOnce(changes.Keys);
    var bounds := AssignBounds(changes, names);
    assert BoundColumns(bounds) == names;
    forall k | 0 <= k < |bounds| ensures Brings(bounds[k], changes, false) {
      InListing(names, changes.Keys, k);
    }
  }

  lemma InListing(names: seq<string>, keys: set<string>, k: nat)
    requires ListsOnce(names, keys) && k < |names|
    ensures names[k] in keys
  {
    assert names[k] in names;
  }

  lemma ColumnsSnoc(bounds: seq<Bound>, b: Bound)
    ensures BoundColumns(bounds + [b]) == BoundColumns(bounds) + [ColumnOf(b.term)]
  {
  }

  lemma SnocOnce(names: seq<string>, n: string)
    requires DistinctNames(names) && n !in names
    ensures DistinctNames(names + [n])
  {
  }

  /** The columns an insert names among the first listed ones. */
  lemma {:induction false} InsertListed(values: map<string, InsertCell>, names: seq<string>)
    requires DistinctNames(names) && forall n :: n in names ==> n in values
    ensures var bounds, typed := InsertBounds(values, names), Typed(Insert("", values));
      && DistinctNames(BoundColumns(bounds))
      && (forall n :: n in BoundColumns(bounds) <==> n in typed && n in names)
      && forall k :: 0 <= k < |bounds| ==> Brings(bounds[k], typed, false)
  {
    hide ToBind, BindOf;
    if |names| > 0 {
      var init, last := names[..|names| - 1], names[|names| - 1];
      var typed := Typed(Insert("", values));
      assert names == init + [last];
      InsertListed(values, init);
      var before := InsertBounds(values, init);
      assert last in values && last !in init;
      if values[last].Default? {
        assert InsertBounds(values, names) == before + [] == before;
      } else {
        var b := Bound(Assign(last), BindOf(typed[last]));
        assert InsertBounds(values, names) == before + [b];
        ColumnsSnoc(before, b);
        SnocOnce(BoundColumns(before), last);
      }
    }
  }

  lemma SetBoundsBring(c: Change)
    ensures BoundsBring(SetBounds(c), Typed(c), false)
  {
    hide BindOf, ToBind, InsertBounds, AssignBounds;
    match c
    case Delete(_, _, _) =>
    case Update(_, _, _, changes) => UpdateBounds(changes);
    case Insert(_, values) =>
      var names := Sorted(values.Keys);
      SortedOnce(values.Keys);
      InsertListed(values, names);
      assert Typed(c) == Typed(Insert("", values));
  }

  lemma TypedIsSent(meta: TableMeta, c: Change)
    requires Accepts(meta, c)
    ensures forall n :: n in Typed(c) ==> ToBind(Typed(c)[n]).Ok?
  {
    hide ToBind, Find, LockUsable, CoversKey;
    if c.Insert? {
      forall n | n in Typed(c) ensures ToBind(Typed(c)[n]).Ok? {
        assert InsertUsable(meta, n, c.values[n]);
      }
    }
  }

  lemma SetParams(c: Change)
    ensures PlanOf(c).sets == Number(SetBounds(c), 1) && |PlanOf(c).params| >= |SetBounds(c)|
    ensures forall k :: 0 <= k < |SetBounds(c)| ==> PlanOf(c).params[k] == SetBounds(c)[k].bind
    ensures forall k :: 0 <= k < |SetBounds(c)| ==> BindAt(PlanOf(c).params, 1 + k) == SetBounds(c)[k].bind
  {
    hide SetBounds, WhereBounds, KeyBounds;
  }

  /**
   * An accepted change assigns every column it enters a value for, once, and no other, and each
   * parameter brings the server exactly the value entered.
   */
  lemma SetsCarryEntered(meta: TableMeta, c: Change)
    requires Accepts(meta, c)
    ensures PlacesCarry(PlanOf(c).sets, PlanOf(c).params, Typed(c), false)
  {
    hide Accepts, PlanOf, SetBounds, ToBind, BindOf, Carries, BoundsBring, PlacesCarry;
    SetBoundsBring(c);
    TypedIsSent(meta, c);
    SetParams(c);
    NumberedCarry(SetBounds(c), 1, PlanOf(c).params, Typed(c), false);
  }

  /** A key condition compares one key column with a parameter that brings its value. */
  ghost predicate KeyCarries(s: Slot, params: seq<Bind>, k: KeyValue) {
    s.term == KeyEquals(k.column) && Carries(BindAt(params, s.number), k.value)
  }

  /** The conditions of an update or delete: the key, then the version or what was shown. */
  ghost predicate ConditionsCarry(c: Change, where: seq<Slot>, params: seq<Bind>)
    requires !c.Insert?
  {
    var n := |c.identity.key|;
    && |where| >= n
    && (forall k :: 0 <= k < n ==> KeyCarries(where[k], params, c.identity.key[k]))
    && (c.identity.xmin.Some? ==>
          |where| == n + 1 && where[n].term == VersionEquals
          && BindAt(params, where[n].number) == Text(Some(c.identity.xmin.value)))
    && (c.identity.xmin.None? ==> PlacesCarry(where[n..], params, ShownValues(c), true))
  }

  lemma {:induction false} ShownDistinct(key: seq<KeyValue>, names: seq<string>)
    requires DistinctNames(names)
    ensures DistinctNames(ShownNames(key, names))
  {
    if |names| > 0 {
      var init, last := names[..|names| - 1], names[|names| - 1];
      ShownDistinct(key, init);
      assert last !in init;
      SnocOnceIf(ShownNames(key, init), last, !IsKeyName(key, last));
    }
  }

  lemma SnocOnceIf(names: seq<string>, n: string, more: bool)
    requires DistinctNames(names) && n !in names
    ensures DistinctNames(names + (if more then [n] else []))
  {
  }

  lemma ShownBring(c: Change)
    requires !c.Insert?
    ensures BoundsBring(ShownBounds(c.originals, Shown(c, Sorted(c.originals.Keys))), ShownValues(c), true)
  {
    hide BindOf, Sorted, IsKeyName;
    var all := Sorted(c.originals.Keys);
    var names := Shown(c, all);
    SortedOnce(c.originals.Keys);
    ShownDistinct(c.identity.key, all);
    hide ShownNames;
    var bounds := ShownBounds(c.originals, names);
    assert BoundColumns(bounds) == names;
    assert ListsOnce(names, ShownValues(c).Keys);
    forall k | 0 <= k < |bounds| ensures Brings(bounds[k], ShownValues(c), true) {
      InListing(names, ShownValues(c).Keys, k);
    }
  }

  lemma LockPlaces(c: Change)
    requires !c.Insert? && c.identity.xmin.None?
    ensures var p, n, shown := PlanOf(c), |c.identity.key|, ShownBounds(c.originals, Shown(c, Sorted(c.originals.Keys)));
      && |p.where| == n + |shown| && p.where[n..] == Number(shown, |SetBounds(c)| + n + 1)
      && forall k :: 0 <= k < |shown| ==> BindAt(p.params, |SetBounds(c)| + n + 1 + k) == shown[k].bind
  {
    hide SetBounds, ShownBounds, LockBounds, KeyBounds, Number, Binds, BindAt, PlanOf, Shown, Sorted;
    var shown := ShownBounds(c.originals, Shown(c, Sorted(c.originals.Keys)));
    WholeWhere(c);
    AfterKey(SetBounds(c), KeyBounds(c.identity.key), shown);
    WholeLengths(SetBounds(c), KeyBounds(c.identity.key), shown, c.identity.key);
  }

  lemma WholeWhere(c: Change)
    requires !c.Insert? && c.identity.xmin.None?
    ensures var p, all := PlanOf(c), KeyBounds(c.identity.key) + ShownBounds(c.originals, Shown(c, Sorted(c.originals.Keys)));
      p.where == Number(all, |SetBounds(c)| + 1) && p.params == Binds(SetBounds(c)) + Binds(all)
  {
    hide SetBounds, KeyBounds, ShownNames, ShownBounds, Number, Binds, Sorted;
  }

  lemma WholeLengths(sets: seq<Bound>, keys: seq<Bound>, rest: seq<Bound>, key: seq<KeyValue>)
    requires keys == KeyBounds(key)
    ensures |keys| == |key| && |Number(keys + rest, |sets| + 1)| == |key| + |rest|
  {
    hide BindOf;
  }

  /** Where the last of three stretches stands once they are numbered and their values joined. */
  lemma AfterKey(sets: seq<Bound>, key: seq<Bound>, rest: seq<Bound>)
    ensures var slots, params := Number(key + rest, |sets| + 1), Binds(sets) + Binds(key + rest);
      && slots[|key|..] == Number(rest, |sets| + |key| + 1)
      && forall k :: 0 <= k < |rest| ==> BindAt(params, |sets| + |key| + 1 + k) == rest[k].bind
  {
    var slots, params := Number(key + rest, |sets| + 1), Binds(sets) + Binds(key + rest);
    forall k | 0 <= k < |rest|
      ensures slots[|key|..][k] == Number(rest, |sets| + |key| + 1)[k]
      ensures BindAt(params, |sets| + |key| + 1 + k) == rest[k].bind
    {
      assert (key + rest)[|key| + k] == rest[k];
      assert params[|sets| + (|key| + k)] == Binds(key + rest)[|key| + k];
    }
  }

  lemma KeyConditions(meta: TableMeta, c: Change)
    requires Accepts(meta, c) && !c.Insert?
    ensures var p := PlanOf(c);
      |p.where| >= |c.identity.key|
      && forall k :: 0 <= k < |c.identity.key| ==> KeyCarries(p.where[k], p.params, c.identity.key[k])
  {
    WhereLength(c);
    var p := PlanOf(c);
    forall k | 0 <= k < |c.identity.key| ensures KeyCarries(p.where[k], p.params, c.identity.key[k]) {
      hide PlanOf, Carries, ToBind, BindOf, BindAt;
      KeyPlace(c, k);
      assert KeyUsable(meta, c.identity.key[k]);
      SentIff(c.identity.key[k].value);
    }
  }

  lemma ShownIsSent(meta: TableMeta, c: Change)
    requires Accepts(meta, c) && !c.Insert? && c.identity.xmin.None?
    ensures forall m :: m in ShownValues(c) ==> ToBind(ShownValues(c)[m]).Ok?
  {
    hide ToBind, Find, CoversKey, KeysUsable;
    forall m | m in ShownValues(c) ensures ToBind(ShownValues(c)[m]).Ok? { assert Usable(meta, m, c.originals[m]); }
  }

  lemma ShownConditionsCarry(meta: TableMeta, c: Change)
    requires Accepts(meta, c) && !c.Insert? && c.identity.xmin.None?
    ensures var p := PlanOf(c);
      |p.where| >= |c.identity.key| && PlacesCarry(p.where[|c.identity.key|..], p.params, ShownValues(c), true)
  {
    hide Accepts, ShownBounds, SetBounds, Shown, Sorted, PlanOf, PlacesCarry, BoundsBring, ToBind, BindOf, BindAt, ShownValues;
    var shown := ShownBounds(c.originals, Shown(c, Sorted(c.originals.Keys)));
    LockPlaces(c);
    ShownBring(c);
    ShownIsSent(meta, c);
    NumberedCarry(shown, |SetBounds(c)| + |c.identity.key| + 1, PlanOf(c).params, ShownValues(c), true);
  }

  /** Each condition compares with exactly the value the change was made from, in the key lookup too. */
  lemma ConditionsCarryOriginals(meta: TableMeta, c: Change)
    requires Accepts(meta, c) && !c.Insert?
    ensures ConditionsCarry(c, PlanOf(c).where, PlanOf(c).params)
    ensures var lookup := PlanOf(c).lookup;
      && lookup.Some? && |lookup.value.0| == |c.identity.key|
      && forall k :: 0 <= k < |c.identity.key| ==> KeyCarries(lookup.value.0[k], lookup.value.1, c.identity.key[k])
  {
    LookupCarries(meta, c);
    hide Accepts, PlanOf, Carries, PlacesCarry, KeyCarries;
    KeyConditions(meta, c);
    if c.identity.xmin.Some? {
      VersionPlace(c);
    } else {
      ShownConditionsCarry(meta, c);
    }
  }

  lemma LookupCarries(meta: TableMeta, c: Change)
    requires Accepts(meta, c) && !c.Insert?
    ensures var lookup := PlanOf(c).lookup;
      && lookup.Some? && |lookup.value.0| == |c.identity.key|
      && forall k :: 0 <= k < |c.identity.key| ==> KeyCarries(lookup.value.0[k], lookup.value.1, c.identity.key[k])
  {
    hide BindOf, ToBind, WhereBounds, SetBounds, Carries;
    var key := c.identity.key;
    forall k | 0 <= k < |key|
      ensures KeyCarries(PlanOf(c).lookup.value.0[k], PlanOf(c).lookup.value.1, key[k])
    {
      assert KeyUsable(meta, key[k]);
      SentIff(key[k].value);
      assert Binds(KeyBounds(key))[k] == BindOf(key[k].value);
    }
  }

  // ---- the row afterwards ----

  /** Under every entered column the value entered; elsewhere the cells as they were. */
  ghost predicate HoldsEntered(before: map<string, Bind>, after: map<string, Bind>, typed: map<string, DbValue>) {
    && (forall n :: n in typed ==> n in after && Carries(after[n], typed[n]))
    && (forall n :: n !in typed ==> (n in after <==> n in before) && (n in after ==> after[n] == before[n]))
  }

  lemma {:induction false} AssignedBounds(cells: map<string, Bind>, bounds: seq<Bound>, params: seq<Bind>, n: string)
    requires |bounds| <= |params| && forall k :: 0 <= k < |bounds| ==> params[k] == bounds[k].bind
    requires forall k :: 0 <= k < |bounds| ==> bounds[k].term.Assign?
    requires DistinctNames(BoundColumns(bounds))
    ensures var after := Assigned(cells, Number(bounds, 1), params);
      && (n !in BoundColumns(bounds) ==> (n in after <==> n in cells) && (n in after ==> after[n] == cells[n]))
      && forall k :: 0 <= k < |bounds| && bounds[k].term.column == n ==> n in after && after[n] == bounds[k].bind
    decreases |bounds|
  {
    if |bounds| > 0 {
      var m := |bounds| - 1;
      var init, last := bounds[..m], bounds[m];
      assert bounds == init + [last];
      ColumnsSnoc(init, last);
      assert BoundColumns(bounds)[m] == last.term.column && BoundColumns(bounds)[..m] == BoundColumns(init);
      assert Number(bounds, 1)[..m] == Number(init, 1) && Number(bounds, 1)[m] == Slot(last.term, m + 1);
      AssignedBounds(cells, init, params, n);
      forall k | 0 <= k < |bounds| && bounds[k].term.column == n
        ensures n in Assigned(cells, Number(bounds, 1), params)
        ensures Assigned(cells, Number(bounds, 1), params)[n] == bounds[k].bind
      {
        assert BoundColumns(bounds)[k] == n;
        if k < m { assert BoundColumns(bounds)[k] != BoundColumns(bounds)[m]; }
      }
    }
  }

  lemma AssignedHoldsEntered(meta: TableMeta, c: Change, cells: map<string, Bind>)
    requires Accepts(meta, c)
    ensures HoldsEntered(cells, Assigned(cells, PlanOf(c).sets, PlanOf(c).params), Typed(c))
  {
    hide PlanOf, SetBounds, Accepts, Assigned, Carries, ToBind, BindOf, Typed;
    var bounds, p, typed := SetBounds(c), PlanOf(c), Typed(c);
    SetBoundsBring(c);
    SetParams(c);
    TypedIsSent(meta, c);
    var after := Assigned(cells, p.sets, p.params);
    forall n ensures n in typed ==> n in after && Carries(after[n], typed[n])
      ensures n !in typed ==> (n in after <==> n in cells) && (n in after ==> after[n] == cells[n])
    {
      AssignedBounds(cells, bounds, p.params, n);
      if n in typed {
        assert n in BoundColumns(bounds);
        var k :| 0 <= k < |bounds| && BoundColumns(bounds)[k] == n;
        assert Brings(bounds[k], typed, false);
        SentIff(typed[n]);
      }
    }
  }

  /** A hit, by itself: the row is gone, or holds what was entered and its old cells elsewhere. */
  lemma HitHoldsEntered(meta: TableMeta, server: Server, changes: seq<Change>, before: Table,
                        tables: seq<Table>, k: nat, id: nat)
    requires Committing(meta, server, changes, before, tables) && k < |tables| - 1
    requires !changes[k].Insert? && Matches(tables[k], PlanOf(changes[k])) == {id}
    ensures changes[k].Delete? ==> id !in tables[k + 1]
    ensures changes[k].Update? ==> id in tables[k + 1] && id in tables[k]
    ensures changes[k].Update? ==>
      HoldsEntered(tables[k][id].cells, tables[k + 1][id].cells, changes[k].changes)
  {
    assert id in Matches(tables[k], PlanOf(changes[k]));
    HitTakesEffect(meta, server, changes, before, tables, k, id);
    StatementRan(meta, server, changes, before, tables, k);
    hide Committing, PlanOf, Accepts, Assigned, HoldsEntered;
    if changes[k].Update? { AssignedHoldsEntered(meta, changes[k], tables[k][id].cells); }
  }

  lemma {:induction false} SavedStays(server: Server, changes: seq<Change>, before: Table, id: nat, k: nat, n: nat)
    requires k < n <= |changes|
    requires forall j :: k < j < n ==> !Concerns(changes[j], before, id) && !(changes[j].Insert? && server.newId(j) == id)
    ensures SavedRow(server, changes, before, id, n) == SavedRow(server, changes, before, id, k + 1)
    decreases n
  {
    hide Concerns, PlanOf, Assigned, Lookup;
    if n > k + 1 { SavedStays(server, changes, before, id, k, n - 1); }
  }

  lemma OnlyOneConcerns(meta: TableMeta, server: Server, changes: seq<Change>, before: Table,
                        tables: seq<Table>, j: nat, k: nat, id: nat)
    requires Committing(meta, server, changes, before, tables) && VersionLocked(changes)
    requires j < k < |tables| - 1 && k < |changes| && Concerns(changes[j], before, id)
    ensures !Concerns(changes[k], before, id)
  {
    hide Committing, PlanOf, Matches;
    if !changes[k].Insert? {
      HitIsConcerned(meta, server, changes, before, tables, j, id);
      HitIsConcerned(meta, server, changes, before, tables, k, id);
      assert changes[j].identity.xmin.Some?;
      OneRowHit(meta, server, changes, before, tables, j, id);
      VersionedHitsDisjoint(meta, server, changes, before, tables, j, k, id);
    }
  }

  lemma OneRowHit(meta: TableMeta, server: Server, changes: seq<Change>, before: Table, tables: seq<Table>, k: nat, id: nat)
    requires Committing(meta, server, changes, before, tables) && k < |tables| - 1
    requires k < |changes| && !changes[k].Insert? && id in Matches(tables[k], PlanOf(changes[k]))
    ensures Matches(tables[k], PlanOf(changes[k])) == {id}
  {
    hide Committing, PlanOf, Matches;
    var hit := OneHit(meta, server, changes, before, tables, k);
  }

  /**
   * The committed table, in the user's terms: a row some update was about holds the values entered
   * there and its own elsewhere, a row some delete was about is gone, an inserted row holds the
   * values entered over the defaults, and every other row is as it was.
   */
  lemma SavedRowsHoldEntered(meta: TableMeta, server: Server, changes: seq<Change>, before: Table,
                             tables: seq<Table>, k: nat, id: nat)
    requires Committing(meta, server, changes, before, tables) && VersionLocked(changes)
    requires |tables| == |changes| + 1 && k < |changes|
    requires forall i, j :: 0 <= i < j ==> server.newId(i) != server.newId(j)
    ensures var final, c := tables[|changes|], changes[k];
      && (c.Update? && Concerns(c, before, id) ==>
            id in final && final[id].version == server.xid && HoldsEntered(before[id].cells, final[id].cells, c.changes))
      && (c.Delete? && Concerns(c, before, id) ==> id !in final)
      && (c.Insert? && id == server.newId(k) ==>
            id in final && final[id].version == server.xid && HoldsEntered(server.defaults(k), final[id].cells, Typed(c)))
  {
    var n, c := |changes|, changes[k];
    StatementRan(meta, server, changes, before, tables, k);
    SavedTable(meta, server, changes, before, tables, n, id);
    if Concerns(c, before, id) {
      NewIdsApart(meta, server, changes, before, tables, id);
      forall j | k < j < n ensures !Concerns(changes[j], before, id) {
        OnlyOneConcerns(meta, server, changes, before, tables, k, j, id);
      }
    } else if c.Insert? && id == server.newId(k) {
      NewIdApart(meta, server, changes, before, tables, k);
    }
    hide Committing, PlanOf, Accepts, Assigned, HoldsEntered, Exec, Concerns, Typed;
    if Concerns(c, before, id) {
      SavedStays(server, changes, before, id, k, n);
      SavedByOne(meta, server, changes, before, id, k);
    } else if c.Insert? && id == server.newId(k) {
      SavedStays(server, changes, before, id, k, n);
      SavedByOne(meta, server, changes, before, id, k);
    }
  }

  lemma NewIdsApart(meta: TableMeta, server: Server, changes: seq<Change>, before: Table, tables: seq<Table>, id: nat)
    requires Committing(meta, server, changes, before, tables) && id in before
    ensures forall j :: server.newId(j) != id
  {
  }

  lemma NewIdApart(meta: TableMeta, server: Server, changes: seq<Change>, before: Table, tables: seq<Table>, k: nat)
    requires Committing(meta, server, changes, before, tables)
    ensures forall c :: !Concerns(c, before, server.newId(k))
  {
  }

  lemma SavedByOne(meta: TableMeta, server: Server, changes: seq<Change>, before: Table, id: nat, k: nat)
    requires k < |changes| && Accepts(meta, changes[k])
    ensures var c, row := changes[k], SavedRow(server, changes, before, id, k + 1);
      && (c.Update? && Concerns(c, before, id) ==>
            id in before && row.Some? && row.value.version == server.xid
            && HoldsEntered(before[id].cells, row.value.cells, c.changes))
      && (c.Delete? && Concerns(c, before, id) ==> row.None?)
      && (c.Insert? && id == server.newId(k) ==>
            row.Some? && row.value.version == server.xid && HoldsEntered(server.defaults(k), row.value.cells, Typed(c)))
  {
    hide PlanOf, Accepts, Assigned, HoldsEntered, AllHold;
    if id in before { AssignedHoldsEntered(meta, changes[k], before[id].cells); }
    AssignedHoldsEntered(meta, changes[k], server.defaults(k));
  }

  /** A row no change was about, and none made, is as it was. */
  lemma OtherRowsStay(meta: TableMeta, server: Server, changes: seq<Change>, before: Table, tables: seq<Table>, id: nat)
    requires Committing(meta, server, changes, before, tables) && VersionLocked(changes)
    requires |tables| == |changes| + 1
    requires forall j :: 0 <= j < |changes| ==> !Concerns(changes[j], before, id) && !(changes[j].Insert? && server.newId(j) == id)
    ensures Lookup(tables[|changes|], id) == Lookup(before, id)
  {
    hide Concerns, Committing;
    SavedTable(meta, server, changes, before, tables, |changes|, id);
    Unconcerned(server, changes, before, id, |changes|);
  }

  lemma {:induction false} Unconcerned(server: Server, changes: seq<Change>, before: Table, id: nat, n: nat)
    requires n <= |changes|
    requires forall j :: 0 <= j < n ==> !Concerns(changes[j], before, id) && !(changes[j].Insert? && server.newId(j) == id)
    ensures SavedRow(server, changes, before, id, n) == Lookup(before, id)
  {
    hide Concerns, PlanOf, Assigned, Lookup;
    if n > 0 { Unconcerned(server, changes, before, id, n - 1); }
  }

  /** The row a version-locked change is about has the version seen, and the key it names. */
  lemma ConcernedRow(meta: TableMeta, c: Change, before: Table, id: nat)
    requires Accepts(meta, c) && !c.Insert? && c.identity.xmin.Some? && Concerns(c, before, id)
    ensures before[id].version == c.identity.xmin.value
    ensures forall k :: 0 <= k < |c.identity.key| ==>
      var column := c.identity.key[k].column;
      column in before[id].cells && Carries(before[id].cells[column], c.identity.key[k].value)
      && before[id].cells[column] != Text(None)
  {
    VersionPinned(c, before[id]);
    forall k | 0 <= k < |c.identity.key|
      ensures c.identity.key[k].column in before[id].cells
        && Carries(before[id].cells[c.identity.key[k].column], c.identity.key[k].value)
        && before[id].cells[c.identity.key[k].column] != Text(None)
    {
      hide PlanOf, Carries, ToBind, BindOf;
      KeyPlace(c, k);
      assert Holds(PlanOf(c).where[k], PlanOf(c).params, before[id]);
      assert KeyUsable(meta, c.identity.key[k]);
      SentIff(c.identity.key[k].value);
    }
  }
}
