module LedgerRuns {
  // Every interleaving of many stores over one usage table: stores open and drop, and any number of
  // rows in any store reserve, grow, are kept or are thrown away, in any order.

  import opened Wrappers
  import opened Sums
  import opened Ledger

  /** Stopped: a value was refused, so decoding ended and only the drop of the budget is left. */
  datatype Phase = Decoding | Stopped | Kept | Refused

  /** One row's reservation; `values` lists the decoded sizes accounted so far. */
  datatype RowCharge = RowCharge(rawBytes: nat, figures: RowFigures, values: seq<nat>, phase: Phase)

  datatype Store = Store(conn: string, retained: nat, rows: seq<RowCharge>)

  datatype App = App(stores: map<nat, Store>, usage: map<string, nat>)

  datatype Op =
    | Open(id: nat, conn: string)
    | ReserveRow(id: nat, rawBytes: nat, columns: nat)
    | Account(id: nat, row: nat, bytes: nat)
    | Keep(id: nat, row: nat)
    | DropRow(id: nat, row: nat)
    | DropStore(id: nat)

  function View(app: App, id: nat): Books
    requires id in app.stores
  {
    Books(app.stores[id].retained, app.usage)
  }

  ghost predicate Admits(app: App, id: nat, bytes: nat)
    requires id in app.stores
  {
    Fits(View(app, id), app.stores[id].conn, SumMap(app.usage), bytes)
  }

  function WithBooks(app: App, id: nat, books: Books, rows: seq<RowCharge>): App
    requires id in app.stores
  {
    App(app.stores[id := app.stores[id].(retained := books.retained, rows := rows)], books.usage)
  }

  /** A row budget borrows its store, so a store cannot be dropped while a row still decodes. */
  predicate Settled(s: Store) {
    forall r :: r in s.rows ==> r.phase.Kept? || r.phase.Refused?
  }

  /** Whether the program can perform `op` here at all. */
  predicate Enabled(app: App, op: Op) {
    match op
    case Open(id, _) => id !in app.stores
    case ReserveRow(id, _, _) => id in app.stores
    case Account(id, row, _) =>
      id in app.stores && row < |app.stores[id].rows| && app.stores[id].rows[row].phase.Decoding?
    case Keep(id, row) =>
      id in app.stores && row < |app.stores[id].rows| && app.stores[id].rows[row].phase.Decoding?
    case DropRow(id, row) =>
      && id in app.stores && row < |app.stores[id].rows|
      && (app.stores[id].rows[row].phase.Decoding? || app.stores[id].rows[row].phase.Stopped?)
    case DropStore(id) => id in app.stores && Settled(app.stores[id])
  }

  ghost function Step(app: App, op: Op): App
    requires Enabled(app, op)
  {
    match op
    case Open(id, conn) => app.(stores := app.stores[id := Store(conn, 0, [])])
    case ReserveRow(id, rawBytes, columns) =>
      var s := app.stores[id];
      var wire := RowEstimate(rawBytes, columns);
      if Admits(app, id, wire) then
        WithBooks(app, id, Charged(View(app, id), s.conn, wire),
                  s.rows + [RowCharge(rawBytes, OpenRow(rawBytes, columns), [], Decoding)])
      else app
    case Account(id, row, bytes) =>
      var s := app.stores[id];
      var r := s.rows[row];
      var extra := ExtraNeeded(r.figures, bytes);
      var ok := extra == 0 || Admits(app, id, extra);
      var r' := r.(figures := Grown(r.figures, bytes, ok),
                   values := if ok then r.values + [bytes] else r.values,
                   phase := if ok then Decoding else Stopped);
      WithBooks(app, id, if ok && extra > 0 then Charged(View(app, id), s.conn, extra) else View(app, id),
                s.rows[row := r'])
    case Keep(id, row) =>
      var s := app.stores[id];
      WithBooks(app, id, View(app, id), s.rows[row := s.rows[row].(phase := Kept)])
    case DropRow(id, row) =>
      var s := app.stores[id];
      var r := s.rows[row];
      WithBooks(app, id, Refunded(View(app, id), s.conn, SatSub(r.figures.reserved, r.figures.wire)),
                s.rows[row := r.(phase := Refused)])
    case DropStore(id) =>
      var s := app.stores[id];
      App(app.stores - {id}, Lowered(app.usage, s.conn, s.retained))
  }

  /** Runs a schedule, passing over what the program could not do at that point. */
  ghost function Run(app: App, ops: seq<Op>): App
    decreases |ops|
  {
    if |ops| == 0 then app
    else Run(if Enabled(app, ops[0]) then Step(app, ops[0]) else app, ops[1..])
  }

  const Start: App := App(map[], map[])

  /** What a row costs its store right now. */
  function Charge(r: RowCharge): nat {
    if r.phase.Refused? then r.figures.wire else r.figures.reserved
  }

  function Charges(rows: seq<RowCharge>): seq<nat> {
    seq(|rows|, i requires 0 <= i < |rows| => Charge(rows[i]))
  }

  ghost predicate RowInv(r: RowCharge) {
    && r.figures.wire == RowEstimate(r.rawBytes, r.figures.columns) <= r.figures.reserved
    && (r.phase.Decoding? || r.phase.Kept? ==> DecodedSoFar(r.figures, r.figures.wire, r.values))
  }

  ghost predicate StoreInv(s: Store) {
    && s.retained == SumSeq(Charges(s.rows))
    && s.retained <= RESULT_BUDGET
    && forall i :: 0 <= i < |s.rows| ==> RowInv(s.rows[i])
  }

  function RetainedBy(stores: map<nat, Store>, conn: string): map<nat, nat> {
    map id | id in stores && stores[id].conn == conn :: stores[id].retained
  }

  ghost predicate ConnectionInv(app: App, conn: string) {
    && GetOrZero(app.usage, conn) == SumMap(RetainedBy(app.stores, conn))
    && GetOrZero(app.usage, conn) <= CONNECTION_BUDGET
    && (conn in app.usage ==> exists id :: id in app.stores && app.stores[id].conn == conn)
  }

  /** The books balance at every level and no limit is exceeded. */
  ghost predicate Inv(app: App) {
    && (forall id :: id in app.stores ==> StoreInv(app.stores[id]))
    && (forall conn :: ConnectionInv(app, conn))
    && SumMap(app.usage) <= APP_BUDGET
  }

  lemma ReplaceCharge(rows: seq<RowCharge>, i: nat, r: RowCharge)
    requires i < |rows|
    ensures SumSeq(Charges(rows[i := r])) + Charge(rows[i]) == SumSeq(Charges(rows)) + Charge(r)
    ensures Charge(rows[i]) <= SumSeq(Charges(rows))
  {
    assert Charges(rows[i := r]) == Charges(rows)[i := Charge(r)];
    SumSeqUpdate(Charges(rows), i, Charge(r));
    SumSeqElement(Charges(rows), i);
  }

  lemma AppendCharge(rows: seq<RowCharge>, r: RowCharge)
    ensures SumSeq(Charges(rows + [r])) == SumSeq(Charges(rows)) + Charge(r)
  {
    assert Charges(rows + [r]) == Charges(rows) + [Charge(r)];
    SumSeqAppend(Charges(rows), [Charge(r)]);
    assert SumSeq([Charge(r)]) == Charge(r);
  }

  /** Retained bytes of a connection move with the one store that changed. */
  lemma RetainedByUpdate(stores: map<nat, Store>, id: nat, s: Store, conn: string)
    requires id in stores && s.conn == stores[id].conn
    ensures s.conn == conn ==>
      SumMap(RetainedBy(stores[id := s], conn)) + stores[id].retained
      == SumMap(RetainedBy(stores, conn)) + s.retained
    ensures s.conn == conn ==> stores[id].retained <= SumMap(RetainedBy(stores, conn))
    ensures s.conn != conn ==> RetainedBy(stores[id := s], conn) == RetainedBy(stores, conn)
  {
    if s.conn == conn {
      assert RetainedBy(stores[id := s], conn) == RetainedBy(stores, conn)[id := s.retained];
      SumMapUpdate(RetainedBy(stores, conn), id, s.retained);
      SumMapElement(RetainedBy(stores, conn), id);
    }
  }

  /** Charging or refunding one store, with its rows adjusted to match, keeps the books. */
  lemma MoveKeepsInv(app: App, id: nat, s: Store, usage: map<string, nat>)
    requires Inv(app) && id in app.stores
    requires StoreInv(s) && s.conn == app.stores[id].conn
    requires usage - {s.conn} == app.usage - {s.conn}
    requires GetOrZero(usage, s.conn) + app.stores[id].retained == GetOrZero(app.usage, s.conn) + s.retained
    requires GetOrZero(usage, s.conn) <= CONNECTION_BUDGET && SumMap(usage) <= APP_BUDGET
    ensures Inv(App(app.stores[id := s], usage))
  {
    var app' := App(app.stores[id := s], usage);
    forall conn ensures ConnectionInv(app', conn) {
      assert ConnectionInv(app, conn);
      RetainedByUpdate(app.stores, id, s, conn);
      if conn == s.conn {
        assert id in app'.stores;
      } else {
        OtherConnection(app, app', s.conn, conn);
      }
    }
  }

  lemma ChargeKeepsInv(app: App, id: nat, bytes: nat, rows: seq<RowCharge>)
    requires Inv(app) && id in app.stores && Admits(app, id, bytes)
    requires SumSeq(Charges(rows)) == app.stores[id].retained + bytes
    requires forall i :: 0 <= i < |rows| ==> RowInv(rows[i])
    ensures Inv(WithBooks(app, id, Charged(View(app, id), app.stores[id].conn, bytes), rows))
  {
    var conn := app.stores[id].conn;
    var usage := Charged(View(app, id), conn, bytes).usage;
    assert usage - {conn} == app.usage - {conn};
    SumMapUpdate(app.usage, conn, GetOrZero(app.usage, conn) + bytes);
    assert StoreInv(app.stores[id]);
    MoveKeepsInv(app, id, app.stores[id].(retained := app.stores[id].retained + bytes, rows := rows), usage);
  }

  lemma SameBooksKeepsInv(app: App, id: nat, rows: seq<RowCharge>)
    requires Inv(app) && id in app.stores
    requires SumSeq(Charges(rows)) == app.stores[id].retained
    requires forall i :: 0 <= i < |rows| ==> RowInv(rows[i])
    ensures Inv(WithBooks(app, id, View(app, id), rows))
  {
    assert StoreInv(app.stores[id]);
    assert ConnectionInv(app, app.stores[id].conn);
    MoveKeepsInv(app, id, app.stores[id].(rows := rows), app.usage);
  }

  /** In a balanced state nothing that is subtracted exceeds what it is subtracted from. */
  lemma NothingSaturates(app: App, id: nat)
    requires Inv(app) && id in app.stores
    ensures app.stores[id].retained <= GetOrZero(app.usage, app.stores[id].conn)
    ensures forall i :: 0 <= i < |app.stores[id].rows| ==>
      var f := app.stores[id].rows[i].figures;
      && f.wire <= f.reserved
      && (!app.stores[id].rows[i].phase.Refused? ==> f.reserved - f.wire <= app.stores[id].retained)
  {
    var s := app.stores[id];
    assert ConnectionInv(app, s.conn) && StoreInv(s);
    RetainedByUpdate(app.stores, id, s, s.conn);
    forall i | 0 <= i < |s.rows| ensures RowInv(s.rows[i]) && Charge(s.rows[i]) <= s.retained {
      ReplaceCharge(s.rows, i, s.rows[i]);
    }
  }

  /** Lowering one entry by no more than it holds subtracts exactly, removal included. */
  lemma LoweredExactly(usage: map<string, nat>, conn: string, bytes: nat)
    requires bytes <= GetOrZero(usage, conn)
    ensures GetOrZero(Lowered(usage, conn, bytes), conn) + bytes == GetOrZero(usage, conn)
    ensures Lowered(usage, conn, bytes) - {conn} == usage - {conn}
    ensures SumMap(Lowered(usage, conn, bytes)) + bytes == SumMap(usage)
    ensures conn in Lowered(usage, conn, bytes) ==> bytes < GetOrZero(usage, conn)
  {
    if conn in usage {
      SumMapUpdate(usage, conn, usage[conn] - bytes);
      if usage[conn] == bytes { SumMapRemove(usage, conn); }
    }
  }

  /** The refund of one row, seen from the books alone. */
  lemma RefundBooks(app: App, id: nat, row: nat)
    requires Inv(app) && Enabled(app, DropRow(id, row))
    ensures var s := app.stores[id];
      var r := s.rows[row];
      var bytes := r.figures.reserved - r.figures.wire;
      && 0 <= bytes <= s.retained
      && Refunded(View(app, id), s.conn, bytes).retained == s.retained - bytes
      && GetOrZero(Refunded(View(app, id), s.conn, bytes).usage, s.conn) == GetOrZero(app.usage, s.conn) - bytes
      && Refunded(View(app, id), s.conn, bytes).usage - {s.conn} == app.usage - {s.conn}
      && SumMap(Refunded(View(app, id), s.conn, bytes).usage) == SumMap(app.usage) - bytes
  {
    var s := app.stores[id];
    var r := s.rows[row];
    NothingSaturates(app, id);
    LoweredExactly(app.usage, s.conn, r.figures.reserved - r.figures.wire);
  }

  /** A store whose row was refused after it opened keeps its wire estimate charged and no more. */
  lemma RefundedStoreInv(s: Store, row: nat)
    requires StoreInv(s) && row < |s.rows| && !s.rows[row].phase.Refused?
    ensures var r := s.rows[row];
      var bytes := r.figures.reserved - r.figures.wire;
      && 0 <= bytes <= s.retained
      && StoreInv(Store(s.conn, s.retained - bytes, s.rows[row := r.(phase := Refused)]))
  {
    hide DecodedSoFar, RowEstimate, Charges, SumSeq;
    assert RowInv(s.rows[row]);
    ReplaceCharge(s.rows, row, s.rows[row].(phase := Refused));
  }

  lemma RefundKeepsInv(app: App, id: nat, row: nat)
    requires Inv(app) && Enabled(app, DropRow(id, row))
    ensures Inv(Step(app, DropRow(id, row)))
  {
    hide Refunded, SumMap, GetOrZero, StoreInv;
    var s := app.stores[id];
    var r := s.rows[row];
    RefundBooks(app, id, row);
    var bytes := r.figures.reserved - r.figures.wire;
    var s' := Store(s.conn, s.retained - bytes, s.rows[row := r.(phase := Refused)]);
    assert StoreInv(s);
    RefundedStoreInv(s, row);
    assert ConnectionInv(app, s.conn);
    MoveKeepsInv(app, id, s', Refunded(View(app, id), s.conn, bytes).usage);
  }

  lemma AccountKeepsInv(app: App, id: nat, row: nat, bytes: nat)
    requires Inv(app) && Enabled(app, Account(id, row, bytes))
    ensures Inv(Step(app, Account(id, row, bytes)))
  {
    var s := app.stores[id];
    var r := s.rows[row];
    var extra := ExtraNeeded(r.figures, bytes);
    var ok := extra == 0 || Admits(app, id, extra);
    var r' := r.(figures := Grown(r.figures, bytes, ok),
                 values := if ok then r.values + [bytes] else r.values,
                 phase := if ok then Decoding else Stopped);
    assert StoreInv(s) && RowInv(r);
    ReplaceCharge(s.rows, row, r');
    if ok {
      GrowDecoded(r.figures, r.figures.wire, r.values, bytes);
    }
    if ok && extra > 0 {
      ChargeKeepsInv(app, id, extra, s.rows[row := r']);
    } else {
      SameBooksKeepsInv(app, id, s.rows[row := r']);
    }
  }

  lemma OpenKeepsInv(app: App, id: nat, conn: string)
    requires Inv(app) && id !in app.stores
    ensures Inv(Step(app, Open(id, conn)))
  {
    hide SumMap, RowInv;
    var app' := Step(app, Open(id, conn));
    forall c ensures ConnectionInv(app', c) {
      assert ConnectionInv(app, c);
      if c == conn {
        assert RetainedBy(app'.stores, c) == RetainedBy(app.stores, c)[id := 0];
        SumMapUpdate(RetainedBy(app.stores, c), id, 0);
        assert id in app'.stores && app'.stores[id].conn == c;
      } else {
        assert RetainedBy(app'.stores, c) == RetainedBy(app.stores, c);
        OtherConnection(app, app', conn, c);
      }
    }
  }

  lemma RetainedByDrop(stores: map<nat, Store>, id: nat, conn: string)
    requires id in stores
    ensures stores[id].conn == conn ==>
      SumMap(RetainedBy(stores, conn)) == stores[id].retained + SumMap(RetainedBy(stores - {id}, conn))
    ensures stores[id].conn != conn ==> RetainedBy(stores - {id}, conn) == RetainedBy(stores, conn)
  {
    if stores[id].conn == conn {
      assert RetainedBy(stores - {id}, conn) == RetainedBy(stores, conn) - {id};
      SumMapRemove(RetainedBy(stores, conn), id);
    }
  }

  /** A connection that still retains bytes has a live store. */
  lemma RetainedMeansLive(stores: map<nat, Store>, conn: string)
    requires SumMap(RetainedBy(stores, conn)) > 0
    ensures exists id :: id in stores && stores[id].conn == conn
  {
    var id := SomeKey(RetainedBy(stores, conn));
    assert id in stores && stores[id].conn == conn;
  }

  lemma DropStoreKeepsInv(app: App, id: nat)
    requires Inv(app) && Enabled(app, DropStore(id))
    ensures Inv(Step(app, DropStore(id)))
  {
    var s := app.stores[id];
    var app' := Step(app, DropStore(id));
    NothingSaturates(app, id);
    LoweredExactly(app.usage, s.conn, s.retained);
    forall c ensures ConnectionInv(app', c) {
      assert ConnectionInv(app, c);
      RetainedByDrop(app.stores, id, c);
      if c == s.conn {
        if c in app'.usage { RetainedMeansLive(app'.stores, c); }
      } else {
        OtherConnection(app, app', s.conn, c);
      }
    }
  }

  /** A connection whose entry and stores did not move keeps its invariant. */
  lemma OtherConnection(app: App, app': App, conn: string, c: string)
    requires c != conn && ConnectionInv(app, c)
    requires app'.usage - {conn} == app.usage - {conn}
    requires RetainedBy(app'.stores, c) == RetainedBy(app.stores, c)
    ensures ConnectionInv(app', c)
  {
    assert c in app'.usage <==> c in app'.usage - {conn};
    assert c in app.usage <==> c in app.usage - {conn};
    assert c in app'.usage ==> app'.usage[c] == (app'.usage - {conn})[c] == app.usage[c];
    if c in app'.usage {
      var j :| j in app.stores && app.stores[j].conn == c;
      assert j in RetainedBy(app.stores, c);
      assert j in app'.stores && app'.stores[j].conn == c;
    }
  }

  lemma StepKeepsInv(app: App, op: Op)
    requires Inv(app) && Enabled(app, op)
    ensures Inv(Step(app, op))
  {
    match op
    case Open(id, conn) => OpenKeepsInv(app, id, conn);
    case ReserveRow(id, rawBytes, columns) =>
      var s := app.stores[id];
      var r := RowCharge(rawBytes, OpenRow(rawBytes, columns), [], Decoding);
      assert StoreInv(s);
      AppendCharge(s.rows, r);
      if Admits(app, id, RowEstimate(rawBytes, columns)) {
        assert SumSeq([]) == 0;
        assert RowInv(r);
        ChargeKeepsInv(app, id, RowEstimate(rawBytes, columns), s.rows + [r]);
      }
    case Account(id, row, bytes) => AccountKeepsInv(app, id, row, bytes);
    case Keep(id, row) =>
      var s := app.stores[id];
      assert StoreInv(s) && RowInv(s.rows[row]);
      ReplaceCharge(s.rows, row, s.rows[row].(phase := Kept));
      SameBooksKeepsInv(app, id, s.rows[row := s.rows[row].(phase := Kept)]);
    case DropRow(id, row) => RefundKeepsInv(app, id, row);
    case DropStore(id) => DropStoreKeepsInv(app, id);
  }

  lemma {:induction false} RunKeepsInv(app: App, ops: seq<Op>)
    requires Inv(app)
    ensures Inv(Run(app, ops))
    decreases |ops|
  {
    if |ops| > 0 {
      if Enabled(app, ops[0]) {
        StepKeepsInv(app, ops[0]);
        RunKeepsInv(Step(app, ops[0]), ops[1..]);
      } else {
        RunKeepsInv(app, ops[1..]);
      }
    }
  }

  /** The books balance, and no limit is passed, after every schedule. */
  lemma EveryReachableStateBalances(ops: seq<Op>)
    ensures Inv(Run(Start, ops))
  {
    RunKeepsInv(Start, ops);
  }

  /** Whether `bytes` more are inside all three limits, counted from the rows and stores themselves. */
  ghost predicate Room(app: App, id: nat, bytes: int)
    requires id in app.stores
  {
    && SumSeq(Charges(app.stores[id].rows)) + bytes <= 536_870_912
    && SumMap(RetainedBy(app.stores, app.stores[id].conn)) + bytes <= 1_073_741_824
    && SumMap(app.usage) + bytes <= 2_147_483_648
  }

  lemma AdmitsIffRoom(app: App, id: nat, bytes: nat)
    requires Inv(app) && id in app.stores
    ensures Admits(app, id, bytes) <==> Room(app, id, bytes)
  {
    assert StoreInv(app.stores[id]) && ConnectionInv(app, app.stores[id].conn);
  }

  /** In every reachable state a row opens exactly when its wire estimate is inside the three limits. */
  lemma RowOpensIff(ops: seq<Op>, id: nat, rawBytes: nat, columns: nat)
    requires id in Run(Start, ops).stores
    ensures var app := Run(Start, ops);
      var rows, rows' := app.stores[id].rows, Step(app, ReserveRow(id, rawBytes, columns)).stores[id].rows;
      if Room(app, id, 4 * rawBytes + 256 * columns)
      then |rows'| == |rows| + 1 && rows'[..|rows|] == rows && rows'[|rows|].phase.Decoding?
           && Charge(rows'[|rows|]) == 4 * rawBytes + 256 * columns
      else Step(app, ReserveRow(id, rawBytes, columns)) == app
  {
    var app := Run(Start, ops);
    RunKeepsInv(Start, ops);
    EstimateWithin(app, id, rawBytes, columns, 0);
  }

  /** An estimate, less what is reserved already, is admitted exactly when the plain sum is. */
  lemma EstimateWithin(app: App, id: nat, bytes: nat, columns: nat, reserved: nat)
    requires Inv(app) && id in app.stores && reserved <= 536_870_912
    ensures RowEstimate(bytes, columns) <= reserved <==> 4 * bytes + 256 * columns <= reserved
    ensures RowEstimate(bytes, columns) > reserved ==>
      (Admits(app, id, RowEstimate(bytes, columns) - reserved) <==> Room(app, id, 4 * bytes + 256 * columns - reserved))
    ensures Admits(app, id, RowEstimate(bytes, columns)) <==> Room(app, id, 4 * bytes + 256 * columns)
    ensures Room(app, id, 4 * bytes + 256 * columns) ==> RowEstimate(bytes, columns) == 4 * bytes + 256 * columns
  {
    hide Charges, SumSeq, SumMap, RetainedBy;
    if RowEstimate(bytes, columns) > reserved {
      AdmitsIffRoom(app, id, RowEstimate(bytes, columns) - reserved);
    }
    AdmitsIffRoom(app, id, RowEstimate(bytes, columns));
  }

  /**
   * In every reachable state one more decoded value leaves a row decoding exactly when the row
   * holds enough already, or what it lacks is inside the three limits.
   */
  lemma ValueTakenIff(ops: seq<Op>, id: nat, row: nat, bytes: nat)
    requires Enabled(Run(Start, ops), Account(id, row, bytes))
    ensures var app := Run(Start, ops);
      var r := app.stores[id].rows[row];
      var r' := Step(app, Account(id, row, bytes)).stores[id].rows[row];
      var needed := 4 * (SumSeq(r.values) + bytes) + 256 * r.figures.columns;
      && (r'.phase.Decoding? <==> needed <= Charge(r) || Room(app, id, needed - Charge(r)))
      && (r'.phase.Decoding? ==> r'.values == r.values + [bytes] && Charge(r') == Max(needed, Charge(r)))
      && (!r'.phase.Decoding? ==> r'.phase.Stopped? && Charge(r') == Charge(r))
  {
    var app := Run(Start, ops);
    RunKeepsInv(Start, ops);
    var s := app.stores[id];
    var r := s.rows[row];
    assert StoreInv(s) && RowInv(r);
    ReplaceCharge(s.rows, row, r);
    TakenIff(app, id, row, bytes);
  }

  lemma TakenIff(app: App, id: nat, row: nat, bytes: nat)
    requires Inv(app) && Enabled(app, Account(id, row, bytes))
    requires var r := app.stores[id].rows[row];
      r.figures.reserved <= 536_870_912 && r.figures.decoded == SumSeq(r.values)
    ensures var r := app.stores[id].rows[row];
      var r' := Step(app, Account(id, row, bytes)).stores[id].rows[row];
      var needed := 4 * (SumSeq(r.values) + bytes) + 256 * r.figures.columns;
      && (r'.phase.Decoding? <==> needed <= r.figures.reserved || Room(app, id, needed - r.figures.reserved))
      && (r'.phase.Decoding? ==> r'.values == r.values + [bytes] && r'.figures.reserved == Max(needed, r.figures.reserved))
      && (!r'.phase.Decoding? ==> r'.phase.Stopped? && r'.figures.reserved == r.figures.reserved)
  {
    hide Charges, SumSeq, SumMap, RetainedBy, Inv;
    var r := app.stores[id].rows[row];
    EstimateWithin(app, id, SatAdd(r.figures.decoded, bytes), r.figures.columns, r.figures.reserved);
    if r.figures.decoded + bytes > USIZE_MAX {
      assert SatAdd(r.figures.decoded, bytes) == USIZE_MAX;
    }
  }

  /** A kept row costs exactly the larger of its wire estimate and its decoded estimate. */
  lemma KeptRowCost(ops: seq<Op>, id: nat, row: nat)
    requires id in Run(Start, ops).stores && row < |Run(Start, ops).stores[id].rows|
    ensures var r := Run(Start, ops).stores[id].rows[row];
      && (r.phase.Kept? ==>
            Charge(r) == Max(ExactEstimate(r.rawBytes, r.figures.columns),
                             ExactEstimate(SumSeq(r.values), r.figures.columns)))
      && (r.phase.Refused? ==> Charge(r) == ExactEstimate(r.rawBytes, r.figures.columns))
  {
    var app := Run(Start, ops);
    var r := app.stores[id].rows[row];
    RunKeepsInv(Start, ops);
    assert StoreInv(app.stores[id]) && RowInv(r);
    ReplaceCharge(app.stores[id].rows, row, r);
    if r.phase.Kept? {
      EstimateExact(r.rawBytes, r.figures.columns);
      EstimateExact(SumSeq(r.values), r.figures.columns);
    } else if r.phase.Refused? {
      EstimateExact(r.rawBytes, r.figures.columns);
    }
  }

  /** Dropping a connection's last store leaves no entry for it behind. */
  lemma LastDropClearsEntry(ops: seq<Op>, id: nat)
    requires Enabled(Run(Start, ops), DropStore(id))
    ensures var app, app' := Run(Start, ops), Step(Run(Start, ops), DropStore(id));
      (forall j :: j in app'.stores ==> app'.stores[j].conn != app.stores[id].conn)
      ==> app.stores[id].conn !in app'.usage
  {
    var app := Run(Start, ops);
    RunKeepsInv(Start, ops);
    StepKeepsInv(app, DropStore(id));
    assert ConnectionInv(Step(app, DropStore(id)), app.stores[id].conn);
  }

  lemma {:induction false} SumAtLeast(s: seq<nat>, each: nat)
    requires forall i :: 0 <= i < |s| ==> s[i] >= each
    ensures SumSeq(s) >= each * |s|
  {
    if |s| > 0 { SumAtLeast(s[..|s| - 1], each); }
  }

  /** Rows that have a column are few enough for the 32-bit offsets that page through them. */
  lemma RowsWithColumnsFitOffsets(ops: seq<Op>, id: nat)
    requires id in Run(Start, ops).stores
    requires forall r :: r in Run(Start, ops).stores[id].rows ==> r.figures.columns > 0
    ensures |Run(Start, ops).stores[id].rows| <= 0x20_0000
  {
    var s := Run(Start, ops).stores[id];
    RunKeepsInv(Start, ops);
    assert StoreInv(s);
    forall i | 0 <= i < |Charges(s.rows)| ensures Charges(s.rows)[i] >= 256 {
      assert s.rows[i] in s.rows && RowInv(s.rows[i]);
    }
    SumAtLeast(Charges(s.rows), 256);
  }
}
