module Ledger {
  // The retained-memory budgets of large_values.rs: one store, one connection, the whole app.

  import opened Wrappers
  import opened Sums

  const USIZE_MAX: nat := 0xFFFF_FFFF_FFFF_FFFF
  const RESULT_BUDGET: nat := 512 * 1024 * 1024
  const CONNECTION_BUDGET: nat := 1024 * 1024 * 1024
  const APP_BUDGET: nat := 2 * 1024 * 1024 * 1024

  function SatAdd(a: nat, b: nat): nat {
    if a + b > USIZE_MAX then USIZE_MAX else a + b
  }

  function SatSub(a: nat, b: nat): nat {
    if b > a then 0 else a - b
  }

  function SatMul(a: nat, b: nat): nat {
    if a * b > USIZE_MAX then USIZE_MAX else a * b
  }

  function Max(a: nat, b: nat): nat {
    if a < b then b else a
  }

  /** What `row_estimate` computes: four copies of the bytes and 256 per column, saturating. */
  function RowEstimate(bytes: nat, columns: nat): nat {
    SatAdd(SatMul(bytes, 4), SatMul(columns, 256))
  }

  /** One store's own counter together with the usage table all stores share. */
  datatype Books = Books(retained: nat, usage: map<string, nat>)

  predicate Fits(b: Books, conn: string, appTotal: nat, bytes: nat) {
    && SatAdd(b.retained, bytes) <= RESULT_BUDGET
    && SatAdd(GetOrZero(b.usage, conn), bytes) <= CONNECTION_BUDGET
    && SatAdd(appTotal, bytes) <= APP_BUDGET
  }

  /** The books after a successful reservation. */
  function Charged(b: Books, conn: string, bytes: nat): Books {
    Books(b.retained + bytes, b.usage[conn := GetOrZero(b.usage, conn) + bytes])
  }

  /** A usage table after `bytes` leave a connection: an entry that reaches zero disappears. */
  function Lowered(usage: map<string, nat>, conn: string, bytes: nat): map<string, nat> {
    if conn !in usage then usage
    else if SatSub(usage[conn], bytes) == 0 then usage - {conn}
    else usage[conn := SatSub(usage[conn], bytes)]
  }

  function Refunded(b: Books, conn: string, bytes: nat): Books {
    if bytes == 0 then b
    else Books(SatSub(b.retained, bytes), Lowered(b.usage, conn, bytes))
  }

  /** The map behind the mutex that every store of the app shares. */
  class RetainedUsage {
    var totals: map<string, nat>

    constructor ()
      ensures totals == map[]
    {
      totals := map[];
    }

    method AppTotal() returns (sum: nat)
      ensures sum == SumMap(totals)
    {
      sum := 0;
      var rest := totals;
      while rest != map[]
        invariant sum + SumMap(rest) == SumMap(totals)
        decreases |rest|
      {
        assert rest.Keys != {};
        var k :| k in rest.Keys;
        SumMapRemove(rest, k);
        assert (rest - {k}).Keys == rest.Keys - {k};
        sum := sum + rest[k];
        rest := rest - {k};
      }
    }
  }

  class LargeValueStore {
    const connectionId: string
    const usage: RetainedUsage
    var retained: nat

    constructor (connectionId: string, usage: RetainedUsage)
      ensures this.connectionId == connectionId && this.usage == usage && retained == 0
    {
      this.connectionId := connectionId;
      this.usage := usage;
      retained := 0;
    }

    function View(): Books
      reads this, usage
    {
      Books(retained, usage.totals)
    }

    method Reserve(bytes: nat) returns (ok: bool)
      modifies this, usage
      ensures ok == old(Fits(View(), connectionId, SumMap(usage.totals), bytes))
      ensures ok <==>
        && old(retained) + bytes <= 536_870_912
        && (if connectionId in old(usage.totals) then old(usage.totals)[connectionId] else 0) + bytes <= 1_073_741_824
        && SumMap(old(usage.totals)) + bytes <= 2_147_483_648
      ensures retained == if ok then old(retained) + bytes else old(retained)
      ensures View() == if ok then Charged(old(View()), connectionId, bytes) else old(View())
    {
      if SatAdd(retained, bytes) > RESULT_BUDGET {
        return false;
      }
      var connection := GetOrZero(usage.totals, connectionId);
      var app := usage.AppTotal();
      if SatAdd(connection, bytes) > CONNECTION_BUDGET || SatAdd(app, bytes) > APP_BUDGET {
        return false;
      }
      usage.totals := usage.totals[connectionId := connection + bytes];
      retained := retained + bytes;
      ok := true;
    }

    method Release(bytes: nat)
      modifies this, usage
      ensures View() == Refunded(old(View()), connectionId, bytes)
    {
      if bytes == 0 { return; }
      retained := SatSub(retained, bytes);
      if connectionId in usage.totals {
        usage.totals := usage.totals[connectionId := SatSub(usage.totals[connectionId], bytes)];
        if usage.totals[connectionId] == 0 {
          assert old(usage.totals)[connectionId := 0] - {connectionId} == old(usage.totals) - {connectionId};
          usage.totals := usage.totals - {connectionId};
        }
      }
    }

    /** What dropping the store does to the table it shares. */
    method Drop()
      modifies usage
      ensures usage.totals == Lowered(old(usage.totals), connectionId, retained)
    {
      if connectionId in usage.totals {
        usage.totals := usage.totals[connectionId := SatSub(usage.totals[connectionId], retained)];
        if usage.totals[connectionId] == 0 {
          assert old(usage.totals)[connectionId := 0] - {connectionId} == old(usage.totals) - {connectionId};
          usage.totals := usage.totals - {connectionId};
        }
      }
    }

    /** Reserves one row from its wire size; the budget handed back grows as the row decodes. */
    method ReserveRow(rawBytes: nat, columns: nat) returns (budget: RowBudget?)
      modifies this, usage
      ensures budget != null <==>
        old(Fits(View(), connectionId, SumMap(usage.totals), RowEstimate(rawBytes, columns)))
      ensures budget != null <==>
        && old(retained) + 4 * rawBytes + 256 * columns <= 536_870_912
        && (if connectionId in old(usage.totals) then old(usage.totals)[connectionId] else 0)
           + 4 * rawBytes + 256 * columns <= 1_073_741_824
        && SumMap(old(usage.totals)) + 4 * rawBytes + 256 * columns <= 2_147_483_648
      ensures budget != null ==> fresh(budget) && budget.store == this && !budget.kept
      ensures budget != null ==> budget.row == OpenRow(rawBytes, columns)
      ensures budget != null ==> View() == Charged(old(View()), connectionId, RowEstimate(rawBytes, columns))
      ensures budget == null ==> View() == old(View())
    {
      var ok := Reserve(RowEstimate(rawBytes, columns));
      budget := null;
      if ok {
        budget := new RowBudget(this, rawBytes, columns);
      }
    }
  }

  /** The figures of one row reservation. */
  datatype RowFigures = RowFigures(columns: nat, wire: nat, reserved: nat, decoded: nat)

  function OpenRow(rawBytes: nat, columns: nat): RowFigures {
    RowFigures(columns, RowEstimate(rawBytes, columns), RowEstimate(rawBytes, columns), 0)
  }

  /** What one more decoded value asks of the budget on top of what the row holds. */
  function ExtraNeeded(row: RowFigures, bytes: nat): nat {
    SatSub(RowEstimate(SatAdd(row.decoded, bytes), row.columns), row.reserved)
  }

  function Grown(row: RowFigures, bytes: nat, ok: bool): RowFigures {
    row.(decoded := SatAdd(row.decoded, bytes),
         reserved := if ok then row.reserved + ExtraNeeded(row, bytes) else row.reserved)
  }

  class RowBudget {
    const store: LargeValueStore
    var row: RowFigures
    var kept: bool

    constructor (store: LargeValueStore, rawBytes: nat, columns: nat)
      ensures this.store == store && row == OpenRow(rawBytes, columns) && !kept
    {
      this.store := store;
      row := OpenRow(rawBytes, columns);
      kept := false;
    }

    method Keep()
      modifies this
      ensures kept && row == old(row)
    {
      kept := true;
    }

    /** Adds one value's bytes, topping the reservation up where it must grow; refused, it stays as it was. */
    method Account(bytes: nat) returns (ok: bool)
      modifies this, store, store.usage
      ensures kept == old(kept) && row == Grown(old(row), bytes, ok)
      ensures ok == old(ExtraNeeded(row, bytes) == 0
                        || Fits(store.View(), store.connectionId, SumMap(store.usage.totals), ExtraNeeded(row, bytes)))
      ensures old(row.reserved) <= 536_870_912 ==>
        var needed := 4 * (old(row.decoded) + bytes) + 256 * row.columns;
        ok <==> (
          || needed <= old(row.reserved)
          || (&& old(store.retained) + needed - old(row.reserved) <= 536_870_912
              && (if store.connectionId in old(store.usage.totals) then old(store.usage.totals)[store.connectionId] else 0)
                 + needed - old(row.reserved) <= 1_073_741_824
              && SumMap(old(store.usage.totals)) + needed - old(row.reserved) <= 2_147_483_648))
      ensures store.View() == if ok && old(ExtraNeeded(row, bytes)) > 0
                              then Charged(old(store.View()), store.connectionId, old(ExtraNeeded(row, bytes)))
                              else old(store.View())
    {
      row := row.(decoded := SatAdd(row.decoded, bytes));
      var needed := RowEstimate(row.decoded, row.columns);
      if needed <= row.reserved {
        return true;
      }
      var reserved := store.Reserve(needed - row.reserved);
      if !reserved {
        return false;
      }
      row := row.(reserved := needed);
      ok := true;
    }

    /** An unkept row gives back all but its wire estimate. */
    method Drop()
      modifies store, store.usage
      ensures store.View() ==
        if kept then old(store.View())
        else Refunded(old(store.View()), store.connectionId, SatSub(row.reserved, row.wire))
    {
      if kept { return; }
      store.Release(SatSub(row.reserved, row.wire));
    }
  }

  /** The estimate a row of these decoded values asks for, had nothing saturated. */
  function ExactEstimate(bytes: nat, columns: nat): nat {
    4 * bytes + 256 * columns
  }

  /** A saturating estimate inside any budget did not saturate. */
  lemma EstimateExact(bytes: nat, columns: nat)
    requires RowEstimate(bytes, columns) <= RESULT_BUDGET
    ensures RowEstimate(bytes, columns) == ExactEstimate(bytes, columns)
    ensures bytes < USIZE_MAX
  {
  }

  /** The usage table read through GetOrZero after a charge of `bytes` to `conn`. */
  predicate UsageMoved(before: map<string, nat>, after: map<string, nat>, conn: string, bytes: nat) {
    && GetOrZero(after, conn) == GetOrZero(before, conn) + bytes
    && after - {conn} == before - {conn}
  }

  lemma ChargeMoves(start: map<string, nat>, b: Books, conn: string, moved: nat, bytes: nat)
    requires UsageMoved(start, b.usage, conn, moved)
    ensures UsageMoved(start, Charged(b, conn, bytes).usage, conn, moved + bytes)
  {
    assert b.usage[conn := GetOrZero(b.usage, conn) + bytes] - {conn} == b.usage - {conn};
  }

  lemma RefundMoves(start: map<string, nat>, b: Books, conn: string, moved: nat, bytes: nat)
    requires UsageMoved(start, b.usage, conn, moved) && bytes <= moved
    ensures UsageMoved(start, Refunded(b, conn, bytes).usage, conn, moved - bytes)
  {
    if bytes > 0 && conn in b.usage {
      assert Lowered(b.usage, conn, bytes) - {conn} == b.usage - {conn};
    }
  }

  /** The saturating sum of a row's decoded values is its plain sum while the row still fits. */
  ghost predicate DecodedSoFar(row: RowFigures, wire: nat, values: seq<nat>) {
    && row.decoded == SumSeq(values)
    && row.wire == wire
    && row.reserved == Max(wire, RowEstimate(row.decoded, row.columns))
  }

  lemma GrowDecoded(row: RowFigures, wire: nat, values: seq<nat>, v: nat)
    requires DecodedSoFar(row, wire, values)
    requires Grown(row, v, true).reserved <= RESULT_BUDGET
    ensures DecodedSoFar(Grown(row, v, true), wire, values + [v])
  {
    EstimateExact(SatAdd(row.decoded, v), row.columns);
    assert (values + [v])[..|values|] == values;
  }

  lemma NothingDecoded(rawBytes: nat, columns: nat)
    ensures DecodedSoFar(OpenRow(rawBytes, columns), RowEstimate(rawBytes, columns), [])
  {
  }

  /**
   * Decoding one row against the budget, value by value. A row that is kept costs exactly
   * the larger of its wire estimate and the estimate of all its decoded bytes; a row refused
   * part way costs exactly its wire estimate; a row refused at once costs nothing.
   */
  method DecodeRow(store: LargeValueStore, rawBytes: nat, values: seq<nat>)
    returns (kept: bool, started: bool)
    modifies store, store.usage
    ensures kept ==> started
    ensures started <==>
      old(Fits(store.View(), store.connectionId, SumMap(store.usage.totals), RowEstimate(rawBytes, |values|)))
    ensures !started ==> store.View() == old(store.View())
    ensures started ==> store.retained == old(store.retained) + RowCost(rawBytes, values, kept)
    ensures started ==>
      UsageMoved(old(store.usage.totals), store.usage.totals, store.connectionId, RowCost(rawBytes, values, kept))
    ensures started ==> store.retained <= RESULT_BUDGET
  {
    hide UsageMoved, RowEstimate, SumSeq, SumMap;
    var budget := store.ReserveRow(rawBytes, |values|);
    if budget == null {
      return false, false;
    }
    started := true;
    ghost var first := old(store.usage.totals);
    ghost var wire := RowEstimate(rawBytes, |values|);
    ghost var before := old(store.View());
    EstimateExact(rawBytes, |values|);
    ChargeMoves(first, before, store.connectionId, 0, wire);
    NothingDecoded(rawBytes, |values|);
    assert values[..0] == [];
    var i := 0;
    var ok := true;
    while i < |values| && ok
      invariant 0 <= i <= |values|
      invariant budget.store == store && !budget.kept && budget.row.columns == |values|
      invariant budget.row.wire == wire <= budget.row.reserved
      invariant ok ==> DecodedSoFar(budget.row, wire, values[..i])
      invariant !ok ==> i < |values|
      invariant store.retained == before.retained + budget.row.reserved <= RESULT_BUDGET
      invariant UsageMoved(first, store.usage.totals, store.connectionId, budget.row.reserved)
      decreases |values| - i + (if ok then 1 else 0)
    {
      ghost var books, row := store.View(), budget.row;
      ChargeMoves(first, books, store.connectionId, row.reserved, ExtraNeeded(row, values[i]));
      ok := budget.Account(values[i]);
      if ok {
        GrowDecoded(row, wire, values[..i], values[i]);
        assert values[..i] + [values[i]] == values[..i + 1];
        i := i + 1;
      }
    }
    kept := ok;
    if ok {
      assert values[..i] == values;
      EstimateExact(SumSeq(values), |values|);
      budget.Keep();
    } else {
      RefundMoves(first, store.View(), store.connectionId, budget.row.reserved, budget.row.reserved - wire);
    }
    budget.Drop();
  }

  /** What a row whose decoding started ends up costing. */
  function RowCost(rawBytes: nat, values: seq<nat>, kept: bool): nat {
    var wire := ExactEstimate(rawBytes, |values|);
    if kept then Max(wire, ExactEstimate(SumSeq(values), |values|)) else wire
  }
}
