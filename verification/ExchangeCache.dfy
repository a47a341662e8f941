/** The futures client's cached exchange information, refreshed when it is older than an hour, and the precision
    lookups that read it. Each clock reading is a parameter, in seconds. */
module ExchangeCache {
  import opened Wrappers

  const MAX_AGE := 3600

  datatype Symbol = Symbol(name: string, quantityPrecision: int, pricePrecision: int, quotePrecision: int)
  datatype Exchange = Exchange(symbols: seq<Symbol>, lastUpdateTime: int)
  datatype PrecisionType = Quantity | Price | Quote

  const UNSET := Exchange([], -1)

  /** The reply to an exchangeInfo request: the symbols, or an exception. */
  type Reply = Option<seq<Symbol>>

  predicate Stale(e: Exchange, now: int) {
    e.lastUpdateTime < 0 || now - e.lastUpdateTime > MAX_AGE
  }

  function PrecisionOf(s: Symbol, kind: PrecisionType): int {
    match kind
    case Quantity => s.quantityPrecision
    case Price => s.pricePrecision
    case Quote => s.quotePrecision
  }

  /** r is the precision of the first symbol of that name, or 1 without one. */
  ghost predicate IsPrecision(symbols: seq<Symbol>, kind: PrecisionType, name: string, r: int) {
    if exists i :: 0 <= i < |symbols| && symbols[i].name == name then
      exists i :: 0 <= i < |symbols| && symbols[i].name == name && r == PrecisionOf(symbols[i], kind)
                  && forall j :: 0 <= j < i ==> symbols[j].name != name
    else r == 1
  }

  // ---- Runs ------------------------------------------------------------------------------------

  /** A call: getExchangeInfo, a precision lookup, or setExchangeInfo. `check` and `store` are the clock before the
      request and when its reply is stored. */
  datatype Op =
    | Get(force: bool, check: int, store: int, reply: Reply)
    | Lookup(kind: PrecisionType, name: string, check: int, store: int, reply: Reply)
    | Set(exchange: Exchange, check: int)

  /** Does the call ask the exchange? */
  predicate Asks(e: Exchange, op: Op) {
    match op
    case Get(force, check, _, _) => Stale(e, check) || e.symbols == [] || force
    case Lookup(_, _, check, _, _) => Stale(e, check)
    case Set(_, _) => false
  }

  function Step(e: Exchange, op: Op): Exchange {
    if op.Set? then op.exchange
    else if Asks(e, op) && op.reply.Some? then Exchange(op.reply.value, op.store)
    else e
  }

  /** The call returns rather than throws. */
  predicate Answers(e: Exchange, op: Op) {
    op.Set? || (Asks(e, op) ==> op.reply.Some?)
  }

  function Run(ops: seq<Op>): Exchange {
    if ops == [] then UNSET else Step(Run(ops[..|ops| - 1]), ops[|ops| - 1])
  }

  function End(op: Op): int {
    if op.Set? then op.check else op.store
  }

  /** Calls follow one another on a clock that never goes back; nobody sets a snapshot dated in the future. */
  ghost predicate Sequential(ops: seq<Op>) {
    && (forall i :: 0 <= i < |ops| ==> 0 <= ops[i].check <= End(ops[i]))
    && (forall i :: 0 < i < |ops| ==> End(ops[i - 1]) <= ops[i].check)
    && (forall i :: 0 <= i < |ops| && ops[i].Set? ==> ops[i].exchange.lastUpdateTime <= ops[i].check)
  }

  lemma {:induction false} NeverFromTheFuture(ops: seq<Op>)
    requires Sequential(ops) && ops != []
    ensures Run(ops).lastUpdateTime <= End(ops[|ops| - 1])
  {
    if |ops| > 1 {
      var before := ops[..|ops| - 1];
      assert before[|before| - 1] == ops[|ops| - 2];
      NeverFromTheFuture(before);
    }
  }

  /** The snapshot the last call returns from is dated, at most an hour old when the call checked it, and not from
      the future; a refresh that fails leaves the cache as it was. A forced call returns what the exchange replied; a
      call for the exchange info returns no symbols only if that was the reply; a dated, recent snapshot with symbols
      is not replaced unless forced. */
  lemma ReturnedSnapshotIsFresh(ops: seq<Op>)
    requires Sequential(ops) && ops != [] && !ops[|ops| - 1].Set?
    ensures var op, before, after := ops[|ops| - 1], Run(ops[..|ops| - 1]), Run(ops);
            && (Answers(before, op) ==> 0 <= after.lastUpdateTime <= op.store
                                        && op.check - after.lastUpdateTime <= 3600)
            && (!Answers(before, op) ==> after == before)
            && (Answers(before, op) && after != before ==> op.reply == Some(after.symbols)
                                                            && after.lastUpdateTime == op.store)
            && (Answers(before, op) && op.Get? ==>
                  && (op.force ==> op.reply == Some(after.symbols) && after.lastUpdateTime == op.store)
                  && (after.symbols == [] ==> op.reply == Some([])))
            && ((0 <= before.lastUpdateTime && op.check - before.lastUpdateTime <= 3600 && before.symbols != []
                 && !(op.Get? && op.force)) ==>
                  after == before)
  {
    if |ops| > 1 {
      var front := ops[..|ops| - 1];
      assert front[|front| - 1] == ops[|ops| - 2];
      NeverFromTheFuture(front);
    }
  }

  /** Symbols and date of the cached snapshot always come from one and the same reply or set call. */
  lemma {:induction false} SnapshotHasOneOrigin(ops: seq<Op>)
    ensures Run(ops) == Exchange([], -1)
            || exists op :: op in ops && if op.Set? then Run(ops) == op.exchange
                                         else op.reply.Some? && Run(ops) == Exchange(op.reply.value, op.store)
  {
    if ops != [] {
      var before, op := ops[..|ops| - 1], ops[|ops| - 1];
      SnapshotHasOneOrigin(before);
      assert op in ops;
      assert forall o :: o in before ==> o in ops;
    }
  }

  // ---- The cache -------------------------------------------------------------------------------

  class RestClient {
    var exchange: Exchange

    constructor ()
      ensures exchange == Exchange([], -1)
    {
      exchange := UNSET;
    }

    method SetExchangeInfo(e: Exchange)
      modifies this
      ensures exchange == e == Step(old(exchange), Op.Set(e, 0))
    {
      exchange := e;
    }

    /** Returns whether it returned normally. */
    method UpdateExchangeInfo(force: bool, check: int, store: int, reply: Reply) returns (ok: bool)
      modifies this
      ensures exchange == Step(old(exchange), Get(force, check, store, reply))
      ensures ok <==> Answers(old(exchange), Get(force, check, store, reply))
      ensures var e := old(exchange);
              var asks := force || e.lastUpdateTime < 0 || check - e.lastUpdateTime > 3600 || e.symbols == [];
              && (ok <==> !asks || reply.Some?)
              && exchange == if asks && reply.Some? then Exchange(reply.value, store) else e
    {
      var forced := force;
      if exchange.lastUpdateTime < 0 || check - exchange.lastUpdateTime > MAX_AGE {
        forced := true;
      }
      if exchange.symbols == [] || forced {
        if reply.None? {
          return false;
        }
        var fetched := Exchange(reply.value, -1);
        fetched := fetched.(lastUpdateTime := store);
        exchange := fetched;
      }
      return true;
    }

    method GetExchangeInfo(force: bool, check: int, store: int, reply: Reply) returns (r: Result<Exchange, ()>)
      modifies this
      ensures exchange == Step(old(exchange), Get(force, check, store, reply))
      ensures r.Success? <==> Answers(old(exchange), Get(force, check, store, reply))
      ensures r.Success? ==> r.value == exchange
      ensures r.Success? && force ==> reply.Some? && r.value == Exchange(reply.value, store)
    {
      var ok := UpdateExchangeInfo(force, check, store, reply);
      return if ok then Success(exchange) else Failure(());
    }

    method FindPrecisionForSymbol(kind: PrecisionType, symbol: string, check: int, store: int, reply: Reply)
        returns (r: Result<int, ()>)
      modifies this
      ensures exchange == Step(old(exchange), Lookup(kind, symbol, check, store, reply))
      ensures r.Success? <==> Answers(old(exchange), Lookup(kind, symbol, check, store, reply))
      ensures var e := old(exchange);
              var asks := e.lastUpdateTime < 0 || check - e.lastUpdateTime > 3600;
              && (r.Success? <==> !asks || reply.Some?)
              && exchange == if asks && reply.Some? then Exchange(reply.value, store) else e
      ensures r.Success? ==> IsPrecision(exchange.symbols, kind, symbol, r.value)
      ensures r.Success? ==>
                forall i :: 0 <= i < |exchange.symbols| && exchange.symbols[i].name == symbol
                            && (forall j :: 0 <= j < i ==> exchange.symbols[j].name != symbol) ==>
                              && (kind == Quantity ==> r.value == exchange.symbols[i].quantityPrecision)
                              && (kind == Price ==> r.value == exchange.symbols[i].pricePrecision)
                              && (kind == Quote ==> r.value == exchange.symbols[i].quotePrecision)
      ensures r.Success? && (forall i :: 0 <= i < |exchange.symbols| ==> exchange.symbols[i].name != symbol) ==>
                r.value == 1
    {
      if exchange.lastUpdateTime < 0 || check - exchange.lastUpdateTime > MAX_AGE {
        var ok := UpdateExchangeInfo(true, check, store, reply);
        if !ok {
          return Failure(());
        }
      }
      for i := 0 to |exchange.symbols|
        invariant forall j :: 0 <= j < i ==> exchange.symbols[j].name != symbol
      {
        if exchange.symbols[i].name == symbol {
          return Success(PrecisionOf(exchange.symbols[i], kind));
        }
      }
      return Success(1);
    }
  }
}
