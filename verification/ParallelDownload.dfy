/** The multi-symbol candle download of both clients: one asynchronous download per requested symbol, collected into
    a map in the order the symbols were given. */
module ParallelDownload {
  import opened Wrappers
  import opened CandleDownload
  import opened History

  /** Position of the last request for a symbol. */
  function LastRequest(symbols: seq<string>, s: string): (i: nat)
    requires s in symbols
    ensures i < |symbols| && symbols[i] == s && s !in symbols[i + 1..]
  {
    var n := |symbols| - 1;
    if symbols[n] == s then n
    else
      assert symbols == symbols[..n] + [symbols[n]];
      var i := LastRequest(symbols[..n], s);
      assert symbols[i + 1..] == symbols[..n][i + 1..] + [symbols[n]];
      i
  }

  /** The order in which the downloads happen to finish: each exactly once. */
  ghost predicate IsSchedule(order: seq<nat>, n: nat) {
    && |order| == n
    && (forall j :: 0 <= j < n ==> order[j] < n)
    && (forall i: nat :: i < n ==> i in order)
  }

  ghost predicate AllLive(servers: nat -> Timeline<Bar>, n: nat) {
    forall i: nat :: i < n ==> Live(servers(i))
  }

  /** A finished download: its result or the failure of one of its requests. */
  ghost predicate Finished(one: Result<seq<Candle>, nat>, server: Timeline<Bar>, fails: nat -> bool, start: int,
                           end: int, size: nat)
    requires Live(server) && size >= 1 && start >= NOT_SENT
  {
    && (one.Success? <==> AllAnswered(fails, Requests(server, 0, start, end, size)))
    && (one.Success? ==> one.value == Downloaded(server, start, end, size))
  }

  ghost predicate AllFinished(futures: seq<Option<Result<seq<Candle>, nat>>>, servers: nat -> Timeline<Bar>,
                              fails: nat -> (nat -> bool), start: int, end: int, size: nat)
    requires AllLive(servers, |futures|) && size >= 1 && start >= NOT_SENT
  {
    forall i: nat :: i < |futures| && futures[i].Some? ==>
      Finished(futures[i].value, servers(i), fails(i), start, end, size)
  }

  /** The tasks fill their futures in the order in which they finish. */
  method RunTasks(servers: nat -> Timeline<Bar>, fails: nat -> (nat -> bool), order: seq<nat>, n: nat, start: int,
                  end: int, size: nat)
      returns (futures: seq<Option<Result<seq<Candle>, nat>>>)
    requires AllLive(servers, n) && IsSchedule(order, n) && size >= 1 && start >= NOT_SENT
    ensures |futures| == n && AllFinished(futures, servers, fails, start, end, size)
    ensures forall i: nat :: i < n ==> futures[i].Some?
  {
    hide Within, Downloaded, Collected, Requests, AllAnswered;
    futures := seq(n, _ => None);
    for j := 0 to n
      invariant |futures| == n && AllFinished(futures, servers, fails, start, end, size)
      invariant forall i: nat :: i < n ==> (futures[i].Some? <==> i in order[..j])
    {
      var i := order[j];
      var one := GetHistoricalPrices(servers(i), fails(i), start, end, size);
      futures := futures[i := Some(one)];
      assert order[..j + 1] == order[..j] + [i];
    }
    assert order[..n] == order;
  }

  /** The futures are read in the order of the symbols; the first failure is rethrown, and a repeated symbol keeps
      its last result. */
  method Gather(symbols: seq<string>, futures: seq<Option<Result<seq<Candle>, nat>>>)
      returns (r: Result<map<string, seq<Candle>>, nat>)
    requires |futures| == |symbols| && forall i: nat :: i < |futures| ==> futures[i].Some?
    ensures r.Success? <==> forall i: nat :: i < |futures| ==> futures[i].value.Success?
    ensures r.Success? ==>
            && r.value.Keys == (set s | s in symbols)
            && forall s :: s in symbols ==> r.value[s] == futures[LastRequest(symbols, s)].value.value
    ensures r.Failure? ==>
            && r.error < |futures| && futures[r.error].value.Failure?
            && forall k: nat :: k < r.error ==> futures[k].value.Success?
  {
    var retVal: map<string, seq<Candle>> := map[];
    for i := 0 to |symbols|
      invariant forall k: nat :: k < i ==> futures[k].value.Success?
      invariant retVal.Keys == (set s | s in symbols[..i])
      invariant forall s :: s in symbols[..i] ==> retVal[s] == futures[LastRequest(symbols[..i], s)].value.value
    {
      match futures[i].value {
        case Failure(_) => return Failure(i);
        case Success(candles) =>
          assert symbols[..i + 1] == symbols[..i] + [symbols[i]];
          assert symbols[..i + 1][..i] == symbols[..i];
          retVal := retVal[symbols[i] := candles];
      }
    }
    assert symbols[..|symbols|] == symbols;
    return Success(retVal);
  }

  /** Download i, for the i-th requested symbol, runs against its own exchange timeline; its request k throws when
      fails(i)(k) holds. Whatever the completion order, the result maps exactly the requested symbols, each to the
      single-symbol result of the last request for it; if any download throws, so does the whole. */
  method GetHistoricalPricesOf(symbols: seq<string>, servers: nat -> Timeline<Bar>, fails: nat -> (nat -> bool),
                               order: seq<nat>, start: int, end: int, size: nat)
      returns (r: Result<map<string, seq<Candle>>, nat>)
    requires AllLive(servers, |symbols|) && IsSchedule(order, |symbols|)
    requires size >= 1 && start >= NOT_SENT
    ensures r.Success? <==>
            forall i: nat :: i < |symbols| ==> AllAnswered(fails(i), Requests(servers(i), 0, start, end, size))
    ensures r.Success? ==>
            && r.value.Keys == (set s | s in symbols)
            && forall s :: s in symbols ==>
                 r.value[s] == Downloaded(servers(LastRequest(symbols, s)), start, end, size)
    ensures r.Failure? ==>
            && r.error < |symbols|
            && !AllAnswered(fails(r.error), Requests(servers(r.error), 0, start, end, size))
            && forall i: nat :: i < r.error ==> AllAnswered(fails(i), Requests(servers(i), 0, start, end, size))
  {
    hide Within, Downloaded, Collected, Requests, AllAnswered;
    var futures := RunTasks(servers, fails, order, |symbols|, start, end, size);
    r := Gather(symbols, futures);
  }
}
