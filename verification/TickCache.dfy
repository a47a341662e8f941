/** The book-ticker cache of the stream manager. Stream callbacks write it and polling readers take from it; each
    holds the lock for one whole step. Volumes are exact numbers here. */
module TickCache {
  import opened Polling
  import opened Wrappers

  /** `u`, `b`, `a`, `T`, `E` and `e` of an event: identifiers, prices and times that a newer event replaces. */
  datatype Quote = Quote(updateId: int, bid: real, ask: real, transactionTime: int, eventTime: int, eventType: int)

  /** A book-ticker event or cache entry: symbol, quote, and the bid and ask volumes. */
  datatype Tick = Tick(symbol: string, quote: Quote, bidVolume: real, askVolume: real)

  /** One locked step: a callback delivers an event, or a reader polls a pair once. */
  datatype Op = Deliver(tick: Tick) | Poll(pair: string, consume: bool)

  type Ticks = map<string, Tick>

  /** The cache after a step. */
  function Apply(m: Ticks, op: Op): Ticks {
    match op
    case Deliver(t) =>
      if t.symbol in m then
        m[t.symbol := Tick(m[t.symbol].symbol, t.quote, m[t.symbol].bidVolume + t.bidVolume,
                           m[t.symbol].askVolume + t.askVolume)]
      else m[t.symbol := t]
    case Poll(pair, consume) =>
      if pair !in m then m
      else if consume then m - {pair}
      else m[pair := m[pair].(bidVolume := 0.0, askVolume := 0.0)]
  }

  /** What a step hands to its caller. */
  function Output(m: Ticks, op: Op): Option<Tick> {
    if op.Poll? && op.pair in m then Some(m[op.pair]) else None
  }

  /** The cache after a whole log, starting empty. */
  function Replay(log: seq<Op>): Ticks {
    if log == [] then map[] else Apply(Replay(log[..|log| - 1]), log[|log| - 1])
  }

  // ---- What the log says, without the cache ----------------------------------------------------

  predicate Delivers(op: Op, s: string) { op.Deliver? && op.tick.symbol == s }
  predicate Polls(op: Op, s: string) { op.Poll? && op.pair == s }
  predicate Consumes(op: Op, s: string) { Polls(op, s) && op.consume }

  /** The events of s since the last consuming read of s. */
  function Unconsumed(log: seq<Op>, s: string): seq<Tick> {
    if log == [] then []
    else
      var op, before := log[|log| - 1], log[..|log| - 1];
      if Consumes(op, s) then []
      else if Delivers(op, s) then Unconsumed(before, s) + [op.tick]
      else Unconsumed(before, s)
  }

  /** The events of s since the last read of s of any kind. */
  function Unread(log: seq<Op>, s: string): seq<Tick> {
    if log == [] then []
    else
      var op, before := log[|log| - 1], log[..|log| - 1];
      if Polls(op, s) then []
      else if Delivers(op, s) then Unread(before, s) + [op.tick]
      else Unread(before, s)
  }

  function BidSum(ts: seq<Tick>): real {
    if ts == [] then 0.0 else BidSum(ts[..|ts| - 1]) + ts[|ts| - 1].bidVolume
  }

  function AskSum(ts: seq<Tick>): real {
    if ts == [] then 0.0 else AskSum(ts[..|ts| - 1]) + ts[|ts| - 1].askVolume
  }

  /** The entry for s exists exactly when some event of s arrived after the last consuming read; it carries the quote
      of the latest event and the volumes of all events since the last read. */
  ghost predicate EntryMatchesLog(m: Ticks, log: seq<Op>, s: string) {
    var events := Unconsumed(log, s);
    && (s in m <==> events != [])
    && (s in m ==>
          && m[s].symbol == s
          && m[s].quote == events[|events| - 1].quote
          && m[s].bidVolume == BidSum(Unread(log, s))
          && m[s].askVolume == AskSum(Unread(log, s)))
    && (s !in m ==> Unread(log, s) == [])
  }

  lemma SumOneMore(ts: seq<Tick>, t: Tick)
    ensures BidSum(ts + [t]) == BidSum(ts) + t.bidVolume
    ensures AskSum(ts + [t]) == AskSum(ts) + t.askVolume
  {
    assert (ts + [t])[..|ts|] == ts;
  }

  /** What one more operation adds to the log's account of s. */
  lemma LogFollows(log: seq<Op>, s: string)
    requires log != []
    ensures var op, before := log[|log| - 1], log[..|log| - 1];
            && Replay(log) == Apply(Replay(before), op)
            && Unconsumed(log, s) == (if Consumes(op, s) then [] else if Delivers(op, s) then
                                        Unconsumed(before, s) + [op.tick] else Unconsumed(before, s))
            && Unread(log, s) == (if Polls(op, s) then [] else if Delivers(op, s) then
                                    Unread(before, s) + [op.tick] else Unread(before, s))
  {}

  lemma NoVolume()
    ensures BidSum([]) == 0.0 && AskSum([]) == 0.0
  {}

  /** A delivery replaces the quote and accumulates the volumes, or makes the entry. */
  lemma DeliveryMoves(m: Ticks, t: Tick)
    ensures var m' := Apply(m, Deliver(t));
            && t.symbol in m' && m'[t.symbol].quote == t.quote
            && (t.symbol in m ==>
                  && m'[t.symbol].symbol == m[t.symbol].symbol
                  && m'[t.symbol].bidVolume == m[t.symbol].bidVolume + t.bidVolume
                  && m'[t.symbol].askVolume == m[t.symbol].askVolume + t.askVolume)
            && (t.symbol !in m ==> m'[t.symbol] == t)
  {}

  /** A read zeroes the volumes of the entry, and a consuming read removes it. */
  lemma PollMoves(m: Ticks, op: Op)
    requires op.Poll?
    ensures var m', s := Apply(m, op), op.pair;
            && (s in m' <==> s in m && !op.consume)
            && (s in m' ==> m'[s].symbol == m[s].symbol && m'[s].quote == m[s].quote
                            && m'[s].bidVolume == 0.0 && m'[s].askVolume == 0.0)
  {}

  /** A step leaves the entries of other symbols alone. */
  lemma OthersUntouched(m: Ticks, op: Op, s: string)
    requires !Delivers(op, s) && !Polls(op, s)
    ensures s in Apply(m, op) <==> s in m
    ensures s in m ==> Apply(m, op)[s] == m[s]
  {}

  lemma EntryFollows(log: seq<Op>, s: string)
    requires log != [] && EntryMatchesLog(Replay(log[..|log| - 1]), log[..|log| - 1], s)
    ensures EntryMatchesLog(Replay(log), log, s)
  {
    hide BidSum, AskSum, Apply, Replay, Unconsumed, Unread;
    var op, before := log[|log| - 1], log[..|log| - 1];
    var m := Replay(before);
    LogFollows(log, s);
    NoVolume();
    if Delivers(op, s) {
      DeliveryMoves(m, op.tick);
      SumOneMore(Unread(before, s), op.tick);
    } else if Polls(op, s) {
      PollMoves(m, op);
    } else {
      OthersUntouched(m, op, s);
    }
  }

  lemma {:induction false} CacheRefinesLog(log: seq<Op>, s: string)
    ensures EntryMatchesLog(Replay(log), log, s)
  {
    if log != [] {
      CacheRefinesLog(log[..|log| - 1], s);
      EntryFollows(log, s);
    }
  }

  /** The last event of s in the log at position i, with no consuming read of s after it. */
  ghost predicate Stands(log: seq<Op>, s: string, i: nat)
    requires i < |log|
  {
    && log[i].Deliver? && log[i].tick.symbol == s
    && forall j :: i < j < |log| ==>
         !(log[j].Deliver? && log[j].tick.symbol == s) && !(log[j].Poll? && log[j].pair == s && log[j].consume)
  }

  /** How one more operation moves the standing event. */
  lemma StandsFollows(log: seq<Op>, s: string, i: nat)
    requires i < |log|
    ensures var op, n: nat := log[|log| - 1], |log| - 1;
            && (Delivers(op, s) ==> (Stands(log, s, i) <==> i == n))
            && (Consumes(op, s) ==> !Stands(log, s, i))
            && (!Delivers(op, s) && !Consumes(op, s) ==>
                  (Stands(log, s, i) <==> i < n && Stands(log[..n], s, i)))
  {
    var n: nat := |log| - 1;
    assert i < n ==> forall j :: i < j < n ==> log[..n][j] == log[j];
  }

  /** An entry for s exists exactly when some event of s has no later event of s and no later consuming read of s, and
      shows that event's quote. */
  lemma {:induction false} EntryIsLatestUnconsumed(log: seq<Op>, s: string)
    ensures s in Replay(log) <==> exists i: nat :: i < |log| && Stands(log, s, i)
    ensures forall i: nat :: i < |log| && Stands(log, s, i) ==>
              s in Replay(log) && Replay(log)[s].quote == log[i].tick.quote
  {
    hide Apply, Stands;
    if log != [] {
      var op, before, n: nat := log[|log| - 1], log[..|log| - 1], |log| - 1;
      EntryIsLatestUnconsumed(before, s);
      forall i: nat | i < |log|
        ensures Delivers(op, s) ==> (Stands(log, s, i) <==> i == n)
        ensures Consumes(op, s) ==> !Stands(log, s, i)
        ensures !Delivers(op, s) && !Consumes(op, s) ==> (Stands(log, s, i) <==> i < n && Stands(before, s, i))
      {
        StandsFollows(log, s, i);
      }
      if Delivers(op, s) {
        DeliveryMoves(Replay(before), op.tick);
        assert Stands(log, s, n);
      } else if Polls(op, s) {
        PollMoves(Replay(before), op);
        if i: nat :| i < n && Stands(before, s, i) {
          assert !op.consume ==> Stands(log, s, i);
        }
      } else {
        OthersUntouched(Replay(before), op, s);
        if i: nat :| i < n && Stands(before, s, i) {
          assert Stands(log, s, i);
        }
      }
    }
  }

  // ---- Conservation ----------------------------------------------------------------------------

  /** Everything delivered for s, and everything handed out by reads of s. */
  function Delivered(log: seq<Op>, s: string): seq<Tick> {
    if log == [] then []
    else
      var op, before := log[|log| - 1], log[..|log| - 1];
      if Delivers(op, s) then Delivered(before, s) + [op.tick] else Delivered(before, s)
  }

  function HandedOut(log: seq<Op>, s: string): seq<Tick> {
    if log == [] then []
    else
      var op, before := log[|log| - 1], log[..|log| - 1];
      var out := Output(Replay(before), op);
      if Polls(op, s) && out.Some? then HandedOut(before, s) + [out.value] else HandedOut(before, s)
  }

  function PendingBid(m: Ticks, s: string): real {
    if s in m then m[s].bidVolume else 0.0
  }

  function PendingAsk(m: Ticks, s: string): real {
    if s in m then m[s].askVolume else 0.0
  }

  /** No volume is lost and none is reported twice, in every interleaving of callbacks and readers. */
  lemma {:induction false} VolumeIsConserved(log: seq<Op>, s: string)
    ensures BidSum(Delivered(log, s)) == BidSum(HandedOut(log, s)) + PendingBid(Replay(log), s)
    ensures AskSum(Delivered(log, s)) == AskSum(HandedOut(log, s)) + PendingAsk(Replay(log), s)
  {
    hide BidSum, AskSum, Apply;
    if log == [] {
      NoVolume();
    } else {
      var op, before := log[|log| - 1], log[..|log| - 1];
      VolumeIsConserved(before, s);
      var m := Replay(before);
      if Delivers(op, s) {
        DeliveryMoves(m, op.tick);
        SumOneMore(Delivered(before, s), op.tick);
      } else if Polls(op, s) {
        PollMoves(m, op);
        if s in m { SumOneMore(HandedOut(before, s), m[s]); }
      } else {
        OthersUntouched(m, op, s);
      }
    }
  }

  /** The volumes handed out by one read are those of the events since the read before it. */
  lemma ReadHandsOutUnread(log: seq<Op>, pair: string, consume: bool)
    ensures var out := Output(Replay(log), Poll(pair, consume));
            && (out.Some? <==> Unconsumed(log, pair) != [])
            && (out.Some? ==> out.value.bidVolume == BidSum(Unread(log, pair))
                              && out.value.askVolume == AskSum(Unread(log, pair)))
  {
    CacheRefinesLog(log, pair);
  }

  // ---- The cache itself ------------------------------------------------------------------------

  lemma ReplayOneMore(log: seq<Op>, op: Op)
    ensures Replay(log + [op]) == Apply(Replay(log), op)
  {
    assert (log + [op])[..|log|] == log;
  }

  /** The log just before a reader's try n, when `others(i)` is what other threads do during its i-th sleep. */
  function BeforeTry(log: seq<Op>, poll: Op, others: nat -> seq<Op>, n: nat): seq<Op> {
    if n == 0 then log else BeforeTry(log, poll, others, n - 1) + [poll] + others(n - 1)
  }

  lemma UpdateThenRemove(m: Ticks, k: string, t: Tick)
    ensures m[k := t] - {k} == m - {k}
  {
    assert m[k := t] - {k} == m - {k};
  }

  /** A reader's try i finds nothing, and sees a timeout other than zero. */
  ghost predicate MissedAt(log: seq<Op>, poll: Op, others: nat -> seq<Op>, initial: int, timeouts: nat -> int, i: nat)
    requires poll.Poll?
  {
    poll.pair !in Replay(BeforeTry(log, poll, others, i)) && TimeoutAt(initial, timeouts, i) != 0
  }

  ghost predicate Missed(log: seq<Op>, poll: Op, others: nat -> seq<Op>, initial: int, timeouts: nat -> int, n: nat)
    requires poll.Poll?
  {
    forall i: nat :: i < n ==> MissedAt(log, poll, others, initial, timeouts, i)
  }

  /** At each of the first n tries the pair was not there, and the timeout was not zero. */
  lemma MissedMeans(log: seq<Op>, poll: Op, others: nat -> seq<Op>, initial: int, timeouts: nat -> int, n: nat)
    requires poll.Poll? && Missed(log, poll, others, initial, timeouts, n)
    ensures forall i: nat :: i < n ==>
              && poll.pair !in Replay(BeforeTry(log, poll, others, i))
              && (if i == 0 then initial else timeouts(i)) != 0
  {
    hide Replay;
    forall i: nat | i < n
      ensures poll.pair !in Replay(BeforeTry(log, poll, others, i)) && (if i == 0 then initial else timeouts(i)) != 0
    {
      assert MissedAt(log, poll, others, initial, timeouts, i);
    }
  }

  class TickStore {
    var tickPrices: Ticks
    var timeout: int
    ghost var log: seq<Op>

    ghost predicate Valid()
      reads this
    {
      tickPrices == Replay(log)
    }

    constructor ()
      ensures Valid() && log == [] && timeout == 5
    {
      tickPrices, timeout, log := map[], 5, [];
    }

    /** The book-ticker callback. */
    method OnBookTicker(event: Tick)
      requires Valid()
      modifies this`tickPrices, this`log
      ensures Valid() && log == old(log) + [Deliver(event)]
      ensures var before, s := old(tickPrices), event.symbol;
              && tickPrices.Keys == before.Keys + {s}
              && (s !in before ==> tickPrices[s] == event)
              && (s in before ==>
                    tickPrices[s] == Tick(before[s].symbol, event.quote, before[s].bidVolume + event.bidVolume,
                                          before[s].askVolume + event.askVolume))
              && forall other :: other in before && other != s ==> tickPrices[other] == before[other]
    {
      ReplayOneMore(log, Deliver(event));
      if event.symbol in tickPrices {
        var entry := tickPrices[event.symbol];
        entry := entry.(quote := event.quote);
        entry := entry.(askVolume := entry.askVolume + event.askVolume);
        entry := entry.(bidVolume := entry.bidVolume + event.bidVolume);
        tickPrices := tickPrices[event.symbol := entry];
      } else {
        tickPrices := tickPrices[event.symbol := event];
      }
      log := log + [Deliver(event)];
    }

    /** One try of a reader, under the lock. */
    method TryRead(pair: string, consumeEvent: bool) returns (r: Option<Tick>)
      requires Valid()
      modifies this`tickPrices, this`log
      ensures Valid() && log == old(log) + [Poll(pair, consumeEvent)]
      ensures r == Output(old(tickPrices), Poll(pair, consumeEvent))
      ensures var before := old(tickPrices);
              && r == (if pair in before then Some(before[pair]) else None)
              && tickPrices.Keys == (if consumeEvent then before.Keys - {pair} else before.Keys)
              && (pair in tickPrices ==>
                    tickPrices[pair] == Tick(before[pair].symbol, before[pair].quote, 0.0, 0.0))
              && forall other :: other in before && other != pair ==> tickPrices[other] == before[other]
    {
      ghost var before, poll := tickPrices, Poll(pair, consumeEvent);
      r := None;
      if pair in tickPrices {
        var entry := tickPrices[pair];
        r := Some(entry);
        entry := entry.(askVolume := 0.0, bidVolume := 0.0);
        tickPrices := tickPrices[pair := entry];
        if consumeEvent {
          tickPrices := tickPrices - {pair};
          UpdateThenRemove(before, pair, entry);
        }
      }
      assert tickPrices == Apply(before, poll);
      ReplayOneMore(log, poll);
      log := log + [poll];
    }

    /** Other threads take their locked steps while this reader sleeps. */
    method RunOthers(ops: seq<Op>)
      requires Valid()
      modifies this`tickPrices, this`log
      ensures Valid() && log == old(log) + ops
    {
      for i := 0 to |ops|
        invariant Valid() && log == old(log) + ops[..i]
      {
        match ops[i] {
          case Deliver(t) => OnBookTicker(t);
          case Poll(pair, consume) => var _ := TryRead(pair, consume);
        }
        assert ops[..i + 1] == ops[..i] + [ops[i]];
      }
      assert ops[..|ops|] == ops;
    }

    /** readEventTickPrice: polls until the pair is present, the tries are used up or the timeout reads zero.
        Returns the entry of the first try that finds one, and how many milliseconds it slept. */
    method ReadEventTickPrice(pair: string, consumeEvent: bool, others: nat -> seq<Op>, timeouts: nat -> int)
        returns (r: Option<Tick>, tries: nat, sleptMs: nat)
      requires Valid()
      modifies this
      ensures Valid() && sleptMs == 3 * tries
      ensures tries <= if old(timeout) >= 0 then 100 * old(timeout) + 1 else 0
      ensures old(timeout) >= 1 ==> sleptMs <= 1000 * old(timeout)
      ensures var poll := Poll(pair, consumeEvent);
              && Missed(old(log), poll, others, old(timeout), timeouts, tries)
              && (r.Some? ==>
                    && pair in Replay(BeforeTry(old(log), poll, others, tries))
                    && r.value == Replay(BeforeTry(old(log), poll, others, tries))[pair]
                    && log == BeforeTry(old(log), poll, others, tries) + [poll])
              && (r.None? ==>
                    && log == BeforeTry(old(log), poll, others, tries)
                    && (tries > 100 * old(timeout) || (if tries == 0 then old(timeout) else timeouts(tries)) == 0))
    {
      hide Replay, Apply;
      ghost var poll := Poll(pair, consumeEvent);
      ghost var initial := timeout;
      var numTries: nat := 0;
      var maxNumTries := 100 * timeout;
      sleptMs, tries := 0, 0;
      while numTries <= maxNumTries
        invariant Valid() && log == BeforeTry(old(log), poll, others, numTries)
        invariant timeout == TimeoutAt(initial, timeouts, numTries)
        invariant tries == numTries && sleptMs == 3 * numTries && (numTries > 0 ==> numTries <= maxNumTries + 1)
        invariant Missed(old(log), poll, others, initial, timeouts, numTries)
      {
        if timeout == 0 {
          break;
        }
        ghost var now := tickPrices;
        var found := TryRead(pair, consumeEvent);
        assert found == if pair in now then Some(now[pair]) else None;
        if found.Some? {
          return found, tries, sleptMs;
        }
        assert MissedAt(old(log), poll, others, initial, timeouts, numTries);
        RunOthers(others(numTries));
        timeout := timeouts(numTries + 1);
        numTries := numTries + 1;
        tries, sleptMs := numTries, sleptMs + 3;
      }
      return None, tries, sleptMs;
    }
  }
}
