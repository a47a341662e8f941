/** The candlestick cache of the stream manager: per symbol and interval the current candle and the one before it. */
module CandleCache {
  import opened Polling
  import opened Wrappers

  datatype Interval = I1m | I3m | I5m | I15m | I30m | I1h | I2h | I4h | I6h | I8h | I12h | I1d | I3d | I1w | I1M

  /** A candlestick event: symbol, parsed interval, start time of the candle, and the rest of its contents. */
  datatype Event = Event(symbol: string, interval: Interval, start: int, body: int)

  type Candles = map<string, map<Interval, Event>>

  function Lookup(m: Candles, s: string, i: Interval): Option<Event> {
    if s in m && i in m[s] then Some(m[s][i]) else None
  }

  // ---- What the log says about one slot --------------------------------------------------------

  /** The events of one symbol and interval, in the order received. */
  function Slot(log: seq<Event>, s: string, i: Interval): seq<Event> {
    if log == [] then []
    else
      var e := log[|log| - 1];
      Slot(log[..|log| - 1], s, i) + if e.symbol == s && e.interval == i then [e] else []
  }

  function CurrentOf(slot: seq<Event>): Option<Event> {
    if slot == [] then None else Some(slot[|slot| - 1])
  }

  /** The event just before the most recent change of start time. */
  function PreviousOf(slot: seq<Event>): Option<Event> {
    if |slot| < 2 then None
    else if slot[|slot| - 2].start != slot[|slot| - 1].start then Some(slot[|slot| - 2])
    else PreviousOf(slot[..|slot| - 1])
  }

  predicate Changes(slot: seq<Event>, j: nat)
    requires j + 1 < |slot|
  {
    slot[j].start != slot[j + 1].start
  }

  lemma {:induction false} PreviousAtLastChange(slot: seq<Event>) returns (j: nat)
    requires PreviousOf(slot).Some?
    ensures j + 1 < |slot| && Changes(slot, j) && PreviousOf(slot) == Some(slot[j])
    ensures forall m: nat :: j < m && m + 1 < |slot| ==> !Changes(slot, m)
  {
    var n := |slot|;
    if Changes(slot, n - 2) {
      j := n - 2;
    } else {
      var front := slot[..n - 1];
      j := PreviousAtLastChange(front);
      forall m: nat | j < m && m + 1 < n ensures !Changes(slot, m) {
        assert m + 1 < n - 1 ==> !Changes(front, m);
      }
    }
  }

  lemma {:induction false} ChangeMakesPrevious(slot: seq<Event>, j: nat)
    requires j + 1 < |slot| && Changes(slot, j)
    ensures PreviousOf(slot).Some?
  {
    if j < |slot| - 2 {
      assert Changes(slot[..|slot| - 1], j);
      ChangeMakesPrevious(slot[..|slot| - 1], j);
    }
  }

  /** "Previous" exists exactly when some adjacent pair differs in start time, and is the event just before the most
      recent such pair. */
  lemma PreviousIsBeforeLastChange(slot: seq<Event>)
    ensures PreviousOf(slot).Some? <==> exists j: nat :: j + 1 < |slot| && Changes(slot, j)
    ensures forall j: nat :: j + 1 < |slot| && Changes(slot, j)
                             && (forall m: nat :: j < m && m + 1 < |slot| ==> !Changes(slot, m)) ==>
                               PreviousOf(slot) == Some(slot[j])
  {
    hide PreviousOf;
    forall j: nat | j + 1 < |slot| && Changes(slot, j) ensures PreviousOf(slot).Some? {
      ChangeMakesPrevious(slot, j);
    }
    if PreviousOf(slot).Some? {
      var last := PreviousAtLastChange(slot);
    }
  }

  /** Whatever the order of start times: "previous" is the last received event whose start is not the current one. */
  lemma {:induction false} PreviousIsLastOther(slot: seq<Event>) returns (j: nat)
    requires PreviousOf(slot).Some?
    ensures j < |slot| - 1 && PreviousOf(slot) == Some(slot[j])
    ensures slot[j].start != slot[|slot| - 1].start
    ensures forall m :: j < m < |slot| ==> slot[m].start == slot[|slot| - 1].start
  {
    var n := |slot|;
    if slot[n - 2].start != slot[n - 1].start {
      j := n - 2;
    } else {
      j := PreviousIsLastOther(slot[..n - 1]);
    }
  }

  // ---- Start times that never decrease ---------------------------------------------------------

  predicate NotEarlier(slot: seq<Event>, i: nat, j: nat)
    requires i <= j < |slot|
  {
    slot[i].start <= slot[j].start
  }

  ghost predicate NeverDecreases(slot: seq<Event>) {
    forall i: nat, j: nat :: i <= j < |slot| ==> NotEarlier(slot, i, j)
  }

  /** With starts that never decrease, "previous" is the last received version of the newest earlier candle: its
      start is below the current one, and no received start lies between the two. */
  lemma PreviousIsNewestEarlier(slot: seq<Event>)
    requires NeverDecreases(slot) && PreviousOf(slot).Some?
    ensures var prev, cur := PreviousOf(slot).value, slot[|slot| - 1];
            && prev.start < cur.start
            && (forall e :: e in slot ==> e.start <= prev.start || e.start == cur.start)
            && exists j: nat :: j < |slot| && slot[j] == prev
                 && forall m :: j < m < |slot| ==> slot[m].start > prev.start
  {
    var j := PreviousIsLastOther(slot);
    assert NotEarlier(slot, j, |slot| - 1);
    forall e | e in slot ensures e.start <= slot[j].start || e.start == slot[|slot| - 1].start {
      var i: nat :| i < |slot| && slot[i] == e;
      assert i <= j ==> NotEarlier(slot, i, j);
    }
  }

  /** Once there is a "previous" it stays, and with starts that never decrease its start never moves back. */
  lemma {:induction false} PreviousNeverMovesBack(slot: seq<Event>, more: seq<Event>)
    requires PreviousOf(slot).Some?
    ensures PreviousOf(slot + more).Some?
    ensures NeverDecreases(slot + more) ==> PreviousOf(slot).value.start <= PreviousOf(slot + more).value.start
  {
    if more == [] {
      assert slot + more == slot;
    } else {
      var whole, n := slot + more, |slot + more|;
      var front := slot + more[..|more| - 1];
      assert whole[..n - 1] == front;
      PreviousNeverMovesBack(slot, more[..|more| - 1]);
      if NeverDecreases(whole) {
        forall i: nat, j: nat | i <= j < n - 1 ensures NotEarlier(front, i, j) {
          assert NotEarlier(whole, i, j);
        }
        var j := PreviousIsLastOther(front);
        assert NotEarlier(front, j, n - 2);
      }
    }
  }

  predicate Ordered(slot: seq<Event>) {
    PreviousOf(slot).Some? ==> PreviousOf(slot).value.start < slot[|slot| - 1].start
  }

  lemma {:induction false} Descent(slot: seq<Event>, i: nat, j: nat) returns (m: nat)
    requires i <= j < |slot| && slot[i].start > slot[j].start
    ensures m + 1 < |slot| && slot[m].start > slot[m + 1].start
    decreases j - i
  {
    if slot[i].start > slot[i + 1].start {
      m := i;
    } else {
      m := Descent(slot, i + 1, j);
    }
  }

  /** "Previous" is earlier than "current" at every moment exactly when the received starts never decrease. */
  lemma OrderedExactlyWhenNeverDecreases(slot: seq<Event>)
    ensures NeverDecreases(slot) <==> forall n: nat :: n <= |slot| ==> Ordered(slot[..n])
  {
    if NeverDecreases(slot) {
      forall n: nat | n <= |slot| ensures Ordered(slot[..n]) {
        forall i: nat, j: nat | i <= j < n ensures NotEarlier(slot[..n], i, j) {
          assert NotEarlier(slot, i, j);
        }
        if PreviousOf(slot[..n]).Some? {
          PreviousIsNewestEarlier(slot[..n]);
        }
      }
    } else {
      var i: nat, j: nat :| i <= j < |slot| && !NotEarlier(slot, i, j);
      var m := Descent(slot, i, j);
      assert slot[..m + 2][m] == slot[m] && slot[..m + 2][m + 1] == slot[m + 1];
      assert !Ordered(slot[..m + 2]);
    }
  }

  // ---- The cache itself ------------------------------------------------------------------------

  /** The log just before a reader's try n, when `others(i)` arrives during its i-th sleep. */
  function BeforeTry(log: seq<Event>, others: nat -> seq<Event>, n: nat): seq<Event> {
    if n == 0 then log else BeforeTry(log, others, n - 1) + others(n - 1)
  }

  /** What a read asks the log for. */
  function Asked(log: seq<Event>, s: string, i: Interval, previous: bool): Option<Event> {
    if previous then PreviousOf(Slot(log, s, i)) else CurrentOf(Slot(log, s, i))
  }

  /** A reader's try k finds nothing, and sees a timeout other than zero. */
  ghost predicate MissedAt(log: seq<Event>, s: string, i: Interval, previous: bool, others: nat -> seq<Event>,
                           initial: int, timeouts: nat -> int, k: nat)
  {
    Asked(BeforeTry(log, others, k), s, i, previous) == None && TimeoutAt(initial, timeouts, k) != 0
  }

  ghost predicate Missed(log: seq<Event>, s: string, i: Interval, previous: bool, others: nat -> seq<Event>,
                         initial: int, timeouts: nat -> int, n: nat)
  {
    forall k: nat :: k < n ==> MissedAt(log, s, i, previous, others, initial, timeouts, k)
  }

  /** A read asks for the event before the last change of start, or for the last event. */
  lemma AskedMeans(log: seq<Event>, s: string, i: Interval, previous: bool)
    ensures previous ==> Asked(log, s, i, previous) == PreviousOf(Slot(log, s, i))
    ensures !previous ==> (var slot := Slot(log, s, i);
                           Asked(log, s, i, previous) == if slot == [] then None else Some(slot[|slot| - 1]))
  {}

  lemma NoneMissed(log: seq<Event>, s: string, i: Interval, previous: bool, others: nat -> seq<Event>,
                   initial: int, timeouts: nat -> int)
    ensures Missed(log, s, i, previous, others, initial, timeouts, 0)
  {}

  lemma MissedOnceMore(log: seq<Event>, s: string, i: Interval, previous: bool, others: nat -> seq<Event>,
                       initial: int, timeouts: nat -> int, n: nat)
    requires Missed(log, s, i, previous, others, initial, timeouts, n)
    requires Asked(BeforeTry(log, others, n), s, i, previous) == None && TimeoutAt(initial, timeouts, n) != 0
    ensures Missed(log, s, i, previous, others, initial, timeouts, n + 1)
  {
    assert MissedAt(log, s, i, previous, others, initial, timeouts, n);
  }

  /** At each of the first n tries the slot had no event, or no change of start, and the timeout was not zero. */
  lemma MissedMeans(log: seq<Event>, s: string, i: Interval, previous: bool, others: nat -> seq<Event>, initial: int,
                    timeouts: nat -> int, n: nat)
    requires Missed(log, s, i, previous, others, initial, timeouts, n)
    ensures forall k: nat :: k < n ==>
              var slot := Slot(BeforeTry(log, others, k), s, i);
              && (if previous then PreviousOf(slot) == None else slot == [])
              && (if k == 0 then initial else timeouts(k)) != 0
  {
    hide Slot, PreviousOf;
    forall k: nat | k < n
      ensures var slot := Slot(BeforeTry(log, others, k), s, i);
              && (if previous then PreviousOf(slot) == None else slot == [])
              && (if k == 0 then initial else timeouts(k)) != 0
    {
      assert MissedAt(log, s, i, previous, others, initial, timeouts, k);
    }
  }

  ghost predicate HoldsCurrent(m: Candles, log: seq<Event>) {
    forall s, i :: Lookup(m, s, i) == CurrentOf(Slot(log, s, i))
  }

  ghost predicate HoldsPrevious(m: Candles, log: seq<Event>) {
    forall s, i :: Lookup(m, s, i) == PreviousOf(Slot(log, s, i))
  }

  function Put(m: Candles, e: Event): Candles {
    m[e.symbol := (if e.symbol in m then m[e.symbol] else map[])[e.interval := e]]
  }

  /** The candle an event pushes out of "current": one with another start time. */
  function Replaced(current: Option<Event>, e: Event): Option<Event> {
    if current.Some? && current.value.start != e.start then current else None
  }

  lemma SlotAppends(log: seq<Event>, e: Event, s: string, i: Interval)
    ensures Slot(log + [e], s, i) == Slot(log, s, i) + if e.symbol == s && e.interval == i then [e] else []
  {
    assert (log + [e])[..|log|] == log;
  }

  lemma AppendMoves(slot: seq<Event>, e: Event)
    ensures CurrentOf(slot + [e]) == Some(e)
    ensures PreviousOf(slot + [e]) == if slot != [] && slot[|slot| - 1].start != e.start then CurrentOf(slot)
                                      else PreviousOf(slot)
  {
    assert (slot + [e])[..|slot|] == slot;
  }

  lemma {:induction false} SlotHolds(log: seq<Event>, s: string, i: Interval)
    ensures forall e :: e in Slot(log, s, i) ==> e.symbol == s && e.interval == i
  {
    if log != [] {
      SlotHolds(log[..|log| - 1], s, i);
    }
  }

  /** How one event moves a slot. */
  lemma SlotOneMore(log: seq<Event>, e: Event, s: string, i: Interval)
    ensures var slot, slot' := Slot(log, s, i), Slot(log + [e], s, i);
            if e.symbol == s && e.interval == i then
              && slot' == slot + [e] && CurrentOf(slot') == Some(e)
              && PreviousOf(slot') == (if slot != [] && slot[|slot| - 1].start != e.start then CurrentOf(slot)
                                       else PreviousOf(slot))
              && (slot != [] ==> slot[|slot| - 1].symbol == s && slot[|slot| - 1].interval == i)
            else slot' == slot
  {
    hide Slot, CurrentOf, PreviousOf;
    SlotAppends(log, e, s, i);
    AppendMoves(Slot(log, s, i), e);
    SlotHolds(log, s, i);
  }

  lemma SlotFollows(log: seq<Event>, e: Event, s: string, i: Interval, m: Candles, h: Candles)
    requires Lookup(m, s, i) == CurrentOf(Slot(log, s, i))
    requires Lookup(h, s, i) == PreviousOf(Slot(log, s, i))
    requires Lookup(m, e.symbol, e.interval) == CurrentOf(Slot(log, e.symbol, e.interval))
    ensures Lookup(Put(m, e), s, i) == CurrentOf(Slot(log + [e], s, i))
    ensures var out := Replaced(Lookup(m, e.symbol, e.interval), e);
            Lookup(if out.Some? then Put(h, out.value) else h, s, i) == PreviousOf(Slot(log + [e], s, i))
  {
    SlotOneMore(log, e, s, i);
    SlotOneMore(log, e, e.symbol, e.interval);
  }

  class CandleStore {
    var candlesticks: Candles
    var candlesticksHistoric: Candles
    var timeout: int
    ghost var log: seq<Event>

    /** Both maps are what the log says, slot by slot. */
    ghost predicate Valid()
      reads this`candlesticks, this`candlesticksHistoric, this`log
    {
      HoldsCurrent(candlesticks, log) && HoldsPrevious(candlesticksHistoric, log)
    }

    constructor ()
      ensures Valid() && log == [] && timeout == 5
    {
      candlesticks, candlesticksHistoric, timeout, log := map[], map[], 5, [];
    }

    /** The candlestick callback. */
    method OnCandlestick(event: Event)
      requires Valid()
      modifies this`candlesticks, this`candlesticksHistoric, this`log
      ensures Valid() && log == old(log) + [event]
    {
      hide Slot, PreviousOf;
      ghost var slot := Lookup(candlesticks, event.symbol, event.interval);
      var previousCandle := None;
      if event.symbol !in candlesticks {
        candlesticks := candlesticks[event.symbol := map[]];
      }
      var intervals := candlesticks[event.symbol];
      if event.interval in intervals && intervals[event.interval].start != event.start {
        previousCandle := Some(intervals[event.interval]);
      }
      candlesticks := candlesticks[event.symbol := intervals[event.interval := event]];
      assert candlesticks == Put(old(candlesticks), event);
      assert previousCandle == Replaced(slot, event);
      if previousCandle.Some? {
        var candle := previousCandle.value;
        if event.symbol !in candlesticksHistoric {
          candlesticksHistoric := candlesticksHistoric[event.symbol := map[]];
        }
        var historic := candlesticksHistoric[event.symbol];
        candlesticksHistoric := candlesticksHistoric[event.symbol := historic[candle.interval := candle]];
        SlotHolds(log, event.symbol, event.interval);
        assert slot == CurrentOf(Slot(log, event.symbol, event.interval));
        assert candlesticksHistoric == Put(old(candlesticksHistoric), candle);
      }
      log := log + [event];
      forall s, i
        ensures Lookup(candlesticks, s, i) == CurrentOf(Slot(log, s, i))
        ensures Lookup(candlesticksHistoric, s, i) == PreviousOf(Slot(log, s, i))
      {
        assert Lookup(old(candlesticks), s, i) == CurrentOf(Slot(old(log), s, i));
        assert Lookup(old(candlesticksHistoric), s, i) == PreviousOf(Slot(old(log), s, i));
        SlotFollows(old(log), event, s, i, old(candlesticks), old(candlesticksHistoric));
      }
    }

    /** One try of a reader, under the lock. */
    method TryRead(pair: string, interval: Interval, previous: bool) returns (r: Option<Event>)
      requires Valid()
      ensures r == Asked(log, pair, interval, previous)
      ensures previous ==> r == PreviousOf(Slot(log, pair, interval))
      ensures !previous ==> (var slot := Slot(log, pair, interval);
                             r == if slot == [] then None else Some(slot[|slot| - 1]))
    {
      assert Lookup(candlesticks, pair, interval) == CurrentOf(Slot(log, pair, interval));
      assert Lookup(candlesticksHistoric, pair, interval) == PreviousOf(Slot(log, pair, interval));
      if previous {
        if pair in candlesticksHistoric {
          if interval in candlesticksHistoric[pair] {
            return Some(candlesticksHistoric[pair][interval]);
          }
        }
      } else {
        if pair in candlesticks {
          if interval in candlesticks[pair] {
            return Some(candlesticks[pair][interval]);
          }
        }
      }
      return None;
    }

    /** Callbacks that arrive while this reader sleeps. */
    method RunOthers(events: seq<Event>)
      requires Valid()
      modifies this`candlesticks, this`candlesticksHistoric, this`log
      ensures Valid() && log == old(log) + events
    {
      for i := 0 to |events|
        invariant Valid() && log == old(log) + events[..i]
      {
        OnCandlestick(events[i]);
        assert events[..i + 1] == events[..i] + [events[i]];
      }
      assert events[..|events|] == events;
    }

    /** readEventCandlestick: polls one of the maps until the slot is there, the tries are used up or the timeout
        reads zero. */
    method ReadEventCandlestick(pair: string, interval: Interval, previous: bool, others: nat -> seq<Event>,
                                timeouts: nat -> int)
        returns (r: Option<Event>, tries: nat, sleptMs: nat)
      requires Valid()
      modifies this
      ensures Valid() && log == BeforeTry(old(log), others, tries) && sleptMs == 3 * tries
      ensures tries <= if old(timeout) >= 0 then 100 * old(timeout) + 1 else 0
      ensures old(timeout) >= 1 ==> sleptMs <= 1000 * old(timeout)
      ensures Missed(old(log), pair, interval, previous, others, old(timeout), timeouts, tries)
      ensures r.Some? && previous ==> r == PreviousOf(Slot(log, pair, interval))
      ensures r.Some? && !previous ==> (var slot := Slot(log, pair, interval);
                                        slot != [] && r == Some(slot[|slot| - 1]))
      ensures r.None? ==> tries > 100 * old(timeout) || (if tries == 0 then old(timeout) else timeouts(tries)) == 0
    {
      hide Slot, CurrentOf, PreviousOf, HoldsCurrent, HoldsPrevious, Asked, Valid, Missed;
      ghost var initial := timeout;
      var maxNumTries := 100 * timeout;
      r, tries, sleptMs := None, 0, 0;
      NoneMissed(log, pair, interval, previous, others, initial, timeouts);
      while tries <= maxNumTries
        invariant Valid() && log == BeforeTry(old(log), others, tries)
        invariant timeout == TimeoutAt(initial, timeouts, tries)
        invariant sleptMs == 3 * tries && (tries > 0 ==> tries <= maxNumTries + 1)
        invariant Missed(old(log), pair, interval, previous, others, initial, timeouts, tries)
        invariant r == None
        invariant initial >= 1 ==> sleptMs <= 300 * initial + 3
      {
        if timeout == 0 {
          break;
        }
        r := TryRead(pair, interval, previous);
        if r.Some? {
          break;
        }
        AskedMeans(log, pair, interval, previous);
        MissedOnceMore(old(log), pair, interval, previous, others, initial, timeouts, tries);
        RunOthers(others(tries));
        timeout := timeouts(tries + 1);
        tries, sleptMs := tries + 1, sleptMs + 3;
      }
    }
  }
}
