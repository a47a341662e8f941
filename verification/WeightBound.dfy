/** How much weight the exchange counts in one clock minute at most. A thread that has been told of the limit in the
    current minute sends nothing more in it, unless a value another thread stored lets it go on early; the proof keeps
    book of these early departures. */
module WeightBound {
  import opened WeightThrottle

  // ---- Sums ------------------------------------------------------------------------------------

  function Sum(xs: seq<nat>): nat {
    if xs == [] then 0 else xs[0] + Sum(xs[1..])
  }

  lemma {:induction false} SumMonotone(xs: seq<nat>, ys: seq<nat>)
    requires |xs| == |ys| && forall i :: 0 <= i < |xs| ==> xs[i] <= ys[i]
    ensures Sum(xs) <= Sum(ys)
  {
    if xs != [] { SumMonotone(xs[1..], ys[1..]); }
  }

  lemma {:induction false} SumUpdate(xs: seq<nat>, t: nat, x: nat)
    requires t < |xs|
    ensures Sum(xs[t := x]) + xs[t] == Sum(xs) + x
  {
    if t > 0 {
      assert xs[t := x][1..] == xs[1..][t - 1 := x];
      SumUpdate(xs[1..], t - 1, x);
    } else {
      assert xs[t := x][1..] == xs[1..];
    }
  }

  lemma {:induction false} SumAdds(xs: seq<nat>, ys: seq<nat>)
    requires |xs| == |ys|
    ensures Sum(seq(|xs|, i requires 0 <= i < |xs| => xs[i] + ys[i])) == Sum(xs) + Sum(ys)
  {
    if xs != [] {
      var zs := seq(|xs|, i requires 0 <= i < |xs| => xs[i] + ys[i]);
      var xt, yt := xs[1..], ys[1..];
      assert zs[1..] == seq(|xt|, i requires 0 <= i < |xt| => xt[i] + yt[i]);
      SumAdds(xt, yt);
    }
  }

  /** w * k, by repeated addition. */
  function Times(w: nat, k: nat): nat {
    if k == 0 then 0 else w + Times(w, k - 1)
  }

  lemma {:induction false} SumBounded(xs: seq<nat>, b: nat)
    requires forall i :: 0 <= i < |xs| ==> xs[i] <= b
    ensures Sum(xs) <= Times(b, |xs|)
  {
    if xs != [] { SumBounded(xs[1..], b); }
  }

  lemma {:induction false} TimesIsProduct(w: nat, k: nat)
    ensures Times(w, k) == w * k
  {
    if k > 0 {
      TimesIsProduct(w, k - 1);
      assert w * k == w + w * (k - 1);
    }
  }

  lemma {:induction false} TimesMonotone(w: nat, j: nat, k: nat)
    requires j <= k
    ensures Times(w, j) <= Times(w, k)
    decreases k
  {
    if j < k { TimesMonotone(w, j, k - 1); }
  }

  /** The number of pairs among n threads: 0 + 1 + ... + (n - 1). */
  function Pairs(n: nat): nat {
    if n == 0 then 0 else Pairs(n - 1) + n - 1
  }

  function Min(a: nat, b: nat): nat {
    if a <= b then a else b
  }

  /** 0 + 1 + ... + (n - 1), with every term cut at k. */
  function Stairs(k: nat, n: nat): nat {
    if n == 0 then 0 else Stairs(k, n - 1) + Min(k, n - 1)
  }

  lemma {:induction false} PairsMonotone(j: nat, k: nat)
    requires j <= k
    ensures Pairs(j) <= Pairs(k)
    decreases k
  {
    if j < k { PairsMonotone(j, k - 1); }
  }

  /** n(n - 1)/2. */
  lemma {:induction false} PairsAre(n: nat)
    ensures 2 * Pairs(n) == n * n - n
  {
    if n > 0 {
      PairsAre(n - 1);
      assert (n - 1) * (n - 1) == n * n - 2 * n + 1;
    }
  }

  lemma {:induction false} StairsMonotone(k: nat, m: nat, n: nat)
    requires m <= n
    ensures Stairs(k, m) <= Stairs(k, n)
    decreases n
  {
    if m < n { StairsMonotone(k, m, n - 1); }
  }

  /** Putting one more under each of m steps gives the next stairs. */
  lemma {:induction false} StairsRaised(k: nat, m: nat)
    requires k > 0
    ensures m + Stairs(k - 1, m) == Stairs(k, m + 1)
  {
    if m > 0 { StairsRaised(k, m - 1); }
  }

  // ---- What is counted for a thread ------------------------------------------------------------

  /** The thread's own reply, counted in the current minute, reported the limit. */
  predicate Spent(c: Config, s: State, p: Phase) {
    (p.Replied? || p.Scanning? || p.Warned?) && p.used >= c.limit && Minute(p.at) == Minute(s.now)
  }

  /** What a thread is counted for: it will send nothing more in this minute unless it goes on early; a weight below the
      limit stands in the session and lets it go on early; it has no such weight, or no date of an earlier minute, that
      it has still to store. */
  datatype Mark = Blocked | Freed | FreshWeight | FreshDate

  predicate HoldsStaleWeight(c: Config, p: Phase) {
    (p.Replied? || (p.Scanning? && !p.weightStored)) && p.used < c.limit
  }

  predicate HoldsStaleDate(s: State, p: Phase) {
    || (p.Replied? && Minute(p.at) < Minute(s.now))
    || (p.Scanning? && !p.dateStored && Minute(p.date) < Minute(s.now))
  }

  predicate FreedByWeight(c: Config, s: State, p: Phase) {
    p.Scanning? && p.weightStored && Spent(c, s, p) && s.usedWeight < c.limit
  }

  predicate FreedByDate(c: Config, s: State, p: Phase) {
    (p.Warned? || (p.Scanning? && p.dateStored)) && Spent(c, s, p) && Minute(s.lastDate) < Minute(s.now)
  }

  function Bit(b: bool): nat {
    if b then 1 else 0
  }

  function Value(m: Mark, c: Config, s: State, p: Phase): nat {
    match m
    case Blocked => Bit(Spent(c, s, p) || (p.Sleeping? && Minute(p.until) > Minute(s.now)))
    case Freed => Bit(FreedByWeight(c, s, p))
    case FreshWeight => Bit(!HoldsStaleWeight(c, p))
    case FreshDate => Bit(!HoldsStaleDate(s, p))
  }

  function Values(m: Mark, c: Config, s: State): seq<nat> {
    seq(|s.threads|, i requires 0 <= i < |s.threads| => Value(m, c, s, s.threads[i]))
  }

  function Total(m: Mark, c: Config, s: State): nat {
    Sum(Values(m, c, s))
  }

  /** The dates a thread holds lie between the counting of its request and now. */
  predicate InTime(s: State, p: Phase) {
    match p
    case Replied(_, at) => at <= s.now
    case Scanning(_, at, date, _, _) => at <= date <= s.now
    case Warned(_, at) => at <= s.now
    case _ => true
  }

  ghost predicate Timely(s: State) {
    s.lastDate <= s.now && forall t: nat :: t < |s.threads| ==> InTime(s, s.threads[t])
  }

  ghost predicate Light(c: Config, s: State) {
    forall t: nat :: t < |s.threads| && s.threads[t].Sent? ==> s.threads[t].weight <= c.maxWeight
  }

  /** The counter grows within a minute, so a reply counted in it reports no more than the counter. */
  predicate Reported(s: State, p: Phase) {
    (p.Replied? || p.Scanning? || p.Warned?) && Minute(p.at) == Minute(s.now) ==> p.used <= s.counted
  }

  ghost predicate AllReported(s: State) {
    forall t: nat :: t < |s.threads| ==> Reported(s, s.threads[t])
  }

  /** Below the limit no reply of this minute has reported it. */
  ghost predicate NoneSpent(c: Config, s: State) {
    forall t: nat :: t < |s.threads| && Spent(c, s, s.threads[t]) ==> s.counted >= c.limit
  }

  // ---- How the totals move when one thread takes a step --------------------------------------

  /** s' differs from s in thread t, and in the atomics, but not in the minute. */
  predicate SameMinute(s: State, s': State, t: nat) {
    && t < |s.threads| == |s'.threads|
    && s'.threads == s.threads[t := s'.threads[t]]
    && Minute(s.now) == Minute(s'.now)
  }

  /** A mark that the step changes for no other thread. */
  lemma TotalMoves(m: Mark, c: Config, s: State, s': State, t: nat)
    requires SameMinute(s, s', t) && !m.Freed?
    ensures Total(m, c, s') + Value(m, c, s, s.threads[t]) == Total(m, c, s) + Value(m, c, s', s'.threads[t])
  {
    var xs := Values(m, c, s);
    assert Values(m, c, s') == xs[t := Value(m, c, s', s'.threads[t])];
    SumUpdate(xs, t, Value(m, c, s', s'.threads[t]));
  }

  /** No other thread is newly freed, and t gives up `drop`. */
  lemma FreedFalls(c: Config, s: State, s': State, t: nat, drop: nat)
    requires SameMinute(s, s', t)
    requires forall i: nat :: i < |s.threads| && i != t ==>
               Value(Freed, c, s', s.threads[i]) <= Value(Freed, c, s, s.threads[i])
    requires Value(Freed, c, s', s'.threads[t]) + drop <= Value(Freed, c, s, s.threads[t])
    ensures Total(Freed, c, s') + drop <= Total(Freed, c, s)
  {
    var xs, ys := Values(Freed, c, s), Values(Freed, c, s');
    SumUpdate(xs, t, ys[t]);
    SumMonotone(ys, xs[t := ys[t]]);
  }

  /** Thread t, done with a stale weight, frees at most the threads that hold none. */
  lemma FreedGrows(c: Config, s: State, s': State, t: nat)
    requires SameMinute(s, s', t)
    requires forall i: nat :: i < |s.threads| && i != t ==>
               Value(Freed, c, s', s.threads[i])
               <= Value(Freed, c, s, s.threads[i]) + Value(FreshWeight, c, s, s.threads[i])
    requires Value(Freed, c, s', s'.threads[t]) == 0
    ensures Total(Freed, c, s') <= Total(Freed, c, s) + Total(FreshWeight, c, s)
  {
    var xs, fs := Values(Freed, c, s), Values(FreshWeight, c, s);
    SumAdds(xs, fs);
    SumMonotone(Values(Freed, c, s'), seq(|xs|, i requires 0 <= i < |xs| => xs[i] + fs[i]));
  }

  /** While no thread has been told of the limit, none is freed. */
  lemma NobodyFreed(c: Config, s: State)
    requires forall i: nat :: i < |s.threads| ==> Value(Freed, c, s, s.threads[i]) == 0
    ensures Total(Freed, c, s) == 0
  {
    SumBounded(Values(Freed, c, s), 0);
    TimesIsProduct(0, |s.threads|);
  }

  // ---- The book of early departures ------------------------------------------------------------

  /** `early` counts the threads that, in this minute, went on because a weight below the limit stood in the session
      although their own reply had reported the limit. For each thread, `naps` counts how often, in this minute, it was
      told of the limit but slept so shortly that it wakes up within the minute, and `chances` how many dates of an
      earlier minute were stored since it had none to store itself. */
  datatype Ledger = Ledger(early: nat, naps: seq<nat>, chances: seq<nat>)

  predicate Fits(s: State, l: Ledger) {
    |l.naps| == |l.chances| == |s.threads|
  }

  function Blank(n: nat): Ledger {
    Ledger(0, seq(n, _ => 0), seq(n, _ => 0))
  }

  function MoreChances(s: State, l: Ledger): seq<nat>
    requires Fits(s, l)
  {
    seq(|s.threads|, i requires 0 <= i < |s.threads| =>
      if HoldsStaleDate(s, s.threads[i]) then l.chances[i] else l.chances[i] + 1)
  }

  predicate NapsShort(c: Config, s: State, p: Phase) {
    Spent(c, s, p) && Minute(SleepUntil(s)) <= Minute(s.now)
  }

  function Booked(c: Config, s: State, l: Ledger, a: Action): Ledger
    requires Enabled(c, s, a) && Fits(s, l)
  {
    match a
    case Tick(d) => if Minute(s.now + d) == Minute(s.now) then l else Blank(|s.threads|)
    case StoreDate(t) => if HoldsStaleDate(s, s.threads[t]) then l.(chances := MoreChances(s, l)) else l
    case Check(t) => if FreedByWeight(c, s, s.threads[t]) then l.(early := l.early + 1) else l
    case Doze(t) => if NapsShort(c, s, s.threads[t]) then l.(naps := l.naps[t := l.naps[t] + 1]) else l
    case _ => l
  }

  // ---- Every step keeps the accounting ---------------------------------------------------------

  ghost predicate Sane(c: Config, s: State) {
    Timely(s) && Light(c, s) && AllReported(s)
  }

  lemma SaneKeeps(c: Config, s: State, a: Action)
    requires Sane(c, s) && Enabled(c, s, a)
    ensures Sane(c, Step(c, s, a))
  {
    var s' := Step(c, s, a);
    forall t: nat | t < |s'.threads| ensures InTime(s', s'.threads[t]) && Reported(s', s'.threads[t]) {
      assert InTime(s, s.threads[t]) && Reported(s, s.threads[t]);
    }
  }

  lemma SaneSpent(c: Config, s: State)
    requires AllReported(s)
    ensures NoneSpent(c, s)
  {
    forall t: nat | t < |s.threads| && Spent(c, s, s.threads[t]) ensures s.counted >= c.limit {
      assert Reported(s, s.threads[t]);
    }
  }

  /** What is counted beyond the limit is paid for by blocked threads and early departures. */
  predicate Paid(c: Config, s: State, early: nat) {
    s.counted <= c.limit - 1 + Times(c.maxWeight, Total(Blocked, c, s) + early)
  }

  /** Every request counted at or beyond the limit blocks its thread; no other step loses a blocked thread that is
      not booked. */
  lemma PaidKeeps(c: Config, s: State, a: Action, early: nat, early': nat)
    requires c.limit >= 1 && Light(c, s) && Paid(c, s, early) && Enabled(c, s, a)
    requires a.Count? || (a.Tick? && Minute(Step(c, s, a).now) == Minute(s.now)) ==> early <= early'
    requires !a.Count? && !a.Tick? ==>
               Value(Blocked, c, s, s.threads[a.t]) + early
               <= Value(Blocked, c, Step(c, s, a), Step(c, s, a).threads[a.t]) + early'
    ensures Paid(c, Step(c, s, a), early')
  {
    var s' := Step(c, s, a);
    if a.Tick? {
      if Minute(s'.now) == Minute(s.now) {
        assert Values(Blocked, c, s') == Values(Blocked, c, s);
        TimesMonotone(c.maxWeight, Total(Blocked, c, s) + early, Total(Blocked, c, s') + early');
      }
    } else {
      TotalMoves(Blocked, c, s, s', a.t);
      if !a.Count? {
        TimesMonotone(c.maxWeight, Total(Blocked, c, s) + early, Total(Blocked, c, s') + early');
      } else if s'.counted >= c.limit {
        TimesMonotone(c.maxWeight, Total(Blocked, c, s) + early + 1, Total(Blocked, c, s') + early');
      }
    }
  }

  lemma DepartureBooked(c: Config, s: State, l: Ledger, a: Action)
    requires Fits(s, l) && Enabled(c, s, a) && !a.Tick? && !a.Count?
    ensures var s', l' := Step(c, s, a), Booked(c, s, l, a);
            Value(Blocked, c, s, s.threads[a.t]) + l.early + Sum(l.naps)
            <= Value(Blocked, c, s', s'.threads[a.t]) + l'.early + Sum(l'.naps)
  {
    if a.Doze? {
      SumUpdate(l.naps, a.t, l.naps[a.t] + 1);
    }
  }

  /** The thread that is the m-th to be done with its stale weight frees at most the m - 1 threads that were done
      with theirs before. */
  ghost predicate WeightsPaid(c: Config, s: State, l: Ledger) {
    && (s.counted < c.limit ==> l.early == 0)
    && (s.counted >= c.limit ==> l.early + Total(Freed, c, s) <= Pairs(Total(FreshWeight, c, s)))
  }

  lemma WeightsKeepAtLimit(c: Config, s: State, l: Ledger, a: Action)
    requires Sane(c, s) && Fits(s, l) && WeightsPaid(c, s, l) && Enabled(c, s, a)
    requires s.counted >= c.limit && !a.Tick?
    ensures WeightsPaid(c, Step(c, s, a), Booked(c, s, l, a))
  {
    hide Total;
    var s', l' := Step(c, s, a), Booked(c, s, l, a);
    TotalMoves(FreshWeight, c, s, s', a.t);
    if a.StoreWeight? && s.threads[a.t].used < c.limit {
      FreedGrows(c, s, s', a.t);
    } else {
      FreedFalls(c, s, s', a.t, l'.early - l.early);
    }
  }

  lemma WeightsKeep(c: Config, s: State, l: Ledger, a: Action)
    requires c.limit >= 1 && Sane(c, s) && Fits(s, l) && WeightsPaid(c, s, l) && Enabled(c, s, a)
    ensures WeightsPaid(c, Step(c, s, a), Booked(c, s, l, a))
  {
    var s', l' := Step(c, s, a), Booked(c, s, l, a);
    SaneSpent(c, s);
    if a.Tick? {
      if Minute(s'.now) == Minute(s.now) {
        assert Values(Freed, c, s') == Values(Freed, c, s) && Values(FreshWeight, c, s') == Values(FreshWeight, c, s);
      }
    } else if s'.counted >= c.limit {
      if s.counted >= c.limit {
        WeightsKeepAtLimit(c, s, l, a);
      } else {
        NobodyFreed(c, s');
      }
    }
  }

  /** The seconds of the minute a thread has slept through at most. */
  function NapRoom(s: State, p: Phase): nat {
    (if p.Sleeping? && p.until >= s.now && Minute(p.until) == Minute(s.now) then p.until else s.now) % 60
  }

  predicate DatePaid(c: Config, s: State, l: Ledger, i: nat)
    requires Fits(s, l) && i < |s.threads|
  {
    var p := s.threads[i];
    && l.naps[i] + Bit(FreedByDate(c, s, p)) <= l.chances[i]
    && l.naps[i] <= NapRoom(s, p)
    && (HoldsStaleDate(s, p) ==> l.chances[i] == 0)
  }

  /** A thread naps at most once for each chance, and each time through a second of its own. */
  ghost predicate DatesPaid(c: Config, s: State, l: Ledger)
    requires Fits(s, l)
  {
    forall i: nat :: i < |s.threads| ==> DatePaid(c, s, l, i)
  }

  lemma OwnDatePaid(c: Config, s: State, l: Ledger, a: Action)
    requires Fits(s, l) && Enabled(c, s, a) && !a.Tick? && DatePaid(c, s, l, a.t)
    requires InTime(s, s.threads[a.t]) && s.lastDate <= s.now
    ensures DatePaid(c, Step(c, s, a), Booked(c, s, l, a), a.t)
  {}

  lemma OtherDatePaid(c: Config, s: State, l: Ledger, a: Action, i: nat)
    requires Fits(s, l) && Enabled(c, s, a) && i < |s.threads| && (a.Tick? || a.t != i) && DatePaid(c, s, l, i)
    requires InTime(s, s.threads[i])
    ensures DatePaid(c, Step(c, s, a), Booked(c, s, l, a), i)
  {}

  lemma DatesKeep(c: Config, s: State, l: Ledger, a: Action)
    requires Sane(c, s) && Fits(s, l) && DatesPaid(c, s, l) && Enabled(c, s, a)
    ensures DatesPaid(c, Step(c, s, a), Booked(c, s, l, a))
  {
    hide DatePaid;
    forall i: nat | i < |s.threads| ensures DatePaid(c, Step(c, s, a), Booked(c, s, l, a), i) {
      assert DatePaid(c, s, l, i) && InTime(s, s.threads[i]);
      if !a.Tick? && a.t == i {
        OwnDatePaid(c, s, l, a);
      } else {
        OtherDatePaid(c, s, l, a, i);
      }
    }
  }

  function CutAt(k: nat, xs: seq<nat>): seq<nat> {
    seq(|xs|, i requires 0 <= i < |xs| => Min(k, xs[i]))
  }

  /** The thread that is the m-th to be done with its stale date gives one chance to the m - 1 threads before it. */
  predicate ChancesPaid(c: Config, s: State, l: Ledger, k: nat) {
    Sum(CutAt(k, l.chances)) <= Stairs(k, Total(FreshDate, c, s))
  }

  lemma NoChances(c: Config, s: State, n: nat, k: nat)
    ensures ChancesPaid(c, s, Blank(n), k)
  {
    SumBounded(CutAt(k, Blank(n).chances), 0);
    TimesIsProduct(0, n);
  }

  lemma ChancesRise(c: Config, s: State, l: Ledger, k: nat)
    requires Fits(s, l) && DatesPaid(c, s, l) && (k > 0 ==> ChancesPaid(c, s, l, k - 1))
    ensures Sum(CutAt(k, MoreChances(s, l))) <= Stairs(k, Total(FreshDate, c, s) + 1)
  {
    var cut := CutAt(k, MoreChances(s, l));
    if k == 0 {
      SumBounded(cut, 0);
      TimesIsProduct(0, |cut|);
    } else {
      var less, ones := CutAt(k - 1, l.chances), Values(FreshDate, c, s);
      forall i: nat | i < |cut| ensures cut[i] <= less[i] + ones[i] {
        assert DatePaid(c, s, l, i);
      }
      SumAdds(less, ones);
      SumMonotone(cut, seq(|less|, i requires 0 <= i < |less| => less[i] + ones[i]));
      StairsRaised(k, Total(FreshDate, c, s));
    }
  }

  /** Nobody comes to hold a stale date within the minute, and storing one is being done with it. */
  lemma FreshDateMoves(c: Config, s: State, a: Action)
    requires Sane(c, s) && Enabled(c, s, a) && !a.Tick?
    ensures var s' := Step(c, s, a);
            && SameMinute(s, s', a.t)
            && Value(FreshDate, c, s, s.threads[a.t]) <= Value(FreshDate, c, s', s'.threads[a.t])
            && (a.StoreDate? && HoldsStaleDate(s, s.threads[a.t]) ==>
                  Value(FreshDate, c, s, s.threads[a.t]) + 1 == Value(FreshDate, c, s', s'.threads[a.t]))
  {
    assert InTime(s, s.threads[a.t]);
  }

  lemma ChancesKeep(c: Config, s: State, l: Ledger, a: Action, k: nat)
    requires Sane(c, s) && Fits(s, l) && DatesPaid(c, s, l) && Enabled(c, s, a)
    requires ChancesPaid(c, s, l, k) && (k > 0 ==> ChancesPaid(c, s, l, k - 1))
    ensures ChancesPaid(c, Step(c, s, a), Booked(c, s, l, a), k)
  {
    var s', l' := Step(c, s, a), Booked(c, s, l, a);
    if a.Tick? {
      if Minute(s'.now) == Minute(s.now) {
        assert Values(FreshDate, c, s') == Values(FreshDate, c, s);
      } else {
        NoChances(c, s', |s.threads|, k);
      }
    } else {
      hide Step, Value, Total, CutAt;
      FreshDateMoves(c, s, a);
      TotalMoves(FreshDate, c, s, s', a.t);
      if a.StoreDate? && HoldsStaleDate(s, s.threads[a.t]) {
        ChancesRise(c, s, l, k);
      } else {
        StairsMonotone(k, Total(FreshDate, c, s), Total(FreshDate, c, s'));
      }
    }
  }

  ghost predicate Inv(c: Config, s: State, l: Ledger) {
    && Sane(c, s) && Fits(s, l)
    && Paid(c, s, l.early + Sum(l.naps))
    && WeightsPaid(c, s, l) && DatesPaid(c, s, l)
    && forall k: nat :: ChancesPaid(c, s, l, k)
  }

  lemma StepKeeps(c: Config, s: State, l: Ledger, a: Action)
    requires c.limit >= 1 && Inv(c, s, l) && Enabled(c, s, a)
    ensures Inv(c, Step(c, s, a), Booked(c, s, l, a))
  {
    hide Value, Paid, WeightsPaid, DatesPaid, ChancesPaid, Sum;
    var l' := Booked(c, s, l, a);
    assert Fits(Step(c, s, a), l');
    SaneKeeps(c, s, a);
    if !a.Tick? && !a.Count? {
      DepartureBooked(c, s, l, a);
    }
    PaidKeeps(c, s, a, l.early + Sum(l.naps), l'.early + Sum(l'.naps));
    WeightsKeep(c, s, l, a);
    DatesKeep(c, s, l, a);
    forall k: nat ensures ChancesPaid(c, Step(c, s, a), l', k) {
      ChancesKeep(c, s, l, a, k);
    }
  }

  // ---- Runs ------------------------------------------------------------------------------------

  lemma {:induction false} RunKeeps(c: Config, s: State, l: Ledger, acts: seq<Action>) returns (l': Ledger)
    requires c.limit >= 1 && Inv(c, s, l) && Legal(c, s, acts)
    ensures Inv(c, After(c, s, acts), l') && |After(c, s, acts).threads| == |s.threads|
    decreases |acts|
  {
    hide Sane, Paid, WeightsPaid, DatesPaid, ChancesPaid;
    l' := l;
    if acts != [] {
      StepKeeps(c, s, l, acts[0]);
      l' := RunKeeps(c, Step(c, s, acts[0]), Booked(c, s, l, acts[0]), acts[1..]);
    }
  }

  lemma InitIsSane(c: Config, s: State)
    requires Init(s)
    ensures Sane(c, s)
  {
    forall t: nat | t < |s.threads| ensures InTime(s, s.threads[t]) && Reported(s, s.threads[t]) {}
  }

  lemma InitIsPaid(c: Config, s: State)
    requires c.limit >= 1 && Init(s)
    ensures Inv(c, s, Blank(|s.threads|))
  {
    var l := Blank(|s.threads|);
    InitIsSane(c, s);
    forall i: nat | i < |s.threads| ensures DatePaid(c, s, l, i) {}
    forall k: nat ensures ChancesPaid(c, s, l, k) { NoChances(c, s, |s.threads|, k); }
  }

  // ---- The bound -------------------------------------------------------------------------------

  lemma AtMostAll(m: Mark, c: Config, s: State)
    ensures Total(m, c, s) <= |s.threads|
  {
    SumBounded(Values(m, c, s), 1);
    TimesIsProduct(1, |s.threads|);
  }

  /** The requests of n threads that can be counted once the limit is all but reached: one of each thread, one for
      each pair because of weights, and one for each pair because of dates as long as the minute has seconds left. */
  function MostRequests(n: nat): nat {
    n + Pairs(n) + Stairs(59, n)
  }

  lemma {:induction false} MostRequestsAre(n: nat)
    ensures n <= 60 ==> MostRequests(n) == n * n
    ensures n >= 60 ==> 2 * MostRequests(n) == n * n + 119 * n - 3540
    ensures n >= 2 ==> MostRequests(n) > n
  {
    if n > 0 {
      MostRequestsAre(n - 1);
      assert (n - 1) * (n - 1) == n * n - 2 * n + 1;
    }
  }

  lemma EarlyAtMost(c: Config, s: State, l: Ledger)
    requires Inv(c, s, l)
    ensures s.counted < c.limit || l.early + Sum(l.naps) <= Pairs(|s.threads|) + Stairs(59, |s.threads|)
  {
    var n := |s.threads|;
    AtMostAll(FreshWeight, c, s);
    PairsMonotone(Total(FreshWeight, c, s), n);
    forall i: nat | i < n ensures l.naps[i] <= CutAt(59, l.chances)[i] {
      assert DatePaid(c, s, l, i);
    }
    SumMonotone(l.naps, CutAt(59, l.chances));
    assert ChancesPaid(c, s, l, 59);
    AtMostAll(FreshDate, c, s);
    StairsMonotone(59, Total(FreshDate, c, s), n);
  }

  lemma BoundFromPaid(c: Config, s: State, early: nat, k: nat)
    requires c.limit >= 1 && Paid(c, s, early) && |s.threads| + early <= k
    ensures s.counted <= c.limit - 1 + c.maxWeight * k
  {
    AtMostAll(Blocked, c, s);
    TimesMonotone(c.maxWeight, Total(Blocked, c, s) + early, k);
    TimesIsProduct(c.maxWeight, k);
  }

  /** In every interleaving of n threads, with loads and stores of the atomics interleaved freely, this much is
      counted in any clock minute at most. */
  lemma MinuteBound(c: Config, s: State, acts: seq<Action>)
    requires c.limit >= 1 && Init(s) && Legal(c, s, acts)
    ensures After(c, s, acts).counted <= c.limit - 1 + c.maxWeight * MostRequests(|s.threads|)
  {
    InitIsPaid(c, s);
    var l := RunKeeps(c, s, Blank(|s.threads|), acts);
    var s' := After(c, s, acts);
    EarlyAtMost(c, s', l);
    if s'.counted >= c.limit {
      BoundFromPaid(c, s', l.early + Sum(l.naps), MostRequests(|s.threads|));
    } else {
      assert c.maxWeight * MostRequests(|s.threads|) >= 0;
    }
  }

  // ---- When a thread stores and checks in one piece -------------------------------------------

  /** A sleep measured from a date of the current minute lasts beyond that minute. */
  lemma SleepsPastMinute(s: State)
    requires s.lastDate <= s.now && Minute(s.lastDate) == Minute(s.now)
    ensures Minute(SleepUntil(s)) > Minute(s.now)
  {}

  /** What a thread does with its reply in one piece keeps it blocked if its reply reported the limit. */
  lemma OutcomeKeeps(c: Config, s: State, t: nat, date: nat)
    requires Sane(c, s) && Paid(c, s, 0) && Enabled(c, s, Receive(t, date))
    ensures Sane(c, Outcome(c, s, t, date)) && Paid(c, Outcome(c, s, t, date), 0)
  {
    var s' := Outcome(c, s, t, date);
    forall u: nat | u < |s'.threads| ensures InTime(s', s'.threads[u]) && Reported(s', s'.threads[u]) {
      assert InTime(s, s.threads[u]) && Reported(s, s.threads[u]);
    }
    assert InTime(s, s.threads[t]);
    if Minute(date) == Minute(s.now) { SleepsPastMinute(s'); }
    TotalMoves(Blocked, c, s, s', t);
    TimesMonotone(c.maxWeight, Total(Blocked, c, s), Total(Blocked, c, s'));
  }

  lemma {:induction false} TasksKeep(c: Config, s: State, tasks: seq<Task>)
    requires c.limit >= 1 && Sane(c, s) && Paid(c, s, 0) && LegalTasks(c, s, tasks)
    ensures var s' := AfterTasks(c, s, tasks); Paid(c, s', 0) && |s'.threads| == |s.threads|
    decreases |tasks|
  {
    if tasks != [] {
      match tasks[0] {
        case Plain(a) =>
          SaneKeeps(c, s, a);
          PaidKeeps(c, s, a, 0, 0);
        case Whole(t, date) =>
          OutcomeKeeps(c, s, t, date);
      }
      TasksKeep(c, DoTask(c, s, tasks[0]), tasks[1..]);
    }
  }

  /** When each thread stores and checks in one piece, the exchange counts at most limit - 1 + n * maxWeight in any
      clock minute: below the limit anything may be sent, and from then on each thread gets at most one request in. */
  lemma MinuteBoundInOnePiece(c: Config, s: State, tasks: seq<Task>)
    requires c.limit >= 1 && Init(s) && LegalTasks(c, s, tasks)
    ensures AfterTasks(c, s, tasks).counted <= c.limit - 1 + c.maxWeight * |s.threads|
  {
    InitIsSane(c, s);
    TasksKeep(c, s, tasks);
    BoundFromPaid(c, AfterTasks(c, s, tasks), 0, |s.threads|);
  }
}
