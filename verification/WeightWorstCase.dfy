/** How much weight the exchange can be made to count: runs of the limiter's step system in which the threads store
    stale weights and dates at the worst moments, and with them the exact worst case of a clock minute. */
module WeightWorstCase {
  import opened WeightThrottle
  import opened WeightBound

  // ---- Reaching a state ------------------------------------------------------------------------

  ghost predicate Reaches(c: Config, s: State, s': State) {
    exists acts :: Legal(c, s, acts) && After(c, s, acts) == s'
  }

  lemma ReachesItself(c: Config, s: State)
    ensures Reaches(c, s, s)
  {
    assert Legal(c, s, []) && After(c, s, []) == s;
  }

  lemma {:induction false} RunsConcat(c: Config, s: State, acts: seq<Action>, more: seq<Action>)
    requires Legal(c, s, acts) && Legal(c, After(c, s, acts), more)
    ensures Legal(c, s, acts + more) && After(c, s, acts + more) == After(c, After(c, s, acts), more)
    decreases |acts|
  {
    if acts == [] {
      assert acts + more == more;
    } else {
      assert (acts + more)[1..] == acts[1..] + more;
      RunsConcat(c, Step(c, s, acts[0]), acts[1..], more);
    }
  }

  lemma ReachesThen(c: Config, s: State, mid: State, s': State)
    requires Reaches(c, s, mid) && Reaches(c, mid, s')
    ensures Reaches(c, s, s')
  {
    var acts :| Legal(c, s, acts) && After(c, s, acts) == mid;
    var more :| Legal(c, mid, more) && After(c, mid, more) == s';
    RunsConcat(c, s, acts, more);
  }

  /** One more step. */
  lemma ThenStep(c: Config, s: State, mid: State, a: Action)
    requires Reaches(c, s, mid) && Enabled(c, mid, a)
    ensures Reaches(c, s, Step(c, mid, a))
  {
    assert Legal(c, mid, [a]) && After(c, mid, [a]) == Step(c, mid, a) by {
      assert After(c, Step(c, mid, a), [a][1..]) == Step(c, mid, a);
    }
    ReachesThen(c, s, mid, Step(c, mid, a));
  }

  // ---- What one thread does --------------------------------------------------------------------

  /** Both values of the thread's reply are stored; it has yet to load the weight and decide. */
  predicate Undecided(p: Phase) {
    p.Scanning? && p.weightStored && p.dateStored
  }

  /** Thread t has sent a request of weight w and stored what the reply says. */
  function Loaded(s: State, t: nat, w: nat): State
    requires t < |s.threads|
  {
    var total := s.counted + w;
    Put(s.(counted := total, usedWeight := total, lastDate := s.now), t, Scanning(total, s.now, s.now, true, true))
  }

  lemma Loads(c: Config, s: State, t: nat, w: nat)
    requires t < |s.threads| && s.threads[t] == Ready && w <= c.maxWeight
    ensures Reaches(c, s, Loaded(s, t, w))
  {
    ReachesItself(c, s);
    ThenStep(c, s, s, Send(t, w));
    var s1 := Step(c, s, Send(t, w));
    ThenStep(c, s, s1, Count(t));
    var s2 := Step(c, s1, Count(t));
    ThenStep(c, s, s2, Receive(t, s.now));
    var s3 := Step(c, s2, Receive(t, s.now));
    ThenStep(c, s, s3, StoreWeight(t));
    var s4 := Step(c, s3, StoreWeight(t));
    ThenStep(c, s, s4, StoreDate(t));
    var s5 := Step(c, s4, StoreDate(t));
    assert s5.threads == Loaded(s, t, w).threads;
  }

  /** Where a thread that loads the weight now ends up. */
  function Decision(c: Config, s: State): Phase {
    if s.usedWeight < c.limit then Ready else Sleeping(SleepUntil(s))
  }

  ghost predicate KeptFrom(s: State, s': State, m: nat) {
    |s.threads| == |s'.threads| && forall i :: m <= i < |s.threads| ==> s'.threads[i] == s.threads[i]
  }

  /** s' differs from s at most in the first m threads. */
  ghost predicate SameButFirst(s: State, s': State, m: nat) {
    && KeptFrom(s, s', m)
    && s' == s.(threads := s'.threads)
  }

  lemma Decides(c: Config, s: State, t: nat) returns (s': State)
    requires t < |s.threads| && Undecided(s.threads[t])
    ensures Reaches(c, s, s')
    ensures s' == Put(s, t, Decision(c, s))
  {
    ReachesItself(c, s);
    ThenStep(c, s, s, Check(t));
    s' := Step(c, s, Check(t));
    if s.usedWeight >= c.limit {
      var s1 := s';
      ThenStep(c, s, s1, Doze(t));
      s' := Step(c, s1, Doze(t));
      assert s'.threads == s.threads[t := Decision(c, s)];
    }
  }

  lemma WeightAdds(c: Config, j: nat, k: nat)
    ensures c.maxWeight * (j + k) == c.maxWeight * j + c.maxWeight * k
  {}

  // ---- What the first m threads do -------------------------------------------------------------

  ghost predicate FirstAre(s: State, m: nat, p: Phase) {
    m <= |s.threads| && forall i :: 0 <= i < m ==> s.threads[i] == p
  }

  ghost predicate FirstUndecided(s: State, m: nat) {
    m <= |s.threads| && forall i :: 0 <= i < m ==> Undecided(s.threads[i])
  }

  /** The first m threads each get a request of the greatest weight counted, and store the reply. */
  lemma {:induction false} AllLoad(c: Config, s: State, m: nat) returns (s': State)
    requires FirstAre(s, m, Ready)
    ensures Reaches(c, s, s') && FirstUndecided(s', m)
    ensures SameButFirst(s, s'.(counted := s.counted, usedWeight := s.usedWeight, lastDate := s.lastDate), m)
    ensures s'.counted == s.counted + c.maxWeight * m
    ensures m > 0 ==> s'.usedWeight == s'.counted && s'.lastDate == s.now
  {
    hide Reaches;
    s' := s;
    if m == 0 {
      ReachesItself(c, s);
    } else {
      var s1 := AllLoad(c, s, m - 1);
      Loads(c, s1, m - 1, c.maxWeight);
      s' := Loaded(s1, m - 1, c.maxWeight);
      ReachesThen(c, s, s1, s');
      WeightAdds(c, m - 1, 1);
    }
  }

  lemma {:induction false} AllDecide(c: Config, s: State, m: nat) returns (s': State)
    requires FirstUndecided(s, m)
    ensures Reaches(c, s, s') && FirstAre(s', m, Decision(c, s)) && SameButFirst(s, s', m)
  {
    s' := s;
    if m == 0 {
      ReachesItself(c, s);
    } else {
      var s1 := AllDecide(c, s, m - 1);
      s' := Decides(c, s1, m - 1);
      ReachesThen(c, s, s1, s');
    }
  }

  lemma {:induction false} AllWake(c: Config, s: State, m: nat) returns (s': State)
    requires FirstAre(s, m, Sleeping(s.now))
    ensures Reaches(c, s, s') && FirstAre(s', m, Ready) && SameButFirst(s, s', m)
  {
    s' := s;
    if m == 0 {
      ReachesItself(c, s);
    } else {
      var s1 := AllWake(c, s, m - 1);
      ThenStep(c, s, s1, Wake(m - 1));
      s' := Step(c, s1, Wake(m - 1));
    }
  }

  // ---- The worst run ---------------------------------------------------------------------------

  /** A reply of the minute before the one the run is about: its weight is below the limit, its date out of date. */
  const STALE := Replied(0, 59)

  /** The first round in which the stale date is put to use as well: each nap takes the run to the next second, and
      only the last 59 rounds can have one. */
  function NapsFrom(n: nat): nat {
    if n <= 60 then 1 else n - 59
  }

  /** The requests freed by the stale replies 0, ..., r - 1: reply q frees the threads 0, ..., q - 1, once because of
      the weight and, from round `from` on, once because of the date. */
  function AllFreed(from: nat, r: nat): nat
    requires from >= 1
  {
    if r <= from then Pairs(r)
    else
      PairsMonotone(from, r);
      2 * Pairs(r) - Pairs(from)
  }

  /** The limit is all but reached, r threads are done with their stale replies, the others still hold theirs. */
  ghost predicate Round(c: Config, s: State, n: nat, r: nat) {
    && 1 <= r <= n == |s.threads|
    && s.now == 60 + (if r <= NapsFrom(n) then 0 else r - NapsFrom(n))
    && s.counted == c.limit - 1 + c.maxWeight * AllFreed(NapsFrom(n), r)
    && FirstAre(s, r, Ready)
    && forall i :: r <= i < n ==> s.threads[i] == STALE
  }

  /** Thread r receives its stale reply and stores the weight. */
  lemma ShedsWeight(c: Config, s: State, r: nat) returns (s': State)
    requires r < |s.threads| && s.threads[r] == STALE && s.now >= 59
    ensures Reaches(c, s, s') && s' == Put(s.(usedWeight := 0), r, Scanning(0, 59, 59, true, false))
  {
    ReachesItself(c, s);
    ThenStep(c, s, s, Receive(r, 59));
    var s1 := Step(c, s, Receive(r, 59));
    ThenStep(c, s, s1, StoreWeight(r));
    s' := Step(c, s1, StoreWeight(r));
    assert s'.threads == s.threads[r := Scanning(0, 59, 59, true, false)];
  }

  lemma ShedsDate(c: Config, s: State, r: nat) returns (s': State)
    requires r < |s.threads| && s.threads[r] == Scanning(0, 59, 59, true, false)
    ensures Reaches(c, s, s') && s' == Put(s.(lastDate := 59), r, Scanning(0, 59, 59, true, true))
  {
    ReachesItself(c, s);
    ThenStep(c, s, s, StoreDate(r));
    s' := Step(c, s, StoreDate(r));
  }

  /** The first r threads reach the limit; before they look at the weight, thread r stores its stale one. */
  lemma StaleWeightStored(c: Config, s: State, r: nat) returns (s': State)
    requires r < |s.threads| && FirstAre(s, r, Ready) && s.threads[r] == STALE && s.now >= 59
    ensures Reaches(c, s, s') && FirstUndecided(s', r) && KeptFrom(s, s', r + 1)
    ensures s'.usedWeight == 0 && s'.now == s.now && s'.counted == s.counted + c.maxWeight * r
    ensures s'.threads[r] == Scanning(0, 59, 59, true, false)
  {
    var s1 := AllLoad(c, s, r);
    s' := ShedsWeight(c, s1, r);
    ReachesThen(c, s, s1, s');
  }

  /** The first r threads reach the limit again; before they go to sleep, thread r stores its stale date, and all
      sleep for a second only. */
  lemma StaleDateStored(c: Config, s: State, r: nat) returns (s': State)
    requires 0 < r < |s.threads| && FirstAre(s, r, Ready) && s.threads[r] == Scanning(0, 59, 59, true, false)
    requires s.counted + c.maxWeight * r >= c.limit && 60 <= s.now < 119
    ensures Reaches(c, s, s') && FirstAre(s', r + 1, Ready)
    ensures s'.now == s.now + 1 && s'.counted == s.counted + c.maxWeight * r
    ensures KeptFrom(s, s', r + 1)
  {
    hide Reaches;
    var s1 := AllLoad(c, s, r);
    var s2 := ShedsDate(c, s1, r);
    ReachesThen(c, s, s1, s2);
    var s3 := AllDecide(c, s2, r + 1);
    ReachesThen(c, s, s2, s3);
    ThenStep(c, s, s3, Tick(1));
    var s4 := Step(c, s3, Tick(1));
    s' := AllWake(c, s4, r + 1);
    ReachesThen(c, s, s4, s');
  }

  /** A stale reply handled whole: the weight, and the date as well if there is a second left to sleep through. */
  lemma StaleReplyHandled(c: Config, s: State, r: nat, nap: bool) returns (s': State)
    requires c.limit >= 1 && 0 < r < |s.threads| && FirstAre(s, r, Ready) && s.threads[r] == STALE
    requires s.counted + c.maxWeight * r >= c.limit && 60 <= s.now < if nap then 119 else 120
    ensures Reaches(c, s, s') && FirstAre(s', r + 1, Ready) && KeptFrom(s, s', r + 1)
    ensures s'.now == if nap then s.now + 1 else s.now
    ensures s'.counted == s.counted + c.maxWeight * r + if nap then c.maxWeight * r else 0
  {
    hide Reaches;
    var s1 := StaleWeightStored(c, s, r);
    if nap {
      var s2 := AllDecide(c, s1, r);
      ReachesThen(c, s, s1, s2);
      s' := StaleDateStored(c, s2, r);
      ReachesThen(c, s, s2, s');
    } else {
      var s2 := ShedsDate(c, s1, r);
      ReachesThen(c, s, s1, s2);
      s' := AllDecide(c, s2, r + 1);
      ReachesThen(c, s, s2, s');
    }
  }

  lemma RoundWeight(c: Config, from: nat, r: nat)
    requires c.maxWeight >= 1 && r >= 1 && from >= 1
    ensures c.maxWeight * r >= 1 && c.maxWeight * AllFreed(from, r) >= 0
    ensures c.maxWeight * AllFreed(from, r + 1)
            == c.maxWeight * AllFreed(from, r) + c.maxWeight * r + if r >= from then c.maxWeight * r else 0
  {
    assert AllFreed(from, r + 1) == AllFreed(from, r) + r + if r >= from then r else 0;
  }

  lemma NextRound(c: Config, s: State, n: nat, r: nat) returns (s': State)
    requires c.limit >= 1 && c.maxWeight >= 1 && Round(c, s, n, r) && r < n
    ensures Reaches(c, s, s') && Round(c, s', n, r + 1)
  {
    hide Reaches, AllFreed;
    RoundWeight(c, NapsFrom(n), r);
    s' := StaleReplyHandled(c, s, r, r >= NapsFrom(n));
  }

  lemma {:induction false} Rounds(c: Config, s: State, n: nat, r: nat) returns (s': State)
    requires c.limit >= 1 && c.maxWeight >= 1 && Round(c, s, n, 1) && 1 <= r <= n
    ensures Reaches(c, s, s') && Round(c, s', n, r)
    decreases r
  {
    s' := s;
    if r == 1 {
      ReachesItself(c, s);
    } else {
      var s1 := Rounds(c, s, n, r - 1);
      s' := NextRound(c, s1, n, r - 1);
      ReachesThen(c, s, s1, s');
    }
  }

  // ---- How the worst run begins ----------------------------------------------------------------

  /** In the last second of a minute every thread but the first has a request of weight zero counted. */
  lemma {:induction false} StaleReplies(c: Config, s: State, m: nat) returns (s': State)
    requires FirstAre(s, |s.threads|, Ready) && 1 <= m <= |s.threads| && s.now == 59 && s.counted == 0
    ensures Reaches(c, s, s') && s' == s.(threads := s'.threads) && |s'.threads| == |s.threads|
    ensures forall i :: 0 <= i < |s.threads| ==> s'.threads[i] == if 1 <= i < m then STALE else Ready
  {
    s' := s;
    if m == 1 {
      ReachesItself(c, s);
    } else {
      var s1 := StaleReplies(c, s, m - 1);
      ThenStep(c, s, s1, Send(m - 1, 0));
      var s2 := Step(c, s1, Send(m - 1, 0));
      ThenStep(c, s, s2, Count(m - 1));
      s' := Step(c, s2, Count(m - 1));
    }
  }

  /** In the next minute the first thread brings the counter just below the limit. */
  lemma {:induction false} JustBelow(c: Config, s: State, k: nat) returns (s': State)
    requires c.maxWeight >= 1 && k < c.limit && s.threads != [] && s.threads[0] == Ready && s.counted == 0
    ensures Reaches(c, s, s') && s'.counted == k && s'.now == s.now && s'.threads == s.threads
  {
    s' := s;
    if k == 0 {
      ReachesItself(c, s);
    } else {
      var s1 := JustBelow(c, s, k - 1);
      Loads(c, s1, 0, 1);
      var s2 := Loaded(s1, 0, 1);
      ReachesThen(c, s, s1, s2);
      s' := Decides(c, s2, 0);
      ReachesThen(c, s, s2, s');
      assert s'.threads == s.threads;
    }
  }

  function Start(n: nat): State {
    State(59, 0, 0, 0, seq(n, _ => Ready))
  }

  lemma FirstRound(c: Config, n: nat) returns (s': State)
    requires c.limit >= 1 && c.maxWeight >= 1 && n >= 1
    ensures Reaches(c, Start(n), s') && Round(c, s', n, 1)
  {
    var s := Start(n);
    var s1 := StaleReplies(c, s, n);
    ThenStep(c, s, s1, Tick(1));
    var s2 := Step(c, s1, Tick(1));
    s' := JustBelow(c, s2, c.limit - 1);
    ReachesThen(c, s, s2, s');
    assert AllFreed(NapsFrom(n), 1) == 0;
  }

  // ---- The worst case --------------------------------------------------------------------------

  lemma SquareLess(n: int, d: int)
    ensures (n - d) * (n - d) == n * n - 2 * d * n + d * d
  {}

  lemma AllFreedAre(n: nat)
    requires n >= 1
    ensures n + AllFreed(NapsFrom(n), n) == MostRequests(n)
  {
    hide Pairs, Stairs, MostRequests;
    PairsAre(n);
    MostRequestsAre(n);
    if n <= 60 {
      PairsAre(1);
    } else {
      PairsAre(n - 59);
      SquareLess(n, 59);
    }
  }

  /** Some interleaving of n threads has all those requests counted in one minute. */
  lemma MinuteReaches(c: Config, n: nat) returns (s: State, s': State)
    requires c.limit >= 1 && c.maxWeight >= 1 && n >= 1
    ensures Init(s) && |s.threads| == n && Reaches(c, s, s')
    ensures s'.counted == c.limit - 1 + c.maxWeight * MostRequests(n)
  {
    hide Reaches;
    s := Start(n);
    var s1 := FirstRound(c, n);
    var s2 := Rounds(c, s1, n, n);
    ReachesThen(c, s, s1, s2);
    s' := AllLoad(c, s2, n);
    ReachesThen(c, s, s2, s');
    AllFreedAre(n);
    WeightAdds(c, n, AllFreed(NapsFrom(n), n));
  }

  /** No interleaving of n threads has more than b counted in any minute. */
  ghost predicate NeverAbove(c: Config, n: nat, b: int) {
    forall s, s' :: Init(s) && |s.threads| == n && Reaches(c, s, s') ==> s'.counted <= b
  }

  lemma NeverAboveMost(c: Config, n: nat)
    requires c.limit >= 1
    ensures NeverAbove(c, n, c.limit - 1 + c.maxWeight * MostRequests(n))
  {
    hide MostRequests;
    forall s, s' | Init(s) && |s.threads| == n && Reaches(c, s, s')
      ensures s'.counted <= c.limit - 1 + c.maxWeight * MostRequests(n)
    {
      var acts :| Legal(c, s, acts) && After(c, s, acts) == s';
      MinuteBound(c, s, acts);
    }
  }

  /** The exact worst case of a minute: a bound holds in every interleaving if and only if it leaves room for the
      weight below the limit and for this many requests more. */
  lemma WorstCaseExactly(c: Config, n: nat, b: int)
    requires c.limit >= 1 && c.maxWeight >= 1 && n >= 1
    ensures NeverAbove(c, n, b) <==> c.limit - 1 + c.maxWeight * MostRequests(n) <= b
  {
    hide MostRequests;
    NeverAboveMost(c, n);
    var s, s' := MinuteReaches(c, n);
  }

  lemma MoreRequestsWeighMore(w: nat, j: nat, k: nat)
    requires w >= 1 && j < k
    ensures w * j < w * k
  {}

  /** Each thread gets at most one more request in once the limit is all but reached: this holds in every interleaving
      exactly for at most one thread, or for requests without weight. */
  lemma OneRequestEachExactlyWhen(c: Config, n: nat)
    requires c.limit >= 1
    ensures NeverAbove(c, n, c.limit - 1 + c.maxWeight * n) <==> n <= 1 || c.maxWeight == 0
  {
    hide MostRequests, NeverAbove;
    MostRequestsAre(n);
    if n <= 1 || c.maxWeight == 0 {
      NeverAboveMost(c, n);
      assert c.maxWeight * MostRequests(n) == c.maxWeight * n;
    } else {
      WorstCaseExactly(c, n, c.limit - 1 + c.maxWeight * n);
      MoreRequestsWeighMore(c.maxWeight, n, MostRequests(n));
    }
  }
}
