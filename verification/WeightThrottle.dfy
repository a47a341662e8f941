/** The request-weight limiter. Several threads share one session; each sends a request, stores the used weight and
    the date of the reply in the session's two atomics, then loads them again to decide whether to sleep until the
    exchange's counter restarts. The loads may see what another thread stored in between. */
module WeightThrottle {
  import opened Ascii

  /** Where one thread stands in its request. `used` and `at` belong to the request the thread has in progress: the
      weight the exchange had counted with it, and the second at which it was counted. */
  datatype Phase =
    | Ready
    | Sent(weight: nat)
    | Replied(used: nat, at: nat)
    | Scanning(used: nat, at: nat, date: nat, weightStored: bool, dateStored: bool)
    | Warned(used: nat, at: nat)
    | Sleeping(until: nat)

  /** `counted` is the exchange's counter for the current clock minute; `usedWeight` and `lastDate` are the session's
      atomics. */
  datatype State = State(now: nat, counted: nat, usedWeight: nat, lastDate: nat, threads: seq<Phase>)

  datatype Config = Config(limit: nat, maxWeight: nat)

  datatype Action =
    | Tick(seconds: nat)
    | Send(t: nat, weight: nat)
    | Count(t: nat)
    | Receive(t: nat, date: nat)
    | StoreWeight(t: nat)
    | StoreDate(t: nat)
    | Check(t: nat)
    | Doze(t: nat)
    | Wake(t: nat)

  function Minute(second: nat): nat {
    second / 60
  }

  /** The reply date lies between the moment the request was counted and the moment the reply is received. */
  predicate Enabled(c: Config, s: State, a: Action) {
    if a.Tick? then true
    else
      && a.t < |s.threads|
      && var p := s.threads[a.t];
         match a
         case Send(_, w) => p.Ready? && w <= c.maxWeight
         case Count(_) => p.Sent?
         case Receive(_, date) => p.Replied? && p.at <= date <= s.now
         case StoreWeight(_) => p.Scanning? && !p.weightStored
         case StoreDate(_) => p.Scanning? && !p.dateStored
         case Check(_) => p.Scanning? && p.weightStored && p.dateStored
         case Doze(_) => p.Warned?
         case Wake(_) => p.Sleeping? && p.until <= s.now
  }

  /** How long `request` sleeps when it finds the limit reached. */
  function SleepUntil(s: State): nat {
    s.now + (60 - s.lastDate % 60)
  }

  function Put(s: State, t: nat, p: Phase): State
    requires t < |s.threads|
  {
    s.(threads := s.threads[t := p])
  }

  function Step(c: Config, s: State, a: Action): State
    requires Enabled(c, s, a)
  {
    match a
    case Tick(d) =>
      if Minute(s.now + d) == Minute(s.now) then s.(now := s.now + d)
      else s.(now := s.now + d, counted := 0)
    case Send(t, w) => Put(s, t, Sent(w))
    case Count(t) =>
      var total := s.counted + s.threads[t].weight;
      Put(s.(counted := total), t, Replied(total, s.now))
    case Receive(t, date) => Put(s, t, Scanning(s.threads[t].used, s.threads[t].at, date, false, false))
    case StoreWeight(t) => Put(s.(usedWeight := s.threads[t].used), t, s.threads[t].(weightStored := true))
    case StoreDate(t) => Put(s.(lastDate := s.threads[t].date), t, s.threads[t].(dateStored := true))
    case Check(t) =>
      var p := s.threads[t];
      if s.usedWeight >= c.limit then Put(s, t, Warned(p.used, p.at))
      else Put(s, t, Ready)
    case Doze(t) => Put(s, t, Sleeping(SleepUntil(s)))
    case Wake(t) => Put(s, t, Ready)
  }

  // ---- Runs ------------------------------------------------------------------------------------

  predicate Init(s: State) {
    && s.counted == 0 && s.lastDate <= s.now
    && forall t :: 0 <= t < |s.threads| ==> s.threads[t] == Ready
  }

  predicate Legal(c: Config, s: State, acts: seq<Action>)
    decreases |acts|
  {
    acts == [] || (Enabled(c, s, acts[0]) && Legal(c, Step(c, s, acts[0]), acts[1..]))
  }

  function After(c: Config, s: State, acts: seq<Action>): State
    requires Legal(c, s, acts)
    decreases |acts|
  {
    if acts == [] then s else After(c, Step(c, s, acts[0]), acts[1..])
  }

  // ---- When a thread stores and checks in one piece -------------------------------------------

  /** Either a step that does not touch the atomics, or everything a thread does with its reply, uninterrupted. */
  datatype Task = Plain(action: Action) | Whole(t: nat, date: nat)

  predicate TaskEnabled(c: Config, s: State, task: Task) {
    match task
    case Plain(a) => (a.Tick? || a.Send? || a.Count? || a.Wake?) && Enabled(c, s, a)
    case Whole(t, date) => Enabled(c, s, Receive(t, date))
  }

  /** The steps of a task. */
  function Expand(c: Config, s: State, task: Task): seq<Action>
    requires TaskEnabled(c, s, task)
  {
    match task
    case Plain(a) => [a]
    case Whole(t, date) =>
      [Receive(t, date), StoreWeight(t), StoreDate(t), Check(t)]
      + if s.threads[t].used >= c.limit then [Doze(t)] else []
  }

  /** What a thread does with its reply, in one piece. */
  function Outcome(c: Config, s: State, t: nat, date: nat): State
    requires Enabled(c, s, Receive(t, date))
  {
    var used := s.threads[t].used;
    Put(s.(usedWeight := used, lastDate := date), t,
        if used >= c.limit then Sleeping(s.now + (60 - date % 60)) else Ready)
  }

  lemma LegalConcat(c: Config, s: State, a: Action, acts: seq<Action>)
    requires Enabled(c, s, a) && Legal(c, Step(c, s, a), acts)
    ensures Legal(c, s, [a] + acts) && After(c, s, [a] + acts) == After(c, Step(c, s, a), acts)
  {
    assert ([a] + acts)[1..] == acts;
  }

  /** The five steps of an uninterrupted thread amount to the one-piece outcome. */
  lemma WholeIsOutcome(c: Config, s: State, t: nat, date: nat)
    requires Enabled(c, s, Receive(t, date))
    ensures var acts := Expand(c, s, Whole(t, date));
            Legal(c, s, acts) && After(c, s, acts) == Outcome(c, s, t, date)
  {
    var s1 := Step(c, s, Receive(t, date));
    var s2 := Step(c, s1, StoreWeight(t));
    var s3 := Step(c, s2, StoreDate(t));
    var s4 := Step(c, s3, Check(t));
    var tail := if s.threads[t].used >= c.limit then [Doze(t)] else [];
    if tail != [] {
      var s5 := Step(c, s4, Doze(t));
      assert After(c, s5, []) == s5;
      LegalConcat(c, s4, Doze(t), []);
      assert s5.threads == Outcome(c, s, t, date).threads;
    } else {
      assert s4.threads == Outcome(c, s, t, date).threads;
    }
    LegalConcat(c, s3, Check(t), tail);
    LegalConcat(c, s2, StoreDate(t), [Check(t)] + tail);
    LegalConcat(c, s1, StoreWeight(t), [StoreDate(t)] + ([Check(t)] + tail));
    LegalConcat(c, s, Receive(t, date), [StoreWeight(t)] + ([StoreDate(t)] + ([Check(t)] + tail)));
    assert Expand(c, s, Whole(t, date))
        == [Receive(t, date)] + ([StoreWeight(t)] + ([StoreDate(t)] + ([Check(t)] + tail)));
  }

  function DoTask(c: Config, s: State, task: Task): State
    requires TaskEnabled(c, s, task)
  {
    match task
    case Plain(a) => Step(c, s, a)
    case Whole(t, date) => Outcome(c, s, t, date)
  }

  predicate LegalTasks(c: Config, s: State, tasks: seq<Task>)
    decreases |tasks|
  {
    tasks == [] || (TaskEnabled(c, s, tasks[0]) && LegalTasks(c, DoTask(c, s, tasks[0]), tasks[1..]))
  }

  function AfterTasks(c: Config, s: State, tasks: seq<Task>): State
    requires LegalTasks(c, s, tasks)
    decreases |tasks|
  {
    if tasks == [] then s else AfterTasks(c, DoTask(c, s, tasks[0]), tasks[1..])
  }

  // ---- The session -----------------------------------------------------------------------------

  /** A header of the reply; `number` is its parsed value: a weight, or the seconds of a date. */
  datatype Header = Header(name: string, number: nat)

  const LIMITER_NAME := "X-MBX-USED-WEIGHT-1M"

  /** The weight header is recognised in any letter case, the date header only as spelled. */
  predicate IsWeight(h: Header) {
    ToLower(h.name) == ToLower(LIMITER_NAME)
  }

  predicate IsDate(h: Header) {
    !IsWeight(h) && h.name == "Date"
  }

  /** The last recognised header counts; without one the earlier value stays. */
  function LastWeight(headers: seq<Header>, before: nat): nat {
    if headers == [] then before
    else
      var h := headers[|headers| - 1];
      if IsWeight(h) then h.number else LastWeight(headers[..|headers| - 1], before)
  }

  function LastDate(headers: seq<Header>, before: nat): nat {
    if headers == [] then before
    else
      var h := headers[|headers| - 1];
      if IsDate(h) then h.number else LastDate(headers[..|headers| - 1], before)
  }

  /** The two headers by their spelling. */
  lemma HeaderNames(h: Header)
    ensures IsWeight(h) <==> ToLower(h.name) == "x-mbx-used-weight-1m"
    ensures IsDate(h) <==> h.name == "Date"
  {
    assert ToLower(LIMITER_NAME) == "x-mbx-used-weight-1m";
    assert h.name == "Date" ==> |ToLower(h.name)| == 4;
  }

  lemma {:induction false} LastWeightAt(headers: seq<Header>, w: nat, before: nat)
    requires w < |headers| && IsWeight(headers[w]) && forall i :: w < i < |headers| ==> !IsWeight(headers[i])
    ensures LastWeight(headers, before) == headers[w].number
  {
    if w < |headers| - 1 { LastWeightAt(headers[..|headers| - 1], w, before); }
  }

  lemma {:induction false} LastDateAt(headers: seq<Header>, d: nat, before: nat)
    requires d < |headers| && IsDate(headers[d]) && forall i :: d < i < |headers| ==> !IsDate(headers[i])
    ensures LastDate(headers, before) == headers[d].number
  {
    if d < |headers| - 1 { LastDateAt(headers[..|headers| - 1], d, before); }
  }

  lemma {:induction false} NoneRecognised(headers: seq<Header>, before: nat)
    ensures (forall i :: 0 <= i < |headers| ==> !IsWeight(headers[i])) ==> LastWeight(headers, before) == before
    ensures (forall i :: 0 <= i < |headers| ==> !IsDate(headers[i])) ==> LastDate(headers, before) == before
  {
    if headers != [] { NoneRecognised(headers[..|headers| - 1], before); }
  }

  lemma LastWeightNamed(headers: seq<Header>, w: nat, before: nat)
    requires w < |headers| && ToLower(headers[w].name) == "x-mbx-used-weight-1m"
    requires forall i :: w < i < |headers| ==> ToLower(headers[i].name) != "x-mbx-used-weight-1m"
    ensures LastWeight(headers, before) == headers[w].number
  {
    hide IsWeight, IsDate, ToLower;
    HeaderNames(headers[w]);
    forall i | w < i < |headers| ensures !IsWeight(headers[i]) { HeaderNames(headers[i]); }
    LastWeightAt(headers, w, before);
  }

  lemma LastDateNamed(headers: seq<Header>, d: nat, before: nat)
    requires d < |headers| && headers[d].name == "Date" && forall i :: d < i < |headers| ==> headers[i].name != "Date"
    ensures LastDate(headers, before) == headers[d].number
  {
    hide IsWeight, IsDate, ToLower;
    HeaderNames(headers[d]);
    forall i | d < i < |headers| ensures !IsDate(headers[i]) { HeaderNames(headers[i]); }
    LastDateAt(headers, d, before);
  }

  lemma NoneNamed(headers: seq<Header>, before: nat)
    ensures (forall i :: 0 <= i < |headers| ==> ToLower(headers[i].name) != "x-mbx-used-weight-1m") ==>
              LastWeight(headers, before) == before
    ensures (forall i :: 0 <= i < |headers| ==> headers[i].name != "Date") ==> LastDate(headers, before) == before
  {
    hide IsWeight, IsDate, ToLower, LastWeight, LastDate;
    forall i | 0 <= i < |headers|
      ensures IsWeight(headers[i]) <==> ToLower(headers[i].name) == "x-mbx-used-weight-1m"
      ensures IsDate(headers[i]) <==> headers[i].name == "Date"
    {
      HeaderNames(headers[i]);
    }
    NoneRecognised(headers, before);
  }

  /** The last weight, whatever the letter case of its name, and the last date, among whatever other headers and in
      whatever order, are what is left in the session; without one the earlier value stays. */
  lemma HeadersOfReply(headers: seq<Header>, before: nat)
    ensures forall w :: 0 <= w < |headers| && ToLower(headers[w].name) == "x-mbx-used-weight-1m"
                        && (forall i :: w < i < |headers| ==> ToLower(headers[i].name) != "x-mbx-used-weight-1m") ==>
                          LastWeight(headers, before) == headers[w].number
    ensures (forall i :: 0 <= i < |headers| ==> ToLower(headers[i].name) != "x-mbx-used-weight-1m") ==>
              LastWeight(headers, before) == before
    ensures forall d :: 0 <= d < |headers| && headers[d].name == "Date"
                        && (forall i :: d < i < |headers| ==> headers[i].name != "Date") ==>
                          LastDate(headers, before) == headers[d].number
    ensures (forall i :: 0 <= i < |headers| ==> headers[i].name != "Date") ==> LastDate(headers, before) == before
  {
    hide IsWeight, IsDate, LastWeight, LastDate, ToLower;
    NoneNamed(headers, before);
    forall w: nat | w < |headers| && ToLower(headers[w].name) == "x-mbx-used-weight-1m"
                    && (forall i :: w < i < |headers| ==> ToLower(headers[i].name) != "x-mbx-used-weight-1m")
      ensures LastWeight(headers, before) == headers[w].number
    {
      LastWeightNamed(headers, w, before);
    }
    forall d: nat | d < |headers| && headers[d].name == "Date"
                    && (forall i :: d < i < |headers| ==> headers[i].name != "Date")
      ensures LastDate(headers, before) == headers[d].number
    {
      LastDateNamed(headers, d, before);
    }
  }

  class HttpSession {
    var usedWeight: nat
    var lastResponseTime: nat
    var weightLimit: nat

    constructor (limit: nat)
      ensures usedWeight == 0 && lastResponseTime == 0 && weightLimit == limit
    {
      usedWeight, lastResponseTime, weightLimit := 0, 0, limit;
    }

    /** What `request` does with the headers of a reply, when no other thread interferes: returns how many seconds
        the thread sleeps. */
    method HandleReply(headers: seq<Header>) returns (sleep: nat)
      modifies this
      ensures usedWeight == LastWeight(headers, old(usedWeight))
      ensures lastResponseTime == LastDate(headers, old(lastResponseTime))
      ensures weightLimit == old(weightLimit)
      ensures sleep == if usedWeight >= weightLimit then 60 - lastResponseTime % 60 else 0
    {
      for i := 0 to |headers|
        invariant usedWeight == LastWeight(headers[..i], old(usedWeight))
        invariant lastResponseTime == LastDate(headers[..i], old(lastResponseTime))
        invariant weightLimit == old(weightLimit)
      {
        var h := headers[i];
        assert headers[..i + 1][..i] == headers[..i];
        if ToLower(h.name) == ToLower(LIMITER_NAME) {
          usedWeight := h.number;
        } else if h.name == "Date" {
          lastResponseTime := h.number;
        }
      }
      assert headers[..|headers|] == headers;
      sleep := 0;
      if usedWeight >= weightLimit {
        sleep := 60 - lastResponseTime % 60;
      }
    }
  }

  lemma OutcomeOf(c: Config, s: State, t: nat, date: nat, used: nat, last: nat)
    requires Enabled(c, s, Receive(t, date)) && used == s.threads[t].used && last == date
    ensures Outcome(c, s, t, date)
            == Put(s.(usedWeight := used, lastDate := last), t,
                   if used >= c.limit then Sleeping(s.now + (60 - last % 60)) else Ready)
  {}

  /** Over headers whose last weight and last date are those of the reply, the session's loop and decision do what the
      step system calls the outcome of the reply. */
  lemma ReplyIsOutcome(c: Config, s: State, t: nat, date: nat, headers: seq<Header>, w: nat, d: nat)
    requires Enabled(c, s, Receive(t, date))
    requires w < |headers| && ToLower(headers[w].name) == "x-mbx-used-weight-1m"
    requires forall i :: w < i < |headers| ==> ToLower(headers[i].name) != "x-mbx-used-weight-1m"
    requires d < |headers| && headers[d].name == "Date" && forall i :: d < i < |headers| ==> headers[i].name != "Date"
    requires headers[w].number == s.threads[t].used && headers[d].number == date
    ensures var used, last := LastWeight(headers, s.usedWeight), LastDate(headers, s.lastDate);
            Outcome(c, s, t, date)
            == Put(s.(usedWeight := used, lastDate := last), t,
                   if used >= c.limit then Sleeping(s.now + (60 - last % 60)) else Ready)
  {
    hide LastWeight, LastDate, ToLower;
    LastWeightNamed(headers, w, s.usedWeight);
    LastDateNamed(headers, d, s.lastDate);
    OutcomeOf(c, s, t, date, headers[w].number, headers[d].number);
    hide Outcome, Put;
  }
}
