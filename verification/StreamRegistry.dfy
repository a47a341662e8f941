/** The registry of WebSocket sessions: weak references to the sessions of one client, pruned and searched before
    a stream is subscribed. */
module StreamRegistry {
  import opened Ascii
  import opened Sequences
  import CandleCache

  // ---- Stream names ----------------------------------------------------------------------------

  const PREFIX := "/ws/"

  /** composeStreamName: everything up to the pair is lower-cased, the channel is left as it is. */
  function ComposeStreamName(pair: string, channel: string): string {
    if pair == "" then PREFIX + channel
    else
      var res := PREFIX + pair;
      (if pair != "!" then ToLower(res) else res) + "@" + channel
  }

  predicate Plain(s: string) {
    '@' !in s
  }

  lemma LowerConcat(s: string, t: string)
    ensures ToLower(s + t) == ToLower(s) + ToLower(t)
  {}

  lemma LowerKeepsPlain(s: string)
    ensures Plain(ToLower(s)) <==> Plain(s)
  {
    if i: nat :| i < |s| && s[i] == '@' {
      assert ToLower(s)[i] == '@';
    } else {
      forall i | 0 <= i < |s| ensures ToLower(s)[i] != '@' { assert s[i] in s; }
    }
  }

  lemma LowerConstants()
    ensures ToLower(PREFIX) == PREFIX && ToLower("!") == "!"
  {}

  /** The name in one form: the lower-cased pair, the separator if there is a pair, and the channel. */
  lemma NameShape(pair: string, channel: string)
    ensures ComposeStreamName(pair, channel)
            == "/ws/" + (if pair == "" then channel else ToLower(pair) + "@" + channel)
  {
    hide ToLower;
    LowerConcat(PREFIX, pair);
    LowerConstants();
    if pair != "" {
      ConcatAssociates(PREFIX, ToLower(pair), "@");
      ConcatAssociates(PREFIX, ToLower(pair) + "@", channel);
    }
  }

  /** A string splits at its only '@' in one way. */
  lemma SplitUnique(p: string, c: string, p': string, c': string)
    requires Plain(p) && Plain(p')
    requires p + "@" + c == p' + "@" + c'
    ensures p == p' && c == c'
  {
    var w := p + "@" + c;
    assert w[|p|] == '@' && w[|p'|] == '@';
    assert forall i :: 0 <= i < |p| ==> w[i] in p;
    assert forall i :: 0 <= i < |p'| ==> w[i] in p' by {
      assert w == p' + "@" + c';
    }
    assert |p| == |p'|;
    assert p == w[..|p|] && p' == w[..|p'|];
    assert c == w[|p| + 1..] && c' == w[|p'| + 1..];
  }

  /** Two plain pairs and plain channels get the same stream name exactly when the pairs agree up to letter case and
      the channels agree. */
  lemma NamesCollideExactlyWhen(pair: string, channel: string, pair': string, channel': string)
    requires Plain(pair) && Plain(channel) && Plain(pair') && Plain(channel')
    ensures ComposeStreamName(pair, channel) == ComposeStreamName(pair', channel')
            <==> ToLower(pair) == ToLower(pair') && channel == channel'
  {
    NameShape(pair, channel);
    NameShape(pair', channel');
    LowerKeepsPlain(pair);
    LowerKeepsPlain(pair');
    var tail := if pair == "" then channel else ToLower(pair) + "@" + channel;
    var tail' := if pair' == "" then channel' else ToLower(pair') + "@" + channel';
    assert PREFIX + tail == PREFIX + tail' <==> tail == tail' by {
      assert (PREFIX + tail)[|PREFIX|..] == tail && (PREFIX + tail')[|PREFIX|..] == tail';
    }
    if pair != "" && pair' != "" {
      if tail == tail' { SplitUnique(ToLower(pair), channel, ToLower(pair'), channel'); }
    } else if pair != "" {
      assert tail[|pair|] == '@' && tail[|pair|] in tail;
    } else if pair' != "" {
      assert tail'[|pair'|] == '@' && tail'[|pair'|] in tail';
    }
  }

  // ---- Channels --------------------------------------------------------------------------------

  function IntervalName(i: CandleCache.Interval): string {
    match i
    case I1m => "_1m"
    case I3m => "_3m"
    case I5m => "_5m"
    case I15m => "_15m"
    case I30m => "_30m"
    case I1h => "_1h"
    case I2h => "_2h"
    case I4h => "_4h"
    case I6h => "_6h"
    case I8h => "_8h"
    case I12h => "_12h"
    case I1d => "_1d"
    case I3d => "_3d"
    case I1w => "_1w"
    case I1M => "_1M"
  }

  /** What a manager subscription asks for. */
  datatype Stream = BookTicker(pair: string) | Candlestick(pair: string, interval: CandleCache.Interval)

  function Channel(stream: Stream): string {
    match stream
    case BookTicker(_) => "bookTicker"
    case Candlestick(_, i) => "kline" + IntervalName(i)
  }

  function StreamName(stream: Stream): string {
    ComposeStreamName(stream.pair, Channel(stream))
  }

  /** The channels as the exchange spells them. */
  lemma ChannelNames(pair: string)
    ensures Channel(BookTicker(pair)) == "bookTicker"
    ensures var kline := (i: CandleCache.Interval) => Channel(Candlestick(pair, i));
            && kline(CandleCache.I1m) == "kline_1m" && kline(CandleCache.I3m) == "kline_3m"
            && kline(CandleCache.I5m) == "kline_5m" && kline(CandleCache.I15m) == "kline_15m"
            && kline(CandleCache.I30m) == "kline_30m" && kline(CandleCache.I1h) == "kline_1h"
            && kline(CandleCache.I2h) == "kline_2h" && kline(CandleCache.I4h) == "kline_4h"
            && kline(CandleCache.I6h) == "kline_6h" && kline(CandleCache.I8h) == "kline_8h"
            && kline(CandleCache.I12h) == "kline_12h" && kline(CandleCache.I1d) == "kline_1d"
            && kline(CandleCache.I3d) == "kline_3d" && kline(CandleCache.I1w) == "kline_1w"
            && kline(CandleCache.I1M) == "kline_1M"
  {}

  lemma ChannelIsPlain(stream: Stream)
    ensures Plain(Channel(stream))
  {}

  lemma IntervalNamesDiffer(i: CandleCache.Interval, j: CandleCache.Interval)
    ensures IntervalName(i) == IntervalName(j) <==> i == j
  {
    if IntervalName(i) == IntervalName(j) {
      assert |IntervalName(i)| == |IntervalName(j)| && IntervalName(i)[1] == IntervalName(j)[1];
      assert IntervalName(i)[2] == IntervalName(j)[2];
    }
  }

  lemma ChannelsDiffer(s: Stream, t: Stream)
    ensures Channel(s) == Channel(t)
            <==> (s.BookTicker? && t.BookTicker?) || (s.Candlestick? && t.Candlestick? && s.interval == t.interval)
  {
    if s.Candlestick? && t.Candlestick? {
      IntervalNamesDiffer(s.interval, t.interval);
      assert Channel(s)[5..] == IntervalName(s.interval) && Channel(t)[5..] == IntervalName(t.interval);
    } else if s.Candlestick? {
      assert Channel(s)[0] == 'k';
    } else if t.Candlestick? {
      assert Channel(t)[0] == 'k';
    }
  }

  /** Two subscriptions share a session exactly when they are for the same pair, up to letter case, and the same kind
      of stream and interval. */
  lemma SameSessionExactlyWhen(s: Stream, t: Stream)
    requires Plain(s.pair) && Plain(t.pair)
    ensures StreamName(s) == StreamName(t)
            <==> ToLower(s.pair) == ToLower(t.pair)
                 && (s.BookTicker? <==> t.BookTicker?)
                 && (s.Candlestick? && t.Candlestick? ==> s.interval == t.interval)
  {
    ChannelIsPlain(s);
    ChannelIsPlain(t);
    NamesCollideExactlyWhen(s.pair, Channel(s), t.pair, Channel(t));
    ChannelsDiffer(s, t);
  }

  // ---- The registry ----------------------------------------------------------------------------

  /** Sessions are numbered in order of creation. `sessions` are the weak references, `alive` the sessions that still
      exist, `targets` the stream each was opened for. */
  datatype Registry = Registry(sessions: seq<nat>, alive: set<nat>, targets: map<nat, string>, next: nat)

  const EMPTY := Registry([], {}, map[], 0)

  /** Either a manager subscription, during which the sessions in `early` die before the pruning looks at them and
      those in `late` after, or the death of some sessions. */
  datatype Op = Subscribe(name: string, early: set<nat>, late: set<nat>) | Die(dead: set<nat>)

  function Alive(sessions: seq<nat>, alive: set<nat>): seq<nat> {
    if sessions == [] then []
    else (if sessions[0] in alive then [sessions[0]] else []) + Alive(sessions[1..], alive)
  }

  /** Session id is alive and was opened for this stream. */
  predicate Serves(r: Registry, id: nat, name: string) {
    id in r.alive && id in r.targets && r.targets[id] == name
  }

  predicate Found(r: Registry, name: string) {
    exists i :: 0 <= i < |r.sessions| && Serves(r, r.sessions[i], name)
  }

  function Open(r: Registry, name: string, early: set<nat>, late: set<nat>): Registry {
    var alive := r.alive - early;
    Registry(Alive(r.sessions, alive) + [r.next], alive - late + {r.next}, r.targets[r.next := name], r.next + 1)
  }

  function Step(r: Registry, op: Op): Registry {
    match op
    case Subscribe(name, early, late) => if Found(r, name) then r else Open(r, name, early, late)
    case Die(dead) => r.(alive := r.alive - dead)
  }

  function Run(ops: seq<Op>): Registry {
    if ops == [] then EMPTY else Step(Run(ops[..|ops| - 1]), ops[|ops| - 1])
  }

  /** Every live session is registered, and no two live sessions serve the same stream. */
  ghost predicate Consistent(r: Registry) {
    && (forall id :: id in r.sessions ==> id < r.next && id in r.targets)
    && (forall id :: id in r.alive ==> id in r.sessions)
    && (forall id, other | id in r.alive && other in r.alive && id in r.targets && other in r.targets ::
          r.targets[id] == r.targets[other] ==> id == other)
  }

  /** Pruning keeps exactly the live sessions. */
  lemma {:induction false} AliveKeeps(sessions: seq<nat>, alive: set<nat>)
    ensures forall id :: id in Alive(sessions, alive) <==> id in sessions && id in alive
  {
    if sessions != [] {
      AliveKeeps(sessions[1..], alive);
      assert sessions == [sessions[0]] + sessions[1..];
    }
  }

  /** What is kept is in the order of the references. */
  lemma {:induction false} AliveConcat(s: seq<nat>, t: seq<nat>, alive: set<nat>)
    ensures Alive(s + t, alive) == Alive(s, alive) + Alive(t, alive)
  {
    if s == [] {
      assert s + t == t;
    } else {
      var first := if s[0] in alive then [s[0]] else [];
      AliveConcat(s[1..], t, alive);
      assert (s + t)[0] == s[0] && (s + t)[1..] == s[1..] + t;
      ConcatAssociates(first, Alive(s[1..], alive), Alive(t, alive));
    }
  }

  lemma StepKeepsConsistent(r: Registry, op: Op)
    requires Consistent(r)
    ensures Consistent(Step(r, op))
  {
    if op.Subscribe? && !Found(r, op.name) {
      var r', alive := Open(r, op.name, op.early, op.late), r.alive - op.early;
      AliveKeeps(r.sessions, alive);
      assert forall id :: id in r.alive ==> !Serves(r, id, op.name) by {
        forall id | id in r.alive ensures !Serves(r, id, op.name) {
          var i :| 0 <= i < |r.sessions| && r.sessions[i] == id;
        }
      }
      assert forall id :: id in r'.sessions <==> (id in r.sessions && id in alive) || id == r.next;
    }
  }

  /** Over every run of subscriptions and session deaths, live sessions are registered and serve distinct streams. */
  lemma {:induction false} LiveTargetsStayDistinct(ops: seq<Op>)
    ensures Consistent(Run(ops))
  {
    if ops != [] {
      LiveTargetsStayDistinct(ops[..|ops| - 1]);
      StepKeepsConsistent(Run(ops[..|ops| - 1]), ops[|ops| - 1]);
    }
  }

  /** A subscription leaves exactly one live session for its stream: the one it found, or the one it opened. When it
      opens one, the references it keeps besides the new one are exactly those of sessions still alive when pruned. */
  lemma SubscribeLeavesOne(r: Registry, name: string, early: set<nat>, late: set<nat>) returns (id: nat)
    requires Consistent(r)
    ensures var r' := Step(r, Subscribe(name, early, late));
            && id in r'.sessions && Serves(r', id, name)
            && (forall other :: Serves(r', other, name) ==> other == id)
            && (id == r.next <==> !Found(r, name))
            && (Found(r, name) ==> r' == r)
            && (!Found(r, name) ==>
                  forall other :: other in r'.sessions <==>
                    (other in r.sessions && other in r.alive && other !in early) || other == r.next)
  {
    StepKeepsConsistent(r, Subscribe(name, early, late));
    var r' := Step(r, Subscribe(name, early, late));
    if Found(r, name) {
      var i :| 0 <= i < |r.sessions| && Serves(r, r.sessions[i], name);
      id := r.sessions[i];
    } else {
      id := r.next;
      assert r'.sessions[|r'.sessions| - 1] == id;
      AliveKeeps(r.sessions, r.alive - early);
    }
  }

  /** The session is not among those that die during an operation. */
  predicate Spares(op: Op, id: nat) {
    match op
    case Subscribe(_, early, late) => id !in early && id !in late
    case Die(dead) => id !in dead
  }

  /** A session lives on, for the stream it was opened for, until it dies: no subscription ends another session. */
  lemma {:induction false} SessionsLiveOn(ops: seq<Op>, more: seq<Op>, id: nat)
    requires id in Run(ops).alive && forall op :: op in more ==> Spares(op, id)
    ensures id in Run(ops).targets
    ensures var r := Run(ops + more); id in r.alive && id in r.targets && r.targets[id] == Run(ops).targets[id]
  {
    LiveTargetsStayDistinct(ops);
    if more == [] {
      assert ops + more == ops;
    } else {
      var front, op := more[..|more| - 1], more[|more| - 1];
      SessionsLiveOn(ops, front, id);
      LiveTargetsStayDistinct(ops + front);
      assert (ops + more)[..|ops + more| - 1] == ops + front && op in more;
    }
  }

  // ---- The client ------------------------------------------------------------------------------

  /** Erasing position `it` leaves what came before and what comes after. */
  lemma Erased(s: seq<nat>, it: nat)
    requires it < |s|
    ensures (s[..it] + s[it + 1..])[..it] == s[..it] && (s[..it] + s[it + 1..])[it..] == s[it + 1..]
  {}

  /** Looking at the first of the remaining references. */
  lemma NextReference(s: seq<nat>, it: nat, alive: set<nat>)
    requires it < |s|
    ensures s[it] !in alive ==> Alive(s[it..], alive) == Alive(s[it + 1..], alive)
    ensures s[it] in alive ==>
              s[..it] + Alive(s[it..], alive) == s[..it + 1] + Alive(s[it + 1..], alive)
  {
    assert s[it..][1..] == s[it + 1..];
    assert s[..it + 1] == s[..it] + [s[it]];
    assert s[it] in alive ==> Alive(s[it..], alive) == [s[it]] + Alive(s[it + 1..], alive);
  }

  class WebSocketClient {
    var sessions: seq<nat>
    var alive: set<nat>
    var targets: map<nat, string>
    var next: nat

    function State(): Registry
      reads this
    {
      Registry(sessions, alive, targets, next)
    }

    constructor ()
      ensures State() == EMPTY
    {
      sessions, alive, targets, next := [], {}, map[], 0;
    }

    /** The erasing loop: a dead reference is erased in place, otherwise the iterator moves on. */
    method RemoveDeadWebsockets()
      modifies this`sessions
      ensures sessions == Alive(old(sessions), alive)
    {
      var it := 0;
      while it < |sessions|
        invariant 0 <= it <= |sessions|
        invariant sessions[..it] + Alive(sessions[it..], alive) == Alive(old(sessions), alive)
        decreases |sessions| - it
      {
        NextReference(sessions, it, alive);
        if sessions[it] !in alive {
          Erased(sessions, it);
          sessions := sessions[..it] + sessions[it + 1..];
        } else {
          it := it + 1;
        }
      }
      assert sessions[it..] == [] && sessions[..it] == sessions;
    }

    method FindStream(streamName: string) returns (found: bool)
      ensures found <==> Found(State(), streamName)
      ensures found <==> exists id :: id in sessions && id in alive && id in targets && targets[id] == streamName
    {
      for i := 0 to |sessions|
        invariant forall j :: 0 <= j < i ==> !Serves(State(), sessions[j], streamName)
      {
        if sessions[i] in alive && sessions[i] in targets {
          if targets[sessions[i]] == streamName {
            assert Serves(State(), sessions[i], streamName);
            return true;
          }
        }
      }
      assert forall id :: id in sessions ==> !Serves(State(), id, streamName);
      return false;
    }

    /** bookTicker and candlestick open a session in the same way; `early` and `late` die meanwhile. */
    method OpenSession(streamName: string, early: set<nat>, late: set<nat>)
      modifies this
      ensures State() == Open(old(State()), streamName, early, late)
      ensures alive == old(alive) - early - late + {old(next)} && next == old(next) + 1
      ensures targets == old(targets)[old(next) := streamName]
      ensures forall id :: id in sessions <==> (id in old(sessions) && id in old(alive) - early) || id == old(next)
    {
      alive := alive - early;
      AliveKeeps(sessions, alive);
      RemoveDeadWebsockets();
      var ws := next;
      next, alive := next + 1, alive - late + {ws};
      sessions := sessions + [ws];
      targets := targets[ws := streamName];
    }

    /** The manager's subscribe functions. Their `force` flag is not consulted. */
    method Subscribe(stream: Stream, force: bool, early: set<nat>, late: set<nat>)
      modifies this
      ensures State() == Step(old(State()), Op.Subscribe(StreamName(stream), early, late))
    {
      var found := FindStream(StreamName(stream));
      if found {
        return;
      }
      OpenSession(StreamName(stream), early, late);
    }
  }
}
