/** One WebSocket session as the chain of its asynchronous operations: what is pending, what each completion starts
    next, and which messages reach the callback. */
module SessionChain {
  import opened Sequences

  /** How many of each asynchronous operation are pending. All but the close keep the session alive. */
  datatype Pending = Pending(resolve: nat, connect: nat, ssl: nat, handshake: nat, read: nat, pingWait: nat, close: nat)

  /** What the JSON parser makes of a text, and how the message callback returns. */
  datatype Parsed = Malformed | NotAnObject | ApiError | Message
  datatype Callback = Returns | ThrowsJson | ThrowsOther
  datatype Config = Config(parse: string -> Parsed, callback: string -> Callback)

  /** A completion: of a step of the establishment, of a read with the frame it appended to the buffer or with an
      error, of the ping timer's wait, of the close; or a call of close() by the owner. */
  datatype Event =
    | Resolved(ok: bool)
    | Connected(ok: bool, nameSet: bool, port: string)
    | SslDone(ok: bool)
    | WsDone(ok: bool)
    | ReadDone(ok: bool, frame: string)
    | PingFired(ok: bool)
    | Closed(ok: bool)
    | CloseCalled

  datatype Session = Session(pending: Pending, buffer: string, host: string, delivered: seq<string>)

  predicate Enabled(s: Session, e: Event) {
    match e
    case Resolved(_) => s.pending.resolve > 0
    case Connected(_, _, _) => s.pending.connect > 0
    case SslDone(_) => s.pending.ssl > 0
    case WsDone(_) => s.pending.handshake > 0
    case ReadDone(_, _) => s.pending.read > 0
    case PingFired(_) => s.pending.pingWait > 0
    case Closed(_) => s.pending.close > 0
    case CloseCalled => true
  }

  /** The text is a message, so it is passed to the callback. */
  predicate Passed(c: Config, text: string) {
    c.parse(text) == Message
  }

  /** A further read is started, unless the parser or the callback throws. */
  predicate ReadsOn(c: Config, text: string) {
    match c.parse(text)
    case Malformed => false
    case NotAnObject => true
    case ApiError => true
    case Message => c.callback(text) == Returns
  }

  /** A JSON exception closes the socket; any other exception leaves the handler. */
  predicate Closes(c: Config, text: string) {
    c.parse(text) == Malformed || (c.parse(text) == Message && c.callback(text) == ThrowsJson)
  }

  function One(b: bool): nat {
    if b then 1 else 0
  }

  /** The read handler: everything in the buffer is taken as one text. */
  function OnText(c: Config, s: Session, text: string): Session
    requires s.pending.read > 0
  {
    var p := s.pending;
    s.(pending := p.(read := p.read - 1 + One(ReadsOn(c, text)), close := p.close + One(Closes(c, text))),
       buffer := "",
       delivered := s.delivered + if Passed(c, text) then [text] else [])
  }

  function Step(c: Config, s: Session, e: Event): Session
    requires Enabled(s, e)
  {
    var p := s.pending;
    match e
    case Resolved(ok) => s.(pending := p.(resolve := p.resolve - 1, connect := p.connect + One(ok)))
    case Connected(ok, nameSet, port) =>
      s.(pending := p.(connect := p.connect - 1, ssl := p.ssl + One(ok && nameSet)),
         host := if ok && nameSet then s.host + ":" + port else s.host)
    case SslDone(ok) => s.(pending := p.(ssl := p.ssl - 1, handshake := p.handshake + One(ok)))
    case WsDone(ok) =>
      s.(pending := p.(handshake := p.handshake - 1, read := p.read + One(ok), pingWait := p.pingWait + One(ok)))
    case ReadDone(ok, frame) =>
      if ok then OnText(c, s, s.buffer + frame) else s.(pending := p.(read := p.read - 1))
    case PingFired(ok) => s.(pending := p.(pingWait := p.pingWait - 1 + One(ok)))
    case Closed(_) => s.(pending := p.(close := p.close - 1))
    case CloseCalled => s.(pending := p.(close := p.close + 1))
  }

  /** The session right after run(). */
  predicate Begun(s: Session) {
    s.pending == Pending(1, 0, 0, 0, 0, 0, 0) && s.buffer == "" && s.delivered == []
  }

  predicate Legal(c: Config, s: Session, events: seq<Event>)
    decreases |events|
  {
    events == [] || (Enabled(s, events[0]) && Legal(c, Step(c, s, events[0]), events[1..]))
  }

  function After(c: Config, s: Session, events: seq<Event>): Session
    requires Legal(c, s, events)
    decreases |events|
  {
    if events == [] then s else After(c, Step(c, s, events[0]), events[1..])
  }

  // ---- What can be pending ---------------------------------------------------------------------

  function Establishing(s: Session): nat {
    s.pending.resolve + s.pending.connect + s.pending.ssl + s.pending.handshake
  }

  /** At most one step of the establishment, or else at most one read and one ping wait; never both kinds.
      The buffer is empty whenever a read is armed. */
  predicate WellChained(s: Session) {
    && Establishing(s) <= 1 && s.pending.read <= 1 && s.pending.pingWait <= 1
    && (Establishing(s) == 1 ==> s.pending.read == 0 && s.pending.pingWait == 0)
    && (Establishing(s) == 1 || s.pending.read == 1 ==> s.buffer == "")
  }

  lemma StepKeepsChain(c: Config, s: Session, e: Event)
    requires WellChained(s) && Enabled(s, e)
    ensures WellChained(Step(c, s, e))
  {}

  lemma {:induction false} ChainOverRuns(c: Config, s: Session, events: seq<Event>)
    requires WellChained(s) && Legal(c, s, events)
    ensures WellChained(After(c, s, events))
    decreases |events|
  {
    if events != [] {
      StepKeepsChain(c, s, events[0]);
      ChainOverRuns(c, Step(c, s, events[0]), events[1..]);
    }
  }

  // ---- The order of the establishment ----------------------------------------------------------

  predicate Establishes(e: Event) {
    e.Resolved? || e.Connected? || e.SslDone? || e.WsDone?
  }

  predicate Succeeds(e: Event)
    requires Establishes(e)
  {
    match e
    case Resolved(ok) => ok
    case Connected(ok, nameSet, _) => ok && nameSet
    case SslDone(ok) => ok
    case WsDone(ok) => ok
  }

  /** Position of an establishment step in the chain. */
  function Rank(e: Event): nat
    requires Establishes(e)
  {
    if e.Resolved? then 0 else if e.Connected? then 1 else if e.SslDone? then 2 else 3
  }

  /** Position of the establishment step that is pending; 4 if none is. */
  function Stage(s: Session): nat {
    if s.pending.resolve > 0 then 0 else if s.pending.connect > 0 then 1 else if s.pending.ssl > 0 then 2
    else if s.pending.handshake > 0 then 3 else 4
  }

  /** The events, from a given stage on, establish the connection step by step: each step completes once, in order,
      and only after the one before it succeeded. */
  predicate InOrder(events: seq<Event>, stage: nat)
    decreases |events|
  {
    if events == [] then true
    else if !Establishes(events[0]) then InOrder(events[1..], stage)
    else Rank(events[0]) == stage && InOrder(events[1..], if Succeeds(events[0]) then stage + 1 else 4)
  }

  /** All steps from the stage on are among the events, and succeeded. */
  predicate Completed(events: seq<Event>, stage: nat)
    decreases |events|
  {
    if events == [] then stage == 4
    else if !Establishes(events[0]) then Completed(events[1..], stage)
    else Succeeds(events[0]) && Completed(events[1..], stage + 1)
  }

  lemma {:induction false} NothingLeftToEstablish(c: Config, s: Session, events: seq<Event>)
    requires WellChained(s) && Stage(s) == 4 && Legal(c, s, events)
    ensures forall i :: 0 <= i < |events| ==> !Establishes(events[i])
    ensures Completed(events, 4)
    ensures s.pending.read == 0 ==>
              After(c, s, events).pending.read == 0 && After(c, s, events).delivered == s.delivered
    decreases |events|
  {
    if events != [] {
      StepKeepsChain(c, s, events[0]);
      NothingLeftToEstablish(c, Step(c, s, events[0]), events[1..]);
    }
  }

  lemma {:induction false} EstablishedFrom(c: Config, s: Session, events: seq<Event>)
    requires WellChained(s) && Legal(c, s, events)
    ensures InOrder(events, Stage(s))
    ensures After(c, s, events).pending.read > s.pending.read || After(c, s, events).delivered != s.delivered ==>
              Stage(s) == 4 || Completed(events, Stage(s))
    decreases |events|
  {
    if events != [] {
      var s' := Step(c, s, events[0]);
      StepKeepsChain(c, s, events[0]);
      EstablishedFrom(c, s', events[1..]);
      if Stage(s) < 4 && Stage(s') == 4 {
        NothingLeftToEstablish(c, s', events[1..]);
      }
    }
  }

  /** In every run the establishment steps complete in order, each after the success of the one before it; a read is
      armed and a message delivered only if all four have succeeded. */
  lemma EstablishedBeforeReading(c: Config, s: Session, events: seq<Event>)
    requires Begun(s) && Legal(c, s, events)
    ensures InOrder(events, 0)
    ensures After(c, s, events).pending.read > 0 || After(c, s, events).delivered != [] ==> Completed(events, 0)
  {
    EstablishedFrom(c, s, events);
  }

  // ---- What is pending -------------------------------------------------------------------------

  // Whether the last event that concerns an operation started it; `start` if there is none.

  predicate ConnectStarted(events: seq<Event>, start: bool)
    decreases |events|
  {
    if events == [] then start
    else
      ConnectStarted(events[1..],
        match events[0]
        case Resolved(ok) => ok
        case Connected(_, _, _) => false
        case _ => start)
  }

  predicate SslStarted(events: seq<Event>, start: bool)
    decreases |events|
  {
    if events == [] then start
    else
      SslStarted(events[1..],
        match events[0]
        case Connected(ok, nameSet, _) => ok && nameSet
        case SslDone(_) => false
        case _ => start)
  }

  predicate HandshakeStarted(events: seq<Event>, start: bool)
    decreases |events|
  {
    if events == [] then start
    else
      HandshakeStarted(events[1..],
        match events[0]
        case SslDone(ok) => ok
        case WsDone(_) => false
        case _ => start)
  }

  predicate PingStarted(events: seq<Event>, start: bool)
    decreases |events|
  {
    if events == [] then start
    else
      PingStarted(events[1..],
        match events[0]
        case WsDone(ok) => ok
        case PingFired(ok) => ok
        case _ => start)
  }

  predicate ReadStarted(c: Config, events: seq<Event>, start: bool)
    decreases |events|
  {
    if events == [] then start
    else
      ReadStarted(c, events[1..],
        match events[0]
        case WsDone(ok) => ok
        case ReadDone(ok, frame) => ok && ReadsOn(c, frame)
        case _ => start)
  }

  /** What one event changes. */
  lemma StepStarts(c: Config, s: Session, e: Event)
    requires WellChained(s) && Enabled(s, e)
    ensures var p, p' := s.pending, Step(c, s, e).pending;
            && (p'.resolve == 1 <==> p.resolve == 1 && !e.Resolved?)
            && (p'.connect == 1 <==> if e.Resolved? then e.ok else p.connect == 1 && !e.Connected?)
            && (p'.ssl == 1 <==> if e.Connected? then e.ok && e.nameSet else p.ssl == 1 && !e.SslDone?)
            && (p'.handshake == 1 <==> if e.SslDone? then e.ok else p.handshake == 1 && !e.WsDone?)
            && (p'.pingWait == 1 <==> if e.WsDone? || e.PingFired? then e.ok else p.pingWait == 1)
            && (p'.read == 1 <==> if e.WsDone? then e.ok else if e.ReadDone? then e.ok && ReadsOn(c, e.frame)
                                  else p.read == 1)
  {
    assert e.ReadDone? && e.ok ==> s.buffer + e.frame == e.frame;
  }

  /** Over every run: each operation is pending exactly if the last event that concerns it started it. Resolving ends
      once; a connect is started by a resolved name, a TLS handshake by a connection with the host name set, a
      WebSocket handshake by a TLS handshake, and by that the first read and the first ping wait; a read goes on after
      every text but malformed ones and those whose callback throws, and a ping wait after every wait. */
  lemma {:induction false} PendingExactly(c: Config, s: Session, events: seq<Event>)
    requires WellChained(s) && Legal(c, s, events)
    ensures var p, p' := s.pending, After(c, s, events).pending;
            && (p'.resolve == 1 <==> p.resolve == 1 && forall i :: 0 <= i < |events| ==> !events[i].Resolved?)
            && (p'.connect == 1 <==> ConnectStarted(events, p.connect == 1))
            && (p'.ssl == 1 <==> SslStarted(events, p.ssl == 1))
            && (p'.handshake == 1 <==> HandshakeStarted(events, p.handshake == 1))
            && (p'.read == 1 <==> ReadStarted(c, events, p.read == 1))
            && (p'.pingWait == 1 <==> PingStarted(events, p.pingWait == 1))
    decreases |events|
  {
    if events != [] {
      hide Step, WellChained;
      var s' := Step(c, s, events[0]);
      StepKeepsChain(c, s, events[0]);
      StepStarts(c, s, events[0]);
      PendingExactly(c, s', events[1..]);
      assert forall i :: 0 < i < |events| ==> events[i] == events[1..][i - 1];
      assert forall i :: 0 <= i < |events| - 1 ==> events[1..][i] == events[i + 1];
    }
  }

  /** The closes begun, by a malformed frame, a callback that throws a JSON exception or a call, less those that have
      completed. */
  function CloseBalance(c: Config, events: seq<Event>): int
    decreases |events|
  {
    if events == [] then 0
    else
      (match events[0]
       case ReadDone(ok, frame) =>
         if ok && (c.parse(frame) == Malformed || (c.parse(frame) == Message && c.callback(frame) == ThrowsJson))
         then 1 else 0
       case CloseCalled => 1
       case Closed(_) => -1
       case _ => 0)
      + CloseBalance(c, events[1..])
  }

  lemma {:induction false} ClosePendingExactly(c: Config, s: Session, events: seq<Event>)
    requires WellChained(s) && Legal(c, s, events)
    ensures After(c, s, events).pending.close == s.pending.close + CloseBalance(c, events)
    decreases |events|
  {
    if events != [] {
      var e := events[0];
      StepKeepsChain(c, s, e);
      assert e.ReadDone? && e.ok ==> s.buffer + e.frame == e.frame;
      ClosePendingExactly(c, Step(c, s, e), events[1..]);
    }
  }

  // ---- The host of the handshake ---------------------------------------------------------------

  lemma {:induction false} HostStays(c: Config, s: Session, events: seq<Event>)
    requires s.pending.resolve == 0 && s.pending.connect == 0 && Legal(c, s, events)
    ensures After(c, s, events).host == s.host && forall i :: 0 <= i < |events| ==> !events[i].Connected?
    decreases |events|
  {
    if events != [] {
      HostStays(c, Step(c, s, events[0]), events[1..]);
    }
  }

  /** The connect that succeeds appends ':' and its port to the host; without one the host stays as it was given. */
  lemma {:induction false} HostGetsPort(c: Config, s: Session, events: seq<Event>)
    requires WellChained(s) && Legal(c, s, events)
    ensures forall i :: 0 <= i < |events| && events[i].Connected? && events[i].ok && events[i].nameSet ==>
              After(c, s, events).host == s.host + ":" + events[i].port
    ensures (forall i :: 0 <= i < |events| && events[i].Connected? ==> !events[i].ok || !events[i].nameSet) ==>
              After(c, s, events).host == s.host
    decreases |events|
  {
    if events != [] {
      var e, s' := events[0], Step(c, s, events[0]);
      StepKeepsChain(c, s, e);
      assert forall i :: 0 < i < |events| ==> events[i] == events[1..][i - 1];
      if e.Connected? {
        HostStays(c, s', events[1..]);
      } else {
        HostGetsPort(c, s', events[1..]);
      }
    }
  }

  // ---- What is delivered -----------------------------------------------------------------------

  /** The frames received without error, in order. */
  function Frames(events: seq<Event>): seq<string> {
    if events == [] then []
    else (if events[0].ReadDone? && events[0].ok then [events[0].frame] else []) + Frames(events[1..])
  }

  /** The messages among the frames, up to the first frame that stops the chain. */
  function Expected(c: Config, frames: seq<string>): seq<string> {
    if frames == [] then []
    else (if Passed(c, frames[0]) then [frames[0]] else [])
         + if ReadsOn(c, frames[0]) then Expected(c, frames[1..]) else []
  }

  /** No read is pending and none can follow. */
  predicate Silent(s: Session) {
    s.pending.read == 0 && Establishing(s) == 0
  }

  lemma {:induction false} SilentStaysSilent(c: Config, s: Session, events: seq<Event>)
    requires Silent(s) && Legal(c, s, events)
    ensures Silent(After(c, s, events)) && After(c, s, events).delivered == s.delivered && Frames(events) == []
    decreases |events|
  {
    if events != [] {
      SilentStaysSilent(c, Step(c, s, events[0]), events[1..]);
    }
  }

  /** What one event contributes to the delivery, and to what is expected of the frames. */
  lemma EventDelivers(c: Config, s: Session, events: seq<Event>)
    requires WellChained(s) && !Silent(s) && Legal(c, s, events) && events != []
    ensures var s' := Step(c, s, events[0]);
            && WellChained(s')
            && (Silent(s') && Frames(events[1..]) == [] ==> s'.delivered == s.delivered + Expected(c, Frames(events)))
            && (!Silent(s') ==>
                  s'.delivered + Expected(c, Frames(events[1..])) == s.delivered + Expected(c, Frames(events)))
  {
    var e := events[0];
    StepKeepsChain(c, s, e);
    if e.ReadDone? && e.ok {
      assert s.buffer + e.frame == e.frame;
      var frames := Frames(events);
      assert frames[0] == e.frame && frames[1..] == Frames(events[1..]);
      ConcatAssociates(s.delivered, if Passed(c, e.frame) then [e.frame] else [], Expected(c, Frames(events[1..])));
    } else {
      assert Frames(events) == Frames(events[1..]);
    }
  }

  lemma {:induction false} DeliveredFrom(c: Config, s: Session, events: seq<Event>)
    requires WellChained(s) && !Silent(s) && Legal(c, s, events)
    ensures After(c, s, events).delivered == s.delivered + Expected(c, Frames(events))
    decreases |events|
  {
    if events != [] {
      hide Expected, Step, Frames, WellChained, Silent;
      EventDelivers(c, s, events);
      var s' := Step(c, s, events[0]);
      if Silent(s') {
        SilentStaysSilent(c, s', events[1..]);
      } else {
        DeliveredFrom(c, s', events[1..]);
      }
    }
  }

  /** In every run from the start, the callback gets, in order, exactly the received messages up to the first frame
      that stops the chain; what can be pending stays well chained. */
  lemma DeliveredExactly(c: Config, s: Session, events: seq<Event>)
    requires Begun(s) && Legal(c, s, events)
    ensures After(c, s, events).delivered == Expected(c, Frames(events))
    ensures WellChained(After(c, s, events))
  {
    DeliveredFrom(c, s, events);
    ChainOverRuns(c, s, events);
  }

  function MessagesIn(c: Config, frames: seq<string>): seq<string> {
    if frames == [] then []
    else (if c.parse(frames[0]) == Message then [frames[0]] else []) + MessagesIn(c, frames[1..])
  }

  /** What is delivered for the frames: the messages before the first frame that is malformed or makes the callback
      throw, and that frame itself if it is a message. */
  lemma {:induction false} ExpectedExactly(c: Config, frames: seq<string>, stop: nat)
    requires stop <= |frames|
    requires forall i :: 0 <= i < stop ==>
               c.parse(frames[i]) != Malformed && (c.parse(frames[i]) == Message ==> c.callback(frames[i]) == Returns)
    requires stop < |frames| ==>
               || c.parse(frames[stop]) == Malformed
               || (c.parse(frames[stop]) == Message && c.callback(frames[stop]) != Returns)
    ensures Expected(c, frames)
            == MessagesIn(c, frames[..stop])
               + if stop < |frames| && c.parse(frames[stop]) == Message then [frames[stop]] else []
  {
    if stop == 0 {
      assert frames[..0] == [] && MessagesIn(c, []) == [];
    } else {
      var tail := frames[1..];
      ExpectedExactly(c, tail, stop - 1);
      assert frames[..stop][0] == frames[0] && frames[..stop][1..] == tail[..stop - 1];
      assert stop < |frames| ==> frames[stop] == tail[stop - 1];
      ConcatAssociates(if Passed(c, frames[0]) then [frames[0]] else [], MessagesIn(c, tail[..stop - 1]),
                       if stop < |frames| && c.parse(frames[stop]) == Message then [frames[stop]] else []);
    }
  }

  /** With a callback that never throws, these are the messages before the first malformed frame. */
  lemma {:induction false} ExpectedWithoutThrows(c: Config, frames: seq<string>, stop: nat)
    requires forall text :: c.callback(text) == Returns
    requires stop <= |frames| && forall i :: 0 <= i < stop ==> c.parse(frames[i]) != Malformed
    requires stop < |frames| ==> c.parse(frames[stop]) == Malformed
    ensures Expected(c, frames) == MessagesIn(c, frames[..stop])
  {
    if stop > 0 {
      ExpectedWithoutThrows(c, frames[1..], stop - 1);
      assert frames[..stop][1..] == frames[1..][..stop - 1];
    }
  }

  // ---- When the session dies -------------------------------------------------------------------

  /** No pending operation keeps the session alive. */
  predicate Dead(s: Session) {
    Silent(s) && s.pending.pingWait == 0
  }

  lemma {:induction false} DeadStaysDead(c: Config, s: Session, events: seq<Event>)
    requires Dead(s) && Legal(c, s, events)
    ensures Dead(After(c, s, events)) && After(c, s, events).delivered == s.delivered
    decreases |events|
  {
    if events != [] {
      DeadStaysDead(c, Step(c, s, events[0]), events[1..]);
    }
  }

  /** A step of the establishment that fails leaves nothing that keeps the session alive. */
  lemma FailureEndsSession(c: Config, s: Session, e: Event)
    requires WellChained(s) && Enabled(s, e) && Establishes(e) && !Succeeds(e)
    ensures Dead(Step(c, s, e))
  {}

  /** A run in which some step of the establishment fails leaves the session dead, with nothing delivered on the way. */
  lemma {:induction false} FailureIsFinal(c: Config, s: Session, events: seq<Event>, i: nat)
    requires WellChained(s) && Legal(c, s, events)
    requires i < |events| && Establishes(events[i]) && !Succeeds(events[i])
    ensures Dead(After(c, s, events)) && After(c, s, events).delivered == s.delivered
    decreases i
  {
    var s' := Step(c, s, events[0]);
    StepKeepsChain(c, s, events[0]);
    if i == 0 {
      FailureEndsSession(c, s, events[0]);
      DeadStaysDead(c, s', events[1..]);
    } else {
      if Stage(s) == 4 {
        NothingLeftToEstablish(c, s, events);
      }
      FailureIsFinal(c, s', events[1..], i - 1);
    }
  }

  // ---- The handlers ----------------------------------------------------------------------------

  class WebSocketSession {
    const config: Config
    var pending: Pending
    var buffer: string
    var host: string
    var delivered: seq<string>

    function State(): Session
      reads this
    {
      Session(pending, buffer, host, delivered)
    }

    /** A session that has been told to run. */
    constructor (config: Config, host: string)
      ensures Begun(State()) && this.host == host && this.config == config
    {
      this.config, this.host := config, host;
      pending, buffer, delivered := Pending(1, 0, 0, 0, 0, 0, 0), "", [];
    }

    method OnResolve(ok: bool)
      requires Enabled(State(), Resolved(ok))
      modifies this
      ensures State() == Step(config, old(State()), Resolved(ok))
    {
      pending := pending.(resolve := pending.resolve - 1);
      if !ok { return; }
      pending := pending.(connect := pending.connect + 1);
    }

    method OnConnect(ok: bool, nameSet: bool, port: string)
      requires Enabled(State(), Connected(ok, nameSet, port))
      modifies this
      ensures State() == Step(config, old(State()), Connected(ok, nameSet, port))
    {
      pending := pending.(connect := pending.connect - 1);
      if !ok { return; }
      if !nameSet { return; }
      host := host + ":" + port;
      pending := pending.(ssl := pending.ssl + 1);
    }

    method OnSSLHandshake(ok: bool)
      requires Enabled(State(), SslDone(ok))
      modifies this
      ensures State() == Step(config, old(State()), SslDone(ok))
    {
      pending := pending.(ssl := pending.ssl - 1);
      if !ok { return; }
      pending := pending.(handshake := pending.handshake + 1);
    }

    method OnHandshake(ok: bool)
      requires Enabled(State(), WsDone(ok))
      modifies this
      ensures State() == Step(config, old(State()), WsDone(ok))
    {
      pending := pending.(handshake := pending.handshake - 1);
      if !ok { return; }
      pending := pending.(read := pending.read + 1);
      pending := pending.(pingWait := pending.pingWait + 1);
    }

    method CloseWs()
      modifies this`pending
      ensures pending == old(pending).(close := old(pending).close + 1)
      ensures State() == Step(config, old(State()), CloseCalled)
    {
      pending := pending.(close := pending.close + 1);
    }

    /** The read has appended the frame to the buffer before the handler runs. */
    method OnRead(ok: bool, frame: string)
      requires Enabled(State(), ReadDone(ok, frame))
      modifies this
      ensures State() == Step(config, old(State()), ReadDone(ok, frame))
      ensures ok ==> (var text := old(buffer) + frame;
                      && buffer == ""
                      && delivered == old(delivered) + (if config.parse(text) == Message then [text] else [])
                      && pending.read == old(pending).read - 1 + (if ReadsOn(config, text) then 1 else 0))
      ensures !ok ==> buffer == old(buffer) && delivered == old(delivered) && pending.read == old(pending).read - 1
    {
      pending := pending.(read := pending.read - 1);
      if !ok { return; }
      buffer := buffer + frame;
      var text := buffer;
      buffer := "";
      match config.parse(text) {
        case Malformed =>
          CloseWs();
        case NotAnObject =>
          pending := pending.(read := pending.read + 1);
        case ApiError =>
          pending := pending.(read := pending.read + 1);
        case Message =>
          delivered := delivered + [text];
          match config.callback(text) {
            case Returns => pending := pending.(read := pending.read + 1);
            case ThrowsJson => CloseWs();
            case ThrowsOther =>
          }
      }
    }

    method OnClose(ok: bool)
      requires Enabled(State(), Closed(ok))
      modifies this
      ensures State() == Step(config, old(State()), Closed(ok))
    {
      pending := pending.(close := pending.close - 1);
    }

    method OnPingTimer(ok: bool)
      requires Enabled(State(), PingFired(ok))
      modifies this
      ensures State() == Step(config, old(State()), PingFired(ok))
    {
      pending := pending.(pingWait := pending.pingWait - 1);
      if !ok { return; }
      pending := pending.(pingWait := pending.pingWait + 1);
    }
  }
}
