/**
  The callback of WebSocketTcpServer. A connection that ends is reported twice, by CLOSED and
  by DEL_POLL_FD; both remove the client and both notify, one of them for client id zero. The
  library is assumed not to reuse a descriptor before it has been removed, and to deliver data
  only on connections that are established and not removed.
*/
module WebSocketServers {
  import opened Bytes
  import opened Registries
  import opened Attribution

  /** The callback reasons that do something; Stopped is stop() in the owner's thread. */
  datatype Event =
    | Established(fd: int, id: nat)
    | Receive(fd: int, data: bytes)
    | Closed(fd: int)
    | DelPollFd(fd: int)
    | OtherReason
    | Stopped

  /** The server, and what the library knows: `open` are the descriptors of established connections. */
  datatype State =
    State(clients: seq<Client>, trace: seq<Notification>, running: bool, crashed: bool, open: set<int>)

  const START: State := State([], [], true, false, {})

  /** The library's connections after an event, whether or not the server still listens. */
  function OpenAfter(open: set<int>, e: Event): set<int> {
    match e
    case Established(fd, _) => open + {fd}
    case Closed(fd) => open - {fd}
    case DelPollFd(fd) => open - {fd}
    case _ => open
  }

  function Removal(s: State, fd: int): State {
    var (clients, id) := RemovedByFd(s.clients, fd);
    s.(clients := clients, trace := s.trace + [Disconnected(id)])
  }

  /** What one call of the callback does to the server. */
  function Handled(s: State, e: Event): State {
    match e
    case Established(fd, id) =>
      s.(clients := s.clients + [Client(id, fd)], trace := s.trace + [Connected(id)])
    case Receive(fd, data) =>
      (match FirstByFd(s.clients, fd)
       case None => s.(crashed := true)
       case Some(c) => s.(trace := s.trace + [Received(c.id, data)]))
    case Closed(fd) => Removal(s, fd)
    case DelPollFd(fd) => Removal(s, fd)
    case OtherReason => s
    case Stopped => s.(running := false)
  }

  /** One event. Once the server has stopped, the callback returns at once. */
  function Step(s: State, e: Event): State {
    (if s.running then Handled(s, e) else s).(open := OpenAfter(s.open, e))
  }

  function Run(s: State, events: seq<Event>): State
    decreases events
  {
    if events == [] then s else Run(Step(s, events[0]), events[1..])
  }

  /** What the library may do next. */
  predicate Allowed(s: State, e: Event) {
    match e
    case Established(fd, id) => id != 0 && id !in Ids(s.clients) && fd !in s.open
    case Receive(fd, _) => fd in s.open
    case _ => true
  }

  predicate AllowedRun(s: State, events: seq<Event>)
    decreases events
  {
    events == [] || (Allowed(s, events[0]) && AllowedRun(Step(s, events[0]), events[1..]))
  }

  /** The trace without the notifications for client id zero. */
  function Visible(trace: seq<Notification>): seq<Notification> {
    if trace == [] then []
    else
      var n := trace[|trace| - 1];
      var before := Visible(trace[..|trace| - 1]);
      if n.id == 0 then before else before + [n]
  }

  /**
    No client was missing, the registered descriptors are the library's for as long as the server
    listens, and the visible trace follows the protocol and leaves connected exactly the
    registered clients.
  */
  ghost predicate Safe(s: State) {
    !s.crashed && WellKept(s.clients) && (s.running ==> Fds(s.clients) == s.open) &&
    LiveAfter(Visible(s.trace)) == Some(Ids(s.clients))
  }

  lemma VisibleNext(trace: seq<Notification>, n: Notification)
    ensures Visible(trace + [n]) == if n.id == 0 then Visible(trace) else Visible(trace) + [n]
  {
    assert (trace + [n])[..|trace|] == trace;
  }

  lemma StepIsSafe(s: State, e: Event)
    requires Safe(s) && Allowed(s, e)
    ensures Safe(Step(s, e))
  {
    if s.running {
      match e
      case Established(fd, id) =>
        AddKeepsWell(s.clients, Client(id, fd));
        VisibleNext(s.trace, Connected(id));
        LiveAfterNext(Visible(s.trace), Connected(id));
      case Receive(fd, data) =>
        assert fd in Fds(s.clients);
        var c := FirstByFd(s.clients, fd).value;
        assert c.id in Ids(s.clients);
        VisibleNext(s.trace, Received(c.id, data));
        LiveAfterNext(Visible(s.trace), Received(c.id, data));
      case Closed(fd) => RemovalIsSafe(s, fd);
      case DelPollFd(fd) => RemovalIsSafe(s, fd);
      case _ =>
    }
  }

  lemma RemovalIsSafe(s: State, fd: int)
    requires Safe(s)
    ensures Safe(Removal(s, fd).(open := s.open - {fd}))
  {
    var id := RemovedByFd(s.clients, fd).1;
    RemovalByFd(s.clients, fd);
    VisibleNext(s.trace, Disconnected(id));
    LiveAfterNext(Visible(s.trace), Disconnected(id));
  }

  /** Over every run: safe after every event. */
  lemma {:induction false} RunIsSafe(s: State, events: seq<Event>, i: nat)
    requires Safe(s) && AllowedRun(s, events) && i <= |events|
    ensures Safe(Run(s, events[..i]))
    decreases i
  {
    if i == 0 {
      assert events[..0] == [];
    } else {
      StepIsSafe(s, events[0]);
      RunIsSafe(Step(s, events[0]), events[1..], i - 1);
      assert events[..i][1..] == events[1..][..i - 1];
    }
  }

  /** In the visible trace of any run every disconnection ends one earlier connection that had not ended. */
  lemma TraceShape(events: seq<Event>, n: nat)
    requires AllowedRun(START, events)
    requires n < |Visible(Run(START, events).trace)|
    ensures var trace := Visible(Run(START, events).trace);
            trace[n].Connected? <==> !exists j :: ConnectedSince(trace, trace[n].id, j, n)
  {
    assert Ids([]) == {};
    RunIsSafe(START, events, |events|);
    assert events[..|events|] == events;
    ConnectionShape(Visible(Run(START, events).trace), n);
  }

  /** The registered clients are those that have connected and not disconnected since. */
  lemma RegistryIsUnmatchedConnects(events: seq<Event>, id: nat)
    requires AllowedRun(START, events)
    ensures id in Ids(Run(START, events).clients) <==> StillConnected(Visible(Run(START, events).trace), id)
  {
    hide StillConnected;
    assert Ids([]) == {};
    RunIsSafe(START, events, |events|);
    assert events[..|events|] == events;
    LiveMeansConnected(Visible(Run(START, events).trace), id);
  }

  /** A removal is visible exactly if the descriptor had a client; afterwards it has none. */
  lemma RemovalIsVisibleOnce(s: State, fd: int)
    requires WellKept(s.clients)
    ensures fd !in Fds(Removal(s, fd).clients)
    ensures fd in Fds(s.clients) ==>
              |Removal(s, fd).clients| < |s.clients| &&
              Visible(Removal(s, fd).trace) == Visible(s.trace) + [Disconnected(FirstByFd(s.clients, fd).value.id)]
    ensures fd !in Fds(s.clients) ==>
              Removal(s, fd) == s.(trace := s.trace + [Disconnected(0)]) && Visible(Removal(s, fd).trace) == Visible(s.trace)
  {
    RemovalByFd(s.clients, fd);
    VisibleNext(s.trace, Disconnected(RemovedByFd(s.clients, fd).1));
    if fd in Fds(s.clients) { WithoutShrinks(s.clients, FirstByFd(s.clients, fd).value); }
  }

  lemma {:induction false} WithoutShrinks(cs: seq<Client>, c: Client)
    ensures |Without(cs, c)| <= |cs| && (c in cs ==> |Without(cs, c)| < |cs|)
  {
    if cs != [] { WithoutShrinks(cs[1..], c); }
  }

  predicate Ends(e: Event, fd: int) { e == Closed(fd) || e == DelPollFd(fd) }

  /** Of the events that end a connection, in either order, the second changes no client and reports zero. */
  lemma SecondRemovalIsInvisible(s: State, fd: int, first: Event, second: Event)
    requires Safe(s) && s.running && Ends(first, fd) && Ends(second, fd)
    ensures var once := Step(s, first);
            Step(once, second) == once.(trace := once.trace + [Disconnected(0)]) &&
            Visible(Step(once, second).trace) == Visible(once.trace)
  {
    hide Visible, WellKept, LiveAfter, FirstByFd, RemovedByFd;
    StepIsSafe(s, first);
    var once := Step(s, first);
    assert once == Removal(s, fd).(open := s.open - {fd});
    RemovalIsVisibleOnce(s, fd);
    RemovalIsVisibleOnce(once, fd);
    assert once.open - {fd} == once.open;
  }

  // ----- Whose notifications they are -----

  function OccurrenceOf(e: Event): Occurrence {
    match e
    case Established(fd, id) => Opened(fd, id)
    case Receive(fd, data) => Data(fd, data)
    case Closed(fd) => Ended(fd)
    case DelPollFd(fd) => Ended(fd)
    case OtherReason => Nothing
    case Stopped => Nothing
  }

  /** The events, of which those after stop() do not matter. */
  function History(events: seq<Event>): seq<Occurrence> {
    if events == [] then []
    else
      var (before, last) := (events[..|events| - 1], events[|events| - 1]);
      History(before) + [if Stopped in before then Nothing else OccurrenceOf(last)]
  }

  lemma HistoryNext(events: seq<Event>, e: Event)
    ensures History(events + [e]) == History(events) + [if Stopped in events then Nothing else OccurrenceOf(e)]
  {
    assert (events + [e])[..|events|] == events;
  }

  ghost predicate Attributed(s: State, events: seq<Event>) {
    Tracks(s.clients, History(events)) && AlwaysDistinct(History(events)) &&
    s.trace == Notified(History(events)) && (s.running <==> Stopped !in events)
  }

  /** The registry after an event, and the notification of the event. */
  lemma StepTracks(s: State, os: seq<Occurrence>, e: Event)
    requires Safe(s) && Allowed(s, e) && Tracks(s.clients, os)
    ensures var o := if s.running then OccurrenceOf(e) else Nothing;
            Tracks(Step(s, e).clients, os + [o]) && Step(s, e).trace == s.trace + Said(os, o)
  {
    hide LiveAfter, Visible;
    var o := if s.running then OccurrenceOf(e) else Nothing;
    match o
    case Opened(fd, id) => TracksOpened(s.clients, os, fd, id);
    case Ended(fd) =>
      TracksEnded(s.clients, os, fd);
      assert Owner(os, fd) == match FirstByFd(s.clients, fd) { case None => None case Some(c) => Some(c.id) };
    case Data(fd, data) =>
      assert fd in Fds(s.clients);
      TracksOther(s.clients, os, o);
      assert Owner(os, fd) == match FirstByFd(s.clients, fd) { case None => None case Some(c) => Some(c.id) };
    case Nothing => TracksOther(s.clients, os, o);
  }

  lemma StepIsAttributed(s: State, events: seq<Event>, e: Event)
    requires Safe(s) && Attributed(s, events) && Allowed(s, e)
    ensures Attributed(Step(s, e), events + [e])
  {
    var os := History(events);
    var o := if Stopped in events then Nothing else OccurrenceOf(e);
    StepIsSafe(s, e);
    assert WellKept(Step(s, e).clients) && (Step(s, e).running <==> Stopped !in events + [e]);
    StepTracks(s, os, e);
    hide Tracks, AlwaysDistinct, Step, Safe, Notified, WellKept, Allowed;
    HistoryNext(events, e);
    NotifiedNext(os, o);
    TracksDistinct(Step(s, e).clients, os + [o]);
    AlwaysDistinctNext(os, o);
  }

  lemma {:induction false} RunIsAttributed(s: State, before: seq<Event>, events: seq<Event>)
    requires Safe(s) && Attributed(s, before) && AllowedRun(s, events)
    ensures Attributed(Run(s, events), before + events)
    decreases events
  {
    hide Attributed, Safe, Step, Allowed;
    if events == [] {
      assert before + [] == before;
    } else {
      StepIsAttributed(s, before, events[0]);
      StepIsSafe(s, events[0]);
      RunIsAttributed(Step(s, events[0]), before + [events[0]], events[1..]);
      assert before + [events[0]] + events[1..] == before + events;
    }
  }

  /**
    Over every run the notifications are those that the events demand: what is received on a
    descriptor, and its first removal, is reported for the client established there last, and
    every further removal for client zero.
  */
  lemma TraceIsAttributed(events: seq<Event>)
    requires AllowedRun(START, events)
    ensures Run(START, events).trace == Notified(History(events)) && AlwaysDistinct(History(events))
  {
    assert Ids([]) == {};
    assert Attributed(START, []);
    RunIsAttributed(START, [], events);
    assert [] + events == events;
  }

  /** The event at i concerns the connection established at j: the listener is told so, with the data. */
  lemma EventIsReported(events: seq<Event>, i: nat, j: nat, id: nat)
    requires AllowedRun(START, events)
    requires var os := History(events);
             i < |os| && (os[i].Data? || os[i].Ended?) && Owns(os[..i], j, os[i].fd, id)
    ensures var os := History(events);
            Notified(os[..i]) + [if os[i].Data? then Received(id, os[i].data) else Disconnected(id)]
            <= Run(START, events).trace
  {
    TraceIsAttributed(events);
    NotificationOf(History(events), i, j, id);
  }

  /** While a connection lasts, the listener receives for its client exactly the data of its descriptor, in order. */
  lemma ConnectionIsDelivered(events: seq<Event>, j: nat, fd: int, id: nat)
    requires AllowedRun(START, events) && Owns(History(events), j, fd, id)
    ensures var os := History(events);
            ReceivedBy(Run(START, events).trace, id) ==
            ReceivedBy(Notified(os[..j + 1]), id) + DataOn(os[j + 1..], fd)
  {
    var os := History(events);
    TraceIsAttributed(events);
    assert os[..|os|] == os && os[j + 1..|os|] == os[j + 1..];
    ConnectionData(os, j, |os|, fd, id);
  }

  class WebSocketServer {
    const registry: Registry
    var trace: seq<Notification>
    var runThread: bool
    ghost var open: set<int>

    constructor ()
      ensures fresh(registry) && Now() == START
    {
      registry := new Registry();
      trace, runThread, open := [], true, {};
    }

    ghost function Now(): State
      reads this, registry
    {
      State(registry.clientList, trace, runThread, false, open)
    }

    /** __callback_websocket__ (and stop). */
    method Callback(reason: Event)
      requires Safe(Now()) && Allowed(Now(), reason)
      modifies this, registry
      ensures Now() == Step(old(Now()), reason) && Safe(Now())
    {
      StepIsSafe(Now(), reason);
      open := OpenAfter(open, reason);
      if !runThread { return; }
      match reason {
        case Established(fd, newId) =>
          var id := registry.AddClientInfo(Client(newId, fd));
          trace := trace + [Connected(id)];
        case Receive(fd, data) =>
          var client := registry.FindClientInfoByFd(fd);
          assert client.Some?;
          trace := trace + [Received(client.value.id, data)];
        case Closed(fd) =>
          var id := registry.RemoveClientInfoByFd(fd);
          trace := trace + [Disconnected(id)];
        case DelPollFd(fd) =>
          var id := registry.RemoveClientInfoByFd(fd);
          trace := trace + [Disconnected(id)];
        case OtherReason =>
        case Stopped =>
          runThread := false;
      }
    }

    /** The service loop: the library calls back for one event after another. */
    method WebSocketThread(events: seq<Event>)
      requires Safe(Now()) && AllowedRun(Now(), events)
      modifies this, registry
      ensures Now() == Run(old(Now()), events) && Safe(Now())
    {
      ghost var start := Now();
      assert events[..0] == [] && events[0..] == events;
      for i := 0 to |events|
        invariant Safe(Now()) && AllowedRun(Now(), events[i..])
        invariant Run(start, events) == Run(Now(), events[i..])
      {
        assert events[i..][0] == events[i] && events[i..][1..] == events[i + 1..];
        Callback(events[i]);
      }
      assert events[|events|..] == [];
    }
  }
}
