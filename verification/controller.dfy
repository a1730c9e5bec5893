/** The `App` component of src/App.jsx as a state machine: the connection
    toggle, the precision buttons and their guards, the subscribe request,
    the never-cleared reconnect interval, and the handling of each incoming
    message. The socket, React's rendering and `JSON.parse` are outside the
    model: events arrive as already-parsed values. */
module Controller {
  import opened Wrappers
  import opened Json
  import opened OrderBook
  import opened Feed
  import Decimal

  /** The object `sendNewMessage` serialises and hands to the socket. */
  datatype Request = Request(event: string, channel: string, symbol: string, prec: string)

  /** The precision a `prec` field such as "P2" asks for. */
  function PrecisionOf(r: Request): Option<int> {
    if |r.prec| >= 1 && r.prec[0] == 'P' then Decimal.ParseInt(r.prec[1..]) else None
  }

  /** `sendNewMessage`: subscribe to the BTC/USD book at the current
      precision, spelled `P` followed by its decimal digits. */
  function Subscribe(precision: int): (r: Request)
    ensures r.event == "subscribe" && r.channel == "book" && r.symbol == "tBTCUSD"
    ensures PrecisionOf(r) == Some(precision)
  {
    var r := Request("subscribe", "book", "tBTCUSD", "P" + Decimal.IntToString(precision));
    assert r.prec[1..] == Decimal.IntToString(precision);
    Decimal.IntToStringRoundTrip(precision);
    r
  }

  /** The precisions the exchange accepts, `P0` to `P4`. */
  predicate ValidRequest(r: Request) {
    && r.event == "subscribe" && r.channel == "book" && r.symbol == "tBTCUSD"
    && r.prec in {"P0", "P1", "P2", "P3", "P4"}
  }

  /** A single-digit precision is spelled with exactly that digit. */
  lemma SubscribeSpelling(precision: int)
    requires 0 <= precision <= 9
    ensures Subscribe(precision).prec == ['P', Decimal.DigitChar(precision)]
  {
  }

  /** The component's state. `reconnecting` records that a precision change
      has started an interval that calls `connect` every millisecond; the
      interval is never cleared, so the flag is never reset. */
  datatype State = State(
    connected: bool,
    precision: int,
    book: Book,
    chanId: Json,
    reconnecting: bool)

  /** The first render: disconnected, precision 0, empty book, no channel. */
  const Initial: State := State(false, 0, Empty, JNull, false)

  /** The state after an event and the requests it sent, in order. */
  datatype Transition = Transition(next: State, sent: seq<Request>)

  /** `connect`: mark the connection wanted and send a subscribe request at
      the current precision; the book and the channel id are kept. */
  function Connect(s: State): (t: Transition)
    ensures t.next.connected
    ensures t.next.book == s.book && t.next.chanId == s.chanId && t.next.precision == s.precision
    ensures t.sent == [Subscribe(s.precision)]
  {
    Transition(s.(connected := true), [Subscribe(s.precision)])
  }

  /** `disconnect`: drop the connection and reset the book. The channel id is
      not cleared. */
  function Disconnect(s: State): (r: State)
    ensures !r.connected && !Ready(r.book) && Ordered(r.book)
    ensures r.chanId == s.chanId && r.precision == s.precision && r.reconnecting == s.reconnecting
  {
    s.(connected := false, book := Empty)
  }

  /** `changePrecision`: shift the precision, disconnect, and start the
      reconnect interval. */
  function ChangePrecision(s: State, delta: int): (r: State)
    ensures r.precision == s.precision + delta
    ensures !r.connected && r.book == Empty && r.reconnecting
    ensures r.chanId == s.chanId
  {
    Disconnect(s).(precision := s.precision + delta, reconnecting := true)
  }

  /** The "precision .0 <" button is enabled (line 165). */
  predicate RaiseEnabled(s: State) {
    Ready(s.book) && s.precision != 4
  }

  /** The "precision .00 >" button is enabled (line 172). */
  predicate LowerEnabled(s: State) {
    Ready(s.book) && s.precision != 0
  }

  /** `handleNewMessage` on a message whose `data` is `data` (`None` when it
      is missing or empty). A snapshot replaces the book, an update changes
      one side, anything else leaves the book alone; a `null` message or a
      malformed snapshot throws. */
  function HandleMessage(s: State, data: Option<Json>): (r: Result<State, Fault>)
    ensures data.None? ==> r == Success(s)
    ensures r.Success? ==> r.value.connected == s.connected && r.value.precision == s.precision
    ensures r.Success? ==> r.value.reconnecting == s.reconnecting
    ensures data.Some? && r.Success? ==> r.value.chanId == Classify(s.chanId, data.value).chanId
    ensures r.Success? && Ordered(s.book) ==> Ordered(r.value.book)
    ensures r.Failure? ==> data.Some? && !Classify(s.chanId, data.value).route.Ignore?
    ensures data.Some? && Classify(s.chanId, data.value).route.Ignore? ==> r.Success? && r.value.book == s.book
  {
    if data.None? then Success(s)
    else
      var k := Classify(s.chanId, data.value);
      var s1 := s.(chanId := k.chanId);
      match k.route
      case NullMessage => Failure(TypeError)
      case Ignore => Success(s1)
      case ToSnapshot(payload) =>
        (match DecodeSnapshot(payload)
         case Success(items) => Success(s1.(book := Snapshot(items)))
         case Failure(f) => Failure(f))
      case ToUpdate(payload) =>
        (match DecodeLevel(payload)
         case Some(u) => Success(s1.(book := ApplyUpdate(s1.book, u)))
         case None => Failure(OutsideModel))
  }

  /** What can happen to the component: a message arrives, a button is
      pressed, or the reconnect interval fires. */
  datatype Event =
    | Receive(data: Option<Json>)
    | ToggleConnection
    | RaisePrecision
    | LowerPrecision
    | IntervalTick

  /** One event. A press on a disabled button does nothing; an interval tick
      calls `connect` whenever an interval has been started. */
  function Step(s: State, e: Event): (r: Result<Transition, Fault>)
    ensures r.Failure? ==> e.Receive? && e.data.Some?
    ensures !e.Receive? ==> r.Success? && r.value.next.chanId == s.chanId
    ensures r.Success? && e.Receive? ==> r.value.sent == []
    ensures r.Success? && r.value.next.precision != s.precision ==>
      (e.RaisePrecision? && RaiseEnabled(s)) || (e.LowerPrecision? && LowerEnabled(s))
    ensures r.Success? ==> forall q :: q in r.value.sent ==> q == Subscribe(s.precision)
  {
    match e
    case Receive(data) =>
      (match HandleMessage(s, data)
       case Success(n) => Success(Transition(n, []))
       case Failure(f) => Failure(f))
    case ToggleConnection =>
      Success(if s.connected then Transition(Disconnect(s), []) else Connect(s))
    case RaisePrecision =>
      Success(Transition(if RaiseEnabled(s) then ChangePrecision(s, 1) else s, []))
    case LowerPrecision =>
      Success(Transition(if LowerEnabled(s) then ChangePrecision(s, -1) else s, []))
    case IntervalTick =>
      Success(if s.reconnecting then Connect(s) else Transition(s, []))
  }

  /** A sequence of events, collecting every request sent; the component
      stops at the first throw. */
  function Run(s: State, events: seq<Event>): (r: Result<Transition, Fault>)
    ensures r.Failure? ==> exists i :: 0 <= i < |events| && events[i].Receive? && events[i].data.Some?
    ensures r.Success? ==> |r.value.sent| <= |events|
    decreases |events|
  {
    if events == [] then Success(Transition(s, []))
    else
      var first := Step(s, events[0]);
      if first.Failure? then Failure(first.error)
      else
        var rest := Run(first.value.next, events[1..]);
        if rest.Failure? then
          assert forall i :: 0 <= i < |events| - 1 ==> events[1..][i] == events[i + 1];
          Failure(rest.error)
        else Success(Transition(rest.value.next, first.value.sent + rest.value.sent))
  }

  /** What holds in every reachable state: the precision stays within the
      range the exchange accepts and both sides of the book stay ordered. */
  predicate Invariant(s: State) {
    0 <= s.precision <= 4 && Ordered(s.book)
  }

  lemma InitialInvariant()
    ensures Invariant(Initial)
  {
  }

  /** Every event keeps the invariant, and every request it sends asks for an
      accepted precision. */
  lemma StepPreservesInvariant(s: State, e: Event)
    requires Invariant(s)
    requires Step(s, e).Success?
    ensures Invariant(Step(s, e).value.next)
    ensures forall q :: q in Step(s, e).value.sent ==> ValidRequest(q)
  {
    var t := Step(s, e).value;
    if t.sent != [] {
      SubscribeSpelling(s.precision);
      assert Subscribe(s.precision).prec == ['P', Decimal.DigitChar(s.precision)];
      assert ValidRequest(Subscribe(s.precision));
    }
  }

  /** A run from a state satisfying the invariant ends in one, having sent
      only accepted subscribe requests. */
  lemma {:induction false} RunPreservesInvariant(s: State, events: seq<Event>)
    requires Invariant(s)
    requires Run(s, events).Success?
    ensures Invariant(Run(s, events).value.next)
    ensures forall q :: q in Run(s, events).value.sent ==> ValidRequest(q)
    decreases |events|
  {
    if events != [] {
      StepPreservesInvariant(s, events[0]);
      var first := Step(s, events[0]).value;
      assert Invariant(first.next);
      assert Run(first.next, events[1..]).Success?;
      RunPreservesInvariant(first.next, events[1..]);
      var rest := Run(first.next, events[1..]).value;
      assert Run(s, events).value.sent == first.sent + rest.sent;
    }
  }

  /** Whatever the user does and the feed sends, the component never asks for
      a precision outside `P0`..`P4` and the book it shows stays ordered. */
  lemma ReachableInvariant(events: seq<Event>)
    requires Run(Initial, events).Success?
    ensures Invariant(Run(Initial, events).value.next)
    ensures forall q :: q in Run(Initial, events).value.sent ==> ValidRequest(q)
  {
    RunPreservesInvariant(Initial, events);
  }

  /** Only a snapshot can make an unready book ready: updates never change a
      side's length, and presses and disconnects only empty the book. */
  lemma OnlySnapshotMakesReady(s: State, e: Event)
    requires !Ready(s.book)
    requires Step(s, e).Success?
    ensures Ready(Step(s, e).value.next.book) ==>
      e.Receive? && e.data.Some? && Classify(s.chanId, e.data.value).route.ToSnapshot?
  {
  }

  /** A snapshot's book does not depend on the book it replaces. */
  lemma SnapshotForgetsBook(s: State, b: Book, m: Json)
    requires Classify(s.chanId, m).route.ToSnapshot?
    ensures HandleMessage(s, Some(m)).Success? <==> HandleMessage(s.(book := b), Some(m)).Success?
    ensures HandleMessage(s, Some(m)).Success? ==>
      HandleMessage(s, Some(m)).value.book == HandleMessage(s.(book := b), Some(m)).value.book
  {
  }

  /** A press on a disabled precision button changes nothing and sends
      nothing. */
  lemma DisabledPressIsNoOp(s: State, e: Event)
    requires (e.RaisePrecision? && !RaiseEnabled(s)) || (e.LowerPrecision? && !LowerEnabled(s))
    ensures Step(s, e) == Success(Transition(s, []))
  {
  }

  /** An enabled press shifts the precision by one, empties the book and
      starts reconnecting; the next tick subscribes at the new precision. */
  lemma EnabledPressResubscribes(s: State, e: Event)
    requires (e.RaisePrecision? && RaiseEnabled(s)) || (e.LowerPrecision? && LowerEnabled(s))
    ensures var t := Step(s, e).value;
      && t.next.precision == s.precision + (if e.RaisePrecision? then 1 else -1)
      && t.next.book == Empty && !t.next.connected && t.next.reconnecting
      && t.sent == []
      && Step(t.next, IntervalTick).value.sent == [Subscribe(t.next.precision)]
  {
  }

  /** Once a precision change has started the interval, disconnecting does
      not last: the next tick connects and subscribes again. */
  lemma DisconnectUndoneByInterval(s: State)
    requires s.connected && s.reconnecting
    ensures var d := Step(s, ToggleConnection).value.next;
      && !d.connected && d.book == Empty
      && Step(d, IntervalTick).value.next.connected
      && Step(d, IntervalTick).value.sent == [Subscribe(s.precision)]
  {
  }

  /** Without a precision change, ticks do nothing. */
  lemma TickWithoutIntervalIsNoOp(s: State)
    requires !s.reconnecting
    ensures Step(s, IntervalTick) == Success(Transition(s, []))
  {
  }
}
