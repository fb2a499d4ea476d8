/**
 * The per-connection handler `handle_connection`: the opening handshake,
 * then a receive loop over the inbound half of the WebSocket stream.
 *
 * The handshake is reduced to its outcome (a boolean) and the inbound half
 * to the finite sequence of items `receiver.next()` yields before it
 * reports the end of the stream. The handler reverses every Text payload,
 * keeps nothing of the result and never writes to the outbound half.
 */
module Handler {
  import Reversal

  /** One item yielded by the receiver: `Ok(Message::Text(_))`,
      `Ok(Message::Close(_))` or `Err(_)`. The close frame and the error
      carry data the handler never looks at, so they carry none here. */
  datatype Event = Text(payload: string) | Close | Err

  /** The path by which the handler returned. */
  datatype Exit =
    | HandshakeFailed  // `accept_async` returned an error
    | EndOfStream      // `receiver.next()` returned `None`
    | PeerClosed       // a Close message broke the loop
    | ReceiveFailed    // an `Err` item broke the loop

  /** What one run of the handler did: how many inbound items it took from
      the receiver, why it returned, the reversals it computed (in order)
      and the messages it wrote to the sender. */
  datatype Trace = Trace(consumed: nat, exit: Exit, computed: seq<string>, sent: seq<string>)

  /** The receive loop, one item at a time: a Text item is reversed and the
      loop goes on, a Close or an `Err` ends it, and so does the end of the
      stream. */
  function Receive(events: seq<Event>): (t: Trace)
    ensures t.consumed <= |events|
    ensures t.exit != HandshakeFailed
  {
    if events == [] then Trace(0, EndOfStream, [], [])
    else
      match events[0]
      case Text(text) =>
        var rest := Receive(events[1..]);
        Trace(rest.consumed + 1, rest.exit, [Reversal.Reverse(text)] + rest.computed, rest.sent)
      case Close => Trace(1, PeerClosed, [], [])
      case Err => Trace(1, ReceiveFailed, [], [])
  }

  /** The whole handler: a failed handshake returns at once, otherwise the
      receive loop runs. */
  function Handle(handshakeOk: bool, events: seq<Event>): Trace
  {
    if handshakeOk then Receive(events) else Trace(0, HandshakeFailed, [], [])
  }

  /** `handle_connection`, step by step. `consumed` counts the items taken
      from the receiver, `exit` says how the handler returned, `outbound` is
      what was written to the sender half, and `computed` records every
      reversal the Text arm computes and then drops. */
  method HandleConnection(handshakeOk: bool, inbound: seq<Event>)
    returns (consumed: nat, exit: Exit, outbound: seq<string>, ghost computed: seq<string>)
    ensures Trace(consumed, exit, computed, outbound) == Handle(handshakeOk, inbound)
    ensures outbound == []
  {
    consumed, outbound, computed := 0, [], [];
    if !handshakeOk {
      exit := HandshakeFailed;
      return;
    }
    exit := EndOfStream;
    while consumed < |inbound|
      invariant consumed <= |inbound|
      invariant var rest := Receive(inbound[consumed..]);
        Receive(inbound) == Trace(consumed + rest.consumed, rest.exit, computed + rest.computed, rest.sent)
    {
      var message := inbound[consumed];
      assert inbound[consumed..][1..] == inbound[consumed + 1..];
      consumed := consumed + 1;
      match message {
        case Text(text) =>
          var reversed := Reversal.Reverse(text);
          computed := computed + [reversed];
        case Close =>
          exit := PeerClosed;
          break;
        case Err =>
          exit := ReceiveFailed;
          break;
      }
    }
  }

  /** A failed handshake ends the handler before any item is received. */
  lemma HandshakeFailureReceivesNothing(events: seq<Event>)
    ensures Handle(false, events) == Trace(0, HandshakeFailed, [], [])
  {
  }

  /** The first item that is not Text ends the loop: it is the last item
      taken, and it alone decides how the handler returns. */
  lemma {:induction false} StopsAtFirstStop(events: seq<Event>, i: nat)
    requires i < |events| && !events[i].Text?
    requires forall k :: 0 <= k < i ==> events[k].Text?
    ensures Receive(events).consumed == i + 1
    ensures Receive(events).exit == if events[i].Close? then PeerClosed else ReceiveFailed
  {
    if i > 0 {
      StopsAtFirstStop(events[1..], i - 1);
    }
  }

  /** Nothing after the item that ended the loop is examined: whatever
      follows it, the run is the same. */
  lemma {:induction false} LaterEventsUnexamined(events: seq<Event>, later: seq<Event>)
    requires Receive(events).exit != EndOfStream
    ensures Receive(events[..Receive(events).consumed] + later) == Receive(events)
  {
    var n := Receive(events).consumed;
    var taken := events[..n] + later;
    assert taken[0] == events[0];
    if events[0].Text? {
      assert taken[1..] == events[1..][..n - 1] + later;
      LaterEventsUnexamined(events[1..], later);
    }
  }

  /** Every item taken before the last one is Text; the loop ends at the end
      of the stream only after taking every item, and otherwise on a Close
      or an `Err`, which is the last item taken. */
  lemma {:induction false} ConsumedPrefix(events: seq<Event>)
    ensures var t := Receive(events);
      forall k :: 0 <= k < t.consumed - (if t.exit == EndOfStream then 0 else 1) ==> events[k].Text?
    ensures var t := Receive(events); t.exit == EndOfStream ==> t.consumed == |events|
    ensures var t := Receive(events); t.exit == PeerClosed ==> 0 < t.consumed && events[t.consumed - 1] == Close
    ensures var t := Receive(events); t.exit == ReceiveFailed ==> 0 < t.consumed && events[t.consumed - 1] == Err
  {
    if events != [] && events[0].Text? {
      ConsumedPrefix(events[1..]);
    }
  }

  /** A Text item never ends the loop: the loop reaches the end of the
      stream exactly when every item is Text, and then it has taken all of
      them. */
  lemma {:induction false} TextNeverStops(events: seq<Event>)
    ensures Receive(events).exit == EndOfStream <==> forall k :: 0 <= k < |events| ==> events[k].Text?
    ensures Receive(events).exit == EndOfStream ==> Receive(events).consumed == |events|
  {
    if events != [] && events[0].Text? {
      TextNeverStops(events[1..]);
      assert forall k :: 1 <= k < |events| ==> events[k] == events[1..][k - 1];
    }
  }

  /** The reversals are computed for the Text items taken, in the order they
      arrived, one per item. */
  lemma {:induction false} ComputedAreReversals(events: seq<Event>)
    ensures var t := Receive(events);
      |t.computed| == t.consumed - (if t.exit == EndOfStream then 0 else 1)
    ensures var t := Receive(events);
      forall k :: 0 <= k < |t.computed| ==>
        events[k].Text? && t.computed[k] == Reversal.Reverse(events[k].payload)
  {
    if events != [] && events[0].Text? {
      ComputedAreReversals(events[1..]);
    }
  }

  /** No message is ever written to the sender half, whatever arrives. */
  lemma {:induction false} NeverSends(handshakeOk: bool, events: seq<Event>)
    ensures Handle(handshakeOk, events).sent == []
  {
    if handshakeOk && events != [] && events[0].Text? {
      NeverSends(true, events[1..]);
    }
  }

  /** Worked runs: a Close right after the handshake, an `Err` that cuts off
      a later Text, and a stream that ends after one Text. */
  lemma HandleExamples()
    ensures Handle(true, [Close, Text("ab")]) == Trace(1, PeerClosed, [], [])
    ensures Handle(true, [Text("ab"), Err, Text("cd")]) == Trace(2, ReceiveFailed, ["ba"], [])
    ensures Handle(true, [Text("ab")]) == Trace(1, EndOfStream, ["ba"], [])
  {
    assert "ab"[..1] == "a";
    assert Reversal.Reverse("ab") == "ba";
    assert [Text("ab"), Err, Text("cd")][1..] == [Err, Text("cd")];
    assert Receive([Err, Text("cd")]) == Trace(1, ReceiveFailed, [], []);
    assert [Text("ab")][1..] == [];
  }
}
