/**
 * The relay server: the 4-byte frame built for each note event, the
 * broadcast of that frame to every open client, and the hello message sent
 * to each client on connection.
 */
module RelayServer {
  import opened Wrappers
  import opened Text
  import opened MidiCapture
  import opened Wire

  /** Size of a note frame `[type, note, velocity, reserved]`. */
  const FrameSize := 4

  /** The frame for a note event: type byte 1 for 'on', 0 for 'off', then note, velocity and a zero. */
  function EncodeFrame(e: NoteEvent): (frame: seq<byte>)
    ensures |frame| == FrameSize && frame[3] == 0
    ensures frame[0] == (if e.kind == On then 1 else 0)
    ensures frame[1] == e.note && frame[2] == e.velocity
  {
    [if e.kind == On then 1 else 0, e.note, e.velocity, 0]
  }

  /** The frame is filled in place in a zero-initialised four-byte buffer. */
  method BuildFrame(e: NoteEvent) returns (frame: seq<byte>)
    ensures frame == EncodeFrame(e)
  {
    var buf := new byte[FrameSize](_ => 0);
    buf[0] := if e.kind == On then 1 else 0;
    buf[1] := e.note;
    buf[2] := e.velocity;
    buf[3] := 0;
    frame := buf[..];
  }

  /** Distinct note events have distinct frames: the frame loses nothing of the event. */
  lemma EncodeFrameInjective(e1: NoteEvent, e2: NoteEvent)
    requires EncodeFrame(e1) == EncodeFrame(e2)
    ensures e1 == e2
  {
    assert EncodeFrame(e1)[1] == e1.note && EncodeFrame(e1)[2] == e1.velocity;
    assert EncodeFrame(e2)[1] == e2.note && EncodeFrame(e2)[2] == e2.velocity;
  }

  /** A WebSocket's `readyState`: CONNECTING, OPEN, CLOSING or CLOSED. */
  datatype ReadyState = Connecting | Open | Closing | Closed

  /** A client connection: its ready state and the messages sent on it so far, in order. */
  datatype Connection = Connection(state: ReadyState, outbox: seq<Message>)

  /** What the hub reacts to: a client connects, a note event is captured, a client's state changes. */
  datatype HubStep = Connect | Note(event: NoteEvent) | Change(client: nat, state: ReadyState)

  /** `client.send(m)` when the client is OPEN; otherwise the client is skipped. */
  function SendIfOpen(c: Connection, m: Message): (r: Connection)
    ensures r.state == c.state
    ensures c.state == Open ==> r.outbox == c.outbox + [m]
    ensures c.state != Open ==> r.outbox == c.outbox
  {
    if c.state == Open then c.(outbox := c.outbox + [m]) else c
  }

  /** The broadcast loop over `wss.clients`. */
  function FanOut(cs: seq<Connection>, m: Message): (r: seq<Connection>)
    ensures |r| == |cs|
    ensures forall i :: 0 <= i < |cs| ==> r[i] == SendIfOpen(cs[i], m)
  {
    seq(|cs|, i requires 0 <= i < |cs| => SendIfOpen(cs[i], m))
  }

  /** The client list after one step. */
  function Apply(cs: seq<Connection>, hello: Message, step: HubStep): seq<Connection> {
    match step
    case Connect => cs + [Connection(Open, [hello])]
    case Note(e) => FanOut(cs, Binary(EncodeFrame(e)))
    case Change(i, s) => if i < |cs| then cs[i := cs[i].(state := s)] else cs
  }

  /** The client list after a run of steps from an empty server. */
  function Run(hello: Message, trace: seq<HubStep>): seq<Connection>
    decreases |trace|
  {
    if trace == [] then []
    else Apply(Run(hello, trace[..|trace| - 1]), hello, trace[|trace| - 1])
  }

  /** The number of clients that connected during `trace`. */
  function Connects(trace: seq<HubStep>): nat
    decreases |trace|
  {
    if trace == [] then 0
    else Connects(trace[..|trace| - 1]) + (if trace[|trace| - 1] == Connect then 1 else 0)
  }

  /** The ready state of the `i`-th client to connect, after `trace`; None before it connects. */
  function StateAfter(trace: seq<HubStep>, i: nat): Option<ReadyState>
    decreases |trace|
  {
    if trace == [] then None
    else
      var before := trace[..|trace| - 1];
      var prev := StateAfter(before, i);
      match trace[|trace| - 1]
      case Connect => if i == Connects(before) then Some(Open) else prev
      case Note(_) => prev
      case Change(j, s) => if j == i && prev.Some? then Some(s) else prev
  }

  /** The frames of the note events that arrived while the `i`-th client was OPEN, in arrival order. */
  function Received(trace: seq<HubStep>, i: nat): seq<Message>
    decreases |trace|
  {
    if trace == [] then []
    else
      var before := trace[..|trace| - 1];
      Received(before, i) +
        match trace[|trace| - 1]
        case Note(e) => if StateAfter(before, i) == Some(Open) then [Binary(EncodeFrame(e))] else []
        case _ => []
  }

  /**
   * After any run, there is one connection per connect step; each has the
   * state the run left it in, and its messages are the hello followed by the
   * frames of exactly the events that arrived while it was OPEN, in order.
   */
  lemma {:induction false} RunPerClient(hello: Message, trace: seq<HubStep>)
    ensures |Run(hello, trace)| == Connects(trace)
    ensures forall i :: 0 <= i < Connects(trace) ==>
      StateAfter(trace, i) == Some(Run(hello, trace)[i].state) &&
      Run(hello, trace)[i].outbox == [hello] + Received(trace, i)
    ensures forall i :: Connects(trace) <= i ==> StateAfter(trace, i) == None && Received(trace, i) == []
    decreases |trace|
  {
    if trace != [] {
      var before := trace[..|trace| - 1];
      RunPerClient(hello, before);
      var cs := Run(hello, before);
      match trace[|trace| - 1]
      case Connect =>
        assert Run(hello, trace) == cs + [Connection(Open, [hello])];
      case Note(e) =>
        assert Run(hello, trace) == FanOut(cs, Binary(EncodeFrame(e)));
      case Change(j, s) =>
    }
  }

  /** Every client's first message is the hello, and it is the only message that is not a frame. */
  lemma HelloFirstAndOnce(hello: Message, trace: seq<HubStep>, i: nat)
    requires i < |Run(hello, trace)|
    ensures |Run(hello, trace)[i].outbox| >= 1 && Run(hello, trace)[i].outbox[0] == hello
    ensures forall k :: 1 <= k < |Run(hello, trace)[i].outbox| ==> Run(hello, trace)[i].outbox[k].Binary?
  {
    RunPerClient(hello, trace);
    ReceivedFrames(trace, i);
  }

  /** A client only ever receives note frames after the hello. */
  lemma {:induction false} ReceivedFrames(trace: seq<HubStep>, i: nat)
    ensures forall k :: 0 <= k < |Received(trace, i)| ==>
      Received(trace, i)[k].Binary? && |Received(trace, i)[k].bytes| == FrameSize
    decreases |trace|
  {
    if trace != [] {
      ReceivedFrames(trace[..|trace| - 1], i);
    }
  }

  /** The WebSocket server with its clients, as the relay server uses it. */
  class Hub {
    /** The hello message: the capture's `devices` and `selectedPort`. */
    const hello: Message
    var clients: seq<Connection>
    /** The steps the hub has seen so far. */
    ghost var trace: seq<HubStep>

    ghost predicate Valid()
      reads this
    {
      hello.Hello? && clients == Run(hello, trace)
    }

    /** The server for the capture `createMidiCapture` returned: no clients yet, and a hello built from that capture's port list and selection. */
    constructor (capture: Capture)
      ensures Valid() && hello == Hello(capture.devices, capture.selectedPort)
      ensures clients == [] && trace == []
    {
      hello := Hello(capture.devices, capture.selectedPort);
      clients := [];
      trace := [];
    }

    /** The `connection` handler: the new client, already OPEN, is sent the hello and nothing else. */
    method Accept() returns (id: nat)
      requires Valid()
      modifies this
      ensures Valid() && trace == old(trace) + [Connect]
      ensures id == |old(clients)| && clients == old(clients) + [Connection(Open, [hello])]
    {
      id := |clients|;
      clients := clients + [Connection(Open, [hello])];
      trace := trace + [Connect];
    }

    /** The capture callback: build the frame for `e` and send it to every OPEN client. */
    method OnNoteEvent(e: NoteEvent)
      requires Valid()
      modifies this
      ensures Valid() && trace == old(trace) + [Note(e)]
      ensures |clients| == |old(clients)|
      ensures forall i :: 0 <= i < |clients| ==>
        clients[i].state == old(clients[i].state) &&
        clients[i].outbox == old(clients[i].outbox) + (if old(clients[i].state) == Open then [Binary(EncodeFrame(e))] else [])
    {
      var frame := BuildFrame(e);
      Broadcast(Binary(frame));
      trace := trace + [Note(e)];
    }

    /** The loop over `wss.clients` that sends `m` to each OPEN client. */
    method Broadcast(m: Message)
      modifies this
      ensures clients == FanOut(old(clients), m)
      ensures trace == old(trace)
    {
      var i := 0;
      while i < |clients|
        invariant 0 <= i <= |clients| == |old(clients)|
        invariant forall k :: 0 <= k < i ==> clients[k] == SendIfOpen(old(clients)[k], m)
        invariant forall k :: i <= k < |clients| ==> clients[k] == old(clients)[k]
        invariant trace == old(trace)
      {
        if clients[i].state == Open {
          clients := clients[i := clients[i].(outbox := clients[i].outbox + [m])];
        }
        i := i + 1;
      }
    }

    /** The WebSocket library moves client `i` to `state` (closing, closed, ...). */
    method SetState(i: nat, state: ReadyState)
      requires Valid() && i < |clients|
      modifies this
      ensures Valid() && trace == old(trace) + [Change(i, state)]
      ensures clients == old(clients)[i := old(clients)[i].(state := state)]
    {
      clients := clients[i := clients[i].(state := state)];
      trace := trace + [Change(i, state)];
    }
  }
}
