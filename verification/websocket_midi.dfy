/**
 * The browser side of the relay: decoding the frames that arrive on the
 * WebSocket into key presses and releases, and reconnecting with a doubling
 * delay, capped at ten seconds, whenever the socket closes.
 */
module WebSocketMidi {
  import opened Wrappers
  import opened Text
  import opened Wire

  /** A call into the note-state sink: `press(note, velocity)` or `release(note)`. */
  datatype Action = Press(note: byte, velocity: byte) | Release(note: byte)

  /**
   * The `onmessage` handler: text messages and binary payloads shorter than
   * three bytes are ignored; otherwise type 1 with a non-zero velocity is a
   * press and everything else a release.
   */
  function Decode(m: Message): (a: Option<Action>)
    ensures a.None? <==> m.Hello? || |m.bytes| < 3
    ensures a.Some? ==> a.value.note == m.bytes[1]
    ensures a.Some? ==> (a.value.Press? <==> m.bytes[0] == 1 && m.bytes[2] > 0)
    ensures a.Some? && a.value.Press? ==> a.value.velocity == m.bytes[2] > 0
  {
    match m
    case Hello(_, _) => None
    case Binary(buf) =>
      if |buf| < 3 then None
      else
        var kind, note, velocity := buf[0], buf[1], buf[2];
        if kind == 1 && velocity > 0 then Some(Press(note, velocity)) else Some(Release(note))
  }

  /** Bytes from index 3 on never change what a payload decodes to. */
  lemma DecodeIgnoresTail(b1: seq<byte>, b2: seq<byte>)
    requires |b1| >= 3 && |b2| >= 3 && b1[..3] == b2[..3]
    ensures Decode(Binary(b1)) == Decode(Binary(b2))
  {
    assert b1[0] == b1[..3][0] && b1[1] == b1[..3][1] && b1[2] == b1[..3][2];
    assert b2[0] == b2[..3][0] && b2[1] == b2[..3][1] && b2[2] == b2[..3][2];
  }

  /** The reconnect delay's floor, restored on every successful open. */
  const InitialDelay := 1000
  /** The cap on the reconnect delay. */
  const MaxDelay := 10000

  /** `Math.min(reconnectDelay * 2, 10000)`. */
  function NextDelay(d: int): (next: int)
    ensures next <= MaxDelay
    ensures 0 < d ==> next > d || next == MaxDelay
    ensures 0 < d <= MaxDelay ==> d <= next
  {
    if d * 2 < MaxDelay then d * 2 else MaxDelay
  }

  function Pow2(k: nat): (p: nat)
    ensures p >= 1
  {
    if k == 0 then 1 else 2 * Pow2(k - 1)
  }

  /** The delay of the `k`-th retry after an open (counting from 0): 1000 doubled `k` times, capped at 10000. */
  function BackoffAt(k: nat): (d: int)
    ensures InitialDelay <= d <= MaxDelay
  {
    if InitialDelay * Pow2(k) < MaxDelay then InitialDelay * Pow2(k) else MaxDelay
  }

  /** Firing a retry timer moves the delay one place along the backoff schedule. */
  lemma {:induction false} NextDelayFollowsSchedule(k: nat)
    ensures NextDelay(BackoffAt(k)) == BackoffAt(k + 1)
  {
    assert Pow2(k + 1) == 2 * Pow2(k);
  }

  /** The schedule is 1000, 2000, 4000, 8000 and then 10000 for ever. */
  lemma {:induction false} BackoffSchedule(k: nat)
    ensures BackoffAt(0) == 1000 && BackoffAt(1) == 2000 && BackoffAt(2) == 4000 && BackoffAt(3) == 8000
    ensures k >= 4 ==> BackoffAt(k) == 10000
  {
    assert Pow2(0) == 1 && Pow2(1) == 2 && Pow2(2) == 4 && Pow2(3) == 8 && Pow2(4) == 16;
    if k >= 4 {
      Pow2Grows(4, k);
    }
  }

  lemma {:induction false} Pow2Grows(j: nat, k: nat)
    requires j <= k
    ensures Pow2(j) <= Pow2(k)
    decreases k - j
  {
    if j < k {
      Pow2Grows(j + 1, k);
    }
  }

  /** The phase of the current socket `ws` (not null). */
  datatype SocketPhase = SocketConnecting | SocketOpen | SocketClosing

  /**
   * The module state of the client: the current socket (null after it
   * closes), the reconnect delay, the pending retry timer (its delay), and the
   * calls made on the note-state sink.
   */
  class RelayClient {
    var ws: Option<SocketPhase>
    var reconnectDelay: int
    var timer: Option<int>
    var dispatched: seq<Action>
    /** The retry delays scheduled since the last successful open, in order. */
    ghost var sinceOpen: seq<int>

    /**
     * Exactly one of a live socket and a pending retry timer exists, and the
     * delays scheduled since the last open follow the backoff schedule.
     */
    ghost predicate Valid()
      reads this
    {
      && InitialDelay <= reconnectDelay <= MaxDelay
      && (ws.Some? <==> timer.None?)
      && (forall k :: 0 <= k < |sinceOpen| ==> sinceOpen[k] == BackoffAt(k))
      && (timer.Some? ==> |sinceOpen| > 0 && timer.value == sinceOpen[|sinceOpen| - 1] == reconnectDelay)
      && (timer.None? ==> reconnectDelay == BackoffAt(|sinceOpen|))
    }

    /** Page load: `connect()` opens the first socket with the delay at its floor. */
    constructor ()
      ensures Valid()
      ensures ws == Some(SocketConnecting) && reconnectDelay == InitialDelay && timer == None
      ensures dispatched == [] && sinceOpen == []
    {
      ws := Some(SocketConnecting);
      reconnectDelay := InitialDelay;
      timer := None;
      dispatched := [];
      sinceOpen := [];
    }

    /** `onopen`: the delay returns to its floor. */
    method OnOpen()
      requires Valid() && ws == Some(SocketConnecting)
      modifies this
      ensures Valid()
      ensures ws == Some(SocketOpen) && reconnectDelay == InitialDelay && sinceOpen == []
      ensures timer == old(timer) && dispatched == old(dispatched)
    {
      ws := Some(SocketOpen);
      reconnectDelay := InitialDelay;
      sinceOpen := [];
    }

    /** `onmessage`: at most one press or release, and nothing else changes. */
    method OnMessage(m: Message)
      requires Valid() && ws.Some?
      modifies this
      ensures Valid()
      ensures dispatched == old(dispatched) + (if Decode(m).Some? then [Decode(m).value] else [])
      ensures ws == old(ws) && reconnectDelay == old(reconnectDelay) && timer == old(timer)
      ensures sinceOpen == old(sinceOpen)
    {
      var a := Decode(m);
      if a.Some? {
        dispatched := dispatched + [a.value];
      }
    }

    /** `onclose`: forget the socket and schedule a retry with the current delay. */
    method OnClose()
      requires Valid() && ws.Some?
      modifies this
      ensures Valid()
      ensures ws == None && timer == Some(old(reconnectDelay))
      ensures reconnectDelay == old(reconnectDelay) && dispatched == old(dispatched)
      ensures sinceOpen == old(sinceOpen) + [old(reconnectDelay)]
    {
      ws := None;
      timer := Some(reconnectDelay);
      sinceOpen := sinceOpen + [reconnectDelay];
    }

    /** `onerror`: `ws?.close()` starts closing the socket; the retry comes from `onclose`. */
    method OnError()
      requires Valid() && ws.Some?
      modifies this
      ensures Valid()
      ensures ws == Some(SocketClosing) && timer == None
      ensures reconnectDelay == old(reconnectDelay) && dispatched == old(dispatched) && sinceOpen == old(sinceOpen)
    {
      ws := Some(SocketClosing);
    }

    /** The retry timer fires: double the delay up to the cap, then `connect()`. */
    method OnTimer()
      requires Valid() && timer.Some?
      modifies this
      ensures Valid()
      ensures reconnectDelay == NextDelay(old(reconnectDelay))
      ensures ws == Some(SocketConnecting) && timer == None
      ensures dispatched == old(dispatched) && sinceOpen == old(sinceOpen)
    {
      NextDelayFollowsSchedule(|sinceOpen| - 1);
      reconnectDelay := NextDelay(reconnectDelay);
      timer := None;
      ws := Some(SocketConnecting);
    }
  }
}
