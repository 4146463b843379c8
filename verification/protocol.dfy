/**
 * The wire protocol end to end: what a client does with the frames and the
 * hello message the relay server sends it.
 */
module Protocol {
  import opened Wrappers
  import opened Text
  import opened MidiCapture
  import opened Wire
  import opened RelayServer
  import opened WebSocketMidi

  /** Decoding the frame of `e` presses `e.note` with `e.velocity` exactly when `e` is 'on' with a velocity, and otherwise releases it. */
  lemma FrameRoundTrip(e: NoteEvent)
    ensures Decode(Binary(EncodeFrame(e))) ==
      Some(if e.kind == On && e.velocity > 0 then Press(e.note, e.velocity) else Release(e.note))
  {
  }

  /**
   * From hardware to the client's note state: a raw message that the capture
   * turns into an event makes the client press the note with the message's
   * velocity when it was a Note On with a velocity, and release it otherwise.
   */
  lemma CaptureToClient(message: seq<byte>)
    requires Normalize(message).Some?
    ensures Decode(Binary(EncodeFrame(Normalize(message).value))) ==
      Some(if 0x90 <= message[0] && message[2] > 0 then Press(message[1], message[2]) else Release(message[1]))
  {
    FrameRoundTrip(Normalize(message).value);
  }

  /** The hello message is not binary, so the client dispatches nothing for it. */
  lemma HelloIgnored(devices: seq<string>, selectedPort: int)
    ensures Decode(Hello(devices, selectedPort)) == None
  {
  }

  /** The concrete frames: 'on' 60 at 100 is `[1, 60, 100, 0]` and presses 60; `[0, 60, 0, 0]` releases 60. */
  lemma FrameExamples()
    ensures EncodeFrame(NoteEvent(On, 60, 100)) == [1, 60, 100, 0]
    ensures Decode(Binary([1, 60, 100, 0])) == Some(Press(60, 100))
    ensures Decode(Binary([0, 60, 0, 0])) == Some(Release(60))
    ensures Normalize([0x90, 60, 100]) == Some(NoteEvent(On, 60, 100))
    ensures Normalize([0x90, 60, 0]) == Some(NoteEvent(Off, 60, 0))
    ensures Normalize([0x80, 60, 40]) == Some(NoteEvent(Off, 60, 40))
    ensures Normalize([0xB0, 7, 90]) == None
  {
  }
}
