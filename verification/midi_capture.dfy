/**
 * The MIDI input side of the relay server: enumerating the driver's input
 * ports, choosing the first one that is not a "through" port, opening it, and
 * turning the raw messages it delivers into note events.
 */
module MidiCapture {
  import opened Wrappers
  import opened Text

  datatype NoteKind = On | Off

  /** A normalised note event: `{type: 'on' | 'off', note, velocity}`. */
  datatype NoteEvent = NoteEvent(kind: NoteKind, note: byte, velocity: byte)

  /** A call the capture makes on the MIDI input driver. */
  datatype DriverCall = OpenPort(index: nat) | Subscribe | ClosePort

  /** The port's name, lower-cased, contains "through" (a software loop-back port). */
  predicate MentionsThrough(name: string)
    ensures MentionsThrough(name) <==> exists i :: OccursAt(ToLower(name), "through", i)
  {
    Includes(ToLower(name), "through")
  }

  /**
   * The enumeration loop of `createMidiCapture`: record every port name in
   * port-index order and select the first one that does not mention "through",
   * or -1 when there is none.
   */
  method EnumeratePorts(portNames: seq<string>) returns (devices: seq<string>, selectedPort: int)
    ensures devices == portNames
    ensures -1 <= selectedPort < |devices|
    ensures selectedPort >= 0 ==> !MentionsThrough(devices[selectedPort])
    ensures selectedPort >= 0 ==> forall j :: 0 <= j < selectedPort ==> MentionsThrough(devices[j])
    ensures selectedPort == -1 <==> forall j :: 0 <= j < |devices| ==> MentionsThrough(devices[j])
  {
    selectedPort := -1;
    devices := [];
    for i := 0 to |portNames|
      invariant devices == portNames[..i]
      invariant -1 <= selectedPort < i
      invariant selectedPort >= 0 ==> !MentionsThrough(devices[selectedPort])
      invariant forall j :: 0 <= j < i && (selectedPort == -1 || j < selectedPort) ==> MentionsThrough(devices[j])
    {
      var name := portNames[i];
      devices := devices + [name];
      if selectedPort == -1 && !MentionsThrough(name) {
        selectedPort := i;
      }
    }
  }

  /**
   * The `message` handler: only three-byte Note Off (status 0x80-0x8F) and
   * Note On (status 0x90-0x9F) messages produce an event; a Note On with
   * velocity 0 is reported as 'off'.
   */
  function Normalize(message: seq<byte>): (ev: Option<NoteEvent>)
    ensures ev.Some? <==> |message| == 3 && 0x80 <= message[0] <= 0x9F
    ensures ev.Some? ==> ev.value.note == message[1] && ev.value.velocity == message[2]
    ensures ev.Some? ==> (ev.value.kind == On <==> 0x90 <= message[0] && message[2] > 0)
  {
    if |message| != 3 then None
    else
      var command := message[0] / 16;
      if command != 0x8 && command != 0x9 then None
      else Some(NoteEvent(if command == 0x9 && message[2] > 0 then On else Off, message[1], message[2]))
  }

  /** The object `createMidiCapture` returns, together with the driver it drives. */
  class Capture {
    const devices: seq<string>
    const selectedPort: int
    /** The calls made on the driver so far, in order. */
    var driverCalls: seq<DriverCall>

    /** The port is open and the message handler is subscribed. */
    predicate Listening()
      reads this
    {
      selectedPort >= 0 && ClosePort !in driverCalls
    }

    constructor (portNames: seq<string>)
      ensures devices == portNames && -1 <= selectedPort < |devices|
      ensures selectedPort >= 0 ==> !MentionsThrough(devices[selectedPort])
      ensures selectedPort >= 0 ==> forall j :: 0 <= j < selectedPort ==> MentionsThrough(devices[j])
      ensures selectedPort == -1 <==> forall j :: 0 <= j < |devices| ==> MentionsThrough(devices[j])
      ensures driverCalls == if selectedPort >= 0 then [OpenPort(selectedPort), Subscribe] else []
    {
      var names, selected := EnumeratePorts(portNames);
      devices := names;
      selectedPort := selected;
      driverCalls := if selected >= 0 then [OpenPort(selected), Subscribe] else [];
    }

    /**
     * The driver delivers `message` to the input: it reaches the relay, as the
     * event the handler reports, only while the handler is subscribed.
     */
    method Deliver(message: seq<byte>) returns (ev: Option<NoteEvent>)
      ensures ev.Some? ==> selectedPort >= 0
      ensures ev == if Listening() then Normalize(message) else None
    {
      if selectedPort >= 0 && ClosePort !in driverCalls {
        ev := Normalize(message);
      } else {
        ev := None;
      }
    }

    /** `close()`: the port is closed only when one was opened. */
    method Close()
      modifies this
      ensures driverCalls == old(driverCalls) + (if selectedPort >= 0 then [ClosePort] else [])
      ensures !Listening()
    {
      if selectedPort >= 0 {
        driverCalls := driverCalls + [ClosePort];
      }
    }
  }

  /**
   * Port selection on concrete names: with a loop-back port first and a
   * keyboard second, the keyboard (index 1) is chosen; with only "through"
   * ports, nothing is.
   */
  lemma SelectionExamples()
    ensures MentionsThrough("Midi Through Port-0") && !MentionsThrough("Keystation 61")
    ensures MentionsThrough("Through A") && MentionsThrough("Through B")
  {
    ThroughAt("Midi Through Port-0", 5);
    ThroughAt("Through A", 0);
    ThroughAt("Through B", 0);
    KeyboardNotThrough();
  }

  /** A name that has "Through" at `i` mentions the word, whatever its case. */
  lemma ThroughAt(name: string, i: nat)
    requires OccursAt(name, "Through", i)
    ensures MentionsThrough(name)
  {
    forall j | 0 <= j < 7
      ensures ToLower(name)[i + j] == "through"[j]
    {
      assert name[i + j] == "Through"[j];
    }
    assert OccursAt(ToLower(name), "through", i);
  }

  /** A keyboard whose name lacks the word is not a loop-back port. */
  lemma KeyboardNotThrough()
    ensures !MentionsThrough("Keystation 61")
  {
    var keyboard := ToLower("Keystation 61");
    assert keyboard == "keystation 61";
    forall i | 0 <= i
      ensures !OccursAt(keyboard, "through", i)
    {
      if i + 7 <= |keyboard| {
        assert keyboard[i + 1] != "through"[1];
      }
    }
  }
}
