/** The messages the relay server sends to a connected client over the `/midi` WebSocket. */
module Wire {
  import opened Text

  /**
   * A binary note frame, or the JSON `{type: "hello", devices, selectedPort}`
   * text message (kept as its fields; the JSON text itself is not modelled).
   */
  datatype Message =
    | Binary(bytes: seq<byte>)
    | Hello(devices: seq<string>, selectedPort: int)
}
