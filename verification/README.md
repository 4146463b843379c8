# Sightread MIDI relay and song upload, modelled in Dafny

This project models the parts of the Sightread server and browser client
that turn bytes and strings into other bytes and strings. It proves what
each of them promises.

- **Port selection and note normalisation** (`midi_capture.dfy`). The
  server enumerates the MIDI driver's input ports and opens the first one
  whose lower-cased name does not contain "through". It turns raw
  three-byte Note On / Note Off messages into `on`/`off` note events; a
  Note On with velocity 0 becomes `off`. Closing releases the port only
  when one was opened.
- **Frame encoder, broadcast and hello** (`relay_server.dfy`, `wire.dfy`).
  Every note event becomes a 4-byte frame `[type, note, velocity, 0]`,
  sent to every client whose WebSocket is OPEN. Each new client first
  receives a `hello` message with the device list and the selected port.
  The `Hub` class keeps the clients as a sequence of connections (a ready
  state and an outbox each). A ghost trace of the steps seen so far
  relates them to a reference definition per client.
- **Client decoder and reconnect backoff** (`websocket_midi.dfy`). The
  browser decodes frames into `press`/`release` calls. After each close it
  reconnects with a delay that doubles up to 10 s and returns to 1 s after
  a successful open. The `RelayClient` class carries the socket, the timer
  and the delay.
- **Frames end to end** (`protocol.dfy`): the round trip from a raw MIDI
  message to the client's action.
- **Song upload** (`slug.dfy`, `multipart.dfy`, `upload_song.dfy`).
  - `slugify` and the title derived from the slug.
  - The `multipart/form-data` scanner `parseMultipart`: a `while` loop
    over the body, cut at each delimiter `--` + boundary (section 5.1.1 of
    RFC 2046). The file is the first part with a `filename="..."`
    parameter (section 4.2 of RFC 7578).
  - Boundary extraction from the content type.
  - The `.mid`/`.midi` gate, built on a full model of POSIX
    `path.extname`.
  - The request handler `HandleUpload`. It writes the song to the public
    and build folders, and adds it to the manifest only if its id is
    absent.

`text.dfy` holds the Node and JavaScript built-ins the models share:
bytes, `indexOf`, `includes` and ASCII case mapping. It also holds the
search for the last occurrence of a character, which both `\.[^.]+$`
and `path.extname` perform to find the last '.'.
`wrappers.dfy` holds `Option` and `Result`.

Some behaviours follow from the code as written and are modelled as such:
- A name with no letter or digit before its extension (`___.mid`) gets the
  empty slug, so it is stored as `.mid` with an empty title
  (`Slug.SlugEmptyIff`). That stored name would itself be refused by the
  extension gate (`UploadSong.Destination`).
- The boundary is the text after the first `boundary=`, up to a second
  one if there is one, so a quoted boundary keeps its quotes (`UploadSong.BoundaryAfterFirstKey`).
- A dot-file named `.mid` has no extension under `path.extname` and is
  refused (`UploadSong.GateRefusesDotFile`).

## Model

| member | source | states |
|---|---|---|
| Text.IndexOf | server/upload-song.ts:116 | `Buffer.indexOf`: the answer is -1 or an index at or after the start where the needle occurs |
| Text.IndexOfFirst | server/upload-song.ts:122 | `indexOf` answers -1 exactly when no occurrence lies at or after the start; otherwise no occurrence comes before its answer |
| Text.Includes | server/midi-capture.ts:19 | `includes` holds exactly when the pattern occurs somewhere in the string |
| Text.ToLower | server/midi-capture.ts:19 | `toLowerCase` on ASCII: the same length, every upper-case letter replaced by its lower-case partner, every other character kept, and no upper-case letter left |
| Text.LastIndex | server/upload-song.ts:15 | the index of the last occurrence of a character (none after it), or -1 when it does not occur |
| MidiCapture.MentionsThrough | server/midi-capture.ts:19 | a name mentions "through" exactly when "through" occurs in its lower-cased form |
| MidiCapture.EnumeratePorts | server/midi-capture.ts:14-22 | `devices` is every port name in port order; `selectedPort` is -1 or a valid index whose name does not mention "through" while every earlier name does; it is -1 exactly when all names mention it (including no ports) |
| MidiCapture.Normalize | server/midi-capture.ts:28-37 | an event exactly for 3-byte messages with status nibble 8 or 9; note and velocity are bytes 1 and 2; 'on' exactly for nibble 9 with a non-zero velocity |
| MidiCapture.Capture.constructor | server/midi-capture.ts:14-27 | the selection properties of `EnumeratePorts`, and the port is opened and the handler subscribed only when a port was selected |
| MidiCapture.Capture.Deliver | server/midi-capture.ts:27-38 | a raw message yields the normalised event while the port is open and subscribed, and nothing otherwise |
| MidiCapture.Capture.Close | server/midi-capture.ts:46-48 | `closePort` is called only when a port was opened; afterwards nothing is delivered |
| MidiCapture.SelectionExamples | server/midi-capture.ts:19 | "Midi Through Port-0" is skipped and "Keystation 61" chosen; "Through A"/"Through B" are both skipped |
| RelayServer.EncodeFrame | server/index.ts:21-25 | a frame is 4 bytes; byte 0 is 1 for 'on' and 0 for 'off'; bytes 1 and 2 are the note and the velocity; byte 3 is 0 |
| RelayServer.BuildFrame | server/index.ts:21-25 | filling the zeroed 4-byte buffer in place yields exactly the frame of the event |
| RelayServer.EncodeFrameInjective | server/index.ts:21-25 | distinct events have distinct frames: the frame loses nothing |
| RelayServer.SendIfOpen | server/index.ts:28-30 | an OPEN client gets the message appended to its outbox; any other client's outbox is unchanged; no ready state changes |
| RelayServer.FanOut | server/index.ts:27-31 | the broadcast keeps the number of clients, appends the message to each OPEN client and leaves every other client as it was |
| RelayServer.RunPerClient | server/index.ts:19-41 | after any sequence of connects, events and state changes: one connection per connect; each client's outbox is the hello followed by the frames of exactly the events that arrived while it was OPEN, in arrival order |
| RelayServer.HelloFirstAndOnce | server/index.ts:34-41 | each client's first message is the hello, and every later message is a frame |
| RelayServer.ReceivedFrames | server/index.ts:27-31 | everything a client receives after the hello is a 4-byte binary frame |
| RelayServer.Hub.constructor | server/index.ts:17-40 | the server is built for a `Capture` and starts with no clients; its hello is `Hello(capture.devices, capture.selectedPort)`, the two fields the connection handler reads |
| RelayServer.Hub.Accept | server/index.ts:34-41 | a new OPEN client is added whose outbox is exactly the hello; the other clients are unchanged; the per-client invariant is kept |
| RelayServer.Hub.OnNoteEvent | server/index.ts:19-32 | each OPEN client gets the event's frame appended once; the other clients are unchanged; no client is added, removed or changes state |
| RelayServer.Hub.Broadcast | server/index.ts:27-31 | the loop over the clients leaves them exactly as `FanOut` describes |
| RelayServer.Hub.SetState | server/index.ts:28 | a client changes ready state, which decides whether later frames reach it; its outbox and the other clients are unchanged |
| WebSocketMidi.Decode | src/features/midi/websocket-midi.ts:23-37 | nothing for text messages and payloads under 3 bytes; otherwise one action on note `buf[1]`: a press with `buf[2]` exactly when `buf[0] == 1` and `buf[2] > 0`, else a release |
| WebSocketMidi.DecodeIgnoresTail | src/features/midi/websocket-midi.ts:28-36 | payloads that agree on their first three bytes decode alike |
| WebSocketMidi.BackoffAt | src/features/midi/websocket-midi.ts:43 | every delay on the schedule lies within [1000, 10000] |
| WebSocketMidi.NextDelay | src/features/midi/websocket-midi.ts:43 | the next delay never exceeds 10000; a positive delay grows strictly until it reaches the cap, and never shrinks while within it |
| WebSocketMidi.NextDelayFollowsSchedule | src/features/midi/websocket-midi.ts:42-45 | `min(2*delay, 10000)` moves the delay one step along the schedule |
| WebSocketMidi.BackoffSchedule | src/features/midi/websocket-midi.ts:39-46 | the retry delays are 1000, 2000, 4000, 8000 and then 10000 for ever |
| WebSocketMidi.RelayClient.constructor | src/features/midi/websocket-midi.ts:8-16 | the first socket is connecting, the delay is 1000, and no timer or action exists |
| WebSocketMidi.RelayClient.OnOpen | src/features/midi/websocket-midi.ts:18-21 | a successful open resets the delay to 1000 and restarts the schedule |
| WebSocketMidi.RelayClient.OnMessage | src/features/midi/websocket-midi.ts:23-37 | the decoded action, if any, is dispatched once; nothing else changes |
| WebSocketMidi.RelayClient.OnClose | src/features/midi/websocket-midi.ts:39-46 | the socket is dropped and one retry is scheduled with the current delay, which is the next delay on the schedule |
| WebSocketMidi.RelayClient.OnError | src/features/midi/websocket-midi.ts:48-50 | an error only starts closing the socket; no retry is scheduled except through the close |
| WebSocketMidi.RelayClient.OnTimer | src/features/midi/websocket-midi.ts:42-45 | a firing timer doubles the delay up to 10000 and reconnects; the delay stays within [1000, 10000] |
| Protocol.FrameRoundTrip | src/features/midi/websocket-midi.ts:28-36 | decoding the frame of an event presses its note with its velocity exactly when it is 'on' with a non-zero velocity, else releases its note |
| Protocol.CaptureToClient | server/index.ts:19-25 | a raw Note On with a velocity makes the client press that note with that velocity; every other accepted message makes it release the note |
| Protocol.HelloIgnored | src/features/midi/websocket-midi.ts:24 | the hello text message dispatches nothing |
| Protocol.FrameExamples | server/index.ts:21-25 | concrete frames and messages: `[1,60,100,0]` presses 60; `[0,60,0,0]` releases it; 0x90 with velocity 0 is 'off'; a control change is dropped |
| Slug.StripExtension | server/upload-song.ts:15 | removes the text from a '.' that has a non-empty dot-free run up to the end; the name is unchanged when no such '.' exists |
| Slug.SkipNonAlnum | server/upload-song.ts:16 | drops exactly the leading run of characters outside `[a-zA-Z0-9]` |
| Slug.Hyphenate | server/upload-song.ts:16 | only letters, digits and hyphens, never two hyphens in a row, starting with a hyphen exactly when the input starts with a non-alphanumeric, and keeping every letter and digit in order |
| Slug.HyphenateIsSqueezedDashes | server/upload-song.ts:16 | replacing each maximal non-alphanumeric run by '-' equals the independent reference: each non-alphanumeric character replaced by '-', then each run of '-' collapsed to one; so a hyphen stands exactly where a separator stood (`a b` gives `a-b`) |
| Slug.TrimStart | server/upload-song.ts:17 | removes exactly the leading hyphens |
| Slug.TrimEnd | server/upload-song.ts:17 | removes exactly the trailing hyphens |
| Slug.TrimHyphens | server/upload-song.ts:17 | the result neither starts nor ends with a hyphen, keeps every letter and digit, and turns a hyphenated string into a slug; `TrimHyphensOnlyEnds` states which characters go |
| Slug.TrimHyphensOnlyEnds | server/upload-song.ts:17 | only hyphens at either end are removed: the result is one run of the input with nothing but hyphens before and after it (`a-b` stays `a-b`, an inner hyphen is never dropped) |
| Slug.SlugifyIsTrimmedSqueeze | server/upload-song.ts:13-18 | `slugify` equals the reference pipeline: the extension removed, each non-alphanumeric character replaced by '-', runs of '-' squeezed to one, and only the end hyphens trimmed (`My Song.mid` gives `My-Song`) |
| Slug.Slugify | server/upload-song.ts:13-18 | a slug has only ASCII letters, digits and single inner hyphens, and keeps every letter and digit of the name without its extension, in order |
| Slug.SlugEmptyIff | server/upload-song.ts:13-18 | the slug is empty exactly when the name without its extension has no letter or digit |
| Slug.SlugFixpoint | server/upload-song.ts:13-18 | a slug is its own slug |
| Slug.SlugifyIdempotent | server/upload-song.ts:13-18 | `slugify(slugify(s)) == slugify(s)` |
| Slug.CapitalizeWords | server/upload-song.ts:82 | same length; a character is upper-cased exactly when it is a word character that starts a word |
| Slug.SpacesForHyphens | server/upload-song.ts:82 | same length and no hyphen left: each hyphen becomes a space and every other character is kept |
| Slug.Title | server/upload-song.ts:82 | same length as the slug; a space for each hyphen; every other character kept or upper-cased |
| Slug.TitleOfSlug | server/upload-song.ts:82 | the title of a slug has a space exactly where the slug has a hyphen; the first character and each character after a hyphen are upper-cased; the others are kept |
| Multipart.Utf8Char | server/upload-song.ts:113 | a character encodes to 1-4 bytes, one byte exactly for ASCII |
| Multipart.Utf8 | server/upload-song.ts:113 | a string encodes to between 1 and 4 bytes per character; one byte per character exactly for ASCII text, which encodes to its own character codes |
| Multipart.Delimiter | server/upload-song.ts:113 | the delimiter starts with two hyphens |
| Multipart.HeaderStart | server/upload-song.ts:118-120 | the headers start right after the delimiter, or two bytes later when a `\r\n` follows it |
| Multipart.SpansFrom | server/upload-song.ts:116-134 | the scan from one delimiter: a part up to the next delimiter, repeated until a header end or a delimiter is missing; its properties are stated by `SpansFromValid`, `SpansFromChained` and `SpansFromStep` |
| Multipart.Spans | server/upload-song.ts:116-134 | the scan from the first delimiter of the body, or no parts without one; its properties are stated by `SpansValid` |
| Multipart.FoundSpanValid | server/upload-song.ts:122-128 | the two searches of one scan step find the first header end and then the first delimiter after the empty line |
| Multipart.SpansFromValid | server/upload-song.ts:116-134 | every part found from a delimiter on has headers ending at the first `\r\n\r\n` and data ending at the first following delimiter |
| Multipart.SpansFromChained | server/upload-song.ts:117-133 | each part's headers start right after the delimiter that ended the part before, skipping one `\r\n` |
| Multipart.SpansValid | server/upload-song.ts:116-134 | the parts of the body are valid and chained, and the first starts after the first delimiter of the body |
| Multipart.SpansFromStep | server/upload-song.ts:118-133 | one scan step either stops (no header end, or no next delimiter) or finds one part and continues at the next delimiter |
| Multipart.Slice | server/upload-song.ts:124 | `subarray` is the slice when the bounds are in order and empty when the end precedes the start |
| Multipart.PartAt | server/upload-song.ts:124-131 | a part's headers are the decoded bytes between the headers' start and the empty line; its data runs from after the empty line to two bytes before the next delimiter, and is empty when that range is shorter |
| Multipart.PartsAt | server/upload-song.ts:131 | one part per span |
| Multipart.PartsAtIndex | server/upload-song.ts:131 | part k holds the decoded headers and data of span k |
| Multipart.FilenameMatchFrom | server/upload-song.ts:137 | the leftmost index where `filename="([^"]+)"` matches: -1 exactly when it matches nowhere; otherwise a match with none before it |
| Multipart.CapturedName | server/upload-song.ts:137 | the captured group `([^"]+)` is non-empty and has no '"' |
| Multipart.FilenameOf | server/upload-song.ts:137 | no name exactly when the expression matches nowhere; otherwise the name captured by the leftmost match, which is non-empty and has no '"' |
| Multipart.FirstFile | server/upload-song.ts:136-143 | a file found has a non-empty name without '"'; the only failure is "No file found in upload" |
| Multipart.MultipartFile | server/upload-song.ts:112-144 | `parseMultipart` as a value: the first file of the body's parts; `ParseMultipart` and `UploadLocation` state its properties |
| Multipart.ParseMultipart | server/upload-song.ts:112-144 | the result is the first file of the body's parts; its name is non-empty without '"'; the only failure is "No file found in upload" |
| Multipart.CollectParts | server/upload-song.ts:116-134 | the scan loop collects exactly the parts of the body, in body order |
| Multipart.ReadPart | server/upload-song.ts:118-133 | one iteration returns the first part from a delimiter and the next delimiter strictly after it (so the loop ends), or stops when none is left |
| Multipart.FindFile | server/upload-song.ts:136-143 | the loop over the parts returns the first file |
| Multipart.FirstFileIsFirstNamed | server/upload-song.ts:136-143 | failure exactly when no part has a filename; otherwise the upload is the name and data of the first part with one |
| Multipart.UploadLocation | server/upload-song.ts:112-144 | a found file is the first named part of the body; its data is the body between its empty line and two bytes before the next delimiter |
| UploadSong.TrimSlashes | server/upload-song.ts:56 | the path without its trailing slashes |
| UploadSong.BaseName | server/upload-song.ts:56 | the last path component: a suffix of the trimmed path with no '/', preceded by a '/' unless it is the whole trimmed path |
| UploadSong.ExtName | server/upload-song.ts:56 | `extname` is empty or a '.' with no other '.' or '/', strictly shorter than the base name it ends |
| UploadSong.IsMidiName | server/upload-song.ts:56-57 | a name that passes the gate has an extension and a non-empty stem before it |
| UploadSong.ExtNameOfStemAndExtension | server/upload-song.ts:56 | a non-empty stem followed by a '.' and a dot-free, slash-free run has that run as its extension |
| UploadSong.GateAcceptsMidiExtensions | server/upload-song.ts:56-57 | a non-empty stem followed by `.mid`/`.midi` in any case passes the gate |
| UploadSong.GateDecidesOnLastExtension | server/upload-song.ts:56-57 | for a stem and an extension, the gate passes exactly when that last extension lower-cases to `.mid` or `.midi` (`song.mid.txt` is refused) |
| UploadSong.GateRefusesDotFile | server/upload-song.ts:56-62 | a dot-file whose only '.' is its first character (such as `.mid`) has no extension and is refused |
| UploadSong.GateRefusesNoExtension | server/upload-song.ts:56-62 | a name without a '.' has no extension and is refused |
| UploadSong.ExtNameIgnoresTrailingSlash | server/upload-song.ts:56 | a trailing '/' does not change the extension |
| UploadSong.ExtNameIgnoresDirectory | server/upload-song.ts:56 | the directories in front of a file name do not change its extension |
| UploadSong.BoundaryOf | server/upload-song.ts:45-46 | a boundary is non-empty and contains no `boundary=` |
| UploadSong.BoundaryNeedsKey | server/upload-song.ts:45-46 | without `boundary=` there is no boundary |
| UploadSong.BoundaryAfterFirstKey | server/upload-song.ts:45-46 | the boundary is the text after the first `boundary=`, up to the next one or the end; it is missing exactly when that text is empty |
| UploadSong.Received | server/upload-song.ts:40-54 | a multipart content type reads the file from the body ("Missing boundary" without a boundary); otherwise the whole body under `x-filename` or `unknown.mid` |
| UploadSong.Destination | server/upload-song.ts:69-70 | the stored name is this name's own slug, `Slugify(name)`, followed by `.mid`, even for `.midi` uploads; it passes the extension gate exactly when the slug is not empty |
| UploadSong.EntryFor | server/upload-song.ts:82-94 | the entry's id is the stored name and its file is `music/songs/` + that id; it is a built-in song with the given duration; its title is `Title(Slugify(name))`, the capitalised words of the slug (`TitleOfSlug`); the title is four characters shorter than the id and has a space exactly where the id has a hyphen |
| UploadSong.HasId | server/upload-song.ts:86 | `manifest.some((s) => s.id === id)`: some entry has the id; `WithSongKeeps` and `WithSongUnique` state its use |
| UploadSong.WithSong | server/upload-song.ts:85-96 | an existing id leaves the manifest unchanged; otherwise the entry is appended |
| UploadSong.WithSongKeeps | server/upload-song.ts:86-96 | afterwards the id is listed, at most one entry is added, and the earlier entries stay in order |
| UploadSong.WithSongUnique | server/upload-song.ts:86-96 | an update never creates two entries with one id |
| UploadSong.WithSongIdempotent | server/upload-song.ts:86-96 | applying the same update twice equals applying it once |
| UploadSong.Decide | server/upload-song.ts:56-66 | 500 with the message of a failed read or of a failed MIDI parse; 400 with "Only .mid/.midi files are accepted" exactly for a name the gate refuses; the song is stored exactly when the read succeeds, the gate passes and the parse succeeds |
| UploadSong.ResponseFor | server/upload-song.ts:100-108 | a stored song answers 200 with its id, title and duration; a refusal answers its status and message |
| UploadSong.SongLibrary.constructor | server/upload-song.ts:9-11 | the two song folders and the manifest start as given |
| UploadSong.SongLibrary.AddIfAbsent | server/upload-song.ts:85-96 | the manifest becomes `WithSong` of the old one; it reports whether it appended; the folders are untouched |
| UploadSong.SongLibrary.WriteSong | server/upload-song.ts:73-79 | the same bytes are written under the destination name in both folders; the manifest is untouched |
| UploadSong.SongLibrary.ReadUpload | server/upload-song.ts:39-54 | reading the request yields exactly `Received` |
| UploadSong.SongLibrary.HandleUpload | server/upload-song.ts:29-109 | handled exactly for `POST /api/upload`, with the reply for the decision; a stored song updates both folders and the manifest; a refused upload (400 or 500) changes nothing |
| UploadSong.ReuploadKeepsManifest | server/upload-song.ts:86-87 | uploading under the same name again leaves the manifest as the first upload left it, whatever the new duration |

## Left out

- The JSON text of the hello message, the replies and `src/manifest.json` is not modelled. Messages and entries are kept as their fields, and reading or parsing the manifest file cannot fail in the model.
- `toLowerCase` is modelled on ASCII letters only. Only U+0130 and U+212A lower-case into ASCII letters, and neither can make a name contain "through" or an extension become `.mid`/`.midi`.
- The UTF-8 decoding of the part headers (`Buffer.toString`) is a function parameter `decode`, and so is the MIDI parse with `Math.round(midi.duration)` (`durationOf`, whose failure is the thrown error).
- Filesystem calls (`mkdirSync`, `writeFileSync`, `copyFileSync`) are modelled as updates of two in-memory folders, and they cannot fail. `copyFileSync` is modelled as writing the same bytes.
- `collectBody`, the `URL` parsing of the request (the path is an input), the absent content type (an empty string input) and the `'Upload failed'` fallback for an error without a message are not modelled: every error in the model carries its message.
- Logging (`console.log`, `console.warn`, `console.error`), `getLocalIp`, `server.listen`, the `PORT` setting, `server/static-server.ts` and `src/pages/home/page.tsx` are not part of this model.
- The MIDI driver is a list of port names and a log of driver calls. Message elements are bytes, so `Buffer`'s truncation of out-of-range numbers is not modelled.
- The `ws` library's own bookkeeping is not modelled: closed clients stay in the list with state CLOSED, and a failed `send` cannot happen.
- Browser specifics are not modelled: the socket URL from `location`, `binaryType`, and the `midiState` singleton (a log of dispatched actions stands in for it). The only non-`ArrayBuffer` message the server sends is the hello, so it stands for every text message.
- Timers and concurrency: every handler is one atomic step. Real time is not modelled, and neither are interleavings of handlers or of two uploads.
