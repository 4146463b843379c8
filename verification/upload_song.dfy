/**
 * The upload endpoint `POST /api/upload`: it takes a song file from a
 * `multipart/form-data` body or from a raw body named by the `x-filename`
 * header, accepts only `.mid` and `.midi` names, stores the bytes under a
 * slugged name in the public and the build song folders, and adds the song to
 * the manifest unless an entry with that id is already there.
 */
module UploadSong {
  import opened Wrappers
  import opened Text
  import opened Slug
  import opened Multipart

  // ---------------------------------------------------------------------
  // `path.extname` (POSIX)
  // ---------------------------------------------------------------------

  /** `c` does not occur in `s`. */
  predicate Lacks(s: string, c: char) {
    forall i :: 0 <= i < |s| ==> s[i] != c
  }

  /** `path` without its trailing '/' characters. */
  function TrimSlashes(path: string): (r: string)
    ensures |r| <= |path| && r == path[..|r|]
    ensures r == [] || r[|r| - 1] != '/'
    ensures forall i :: |r| <= i < |path| ==> path[i] == '/'
    decreases |path|
  {
    if path != [] && path[|path| - 1] == '/' then TrimSlashes(path[..|path| - 1]) else path
  }

  /** The last component of `path`: what follows its last '/' once the trailing ones are dropped. */
  function BaseName(path: string): (b: string)
    ensures Lacks(b, '/')
    ensures |b| <= |TrimSlashes(path)| && b == TrimSlashes(path)[|TrimSlashes(path)| - |b|..]
    ensures |b| < |TrimSlashes(path)| ==> TrimSlashes(path)[|TrimSlashes(path)| - |b| - 1] == '/'
  {
    var t := TrimSlashes(path);
    t[LastIndex(t, '/') + 1..]
  }

  /**
   * `path.extname(path)`: from the last '.' of the base name to its end. There
   * is none when the base name has no '.', when its only '.' is its first
   * character (a dot-file such as `.mid`), and when it is `..`.
   */
  function ExtName(path: string): (ext: string)
    ensures ext != [] ==> ext[0] == '.' && Lacks(ext[1..], '.') && Lacks(ext, '/')
    ensures ext != [] ==> |ext| < |BaseName(path)| && BaseName(path)[|BaseName(path)| - |ext|..] == ext
  {
    var b := BaseName(path);
    var d := LastIndex(b, '.');
    if d <= 0 || b == ".." then [] else b[d..]
  }

  /** The extension gate: `extname(filename).toLowerCase()` is `.mid` or `.midi`. */
  predicate IsMidiName(name: string)
    ensures IsMidiName(name) ==> ExtName(name) != [] && |ExtName(name)| < |BaseName(name)|
  {
    var ext := ToLower(ExtName(name));
    ext == ".mid" || ext == ".midi"
  }

  /** The last occurrence of `c` is the one no other `c` follows. */
  lemma LastIndexUnique(s: string, c: char, i: int)
    requires 0 <= i < |s| && s[i] == c
    requires forall j :: i < j < |s| ==> s[j] != c
    ensures LastIndex(s, c) == i
  {
  }

  /** A file name without '/' is its own base name. */
  lemma BaseNameOfFile(file: string)
    requires file != [] && Lacks(file, '/')
    ensures BaseName(file) == file
  {
    assert TrimSlashes(file) == file;
  }

  /** A stem without '/' and an extension without '/' form their own base name. */
  lemma StemAndExtensionBaseName(stem: string, ext: string)
    requires stem != [] && Lacks(stem, '/') && Lacks(ext, '/')
    ensures BaseName(stem + ext) == stem + ext
  {
    var name := stem + ext;
    forall i | 0 <= i < |name|
      ensures name[i] != '/'
    {
      if i >= |stem| {
        assert name[i] == ext[i - |stem|];
      }
    }
    BaseNameOfFile(name);
  }

  /** The last '.' of a stem and an extension is the extension's first character. */
  lemma StemAndExtensionLastDot(stem: string, ext: string)
    requires ext != [] && ext[0] == '.' && Lacks(ext[1..], '.')
    ensures LastIndex(stem + ext, '.') == |stem|
  {
    var name := stem + ext;
    assert forall j :: |stem| < j < |name| ==> name[j] == ext[1..][j - |stem| - 1];
    LastIndexUnique(name, '.', |stem|);
  }

  /**
   * A name made of a non-empty stem without '/' and an extension (a '.' and at
   * least one more character, none of them '.' or '/') has that extension.
   */
  lemma ExtNameOfStemAndExtension(stem: string, ext: string)
    requires stem != [] && Lacks(stem, '/')
    requires |ext| >= 2 && ext[0] == '.' && Lacks(ext[1..], '.') && Lacks(ext, '/')
    ensures ExtName(stem + ext) == ext
  {
    StemAndExtensionBaseName(stem, ext);
    StemAndExtensionLastDot(stem, ext);
    assert (stem + ext)[|stem|..] == ext;
  }

  /** Lower-casing maps a '.' or '/' only from itself. */
  lemma ToLowerKeepsPunctuation(s: string)
    ensures |ToLower(s)| == |s|
    ensures forall i :: 0 <= i < |s| ==> (ToLower(s)[i] == '.' <==> s[i] == '.') && (ToLower(s)[i] == '/' <==> s[i] == '/')
  {
  }

  /**
   * Every name made of a non-empty stem without '/' and an extension that
   * lower-cases to `.mid` or `.midi` (`.MID`, `.Midi`, ...) passes the gate.
   */
  lemma GateAcceptsMidiExtensions(stem: string, ext: string)
    requires stem != [] && Lacks(stem, '/')
    requires ToLower(ext) == ".mid" || ToLower(ext) == ".midi"
    ensures IsMidiName(stem + ext)
  {
    ToLowerKeepsPunctuation(ext);
    var low := ToLower(ext);
    assert low[0] == '.';
    assert Lacks(ext[1..], '.') && Lacks(ext, '/') by {
      forall i | 0 <= i < |ext|
        ensures ext[i] != '/' && (i > 0 ==> ext[i] != '.')
      {
        assert low[i] != '/';
        assert i > 0 ==> low[i] != '.';
      }
    }
    ExtNameOfStemAndExtension(stem, ext);
  }

  /**
   * A dot-file (a name starting with its only '.') has no extension, so the
   * gate refuses it, `.mid` included.
   */
  lemma GateRefusesDotFile(name: string)
    requires |name| >= 1 && name[0] == '.' && Lacks(name[1..], '.') && Lacks(name, '/')
    ensures ExtName(name) == [] && !IsMidiName(name)
  {
    BaseNameOfFile(name);
    DotFileLastDot(name);
    assert ExtName(name) == [];
    assert ToLower(ExtName(name)) == [];
  }

  /** In a name starting with its only '.', the last '.' is the first character. */
  lemma DotFileLastDot(name: string)
    requires |name| >= 1 && name[0] == '.' && Lacks(name[1..], '.')
    ensures LastIndex(name, '.') == 0
  {
    assert forall j :: 0 < j < |name| ==> name[j] == name[1..][j - 1];
    LastIndexUnique(name, '.', 0);
  }

  /**
   * For a name made of a stem and an extension, the gate looks at that last
   * extension only: `song.mid.txt` is refused, `notes.txt.MIDI` accepted.
   */
  lemma GateDecidesOnLastExtension(stem: string, ext: string)
    requires stem != [] && Lacks(stem, '/')
    requires |ext| >= 2 && ext[0] == '.' && Lacks(ext[1..], '.') && Lacks(ext, '/')
    ensures IsMidiName(stem + ext) <==> ToLower(ext) == ".mid" || ToLower(ext) == ".midi"
  {
    ExtNameOfStemAndExtension(stem, ext);
  }

  /** A name without a '.' has no extension and is refused. */
  lemma GateRefusesNoExtension(name: string)
    requires Lacks(name, '.')
    ensures ExtName(name) == [] && !IsMidiName(name)
  {
    BaseNameLacks(name, '.');
    assert LastIndex(BaseName(name), '.') == -1;
    assert ExtName(name) == [];
    assert ToLower(ExtName(name)) == [];
  }

  /** A character absent from a path is absent from its base name. */
  lemma BaseNameLacks(path: string, c: char)
    requires Lacks(path, c)
    ensures Lacks(BaseName(path), c)
  {
    var t := TrimSlashes(path);
    InnerSliceLacks(path, t, BaseName(path), c);
  }

  /** A character absent from a string is absent from a suffix of a prefix of it. */
  lemma InnerSliceLacks(s: string, prefix: string, suffix: string, c: char)
    requires Lacks(s, c)
    requires |prefix| <= |s| && prefix == s[..|prefix|]
    requires |suffix| <= |prefix| && suffix == prefix[|prefix| - |suffix|..]
    ensures Lacks(suffix, c)
  {
    forall i | 0 <= i < |suffix|
      ensures suffix[i] != c
    {
      assert suffix[i] == prefix[|prefix| - |suffix| + i] == s[|prefix| - |suffix| + i];
    }
  }

  /** Trailing slashes do not change the extension. */
  lemma ExtNameIgnoresTrailingSlash(path: string)
    ensures ExtName(path + "/") == ExtName(path)
  {
    var slashed := path + "/";
    assert slashed[..|slashed| - 1] == path;
    assert TrimSlashes(slashed) == TrimSlashes(path);
    assert BaseName(slashed) == BaseName(path);
  }

  /** The directories before a file name do not change its extension. */
  lemma ExtNameIgnoresDirectory(dir: string, file: string)
    requires file != [] && Lacks(file, '/')
    ensures ExtName(dir + "/" + file) == ExtName(file)
  {
    BaseNameOfFile(file);
    var path := dir + "/" + file;
    assert forall j :: |dir| < j < |path| ==> path[j] == file[j - |dir| - 1];
    assert TrimSlashes(path) == path;
    LastIndexUnique(path, '/', |dir|);
    assert path[|dir| + 1..] == file;
  }

  // ---------------------------------------------------------------------
  // Where the file comes from
  // ---------------------------------------------------------------------

  const FormDataType := "multipart/form-data"
  const BoundaryKey := "boundary="
  const MissingBoundary := "Missing boundary"
  const DefaultName := "unknown.mid"

  /**
   * `contentType.split('boundary=')[1]`, when it is a non-empty string: the
   * text between the first `boundary=` and the next one (or the end).
   */
  function BoundaryOf(contentType: string): (b: Option<string>)
    ensures b.Some? ==> b.value != [] && !Includes(b.value, BoundaryKey)
  {
    var i := IndexOf(contentType, BoundaryKey, 0);
    if i == -1 then None
    else
      var from := i + |BoundaryKey|;
      var j := IndexOf(contentType, BoundaryKey, from);
      var field := if j == -1 then contentType[from..] else contentType[from..j];
      if field == [] then None
      else
        assert !Includes(field, BoundaryKey) by {
          IndexOfFirst(contentType, BoundaryKey, from);
          var to := if j == -1 then |contentType| else j;
          forall k | 0 <= k
            ensures !OccursAt(field, BoundaryKey, k)
          {
            OccursInSlice(contentType, BoundaryKey, from, to, k);
          }
        }
        Some(field)
  }

  /** An occurrence inside a slice is an occurrence in the whole, shifted by the slice's start. */
  lemma OccursInSlice(hay: string, needle: string, lo: nat, hi: nat, k: int)
    requires lo <= hi <= |hay|
    ensures OccursAt(hay[lo..hi], needle, k) ==> OccursAt(hay, needle, lo + k)
  {
    if OccursAt(hay[lo..hi], needle, k) {
      forall j | 0 <= j < |needle|
        ensures hay[lo + k + j] == needle[j]
      {
        assert hay[lo..hi][k + j] == needle[j];
      }
    }
  }

  /** Without `boundary=` in the header there is no boundary. */
  lemma BoundaryNeedsKey(contentType: string)
    requires forall i :: !OccursAt(contentType, BoundaryKey, i)
    ensures BoundaryOf(contentType) == None
  {
    IndexOfFirst(contentType, BoundaryKey, 0);
  }

  /**
   * The boundary is the text that follows the FIRST `boundary=` of the header
   * (at `i`), up to the next `boundary=` or the end; it is missing exactly when
   * nothing comes before that next one.
   */
  lemma BoundaryAfterFirstKey(contentType: string, i: nat)
    requires OccursAt(contentType, BoundaryKey, i)
    requires forall k :: 0 <= k < i ==> !OccursAt(contentType, BoundaryKey, k)
    ensures BoundaryOf(contentType).None? <==>
      i + |BoundaryKey| == |contentType| || OccursAt(contentType, BoundaryKey, i + |BoundaryKey|)
    ensures BoundaryOf(contentType).Some? ==>
      var b := BoundaryOf(contentType).value;
      && OccursAt(contentType, b, i + |BoundaryKey|)
      && (i + |BoundaryKey| + |b| == |contentType| || OccursAt(contentType, BoundaryKey, i + |BoundaryKey| + |b|))
  {
    IndexOfFirst(contentType, BoundaryKey, 0);
    assert IndexOf(contentType, BoundaryKey, 0) == i;
    var from := i + |BoundaryKey|;
    IndexOfFirst(contentType, BoundaryKey, from);
    var j := IndexOf(contentType, BoundaryKey, from);
    if j == -1 {
      assert !OccursAt(contentType, BoundaryKey, from);
    } else if j == from {
      assert OccursAt(contentType, BoundaryKey, from);
    } else {
      assert !OccursAt(contentType, BoundaryKey, from);
      assert BoundaryOf(contentType) == Some(contentType[from..j]);
    }
  }

  /**
   * The uploaded name and bytes: from the multipart body when the content type
   * mentions `multipart/form-data` (an error when it has no boundary or the
   * body no file); otherwise the whole body, named by `x-filename` or
   * `unknown.mid`.
   */
  function Received(contentType: string, xFilename: Option<string>, body: seq<byte>,
                    decode: seq<byte> -> string): (r: Result<Upload>)
    ensures !Includes(contentType, FormDataType) ==> r == Success(Upload(xFilename.GetOr(DefaultName), body))
    ensures Includes(contentType, FormDataType) && BoundaryOf(contentType).None? ==> r == Failure(MissingBoundary)
    ensures Includes(contentType, FormDataType) && BoundaryOf(contentType).Some? ==>
      r == MultipartFile(body, BoundaryOf(contentType).value, decode)
  {
    if Includes(contentType, FormDataType) then
      match BoundaryOf(contentType)
      case None => Failure(MissingBoundary)
      case Some(boundary) => MultipartFile(body, boundary, decode)
    else Success(Upload(xFilename.GetOr(DefaultName), body))
  }

  // ---------------------------------------------------------------------
  // The manifest
  // ---------------------------------------------------------------------

  /** One song of `src/manifest.json`. */
  datatype SongEntry = SongEntry(file: string, title: string, source: string, id: string, duration: int)

  const SongsFolder := "music/songs/"
  const BuiltinSource := "builtin"

  /**
   * The stored file name: this name's own slug and `.mid`, whatever the
   * upload's extension. It passes the extension gate itself exactly when
   * the slug is not empty; a name without letters or digits is stored as
   * the dot-file `.mid`, which the gate would refuse.
   */
  function Destination(name: string): (dest: string)
    ensures |dest| >= 4 && dest[|dest| - 4..] == ".mid" && IsSlug(dest[..|dest| - 4])
    ensures dest[..|dest| - 4] == Slugify(name)
    ensures IsMidiName(dest) <==> Slugify(name) != []
  {
    var slug := Slugify(name);
    var dest := slug + ".mid";
    SlugDestination(slug, dest);
    dest
  }

  /** A slug followed by `.mid` ends in `.mid`, starts with the slug, and passes the gate unless the slug is empty. */
  lemma SlugDestination(slug: string, dest: string)
    requires IsSlug(slug) && dest == slug + ".mid"
    ensures |dest| >= 4 && dest[|dest| - 4..] == ".mid" && dest[..|dest| - 4] == slug && IsSlug(dest[..|dest| - 4])
    ensures IsMidiName(dest) <==> slug != []
  {
    if slug != [] {
      assert ToLower(".mid") == ".mid";
      GateAcceptsMidiExtensions(slug, ".mid");
    } else {
      assert dest == ".mid";
      GateRefusesDotFile(".mid");
    }
  }

  /**
   * The manifest entry of an upload named `name` lasting `duration` seconds:
   * the stored file in the songs folder, a built-in song, and the title of
   * the slug, which has a space wherever the stored name has a hyphen.
   */
  function EntryFor(name: string, duration: int): (e: SongEntry)
    ensures e.id == Destination(name) && e.file == SongsFolder + e.id
    ensures e.source == BuiltinSource && e.duration == duration
    ensures |e.title| + 4 == |e.id|
    ensures forall i :: 0 <= i < |e.title| ==> (e.title[i] == ' ' <==> e.id[i] == '-')
    ensures e.title == Title(Slugify(name))
  {
    var slug := Slugify(name);
    var dest := Destination(name);
    assert dest == slug + ".mid";
    TitleMatchesDestination(slug);
    SongEntry(SongsFolder + dest, Title(slug), BuiltinSource, dest, duration)
  }

  /** The title of a slug has a space wherever the stored name has a hyphen, and is four characters shorter. */
  lemma TitleMatchesDestination(slug: string)
    requires IsSlug(slug)
    ensures |Title(slug)| + 4 == |slug + ".mid"|
    ensures forall i :: 0 <= i < |Title(slug)| ==> (Title(slug)[i] == ' ' <==> (slug + ".mid")[i] == '-')
  {
    TitleOfSlug(slug);
    assert forall i :: 0 <= i < |slug| ==> (slug + ".mid")[i] == slug[i];
  }

  /** `manifest.some((s) => s.id === id)`. */
  predicate HasId(manifest: seq<SongEntry>, id: string) {
    exists k :: 0 <= k < |manifest| && manifest[k].id == id
  }

  /** No two entries share an id. */
  predicate UniqueIds(manifest: seq<SongEntry>) {
    forall j, k :: 0 <= j < k < |manifest| ==> manifest[j].id != manifest[k].id
  }

  /**
   * The manifest after the upload of `e`: unchanged when an entry already has
   * `e`'s id (an earlier title and duration are kept), otherwise `e` appended.
   */
  function WithSong(manifest: seq<SongEntry>, e: SongEntry): (r: seq<SongEntry>)
    ensures HasId(manifest, e.id) ==> r == manifest
    ensures !HasId(manifest, e.id) ==> r == manifest + [e]
  {
    if HasId(manifest, e.id) then manifest else manifest + [e]
  }

  /** After the upload the id is in the manifest, and the entries that were there stay, in order. */
  lemma WithSongKeeps(manifest: seq<SongEntry>, e: SongEntry)
    ensures HasId(WithSong(manifest, e), e.id)
    ensures |WithSong(manifest, e)| <= |manifest| + 1
    ensures WithSong(manifest, e)[..|manifest|] == manifest
  {
    if !HasId(manifest, e.id) {
      assert (manifest + [e])[|manifest|].id == e.id;
    }
  }

  /** Adding a song never creates a second entry with one id. */
  lemma WithSongUnique(manifest: seq<SongEntry>, e: SongEntry)
    requires UniqueIds(manifest)
    ensures UniqueIds(WithSong(manifest, e))
  {
    var r := WithSong(manifest, e);
    if !HasId(manifest, e.id) {
      forall j, k | 0 <= j < k < |r|
        ensures r[j].id != r[k].id
      {
        if k == |manifest| {
          assert r[j] == manifest[j];
        }
      }
    }
  }

  /** Uploading the same entry again leaves the manifest as the first upload left it. */
  lemma WithSongIdempotent(manifest: seq<SongEntry>, e: SongEntry)
    ensures WithSong(WithSong(manifest, e), e) == WithSong(manifest, e)
  {
    WithSongKeeps(manifest, e);
  }

  // ---------------------------------------------------------------------
  // The handler
  // ---------------------------------------------------------------------

  const UploadPath := "/api/upload"
  const OnlyMidiError := "Only .mid/.midi files are accepted"

  /** The JSON body of the reply. */
  datatype Reply = ErrorReply(error: string) | Saved(id: string, title: string, duration: int)

  datatype Response = Response(status: int, reply: Reply)

  /** What the handler decides for what it received: an error status and message, or a song to store. */
  datatype Decision = Refuse(status: int, message: string) | Store(upload: Upload, duration: int)

  /**
   * The decision: 500 with the message of a failed read or a failed MIDI
   * parse, 400 for a name the extension gate refuses (checked before the
   * parse), otherwise store the upload with its duration. `durationOf` is the
   * MIDI parse and `Math.round(midi.duration)`.
   */
  function Decide(received: Result<Upload>, durationOf: seq<byte> -> Result<int>): (d: Decision)
    ensures d.Refuse? ==> d.status == 500 || d.status == 400
    ensures d.Refuse? && d.status == 400 <==> received.Success? && !IsMidiName(received.value.name)
    ensures d.Store? <==> received.Success? && IsMidiName(received.value.name) && durationOf(received.value.data).Success?
    ensures d.Store? ==> d.upload == received.value && d.duration == durationOf(received.value.data).value
    ensures received.Failure? ==> d == Refuse(500, received.error)
    ensures d.Refuse? && d.status == 400 ==> d.message == OnlyMidiError
    ensures received.Success? && IsMidiName(received.value.name) && durationOf(received.value.data).Failure? ==>
      d == Refuse(500, durationOf(received.value.data).error)
  {
    match received
    case Failure(message) => Refuse(500, message)
    case Success(upload) =>
      if !IsMidiName(upload.name) then Refuse(400, OnlyMidiError)
      else match durationOf(upload.data)
        case Failure(message) => Refuse(500, message)
        case Success(duration) => Store(upload, duration)
  }

  /** The reply sent for a decision. */
  function ResponseFor(d: Decision): (r: Response)
    ensures d.Store? ==> r.status == 200
    ensures d.Store? ==> r.reply == Saved(Destination(d.upload.name), Title(Slugify(d.upload.name)), d.duration)
    ensures d.Refuse? ==> r == Response(d.status, ErrorReply(d.message))
  {
    match d
    case Refuse(status, message) => Response(status, ErrorReply(message))
    case Store(upload, duration) => Response(200, Saved(Destination(upload.name), Title(Slugify(upload.name)), duration))
  }

  /**
   * The song folders and the manifest the endpoint writes: `publicSongs` is
   * `public/music/songs`, `buildSongs` is `build/client/music/songs`, both
   * keyed by file name.
   */
  class SongLibrary {
    var publicSongs: map<string, seq<byte>>
    var buildSongs: map<string, seq<byte>>
    var manifest: seq<SongEntry>

    constructor(publicSongs: map<string, seq<byte>>, buildSongs: map<string, seq<byte>>, manifest: seq<SongEntry>)
      ensures this.publicSongs == publicSongs && this.buildSongs == buildSongs && this.manifest == manifest
    {
      this.publicSongs := publicSongs;
      this.buildSongs := buildSongs;
      this.manifest := manifest;
    }

    /** The manifest step: append `e` unless its id is already listed. */
    method AddIfAbsent(e: SongEntry) returns (added: bool)
      modifies this
      ensures added <==> !HasId(old(manifest), e.id)
      ensures manifest == WithSong(old(manifest), e)
      ensures publicSongs == old(publicSongs) && buildSongs == old(buildSongs)
    {
      var alreadyExists := HasId(manifest, e.id);
      if !alreadyExists {
        manifest := manifest + [e];
      }
      added := !alreadyExists;
    }

    /** Write the song's bytes to the public and the build song folders. */
    method WriteSong(dest: string, data: seq<byte>)
      modifies this
      ensures publicSongs == old(publicSongs)[dest := data] && buildSongs == old(buildSongs)[dest := data]
      ensures manifest == old(manifest)
    {
      publicSongs := publicSongs[dest := data];
      buildSongs := buildSongs[dest := data];
    }

    /**
     * The first half of `handleUploadRequest`: the file from the multipart body
     * when the content type says `multipart/form-data`, the raw body otherwise.
     */
    method ReadUpload(contentType: string, xFilename: Option<string>, body: seq<byte>,
                      decode: seq<byte> -> string) returns (r: Result<Upload>)
      ensures r == Received(contentType, xFilename, body, decode)
    {
      if Includes(contentType, FormDataType) {
        var boundary := BoundaryOf(contentType);
        if boundary.None? {
          return Failure(MissingBoundary);
        }
        r := ParseMultipart(body, boundary.value, decode);
      } else {
        r := Success(Upload(xFilename.GetOr(DefaultName), body));
      }
    }

    /**
     * `handleUploadRequest`: nothing (the request is not handled) unless it is
     * a `POST` to `/api/upload`; otherwise the response of `Decide`, and, when
     * the song is stored, its bytes written to both folders under its
     * destination name and the manifest updated by `WithSong`. A refused upload
     * changes nothing.
     */
    method HandleUpload(pathname: string, httpMethod: string, contentType: string, xFilename: Option<string>,
                        body: seq<byte>, decode: seq<byte> -> string, durationOf: seq<byte> -> Result<int>)
      returns (response: Option<Response>)
      modifies this
      ensures response.None? <==> pathname != UploadPath || httpMethod != "POST"
      ensures response.Some? ==>
        response.value == ResponseFor(Decide(Received(contentType, xFilename, body, decode), durationOf))
      ensures var d := Decide(Received(contentType, xFilename, body, decode), durationOf);
        if response.Some? && d.Store? then
          var dest := Destination(d.upload.name);
          && publicSongs == old(publicSongs)[dest := d.upload.data]
          && buildSongs == old(buildSongs)[dest := d.upload.data]
          && manifest == WithSong(old(manifest), EntryFor(d.upload.name, d.duration))
        else
          publicSongs == old(publicSongs) && buildSongs == old(buildSongs) && manifest == old(manifest)
    {
      if pathname != UploadPath || httpMethod != "POST" {
        return None;
      }
      var received := ReadUpload(contentType, xFilename, body, decode);
      if received.Failure? {
        assert Decide(received, durationOf) == Refuse(500, received.error);
        return Some(Response(500, ErrorReply(received.error)));
      }
      var filename := received.value.name;
      var fileBytes := received.value.data;
      if !IsMidiName(filename) {
        assert Decide(received, durationOf) == Refuse(400, OnlyMidiError);
        return Some(Response(400, ErrorReply(OnlyMidiError)));
      }
      var parsed := durationOf(fileBytes);
      if parsed.Failure? {
        assert Decide(received, durationOf) == Refuse(500, parsed.error);
        return Some(Response(500, ErrorReply(parsed.error)));
      }
      var duration := parsed.value;
      assert Decide(received, durationOf) == Store(received.value, duration);
      var slug := Slugify(filename);
      var destFilename := slug + ".mid";
      WriteSong(destFilename, fileBytes);
      var title := Title(slug);
      var entry := SongEntry(SongsFolder + destFilename, title, BuiltinSource, destFilename, duration);
      assert entry == EntryFor(filename, duration);
      var _ := AddIfAbsent(entry);
      response := Some(Response(200, Saved(destFilename, title, duration)));
    }
  }

  /**
   * Uploading a song under the same name again, whatever its new duration,
   * leaves the manifest as the first upload left it.
   */
  lemma ReuploadKeepsManifest(manifest: seq<SongEntry>, name: string, duration1: int, duration2: int)
    ensures var m1 := WithSong(manifest, EntryFor(name, duration1));
      WithSong(m1, EntryFor(name, duration2)) == m1
  {
    WithSongKeeps(manifest, EntryFor(name, duration1));
  }
}
