/**
 * `parseMultipart`: the scanner that finds the uploaded file in a
 * `multipart/form-data` body. The body is cut at each occurrence of the
 * delimiter `--` + boundary (section 5.1.1 of RFC 2046); each part is headers,
 * an empty line and data; the file is the first part whose headers carry a
 * `filename="..."` parameter (section 4.2 of RFC 7578).
 */
module Multipart {
  import opened Wrappers
  import opened Text

  /** The UTF-8 encoding of one character. */
  function Utf8Char(c: char): (b: seq<byte>)
    ensures 1 <= |b| <= 4
    ensures |b| == 1 <==> c as int < 0x80
  {
    var n := c as int;
    if n < 0x80 then [n]
    else if n < 0x800 then [0xC0 + n / 0x40, 0x80 + n % 0x40]
    else if n < 0x10000 then [0xE0 + n / 0x1000, 0x80 + (n / 0x40) % 0x40, 0x80 + n % 0x40]
    else [0xF0 + n / 0x40000, 0x80 + (n / 0x1000) % 0x40, 0x80 + (n / 0x40) % 0x40, 0x80 + n % 0x40]
  }

  /** `Buffer.from(s)`: the UTF-8 encoding of `s`. */
  function Utf8(s: string): (b: seq<byte>)
    ensures |s| <= |b| <= 4 * |s|
    ensures |b| == |s| <==> forall i :: 0 <= i < |s| ==> s[i] as int < 0x80
    ensures |b| == |s| ==> forall i :: 0 <= i < |s| ==> b[i] == s[i] as int
    decreases |s|
  {
    if s == [] then []
    else
      var rest := Utf8(s[1..]);
      assert forall i :: 1 <= i < |s| ==> s[1..][i - 1] == s[i];
      Utf8Char(s[0]) + rest
  }

  /** `Buffer.from(`--${boundary}`)`: two hyphens (0x2D) and the boundary. */
  function Delimiter(boundary: string): (d: seq<byte>)
    ensures |d| >= 2 && d[0] == d[1] == 0x2D
  {
    [0x2D, 0x2D] + Utf8(boundary)
  }

  /** `'\r\n\r\n'`, the empty line that ends a part's headers. */
  const HeaderEnd: seq<byte> := [0x0D, 0x0A, 0x0D, 0x0A]

  /**
   * Where one part lies in the body: its headers are
   * `body[headerStart..headerEnd]`, then come `\r\n\r\n` and the data, and the
   * next delimiter starts at `next`.
   */
  datatype Span = Span(headerStart: nat, headerEnd: nat, next: nat)

  /**
   * `sp` is a part the scanner can find: its headers end at the first
   * `\r\n\r\n` after `headerStart`, and `next` is the first delimiter after
   * that empty line.
   */
  ghost predicate ValidSpan(body: seq<byte>, delim: seq<byte>, sp: Span) {
    && InBody(body, sp)
    && OccursAt(body, HeaderEnd, sp.headerEnd)
    && (forall i :: sp.headerStart <= i < sp.headerEnd ==> !OccursAt(body, HeaderEnd, i))
    && sp.headerEnd + 4 <= sp.next
    && OccursAt(body, delim, sp.next)
    && (forall i :: sp.headerEnd + 4 <= i < sp.next ==> !OccursAt(body, delim, i))
  }

  /** The headers, the empty line and the data of `sp` lie inside the body, in that order. */
  predicate InBody(body: seq<byte>, sp: Span) {
    sp.headerStart <= sp.headerEnd && sp.headerEnd + 4 <= sp.next <= |body|
  }

  /** Where the headers begin after the delimiter at `at`: past the delimiter and, if present, the `\r\n` after it. */
  function HeaderStart(body: seq<byte>, delim: seq<byte>, at: nat): (s: nat)
    ensures s == if OccursAt(body, [0x0D, 0x0A], at + |delim|) then at + |delim| + 2 else at + |delim|
  {
    var start := at + |delim|;
    var crlf: seq<byte> := [0x0D, 0x0A];
    assert start + 1 < |body| && body[start] == 0x0D && body[start + 1] == 0x0A ==> OccursAt(body, crlf, start) by {
      if start + 1 < |body| && body[start] == 0x0D && body[start + 1] == 0x0A {
        assert forall j :: 0 <= j < 2 ==> body[start + j] == crlf[j];
      }
    }
    assert OccursAt(body, crlf, start) ==> body[start + 0] == crlf[0] && body[start + 1] == crlf[1];
    if start + 1 < |body| && body[start] == 0x0D && body[start + 1] == 0x0A then start + 2 else start
  }

  /** Part `k` starts right after the delimiter that ends part `k - 1`. */
  predicate Chained(body: seq<byte>, delim: seq<byte>, spans: seq<Span>, k: nat)
    requires 0 < k < |spans|
  {
    spans[k].headerStart == HeaderStart(body, delim, spans[k - 1].next)
  }

  /** The parts found from the delimiter at `at` on, in body order. */
  function SpansFrom(body: seq<byte>, delim: seq<byte>, at: nat): (spans: seq<Span>)
    requires |delim| > 0 && OccursAt(body, delim, at)
    decreases |body| - at
  {
    var start := HeaderStart(body, delim, at);
    var headerEnd := IndexOf(body, HeaderEnd, start);
    if headerEnd == -1 then []
    else
      var next := IndexOf(body, delim, headerEnd + 4);
      if next == -1 then []
      else [Span(start, headerEnd, next)] + SpansFrom(body, delim, next)
  }

  /** The parts of `body`, in body order; none when the delimiter never occurs. */
  function Spans(body: seq<byte>, delim: seq<byte>): (spans: seq<Span>)
    requires |delim| > 0
  {
    var first := IndexOf(body, delim, 0);
    if first == -1 then [] else SpansFrom(body, delim, first)
  }

  /** A part found by the two searches of one scan step is a `ValidSpan`. */
  lemma FoundSpanValid(body: seq<byte>, delim: seq<byte>, s: nat, h: int, n: int)
    requires |delim| > 0
    requires h == IndexOf(body, HeaderEnd, s) && h != -1
    requires n == IndexOf(body, delim, h + 4) && n != -1
    ensures ValidSpan(body, delim, Span(s, h, n))
  {
    IndexOfFirst(body, HeaderEnd, s);
    IndexOfFirst(body, delim, h + 4);
  }

  /** Every part the scan finds from the delimiter at `at` on is a `ValidSpan`. */
  lemma {:induction false} SpansFromValid(body: seq<byte>, delim: seq<byte>, at: nat)
    requires |delim| > 0 && OccursAt(body, delim, at)
    ensures forall k :: 0 <= k < |SpansFrom(body, delim, at)| ==> ValidSpan(body, delim, SpansFrom(body, delim, at)[k])
    decreases |body| - at
  {
    var start := HeaderStart(body, delim, at);
    var headerEnd := IndexOf(body, HeaderEnd, start);
    var next := if headerEnd == -1 then -1 else IndexOf(body, delim, headerEnd + 4);
    SpansFromStep(body, delim, at, start, headerEnd, next);
    if headerEnd != -1 && next != -1 {
      var sp := Span(start, headerEnd, next);
      var rest := SpansFrom(body, delim, next);
      FoundSpanValid(body, delim, start, headerEnd, next);
      SpansFromValid(body, delim, next);
      ValidSpansCons(body, delim, sp, rest);
    }
  }

  /** A valid part in front of valid parts gives valid parts. */
  lemma ValidSpansCons(body: seq<byte>, delim: seq<byte>, sp: Span, rest: seq<Span>)
    requires ValidSpan(body, delim, sp)
    requires forall k :: 0 <= k < |rest| ==> ValidSpan(body, delim, rest[k])
    ensures forall k :: 0 <= k < |[sp] + rest| ==> ValidSpan(body, delim, ([sp] + rest)[k])
  {
    forall k | 0 <= k < |[sp] + rest|
      ensures ValidSpan(body, delim, ([sp] + rest)[k])
    {
      if k > 0 {
        assert ([sp] + rest)[k] == rest[k - 1];
      }
    }
  }


  /**
   * The parts found from the delimiter at `at` on follow each other: the first
   * starts right after that delimiter, each later one right after the
   * delimiter that ends the one before.
   */
  lemma {:induction false} SpansFromChained(body: seq<byte>, delim: seq<byte>, at: nat)
    requires |delim| > 0 && OccursAt(body, delim, at)
    ensures |SpansFrom(body, delim, at)| > 0 ==> SpansFrom(body, delim, at)[0].headerStart == HeaderStart(body, delim, at)
    ensures forall k :: 0 < k < |SpansFrom(body, delim, at)| ==> Chained(body, delim, SpansFrom(body, delim, at), k)
    decreases |body| - at
  {
    var start := HeaderStart(body, delim, at);
    var headerEnd := IndexOf(body, HeaderEnd, start);
    if headerEnd != -1 {
      var next := IndexOf(body, delim, headerEnd + 4);
      if next != -1 {
        var spans := SpansFrom(body, delim, at);
        var rest := SpansFrom(body, delim, next);
        SpansFromStep(body, delim, at, start, headerEnd, next);
        assert spans == [Span(start, headerEnd, next)] + rest;
        SpansFromChained(body, delim, next);
        ChainedCons(body, delim, Span(start, headerEnd, next), rest);
      }
    }
  }

  /** A part followed by a chain that starts right after its closing delimiter is a chain. */
  lemma ChainedCons(body: seq<byte>, delim: seq<byte>, sp: Span, rest: seq<Span>)
    requires |rest| > 0 ==> rest[0].headerStart == HeaderStart(body, delim, sp.next)
    requires forall k :: 0 < k < |rest| ==> Chained(body, delim, rest, k)
    ensures forall k :: 0 < k < |[sp] + rest| ==> Chained(body, delim, [sp] + rest, k)
  {
    var spans := [sp] + rest;
    forall k | 0 < k < |spans|
      ensures Chained(body, delim, spans, k)
    {
      assert spans[k] == rest[k - 1];
      if k > 1 {
        assert spans[k - 1] == rest[k - 2];
        assert Chained(body, delim, rest, k - 1);
      }
    }
  }

  /** The parts of the body, read in order: each is valid, the first follows the first delimiter, each later one the delimiter ending the one before. */
  lemma SpansValid(body: seq<byte>, delim: seq<byte>)
    requires |delim| > 0
    ensures forall k :: 0 <= k < |Spans(body, delim)| ==> ValidSpan(body, delim, Spans(body, delim)[k])
    ensures |Spans(body, delim)| > 0 ==>
      var first := IndexOf(body, delim, 0);
      && first >= 0
      && (forall i :: 0 <= i < first ==> !OccursAt(body, delim, i))
      && Spans(body, delim)[0].headerStart == HeaderStart(body, delim, first)
    ensures forall k :: 0 < k < |Spans(body, delim)| ==> Chained(body, delim, Spans(body, delim), k)
  {
    var first := IndexOf(body, delim, 0);
    IndexOfFirst(body, delim, 0);
    if first != -1 {
      SpansFromValid(body, delim, first);
      SpansFromChained(body, delim, first);
    }
  }

  /**
   * One step of the scan. After the delimiter at `at`, the headers begin at
   * `s`, the first empty line after them is at `h` and the first delimiter
   * after that at `n` (-1: not found): the scan stops there when either is
   * missing, and otherwise finds that part and goes on from `n`.
   */
  lemma SpansFromStep(body: seq<byte>, delim: seq<byte>, at: nat, s: nat, h: int, n: int)
    requires |delim| > 0 && OccursAt(body, delim, at)
    requires s == HeaderStart(body, delim, at) && h == IndexOf(body, HeaderEnd, s)
    requires h != -1 ==> n == IndexOf(body, delim, h + 4)
    ensures h == -1 || n == -1 ==> SpansFrom(body, delim, at) == []
    ensures h != -1 && n != -1 ==>
      && OccursAt(body, delim, n)
      && InBody(body, Span(s, h, n))
      && SpansFrom(body, delim, at) == [Span(s, h, n)] + SpansFrom(body, delim, n)
  {
    if h != -1 && n != -1 {
      assert OccursAt(body, delim, n);
      assert SpansFrom(body, delim, at) == [Span(s, h, n)] + SpansFrom(body, delim, n);
    }
  }


  /**
   * `body.subarray(from, to)`: a negative end counts from the end of the body,
   * both ends are clamped to the body, and an end before the start gives no
   * bytes.
   */
  function Slice(body: seq<byte>, from: nat, to: int): (s: seq<byte>)
    ensures from <= to <= |body| ==> s == body[from..to]
    ensures 0 <= to <= from ==> s == []
  {
    var lo := if from < |body| then from else |body|;
    var hi := if to < 0 then (if |body| + to < 0 then 0 else |body| + to) else if to < |body| then to else |body|;
    if hi <= lo then [] else body[lo..hi]
  }

  /** A part: its headers decoded to text, and its data. */
  datatype Part = Part(headers: string, data: seq<byte>)

  /** The part at `sp`: the data runs from after the empty line to two bytes before the next delimiter. */
  function PartAt(body: seq<byte>, sp: Span, decode: seq<byte> -> string): (p: Part)
    ensures InBody(body, sp) ==> p.headers == decode(body[sp.headerStart..sp.headerEnd])
    ensures InBody(body, sp) && sp.headerEnd + 6 <= sp.next ==> p.data == body[sp.headerEnd + 4..sp.next - 2]
    ensures InBody(body, sp) && sp.next < sp.headerEnd + 6 ==> p.data == []
  {
    Part(decode(Slice(body, sp.headerStart, sp.headerEnd)), Slice(body, sp.headerEnd + 4, sp.next - 2))
  }

  /** The parts at `spans`, in the same order. */
  function PartsAt(body: seq<byte>, spans: seq<Span>, decode: seq<byte> -> string): (parts: seq<Part>)
    ensures |parts| == |spans|
  {
    if spans == [] then [] else [PartAt(body, spans[0], decode)] + PartsAt(body, spans[1..], decode)
  }

  /** Part `k` of `PartsAt` is the part at span `k`. */
  lemma {:induction false} PartsAtIndex(body: seq<byte>, spans: seq<Span>, decode: seq<byte> -> string)
    ensures forall k :: 0 <= k < |spans| ==> PartsAt(body, spans, decode)[k] == PartAt(body, spans[k], decode)
    decreases |spans|
  {
    if spans != [] {
      PartsAtIndex(body, spans[1..], decode);
      forall k | 0 < k < |spans|
        ensures PartsAt(body, spans, decode)[k] == PartAt(body, spans[k], decode)
      {
        assert spans[1..][k - 1] == spans[k];
      }
    }
  }

  /** The text `filename="` that opens the parameter. */
  const FilenameKey := "filename=\""

  /** The regular expression `filename="([^"]+)"` matches at `p`: the key, at least one character other than '"', then '"'. */
  predicate FilenameMatchAt(h: string, p: nat) {
    OccursAt(h, FilenameKey, p) && IndexOf(h, "\"", p + |FilenameKey|) > p + |FilenameKey|
  }

  /** The leftmost index at or after `from` where the expression matches, or -1 when it matches nowhere there. */
  function FilenameMatchFrom(h: string, from: nat): (p: int)
    ensures p == -1 <==> forall q :: from <= q ==> !FilenameMatchAt(h, q)
    ensures p != -1 ==> from <= p && FilenameMatchAt(h, p)
    ensures p != -1 ==> forall q :: from <= q < p ==> !FilenameMatchAt(h, q)
    decreases |h| - from
  {
    if |h| < from + |FilenameKey| then -1
    else if FilenameMatchAt(h, from) then from
    else FilenameMatchFrom(h, from + 1)
  }

  /** The group `([^"]+)` of the match at `p`: one or more characters, none of them '"'. */
  function CapturedName(h: string, p: nat): (name: string)
    requires FilenameMatchAt(h, p)
    ensures |name| > 0 && '"' !in name
  {
    var q := IndexOf(h, "\"", p + |FilenameKey|);
    var name := h[p + |FilenameKey|..q];
    assert forall i :: 0 <= i < |name| ==> name[i] != '"' by {
      forall i | 0 <= i < |name|
        ensures name[i] != '"'
      {
        IndexOfFirst(h, "\"", p + |FilenameKey|);
        assert !OccursAt(h, "\"", p + |FilenameKey| + i);
        assert h[p + |FilenameKey| + i..p + |FilenameKey| + i + 1] == [name[i]];
      }
    }
    name
  }

  /**
   * `part.headers.match(/filename="([^"]+)"/)`: no name when the expression
   * matches nowhere, otherwise the name captured by the leftmost match.
   */
  function FilenameOf(h: string): (name: Option<string>)
    ensures name.None? <==> forall p :: 0 <= p ==> !FilenameMatchAt(h, p)
    ensures name.Some? ==> |name.value| > 0 && '"' !in name.value
    ensures name.Some? ==> exists p: nat :: (FilenameMatchAt(h, p) && (forall q :: 0 <= q < p ==> !FilenameMatchAt(h, q)) &&
      name.value == h[p + |FilenameKey|..IndexOf(h, "\"", p + |FilenameKey|)])
  {
    var p := FilenameMatchFrom(h, 0);
    if p == -1 then None else Some(CapturedName(h, p))
  }

  /** The uploaded file: its name and its bytes. */
  datatype Upload = Upload(name: string, data: seq<byte>)

  const NoFileError := "No file found in upload"

  /** The first part whose headers carry a file name, as the upload; otherwise the error. */
  function FirstFile(parts: seq<Part>): (r: Result<Upload>)
    ensures r.Success? ==> |r.value.name| > 0 && '"' !in r.value.name
    ensures r.Failure? ==> r.error == NoFileError
    decreases |parts|
  {
    if parts == [] then Failure(NoFileError)
    else match FilenameOf(parts[0].headers)
      case Some(name) => Success(Upload(name, parts[0].data))
      case None => FirstFile(parts[1..])
  }

  /** What `parseMultipart(body, boundary)` returns or throws. */
  function MultipartFile(body: seq<byte>, boundary: string, decode: seq<byte> -> string): Result<Upload> {
    var delim := Delimiter(boundary);
    FirstFile(PartsAt(body, Spans(body, delim), decode))
  }

  /**
   * `parseMultipart`: collect the parts in one scan of the body, then return
   * the first one with a file name. `decode` is `Buffer.toString()`, the UTF-8
   * decoding of the header bytes.
   */
  method ParseMultipart(body: seq<byte>, boundary: string, decode: seq<byte> -> string) returns (r: Result<Upload>)
    ensures r == MultipartFile(body, boundary, decode)
    ensures r.Success? ==> |r.value.name| > 0 && '"' !in r.value.name
    ensures r.Failure? ==> r.error == NoFileError
  {
    var delim := Delimiter(boundary);
    var parts := CollectParts(body, delim, decode);
    r := FindFile(parts);
  }

  /**
   * The scan loop of `parseMultipart`: from each delimiter, read one part and
   * move on to the delimiter that ends it, until a part is incomplete.
   */
  method CollectParts(body: seq<byte>, delim: seq<byte>, decode: seq<byte> -> string) returns (parts: seq<Part>)
    requires |delim| > 0
    ensures parts == PartsAt(body, Spans(body, delim), decode)
  {
    ghost var all := PartsAt(body, Spans(body, delim), decode);
    ghost var rest := Spans(body, delim);
    parts := [];
    var start := IndexOf(body, delim, 0);
    while start != -1
      invariant -1 <= start <= |body|
      invariant start != -1 ==> OccursAt(body, delim, start) && rest == SpansFrom(body, delim, start)
      invariant start == -1 ==> rest == []
      invariant parts + PartsAt(body, rest, decode) == all
      decreases |body| + 1 - start
    {
      var part, next := ReadPart(body, delim, decode, start);
      if part.None? {
        rest := [];
        break;
      }
      TakeFirstPart(body, rest, decode, parts, part.value, all);
      parts := parts + [part.value];
      rest := rest[1..];
      start := next;
    }
    assert parts + [] == parts;
  }


  /** Moving the first part read from the spans still to read onto the parts collected keeps the whole. */
  lemma TakeFirstPart(body: seq<byte>, rest: seq<Span>, decode: seq<byte> -> string, parts: seq<Part>, p: Part, all: seq<Part>)
    requires rest != [] && p == PartAt(body, rest[0], decode)
    requires parts + PartsAt(body, rest, decode) == all
    ensures (parts + [p]) + PartsAt(body, rest[1..], decode) == all
  {
    assert PartsAt(body, rest, decode) == [p] + PartsAt(body, rest[1..], decode);
  }

  /**
   * One iteration of the scan loop, from the delimiter at `at`: skip the
   * delimiter and an optional `\r\n`, read the headers up to the empty line
   * and the data up to the next delimiter. No part when either is missing.
   */
  method ReadPart(body: seq<byte>, delim: seq<byte>, decode: seq<byte> -> string, at: nat)
    returns (part: Option<Part>, next: int)
    requires |delim| > 0 && OccursAt(body, delim, at)
    ensures part.None? <==> SpansFrom(body, delim, at) == []
    ensures part.Some? ==>
      && at < next <= |body|
      && OccursAt(body, delim, next)
      && SpansFrom(body, delim, at)[1..] == SpansFrom(body, delim, next)
      && part.value == PartAt(body, SpansFrom(body, delim, at)[0], decode)
  {
    var start := HeaderStart(body, delim, at);
    var headerEnd := IndexOf(body, HeaderEnd, start);
    if headerEnd == -1 {
      SpansFromStep(body, delim, at, start, headerEnd, -1);
      return None, -1;
    }
    var headers := decode(Slice(body, start, headerEnd));
    var dataStart := headerEnd + 4;
    var nextBoundary := IndexOf(body, delim, dataStart);
    SpansFromStep(body, delim, at, start, headerEnd, nextBoundary);
    if nextBoundary == -1 {
      return None, -1;
    }
    var dataEnd := nextBoundary - 2;
    part := Some(Part(headers, Slice(body, dataStart, dataEnd)));
    next := nextBoundary;
    NextPart(body, delim, at, start, headerEnd, nextBoundary);
    PartAtSpan(body, start, headerEnd, nextBoundary, decode);
  }

  /** The part at a span: the decoded headers, then the data up to two bytes before the delimiter. */
  lemma PartAtSpan(body: seq<byte>, s: nat, h: nat, n: nat, decode: seq<byte> -> string)
    ensures PartAt(body, Span(s, h, n), decode) == Part(decode(Slice(body, s, h)), Slice(body, h + 4, n - 2))
  {
  }

  /** When both searches of a step succeed, the step's part comes first and the scan goes on from the delimiter found. */
  lemma NextPart(body: seq<byte>, delim: seq<byte>, at: nat, s: nat, h: int, n: int)
    requires |delim| > 0 && OccursAt(body, delim, at)
    requires s == HeaderStart(body, delim, at) && h == IndexOf(body, HeaderEnd, s) && h != -1
    requires n == IndexOf(body, delim, h + 4) && n != -1
    ensures at < n <= |body| && OccursAt(body, delim, n)
    ensures SpansFrom(body, delim, at) != [] && SpansFrom(body, delim, at)[0] == Span(s, h, n)
    ensures SpansFrom(body, delim, at)[1..] == SpansFrom(body, delim, n)
  {
    SpansFromStep(body, delim, at, s, h, n);
    var rest := SpansFrom(body, delim, n);
    assert ([Span(s, h, n)] + rest)[1..] == rest;
  }

  /** The `for (const part of parts)` loop: the first part with a file name. */
  method FindFile(parts: seq<Part>) returns (r: Result<Upload>)
    ensures r == FirstFile(parts)
  {
    for i := 0 to |parts|
      invariant FirstFile(parts) == FirstFile(parts[i..])
    {
      var m := FilenameOf(parts[i].headers);
      if m.Some? {
        return Success(Upload(m.value, parts[i].data));
      }
      assert parts[i..][1..] == parts[i + 1..];
    }
    return Failure(NoFileError);
  }

  /** Part `k` is the first part whose headers carry a file name. */
  predicate FirstNamedAt(parts: seq<Part>, k: int) {
    && 0 <= k < |parts|
    && FilenameOf(parts[k].headers).Some?
    && forall j :: 0 <= j < k ==> FilenameOf(parts[j].headers).None?
  }

  /**
   * The upload is the first part with a file name, under that name and with
   * that part's data; the error comes exactly when no part has a file name.
   */
  lemma {:induction false} FirstFileIsFirstNamed(parts: seq<Part>)
    ensures FirstFile(parts).Failure? <==> forall k :: 0 <= k < |parts| ==> FilenameOf(parts[k].headers).None?
    ensures FirstFile(parts).Success? ==> exists k ::
      && FirstNamedAt(parts, k)
      && FirstFile(parts).value == Upload(FilenameOf(parts[k].headers).value, parts[k].data)
    decreases |parts|
  {
    if parts != [] {
      if FilenameOf(parts[0].headers).Some? {
        assert FirstNamedAt(parts, 0);
      } else {
        var tail := parts[1..];
        FirstFileIsFirstNamed(tail);
        forall k | 0 < k < |parts|
          ensures parts[k] == tail[k - 1]
        {
        }
        if FirstFile(tail).Success? {
          var k :| FirstNamedAt(tail, k) && FirstFile(tail).value == Upload(FilenameOf(tail[k].headers).value, tail[k].data);
          assert FirstNamedAt(parts, k + 1);
        }
      }
    }
  }

  /**
   * Where the uploaded file lies in the body: `parseMultipart` fails exactly
   * when no part's headers carry a file name; otherwise the file is part `k`
   * of the scan, a `ValidSpan` and the first part with a file name, and its
   * data are those of `PartAt`: the bytes after that part's empty line up to
   * two bytes before the delimiter that ends it.
   */
  lemma UploadLocation(body: seq<byte>, boundary: string, decode: seq<byte> -> string)
    ensures var parts := PartsAt(body, Spans(body, Delimiter(boundary)), decode);
      MultipartFile(body, boundary, decode).Failure? <==>
        forall k :: 0 <= k < |parts| ==> FilenameOf(parts[k].headers).None?
    ensures var delim := Delimiter(boundary);
      var spans := Spans(body, delim);
      var parts := PartsAt(body, spans, decode);
      var r := MultipartFile(body, boundary, decode);
      r.Success? ==> exists k ::
        && 0 <= k < |spans|
        && ValidSpan(body, delim, spans[k])
        && parts[k] == PartAt(body, spans[k], decode)
        && FirstNamedAt(parts, k)
        && r.value == Upload(FilenameOf(parts[k].headers).value, parts[k].data)
  {
    var delim := Delimiter(boundary);
    var spans := Spans(body, delim);
    var parts := PartsAt(body, spans, decode);
    FirstFileIsFirstNamed(parts);
    if FirstFile(parts).Success? {
      var k :| FirstNamedAt(parts, k) && FirstFile(parts).value == Upload(FilenameOf(parts[k].headers).value, parts[k].data);
      PartAndSpanAt(body, delim, decode, k);
    }
  }

  /** Part `k` of the scan is the `PartAt` of span `k`, and that span is a `ValidSpan`. */
  lemma PartAndSpanAt(body: seq<byte>, delim: seq<byte>, decode: seq<byte> -> string, k: nat)
    requires |delim| > 0 && k < |Spans(body, delim)|
    ensures ValidSpan(body, delim, Spans(body, delim)[k])
    ensures PartsAt(body, Spans(body, delim), decode)[k] == PartAt(body, Spans(body, delim)[k], decode)
  {
    PartsAtIndex(body, Spans(body, delim), decode);
    SpansValid(body, delim);
  }
}
