/** A response head: the status line (version, status code, optional reason) and
    the header section, plus the event-stream body, which is relayed one chunk at
    a time. The status is an integer; the runtime's enumeration of status names
    is not modelled. */
module HttpResponse {
  import opened Wrappers
  import opened Faults
  import opened Text
  import opened Numbers
  import opened Headers
  import opened Client
  import opened HttpPacket
  import opened HeaderLines

  /** `Settings.MaxIncomingHeaderLine`: the bound on status and header lines. */
  const MaxIncomingHeaderLine: int := 64 * 1024

  datatype Response = Response(version: string, status: int, reason: Option<string>, eventStream: bool, packet: Packet)

  /** A freshly constructed response: `HTTP/1.1 200 OK`, not an event stream. */
  const FreshResponse: Response := Response("HTTP/1.1", 200, Some("OK"), false, Fresh)

  /** A header line that marks a response body as chunked. */
  predicate ChunkedResponseField(f: Field) {
    f.0 == "transfer-encoding" && Lower(f.1) == "chunked"
  }

  /** A header line that marks a response as a server-sent event stream. */
  predicate EventStreamField(f: Field) {
    f.0 == "content-type" && StartsWith(Lower(f.1), "text/event-stream")
  }

  predicate AnyChunkedResponseField(fs: seq<Field>) {
    exists i :: 0 <= i < |fs| && ChunkedResponseField(fs[i])
  }

  predicate AnyEventStreamField(fs: seq<Field>) {
    exists i :: 0 <= i < |fs| && EventStreamField(fs[i])
  }

  /** The reason phrase as the reader rebuilds it: each remaining part followed by
      one space. */
  function ReasonText(parts: seq<string>): (r: string)
    ensures |parts| > 0 ==> r == Join(parts, ' ') + " "
  {
    if |parts| == 0 then "" else parts[0] + " " + ReasonText(parts[1..])
  }

  /** The parts of a status line once read: the version, the status and the
      reason phrase. */
  datatype StatusParts = StatusParts(version: string, status: int, reason: Option<string>)

  /** The status line of `ReadHeaderAsync`: at least two space-separated parts, the
      first the version and the second an integer status; any further parts form
      the reason phrase, which otherwise keeps its previous value. */
  function ParseStatusLine(text: string, previous: Option<string>): (r: Result<StatusParts>)
    ensures |Split(text, ' ')| < 2 ==> r == Fail(MalformedStatusLine)
    ensures |Split(text, ' ')| >= 2 && ParseInteger(Split(text, ' ')[1], IntMin, IntMax).None? ==>
      r == Fail(InvalidStatusCode)
    ensures r.Ok? ==>
      && r.value.version == Split(text, ' ')[0]
      && ParseInteger(Split(text, ' ')[1], IntMin, IntMax) == Some(r.value.status)
      && IntMin <= r.value.status <= IntMax
    ensures r.Ok? && |Split(text, ' ')| == 2 ==> r.value.reason == previous
    ensures r.Ok? && |Split(text, ' ')| > 2 ==>
      r.value.reason == Some(Trim(ReasonText(Split(text, ' ')[2..])))
    ensures r.Ok? && r.value.reason.Some? ==> Trimmed(r.value.reason.value) || r.value.reason == previous
  {
    var parts := Split(text, ' ');
    if |parts| < 2 then Fail(MalformedStatusLine)
    else
      var status := ParseInteger(parts[1], IntMin, IntMax);
      if status.None? then Fail(InvalidStatusCode)
      else
        var reason := if |parts| > 2 then Some(Trim(ReasonText(parts[2..]))) else previous;
        TrimIsTrimmed(ReasonText(parts[2..]));
        Ok(StatusParts(parts[0], status.value, reason))
  }

  /** `ReadHeaderAsync`: the status line, then the header lines. Headers are added
      to those the response already holds, and the chunked and event-stream flags
      are set by the header lines that mark them and never cleared. */
  function ReadResponseHead(res: Response, input: Bytes): (r: Result<Parsed<Response>>)
    ensures ReadLine(input, MaxIncomingHeaderLine).Fail? ==> r == Fail(ReadLine(input, MaxIncomingHeaderLine).error)
    ensures ReadLine(input, MaxIncomingHeaderLine).Ok? ==>
      var status := ParseStatusLine(Decode(ReadLine(input, MaxIncomingHeaderLine).value.value), res.reason);
      && (status.Fail? ==> r == Fail(status.error))
      && (r.Ok? ==> status == Ok(StatusParts(r.value.value.version, r.value.value.status, r.value.value.reason)))
    ensures r.Ok? ==>
      var fields := ReadFieldLines(ReadLine(input, MaxIncomingHeaderLine).value.rest, MaxIncomingHeaderLine);
      && fields.Ok?
      && r.value.rest == fields.value.rest
      && r.value.value.packet.headers == AddAll(res.packet.headers, fields.value.value)
      && r.value.value.packet.body == res.packet.body
      && r.value.value.packet.chunked == (res.packet.chunked || AnyChunkedResponseField(fields.value.value))
      && r.value.value.eventStream == (res.eventStream || AnyEventStreamField(fields.value.value))
    ensures r.Ok? ==> |r.value.rest| < |input|
    ensures r.Ok? && Valid(res.packet.headers) ==> Valid(r.value.value.packet.headers)
  {
    var line := ReadLine(input, MaxIncomingHeaderLine);
    if line.Fail? then Fail(line.error)
    else
      var status := ParseStatusLine(Decode(line.value.value), res.reason);
      if status.Fail? then Fail(status.error)
      else
        var fields := ReadFieldLines(line.value.rest, MaxIncomingHeaderLine);
        if fields.Fail? then Fail(fields.error)
        else
          var fs := fields.value.value;
          var chunked := res.packet.chunked || AnyChunkedResponseField(fs);
          var eventStream := res.eventStream || AnyEventStreamField(fs);
          var headers := AddAllValid(res.packet.headers, fs);
          var v := status.value;
          Ok(Parsed(Response(v.version, v.status, v.reason, eventStream, Packet(headers, res.packet.body, chunked)),
                    fields.value.rest))
  }

  /** The status line `WriteHeaderAsync` writes, without its CR LF. */
  function StatusLine(version: string, status: int, reason: Option<string>): string {
    version + " " + FormatInteger(status) + (if reason.Some? then " " + reason.value else "")
  }

  /** `WriteHeaderAsync`: the status line, every header value on its own line, then
      an empty line; a status outside the 16-bit range cannot be converted. */
  function WriteResponseHead(res: Response): (w: Result<Bytes>)
    requires Valid(res.packet.headers)
    ensures w.Ok? <==> ShortMin <= res.status <= ShortMax
    ensures w.Fail? ==> w.error == StatusOverflow
  {
    if !(ShortMin <= res.status <= ShortMax) then Fail(StatusOverflow)
    else Ok(Encode(StatusLine(res.version, res.status, res.reason)) + CRLF + WriteHeaders(res.packet.headers))
  }

  /** A status line that reads back: a space-free version, a 16-bit status, a
      trimmed reason, no CR, within the line bound. */
  predicate StatusLineFits(res: Response) {
    && ' ' !in res.version
    && ShortMin <= res.status <= ShortMax
    && (res.reason.Some? ==> Trimmed(res.reason.value))
    && LineText(StatusLine(res.version, res.status, res.reason))
    && |StatusLine(res.version, res.status, res.reason)| + 2 <= MaxIncomingHeaderLine
  }

  /** Decimal text holds no space. */
  lemma FormatIntegerNoSpace(n: int)
    ensures ' ' !in FormatInteger(n)
  {
    var d := FormatNat(if n < 0 then -n else n);
    assert forall i :: 0 <= i < |d| ==> IsDigit(d[i]);
    if n < 0 {
      assert FormatInteger(n) == "-" + d;
    }
  }

  /** The reason phrase read from a written status line is the one written, or the
      reader's previous one when none was written. */
  lemma SplitStatusLine(res: Response, previous: Option<string>)
    requires ' ' !in res.version && (res.reason.Some? ==> Trimmed(res.reason.value))
    ensures var parts := Split(StatusLine(res.version, res.status, res.reason), ' ');
      && |parts| >= 2
      && parts[0] == res.version && parts[1] == FormatInteger(res.status)
      && (if |parts| > 2 then Some(Trim(ReasonText(parts[2..]))) else previous)
         == (if res.reason.Some? then res.reason else previous)
  {
    var code := FormatInteger(res.status);
    FormatIntegerNoSpace(res.status);
    if res.reason.Some? {
      assert StatusLine(res.version, res.status, res.reason) == res.version + [' '] + (code + [' '] + res.reason.value);
      SplitWithReason(res.version, code, res.reason.value);
    } else {
      assert StatusLine(res.version, res.status, res.reason) == res.version + [' '] + code;
      SplitWithoutReason(res.version, code);
    }
  }

  lemma SplitWithReason(version: string, code: string, reason: string)
    requires ' ' !in version && ' ' !in code && Trimmed(reason)
    ensures var parts := Split(version + [' '] + (code + [' '] + reason), ' ');
      && |parts| > 2 && parts[0] == version && parts[1] == code
      && Trim(ReasonText(parts[2..])) == reason
  {
    var x := code + [' '] + reason;
    var tail := Split(reason, ' ');
    SplitCons(version, x, ' ');
    SplitCons(code, reason, ' ');
    var parts := Split(version + [' '] + x, ' ');
    assert parts == [version] + ([code] + tail);
    assert parts[0] == version && parts[1] == code && parts[2..] == tail;
    assert ReasonText(tail) == reason + " ";
    TrimSpacePadded(reason);
  }

  lemma SplitWithoutReason(version: string, code: string)
    requires ' ' !in version && ' ' !in code
    ensures Split(version + [' '] + code, ' ') == [version, code]
  {
    SplitCons(version, code, ' ');
    SplitNone(code, ' ');
  }

  /** How `ReadHeaderAsync` combines a status line and a header section that both
      read successfully. */
  lemma ReadResponseHeadOf(into: Response, input: Bytes, line: Bytes, tail: Bytes, res: Response,
                           fs: seq<Field>, rest: Bytes)
    requires ReadLine(input, MaxIncomingHeaderLine) == Ok(Parsed(line, tail))
    requires Decode(line) == StatusLine(res.version, res.status, res.reason)
    requires ' ' !in res.version && (res.reason.Some? ==> Trimmed(res.reason.value))
    requires IntMin <= res.status <= IntMax
    requires ReadFieldLines(tail, MaxIncomingHeaderLine) == Ok(Parsed(fs, rest))
    ensures ReadResponseHead(into, input)
         == Ok(Parsed(Response(res.version, res.status,
                               if res.reason.Some? then res.reason else into.reason,
                               into.eventStream || AnyEventStreamField(fs),
                               Packet(AddAll(into.packet.headers, fs), into.packet.body,
                                      into.packet.chunked || AnyChunkedResponseField(fs))),
                      rest))
  {
    ParseWrittenStatusLine(res, into.reason);
    var h := AddAllValid(into.packet.headers, fs);
  }

  /** A written status line parses back as its version, status and reason, the
      reader's previous reason standing in when none was written. */
  lemma ParseWrittenStatusLine(res: Response, previous: Option<string>)
    requires ' ' !in res.version && (res.reason.Some? ==> Trimmed(res.reason.value))
    requires IntMin <= res.status <= IntMax
    ensures ParseStatusLine(StatusLine(res.version, res.status, res.reason), previous)
         == Ok(StatusParts(res.version, res.status, if res.reason.Some? then res.reason else previous))
  {
    var parts := Split(StatusLine(res.version, res.status, res.reason), ' ');
    SplitStatusLine(res, previous);
    ParseFormatInteger(res.status, IntMin, IntMax);
    assert ParseInteger(parts[1], IntMin, IntMax) == Some(res.status);
  }

  /** A written head read into a response without headers gives back its version,
      status, reason (or the reader's own when none was written) and headers; the
      flags are set by the headers that mark them. */
  lemma ReadWriteResponseHead(res: Response, into: Response, rest: Bytes)
    requires StatusLineFits(res)
    requires HeadersFit(res.packet.headers, MaxIncomingHeaderLine)
    requires into.packet.headers == Empty
    ensures ReadResponseHead(into, WriteResponseHead(res).value + rest)
         == Ok(Parsed(Response(res.version, res.status,
                               if res.reason.Some? then res.reason else into.reason,
                               into.eventStream || AnyEventStreamField(Fields(res.packet.headers)),
                               Packet(res.packet.headers, into.packet.body,
                                      into.packet.chunked || AnyChunkedResponseField(Fields(res.packet.headers)))),
                      rest))
  {
    var h := res.packet.headers;
    var text := StatusLine(res.version, res.status, res.reason);
    var tail := WriteHeaders(h) + rest;
    var input := WriteResponseHead(res).value + rest;
    assert input == Encode(text) + CRLF + tail;
    LineTextNoCrlf(text);
    ReadLineOfLine(Encode(text), tail, MaxIncomingHeaderLine);
    DecodeEncode(text);
    ReadWriteHeaders(h, rest, MaxIncomingHeaderLine);
    ReadResponseHeadOf(into, input, Encode(text), tail, res, Fields(h), rest);
  }

  // -------------------------------------------------------- event-stream body

  /** `ReadEventStreamBody`: a positive `Content-Length` reads the whole body; a
      chunked stream reads exactly one chunk, which becomes the body without
      touching the headers; otherwise nothing is read. Only event streams can be
      read this way. */
  function ReadEventStreamBody(res: Response, input: Bytes): (r: Result<Parsed<Response>>)
    ensures !res.eventStream ==> r == Fail(NotEventStream)
    ensures r.Ok? ==>
      && r.value.value.eventStream && r.value.value.version == res.version
      && r.value.value.status == res.status && r.value.value.reason == res.reason
    ensures res.eventStream && ContentLength(res.packet.headers) > 0 ==>
      match ReadBody(res.packet, input)
      case Fail(e) => r == Fail(e)
      case Ok(p) => r == Ok(Parsed(res.(packet := p.value), p.rest))
    ensures res.eventStream && ContentLength(res.packet.headers) <= 0 && res.packet.chunked ==>
      && (r.Ok? <==> ReadChunk(input).Ok?)
      && (r.Ok? ==>
            && r.value.value.packet == res.packet.(body := Some(ReadChunk(input).value.value))
            && r.value.rest == ReadChunk(input).value.rest)
    ensures res.eventStream && ContentLength(res.packet.headers) <= 0 && !res.packet.chunked ==>
      r == Ok(Parsed(res, input))
  {
    if !res.eventStream then Fail(NotEventStream)
    else if ContentLength(res.packet.headers) > 0 then
      var p :- ReadBody(res.packet, input);
      Ok(Parsed(res.(packet := p.value), p.rest))
    else if res.packet.chunked then
      var c :- ReadChunk(input);
      Ok(Parsed(res.(packet := res.packet.(body := Some(c.value))), c.rest))
    else
      Ok(Parsed(res, input))
  }

  /** `WriteEventStreamBody`: nothing without a body; the body as it is under a
      positive `Content-Length`; otherwise one chunk when chunked. */
  function WriteEventStreamBody(res: Response): (w: Result<Bytes>)
    ensures w.Fail? <==> !res.eventStream
    ensures w.Fail? ==> w.error == NotEventStream
    ensures w.Ok? && res.packet.body.None? ==> w.value == []
    ensures w.Ok? && res.packet.body.Some? && ContentLength(res.packet.headers) > 0 ==> w.value == res.packet.body.value
    ensures w.Ok? && res.packet.body.Some? && ContentLength(res.packet.headers) <= 0 && res.packet.chunked ==>
      w.value == WriteChunk(res.packet.body.value)
    ensures w.Ok? && ContentLength(res.packet.headers) <= 0 && !res.packet.chunked ==> w.value == []
  {
    if !res.eventStream then Fail(NotEventStream)
    else if res.packet.body.None? then Ok([])
    else if ContentLength(res.packet.headers) > 0 then Ok(WriteBody(res.packet))
    else if res.packet.chunked then Ok(WriteChunk(res.packet.body.value))
    else Ok([])
  }

  /** One event written as a chunk reads back as the same response. */
  lemma ReadWriteEventChunk(res: Response, rest: Bytes)
    requires res.eventStream && res.packet.chunked && ContentLength(res.packet.headers) <= 0
    requires res.packet.body.Some? && |res.packet.body.value| <= MaxArrayLength
    ensures ReadEventStreamBody(res, WriteEventStreamBody(res).value + rest) == Ok(Parsed(res, rest))
  {
    ReadWriteChunk(res.packet.body.value, rest);
  }

  /** An event-stream body set by `SetBody` is written whole and read back whole. */
  lemma ReadWriteEventBody(res: Response, p: Packet, body: Bytes, rest: Bytes)
    requires res.eventStream && 0 < |body| <= MaxArrayLength && res.packet == SetBody(p, body)
    ensures ReadEventStreamBody(res, WriteEventStreamBody(res).value + rest) == Ok(Parsed(res, rest))
  {
    ReadWrittenBody(p, body, rest);
  }
}
