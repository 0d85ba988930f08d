/** What requests and responses share: the header collection, the body, and the
    chunked-transfer flag, with the body readers, writers and relays built on the
    connection primitives. Chunk framing follows section 7.1 of RFC 9112 without
    extensions or trailers. */
module HttpPacket {
  import opened Wrappers
  import opened Faults
  import opened Text
  import opened Numbers
  import opened Headers
  import opened Client

  /** `Settings.MaxChunkSizeLine`: the bound on a chunk-size line (and on request lines). */
  const MaxChunkSizeLine: int := 1024
  /** `Settings.StreamBufferSize`: the relay buffer. */
  const StreamBufferSize: int := 64 * 1024

  datatype Packet = Packet(headers: HeaderCollection, body: Option<Bytes>, chunked: bool)

  /** A freshly constructed packet: no headers, no body, not chunked. */
  const Fresh: Packet := Packet(Empty, None, false)

  /** What a relay wrote to the other side, and either the input it left or the
      fault that stopped it. Bytes relayed before a fault stay written. */
  datatype Relay = Relay(written: Bytes, outcome: Result<Bytes>)

  // ------------------------------------------------------------------- body

  /** `SetBody(byte[])`: the body and its `Content-Length` always agree, and a
      chunked message stops being chunked. */
  function SetBody(p: Packet, body: Bytes): (r: Packet)
    requires |body| <= MaxArrayLength
    ensures Valid(p.headers) ==> Valid(r.headers)
    ensures r.body == Some(body) && !r.chunked
    ensures ContentLength(r.headers) == |body|
    ensures |body| == 0 ==> Lookup(r.headers, ContentLengthName) == []
    ensures |body| > 0 ==> Lookup(r.headers, ContentLengthName) == [FormatInteger(|body|)]
    ensures p.chunked ==> Lookup(r.headers, TransferEncodingName) == []
    ensures !p.chunked ==> Lookup(r.headers, TransferEncodingName) == Lookup(p.headers, TransferEncodingName)
    ensures forall k :: k != ContentLengthName && k != TransferEncodingName ==>
      Lookup(r.headers, k) == Lookup(p.headers, k)
  {
    var h := SetContentLength(p.headers, |body|);
    NamesLower();
    if p.chunked then
      var h2 := Remove(h, "Transfer-Encoding");
      Packet(h2, Some(body), false)
    else
      Packet(h, Some(body), false)
  }

  /** `WriteBodyAsync`: the body bytes, or nothing without a body. */
  function WriteBody(p: Packet): (r: Bytes)
    ensures p.body.Some? ==> r == p.body.value
    ensures p.body.None? ==> r == []
  {
    p.body.GetOr([])
  }

  // ----------------------------------------------------------------- chunks

  /** `input` is one chunk: a size line no longer than the bound whose hex value is
      the data's length, CR LF, the data, CR LF, then `rest`. */
  predicate ChunkFrame(input: Bytes, data: Bytes, rest: Bytes) {
    var n := |input| - |rest| - |data| - 4;
    && 1 <= n && n + 2 <= MaxChunkSizeLine
    && input == input[..n] + CRLF + data + CRLF + rest
    && ParseHex32(Decode(input[..n])) == Some(|data|)
  }

  /** The part of `ReadChunkAsync` after the size line: exactly `size` bytes, then
      a line that must be empty. */
  function ReadChunkData(input: Bytes, size: int): (r: Result<Parsed<Bytes>>)
    ensures r.Ok? ==> |r.value.value| == size && input == r.value.value + CRLF + r.value.rest
    ensures r.Ok? ==> size <= MaxArrayLength
  {
    var data :- TakeExact(input, size);
    var end :- ReadLine(data.rest, 2);
    if end.value != [] then
      Fail(MissingChunkEnd)
    else
      assert data.rest == CRLF + end.rest;
      Ok(Parsed(data.value, end.rest))
  }

  /** `ReadChunkAsync`: a hex size line, exactly that many bytes, then an empty line. */
  function ReadChunk(input: Bytes): (r: Result<Parsed<Bytes>>)
    ensures r.Ok? ==> |r.value.value| <= MaxArrayLength && |r.value.rest| + 5 <= |input|
    ensures ReadLine(input, MaxChunkSizeLine).Fail? ==> r == Fail(ReadLine(input, MaxChunkSizeLine).error)
    ensures ReadLine(input, MaxChunkSizeLine).Ok? && ParseHex32(Decode(ReadLine(input, MaxChunkSizeLine).value.value)).None? ==>
      r == Fail(InvalidChunkSize)
  {
    var line := ReadLine(input, MaxChunkSizeLine);
    if line.Fail? then Fail(line.error)
    else
      var size := ParseHex32(Decode(line.value.value));
      if size.None? then Fail(InvalidChunkSize)
      else
        var data := ReadChunkData(line.value.rest, size.value);
        if data.Fail? then Fail(data.error)
        else data
  }

  /** Whatever `ReadChunkAsync` accepts is one chunk frame whose size line gives the
      length of the data it returns. */
  lemma ReadChunkFrame(input: Bytes)
    requires ReadChunk(input).Ok?
    ensures ChunkFrame(input, ReadChunk(input).value.value, ReadChunk(input).value.rest)
  {
    var line := ReadLine(input, MaxChunkSizeLine).value;
    var size := ParseHex32(Decode(line.value)).value;
    var data := ReadChunkData(line.rest, size).value;
    ChunkFrameOf(input, line.value, data.value, line.rest, data.rest);
  }

  /** A size line followed by the data and its terminator makes a chunk frame. */
  lemma ChunkFrameOf(input: Bytes, line: Bytes, data: Bytes, after: Bytes, rest: Bytes)
    requires input == line + CRLF + after && after == data + CRLF + rest
    requires 1 <= |line| && |line| + 2 <= MaxChunkSizeLine
    requires ParseHex32(Decode(line)) == Some(|data|)
    ensures ChunkFrame(input, data, rest)
  {
    assert input == line + CRLF + data + CRLF + rest;
    assert input[..|line|] == line;
  }

  /** `WriteChunkAsync`: lower-case hex length, CR LF, the data, CR LF. */
  function WriteChunk(data: Bytes): Bytes {
    Encode(LowerHex(|data|)) + CRLF + data + CRLF
  }

  /** The size line `WriteChunk` produces holds no CR LF and fits the line bound. */
  lemma SizeLineFits(data: Bytes)
    requires |data| <= MaxArrayLength
    ensures NoCrlf(Encode(LowerHex(|data|)))
    ensures |Encode(LowerHex(|data|))| + 2 <= MaxChunkSizeLine
    ensures Ascii(LowerHex(|data|))
    ensures Decode(Encode(LowerHex(|data|))) == LowerHex(|data|)
  {
    LowerHexValue(|data|);
    FormatHexLength(|data|, 8, 0x1_0000_0000);
    DecodeEncode(LowerHex(|data|));
  }

  /** A chunk written by the proxy and followed by anything reads back as its data,
      leaving the rest. */
  lemma ReadWriteChunk(data: Bytes, rest: Bytes)
    requires |data| <= MaxArrayLength
    ensures ReadChunk(WriteChunk(data) + rest) == Ok(Parsed(data, rest))
  {
    var line := Encode(LowerHex(|data|));
    SizeLineFits(data);
    ParseLowerHex(|data|);
    var after := data + CRLF + rest;
    assert WriteChunk(data) + rest == line + CRLF + after;
    ReadLineOfLine(line, after, MaxChunkSizeLine);
    ReadChunkDataOf(data, rest);
  }

  /** The data of a chunk and its closing CR LF read back as the data. */
  lemma ReadChunkDataOf(data: Bytes, rest: Bytes)
    requires |data| <= MaxArrayLength
    ensures ReadChunkData(data + CRLF + rest, |data|) == Ok(Parsed(data, rest))
  {
    var after := data + CRLF + rest;
    assert after[..|data|] == data;
    assert after[|data|..] == [] + CRLF + rest;
    ReadLineOfLine([], rest, 2);
  }

  /** The closing line of a chunk is read with a bound of 2, so it is empty whenever
      it is read at all: the non-empty case of `ReadChunkAsync` cannot occur. */
  lemma ChunkEndAlwaysEmpty(input: Bytes)
    ensures ReadChunk(input) != Fail(MissingChunkEnd)
  {
  }

  /** Parts a chunked body can be written as: none empty, each a byte array. */
  predicate ChunkParts(parts: seq<Bytes>) {
    forall i :: 0 <= i < |parts| ==> 0 < |parts[i]| <= MaxArrayLength
  }

  /** Chunks up to the terminating zero-size chunk: the data of each non-empty one. */
  function ReadChunkList(input: Bytes): (r: Result<Parsed<seq<Bytes>>>)
    ensures r.Ok? ==> ChunkParts(r.value.value) && |r.value.rest| < |input|
    decreases |input|
  {
    var c := ReadChunk(input);
    if c.Fail? then Fail(c.error)
    else if |c.value.value| == 0 then Ok(Parsed([], c.value.rest))
    else
      var more := ReadChunkList(c.value.rest);
      if more.Fail? then more
      else
        ChunkPartsCons(c.value.value, more.value.value);
        Ok(Parsed([c.value.value] + more.value.value, more.value.rest))
  }

  /** One more non-empty chunk in front of a list of chunk parts. */
  lemma ChunkPartsCons(data: Bytes, parts: seq<Bytes>)
    requires 0 < |data| <= MaxArrayLength && ChunkParts(parts)
    ensures ChunkParts([data] + parts)
  {
    assert forall i :: 1 <= i < |parts| + 1 ==> ([data] + parts)[i] == parts[i - 1];
  }

  /** A non-empty chunk written in front of a readable chunk list reads as one
      longer list. */
  lemma ChunkListCons(data: Bytes, tail: Bytes, more: seq<Bytes>, rest: Bytes)
    requires 0 < |data| <= MaxArrayLength
    requires ReadChunkList(tail) == Ok(Parsed(more, rest))
    ensures ReadChunkList(WriteChunk(data) + tail) == Ok(Parsed([data] + more, rest))
  {
    ReadWriteChunk(data, tail);
  }

  /** The chunk frames of `parts`, then the zero-size terminator. */
  function WriteChunks(parts: seq<Bytes>): Bytes {
    if |parts| == 0 then WriteChunk([]) else WriteChunk(parts[0]) + WriteChunks(parts[1..])
  }

  function Concat(parts: seq<Bytes>): Bytes {
    if |parts| == 0 then [] else parts[0] + Concat(parts[1..])
  }

  /** Writing non-empty chunks and the terminator, then reading chunks, gives the
      same chunks and the rest. */
  lemma {:induction false} ReadWriteChunks(parts: seq<Bytes>, rest: Bytes)
    requires ChunkParts(parts)
    ensures ReadChunkList(WriteChunks(parts) + rest) == Ok(Parsed(parts, rest))
    decreases |parts|
  {
    if |parts| == 0 {
      ReadWriteChunk([], rest);
    } else {
      assert ChunkParts(parts[1..]) by {
        assert forall i :: 0 <= i < |parts| - 1 ==> parts[1..][i] == parts[i + 1];
      }
      ReadWriteChunks(parts[1..], rest);
      ReadWriteChunksStep(parts, rest);
    }
  }

  lemma WriteChunksCons(parts: seq<Bytes>, rest: Bytes)
    requires |parts| > 0
    ensures WriteChunks(parts) + rest == WriteChunk(parts[0]) + (WriteChunks(parts[1..]) + rest)
  {
  }

  /** One non-empty chunk in front of a readable list of chunks. */
  lemma ReadWriteChunksStep(parts: seq<Bytes>, rest: Bytes)
    requires |parts| > 0 && 0 < |parts[0]| <= MaxArrayLength
    requires ReadChunkList(WriteChunks(parts[1..]) + rest) == Ok(Parsed(parts[1..], rest))
    ensures ReadChunkList(WriteChunks(parts) + rest) == Ok(Parsed(parts, rest))
  {
    var more := parts[1..];
    var tail := WriteChunks(more) + rest;
    ChunkListCons(parts[0], tail, more, rest);
    WriteChunksCons(parts, rest);
    var s := WriteChunks(parts) + rest;
    assert s == WriteChunk(parts[0]) + tail;
    assert [parts[0]] + more == parts;
    assert ReadChunkList(s) == Ok(Parsed([parts[0]] + more, rest));
  }

  /** `ReadBodyAsync`: a positive `Content-Length` takes precedence and reads exactly
      that many bytes; otherwise a chunked message reads chunks to the terminator;
      otherwise nothing is read and the packet is unchanged. */
  function ReadBody(p: Packet, input: Bytes): (r: Result<Parsed<Packet>>)
    ensures ContentLength(p.headers) > 0 ==>
      && (r.Ok? <==> ContentLength(p.headers) <= |input| && ContentLength(p.headers) <= MaxArrayLength)
      && (r.Ok? ==>
            && r.value.value == SetBody(p, input[..ContentLength(p.headers)])
            && r.value.rest == input[ContentLength(p.headers)..])
    ensures ContentLength(p.headers) <= 0 && p.chunked ==>
      && (r.Ok? ==> ReadChunkList(input).Ok?)
      && (ReadChunkList(input).Fail? ==> r == Fail(ReadChunkList(input).error))
      && (r.Ok? ==>
            && |Concat(ReadChunkList(input).value.value)| <= MaxArrayLength
            && r.value.value == SetBody(p, Concat(ReadChunkList(input).value.value))
            && r.value.rest == ReadChunkList(input).value.rest)
    ensures ContentLength(p.headers) <= 0 && !p.chunked ==> r == Ok(Parsed(p, input))
  {
    var n := ContentLength(p.headers);
    if n > 0 then
      var data :- TakeExact(input, n);
      Ok(Parsed(SetBody(p, data.value), data.rest))
    else if p.chunked then
      var chunks :- ReadChunkList(input);
      var body := Concat(chunks.value);
      if |body| > MaxArrayLength then Fail(TooLarge)
      else Ok(Parsed(SetBody(p, body), chunks.rest))
    else
      Ok(Parsed(p, input))
  }

  /** A body set by `SetBody` and written out reads back into the same packet: the
      `Content-Length` it carries frames exactly the bytes written. */
  lemma ReadWrittenBody(p: Packet, body: Bytes, rest: Bytes)
    requires 0 < |body| <= MaxArrayLength
    ensures ReadBody(SetBody(p, body), WriteBody(SetBody(p, body)) + rest) == Ok(Parsed(SetBody(p, body), rest))
  {
    var q := SetBody(p, body);
    var input := body + rest;
    assert input[..|body|] == body && input[|body|..] == rest;
    NamesLower();
    SetContentLengthKeeps(q.headers, |body|);
    assert SetBody(q, body) == q;
  }

  /** A chunked message without a positive `Content-Length` reads a chunked body as
      the concatenation of its chunks. */
  lemma ReadChunkedBody(p: Packet, parts: seq<Bytes>, rest: Bytes)
    requires p.chunked && ContentLength(p.headers) <= 0
    requires ChunkParts(parts) && |Concat(parts)| <= MaxArrayLength
    ensures ReadBody(p, WriteChunks(parts) + rest) == Ok(Parsed(SetBody(p, Concat(parts)), rest))
  {
    ReadWriteChunks(parts, rest);
  }

  // ---------------------------------------------------------------- relays

  /** `TransferBodyAsync` in chunked mode: every chunk read, the terminator included,
      is written again in the proxy's own framing, then the relay stops. */
  function TransferChunks(input: Bytes): (r: Relay)
    ensures r.outcome.Ok? <==> ReadChunkList(input).Ok?
    ensures r.outcome.Ok? ==>
      && r.written == WriteChunks(ReadChunkList(input).value.value)
      && r.outcome.value == ReadChunkList(input).value.rest
    ensures r.outcome.Fail? ==> r.outcome.error == ReadChunkList(input).error
    decreases |input|
  {
    match ReadChunk(input)
    case Fail(e) => Relay([], Fail(e))
    case Ok(c) =>
      var frame := WriteChunk(c.value);
      if |c.value| == 0 then
        Relay(frame, Ok(c.rest))
      else
        var t := TransferChunks(c.rest);
        Relay(frame + t.written, t.outcome)
  }

  /** The relayed stream carries the same chunks as the input, so the receiver
      reads the same body. */
  lemma TransferChunksPreserves(input: Bytes)
    requires TransferChunks(input).outcome.Ok?
    ensures ReadChunkList(TransferChunks(input).written) == Ok(Parsed(ReadChunkList(input).value.value, []))
  {
    var parts := ReadChunkList(input).value.value;
    ReadWriteChunks(parts, []);
    assert WriteChunks(parts) + [] == WriteChunks(parts);
  }

  /** Input already in the proxy's framing is relayed byte for byte. */
  lemma TransferCanonicalChunks(parts: seq<Bytes>, rest: Bytes)
    requires ChunkParts(parts)
    ensures TransferChunks(WriteChunks(parts) + rest) == Relay(WriteChunks(parts), Ok(rest))
  {
    ReadWriteChunks(parts, rest);
  }

  /** How many bytes arrive per read when the transport always fills the buffer. */
  function FullReads(k: nat): nat {
    StreamBufferSize
  }

  /** How far a fixed-length relay got: the number of bytes it read and wrote, and
      the fault that stopped it, if any. A relay writes each read's bytes as soon as
      they arrive, so what it wrote is always the first `count` bytes of its input. */
  datatype Moved = Moved(count: nat, fault: Option<Fault>)

  /** The read loop of `TransferBodyAsync` in fixed-length mode as written: every
      read offers the whole buffer, whatever is left of the length. */
  function FixedLoopAsWritten(input: Bytes, remaining: int, schedule: Schedule, calls: nat): (r: Moved)
    ensures r.count <= |input|
    ensures r.fault.None? && remaining > 0 ==> r.count >= remaining
    ensures r.fault.None? && remaining <= 0 ==> r.count == 0
    ensures r.fault.Some? ==> r.fault.value == StreamClosed && r.count == |input| < remaining
    decreases |input|
  {
    if remaining <= 0 then
      Moved(0, None)
    else
      var c := Read(input, StreamBufferSize, schedule(calls));
      if c.Fail? then Moved(0, Some(c.error))
      else
        var t := FixedLoopAsWritten(c.value.rest, remaining - |c.value.value|, schedule, calls + 1);
        Moved(|c.value.value| + t.count, t.fault)
  }

  /** The relay a fixed-length loop performs on `input`. */
  function RelayOf(input: Bytes, m: Moved): (r: Relay)
    requires m.count <= |input|
    ensures r.written == input[..m.count]
    ensures m.fault.None? ==> r.outcome.Ok? && r.written + r.outcome.value == input
    ensures m.fault.Some? ==> r.outcome == Fail(m.fault.value)
  {
    if m.fault.Some? then Relay(input[..m.count], Fail(m.fault.value))
    else
      assert input == input[..m.count] + input[m.count..];
      Relay(input[..m.count], Ok(input[m.count..]))
  }

  /** `TransferBodyAsync` in fixed-length mode as written. */
  function TransferFixedAsWritten(input: Bytes, length: int, schedule: Schedule): (r: Relay)
    ensures r.written <= input
    ensures r.outcome.Ok? ==> r.written + r.outcome.value == input
    ensures r.outcome.Ok? && length > 0 ==> |r.written| >= length
    ensures r.outcome.Fail? ==> r.outcome.error == StreamClosed && r.written == input && |input| < length
  {
    RelayOf(input, FixedLoopAsWritten(input, length, schedule, 0))
  }

  /** With a transport that fills the buffer, a 2-byte body followed by the next
      2 bytes of the stream relays all 4: the relay reads past the body. */
  lemma TransferFixedOvershoots()
    ensures TransferFixedAsWritten([1, 2, 3, 4], 2, FullReads) == Relay([1, 2, 3, 4], Ok([]))
  {
    var input: Bytes := [1, 2, 3, 4];
    assert input[..4] == input && input[4..] == [];
    assert Read(input, StreamBufferSize, FullReads(0)) == Ok(Parsed(input, []));
    assert FixedLoopAsWritten(input, 2, FullReads, 0) == Moved(4, None);
  }

  /** The read loop with each read bounded by what is left of the length, as the
      buffer relay does: it stops exactly at the end of the body. */
  function FixedLoop(input: Bytes, remaining: int, schedule: Schedule, calls: nat): (r: Moved)
    ensures remaining <= 0 ==> r == Moved(0, None)
    ensures 0 < remaining <= |input| ==> r == Moved(remaining, None)
    ensures remaining > |input| ==> r == Moved(|input|, Some(StreamClosed))
    decreases |input|
  {
    if remaining <= 0 then
      Moved(0, None)
    else
      var c := Read(input, Min(remaining, StreamBufferSize), schedule(calls));
      if c.Fail? then Moved(0, Some(c.error))
      else
        var t := FixedLoop(c.value.rest, remaining - |c.value.value|, schedule, calls + 1);
        Moved(|c.value.value| + t.count, t.fault)
  }

  /** `TransferBodyAsync` in fixed-length mode with bounded reads: exactly the body
      is relayed, and a stream that ends early is reported closed. */
  function TransferFixed(input: Bytes, length: int, schedule: Schedule): (r: Relay)
    ensures length <= 0 ==> r == Relay([], Ok(input))
    ensures 0 < length <= |input| ==> r == Relay(input[..length], Ok(input[length..]))
    ensures length > |input| ==> r == Relay(input, Fail(StreamClosed))
  {
    RelayOf(input, FixedLoop(input, length, schedule, 0))
  }

  /** `TransferBodyAsync`: with a positive `Content-Length`, the relay stops only
      once at least that many bytes went through, and what it wrote is always the
      start of the stream (everything a read returned is written, so it can run past
      the body); a stream that ends first is reported closed after relaying all of
      it. Otherwise a chunked message relays its chunks, and anything else moves
      nothing. */
  function TransferBody(p: Packet, input: Bytes, schedule: Schedule): (r: Relay)
    ensures ContentLength(p.headers) > 0 ==>
      && r.written <= input
      && (r.outcome.Ok? <==> |input| >= ContentLength(p.headers))
      && (r.outcome.Ok? ==> r.written + r.outcome.value == input && |r.written| >= ContentLength(p.headers))
      && (r.outcome.Fail? ==> r.outcome.error == StreamClosed && r.written == input)
    ensures ContentLength(p.headers) <= 0 && p.chunked ==> r == TransferChunks(input)
    ensures ContentLength(p.headers) <= 0 && !p.chunked ==> r == Relay([], Ok(input))
  {
    var n := ContentLength(p.headers);
    if n > 0 then TransferFixedAsWritten(input, n, schedule)
    else if p.chunked then TransferChunks(input)
    else Relay([], Ok(input))
  }

  /** `TransferBodyAsync` with each read bounded by what is left of the body: a
      positive `Content-Length` relays exactly that many bytes. */
  function TransferBodyBounded(p: Packet, input: Bytes, schedule: Schedule): (r: Relay)
    ensures 0 < ContentLength(p.headers) <= |input| ==>
      r == Relay(input[..ContentLength(p.headers)], Ok(input[ContentLength(p.headers)..]))
    ensures ContentLength(p.headers) > |input| ==> r == Relay(input, Fail(StreamClosed))
    ensures ContentLength(p.headers) <= 0 ==> r == TransferBody(p, input, schedule)
  {
    var n := ContentLength(p.headers);
    if n > 0 then TransferFixed(input, n, schedule) else TransferBody(p, input, schedule)
  }

  /** The relay as written carries the whole body, and the bounded relay is where it
      should stop: both succeed or fail together, the bounded relay's bytes begin
      what the relay as written sends, and a stream that ends early fails both
      alike. */
  lemma TransferBodyCoversBody(p: Packet, input: Bytes, schedule: Schedule)
    ensures TransferBody(p, input, schedule).outcome.Ok? <==> TransferBodyBounded(p, input, schedule).outcome.Ok?
    ensures TransferBodyBounded(p, input, schedule).written <= TransferBody(p, input, schedule).written
    ensures TransferBody(p, input, schedule).outcome.Fail? ==>
      TransferBody(p, input, schedule) == TransferBodyBounded(p, input, schedule)
  {
    var n := ContentLength(p.headers);
    if n > 0 {
      var r := TransferBody(p, input, schedule);
      if r.outcome.Ok? {
        assert input[..n] == r.written[..n];
      }
    }
  }

  // ------------------------------------------------------------ decoding

  datatype Codec = Gzip | Deflate | Brotli

  /** The decompressors the runtime provides; failure is a corrupt stream. */
  type Decompressor = (Codec, Bytes) -> Option<Bytes>

  /** The codec a `Content-Encoding` value selects, ignoring case. */
  function CodecOf(encoding: string): (r: Option<Codec>)
    ensures r == Some(Gzip) <==> Lower(encoding) == "gzip"
    ensures r == Some(Deflate) <==> Lower(encoding) == "compress" || Lower(encoding) == "deflate"
    ensures r == Some(Brotli) <==> Lower(encoding) == "br"
  {
    match Lower(encoding)
    case "gzip" => Some(Gzip)
    case "compress" => Some(Deflate)
    case "deflate" => Some(Deflate)
    case "br" => Some(Brotli)
    case _ => None
  }

  /** `DecodeBody`: with a body and a `Content-Encoding`, the body is decompressed,
      the encoding header removed, and `Content-Length` rewritten only when it was
      positive before. */
  function DecodeBody(p: Packet, decompress: Decompressor): (r: Result<Packet>)
    ensures p.body.None? || GetFirstValue(p.headers, ContentEncodingName).None? ==> r == Ok(p)
    ensures p.body.Some? && GetFirstValue(p.headers, ContentEncodingName).Some? ==>
      var codec := CodecOf(GetFirstValue(p.headers, ContentEncodingName).value);
      && (codec.None? ==> r == Fail(UnsupportedEncoding))
      && (codec.Some? && decompress(codec.value, p.body.value).None? ==> r == Fail(CorruptBody))
      && (r.Ok? ==>
            && codec.Some?
            && r.value.body == decompress(codec.value, p.body.value)
            && r.value.chunked == p.chunked
            && Lookup(r.value.headers, ContentEncodingName) == []
            && (ContentLength(p.headers) > 0 ==> ContentLength(r.value.headers) == |r.value.body.value|)
            && (ContentLength(p.headers) <= 0 ==>
                  Lookup(r.value.headers, ContentLengthName) == Lookup(p.headers, ContentLengthName))
            && (forall k :: k != ContentLengthName && k != ContentEncodingName ==>
                  Lookup(r.value.headers, k) == Lookup(p.headers, k)))
    ensures r.Ok? && Valid(p.headers) ==> Valid(r.value.headers)
  {
    if p.body.None? then Ok(p)
    else
      match GetFirstValue(p.headers, "Content-Encoding")
      case None =>
        NamesLower();
        Ok(p)
      case Some(encoding) =>
        NamesLower();
        match CodecOf(encoding)
        case None => Fail(UnsupportedEncoding)
        case Some(codec) =>
          match decompress(codec, p.body.value)
          case None => Fail(CorruptBody)
          case Some(body) =>
            if |body| > MaxArrayLength then Fail(TooLarge)
            else
              var h := Remove(p.headers, "Content-Encoding");
              assert ContentLength(h) == ContentLength(p.headers);
              var h2 := if ContentLength(h) > 0 then SetContentLength(h, |body|) else h;
              Ok(Packet(h2, Some(body), p.chunked))
  }

  /** A decoded packet carries no `Content-Encoding`, so decoding it again changes
      nothing. */
  lemma DecodeBodySettles(p: Packet, decompress: Decompressor)
    requires DecodeBody(p, decompress).Ok?
    ensures DecodeBody(DecodeBody(p, decompress).value, decompress) == Ok(DecodeBody(p, decompress).value)
  {
    NamesLower();
  }
}
