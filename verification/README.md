# CaptureProxy core, modelled in Dafny

CaptureProxy is an intercepting HTTP/1.1 proxy for .NET. This project models the
part that turns bytes into messages and decides what a proxied connection does:

- the header multimap (`HeaderCollection`);
- the three read primitives of the connection wrapper (`Client`);
- the body framing shared by requests and responses (`HttpPacket`);
- the request and response heads (`HttpRequest`, `HttpResponse`);
- a session's control flow, from the first request to the teardown (`Session`).

Each module is a set of pure functions over immutable values:

- A stream is the sequence of bytes still to arrive. A read returns what it took and the rest of the stream.
- How the transport splits those bytes into deliveries is a `Schedule` parameter, so every statement proved "for every schedule" holds however the reads are split.
- A session is an event log (heads and bodies written, dials, closes, tunnels started, faults caught) over an environment. The environment supplies URI parsing, the tunnel-establish hook, the outcome of each dial, the upstream proxy's reply and the client's TLS handshake.
- Every exception the code throws is a `Fault` constructor in a `Result`.

The modules, in dependency order:

- `Faults` and `Wrappers`: the fault type, and `Option`/`Result`/`Parsed`.
- `Text`: bytes and text, trimming, lower-casing, splitting.
- `Numbers`: the .NET integer, hexadecimal and base64 conversions the code relies on.
- `Client`: the connection's read primitives.
- `Headers` and `HeaderLines`: the collection and its `name: value` lines.
- `HttpPacket`, `HttpRequest` and `HttpResponse`: the messages.
- `Session`: one proxied connection.

`Session.cs` does not close the connection to an upstream proxy when the exchange with that proxy fails. The session functions therefore take a `Variant`:

- `AsWritten` is the code as it stands.
- `Closing` closes that connection too.

Both are proved about (see Findings).

## Model

| member | source | states |
|---|---|---|
| Client.Read | CaptureProxy/Client.cs:95-104 | A read fails on an empty buffer and on a stream that has ended. Otherwise it returns between one byte and the buffer size, taken from the front of the stream. |
| Client.ReadExtract | CaptureProxy/Client.cs:106-121 | For every way the transport splits the reads, the result is the same as taking exactly `length` bytes: a negative length and an over-large length are refused, a stream that ends early is closed, and otherwise the next `length` bytes are returned and the rest is left. |
| Client.ReadLine | CaptureProxy/Client.cs:63-93 | Succeeds exactly when a CR LF ends within the first `maxLength` bytes. It returns the bytes before the first CR LF. Otherwise it reports a closed stream when fewer than `maxLength` bytes arrived, and an overflow when `maxLength` bytes arrived. |
| Client.ReadLineOfLine | CaptureProxy/Client.cs:63-93 | A line without CR LF, written with its terminator and followed by anything, reads back as exactly that line when it fits the bound. |
| Headers.GetFirstValue | CaptureProxy/HeaderCollection.cs:89-96 | Present exactly when the key, in any case, has a value; it is then the first of the values `GetValues` returns. |
| Headers.KeyCaseInsensitive | CaptureProxy/HeaderCollection.cs:40-96 | `GetValues`, `GetFirstValue`, `Add`, `AddOrReplace` and `Remove` give the same result for a key and for its lower-cased form. |
| Headers.Add | CaptureProxy/HeaderCollection.cs:40-50 | The key's values gain `value` at the end, and every other key keeps its values. The collection invariant is kept: names distinct and lower-case, each with at least one value. |
| Headers.AddOrReplace | CaptureProxy/HeaderCollection.cs:52-63 | Afterwards the key holds exactly `value`, and every other key keeps its values. The invariant is kept. |
| Headers.Remove | CaptureProxy/HeaderCollection.cs:65-73 | Afterwards the key has no values and no first value, and every other key keeps its values. Removing a key that is absent leaves the collection unchanged. The invariant is kept. |
| Headers.Dispose | CaptureProxy/HeaderCollection.cs:34-38 | Afterwards no key has any value. |
| Headers.ContentLength | CaptureProxy/HeaderCollection.cs:15-22 | The result is within the `long` range. A non-zero result is the parse of the first `content-length` value. |
| Headers.ContentLengthReads | CaptureProxy/HeaderCollection.cs:15-22 | The getter reads 0 when the header is missing or its first value is not a `long`, and reads the parsed value otherwise. |
| Headers.SetContentLength | CaptureProxy/HeaderCollection.cs:23-31 | The getter reads back the length that was set. Setting 0 removes the header. Any other length leaves exactly one value, its decimal text. Every other key keeps its values. |
| Headers.SetContentLengthKeeps | CaptureProxy/HeaderCollection.cs:23-31 | Setting the length a collection already carries changes nothing. |
| Headers.SetProxyAuthorization | CaptureProxy/HeaderCollection.cs:98-102 | Afterwards there is exactly one `proxy-authorization` value: `Basic ` followed by base64 characters. Every other key keeps its values. |
| Headers.AddAllFields | CaptureProxy/HttpIO/HttpRequest.cs:109-127 | Adding every field of a collection, in order, to an empty collection rebuilds it exactly. |
| HeaderLines.ParseFieldLine | CaptureProxy/HttpIO/HttpRequest.cs:59-68 | A line without a colon is an error, and that is the only error. Otherwise the line splits at its first colon. The line is skipped exactly when the trimmed text before that colon is empty. An accepted field's name is that text, trimmed and lower-cased, and its value is the trimmed text after the colon. |
| HeaderLines.ReadFieldLines | CaptureProxy/HttpIO/HttpRequest.cs:52-80 | A line that cannot be read fails the section with the line fault. A non-empty line without a colon fails it as malformed. An empty first line ends the section at once with no fields. Every field read is a stored field. On success the rest of the input directly follows the CR LF of the empty line that ends the head. |
| HeaderLines.ReadWriteHeaders | CaptureProxy/HttpIO/HttpRequest.cs:93-99 | A written header section, read back, gives every field in order and rebuilds the collection exactly. |
| HttpPacket.SetBody | CaptureProxy/HttpIO/HttpPacket.cs:81-90 | The body is set. `Content-Length` reads back its length, and is absent for an empty body. A chunked packet loses its `Transfer-Encoding` and its chunked flag. Every other header is kept. |
| HttpPacket.ReadChunk | CaptureProxy/HttpIO/HttpPacket.cs:54-70 | A failing size line fails the read with the same fault. A size line that is not 32-bit hexadecimal is invalid. Accepted data fits a byte array and is followed by at least five bytes of framing. |
| HttpPacket.ReadChunkFrame | CaptureProxy/HttpIO/HttpPacket.cs:54-70 | Whatever is accepted is one chunk frame: a size line within the bound whose value is the data's length, the data, then CR LF. |
| HttpPacket.ChunkEndAlwaysEmpty | CaptureProxy/HttpIO/HttpPacket.cs:63-67 | The end-of-chunk check never fires: a line read with a bound of 2 is either empty or an error. |
| HttpPacket.ReadWriteChunk | CaptureProxy/HttpIO/HttpPacket.cs:54-79 | A chunk the proxy writes, followed by anything, reads back as its data. |
| HttpPacket.ReadChunkList | CaptureProxy/HttpIO/HttpPacket.cs:29-44 | The chunks read up to the zero-size terminator are all non-empty and fit a byte array. |
| HttpPacket.ReadWriteChunks | CaptureProxy/HttpIO/HttpPacket.cs:29-44 | Non-empty chunks written with the terminator read back as the same chunks. |
| HttpPacket.ReadBody | CaptureProxy/HttpIO/HttpPacket.cs:22-45 | A positive `Content-Length` reads exactly that many bytes into the body, and fails when fewer arrive. Otherwise a chunked packet reads its chunks and concatenates them. Otherwise nothing is read. |
| HttpPacket.ReadWrittenBody | CaptureProxy/HttpIO/HttpPacket.cs:22-52 | A body set by `SetBody` and written out reads back into the same packet. |
| HttpPacket.ReadChunkedBody | CaptureProxy/HttpIO/HttpPacket.cs:29-44 | A chunked packet without a positive length reads a written chunk list as the body set to the chunks' concatenation. |
| HttpPacket.TransferChunks | CaptureProxy/HttpIO/HttpPacket.cs:208-219 | The chunked relay succeeds exactly when the input reads as a chunk list, and fails with the same fault otherwise. |
| HttpPacket.TransferChunksPreserves | CaptureProxy/HttpIO/HttpPacket.cs:208-219 | The relayed bytes read as the same chunks the input held, terminator included. |
| HttpPacket.TransferCanonicalChunks | CaptureProxy/HttpIO/HttpPacket.cs:208-219 | Input already in the proxy's own chunk framing is relayed byte for byte. |
| HttpPacket.TransferBody | CaptureProxy/HttpIO/HttpPacket.cs:189-220 | With a positive length, the relay writes a prefix of the stream. It succeeds exactly when at least that many bytes arrive, and then has relayed at least the body. A stream that ends early is reported closed after relaying all of it. Otherwise the relay is the chunked relay or nothing. |
| HttpPacket.TransferFixedOvershoots | CaptureProxy/HttpIO/HttpPacket.cs:196-206 | With a transport that fills the buffer, a 2-byte body followed by two more bytes relays all four. |
| HttpPacket.TransferBodyBounded | CaptureProxy/HttpIO/HttpPacket.cs:189-220 | With a positive length that has arrived, exactly the body is relayed and the rest is left. A shorter stream is relayed whole and reported closed. |
| HttpPacket.TransferBodyCoversBody | CaptureProxy/HttpIO/HttpPacket.cs:189-220 | The relay as written and the bounded relay succeed together. The bounded relay's bytes are a prefix of the ones written, and the two agree whenever the stream ends early. |
| HttpPacket.CodecOf | CaptureProxy/HttpIO/HttpPacket.cs:126-143 | `gzip` selects gzip, `compress` and `deflate` select deflate, `br` selects Brotli, ignoring case, and nothing else selects a codec. |
| HttpPacket.DecodeBody | CaptureProxy/HttpIO/HttpPacket.cs:119-151 | No body or no `Content-Encoding` changes nothing. An unknown encoding is unsupported, and a stream the decompressor rejects is corrupt. On success, the body is the decompressed one and `Content-Encoding` is gone. `Content-Length` is rewritten to the new length only when it was positive. Every other header is kept. |
| HttpPacket.DecodeBodySettles | CaptureProxy/HttpIO/HttpPacket.cs:119-151 | Decoding an already decoded packet changes nothing. |
| HttpRequest.ParseMethodName | CaptureProxy/HttpIO/HttpRequest.cs:39 | Every method the parser can produce is written as a token that parses back as the same method. |
| HttpRequest.ParseRequestLine | CaptureProxy/HttpIO/HttpRequest.cs:31-49 | Fewer than three parts is malformed. On success, the method is the parse of the first part, and the URI is the second part resolved against the base (with `https://` in front for `CONNECT`). The version is the third part. |
| HttpRequest.ReadRequestHead | CaptureProxy/HttpIO/HttpRequest.cs:28-81 | A request line that cannot be read fails with the line fault. A request line that does not parse fails with the parse's fault. On success the method, URI and version are the parse of the line that was read. The header section is read after that line, and its fields are added to the request's headers in order. The chunked flag is set exactly when it was already set or some field is `transfer-encoding: chunked` or an `x-amz-content-sha256` value containing `streaming`. The body is untouched, and the headers keep their invariant. |
| HttpRequest.WriteRequestHead | CaptureProxy/HttpIO/HttpRequest.cs:83-107 | The head can be written exactly when the URI is set. |
| HttpRequest.ReadWriteRequestHead | CaptureProxy/HttpIO/HttpRequest.cs:28-107 | A written head read back gives the same method, version and headers. Its URI is the written target resolved by the reader. The chunked flag is set by the headers that mark it. |
| HttpRequest.Clone | CaptureProxy/HttpIO/HttpRequest.cs:109-127 | Cloning fails exactly when the URI is not set. Otherwise the clone equals the original, headers included in order. |
| HttpResponse.ReadResponseHead | CaptureProxy/HttpIO/HttpResponse.cs:14-71 | A status line that cannot be read fails with the line fault. A status line that does not parse fails with the parse's fault. On success the version, status and reason are the parse of the line that was read. The header section follows that line, and its fields are added to the response's headers in order. The chunked flag is set exactly when it was already set or some field is `transfer-encoding: chunked`. The event-stream flag is set exactly when it was already set or some `content-type` starts with `text/event-stream`. The body is untouched, and the headers keep their invariant. |
| HttpResponse.ParseStatusLine | CaptureProxy/HttpIO/HttpResponse.cs:17-40 | Fewer than two parts is malformed. A second part that is not a 32-bit integer is an invalid status. On success the version is the first part and the status is the parse of the second. The reason is the trimmed join of the parts after the second, or the previous reason when there are none. |
| HttpResponse.ParseWrittenStatusLine | CaptureProxy/HttpIO/HttpResponse.cs:17-40 | A status line written with a space-free version, a 32-bit status and a trimmed reason parses back as those three. When no reason was written, the reader's previous reason is kept. |
| HttpResponse.WriteResponseHead | CaptureProxy/HttpIO/HttpResponse.cs:73-96 | The head can be written exactly when the status fits 16 bits. |
| HttpResponse.ReadWriteResponseHead | CaptureProxy/HttpIO/HttpResponse.cs:14-96 | A written head read back gives the same version, status and headers. The reason is the written one, or the reader's own when none was written. The flags are set by the headers that mark them. |
| HttpResponse.ReadEventStreamBody | CaptureProxy/HttpIO/HttpResponse.cs:98-112 | Only an event stream can be read this way. A positive length reads the body as `ReadBody` does. A chunked stream reads exactly one chunk into the body, leaving the headers alone. Otherwise nothing is read. |
| HttpResponse.WriteEventStreamBody | CaptureProxy/HttpIO/HttpResponse.cs:114-130 | Only an event stream can be written this way. Without a body nothing is written. With a positive length the body is written as it is. A chunked stream writes the body as one chunk. |
| HttpResponse.ReadWriteEventChunk | CaptureProxy/HttpIO/HttpResponse.cs:98-130 | One event written as a chunk reads back as the same response. |
| HttpResponse.ReadWriteEventBody | CaptureProxy/HttpIO/HttpResponse.cs:98-130 | An event-stream body set with its length is written whole and read back whole. |
| Session.ConnectResponseReads | CaptureProxy/Session.cs:167-174 | The greeting a client reads back is a 200 with the reason `Connection Established` and the request's own version. |
| Session.BlockedResponse | CaptureProxy/Session.cs:242-251 | A 400 `Bad Request` in the request's version whose body is the fixed message and whose `Content-Length` is the message's length. |
| Session.BlockedBodyReads | CaptureProxy/Session.cs:242-251 | The blocked body, read under the length the response carries, is exactly the fixed message. |
| Session.DialLoop | CaptureProxy/Session.cs:187-206 | At most three attempts, stopping at the first that connects. It ends connected exactly when some attempt within the three connects. |
| Session.ConnectRequest | CaptureProxy/Session.cs:211-221 | A `CONNECT` with the first request's URI and version, no body, and a `Proxy-Authorization` header exactly when both a user and a password are set. It has no other header. |
| Session.UpstreamConnect | CaptureProxy/Session.cs:211-231 | The upstream proxy accepts exactly when the request's URI is set and its reply reads with status 200. A readable reply with any other status is a refusal. |
| Session.EstablishRemoteLeaks | CaptureProxy/Session.cs:209-239 | For an upstream proxy that closes without replying, the code as written opens one connection, closes none, and returns no remote. |
| Session.EstablishRemoteBalanced | CaptureProxy/Session.cs:176-240 | Every connection opened is either handed back as the remote or closed. The one exception is a failed upstream exchange in the code as written, which leaves exactly one connection open. There are at most three dials and no tunnel. |
| Session.AbortMeansNoDial | CaptureProxy/Session.cs:182-185 | A hook that aborts means no dial and no remote. |
| Session.RefusedUpstreamNoRemote | CaptureProxy/Session.cs:224-230 | An upstream reply other than 200 leaves no remote, and the connection to the proxy is closed. |
| Session.ChooseTunnel | CaptureProxy/Session.cs:97-136 | Without capture, the secure buffer tunnel for `CONNECT` and the buffer tunnel otherwise. With capture, the decrypting tunnel for plain HTTP and no tunnel for `CONNECT`. |
| Session.HandleTunneling | CaptureProxy/Session.cs:45-165 | A first request that cannot be read leaves no remote and one caught fault. |
| Session.NoBaseNoDial | CaptureProxy/Session.cs:22-73 | A first request that cannot be read, or that names no host, ends the session at once: the fault is caught, the client is closed, and nothing is dialled. For `CONNECT` the fault is an invalid URI, because the URI constructor throws; for any other method it is the missing hostname. |
| Session.ConnectGreetsFirst | CaptureProxy/Session.cs:75-82 | For `CONNECT`, the first thing the client receives is the `200 Connection Established` greeting, before any dial. |
| Session.RouteCounts | CaptureProxy/Session.cs:45-165 | Before teardown, one connection is left open exactly when there is a remote. The code as written leaves one more when the upstream exchange fails. There are at most three dials. |
| Session.SessionCounts | CaptureProxy/Session.cs:22-37 | At the end of a session every connection it opened is closed, except the one the code as written drops when the upstream exchange fails. There are at most three dials. |
| Session.SessionClosesEveryRemote | CaptureProxy/Session.cs:22-37 | With the upstream connection closed on failure, a session closes every connection it opened. |
| Session.SessionEndsClosed | CaptureProxy/Session.cs:28-31 | A session always ends by closing the client, right after closing the remote when one was left open. |
| Session.NoRemoteNoTunnel | CaptureProxy/Session.cs:84-94 | Without a remote, no tunnel starts. |
| Session.NoRemoteBlocked | CaptureProxy/Session.cs:84-94 | A session left without a remote ends with the blocked response. The exception is a failed client TLS handshake for `CONNECT`, which is caught instead. |
| Session.TunnelTable | CaptureProxy/Session.cs:96-136 | With a remote, the tunnel is the one the table gives for the hook's capture choice and the SSL mode, and it is the last thing done before teardown. Captured `CONNECT` traffic starts no tunnel. |

## Left out

- Text: the codec maps one character to one octet. `Encoding.UTF8` agrees with this on ASCII, which is where every round trip is stated. On other input they differ: an invalid byte such as 0xFF becomes U+FFFD and is re-sent as EF BF BD, a non-ASCII character becomes several bytes, and so on. Non-ASCII header text is therefore outside what the model promises.
- Text.IsWhite and Text.LowerChar: `char.IsWhiteSpace` and `ToLower` are modelled on ASCII only. The culture-sensitive lower-casing and the culture-sensitive `StartsWith`/`Contains` of the code are taken as ordinal and invariant.
- HttpResponse.ParseStatusLine: the status is read as a decimal integer only. `Enum.TryParse<HttpStatusCode>` also accepts member names such as `OK` and comma-separated lists of names. The model rejects those as an invalid status.
- HttpResponse.ReadResponseHead: takes its status from `HttpResponse.ParseStatusLine`, so it reads the status the same way, as a decimal integer only.
- Headers.Add: a new name is always placed at the end of the name order. A .NET `Dictionary` puts a new key into a slot that a `Remove` has freed, so after a removal the code's enumeration order can differ from the model's.
- HeaderLines.WriteFieldLines: writes the names in the model's insertion order. For the reason above, this can differ from the code's order after a removal.
- Headers.GetValues: returns the values, not the live list the code hands out. Changes a caller makes through that alias are not modelled.
- Session.BaseUri: `Session.cs` reads `request.Url`, which `HttpRequest` (CaptureProxy/HttpIO/HttpRequest.cs) does not have. The model takes it to be the authority of a `CONNECT` request's URI and the printed URI of any other.
- Session.EstablishRemote: `new HttpRequest()` is constructed without the proxy argument the class requires. The connect request is modelled as a fresh request.
- Uri host and port: these are what the runtime's URI parser derives. They are fields of the abstract `Uri`, filled in by the `Resolver` parameter. `Uri.TryCreate`, `new Uri` and `HttpMethod.Parse` are not modelled beyond the method names the runtime knows.
- Session.RefusedUpstreamNoRemote: stated for requests whose URI is set, which every request read with a base URI has.
- Cancellation tokens (HttpRequest.cs:54; HttpPacket.cs:35, 200, 212) never fire. The `CanRead` check (Client.cs:97) always passes.
- `Settings.ProxyIsRunning` is taken as true throughout. The loops it guards (Client.cs:70, 112; HttpResponse.cs:43) run until they finish.
- Writes and flushes to either side are taken to succeed. Only reads can fail.
- The tunnel-establish hook is a total function of host and port. A hook that throws is not modelled, and neither are the other events the proxy raises.
- Decompression is the `Decompressor` parameter. Gzip, deflate and Brotli themselves are not modelled.
- `SetBody(string)` and its charset lookup are not modelled, except that the blocked message is ASCII.
- `Convert.ToInt16` is modelled as its range check only.
- Line and buffer bounds: `HttpPacket.MaxChunkSizeLine` (1024 octets), `HttpPacket.StreamBufferSize` (64 KiB) and `HttpResponse.MaxIncomingHeaderLine` (64 KiB) are fixed at their defaults in `Settings.cs`. The code reads them from the proxy's settings, which an embedding application may change. The model does not cover other values.
- TLS is the `handshake` flag of the environment. Sockets and dialling are the `Dialer` parameter.
- The tunnels (`Tunnels/*`), certificate generation and logging are not part of this model. A session records which tunnel it starts, but not what the tunnel does.
- `Dispose` of packets, requests, responses and sessions is not modelled. It only releases memory and sockets already accounted for by the teardown.

## Findings

| source | as written | input that shows it | evidently intended | confidence | as-written member | corrected member |
|---|---|---|---|---|---|---|
| CaptureProxy/HttpIO/HttpPacket.cs:196-206 | Each read of a fixed-length body asks for a whole buffer and writes everything it receives. | `Content-Length: 2`, followed on the stream by the bytes 1 2 3 4, with a transport that fills the buffer: all four bytes are relayed as the body. | Each read is bounded by what is left of the body, as the buffer tunnel does with `Math.Min` (Tunnels/BufferTunnel.cs:54-55). | not executed | HttpPacket.TransferFixedOvershoots | HttpPacket.TransferBodyCoversBody |
| CaptureProxy/Session.cs:235-239 | A failure while talking to the upstream proxy is caught and logged. `null` is returned without closing the connection already opened to that proxy. | The hook asks for an upstream proxy, the dial connects, and the proxy closes without replying: one connection is opened and none is closed. | The connection is closed, as on the refusal path (Session.cs:227-228). | not executed | Session.EstablishRemoteLeaks | Session.SessionClosesEveryRemote |
