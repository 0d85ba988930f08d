/** A request head: the request line (method, target, version) and the header
    section. Reading resolves the target against an optional base URI, prefixing
    `https://` for `CONNECT`; writing chooses the target form the method and the
    next hop call for. URIs are abstract: their parsing and printing are a
    parameter of the model. */
module HttpRequest {
  import opened Wrappers
  import opened Faults
  import opened Text
  import opened Headers
  import opened Client
  import opened HttpPacket
  import opened HeaderLines

  // ------------------------------------------------------------------ methods

  /** The methods the runtime knows by name, and any other token. */
  datatype Method = Get | Put | Post | Delete | Head | Options | Trace | Patch | Connect
                  | Extension(name: string)

  /** A `tchar` of section 5.6.2 of RFC 9110. */
  predicate IsTokenChar(c: char) {
    ('a' <= c <= 'z') || ('A' <= c <= 'Z') || ('0' <= c <= '9') || c in "!#$%&'*+-.^_`|~"
  }

  predicate IsToken(s: string) {
    |s| > 0 && forall i :: 0 <= i < |s| ==> IsTokenChar(s[i])
  }

  /** Ordinal comparison ignoring case, on the octet range. */
  predicate EqualsIgnoreCase(a: string, b: string) {
    |a| == |b| && forall i :: 0 <= i < |a| ==> LowerChar(a[i]) == LowerChar(b[i])
  }

  /** The known method a token names, ignoring case. */
  function KnownMethod(s: string): (r: Option<Method>)
    ensures r.Some? ==> !r.value.Extension? && EqualsIgnoreCase(s, MethodName(r.value))
  {
    if EqualsIgnoreCase(s, "GET") then Some(Get)
    else if EqualsIgnoreCase(s, "PUT") then Some(Put)
    else if EqualsIgnoreCase(s, "POST") then Some(Post)
    else if EqualsIgnoreCase(s, "DELETE") then Some(Delete)
    else if EqualsIgnoreCase(s, "HEAD") then Some(Head)
    else if EqualsIgnoreCase(s, "OPTIONS") then Some(Options)
    else if EqualsIgnoreCase(s, "TRACE") then Some(Trace)
    else if EqualsIgnoreCase(s, "PATCH") then Some(Patch)
    else if EqualsIgnoreCase(s, "CONNECT") then Some(Connect)
    else None
  }

  /** `HttpMethod.ToString()`: the canonical upper-case name, or the token as given. */
  function MethodName(m: Method): string {
    match m
    case Get => "GET"
    case Put => "PUT"
    case Post => "POST"
    case Delete => "DELETE"
    case Head => "HEAD"
    case Options => "OPTIONS"
    case Trace => "TRACE"
    case Patch => "PATCH"
    case Connect => "CONNECT"
    case Extension(name) => name
  }

  /** `HttpMethod.Parse`: a known name in any case gives that method; any other
      token gives an extension method; anything else is rejected. */
  function ParseMethod(s: string): (r: Result<Method>)
    ensures r == Fail(InvalidMethod) <==> KnownMethod(s).None? && !IsToken(s)
    ensures r.Fail? ==> r.error == InvalidMethod
    ensures r.Ok? && r.value.Extension? ==> r.value.name == s && IsToken(s)
    ensures r.Ok? ==> EqualsIgnoreCase(s, MethodName(r.value))
  {
    var known := KnownMethod(s);
    if known.Some? then Ok(known.value)
    else if IsToken(s) then Ok(Extension(s))
    else Fail(InvalidMethod)
  }

  /** Each known method's canonical name is a token the parser maps back to it. */
  lemma KnownNames(m: Method)
    requires !m.Extension?
    ensures KnownMethod(MethodName(m)) == Some(m)
    ensures IsToken(MethodName(m))
  {
    KnownNameMatches(m);
    KnownNameIsToken(m);
  }

  lemma KnownNameIsToken(m: Method)
    requires !m.Extension?
    ensures IsToken(MethodName(m))
  {
  }

  lemma KnownNameMatches(m: Method)
    requires !m.Extension?
    ensures KnownMethod(MethodName(m)) == Some(m)
  {
    var name := MethodName(m);
    assert EqualsIgnoreCase(name, name);
    match m
    case Get =>
    case Put => DifferAt("PUT", "GET", 0);
    case Post => DifferAt("POST", "HEAD", 0);
    case Delete =>
    case Head => DifferAt("HEAD", "POST", 0);
    case Options =>
    case Trace =>
    case Patch => DifferAt("PATCH", "TRACE", 0);
    case Connect => DifferAt("CONNECT", "OPTIONS", 0);
  }

  /** Names that differ in some letter, ignoring case, are different names. */
  lemma DifferAt(a: string, b: string, i: nat)
    requires i < |a| && i < |b| && LowerChar(a[i]) != LowerChar(b[i])
    ensures !EqualsIgnoreCase(a, b) && !EqualsIgnoreCase(b, a)
  {
  }

  /** A method the parser can produce: an extension is a token that is not a
      known name in some other case. */
  predicate ValidMethod(m: Method) {
    m.Extension? ==> IsToken(m.name) && KnownMethod(m.name).None?
  }

  /** Every method the parser accepts is valid, and writing then parsing a valid
      method gives it back. */
  lemma ParseMethodName(m: Method)
    requires ValidMethod(m)
    ensures ParseMethod(MethodName(m)) == Ok(m)
    ensures IsToken(MethodName(m))
  {
    if !m.Extension? {
      KnownNames(m);
    }
  }

  // --------------------------------------------------------------------- URIs

  /** The parts of a URI the proxy uses, and its printed form. The host and port
      are what the runtime's URI parser derives from the authority (the scheme's
      default port when none is written). */
  datatype Uri = Uri(scheme: string, authority: string, host: string, port: int, pathAndQuery: string, text: string)

  /** `Uri.TryCreate(baseUri, text)`: an absolute URI, or `text` resolved against
      the base, or nothing. */
  type Resolver = (Option<Uri>, string) -> Option<Uri>

  // ------------------------------------------------------------------ requests

  datatype Request = Request(verb: Method, uri: Option<Uri>, version: string, packet: Packet)

  /** A freshly constructed request: `GET`, no URI, `HTTP/1.1`, an empty packet. */
  const FreshRequest: Request := Request(Get, None, "HTTP/1.1", Fresh)

  /** A header line that marks a request body as chunked: `Transfer-Encoding:
      chunked`, or an S3 streaming signature. */
  predicate ChunkedRequestField(f: Field) {
    || (f.0 == "transfer-encoding" && Lower(f.1) == "chunked")
    || (f.0 == "x-amz-content-sha256" && Contains(Lower(f.1), "streaming"))
  }

  predicate AnyChunkedRequestField(fs: seq<Field>) {
    exists i :: 0 <= i < |fs| && ChunkedRequestField(fs[i])
  }

  /** What the request line's target must be prefixed with before it is resolved. */
  function TargetPrefix(m: Method): string {
    if m == Connect then "https://" else ""
  }

  /** The parts of a request line once read: the method, the target resolved
      against the base, and the version. */
  datatype StartLine = StartLine(verb: Method, uri: Uri, version: string)

  /** The request line of `ReadHeaderAsync`: at least three space-separated parts,
      a known method, and a target that resolves (prefixed with `https://` for
      `CONNECT`); parts after the third are ignored. */
  function ParseRequestLine(text: string, base: Option<Uri>, resolve: Resolver): (r: Result<StartLine>)
    ensures |Split(text, ' ')| < 3 ==> r == Fail(MalformedRequestLine)
    ensures r.Ok? ==> ParseMethod(Split(text, ' ')[0]) == Ok(r.value.verb)
    ensures r.Ok? ==> resolve(base, TargetPrefix(r.value.verb) + Split(text, ' ')[1]) == Some(r.value.uri)
    ensures r.Ok? ==> r.value.version == Split(text, ' ')[2]
  {
    var parts := Split(text, ' ');
    if |parts| < 3 then Fail(MalformedRequestLine)
    else
      var verb := ParseMethod(parts[0]);
      if verb.Fail? then Fail(verb.error)
      else
        var uri := resolve(base, TargetPrefix(verb.value) + parts[1]);
        if uri.None? then Fail(InvalidUrl) else Ok(StartLine(verb.value, uri.value, parts[2]))
  }

  /** `ReadHeaderAsync(client, baseUri)`: the request line, then the header lines,
      both with the chunk-size line bound. Headers are added to those the request
      already holds. */
  function ReadRequestHead(req: Request, input: Bytes, base: Option<Uri>, resolve: Resolver): (r: Result<Parsed<Request>>)
    ensures ReadLine(input, MaxChunkSizeLine).Fail? ==> r == Fail(ReadLine(input, MaxChunkSizeLine).error)
    ensures ReadLine(input, MaxChunkSizeLine).Ok? && |Split(Decode(ReadLine(input, MaxChunkSizeLine).value.value), ' ')| < 3 ==>
      r == Fail(MalformedRequestLine)
    ensures r.Ok? ==>
      && r.value.value.uri.Some?
      && r.value.value.packet.body == req.packet.body
      && (req.packet.chunked ==> r.value.value.packet.chunked)
      && |r.value.rest| < |input|
    ensures r.Ok? && Valid(req.packet.headers) ==> Valid(r.value.value.packet.headers)
    ensures ReadLine(input, MaxChunkSizeLine).Ok? ==>
      var start := ParseRequestLine(Decode(ReadLine(input, MaxChunkSizeLine).value.value), base, resolve);
      && (start.Fail? ==> r == Fail(start.error))
      && (r.Ok? ==> start == Ok(StartLine(r.value.value.verb, r.value.value.uri.value, r.value.value.version)))
    ensures r.Ok? ==>
      var fields := ReadFieldLines(ReadLine(input, MaxChunkSizeLine).value.rest, MaxChunkSizeLine);
      && fields.Ok?
      && r.value.rest == fields.value.rest
      && r.value.value.packet.headers == AddAll(req.packet.headers, fields.value.value)
      && r.value.value.packet.chunked == (req.packet.chunked || AnyChunkedRequestField(fields.value.value))
  {
    var line := ReadLine(input, MaxChunkSizeLine);
    if line.Fail? then Fail(line.error)
    else
      var start := ParseRequestLine(Decode(line.value.value), base, resolve);
      if start.Fail? then Fail(start.error)
      else
        var fields := ReadFieldLines(line.value.rest, MaxChunkSizeLine);
        if fields.Fail? then Fail(fields.error)
        else
          var fs := fields.value.value;
          var chunked := req.packet.chunked || AnyChunkedRequestField(fs);
          var headers := AddAllValid(req.packet.headers, fs);
          var v := start.value;
          Ok(Parsed(Request(v.verb, Some(v.uri), v.version, Packet(headers, req.packet.body, chunked)), fields.value.rest))
  }

  /** The request target `WriteHeaderAsync` writes: the authority for `CONNECT`, the
      absolute URI for plain HTTP sent to an upstream proxy, else the origin form. */
  function Target(m: Method, uri: Uri, toProxy: bool): string {
    if m == Connect then uri.authority
    else if uri.scheme == "http" && toProxy then uri.text
    else uri.pathAndQuery
  }

  /** The request line `WriteHeaderAsync` writes, without its CR LF. */
  function RequestLine(m: Method, target: string, version: string): string {
    MethodName(m) + " " + target + " " + version
  }

  /** `WriteHeaderAsync(client, sendToProxy)`: the request line, then every header
      value on its own line, then an empty line; a request whose URI was never set
      cannot be written. */
  function WriteRequestHead(r: Request, toProxy: bool): (w: Result<Bytes>)
    requires Valid(r.packet.headers)
    ensures w.Ok? <==> r.uri.Some?
    ensures w.Fail? ==> w.error == UriNotSet
  {
    if r.uri.None? then Fail(UriNotSet)
    else
      var line := RequestLine(r.verb, Target(r.verb, r.uri.value, toProxy), r.version);
      Ok(Encode(line) + CRLF + WriteHeaders(r.packet.headers))
  }

  /** A request line that reads back: a valid method, a target and version without
      spaces, the whole line free of CR and within the line bound. */
  predicate LineFits(m: Method, target: string, version: string) {
    && ValidMethod(m)
    && ' ' !in target && ' ' !in version
    && LineText(RequestLine(m, target, version))
    && |RequestLine(m, target, version)| + 2 <= MaxChunkSizeLine
  }

  /** A request line splits into exactly its three parts. */
  lemma SplitRequestLine(m: Method, target: string, version: string)
    requires ValidMethod(m) && ' ' !in target && ' ' !in version
    ensures Split(RequestLine(m, target, version), ' ') == [MethodName(m), target, version]
  {
    var name := MethodName(m);
    ParseMethodName(m);
    assert ' ' !in name;
    var parts := [name, target, version];
    assert Join(parts[2..], ' ') == version;
    assert Join(parts[1..], ' ') == target + " " + version;
    assert Join(parts, ' ') == RequestLine(m, target, version);
    SplitJoin(parts, ' ');
  }

  /** A written head read into a request without headers gives back its method,
      version and headers; the URI is the written target, resolved as the reader
      resolves it; the chunked flag is set by the headers that mark it. */
  lemma ReadWriteRequestHead(r: Request, toProxy: bool, into: Request, base: Option<Uri>, resolve: Resolver, rest: Bytes)
    requires r.uri.Some?
    requires LineFits(r.verb, Target(r.verb, r.uri.value, toProxy), r.version)
    requires HeadersFit(r.packet.headers, MaxChunkSizeLine)
    requires into.packet.headers == Empty
    requires resolve(base, TargetPrefix(r.verb) + Target(r.verb, r.uri.value, toProxy)).Some?
    ensures ReadRequestHead(into, WriteRequestHead(r, toProxy).value + rest, base, resolve)
         == Ok(Parsed(Request(r.verb,
                              resolve(base, TargetPrefix(r.verb) + Target(r.verb, r.uri.value, toProxy)),
                              r.version,
                              Packet(r.packet.headers, into.packet.body,
                                     into.packet.chunked || AnyChunkedRequestField(Fields(r.packet.headers)))),
                       rest))
  {
    var target := Target(r.verb, r.uri.value, toProxy);
    assert WriteRequestHead(r, toProxy).value == Encode(RequestLine(r.verb, target, r.version)) + CRLF + WriteHeaders(r.packet.headers);
    ReadWrittenLine(r.verb, target, r.version, r.packet.headers, into, base, resolve, rest);
  }

  /** The round trip of a request line with any target, followed by a header section. */
  lemma ReadWrittenLine(m: Method, target: string, version: string, h: HeaderCollection, into: Request,
                        base: Option<Uri>, resolve: Resolver, rest: Bytes)
    requires LineFits(m, target, version)
    requires HeadersFit(h, MaxChunkSizeLine)
    requires into.packet.headers == Empty
    requires resolve(base, TargetPrefix(m) + target).Some?
    ensures ReadRequestHead(into, Encode(RequestLine(m, target, version)) + CRLF + WriteHeaders(h) + rest, base, resolve)
         == Ok(Parsed(Request(m, resolve(base, TargetPrefix(m) + target), version,
                              Packet(h, into.packet.body, into.packet.chunked || AnyChunkedRequestField(Fields(h)))),
                       rest))
  {
    var text := RequestLine(m, target, version);
    var tail := WriteHeaders(h) + rest;
    var input := Encode(text) + CRLF + WriteHeaders(h) + rest;
    assert input == Encode(text) + CRLF + tail;
    LineTextNoCrlf(text);
    ReadLineOfLine(Encode(text), tail, MaxChunkSizeLine);
    DecodeEncode(text);
    SplitRequestLine(m, target, version);
    ParseMethodName(m);
    ReadWriteHeaders(h, rest, MaxChunkSizeLine);
    ReadRequestHeadOf(into, input, base, resolve, Encode(text), tail, m, target, version, Fields(h), rest);
  }

  /** How `ReadHeaderAsync` combines a request line and a header section that both
      read successfully. */
  lemma ReadRequestHeadOf(into: Request, input: Bytes, base: Option<Uri>, resolve: Resolver,
                          line: Bytes, tail: Bytes, m: Method, target: string, version: string,
                          fs: seq<Field>, rest: Bytes)
    requires ReadLine(input, MaxChunkSizeLine) == Ok(Parsed(line, tail))
    requires Split(Decode(line), ' ') == [MethodName(m), target, version]
    requires ParseMethod(MethodName(m)) == Ok(m)
    requires resolve(base, TargetPrefix(m) + target).Some?
    requires ReadFieldLines(tail, MaxChunkSizeLine) == Ok(Parsed(fs, rest))
    ensures ReadRequestHead(into, input, base, resolve)
         == Ok(Parsed(Request(m, resolve(base, TargetPrefix(m) + target), version,
                              Packet(AddAll(into.packet.headers, fs), into.packet.body,
                                     into.packet.chunked || AnyChunkedRequestField(fs))),
                      rest))
  {
    ParseRequestLineOf(Decode(line), base, resolve, m, target, version);
    var h := AddAllValid(into.packet.headers, fs);
  }

  /** A request line of exactly three parts with a known method and a target that
      resolves gives back those parts. */
  lemma ParseRequestLineOf(text: string, base: Option<Uri>, resolve: Resolver, m: Method, target: string, version: string)
    requires Split(text, ' ') == [MethodName(m), target, version]
    requires ParseMethod(MethodName(m)) == Ok(m)
    requires resolve(base, TargetPrefix(m) + target).Some?
    ensures ParseRequestLine(text, base, resolve) == Ok(StartLine(m, resolve(base, TargetPrefix(m) + target).value, version))
  {
    var parts := Split(text, ' ');
    assert parts[0] == MethodName(m) && parts[1] == target && parts[2] == version;
  }

  /** `Clone`: a request with the same method, URI, version, flag and body, and a
      fresh collection holding every header value in order; reading the URI of a
      request that has none fails. */
  function Clone(r: Request): (c: Result<Request>)
    requires Valid(r.packet.headers)
    ensures c.Ok? <==> r.uri.Some?
    ensures c.Fail? ==> c.error == UriNotSet
    ensures c.Ok? ==> c.value == r
  {
    if r.uri.None? then Fail(UriNotSet)
    else
      AddAllFields(r.packet.headers);
      var h := AddAll(Empty, Fields(r.packet.headers));
      Ok(Request(r.verb, r.uri, r.version, Packet(h, r.packet.body, r.packet.chunked)))
  }
}
