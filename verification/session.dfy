/** One proxied connection: read the first request, decide where it goes, reach the
    remote (through the tunnel-establish hook, a bounded dial and an optional
    upstream `CONNECT`), answer with the blocked response when that fails, pick a
    tunnel, and close everything at the end. Sockets, the hook and the upstream
    proxy's reply are parameters; what the session does is an event log. */
module Session {
  import opened Wrappers
  import opened Faults
  import opened Text
  import opened Headers
  import opened HeaderLines
  import opened HttpPacket
  import opened HttpRequest
  import opened HttpResponse

  /** What the tunnel-establish hook leaves in its event arguments: where to dial,
      whether to abort, whether to go through an upstream proxy (with optional
      credentials), and whether to capture the traffic. */
  datatype Decision = Decision(
    host: string,
    port: int,
    abort: bool,
    upstreamProxy: bool,
    proxyUser: Option<string>,
    proxyPass: Option<string>,
    packetCapture: bool)

  /** The hook, given the host and port of the base URI, which its decision starts
      from. */
  type Hook = (string, int) -> Decision

  /** Whether dial attempt `attempt` (counted from 0) to `host:port` connects. */
  type Dialer = (string, int, nat) -> bool

  /** Everything outside the session: URI parsing, the hook, the network, what an
      upstream proxy replies to `CONNECT`, and whether the client's TLS handshake
      succeeds. */
  datatype Env = Env(resolve: Resolver, hook: Hook, dial: Dialer, upstreamReply: Bytes, handshake: bool)

  datatype Tunnel = SecureBufferTunnel | BufferTunnel | DecryptedTunnel

  /** What a session does, in order. */
  datatype Event =
    | ClientHead(response: Response)   // a response head written to the client
    | ClientBody(body: Bytes)          // a response body written to the client
    | Dial(host: string, port: int, attempt: nat, connected: bool)
    | RemoteHead(request: Request)     // a request head written to the remote
    | RemoteClosed
    | ClientHandshake(ok: bool)
    | TunnelStarted(tunnel: Tunnel)
    | Caught(fault: Fault)
    | ClientClosed

  // ------------------------------------------------------------------ counting

  predicate IsDial(e: Event) {
    e.Dial?
  }

  /** A dial that connected opens a remote connection. */
  predicate Opens(e: Event) {
    e.Dial? && e.connected
  }

  predicate Closes(e: Event) {
    e.RemoteClosed?
  }

  predicate IsTunnel(e: Event) {
    e.TunnelStarted?
  }

  function Count(events: seq<Event>, p: Event -> bool): nat {
    if |events| == 0 then 0 else (if p(events[0]) then 1 else 0) + Count(events[1..], p)
  }

  lemma {:induction false} CountAppend(a: seq<Event>, b: seq<Event>, p: Event -> bool)
    ensures Count(a + b, p) == Count(a, p) + Count(b, p)
    decreases |a|
  {
    if |a| == 0 {
      assert a + b == b;
    } else {
      assert (a + b)[1..] == a[1..] + b;
      CountAppend(a[1..], b, p);
    }
  }

  /** Counting finds an event exactly when one is there. */
  lemma {:induction false} CountZero(events: seq<Event>, p: Event -> bool)
    ensures Count(events, p) == 0 <==> forall i :: 0 <= i < |events| ==> !p(events[i])
    decreases |events|
  {
    if |events| > 0 {
      CountZero(events[1..], p);
      assert forall i :: 1 <= i < |events| ==> events[1..][i - 1] == events[i];
    }
  }

  // ---------------------------------------------------------------- base URI

  /** The URI the session connects to. `Session.cs` builds it from the request's
      target text: `https://` and the target for `CONNECT`, the target alone
      otherwise. That text is the authority of a `CONNECT` request's URI and the
      printed URI of any other. */
  function BaseUri(req: Request, resolve: Resolver): Option<Uri> {
    if req.uri.None? then None
    else if req.verb == Connect then resolve(None, "https://" + req.uri.value.authority)
    else resolve(None, req.uri.value.text)
  }

  /** What is logged when no base URI can be formed: for `CONNECT` the URI
      constructor throws on the malformed text; otherwise the failed parse is
      swallowed and the missing hostname is reported instead. */
  function NoBaseFault(req: Request): Fault {
    if req.verb == Connect then InvalidUrl else NoHostname
  }

  // -------------------------------------------------------------- responses

  /** `SendConnectResponse`: `200 Connection Established` in the request's version,
      without headers. */
  function ConnectResponse(req: Request): Response {
    Response(req.version, 200, Some("Connection Established"), false, Fresh)
  }

  /** The greeting's bytes. */
  function SendConnectResponse(req: Request): Bytes {
    WriteResponseHead(ConnectResponse(req)).value
  }

  /** The greeting a client reads back is a 200 with the reason `Connection
      Established` and the request's own version. */
  lemma ConnectResponseReads(req: Request, rest: Bytes)
    requires StatusLineFits(ConnectResponse(req))
    ensures ReadResponseHead(FreshResponse, SendConnectResponse(req) + rest)
         == Ok(Parsed(Response(req.version, 200, Some("Connection Established"), false, Fresh), rest))
  {
    assert Fields(Empty) == [];
    ReadWriteResponseHead(ConnectResponse(req), FreshResponse, rest);
  }

  const BlockedMessage: string := "[CaptureProxy] The hostname cannot be resolved or it has been blocked."

  /** The message as the body's bytes. */
  const BlockedBody: Bytes := Encode(BlockedMessage)

  /** `SendBlockedResponse`: `400 Bad Request` in the request's version, carrying
      the fixed message as its body. */
  function BlockedResponse(req: Request): (res: Response)
    ensures res.version == req.version && res.status == 400 && res.reason == Some("Bad Request")
    ensures Valid(res.packet.headers)
    ensures res.packet.body == Some(BlockedBody)
    ensures ContentLength(res.packet.headers) == |BlockedMessage|
  {
    Response(req.version, 400, Some("Bad Request"), false, SetBody(Fresh, BlockedBody))
  }

  /** The head, then the body, as two writes to the client. */
  function SendBlockedResponse(req: Request): (r: seq<Event>)
    ensures |r| == 2 && Quiet(r[0]) && Quiet(r[1])
    ensures r[0] == ClientHead(BlockedResponse(req))
    ensures r[1] == ClientBody(BlockedBody)
  {
    var res := BlockedResponse(req);
    [ClientHead(res), ClientBody(WriteBody(res.packet))]
  }

  /** The blocked body, read under the `Content-Length` the response carries, is
      exactly the fixed message. */
  lemma BlockedBodyReads(req: Request, rest: Bytes)
    ensures ReadBody(BlockedResponse(req).packet, SendBlockedResponse(req)[1].body + rest)
         == Ok(Parsed(BlockedResponse(req).packet, rest))
    ensures BlockedResponse(req).packet.body == Some(BlockedBody)
  {
    ReadWrittenBody(Fresh, BlockedBody, rest);
  }

  // ------------------------------------------------------------------ dialling

  /** The last dial connected. */
  predicate Connected(dials: seq<Event>) {
    |dials| > 0 && Opens(dials[|dials| - 1])
  }

  /** The dial loop from attempt `attempt` on: at most three attempts in all,
      stopping at the first that connects. */
  function DialLoop(host: string, port: int, dial: Dialer, attempt: nat): (r: seq<Event>)
    requires attempt <= 3
    ensures attempt < 3 ==> 0 < |r|
    ensures |r| <= 3 - attempt
    ensures forall i :: 0 <= i < |r| ==> r[i] == Dial(host, port, attempt + i, dial(host, port, attempt + i))
    ensures forall i :: 0 <= i < |r| - 1 ==> !r[i].connected
    ensures Connected(r) <==> exists j :: attempt <= j < 3 && dial(host, port, j)
    ensures !Connected(r) ==> |r| == 3 - attempt
    decreases 3 - attempt
  {
    if attempt == 3 then []
    else if dial(host, port, attempt) then [Dial(host, port, attempt, true)]
    else [Dial(host, port, attempt, false)] + DialLoop(host, port, dial, attempt + 1)
  }

  /** The dial loop opens one connection when it connects and none otherwise. */
  lemma DialLoopCounts(host: string, port: int, dial: Dialer)
    ensures Count(DialLoop(host, port, dial, 0), IsDial) <= 3
    ensures Count(DialLoop(host, port, dial, 0), Opens) == (if Connected(DialLoop(host, port, dial, 0)) then 1 else 0)
    ensures Count(DialLoop(host, port, dial, 0), Closes) == 0
    ensures Count(DialLoop(host, port, dial, 0), IsTunnel) == 0
  {
    var r := DialLoop(host, port, dial, 0);
    CountDials(r, 3);
  }

  /** Dials from the loop, counted. */
  lemma {:induction false} CountDials(r: seq<Event>, bound: nat)
    requires |r| <= bound
    requires forall i :: 0 <= i < |r| ==> r[i].Dial?
    requires forall i :: 0 <= i < |r| - 1 ==> !r[i].connected
    ensures Count(r, IsDial) <= bound
    ensures Count(r, Opens) == (if Connected(r) then 1 else 0)
    ensures Count(r, Closes) == 0 && Count(r, IsTunnel) == 0
    decreases |r|
  {
    if |r| > 0 {
      assert forall i :: 0 <= i < |r| - 1 ==> r[1..][i] == r[i + 1];
      CountDials(r[1..], bound - 1);
      if |r| > 1 {
        assert r[1..][|r| - 2] == r[|r| - 1];
      }
    }
  }

  // ---------------------------------------------------------- upstream proxy

  /** The `CONNECT` sent to an upstream proxy: the first request's URI and version,
      and `Proxy-Authorization` only when both a user and a password are set. */
  function ConnectRequest(req: Request, d: Decision): (r: Request)
    ensures r.verb == Connect && r.uri == req.uri && r.version == req.version
    ensures r.packet.body.None? && !r.packet.chunked
    ensures Valid(r.packet.headers)
    ensures |Lookup(r.packet.headers, ProxyAuthorizationName)| > 0 <==> d.proxyUser.Some? && d.proxyPass.Some?
    ensures forall k :: k != ProxyAuthorizationName ==> Lookup(r.packet.headers, k) == []
  {
    var h := if d.proxyUser.Some? && d.proxyPass.Some? then
      SetProxyAuthorization(Empty, d.proxyUser.value, d.proxyPass.value)
    else Empty;
    Request(Connect, req.uri, req.version, Packet(h, None, false))
  }

  /** The status of the upstream proxy's reply, once its head is read. */
  function ReplyStatus(reply: Bytes): Result<int> {
    var answer := ReadResponseHead(FreshResponse, reply);
    if answer.Fail? then Fail(answer.error) else Ok(answer.value.value.status)
  }

  /** How the upstream proxy answered: with 200, with another status, or not
      at all (a write or read failed). */
  datatype Upstream = Accepted | Refused(status: int) | Broken(fault: Fault)

  datatype Handshake = Handshake(sent: seq<Event>, outcome: Upstream)

  /** Write the `CONNECT` to the upstream proxy and read the status line and headers
      of its reply. */
  function UpstreamConnect(req: Request, d: Decision, reply: Bytes): (r: Handshake)
    ensures r.outcome.Accepted? <==> req.uri.Some? && ReplyStatus(reply) == Ok(200)
    ensures r.outcome.Refused? <==> req.uri.Some? && ReplyStatus(reply).Ok? && ReplyStatus(reply).value != 200
    ensures req.uri.None? ==> r == Handshake([], Broken(UriNotSet))
    ensures forall i :: 0 <= i < |r.sent| ==> Quiet(r.sent[i])
    ensures req.uri.Some? ==> r.sent == [RemoteHead(ConnectRequest(req, d))]
  {
    // the head is written exactly when the URI is set (`WriteRequestHead`)
    if req.uri.None? then Handshake([], Broken(UriNotSet))
    else
      var sent := [RemoteHead(ConnectRequest(req, d))];
      var status := ReplyStatus(reply);
      if status.Fail? then Handshake(sent, Broken(status.error))
      else if status.value != 200 then Handshake(sent, Refused(status.value))
      else Handshake(sent, Accepted)
  }

  // ---------------------------------------------------------------- remote

  /** Which `EstablishRemote` a session runs: the one `Session.cs` has, where a
      failure while talking to the upstream proxy is caught and logged and the
      connection already open is dropped without being closed, or one that closes
      it there too. */
  datatype Variant = AsWritten | Closing

  /** What `EstablishRemote` does with the connection to the upstream proxy once the
      exchange is over: a refusal closes it; a failure is logged, and closes it only
      in the `Closing` variant. */
  function Release(o: Upstream, v: Variant): (r: seq<Event>)
    ensures Count(r, Closes) == (if o.Accepted? || (o.Broken? && v == AsWritten) then 0 else 1)
    ensures Count(r, IsDial) == 0 && Count(r, Opens) == 0 && Count(r, IsTunnel) == 0
    ensures o.Broken? ==> Caught(o.fault) in r
  {
    match o
    case Accepted => []
    case Refused(_) => [RemoteClosed]
    case Broken(f) => if v == AsWritten then [Caught(f)] else [RemoteClosed, Caught(f)]
  }

  /** The remote side of a session: what was done to reach it, the hook's decision
      (none when there was no base URI), and whether a usable remote is open. */
  datatype Established = Established(events: seq<Event>, decision: Option<Decision>, remote: bool)

  /** `EstablishRemote`: ask the hook, dial up to three times, and go through the
      upstream proxy when the hook asks for one. */
  function EstablishRemote(base: Option<Uri>, req: Request, env: Env, v: Variant): (r: Established)
    ensures base.None? ==> r == Established([], None, false)
    ensures base.Some? ==> r.decision == Some(env.hook(base.value.host, base.value.port))
  {
    if base.None? then Established([], None, false)
    else
      var d := env.hook(base.value.host, base.value.port);
      if d.abort then Established([], Some(d), false)
      else
        var dials := DialLoop(d.host, d.port, env.dial, 0);
        if !Connected(dials) then Established(dials, Some(d), false)
        else if !d.upstreamProxy then Established(dials, Some(d), true)
        else
          var u := UpstreamConnect(req, d, env.upstreamReply);
          Established(dials + u.sent + Release(u.outcome, v), Some(d), u.outcome.Accepted?)
  }

  /** The case where the two variants differ: the hook picked an upstream proxy, the
      dial connected, and then the exchange with the proxy failed. */
  predicate UpstreamFails(base: Option<Uri>, req: Request, env: Env) {
    && base.Some?
    && var d := env.hook(base.value.host, base.value.port);
       && !d.abort && d.upstreamProxy
       && Connected(DialLoop(d.host, d.port, env.dial, 0))
       && UpstreamConnect(req, d, env.upstreamReply).outcome.Broken?
  }

  /** An upstream proxy that closes the connection without answering makes the
      `EstablishRemote` of `Session.cs` give up a connection it opened and never
      close it. */
  lemma EstablishRemoteLeaks()
    ensures var env := Env((b: Option<Uri>, t: string) => None,
                           (h: string, p: int) => Decision("proxy", 8080, false, true, None, None, false),
                           (h: string, p: int, i: nat) => true, [], true);
            var base := Some(Uri("https", "example.org:443", "example.org", 443, "/", "https://example.org:443/"));
            var req := Request(Connect, base, "HTTP/1.1", Fresh);
            var r := EstablishRemote(base, req, env, AsWritten);
            && UpstreamFails(base, req, env)
            && !r.remote
            && Count(r.events, Opens) == 1
            && Count(r.events, Closes) == 0
  {
    var env := Env((b: Option<Uri>, t: string) => None,
                   (h: string, p: int) => Decision("proxy", 8080, false, true, None, None, false),
                   (h: string, p: int, i: nat) => true, [], true);
    var base := Some(Uri("https", "example.org:443", "example.org", 443, "/", "https://example.org:443/"));
    var req := Request(Connect, base, "HTTP/1.1", Fresh);
    var d := env.hook(base.value.host, base.value.port);
    var dials := DialLoop(d.host, d.port, env.dial, 0);
    assert dials == [Dial("proxy", 8080, 0, true)];
    assert ReplyStatus([]).Fail?;
    var u := UpstreamConnect(req, d, env.upstreamReply);
    assert u.outcome.Broken?;
    QuietCounts(u.sent);
    CountsAppend(dials, u.sent);
    CountsAppend(dials + u.sent, Release(u.outcome, AsWritten));
  }

  /** Every connection `EstablishRemote` opens is handed back as the remote or closed
      before it returns, except in `Session.cs` when the upstream exchange fails,
      which leaves exactly one open; it dials at most three times and starts no
      tunnel. */
  lemma EstablishRemoteBalanced(base: Option<Uri>, req: Request, env: Env, v: Variant)
    ensures var r := EstablishRemote(base, req, env, v);
            var leak := v == AsWritten && UpstreamFails(base, req, env);
            && Count(r.events, Opens) == Count(r.events, Closes) + (if r.remote then 1 else 0) + (if leak then 1 else 0)
            && Count(r.events, IsDial) <= 3
            && Count(r.events, IsTunnel) == 0
  {
    if base.Some? {
      var d := env.hook(base.value.host, base.value.port);
      if !d.abort {
        var dials := DialLoop(d.host, d.port, env.dial, 0);
        DialLoopCounts(d.host, d.port, env.dial);
        if Connected(dials) && d.upstreamProxy {
          var u := UpstreamConnect(req, d, env.upstreamReply);
          QuietCounts(u.sent);
          CountsAppend(dials, u.sent);
          CountsAppend(dials + u.sent, Release(u.outcome, v));
        }
      }
    }
  }

  /** The four counts of a log, split at any point. */
  lemma CountsAppend(a: seq<Event>, b: seq<Event>)
    ensures Count(a + b, IsDial) == Count(a, IsDial) + Count(b, IsDial)
    ensures Count(a + b, Opens) == Count(a, Opens) + Count(b, Opens)
    ensures Count(a + b, Closes) == Count(a, Closes) + Count(b, Closes)
    ensures Count(a + b, IsTunnel) == Count(a, IsTunnel) + Count(b, IsTunnel)
  {
    CountAppend(a, b, IsDial);
    CountAppend(a, b, Opens);
    CountAppend(a, b, Closes);
    CountAppend(a, b, IsTunnel);
  }

  /** A hook that aborts stops the session from dialling at all. */
  lemma AbortMeansNoDial(base: Option<Uri>, req: Request, env: Env, v: Variant)
    requires base.Some? && env.hook(base.value.host, base.value.port).abort
    ensures !EstablishRemote(base, req, env, v).remote
    ensures Count(EstablishRemote(base, req, env, v).events, IsDial) == 0
  {
  }

  /** Through an upstream proxy, a reply other than 200 leaves no remote, and the
      connection to the proxy is closed. (A request with a base URI always has its
      URI set.) */
  lemma RefusedUpstreamNoRemote(base: Option<Uri>, req: Request, env: Env, v: Variant)
    requires base.Some? && req.uri.Some?
    requires var d := env.hook(base.value.host, base.value.port); !d.abort && d.upstreamProxy
    requires ReplyStatus(env.upstreamReply).Ok? && ReplyStatus(env.upstreamReply).value != 200
    ensures !EstablishRemote(base, req, env, v).remote
    ensures var d := env.hook(base.value.host, base.value.port);
            Connected(DialLoop(d.host, d.port, env.dial, 0)) ==> RemoteClosed in EstablishRemote(base, req, env, v).events
  {
    var d := env.hook(base.value.host, base.value.port);
    var dials := DialLoop(d.host, d.port, env.dial, 0);
    if Connected(dials) {
      var u := UpstreamConnect(req, d, env.upstreamReply);
      assert u.outcome.Refused?;
      var tail := Release(u.outcome, v);
      assert tail == [RemoteClosed];
      var events := dials + u.sent + tail;
      assert events[|events| - 1] == RemoteClosed;
    }
  }

  // ---------------------------------------------------------------- tunnels

  /** The tunnel for a session with a remote: buffer tunnels when the traffic is not
      captured (the secure one for `CONNECT`), the decrypting tunnel for captured
      plain HTTP, and none for captured `CONNECT`. */
  function ChooseTunnel(capture: bool, ssl: bool): (t: Option<Tunnel>)
    ensures t == Some(SecureBufferTunnel) <==> !capture && ssl
    ensures t == Some(BufferTunnel) <==> !capture && !ssl
    ensures t == Some(DecryptedTunnel) <==> capture && !ssl
    ensures t.None? <==> capture && ssl
  {
    if !capture then Some(if ssl then SecureBufferTunnel else BufferTunnel)
    else if ssl then None
    else Some(DecryptedTunnel)
  }

  /** The tunnel started for a session with a remote, if any. */
  function Tunnelled(capture: bool, ssl: bool): (r: seq<Event>)
    ensures Count(r, IsDial) == 0 && Count(r, Opens) == 0 && Count(r, Closes) == 0
    ensures Count(r, IsTunnel) == (if capture && ssl then 0 else 1)
    ensures ChooseTunnel(capture, ssl).Some? ==> |r| == 1 && r[0] == TunnelStarted(ChooseTunnel(capture, ssl).value)
  {
    var t := ChooseTunnel(capture, ssl);
    if t.Some? then [TunnelStarted(t.value)] else []
  }

  // ---------------------------------------------------------------- session

  /** What `HandleTunneling` did, whether it ran in SSL mode, the base URI, and
      whether it ended with a remote open. */
  datatype Outcome = Outcome(events: seq<Event>, ssl: bool, base: Option<Uri>, remote: bool)

  /** An event that touches neither the remote nor a tunnel. */
  predicate Quiet(e: Event) {
    e.ClientHead? || e.ClientBody? || e.RemoteHead? || e.ClientHandshake? || e.Caught? || e.ClientClosed?
  }

  lemma TailSlice(a: seq<Event>, b: seq<Event>, n: nat)
    requires n <= |b|
    ensures (a + b)[|a + b| - n..] == b[|b| - n..]
  {
  }

  lemma LastOf(a: seq<Event>, b: seq<Event>)
    requires |b| > 0
    ensures (a + b)[|a + b| - 1] == b[|b| - 1]
  {
  }

  lemma QuietCounts(r: seq<Event>)
    requires forall i :: 0 <= i < |r| ==> Quiet(r[i])
    ensures Count(r, IsDial) == 0 && Count(r, Opens) == 0 && Count(r, Closes) == 0 && Count(r, IsTunnel) == 0
  {
    CountZero(r, IsDial);
    CountZero(r, Opens);
    CountZero(r, Closes);
    CountZero(r, IsTunnel);
  }

  /** Without a remote: the TLS handshake for `CONNECT`, then the blocked response;
      a failed handshake is caught and nothing is sent. */
  function Blocked(req: Request, ssl: bool, handshake: bool): (r: seq<Event>)
    ensures |r| >= 2
    ensures forall i :: 0 <= i < |r| ==> Quiet(r[i])
    ensures !ssl || handshake ==> r[|r| - 2] == ClientHead(BlockedResponse(req)) && r[|r| - 1] == ClientBody(BlockedBody)
    ensures ssl && !handshake ==> r == [ClientHandshake(false), Caught(HandshakeFailed)]
  {
    if ssl && !handshake then [ClientHandshake(false), Caught(HandshakeFailed)]
    else
      var res := BlockedResponse(req);
      if ssl then [ClientHandshake(true), ClientHead(res), ClientBody(BlockedBody)]
      else [ClientHead(res), ClientBody(BlockedBody)]
  }

  /** The `200 Connection Established` reply a `CONNECT` gets before anything else. */
  function Greeting(req: Request, ssl: bool): (r: seq<Event>)
    ensures forall i :: 0 <= i < |r| ==> Quiet(r[i])
    ensures ssl ==> r == [ClientHead(ConnectResponse(req))]
  {
    if ssl then [ClientHead(ConnectResponse(req))] else []
  }

  /** What follows `EstablishRemote`: the tunnel when there is a remote, the
      blocked response otherwise. */
  function Afterwards(req: Request, ssl: bool, handshake: bool, remote: bool, capture: bool): (r: seq<Event>)
    ensures Count(r, IsDial) == 0 && Count(r, Opens) == 0 && Count(r, Closes) == 0
    ensures Count(r, IsTunnel) == (if remote && !(capture && ssl) then 1 else 0)
  {
    if remote then Tunnelled(capture, ssl)
    else
      var b := Blocked(req, ssl, handshake);
      QuietCounts(b);
      b
  }

  /** `HandleTunneling` after the first request was read. */
  function Route(req: Request, env: Env, v: Variant): (r: Outcome)
    ensures r.ssl <==> req.verb == Connect
    ensures r.base == BaseUri(req, env.resolve)
    ensures r.base.None? ==> r == Outcome([Caught(NoBaseFault(req))], r.ssl, None, false)
  {
    var ssl := req.verb == Connect;
    var base := BaseUri(req, env.resolve);
    if base.None? then Outcome([Caught(NoBaseFault(req))], ssl, None, false)
    else
      var est := EstablishRemote(base, req, env, v);
      var after := Afterwards(req, ssl, env.handshake, est.remote, est.decision.value.packetCapture);
      Outcome(Greeting(req, ssl) + est.events + after, ssl, base, est.remote)
  }

  /** `HandleTunneling`: a first request that cannot be read is caught and logged. */
  function HandleTunneling(input: Bytes, env: Env, v: Variant): (r: Outcome)
    ensures ReadRequestHead(FreshRequest, input, None, env.resolve).Fail? ==> !r.remote && |r.events| == 1 && r.events[0].Caught?
  {
    var read := ReadRequestHead(FreshRequest, input, None, env.resolve);
    if read.Fail? then Outcome([Caught(read.error)], false, None, false)
    else Route(read.value.value, env, v)
  }

  /** `StartAsync`'s teardown: the remote, if there is one, then the client. */
  function Teardown(remote: bool): (r: seq<Event>)
    ensures Count(r, IsDial) == 0 && Count(r, Opens) == 0 && Count(r, IsTunnel) == 0
    ensures Count(r, Closes) == (if remote then 1 else 0)
    ensures |r| >= 1 && r[|r| - 1] == ClientClosed
    ensures remote ==> |r| == 2 && r[0] == RemoteClosed
  {
    var r := (if remote then [RemoteClosed] else []) + [ClientClosed];
    CountsAppend(if remote then [RemoteClosed] else [], [ClientClosed]);
    r
  }

  /** `StartAsync`: handle the connection, then close both sides. */
  function StartSession(input: Bytes, env: Env, v: Variant): seq<Event> {
    var o := HandleTunneling(input, env, v);
    o.events + Teardown(o.remote)
  }

  // ------------------------------------------------------------- properties

  /** A first request that cannot be read, or that names no host, ends the session
      at once: the fault is logged and the client closed, nothing is dialled. */
  lemma NoBaseNoDial(input: Bytes, env: Env, v: Variant)
    requires var read := ReadRequestHead(FreshRequest, input, None, env.resolve);
             read.Fail? || BaseUri(read.value.value, env.resolve).None?
    ensures var read := ReadRequestHead(FreshRequest, input, None, env.resolve);
            StartSession(input, env, v) == [Caught(if read.Fail? then read.error else NoBaseFault(read.value.value)), ClientClosed]
  {
  }

  /** For `CONNECT`, the first thing the client receives is the `200 Connection
      Established` greeting, before any dial. */
  lemma ConnectGreetsFirst(req: Request, env: Env, v: Variant)
    requires req.verb == Connect && BaseUri(req, env.resolve).Some?
    ensures |Route(req, env, v).events| > 0
    ensures Route(req, env, v).events[0] == ClientHead(ConnectResponse(req))
  {
    var base := BaseUri(req, env.resolve);
    var est := EstablishRemote(base, req, env, v);
    var after := Afterwards(req, true, env.handshake, est.remote, est.decision.value.packetCapture);
    var greeting := Greeting(req, true);
    assert Route(req, env, v).events == greeting + (est.events + after);
  }

  /** The events of a routed session, in three parts. */
  lemma RouteParts(req: Request, env: Env, v: Variant)
    requires BaseUri(req, env.resolve).Some?
    ensures var ssl := req.verb == Connect;
            var est := EstablishRemote(BaseUri(req, env.resolve), req, env, v);
            && est.decision.Some?
            && Route(req, env, v).remote == est.remote
            && Route(req, env, v).events
               == (Greeting(req, ssl) + est.events)
                  + Afterwards(req, ssl, env.handshake, est.remote, est.decision.value.packetCapture)
  {
  }

  /** The counts of a greeting, the remote's events and what follows them: the
      greeting adds nothing. */
  lemma PartsCounts(greeting: seq<Event>, events: seq<Event>, after: seq<Event>)
    requires forall i :: 0 <= i < |greeting| ==> Quiet(greeting[i])
    ensures Count(greeting + events + after, IsDial) == Count(events, IsDial) + Count(after, IsDial)
    ensures Count(greeting + events + after, Opens) == Count(events, Opens) + Count(after, Opens)
    ensures Count(greeting + events + after, Closes) == Count(events, Closes) + Count(after, Closes)
    ensures Count(greeting + events + after, IsTunnel) == Count(events, IsTunnel) + Count(after, IsTunnel)
  {
    QuietCounts(greeting);
    CountsAppend(greeting, events);
    CountsAppend(greeting + events, after);
  }

  /** The counts of a routed session before teardown: one connection left open
      exactly when there is a remote, plus the one `Session.cs` drops when the
      upstream exchange fails; at most three dials. */
  lemma RouteCounts(req: Request, env: Env, v: Variant)
    ensures var o := Route(req, env, v);
            var leak := v == AsWritten && UpstreamFails(o.base, req, env);
            && Count(o.events, Opens) == Count(o.events, Closes) + (if o.remote then 1 else 0) + (if leak then 1 else 0)
            && Count(o.events, IsDial) <= 3
  {
    var o := Route(req, env, v);
    var base := BaseUri(req, env.resolve);
    if base.None? {
      QuietCounts(o.events);
    } else {
      var ssl := req.verb == Connect;
      var est := EstablishRemote(base, req, env, v);
      var after := Afterwards(req, ssl, env.handshake, est.remote, est.decision.value.packetCapture);
      RouteParts(req, env, v);
      EstablishRemoteBalanced(base, req, env, v);
      PartsCounts(Greeting(req, ssl), est.events, after);
    }
  }

  /** Whether the session's first request reads, names a host, and then meets the
      failing upstream exchange. */
  predicate SessionUpstreamFails(input: Bytes, env: Env) {
    var read := ReadRequestHead(FreshRequest, input, None, env.resolve);
    read.Ok? && UpstreamFails(BaseUri(read.value.value, env.resolve), read.value.value, env)
  }

  /** At the end of a session every connection it opened is closed, except the one
      `Session.cs` drops when the upstream exchange fails; it dials at most three
      times. */
  lemma SessionCounts(input: Bytes, env: Env, v: Variant)
    ensures var s := StartSession(input, env, v);
            var leak := v == AsWritten && SessionUpstreamFails(input, env);
            Count(s, Opens) == Count(s, Closes) + (if leak then 1 else 0) && Count(s, IsDial) <= 3
  {
    var o := HandleTunneling(input, env, v);
    var read := ReadRequestHead(FreshRequest, input, None, env.resolve);
    if read.Fail? {
      QuietCounts(o.events);
    } else {
      RouteCounts(read.value.value, env, v);
    }
    CountsAppend(o.events, Teardown(o.remote));
  }

  /** With `EstablishRemote` closing on every path, every remote connection a
      session opens is closed by the time it ends. */
  lemma SessionClosesEveryRemote(input: Bytes, env: Env)
    ensures Count(StartSession(input, env, Closing), Opens) == Count(StartSession(input, env, Closing), Closes)
    ensures Count(StartSession(input, env, Closing), IsDial) <= 3
  {
    SessionCounts(input, env, Closing);
  }

  /** The session always ends by closing the client, right after closing the remote
      when one was left open. */
  lemma SessionEndsClosed(input: Bytes, env: Env, v: Variant)
    ensures var s := StartSession(input, env, v);
            && |s| >= 1 && s[|s| - 1] == ClientClosed
            && (HandleTunneling(input, env, v).remote ==> |s| >= 2 && s[|s| - 2] == RemoteClosed)
  {
    var o := HandleTunneling(input, env, v);
    EndsWithTeardown(o.events, o.remote);
  }

  /** Whatever came before, the teardown's closes are the last events. */
  lemma EndsWithTeardown(events: seq<Event>, remote: bool)
    ensures var s := events + Teardown(remote);
            && |s| >= 1 && s[|s| - 1] == ClientClosed
            && (remote ==> |s| >= 2 && s[|s| - 2] == RemoteClosed)
  {
    var t := Teardown(remote);
    TailSlice(events, t, |t|);
  }

  /** Without a remote no tunnel starts. */
  lemma NoRemoteNoTunnel(req: Request, env: Env, v: Variant)
    requires !Route(req, env, v).remote
    ensures Count(Route(req, env, v).events, IsTunnel) == 0
  {
    var base := BaseUri(req, env.resolve);
    if base.None? {
      QuietCounts(Route(req, env, v).events);
    } else {
      var ssl := req.verb == Connect;
      var est := EstablishRemote(base, req, env, v);
      var after := Afterwards(req, ssl, env.handshake, est.remote, est.decision.value.packetCapture);
      RouteParts(req, env, v);
      EstablishRemoteBalanced(base, req, env, v);
      PartsCounts(Greeting(req, ssl), est.events, after);
    }
  }

  /** A session left without a remote ends with the blocked response, unless the
      client's TLS handshake for a `CONNECT` fails, which is caught instead. */
  lemma NoRemoteBlocked(req: Request, env: Env, v: Variant)
    requires BaseUri(req, env.resolve).Some? && !Route(req, env, v).remote
    ensures var s := Route(req, env, v).events;
            && |s| >= 2
            && (req.verb != Connect || env.handshake ==> s[|s| - 2..] == SendBlockedResponse(req))
            && (req.verb == Connect && !env.handshake ==> s[|s| - 2..] == [ClientHandshake(false), Caught(HandshakeFailed)])
  {
    var ssl := req.verb == Connect;
    var est := EstablishRemote(BaseUri(req, env.resolve), req, env, v);
    var after := Blocked(req, ssl, env.handshake);
    RouteParts(req, env, v);
    TailSlice(Greeting(req, ssl) + est.events, after, 2);
  }

  /** With a remote, the tunnel is the one the table gives for the hook's capture
      choice and the SSL mode, and it is the last thing the session does before
      teardown; captured `CONNECT` traffic starts no tunnel. */
  lemma TunnelTable(req: Request, env: Env, v: Variant)
    requires BaseUri(req, env.resolve).Some? && Route(req, env, v).remote
    ensures var base := BaseUri(req, env.resolve).value;
            var t := ChooseTunnel(env.hook(base.host, base.port).packetCapture, req.verb == Connect);
            var s := Route(req, env, v).events;
            && Count(s, IsTunnel) == (if t.Some? then 1 else 0)
            && (t.Some? ==> |s| > 0 && s[|s| - 1] == TunnelStarted(t.value))
  {
    var ssl := req.verb == Connect;
    var base := BaseUri(req, env.resolve);
    var est := EstablishRemote(base, req, env, v);
    var capture := est.decision.value.packetCapture;
    var after := Tunnelled(capture, ssl);
    RouteParts(req, env, v);
    EstablishRemoteBalanced(base, req, env, v);
    PartsCounts(Greeting(req, ssl), est.events, after);
    if ChooseTunnel(capture, ssl).Some? {
      LastOf(Greeting(req, ssl) + est.events, after);
    }
  }
}
