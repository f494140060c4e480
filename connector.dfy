/** `ProxyTcpStream::connect`: choosing the route (direct, or through the
    proxy with a one-shot fallback to direct), then the handshake on the
    stream obtained. Each connection attempt is an abstract outcome. */
module Connector {
  import opened RustStd
  import opened StreamTypes
  import opened Request
  import opened Handshake

  /** Where one `tcp_connect` was aimed. */
  datatype Route = ViaProxy(host: seq<byte>, port: u16) | Direct(host: seq<byte>, port: u16)

  /** The outcome of one `tcp_connect`. */
  datatype Attempt = Connected(socket: Socket) | Refused(error: IoError)

  /** The routes tried, in order, and the stream obtained or the error. */
  datatype Dialing = Dialing(routes: seq<Route>, result: Result<ProxyTcpStream>)

  function DirectRoute(tun: Tunnel): Route
  {
    Direct(tun.remoteHost, tun.remotePort)
  }

  /** The stream an attempt yields, marked as going through the proxy or not. */
  function Wrap(a: Attempt, isProxied: bool): Result<ProxyTcpStream>
  {
    match a
    case Connected(sock) => Ok(ProxyTcpStream(sock, isProxied))
    case Refused(e) => Err(e)
  }

  /** The connection strategy. `first` is the outcome of the first attempt
      (direct without a proxy, to the proxy with one); `fallback` is the
      outcome of the direct attempt made when the proxy could not be
      reached, and is not looked at otherwise. */
  function Strategy(tun: Tunnel, proxy: Option<Proxy>, first: Attempt, fallback: Attempt): (d: Dialing)
    ensures 1 <= |d.routes| <= 2
    ensures d.routes[0] == if proxy.Some? then ViaProxy(proxy.value.host, proxy.value.port) else DirectRoute(tun)
    ensures |d.routes| == 2 <==> proxy.Some? && first.Refused?
    ensures |d.routes| == 2 ==> d.routes[1] == DirectRoute(tun)
    ensures var last := if |d.routes| == 1 then first else fallback;
            d.result == Wrap(last, d.routes[|d.routes| - 1].ViaProxy?)
  {
    match proxy
    case None => Dialing([DirectRoute(tun)], Wrap(first, false))
    case Some(p) =>
      if first.Connected? then Dialing([ViaProxy(p.host, p.port)], Wrap(first, true))
      else Dialing([ViaProxy(p.host, p.port), DirectRoute(tun)], Wrap(fallback, false))
  }

  /** The three cases of the strategy. */
  lemma StrategyCases(tun: Tunnel, proxy: Option<Proxy>, first: Attempt, fallback: Attempt)
    ensures var d := Strategy(tun, proxy, first, fallback);
            (proxy.None? ==> d.routes == [DirectRoute(tun)] && d.result == Wrap(first, false)) &&
            (proxy.Some? && first.Connected? ==>
               |d.routes| == 1 && d.result == Ok(ProxyTcpStream(first.socket, true))) &&
            (proxy.Some? && first.Refused? ==>
               d.routes[1..] == [DirectRoute(tun)] && d.result == Wrap(fallback, false))
  {
  }

  /** `is_proxied` says exactly whether the proxy attempt is the one that
      succeeded. */
  lemma ProxiedIffProxyReached(tun: Tunnel, proxy: Option<Proxy>, first: Attempt, fallback: Attempt)
    requires Strategy(tun, proxy, first, fallback).result.Ok?
    ensures Strategy(tun, proxy, first, fallback).result.value.isProxied <==> proxy.Some? && first.Connected?
  {
  }

  /** How far `connect` has got: the stream handed to the caller, with the
      bytes written and the reply bytes read; still waiting for the proxy's
      reply (with the validator's state); or the error that ended it. */
  datatype Connection =
    | Established(stream: ProxyTcpStream, sent: seq<byte>, read: nat)
    | Waiting(status: Status, read: nat)
    | Aborted(error: IoError)

  /** The reply bytes do not make `&s[9..12]` panic. */
  predicate ReplyIsSafe(reply: seq<byte>)
  {
    |reply| >= 12 ==> SliceIsSafe(reply[..12])
  }

  /** A reply the validator accepted after reading `read` bytes: a status
      line that passes, then headers whose first blank line ends at `read`,
      with no bare CR before it. */
  predicate ValidReply(reply: seq<byte>, read: nat)
  {
    16 <= read <= |reply| && SliceIsSafe(reply[..12]) && CheckStatus(reply[..12]).None? &&
    BlankLineAt(reply, read - 4) && NoBareCr(reply[12..read - 1]) && NoBlankLine(reply[12..read - 1])
  }

  /** A completed handshake through the proxy: `sent` is the CONNECT request
      for `tun` (which reads back as `tun`), and `reply` was accepted after
      `read` bytes. */
  predicate AcceptedHandshake(tun: Tunnel, reply: seq<byte>, sent: seq<byte>, read: nat)
  {
    sent == ConnectRequest(tun) && ParseConnectRequest(sent) == Some(tun) && ValidReply(reply, read)
  }

  /** What a successful validation of a proxied stream has read. */
  lemma AcceptedReply(s: ProxyTcpStream, reply: seq<byte>)
    requires s.isProxied && ReplyIsSafe(reply) && PollFn(s, Started, reply).outcome.Ready?
    ensures ValidReply(reply, PollFn(s, Started, reply).used)
  {
    ConsumesStatusAndHeaders(s, reply, PollFn(s, Started, reply).used);
  }

  /** The last stage of `connect`: `read_proxy_response` on the stream `s`
      after `sent` was written, polled once over the bytes `reply` the
      socket has delivered, with `fault` what the socket reports after them
      (`None`: a read would block). */
  function AwaitReply(s: ProxyTcpStream, sent: seq<byte>, reply: seq<byte>, fault: Option<IoError>): (c: Connection)
    requires s.isProxied ==> ReplyIsSafe(reply)
    ensures c.Established? ==> c.stream == s && c.sent == sent
    ensures c.Established? && !s.isProxied ==> c.read == 0
    ensures c.Established? && s.isProxied ==> ValidReply(reply, c.read)
    ensures c.Waiting? ==> fault.None?
  {
    var p := PollOn(s, Started, reply, fault);
    match p.outcome
    case Ready(item) =>
      if s.isProxied then
        AcceptedReply(s, reply);
        Established(item, sent, p.used)
      else
        Established(item, sent, p.used)
    case NotReady => Waiting(p.status, p.used)
    case Error(e) => Aborted(e)
  }

  /** `connect` as one pipeline: the strategy, then `write_proxy_connect`
      with `sink` the outcome of flushing the request, then one poll of the
      validator with `reply` the bytes the socket has delivered and `fault`
      what it reports after them. Only a stream that went through the proxy
      has its reply read, so only then must the reply not make `&s[9..12]`
      panic. */
  function Connect(tun: Tunnel, proxy: Option<Proxy>, first: Attempt, fallback: Attempt,
                   sink: Option<IoError>, reply: seq<byte>, fault: Option<IoError>): (c: Connection)
    requires proxy.Some? && first.Connected? ==> ReplyIsSafe(reply)
    ensures c.Established? ==> (c.stream.isProxied <==> proxy.Some? && first.Connected?)
    ensures c.Established? && !c.stream.isProxied ==> c.sent == [] && c.read == 0
    ensures c.Established? && c.stream.isProxied ==> AcceptedHandshake(tun, reply, c.sent, c.read)
    ensures c.Waiting? ==> fault.None?
  {
    var d := Strategy(tun, proxy, first, fallback);
    match d.result
    case Err(e) => Aborted(e)
    case Ok(s) =>
      ProxiedIffProxyReached(tun, proxy, first, fallback);
      match WriteProxyConnect(s, tun, sink)
      case Err(e) => Aborted(e)
      case Ok(s') =>
        ParseConnectRequestInverts(tun);
        AwaitReply(s', ConnectString(s'.isProxied, tun), reply, fault)
  }

  /** Without a proxy: one direct attempt, and on success the stream is
      handed over with nothing written and nothing read, whatever the
      destination sends. */
  lemma DirectWithoutProxy(tun: Tunnel, first: Attempt, fallback: Attempt, sink: Option<IoError>,
                           reply: seq<byte>, fault: Option<IoError>)
    ensures Connect(tun, None, first, fallback, sink, reply, fault) ==
            match first
            case Connected(sock) => Established(ProxyTcpStream(sock, false), [], 0)
            case Refused(e) => Aborted(e)
  {
  }

  /** A proxy that cannot be reached: one direct attempt, whose error is
      the result, or whose stream is handed over with no handshake. */
  lemma FallbackSkipsHandshake(tun: Tunnel, p: Proxy, e: IoError, fallback: Attempt,
                               sink: Option<IoError>, reply: seq<byte>, fault: Option<IoError>)
    ensures Connect(tun, Some(p), Refused(e), fallback, sink, reply, fault) ==
            match fallback
            case Connected(sock) => Established(ProxyTcpStream(sock, false), [], 0)
            case Refused(e2) => Aborted(e2)
  {
  }

  /** A proxy that is reached: the request is written, and the outcome is
      exactly that of validating the proxy's reply. */
  lemma HandshakeThroughProxy(tun: Tunnel, p: Proxy, sock: Socket, fallback: Attempt,
                              sink: Option<IoError>, reply: seq<byte>, fault: Option<IoError>)
    requires ReplyIsSafe(reply)
    ensures var s := ProxyTcpStream(sock, true);
            var v := PollOn(s, Started, reply, fault);
            Connect(tun, Some(p), Connected(sock), fallback, sink, reply, fault) ==
            match sink
            case Some(e) => Aborted(e)
            case None =>
              match v.outcome
              case Ready(_) => Established(s, ConnectRequest(tun), v.used)
              case NotReady => Waiting(v.status, v.used)
              case Error(e) => Aborted(e)
  {
  }
}
