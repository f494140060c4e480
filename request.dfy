/** The CONNECT request that `write_proxy_connect` sends on a proxied stream. */
module Request {
  import opened RustStd
  import opened StreamTypes

  const CONNECT_PREFIX: seq<byte> := Ascii("CONNECT ")
  const HTTP_SUFFIX: seq<byte> := Ascii(" HTTP/1.1\r\n\r\n")

  /** `format!("CONNECT {}:{} HTTP/1.1\r\n\r\n", remote_host, remote_port)`,
      as the bytes `write_all` sends. */
  function ConnectRequest(tun: Tunnel): (r: seq<byte>)
    ensures |r| > |CONNECT_PREFIX| + |tun.remoteHost| + |HTTP_SUFFIX|
    ensures r[..|CONNECT_PREFIX|] == CONNECT_PREFIX
    ensures r[|CONNECT_PREFIX|..|CONNECT_PREFIX| + |tun.remoteHost|] == tun.remoteHost
    ensures r[|r| - |HTTP_SUFFIX|..] == HTTP_SUFFIX
  {
    CONNECT_PREFIX + tun.remoteHost + [COLON] + Decimal(tun.remotePort) + HTTP_SUFFIX
  }

  /** The bytes `write_proxy_connect` writes: the request when the stream
      went through the proxy, nothing when it did not. */
  function ConnectString(isProxied: bool, tun: Tunnel): (r: seq<byte>)
    ensures |r| == 0 <==> !isProxied
  {
    if isProxied then ConnectRequest(tun) else []
  }

  /** The position of the last `:` in `t`, if there is one. */
  function LastColon(t: seq<byte>): (r: Option<nat>)
    ensures r.Some? ==> r.value < |t| && t[r.value] == COLON &&
                        forall j :: r.value < j < |t| ==> t[j] != COLON
    ensures r.None? ==> forall j :: 0 <= j < |t| ==> t[j] != COLON
    decreases |t|
  {
    if |t| == 0 then None
    else if t[|t| - 1] == COLON then Some(|t| - 1)
    else LastColon(t[..|t| - 1])
  }

  /** A reading of a CONNECT request line: the target host and the port,
      split at the last `:` (a host may itself hold colons, a port may not). */
  function ParseConnectRequest(req: seq<byte>): Option<Tunnel>
  {
    var p, q := |CONNECT_PREFIX|, |HTTP_SUFFIX|;
    if |req| < p + q || req[..p] != CONNECT_PREFIX || req[|req| - q..] != HTTP_SUFFIX then None
    else
      var target := req[p..|req| - q];
      match LastColon(target)
      case None => None
      case Some(i) =>
        match ParseU16(target[i + 1..])
        case None => None
        case Some(port) => Some(Tunnel(target[..i], port))
  }

  /** The last `:` of `host:digits` is the one before the digits. */
  lemma {:induction false} LastColonBeforeDigits(host: seq<byte>, digits: seq<byte>)
    requires AllDigits(digits)
    ensures LastColon(host + [COLON] + digits) == Some(|host|)
    decreases |digits|
  {
    var t := host + [COLON] + digits;
    if |digits| > 0 {
      var d' := digits[..|digits| - 1];
      assert t[..|t| - 1] == host + [COLON] + d';
      assert t[|t| - 1] == digits[|digits| - 1];
      LastColonBeforeDigits(host, d');
    }
  }

  /** The request names the tunnel target and nothing else: reading it back
      gives the host and port it was built from, for every host. */
  lemma ParseConnectRequestInverts(tun: Tunnel)
    ensures ParseConnectRequest(ConnectRequest(tun)) == Some(tun)
  {
    var req := ConnectRequest(tun);
    var p, q := |CONNECT_PREFIX|, |HTTP_SUFFIX|;
    var target := tun.remoteHost + [COLON] + Decimal(tun.remotePort);
    assert req == CONNECT_PREFIX + target + HTTP_SUFFIX;
    assert req[..p] == CONNECT_PREFIX;
    assert req[|req| - q..] == HTTP_SUFFIX;
    assert req[p..|req| - q] == target;
    LastColonBeforeDigits(tun.remoteHost, Decimal(tun.remotePort));
    assert target[|tun.remoteHost| + 1..] == Decimal(tun.remotePort);
    assert target[..|tun.remoteHost|] == tun.remoteHost;
    ParseDecimal(tun.remotePort);
  }

  /** Different targets give different requests. */
  lemma ConnectRequestInjective(t1: Tunnel, t2: Tunnel)
    requires ConnectRequest(t1) == ConnectRequest(t2)
    ensures t1 == t2
  {
    ParseConnectRequestInverts(t1);
    ParseConnectRequestInverts(t2);
  }

  /** `write_proxy_connect`: `write_all` of the connect string, with `sink`
      the outcome of flushing a non-empty buffer (`None` when every byte was
      written, otherwise the first write error). An empty buffer completes
      without writing, so an unproxied stream always comes back. */
  function WriteProxyConnect(s: ProxyTcpStream, tun: Tunnel, sink: Option<IoError>): (r: Result<ProxyTcpStream>)
    ensures r.Ok? ==> r.value == s
    ensures r.Err? <==> s.isProxied && sink.Some?
    ensures r.Err? ==> r.error == sink.value
  {
    var connect := ConnectString(s.isProxied, tun);
    if |connect| == 0 then Ok(s)
    else
      match sink
      case None => Ok(s)
      case Some(e) => Err(e)
  }
}
