/** The values the tunnel connector passes around: the tunnel target, the
    optional proxy, the connected stream and the I/O error it reports. */
module StreamTypes {
  import opened RustStd

  /** `std::io::ErrorKind`, reduced to the kind the handshake itself raises
      and an opaque kind for whatever the transport reports. */
  datatype IoErrorKind = Other | Transport(code: int)

  datatype IoError = IoError(kind: IoErrorKind, message: string)

  /** `other_error`: an I/O error of kind `Other` carrying `text`. */
  function OtherError(text: string): (e: IoError)
    ensures e.kind == Other && e.message == text
  {
    IoError(Other, text)
  }

  datatype Result<+T> = Ok(value: T) | Err(error: IoError)

  /** The final destination; `remoteHost` is the UTF-8 bytes of the host name. */
  datatype Tunnel = Tunnel(remoteHost: seq<byte>, remotePort: u16)

  /** The intermediary forward proxy. */
  datatype Proxy = Proxy(host: seq<byte>, port: u16)

  /** An opaque handle to one connected TCP socket (the `Arc<TcpStream>`). */
  type Socket = nat

  /** `ProxyTcpStream`: the shared socket and whether the proxy was reached. */
  datatype ProxyTcpStream = ProxyTcpStream(inner: Socket, isProxied: bool)
}
