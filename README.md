# CONNECT tunnel handshake of ptunnel-rust, in Dafny

This project models `src/proxy/stream.rs` of ptunnel-rust: how a `ProxyTcpStream`
is obtained for a tunnel target, optionally through an HTTP forward proxy using
the CONNECT method, and how the proxy's reply is validated before the stream is
handed to the relay. There are three parts.

- **Connection strategy** (`ProxyTcpStream::connect`). Without a proxy, one direct
  connection. With a proxy, one attempt to the proxy, and if that fails one
  direct attempt. The attempt that succeeds fixes `is_proxied`.
- **Request** (`write_proxy_connect`). On a proxied stream the bytes
  `CONNECT host:port HTTP/1.1\r\n\r\n` are written; on a direct stream nothing is.
- **Reply validator** (`ConnectResponse::poll`). It reads a 12-byte status prefix,
  checks that it is UTF-8 and that bytes 9..12 parse as a `u16` in [200, 300). It
  then reads one byte at a time through the `Status` state machine until the
  blank line CR LF CR LF that ends the headers. It never reads past that line.
  The scan state is a field of the future, so a poll that blocks inside the
  header scan resumes later exactly where it stopped. A 12-byte `read_exact`
  that blocks partway loses the bytes it has already read; the model reads
  those 12 bytes all at once or not at all.

Files and modules:

| file | module | contents |
|---|---|---|
| `rust_std.dfy` | `RustStd` | `u8`/`u16`, `std::str::from_utf8` validity, `is_char_boundary`, `str::parse::<u16>`, decimal `Display` |
| `stream_types.dfy` | `StreamTypes` | `Tunnel`, `Proxy`, `ProxyTcpStream`, `io::Error`, `other_error` |
| `handshake.dfy` | `Handshake` | `Status`, the status check, the transition table, the scan `Run`, one poll `PollFn`, the class `ConnectResponse` |
| `request.dfy` | `Request` | the CONNECT request bytes, a parser that inverts them, `write_proxy_connect` |
| `connector.dfy` | `Connector` | the strategy and the whole `connect` pipeline |
| `scenarios.dfy` | `Scenarios` | canned replies: `200` with payload, `404`, non-numeric code, lone CR, a panicking prefix |

The validator has two forms. `Handshake.ConnectResponse` is a class that holds
the `stream` option and the `status`. Its `Poll` method runs the source's loop
one byte at a time and updates `status` in place. `Handshake.PollFn` is the pure
function that `Poll` is proved equal to. The lemmas are stated about `PollFn`.
The header scan `Run` is a left fold of the transition table `Step`, so byte
positions stay absolute. The scan's stop and failure points are characterised
against separate reference predicates:

- `BlankLineAt`: the bytes CR LF CR LF at an offset.
- `BareCrAt`: a CR whose next byte is not LF.
- `NoBlankLine` and `NoBareCr`: no such offset in a sequence.

I/O is modelled as parameters:

- Each `tcp_connect` is an `Attempt` (`Connected(socket)` or `Refused(error)`).
- Flushing the request is `sink` (`None` when every byte was written).
- A poll receives `input`, the bytes the socket has ready. It returns how many of
  them it read.
- `fault` is what the socket reports once `input` is used up. `None` means a
  read would block (`WouldBlock`, which `try_nb!` turns into `NotReady`).
  `Some(e)` is any other read error, for example a reset connection or the
  unexpected end of stream that `read_exact` reports. `try_nb!` returns it as
  it is.

## Model

| member | source | states |
|---|---|---|
| `RustStd.ParseStatusField` | src/proxy/stream.rs:55-62 | a three-byte field parses as a `u16` in [200, 300) exactly when it is `2` followed by two decimal digits (a leading `+` leaves a value below 100) |
| `RustStd.ParseDecimal` | src/proxy/stream.rs:139-143 | parsing the decimal form of a port gives the port back |
| `Handshake.CheckStatus` | src/proxy/stream.rs:49-65 | the 12 status bytes pass exactly when they are valid UTF-8, byte 9 is `2` and bytes 10 and 11 are digits; every error is of kind `Other` |
| `Handshake.CheckStatusErrors` | src/proxy/stream.rs:53-62 | not UTF-8 gives "not UTF8"; a field that does not parse gives "not number"; a code outside [200, 300) gives "not 2xx" |
| `Handshake.Step` | src/proxy/stream.rs:72-88 | the loop breaks exactly on LF in `SecondCr`; in a scanning state it moves to `FirstCr` or `SecondCr` exactly on a CR read in `HeaderOk` or `FirstLf`; an LF never fails a scanning state |
| `Handshake.InvalidHeader` | src/proxy/stream.rs:82-86 | the catch-all error is of kind `Other`, its message starts "Invalid Header - status ", and it differs from "Invalid end of line" |
| `StreamTypes.OtherError` | src/proxy/stream.rs:219-221 | `other_error` builds an error of kind `Other` that carries the given text |
| `Handshake.StepErrors` | src/proxy/stream.rs:72-88 | in the four scanning states the only error is "Invalid end of line", on a byte other than LF after a CR; `Started` and `Done` give "Invalid Header" on every byte; a transition never leaves the scanning states |
| `Handshake.Run` | src/proxy/stream.rs:68-89 | the scan stops or fails at a position inside the bytes read, and started from any state but `Done` it never reaches `Done` without stopping |
| `Handshake.RunAppend` | src/proxy/stream.rs:68-89 | scanning `a + b` is scanning `a`, then resuming from its state over `b`; a scan that ended within `a` never reads `b` |
| `Handshake.ScanInvariant` | src/proxy/stream.rs:72-80 | from `HeaderOk` the scan is still running exactly when no bare CR and no blank line has been read, and its state is the one the last bytes read call for |
| `Handshake.StopsAtFirstBlankLine` | src/proxy/stream.rs:72-78 | the scan stops after byte `n - 1` exactly when bytes `n - 4 .. n` are the first CR LF CR LF and no bare CR precedes it |
| `Handshake.FailsAtFirstBareCr` | src/proxy/stream.rs:73-79 | the scan fails on byte `k - 1` exactly when byte `k - 2` is the first bare CR and no blank line came before it; the error is "Invalid end of line" |
| `Handshake.PollFn` | src/proxy/stream.rs:45-93 | a poll reads no more than is available; when it is ready it hands back the same stream and leaves `Done`, and from any state but `Done` it reaches `Done` only when ready |
| `Handshake.UnproxiedSkipsValidation` | src/proxy/stream.rs:46-92 | an unproxied stream is handed back at once, reading no byte, in state `Done` |
| `Handshake.PollErrorsAreOther` | src/proxy/stream.rs:219-221 | every error the validator itself raises is an `other_error` (kind `Other`) |
| `Handshake.PollOn` | src/proxy/stream.rs:51-70 | a poll on a socket that fails instead of blocking never suspends, reads what `PollFn` reads and leaves the scan position where `PollFn` leaves it |
| `Handshake.ReadErrorsPassThrough` | src/proxy/stream.rs:51-70 | the socket's read error is returned exactly when the validator would otherwise wait for more bytes; every other error is the validator's own, of kind `Other`; a socket that only blocks gives `PollFn` |
| `Handshake.ScanPoll` | src/proxy/stream.rs:68-92 | the header-scan part of a poll reads no more than is available, reads all of it when it suspends, and completes (handing back the stream, in `Done`) exactly when it reaches `Done` |
| `Handshake.PollChunks` | src/proxy/stream.rs:38-93 | polling once per delivered chunk reads no more than was delivered and, when ready, hands back the stream in `Done` |
| `Handshake.ConsumesStatusAndHeaders` | src/proxy/stream.rs:49-92 | a validation from the start succeeds after reading `n` bytes exactly when the 12 status bytes pass, bytes `n - 4 .. n` are the first blank line after them, and no bare CR comes before it |
| `Handshake.PayloadUntouched` | src/proxy/stream.rs:68-92 | after a successful validation, replacing everything that follows the consumed bytes changes nothing: no payload byte is read |
| `Handshake.PollResumes` | src/proxy/stream.rs:38-77 | a poll over `a` that suspends, followed by a poll from the saved state over the unread bytes plus `b`, has the outcome, final state and total bytes read of one poll over `a + b` |
| `Handshake.ChunkedDeliveryAgrees` | src/proxy/stream.rs:38-89 | delivering the reply in any sequence of chunks and polling after each gives the outcome, state and byte count of one poll over all of it |
| `Handshake.ConnectResponse.constructor` | src/proxy/stream.rs:19-24 | `read_proxy_response` holds the stream and starts in `Started` |
| `Handshake.ConnectResponse.Poll` | src/proxy/stream.rs:45-93 | one `poll` returns what `PollOn` gives for the socket's bytes and read outcome, leaves its state in `status`, and takes the stream out exactly when ready |
| `Handshake.ConnectResponse.ScanHeaders` | src/proxy/stream.rs:68-89 | the byte loop returns what the scan of the available bytes gives (the socket's read error where it would block) and leaves its state in `status` unless the blank line was read |
| `Handshake.StoppedAtBlankLine` | src/proxy/stream.rs:76-78 | a scan that stopped did so on the last byte of the first blank line, with no bare CR before it |
| `Handshake.FailedAtBareCr` | src/proxy/stream.rs:73-79 | a scan that failed did so on the byte after the first bare CR, with no blank line before it, with "Invalid end of line" |
| `Request.ConnectRequest` | src/proxy/stream.rs:139-143 | the request starts with `CONNECT `, names the host right after it, and ends with ` HTTP/1.1\r\n\r\n`, with the port in between |
| `Request.ConnectString` | src/proxy/stream.rs:138-146 | the bytes to write are empty exactly when the stream is not proxied |
| `Request.ParseConnectRequestInverts` | src/proxy/stream.rs:139-143 | reading the CONNECT request back, split at its last `:`, gives the host and the port it was built from, for every host |
| `Request.ConnectRequestInjective` | src/proxy/stream.rs:139-143 | two tunnel targets with the same request are the same target |
| `Request.WriteProxyConnect` | src/proxy/stream.rs:137-151 | the stream is handed back unchanged unless it is proxied and the write fails, and then the write's error is the result |
| `Connector.Strategy` | src/proxy/stream.rs:97-121 | one or two attempts; the first goes to the proxy when there is one, else direct; a second, direct attempt is made exactly when the proxy attempt failed; the result is the last attempt's socket, marked proxied exactly when that attempt went to the proxy, or its error |
| `Connector.StrategyCases` | src/proxy/stream.rs:100-120 | no proxy: one direct attempt; proxy reached: one attempt and `is_proxied = true`; proxy refused: one more, direct, attempt whose outcome is the result with `is_proxied = false` |
| `Connector.ProxiedIffProxyReached` | src/proxy/stream.rs:107-128 | a stream obtained is proxied exactly when a proxy was given and the proxy attempt succeeded |
| `Connector.AwaitReply` | src/proxy/stream.rs:130-131 | an established stream is the one written to, with the bytes written; unproxied it read nothing, whatever the reply; proxied it read a reply whose status line passes and whose first blank line, with no bare CR before it, ends the bytes read; a read error never leaves it waiting |
| `Connector.Connect` | src/proxy/stream.rs:97-135 | an established stream is proxied exactly when the proxy was reached; a direct one had nothing written and nothing read, whatever the destination sends; a proxied one had exactly the CONNECT request for the tunnel target written (which reads back as that target) and read a reply whose status line passes and whose first blank line, with no bare CR before it, ends the bytes read |
| `Connector.DirectWithoutProxy` | src/proxy/stream.rs:101-131 | without a proxy, for any reply bytes, the direct attempt's error is the result, or its stream is established with nothing written and nothing read |
| `Connector.FallbackSkipsHandshake` | src/proxy/stream.rs:111-131 | with an unreachable proxy, for any reply bytes, the direct attempt's error is the result, or its stream is established with no handshake |
| `Connector.HandshakeThroughProxy` | src/proxy/stream.rs:111-131 | with a reachable proxy the request is written, a write error ends the connection, and otherwise the outcome is the validation of the reply, read errors included |
| `Scenarios.OkReplyLeavesPayload` | src/proxy/stream.rs:49-92 | `HTTP/1.1 200 OK\r\nHeader: x\r\n\r\n` followed by any payload validates and exactly the reply is consumed |
| `Scenarios.NotFoundRejected` | src/proxy/stream.rs:61-62 | `HTTP/1.1 404` fails with "not 2xx" after reading 12 bytes |
| `Scenarios.NonNumericRejected` | src/proxy/stream.rs:55-57 | `HTTP/1.1 abc` fails with "not number" |
| `Scenarios.LoneCrRejected` | src/proxy/stream.rs:73-75 | a CR followed by CR right after the status bytes fails with "Invalid end of line" on the second CR, in state `FirstCr` |
| `Scenarios.ResetMidHeaders` | src/proxy/stream.rs:68-70 | a read error after `HTTP/1.1 200 OK\r\n` is returned as it is, after 17 bytes, with the scan left in `FirstLf` |
| `Scenarios.SlicePanicsInsideCharacter` | src/proxy/stream.rs:53-55 | `HTTP/1.1é00` is valid UTF-8 whose offset 9 is inside a character, so it is outside what the validator accepts without panicking |

Behaviour of the code worth knowing:

- Polling a validator that has already returned its stream panics:
  `self.stream.take().unwrap()` unwraps an empty option. The model requires
  `stream.Some?` for a poll.
- The "Invalid Header" arm is reachable only in `Started` and `Done` (see
  `Handshake.StepErrors`). The loop never runs in those states, so the validator
  never returns that error.
- `str::parse::<u16>` accepts a leading `+`. `+99` then gives the "not 2xx" error,
  not "not number".
- On an error the state stays where it was: `Started` after a status error, and
  `FirstCr` or `SecondCr` after an end-of-line error. After a read error it is
  wherever the scan had got to. On success it becomes `Done`.

## Left out

- The `Read`, `Write`, `AsyncRead`, `AsyncWrite` and `Debug` impls of `ProxyTcpStream` and `FixedTcpStream` (src/proxy/stream.rs:154-217): they delegate to the shared `TcpStream`. Half-close and shared ownership through `Arc` are transport behaviour; a socket is an opaque number here.
- `tokio_dns::tcp_connect`, the `futures` combinators and the `Remote` handles: each attempt is an abstract `Attempt` outcome, and the pipeline is one function.
- The `debug!` and `warn!` logging: diagnostics only.
- Partial reads: a 12-byte `read_exact` that blocks or fails partway has consumed bytes that a later poll does not see again. The model reads the 12 bytes all at once or not at all. So for splits inside the status bytes, `Handshake.PollResumes` and `Handshake.ChunkedDeliveryAgrees` describe the model, not the source.
- Read errors are reported only once `input` is used up (`fault`). An error that interrupts the socket's ready bytes is the same error arriving after fewer bytes.
- Handshake.CheckStatus, Handshake.PollFn, Handshake.PollOn and Handshake.ConnectResponse.Poll require that `&s[9..12]` does not panic: when the 12 bytes are valid UTF-8, offset 9 must be a character boundary (`SliceIsSafe`). The source panics otherwise, and the model gives no outcome for that input (`Scenarios.SlicePanicsInsideCharacter` shows one).
- Connector.HandshakeThroughProxy, and Connector.Connect and Connector.AwaitReply when the stream went through the proxy, require the same of the proxy's reply, for the same reason.
- Handshake.ConnectResponse.Poll requires the stream to still be present: the source panics when polled after completion.
- Request.WriteProxyConnect does not model partial writes: `sink` is the outcome of flushing the whole buffer. Which bytes reached the peer before a write error is not modelled.
- The host name is taken as its UTF-8 bytes; `String` encoding is not modelled.
- The commented-out test module (src/proxy/stream.rs:223-245): it has no assertions.
