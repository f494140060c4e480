/** The CONNECT response validator: the 12-byte status-line check and the
    byte-at-a-time scan for the blank line that ends the proxy's headers
    (the status line and header framing of an HTTP/1.1 response, RFC 9112
    sections 2.1 and 4, for a CONNECT request as in RFC 9110 section 9.3.6). */
module Handshake {
  import opened RustStd
  import opened StreamTypes

  /** The scan position kept between polls. */
  datatype Status = Started | HeaderOk | FirstCr | FirstLf | SecondCr | Done

  /** Rust's derived `Debug` for `Status`. */
  function StatusName(s: Status): string
  {
    match s
    case Started => "Started"
    case HeaderOk => "HeaderOk"
    case FirstCr => "FirstCr"
    case FirstLf => "FirstLf"
    case SecondCr => "SecondCr"
    case Done => "Done"
  }

  const NOT_UTF8 := "Invalid status - not UTF8"
  const NOT_NUMBER := "Invalid status - not number"
  const NOT_2XX := "Invalid status - not 2xx"
  const BAD_END_OF_LINE := "Invalid end of line"

  /** The error for a state and byte the transition table does not list. */
  function InvalidHeader(s: Status, b: byte): (e: IoError)
    ensures e.kind == Other
    ensures |e.message| > 24 && e.message[..24] == "Invalid Header - status "
    ensures e.message != BAD_END_OF_LINE
  {
    OtherError("Invalid Header - status " + StatusName(s) + " on byte: " + AsciiText(Decimal(b)))
  }

  // ---------------------------------------------------------------------------
  // The status-line prefix
  // ---------------------------------------------------------------------------

  /** Taking `&s[9..12]` of the decoded prefix does not panic: when the bytes
      are valid UTF-8, offset 9 falls on a character boundary (offset 12 is
      the end and always does). */
  predicate SliceIsSafe(line: seq<byte>)
    requires |line| == 12
  {
    Utf8Valid(line) ==> IsCharBoundary(line, 9)
  }

  /** The check of the first 12 bytes of the reply: `None` when they pass,
      otherwise the error the validator returns. */
  function CheckStatus(line: seq<byte>): (r: Option<IoError>)
    requires |line| == 12 && SliceIsSafe(line)
    ensures r == None <==> Utf8Valid(line) && line[9] == '2' as int && IsDigit(line[10]) && IsDigit(line[11])
    ensures r.Some? ==> r.value.kind == Other
  {
    ParseStatusField(line[9..12]);
    if !Utf8Valid(line) then Some(OtherError(NOT_UTF8))
    else match ParseU16(line[9..12])
      case None => Some(OtherError(NOT_NUMBER))
      case Some(n) => if n < 200 || n >= 300 then Some(OtherError(NOT_2XX)) else None
  }

  /** Which of the three status errors each faulty prefix gives. */
  lemma CheckStatusErrors(line: seq<byte>)
    requires |line| == 12 && SliceIsSafe(line)
    ensures !Utf8Valid(line) ==> CheckStatus(line) == Some(OtherError(NOT_UTF8))
    ensures Utf8Valid(line) && ParseU16(line[9..12]).None? ==> CheckStatus(line) == Some(OtherError(NOT_NUMBER))
    ensures Utf8Valid(line) && ParseU16(line[9..12]).Some? && !(200 <= ParseU16(line[9..12]).value < 300)
            ==> CheckStatus(line) == Some(OtherError(NOT_2XX))
  {
  }

  // ---------------------------------------------------------------------------
  // The header scan
  // ---------------------------------------------------------------------------

  /** The effect of one header byte: a new position, the end of the headers
      (the loop's `break`), or an error. */
  datatype Transition = Next(status: Status) | Break | Fail(error: IoError)

  /** The transition table of the header scan loop. */
  function Step(s: Status, b: byte): (r: Transition)
    ensures r.Break? <==> s == SecondCr && b == LF
    ensures Scanning(s) ==>
              (r.Next? && (r.status == FirstCr || r.status == SecondCr) <==> b == CR && (s == HeaderOk || s == FirstLf))
    ensures Scanning(s) && b == LF ==> !r.Fail?
  {
    match s
    case HeaderOk => if b == CR then Next(FirstCr) else Next(HeaderOk)
    case FirstCr => if b == LF then Next(FirstLf) else Fail(OtherError(BAD_END_OF_LINE))
    case FirstLf => if b == CR then Next(SecondCr) else Next(HeaderOk)
    case SecondCr => if b == LF then Break else Fail(OtherError(BAD_END_OF_LINE))
    case _ => Fail(InvalidHeader(s, b))
  }

  /** The states the scan loop runs in. */
  predicate Scanning(s: Status)
  {
    s == HeaderOk || s == FirstCr || s == FirstLf || s == SecondCr
  }

  /** Every error of the scan loop is "Invalid end of line", raised only on
      a byte other than LF after a CR; "Invalid Header" is raised only in
      `Started` or `Done`, which the loop never runs in. */
  lemma StepErrors(s: Status, b: byte)
    ensures Step(s, b).Fail? && Scanning(s) <==> (s == FirstCr || s == SecondCr) && b != LF
    ensures Step(s, b).Fail? && Scanning(s) ==> Step(s, b).error == OtherError(BAD_END_OF_LINE)
    ensures !Scanning(s) ==> Step(s, b) == Fail(InvalidHeader(s, b))
    ensures Step(s, b).Next? ==> Scanning(Step(s, b).status)
    ensures Step(s, b).Fail? ==> Step(s, b).error.kind == Other
  {
  }

  /** Where a scan over some bytes has got to: still in a state, stopped
      after the byte at `at - 1` (the headers' end), or failed on it. */
  datatype Scan = InState(status: Status) | Stopped(at: nat) | Failed(error: IoError, at: nat, status: Status)

  /** The scan from state `st` over the bytes `h`, one byte at a time; once
      it stops or fails the remaining bytes are not looked at. */
  function Run(st: Status, h: seq<byte>): (r: Scan)
    ensures r.Stopped? || r.Failed? ==> 0 < r.at <= |h|
    ensures r.InState? && st != Done ==> r.status != Done
    ensures r.Failed? && st != Done ==> r.status != Done
    ensures Scanning(st) && r.InState? ==> Scanning(r.status)
    decreases |h|
  {
    if |h| == 0 then InState(st)
    else
      match Run(st, h[..|h| - 1])
      case InState(s) =>
        (match Step(s, h[|h| - 1])
         case Next(t) => InState(t)
         case Break => Stopped(|h|)
         case Fail(e) => Failed(e, |h|, s))
      case r => r
  }

  /** A scan outcome, with positions moved `k` bytes on. */
  function Shift(r: Scan, k: nat): Scan
  {
    match r
    case InState(_) => r
    case Stopped(n) => Stopped(n + k)
    case Failed(e, n, s) => Failed(e, n + k, s)
  }

  /** Scanning `a + b` is scanning `a`, then resuming from where it got to
      over `b`; a scan that ended in `a` never reads `b`. */
  lemma {:induction false} RunAppend(st: Status, a: seq<byte>, b: seq<byte>)
    ensures Run(st, a + b) == if Run(st, a).InState? then Shift(Run(Run(st, a).status, b), |a|) else Run(st, a)
    decreases |b|
  {
    if |b| == 0 {
      assert a + b == a;
    } else {
      var b', x := b[..|b| - 1], b[|b| - 1];
      assert b == b' + [x];
      assert a + b == (a + b') + [x];
      RunAppend(st, a, b');
      RunSnoc(st, a + b', x);
      if Run(st, a).InState? {
        RunSnoc(Run(st, a).status, b', x);
      }
    }
  }

  /** One more byte: a running scan takes one step, an ended one stays. */
  lemma RunSnoc(st: Status, h: seq<byte>, b: byte)
    ensures Run(st, h + [b]) ==
            match Run(st, h)
            case InState(s) =>
              (match Step(s, b)
               case Next(t) => InState(t)
               case Break => Stopped(|h| + 1)
               case Fail(e) => Failed(e, |h| + 1, s))
            case r => r
  {
    assert (h + [b])[..|h|] == h;
  }

  /** A scan that has ended on the first `k` bytes has ended on all of them. */
  lemma RunEndedAt(st: Status, h: seq<byte>, k: nat)
    requires k <= |h| && !Run(st, h[..k]).InState?
    ensures Run(st, h) == Run(st, h[..k])
  {
    assert h[..k] + h[k..] == h;
    RunAppend(st, h[..k], h[k..]);
  }

  /** One iteration of the scan loop over `h[start..]`, reading the byte at
      `pos`: the scan either moves on, or has ended on all of `h[start..]`. */
  lemma ScanStep(first: Status, h: seq<byte>, start: nat, pos: nat, st: Status)
    requires start <= pos < |h| && Run(first, h[start..pos]) == InState(st)
    ensures match Step(st, h[pos])
            case Next(t) => Run(first, h[start..pos + 1]) == InState(t)
            case Break => Run(first, h[start..]) == Stopped(pos + 1 - start)
            case Fail(e) => Run(first, h[start..]) == Failed(e, pos + 1 - start, st)
  {
    var seen := h[start..pos + 1];
    assert Run(first, seen) == match Step(st, h[pos])
                               case Next(t) => InState(t)
                               case Break => Stopped(pos + 1 - start)
                               case Fail(e) => Failed(e, pos + 1 - start, st) by {
      assert seen == h[start..pos] + [h[pos]];
      RunSnoc(first, h[start..pos], h[pos]);
    }
    if !Step(st, h[pos]).Next? {
      assert h[start..][..pos + 1 - start] == seen;
      RunEndedAt(first, h[start..], pos + 1 - start);
    }
  }

  /** A scan that ended at `at` gives the same outcome on the bytes up to `at`. */
  lemma RunEndsAt(st: Status, h: seq<byte>)
    requires !Run(st, h).InState?
    ensures Run(st, h[..Run(st, h).at]) == Run(st, h)
  {
    var n := Run(st, h).at;
    assert h[..n] + h[n..] == h;
    RunAppend(st, h[..n], h[n..]);
  }

  // Reference definitions of where the scan must stop or fail.

  /** A CR at `i` followed by something other than LF. */
  predicate BareCrAt(h: seq<byte>, i: int)
  {
    0 <= i && i + 1 < |h| && h[i] == CR && h[i + 1] != LF
  }

  /** The blank line CR LF CR LF at offset `j`. */
  predicate BlankLineAt(h: seq<byte>, j: int)
  {
    0 <= j && j + 4 <= |h| && h[j] == CR && h[j + 1] == LF && h[j + 2] == CR && h[j + 3] == LF
  }

  predicate NoBareCr(h: seq<byte>)
  {
    forall i :: 0 <= i < |h| ==> !BareCrAt(h, i)
  }

  predicate NoBlankLine(h: seq<byte>)
  {
    forall j :: 0 <= j < |h| ==> !BlankLineAt(h, j)
  }

  /** The state that the bytes seen so far call for, read off their end. */
  function SuffixState(p: seq<byte>): Status
  {
    if |p| >= 3 && p[|p| - 3] == CR && p[|p| - 2] == LF && p[|p| - 1] == CR then SecondCr
    else if |p| >= 2 && p[|p| - 2] == CR && p[|p| - 1] == LF then FirstLf
    else if |p| >= 1 && p[|p| - 1] == CR then FirstCr
    else HeaderOk
  }

  /** How the reference predicates change when one byte is added. */
  lemma ExtendByOne(h: seq<byte>)
    requires |h| > 0
    ensures var p := h[..|h| - 1];
            NoBareCr(h) <==> NoBareCr(p) && !BareCrAt(h, |h| - 2)
    ensures var p := h[..|h| - 1];
            NoBlankLine(h) <==> NoBlankLine(p) && !BlankLineAt(h, |h| - 4)
  {
    var p := h[..|h| - 1];
    assert forall i :: 0 <= i < |p| && BareCrAt(p, i) ==> BareCrAt(h, i);
    assert forall i :: 0 <= i < |h| && BareCrAt(h, i) && i != |h| - 2 ==> BareCrAt(p, i);
    assert forall j :: 0 <= j < |p| && BlankLineAt(p, j) ==> BlankLineAt(h, j);
    assert forall j :: 0 <= j < |h| && BlankLineAt(h, j) && j != |h| - 4 ==> BlankLineAt(p, j);
  }

  /** The loop's invariant: from `HeaderOk` the scan is still running exactly
      when no bare CR and no blank line has been seen, and then its state is
      the one the last bytes call for. */
  lemma {:induction false} ScanInvariant(h: seq<byte>)
    ensures Run(HeaderOk, h).InState? <==> NoBareCr(h) && NoBlankLine(h)
    ensures Run(HeaderOk, h).InState? ==> Run(HeaderOk, h).status == SuffixState(h)
    decreases |h|
  {
    if |h| > 0 {
      var p := h[..|h| - 1];
      ScanInvariant(p);
      ExtendByOne(h);
    }
  }

  /** The last byte of `q` ends the scan from `HeaderOk` exactly when it
      completes the first blank line of `q` and no bare CR came before. */
  lemma {:induction false} StopsOnLastByte(q: seq<byte>)
    requires |q| > 0
    ensures Run(HeaderOk, q) == Stopped(|q|)
            <==> |q| >= 4 && BlankLineAt(q, |q| - 4) && NoBareCr(q[..|q| - 1]) && NoBlankLine(q[..|q| - 1])
  {
    var p := q[..|q| - 1];
    ScanInvariant(p);
  }

  /** The last byte of `q` makes the scan from `HeaderOk` fail exactly when
      it follows the first bare CR of `q` and no blank line came before. */
  lemma {:induction false} FailsOnLastByte(q: seq<byte>)
    requires |q| > 0
    ensures Run(HeaderOk, q).Failed? && Run(HeaderOk, q).at == |q|
            <==> |q| >= 2 && BareCrAt(q, |q| - 2) && NoBareCr(q[..|q| - 1]) && NoBlankLine(q[..|q| - 1])
    ensures Run(HeaderOk, q).Failed? && Run(HeaderOk, q).at == |q| ==> Run(HeaderOk, q).error == OtherError(BAD_END_OF_LINE)
  {
    var p := q[..|q| - 1];
    ScanInvariant(p);
    if Run(HeaderOk, p).InState? {
      StepErrors(Run(HeaderOk, p).status, q[|q| - 1]);
    }
  }

  /** The reference predicates read the same on a prefix that covers them. */
  lemma PrefixAgrees(h: seq<byte>, n: nat)
    requires 1 <= n <= |h|
    ensures h[..n][..n - 1] == h[..n - 1]
    ensures BlankLineAt(h[..n], n - 4) == BlankLineAt(h, n - 4)
    ensures BareCrAt(h[..n], n - 2) == BareCrAt(h, n - 2)
  {
  }

  /** A stop after byte `n - 1` is the end of the first blank line, with no
      bare CR before it. */
  lemma StoppedAtBlankLine(h: seq<byte>, n: nat)
    requires Run(HeaderOk, h) == Stopped(n)
    ensures 4 <= n <= |h| && BlankLineAt(h, n - 4) && NoBareCr(h[..n - 1]) && NoBlankLine(h[..n - 1])
  {
    var q := h[..n];
    assert Run(HeaderOk, q) == Stopped(|q|) by {
      RunEndsAt(HeaderOk, h);
    }
    assert |q| >= 4 && BlankLineAt(q, |q| - 4) && NoBareCr(q[..|q| - 1]) && NoBlankLine(q[..|q| - 1]) by {
      StopsOnLastByte(q);
    }
    PrefixAgrees(h, n);
  }

  /** The first blank line, with no bare CR before it, stops the scan on its
      last byte. */
  lemma BlankLineStops(h: seq<byte>, n: nat)
    requires 4 <= n <= |h| && BlankLineAt(h, n - 4) && NoBareCr(h[..n - 1]) && NoBlankLine(h[..n - 1])
    ensures Run(HeaderOk, h) == Stopped(n)
  {
    var q := h[..n];
    PrefixAgrees(h, n);
    assert Run(HeaderOk, q) == Stopped(|q|) by {
      StopsOnLastByte(q);
    }
    RunEndedAt(HeaderOk, h, n);
  }

  /** The scan from `HeaderOk` stops after byte `n - 1` exactly when the
      bytes before `n` end in the first blank line and hold no bare CR. */
  lemma StopsAtFirstBlankLine(h: seq<byte>, n: nat)
    ensures Run(HeaderOk, h) == Stopped(n)
            <==> 4 <= n <= |h| && BlankLineAt(h, n - 4) && NoBareCr(h[..n - 1]) && NoBlankLine(h[..n - 1])
  {
    if Run(HeaderOk, h) == Stopped(n) {
      StoppedAtBlankLine(h, n);
    }
    if 4 <= n <= |h| && BlankLineAt(h, n - 4) && NoBareCr(h[..n - 1]) && NoBlankLine(h[..n - 1]) {
      BlankLineStops(h, n);
    }
  }

  /** A failure on byte `k - 1` follows the first bare CR, with no blank
      line before it, and is "Invalid end of line". */
  lemma FailedAtBareCr(h: seq<byte>, k: nat)
    requires Run(HeaderOk, h).Failed? && Run(HeaderOk, h).at == k
    ensures 2 <= k <= |h| && BareCrAt(h, k - 2) && NoBareCr(h[..k - 1]) && NoBlankLine(h[..k - 1])
    ensures Run(HeaderOk, h).error == OtherError(BAD_END_OF_LINE)
  {
    var q := h[..k];
    assert Run(HeaderOk, q) == Run(HeaderOk, h) by {
      RunEndsAt(HeaderOk, h);
    }
    assert |q| >= 2 && BareCrAt(q, |q| - 2) && NoBareCr(q[..|q| - 1]) && NoBlankLine(q[..|q| - 1])
           && Run(HeaderOk, q).error == OtherError(BAD_END_OF_LINE) by {
      FailsOnLastByte(q);
    }
    PrefixAgrees(h, k);
  }

  /** The first bare CR, with no blank line before it, fails the scan on the
      byte after it. */
  lemma BareCrFails(h: seq<byte>, k: nat)
    requires 2 <= k <= |h| && BareCrAt(h, k - 2) && NoBareCr(h[..k - 1]) && NoBlankLine(h[..k - 1])
    ensures Run(HeaderOk, h).Failed? && Run(HeaderOk, h).at == k
  {
    var q := h[..k];
    PrefixAgrees(h, k);
    assert Run(HeaderOk, q).Failed? && Run(HeaderOk, q).at == |q| by {
      FailsOnLastByte(q);
    }
    RunEndedAt(HeaderOk, h, k);
  }

  /** The scan from `HeaderOk` fails on byte `k - 1` exactly when that byte
      follows the first bare CR and no blank line came before; the error is
      "Invalid end of line". */
  lemma FailsAtFirstBareCr(h: seq<byte>, k: nat)
    ensures Run(HeaderOk, h).Failed? && Run(HeaderOk, h).at == k
            <==> 2 <= k <= |h| && BareCrAt(h, k - 2) && NoBareCr(h[..k - 1]) && NoBlankLine(h[..k - 1])
    ensures Run(HeaderOk, h).Failed? ==> Run(HeaderOk, h).error == OtherError(BAD_END_OF_LINE)
  {
    var failsHere := Run(HeaderOk, h).Failed? && Run(HeaderOk, h).at == k;
    var bareCr := 2 <= k <= |h| && BareCrAt(h, k - 2) && NoBareCr(h[..k - 1]) && NoBlankLine(h[..k - 1]);
    assert failsHere ==> bareCr by {
      if failsHere {
        FailedAtBareCr(h, k);
      }
    }
    assert bareCr ==> failsHere by {
      if bareCr {
        BareCrFails(h, k);
      }
    }
    if Run(HeaderOk, h).Failed? {
      FailedAtBareCr(h, Run(HeaderOk, h).at);
    }
  }

  // ---------------------------------------------------------------------------
  // One poll of the validator
  // ---------------------------------------------------------------------------

  /** The value of a `Poll<ProxyTcpStream, IoError>`: `Ok(Async::Ready(stream))`,
      `Ok(Async::NotReady)` (a read would block), or `Err(error)`. */
  datatype Async = Ready(item: ProxyTcpStream) | NotReady | Error(error: IoError)

  /** What one poll returns, the scan position it leaves behind and how many
      of the available bytes it read from the socket. */
  datatype PollStep = PollStep(outcome: Async, status: Status, used: nat)

  /** The poll does not panic on `&s[9..12]` with these bytes available. */
  predicate PanicFree(s: ProxyTcpStream, st: Status, input: seq<byte>)
  {
    s.isProxied && st == Started && |input| >= 12 ==> SliceIsSafe(input[..12])
  }

  /** The header scan part of a poll, from state `st` over `h`. */
  function ScanPoll(s: ProxyTcpStream, st: Status, h: seq<byte>): (p: PollStep)
    ensures p.used <= |h|
    ensures p.outcome.NotReady? ==> p.used == |h|
    ensures p.outcome.Ready? ==> p.outcome.item == s && p.status == Done
    ensures st != Done ==> (p.outcome.Ready? <==> p.status == Done)
  {
    match Run(st, h)
    case InState(t) => PollStep(NotReady, t, |h|)
    case Stopped(n) => PollStep(Ready(s), Done, n)
    case Failed(e, n, t) => PollStep(Error(e), t, n)
  }

  /** One poll of the validator for stream `s` in state `st`, with `input`
      the bytes the socket has ready. Reading the 12-byte prefix either gets
      all of it or suspends without consuming anything; each header byte is
      one read. */
  function PollFn(s: ProxyTcpStream, st: Status, input: seq<byte>): (p: PollStep)
    requires PanicFree(s, st, input)
    ensures p.used <= |input|
    ensures p.outcome.Ready? ==> p.outcome.item == s && p.status == Done
    ensures st != Done && p.status == Done ==> p.outcome.Ready?
  {
    if !s.isProxied then PollStep(Ready(s), Done, 0)
    else if st == Started then
      if |input| < 12 then PollStep(NotReady, Started, 0)
      else
        match CheckStatus(input[..12])
        case Some(e) => PollStep(Error(e), Started, 12)
        case None =>
          var q := ScanPoll(s, HeaderOk, input[12..]);
          PollStep(q.outcome, q.status, 12 + q.used)
    else ScanPoll(s, st, input)
  }

  /** A stream that did not go through the proxy is handed back at once: no
      byte is read and the state becomes `Done`. */
  lemma UnproxiedSkipsValidation(s: ProxyTcpStream, st: Status, input: seq<byte>)
    requires !s.isProxied
    ensures PollFn(s, st, input) == PollStep(Ready(s), Done, 0)
  {
  }

  /** A poll when the socket, once `input` is used up, fails with a read
      error other than `WouldBlock` (`fault`) instead of blocking:
      `try_nb!` returns that error as it is, and the scan position stays
      where it got to. With `fault == None` this is `PollFn`. */
  function PollOn(s: ProxyTcpStream, st: Status, input: seq<byte>, fault: Option<IoError>): (p: PollStep)
    requires PanicFree(s, st, input)
    ensures p.used <= |input|
    ensures p.outcome.NotReady? ==> fault.None?
    ensures p.status == PollFn(s, st, input).status && p.used == PollFn(s, st, input).used
  {
    var q := PollFn(s, st, input);
    if q.outcome.NotReady? && fault.Some? then PollStep(Error(fault.value), q.status, q.used) else q
  }

  /** Read errors pass through unchanged: the socket's error is returned
      exactly when the validator would otherwise wait for more bytes, and
      every other error is one the validator raised itself, of kind `Other`. */
  lemma ReadErrorsPassThrough(s: ProxyTcpStream, st: Status, input: seq<byte>, fault: Option<IoError>)
    requires PanicFree(s, st, input)
    ensures fault.None? ==> PollOn(s, st, input, fault) == PollFn(s, st, input)
    ensures fault.Some? ==>
              (PollOn(s, st, input, fault).outcome == Error(fault.value) <==>
               PollFn(s, st, input).outcome.NotReady? || PollFn(s, st, input).outcome == Error(fault.value))
    ensures var o := PollOn(s, st, input, fault).outcome;
            o.Error? ==> o.error.kind == Other || Some(o.error) == fault
  {
    PollErrorsAreOther(s, st, input);
  }

  /** Every error the header scan ends with is of kind `Other`. */
  lemma {:induction false} ScanErrorsAreOther(st: Status, h: seq<byte>)
    ensures Run(st, h).Failed? ==> Run(st, h).error.kind == Other
    decreases |h|
  {
    if |h| > 0 {
      ScanErrorsAreOther(st, h[..|h| - 1]);
    }
  }

  /** Every error the validator raises itself (every error of a poll whose
      reads only ever block) is of kind `Other`. */
  lemma PollErrorsAreOther(s: ProxyTcpStream, st: Status, input: seq<byte>)
    requires PanicFree(s, st, input)
    ensures PollFn(s, st, input).outcome.Error? ==> PollFn(s, st, input).outcome.error.kind == Other
  {
    if s.isProxied {
      if st != Started {
        ScanErrorsAreOther(st, input);
      } else if |input| >= 12 && CheckStatus(input[..12]).None? {
        ScanErrorsAreOther(HeaderOk, input[12..]);
      }
    }
  }

  /** A validation from the start succeeds having read `n` bytes exactly
      when the first 12 pass the status check and the rest up to `n` are
      headers ending in their first blank line, with no bare CR among them. */
  lemma ConsumesStatusAndHeaders(s: ProxyTcpStream, input: seq<byte>, n: nat)
    requires s.isProxied && PanicFree(s, Started, input)
    ensures PollFn(s, Started, input).outcome.Ready? && PollFn(s, Started, input).used == n
            <==> 16 <= n <= |input| && CheckStatus(input[..12]).None? &&
                 BlankLineAt(input, n - 4) &&
                 NoBareCr(input[12..n - 1]) && NoBlankLine(input[12..n - 1])
  {
    if |input| >= 12 && CheckStatus(input[..12]).None? && n >= 12 {
      var h := input[12..];
      StopsAtFirstBlankLine(h, n - 12);
      if n - 12 <= |h| && n >= 16 {
        assert h[..n - 13] == input[12..n - 1];
        assert BlankLineAt(h, n - 16) == BlankLineAt(input, n - 4);
      }
    }
  }

  /** The validator never reads tunneled payload: after a successful
      validation, whatever follows the consumed bytes changes nothing. */
  lemma PayloadUntouched(s: ProxyTcpStream, input: seq<byte>, payload: seq<byte>)
    requires PanicFree(s, Started, input)
    requires PollFn(s, Started, input).outcome.Ready?
    ensures var n := PollFn(s, Started, input).used;
            PanicFree(s, Started, input[..n] + payload) &&
            PollFn(s, Started, input[..n] + payload) == PollFn(s, Started, input)
  {
    var n := PollFn(s, Started, input).used;
    if s.isProxied {
      var h := input[12..];
      var m := n - 12;
      assert Run(HeaderOk, h) == Stopped(m);
      assert Run(HeaderOk, h[..m]) == Stopped(m) by {
        RunEndsAt(HeaderOk, h);
      }
      var joined := input[..n] + payload;
      assert joined[..12] == input[..12];
      assert Run(HeaderOk, joined[12..]) == Stopped(m) by {
        assert joined[12..] == h[..m] + payload;
        RunAppend(HeaderOk, h[..m], payload);
      }
    }
  }

  /** Resumption of the header scan part: see `PollResumes`. */
  lemma ScanPollResumes(s: ProxyTcpStream, st: Status, a: seq<byte>, b: seq<byte>)
    ensures var p := ScanPoll(s, st, a);
            var w := ScanPoll(s, st, a + b);
            if p.outcome.NotReady? then
              var q := ScanPoll(s, p.status, b);
              p.used == |a| && q.outcome == w.outcome && q.status == w.status && |a| + q.used == w.used
            else p == w
  {
    RunAppend(st, a, b);
  }

  /** What `PollResumes` says, for one pair of polls. */
  ghost predicate ResumesLike(s: ProxyTcpStream, st: Status, a: seq<byte>, b: seq<byte>)
    requires PanicFree(s, st, a) && PanicFree(s, st, a + b)
  {
    var p := PollFn(s, st, a);
    var w := PollFn(s, st, a + b);
    if p.outcome.NotReady? then
      PanicFree(s, p.status, a[p.used..] + b) &&
      var q := PollFn(s, p.status, a[p.used..] + b);
      q.outcome == w.outcome && q.status == w.status && p.used + q.used == w.used
    else p == w
  }

  /** `PollResumes` once the status line has been checked. */
  lemma ResumesInHeaders(s: ProxyTcpStream, st: Status, a: seq<byte>, b: seq<byte>)
    requires s.isProxied && st != Started
    ensures ResumesLike(s, st, a, b)
  {
    ScanPollResumes(s, st, a, b);
    var p := PollFn(s, st, a);
    if p.outcome.NotReady? {
      assert a[p.used..] + b == b;
    }
  }

  /** `PollResumes` from the start, when `a` holds all 12 status bytes. */
  lemma ResumesFromStart(s: ProxyTcpStream, a: seq<byte>, b: seq<byte>)
    requires s.isProxied && |a| >= 12 && SliceIsSafe(a[..12])
    ensures (a + b)[..12] == a[..12]
    ensures ResumesLike(s, Started, a, b)
  {
    assert (a + b)[..12] == a[..12];
    if CheckStatus(a[..12]).None? {
      assert (a + b)[12..] == a[12..] + b;
      ScanPollResumes(s, HeaderOk, a[12..], b);
      var p := PollFn(s, Started, a);
      if p.outcome.NotReady? {
        assert a[p.used..] + b == b;
      }
    }
  }

  /** Resumption: polling on the bytes of `a`, and if that suspends, polling
      again from the saved state after `b` has arrived (the unread part of
      `a` is still on the socket), ends exactly like one poll over `a + b`.
      Inside the header scan this is the source's behaviour; for a split
      inside the 12 status bytes it holds because the model's `read_exact`
      reads all 12 or none. */
  lemma PollResumes(s: ProxyTcpStream, st: Status, a: seq<byte>, b: seq<byte>)
    requires PanicFree(s, st, a + b)
    ensures PanicFree(s, st, a)
    ensures ResumesLike(s, st, a, b)
  {
    if |a| >= 12 {
      assert (a + b)[..12] == a[..12];
    }
    if !s.isProxied {
    } else if st != Started {
      ResumesInHeaders(s, st, a, b);
    } else if |a| < 12 {
      assert a[0..] + b == a + b;
    } else {
      ResumesFromStart(s, a, b);
    }
  }

  /** The bytes of all chunks, in order. */
  function Concat(chunks: seq<seq<byte>>): seq<byte>
    decreases |chunks|
  {
    if |chunks| == 0 then [] else chunks[0] + Concat(chunks[1..])
  }

  /** The socket delivers `chunks` one after another; the validator is
      polled once after each arrives, on what is unread so far, until it
      completes. The result is the last poll's outcome and state and the
      total number of bytes read. */
  function PollChunks(s: ProxyTcpStream, st: Status, unread: seq<byte>, chunks: seq<seq<byte>>): (p: PollStep)
    requires PanicFree(s, st, unread + Concat(chunks))
    ensures p.used <= |unread| + |Concat(chunks)|
    ensures p.outcome.Ready? ==> p.outcome.item == s && p.status == Done
    decreases |chunks|
  {
    if |chunks| == 0 then
      assert unread + Concat(chunks) == unread;
      PollFn(s, st, unread)
    else
      var rest := Concat(chunks[1..]);
      assert unread + Concat(chunks) == (unread + chunks[0]) + rest;
      PollResumes(s, st, unread + chunks[0], rest);
      var p := PollFn(s, st, unread + chunks[0]);
      if p.outcome.NotReady? then
        var q := PollChunks(s, p.status, (unread + chunks[0])[p.used..], chunks[1..]);
        PollStep(q.outcome, q.status, p.used + q.used)
      else p
  }

  /** Chunked delivery changes nothing: polling chunk by chunk gives the
      outcome, state and byte count of one poll over all the bytes. As for
      `PollResumes`, chunk borders inside the 12 status bytes are covered
      only under the all-or-nothing `read_exact` of the model. */
  lemma {:induction false} ChunkedDeliveryAgrees(s: ProxyTcpStream, st: Status, unread: seq<byte>, chunks: seq<seq<byte>>)
    requires PanicFree(s, st, unread + Concat(chunks))
    ensures PollChunks(s, st, unread, chunks) == PollFn(s, st, unread + Concat(chunks))
    decreases |chunks|
  {
    if |chunks| == 0 {
      assert unread + Concat(chunks) == unread;
    } else {
      var rest := Concat(chunks[1..]);
      var whole := unread + chunks[0];
      assert unread + Concat(chunks) == whole + rest;
      PollResumes(s, st, whole, rest);
      var p := PollFn(s, st, whole);
      if p.outcome.NotReady? {
        ChunkedDeliveryAgrees(s, p.status, whole[p.used..], chunks[1..]);
      }
    }
  }

  // ---------------------------------------------------------------------------
  // The future itself
  // ---------------------------------------------------------------------------

  /** `ConnectResponse`: the stream (taken out when the future completes) and
      the scan position, which persists between polls. */
  class ConnectResponse {
    var stream: Option<ProxyTcpStream>
    var status: Status

    /** `read_proxy_response`: a fresh validator holding `s`. */
    constructor (s: ProxyTcpStream)
      ensures stream == Some(s) && status == Started
    {
      stream := Some(s);
      status := Started;
    }

    /** One `poll`, with `input` the bytes the socket has ready and `fault`
        what the next read reports once they are used up (`None`: it would
        block); `used` is how many of the bytes it read. */
    method Poll(input: seq<byte>, fault: Option<IoError>) returns (r: Async, used: nat)
      requires stream.Some?
      requires PanicFree(stream.value, status, input)
      modifies this
      ensures var p := PollOn(old(stream).value, old(status), input, fault);
              r == p.outcome && used == p.used && status == p.status
      ensures stream == if r.Ready? then None else old(stream)
    {
      var s := stream.value;
      if s.isProxied {
        var start := 0;
        if status == Started {
          if |input| < 12 {
            if fault.Some? {
              return Error(fault.value), 0;
            }
            return NotReady, 0;
          }
          var check := CheckStatus(input[..12]);
          if check.Some? {
            return Error(check.value), 12;
          }
          status := HeaderOk;
          start := 12;
        }
        assert start == 0 ==> input[start..] == input;
        r, used := ScanHeaders(input, start, fault);
        if !r.Ready? {
          return;
        }
      } else {
        used := 0;
      }
      status := Done;
      r := Ready(s);
      stream := None;
    }

    /** The header scan loop of `poll`: reads the bytes of `input` from
        `start` on, one at a time, through the transition table. On `Ready`
        the loop has read the blank line and `poll` finishes the future. */
    method ScanHeaders(input: seq<byte>, start: nat, fault: Option<IoError>) returns (r: Async, used: nat)
      requires stream.Some? && start <= |input|
      modifies `status
      ensures var p := ScanPoll(stream.value, old(status), input[start..]);
              r == (if p.outcome.NotReady? && fault.Some? then Error(fault.value) else p.outcome) &&
              used == start + p.used && (r.Ready? || status == p.status)
    {
      ghost var first := status;
      var pos := start;
      assert input[start..pos] == [];
      while true
        invariant start <= pos <= |input|
        invariant Run(first, input[start..pos]) == InState(status)
        invariant stream == old(stream)
        decreases |input| - pos
      {
        if pos == |input| {
          assert input[start..] == input[start..pos];
          if fault.Some? {
            return Error(fault.value), pos;
          }
          return NotReady, pos;
        }
        var b := input[pos];
        ScanStep(first, input, start, pos, status);
        pos := pos + 1;
        match Step(status, b)
        case Next(t) =>
          status := t;
        case Break =>
          return Ready(stream.value), pos;
        case Fail(e) =>
          return Error(e), pos;
      }
    }
  }
}
