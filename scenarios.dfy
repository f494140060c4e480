/** Canned proxy replies run through the validator. */
module Scenarios {
  import opened RustStd
  import opened StreamTypes
  import opened Handshake

  /** From `HeaderOk`, bytes without a CR leave the scan in `HeaderOk`. */
  lemma {:induction false} PlainBytesStay(t: seq<byte>)
    requires forall i :: 0 <= i < |t| ==> t[i] != CR
    ensures Run(HeaderOk, t) == InState(HeaderOk)
    decreases |t|
  {
    if |t| > 0 {
      PlainBytesStay(t[..|t| - 1]);
    }
  }

  /** A header line's CR LF leads to `FirstLf`. */
  lemma LineEnd()
    ensures Run(HeaderOk, [CR, LF]) == InState(FirstLf)
  {
    assert [CR][..0] == [];
    assert Run(HeaderOk, [CR]) == InState(FirstCr);
    assert [CR, LF][..1] == [CR];
  }

  /** The blank line ends the scan on its last byte. */
  lemma BlankLine()
    ensures Run(HeaderOk, [CR, LF, CR, LF]) == Stopped(4)
  {
    LineEnd();
    assert [CR, LF, CR][..2] == [CR, LF];
    assert Run(HeaderOk, [CR, LF, CR]) == InState(SecondCr);
    assert [CR, LF, CR, LF][..3] == [CR, LF, CR];
  }

  /** A header line that is not blank goes back to `HeaderOk` and stays there. */
  lemma NextLine(t: seq<byte>)
    requires |t| > 0 && forall i :: 0 <= i < |t| ==> t[i] != CR
    ensures Run(FirstLf, t) == InState(HeaderOk)
  {
    assert [t[0]][..0] == [];
    assert Run(FirstLf, [t[0]]) == InState(HeaderOk);
    assert [t[0]] + t[1..] == t;
    RunAppend(FirstLf, [t[0]], t[1..]);
    PlainBytesStay(t[1..]);
  }

  /** `"HTTP/1.1 "`, the nine bytes before the status code. */
  const HTTP_PREFIX: seq<byte> := Ascii("HTTP/1.1 ")
  const OK_REST: seq<byte> := Ascii(" OK")
  const HEADER: seq<byte> := Ascii("Header: x")

  lemma HttpPrefixIsAscii()
    ensures |HTTP_PREFIX| == 9 && forall i :: 0 <= i < 9 ==> HTTP_PREFIX[i] < 0x80
  {
  }

  /** `"HTTP/1.1 "` followed by a three-byte ASCII code is a panic-free
      prefix whose status field is that code. */
  lemma StatusLine(code: seq<byte>)
    requires |code| == 3 && forall i :: 0 <= i < 3 ==> code[i] < 0x80
    ensures var line := HTTP_PREFIX + code;
            |line| == 12 && Utf8Valid(line) && SliceIsSafe(line) && line[9..12] == code
  {
    HttpPrefixIsAscii();
    AsciiIsUtf8(code);
    AsciiThenUtf8(HTTP_PREFIX, code);
    assert (HTTP_PREFIX + code)[9..12] == code;
  }

  /** `"200"`. */
  const OK_CODE: seq<byte> := [50, 48, 48]
  const OK_STATUS: seq<byte> := HTTP_PREFIX + OK_CODE

  /** The header region of the canned reply: `" OK\r\nHeader: x\r\n\r\n"`. */
  function OkHeaders(): seq<byte>
  {
    OK_REST + [CR, LF] + HEADER + [CR, LF, CR, LF]
  }

  /** `"HTTP/1.1 200 OK\r\nHeader: x\r\n\r\n"`. */
  function OkReply(): seq<byte>
  {
    OK_STATUS + OkHeaders()
  }

  lemma OkStatusPasses()
    ensures |OK_STATUS| == 12 && SliceIsSafe(OK_STATUS) && CheckStatus(OK_STATUS) == None
  {
    StatusLine(OK_CODE);
  }

  /** The scan over the canned headers stops on their last byte. */
  lemma OkHeadersStop()
    ensures Run(HeaderOk, OkHeaders()) == Stopped(|OkHeaders()|)
  {
    PlainBytesStay(OK_REST);
    LineEnd();
    RunAppend(HeaderOk, OK_REST, [CR, LF]);
    NextLine(HEADER);
    RunAppend(HeaderOk, OK_REST + [CR, LF], HEADER);
    BlankLine();
    RunAppend(HeaderOk, OK_REST + [CR, LF] + HEADER, [CR, LF, CR, LF]);
  }

  /** A poll from the start on a reply whose status line passes is the
      header scan over the rest, moved on by 12. */
  lemma PollAfterGoodStatus(s: ProxyTcpStream, line: seq<byte>, h: seq<byte>)
    requires s.isProxied && |line| == 12 && SliceIsSafe(line) && CheckStatus(line) == None
    ensures (line + h)[..12] == line
    ensures var q := ScanPoll(s, HeaderOk, h);
            PollFn(s, Started, line + h) == PollStep(q.outcome, q.status, 12 + q.used)
  {
    assert (line + h)[..12] == line;
    assert (line + h)[12..] == h;
  }

  /** The reply `"HTTP/1.1 200 OK\r\nHeader: x\r\n\r\n"` followed by any
      payload validates, consuming exactly the reply and none of the payload. */
  lemma OkReplyLeavesPayload(s: ProxyTcpStream, payload: seq<byte>)
    requires s.isProxied
    ensures PanicFree(s, Started, OkReply() + payload)
    ensures PollFn(s, Started, OkReply() + payload) == PollStep(Ready(s), Done, |OkReply()|)
  {
    var r := OkReply();
    OkStatusPasses();
    OkHeadersStop();
    PollAfterGoodStatus(s, OK_STATUS, OkHeaders());
    assert ScanPoll(s, HeaderOk, OkHeaders()) == PollStep(Ready(s), Done, |OkHeaders()|);
    assert PollFn(s, Started, r) == PollStep(Ready(s), Done, |r|);
    assert r[..|r|] == r;
    PayloadUntouched(s, r, payload);
  }

  /** A poll from the start on a reply whose status line fails ends with
      that error, after reading just the 12 status bytes. */
  lemma PollAfterBadStatus(s: ProxyTcpStream, line: seq<byte>, rest: seq<byte>)
    requires s.isProxied && |line| == 12 && SliceIsSafe(line) && CheckStatus(line).Some?
    ensures (line + rest)[..12] == line
    ensures PollFn(s, Started, line + rest) == PollStep(Error(CheckStatus(line).value), Started, 12)
  {
    assert (line + rest)[..12] == line;
  }

  /** `"404"` and `"abc"`. */
  const NOT_FOUND_CODE: seq<byte> := [52, 48, 52]
  const NON_NUMERIC_CODE: seq<byte> := [97, 98, 99]
  const NOT_FOUND_STATUS: seq<byte> := HTTP_PREFIX + NOT_FOUND_CODE
  const NON_NUMERIC_STATUS: seq<byte> := HTTP_PREFIX + NON_NUMERIC_CODE

  lemma ParseFourOhFour()
    ensures ParseU16(NOT_FOUND_CODE) == Some(404)
  {
    ThreeDigitsValue(NOT_FOUND_CODE);
  }

  lemma NotFoundStatusFails()
    ensures |NOT_FOUND_STATUS| == 12 && SliceIsSafe(NOT_FOUND_STATUS)
    ensures CheckStatus(NOT_FOUND_STATUS) == Some(OtherError(NOT_2XX))
  {
    StatusLine(NOT_FOUND_CODE);
    ParseFourOhFour();
    CheckStatusErrors(NOT_FOUND_STATUS);
  }

  lemma NonNumericStatusFails()
    ensures |NON_NUMERIC_STATUS| == 12 && SliceIsSafe(NON_NUMERIC_STATUS)
    ensures CheckStatus(NON_NUMERIC_STATUS) == Some(OtherError(NOT_NUMBER))
  {
    StatusLine(NON_NUMERIC_CODE);
    assert !IsDigit(NON_NUMERIC_STATUS[9]);
    CheckStatusErrors(NON_NUMERIC_STATUS);
  }

  /** `"HTTP/1.1 404 ..."`: a code outside [200, 300). */
  lemma NotFoundRejected(s: ProxyTcpStream, rest: seq<byte>)
    requires s.isProxied
    ensures PanicFree(s, Started, NOT_FOUND_STATUS + rest)
    ensures PollFn(s, Started, NOT_FOUND_STATUS + rest) == PollStep(Error(OtherError(NOT_2XX)), Started, 12)
  {
    NotFoundStatusFails();
    PollAfterBadStatus(s, NOT_FOUND_STATUS, rest);
  }

  /** `"HTTP/1.1 abc"`: the status field is not a number. */
  lemma NonNumericRejected(s: ProxyTcpStream, rest: seq<byte>)
    requires s.isProxied
    ensures PanicFree(s, Started, NON_NUMERIC_STATUS + rest)
    ensures PollFn(s, Started, NON_NUMERIC_STATUS + rest) == PollStep(Error(OtherError(NOT_NUMBER)), Started, 12)
  {
    NonNumericStatusFails();
    PollAfterBadStatus(s, NON_NUMERIC_STATUS, rest);
  }

  /** A lone CR right after the status line: "Invalid end of line" on the
      byte after it, with the scan left in `FirstCr`. */
  lemma LoneCrRejected(s: ProxyTcpStream, rest: seq<byte>)
    requires s.isProxied
    ensures PanicFree(s, Started, OK_STATUS + ([CR, CR] + rest))
    ensures PollFn(s, Started, OK_STATUS + ([CR, CR] + rest)) == PollStep(Error(OtherError(BAD_END_OF_LINE)), FirstCr, 14)
  {
    OkStatusPasses();
    assert [CR][..0] == [];
    assert Run(HeaderOk, [CR]) == InState(FirstCr);
    assert [CR, CR][..1] == [CR];
    assert Run(HeaderOk, [CR, CR]) == Failed(OtherError(BAD_END_OF_LINE), 2, FirstCr);
    RunAppend(HeaderOk, [CR, CR], rest);
    PollAfterGoodStatus(s, OK_STATUS, [CR, CR] + rest);
  }

  /** A read error (a reset connection, say) after `"HTTP/1.1 200 OK\r\n"`:
      the socket's error is returned as it is, after 17 bytes, with the scan
      left in `FirstLf`. */
  lemma ResetMidHeaders(s: ProxyTcpStream, e: IoError)
    requires s.isProxied
    ensures PanicFree(s, Started, OK_STATUS + (OK_REST + [CR, LF]))
    ensures PollOn(s, Started, OK_STATUS + (OK_REST + [CR, LF]), Some(e)) == PollStep(Error(e), FirstLf, 17)
  {
    OkStatusPasses();
    PlainBytesStay(OK_REST);
    LineEnd();
    RunAppend(HeaderOk, OK_REST, [CR, LF]);
    PollAfterGoodStatus(s, OK_STATUS, OK_REST + [CR, LF]);
  }

  /** `"HTTP/1.1é00"`: valid UTF-8 in which offset 9 falls inside the
      two-byte `é`, so `&s[9..12]` panics; the validator's precondition
      excludes such a reply. */
  lemma SlicePanicsInsideCharacter()
    ensures var line := Ascii("HTTP/1.1") + [0xC3, 0xA9] + Ascii("00");
            |line| == 12 && Utf8Valid(line) && !SliceIsSafe(line)
  {
    var e: seq<byte> := [0xC3, 0xA9];
    var tail := Ascii("00");
    AsciiIsUtf8(tail);
    assert CharLen(e + tail) == 2;
    assert (e + tail)[2..] == tail;
    assert Utf8Valid(e + tail);
    AsciiThenUtf8(Ascii("HTTP/1.1"), e + tail);
    assert Ascii("HTTP/1.1") + e + tail == Ascii("HTTP/1.1") + (e + tail);
  }
}
