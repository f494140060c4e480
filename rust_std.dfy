/** The few pieces of Rust's standard library that the CONNECT handshake relies on,
    stated over bytes: `std::str::from_utf8` (well-formed UTF-8), `str::is_char_boundary`,
    `<u16 as FromStr>::from_str` and the decimal `Display` of an unsigned integer. */
module RustStd {

  /** A byte as Rust's `u8`. */
  type byte = b: int | 0 <= b < 256

  /** Rust's `u16`. */
  type u16 = n: int | 0 <= n < 0x1_0000

  datatype Option<+T> = None | Some(value: T)

  const CR: byte := 13
  const LF: byte := 10
  const PLUS: byte := 43
  const COLON: byte := 58
  const ZERO: byte := 48

  /** The bytes of an ASCII string literal. */
  function Ascii(s: string): (r: seq<byte>)
    requires forall i :: 0 <= i < |s| ==> s[i] as int < 128
    ensures |r| == |s|
    ensures forall i :: 0 <= i < |s| ==> r[i] == s[i] as int
  {
    seq(|s|, i requires 0 <= i < |s| => s[i] as int)
  }

  /** The text of a sequence of ASCII bytes (used for messages only). */
  function AsciiText(b: seq<byte>): (r: string)
    ensures |r| == |b|
  {
    seq(|b|, i requires 0 <= i < |b| => b[i] as char)
  }

  // ---------------------------------------------------------------------------
  // Well-formed UTF-8 (Unicode, Table 3-7), as `std::str::from_utf8` accepts it
  // ---------------------------------------------------------------------------

  predicate InRange(b: byte, lo: byte, hi: byte) { lo <= b <= hi }

  predicate Continuation(b: byte) { InRange(b, 0x80, 0xBF) }

  /** Length of the well-formed character that starts `s`, or 0 when `s` does
      not start with one (a stray continuation byte, an overlong form, a
      surrogate, a code point above U+10FFFF or a truncated sequence). */
  function CharLen(s: seq<byte>): (n: nat)
    ensures n <= |s| && n <= 4
    ensures n > 0 ==> |s| > 0 && (n == 1 <==> s[0] < 0x80)
  {
    if |s| == 0 then 0
    else
      var b0 := s[0];
      if b0 < 0x80 then 1
      else if InRange(b0, 0xC2, 0xDF) then
        if |s| >= 2 && Continuation(s[1]) then 2 else 0
      else if InRange(b0, 0xE0, 0xEF) then
        var lo: byte := if b0 == 0xE0 then 0xA0 else 0x80;
        var hi: byte := if b0 == 0xED then 0x9F else 0xBF;
        if |s| >= 3 && InRange(s[1], lo, hi) && Continuation(s[2]) then 3 else 0
      else if InRange(b0, 0xF0, 0xF4) then
        var lo: byte := if b0 == 0xF0 then 0x90 else 0x80;
        var hi: byte := if b0 == 0xF4 then 0x8F else 0xBF;
        if |s| >= 4 && InRange(s[1], lo, hi) && Continuation(s[2]) && Continuation(s[3]) then 4 else 0
      else 0
  }

  /** `std::str::from_utf8(s).is_ok()`. */
  predicate Utf8Valid(s: seq<byte>)
    decreases |s|
  {
    |s| == 0 || (CharLen(s) > 0 && Utf8Valid(s[CharLen(s)..]))
  }

  lemma {:induction false} AsciiIsUtf8(s: seq<byte>)
    requires forall i :: 0 <= i < |s| ==> s[i] < 0x80
    ensures Utf8Valid(s)
    decreases |s|
  {
    if |s| > 0 {
      assert CharLen(s) == 1;
      AsciiIsUtf8(s[1..]);
    }
  }

  /** Valid UTF-8 after ASCII bytes stays valid. */
  lemma {:induction false} AsciiThenUtf8(a: seq<byte>, b: seq<byte>)
    requires forall i :: 0 <= i < |a| ==> a[i] < 0x80
    requires Utf8Valid(b)
    ensures Utf8Valid(a + b)
    decreases |a|
  {
    if |a| > 0 {
      var ab := a + b;
      assert CharLen(ab) == 1;
      assert ab[1..] == a[1..] + b;
      AsciiThenUtf8(a[1..], b);
    } else {
      assert a + b == b;
    }
  }

  /** `str::is_char_boundary(i)` on the bytes of a valid string: the start, the
      end, or a byte that is not a continuation byte. */
  predicate IsCharBoundary(s: seq<byte>, i: nat)
  {
    i == 0 || i == |s| || (i < |s| && !Continuation(s[i]))
  }

  // ---------------------------------------------------------------------------
  // Decimal digits, `<u16 as FromStr>::from_str` and `Display for u16`
  // ---------------------------------------------------------------------------

  predicate IsDigit(b: byte) { InRange(b, 48, 57) }

  predicate AllDigits(d: seq<byte>)
  {
    forall i :: 0 <= i < |d| ==> IsDigit(d[i])
  }

  /** The value of a string of decimal digits, most significant first. */
  function DigitsValue(d: seq<byte>): nat
    requires AllDigits(d)
    decreases |d|
  {
    if |d| == 0 then 0 else DigitsValue(d[..|d| - 1]) * 10 + (d[|d| - 1] - ZERO)
  }

  /** `str::parse::<u16>` on the bytes of the string: an optional leading `+`,
      then one or more decimal digits whose value fits in 16 bits. */
  function ParseU16(s: seq<byte>): Option<u16>
  {
    if |s| == 0 then None
    else
      var digits := if s[0] == PLUS then s[1..] else s;
      if |digits| == 0 || !AllDigits(digits) then None
      else if DigitsValue(digits) >= 0x1_0000 then None
      else Some(DigitsValue(digits))
  }

  /** Three decimal digits have the value their positions give them. */
  lemma ThreeDigitsValue(d: seq<byte>)
    requires |d| == 3 && AllDigits(d)
    ensures DigitsValue(d) == 100 * (d[0] - ZERO) + 10 * (d[1] - ZERO) + (d[2] - ZERO)
  {
    assert d[..2][..1] == d[..1];
    assert d[..1][..0] == [];
    assert DigitsValue(d[..1]) == d[0] - ZERO;
    assert DigitsValue(d[..2]) == 10 * (d[0] - ZERO) + (d[1] - ZERO);
  }

  /** Two decimal digits never reach 100. */
  lemma TwoDigitsValue(d: seq<byte>)
    requires |d| == 2 && AllDigits(d)
    ensures DigitsValue(d) == 10 * (d[0] - ZERO) + (d[1] - ZERO) < 100
  {
    assert d[..1][..0] == [];
    assert DigitsValue(d[..1]) == d[0] - ZERO;
  }

  /** A three-byte field parses as a `u16` in [200, 300) exactly when it is a
      `2` followed by two decimal digits. A leading `+` leaves at most two
      digits, whose value is below 100. */
  lemma {:induction false} ParseStatusField(f: seq<byte>)
    requires |f| == 3
    ensures (ParseU16(f).Some? && 200 <= ParseU16(f).value < 300)
            <==> (f[0] == '2' as int && IsDigit(f[1]) && IsDigit(f[2]))
  {
    if f[0] == PLUS {
      if AllDigits(f[1..]) {
        TwoDigitsValue(f[1..]);
      }
    } else if AllDigits(f) {
      ThreeDigitsValue(f);
    } else {
      assert !(IsDigit(f[0]) && IsDigit(f[1]) && IsDigit(f[2]));
    }
  }

  /** The decimal digit of a value below ten. */
  function Digit(n: nat): byte
    requires n < 10
  {
    ZERO + n
  }

  /** `format!("{}", n)` for an unsigned integer: its decimal digits, most
      significant first, with no leading zero. */
  function Decimal(n: nat): (r: seq<byte>)
    ensures 0 < |r| && AllDigits(r)
    ensures |r| > 1 ==> r[0] != ZERO
    decreases n
  {
    if n < 10 then [Digit(n)] else Decimal(n / 10) + [Digit(n % 10)]
  }

  lemma {:induction false} DecimalValue(n: nat)
    ensures DigitsValue(Decimal(n)) == n
    decreases n
  {
    if n >= 10 {
      DecimalValue(n / 10);
      var d := Decimal(n);
      assert d[..|d| - 1] == Decimal(n / 10);
    }
  }

  /** Parsing undoes formatting: `n.to_string().parse::<u16>() == Ok(n)`. */
  lemma ParseDecimal(n: u16)
    ensures ParseU16(Decimal(n)) == Some(n)
  {
    DecimalValue(n);
  }
}
