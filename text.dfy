/**
 * The pieces of Rust's standard library that the core relies on, stated on
 * byte strings: `format!("{}", n)` for integers, `str::parse::<i64>`,
 * `String::from_utf8` acceptance (well-formed UTF-8), and upper-casing of
 * command names (ASCII letters only).
 */
module Text {

  /** One octet. */
  type byte = b: nat | b < 256

  /** A byte string (Rust `Vec<u8>`, and the bytes of a `String`). */
  type Bytes = seq<byte>

  const I64_MIN: int := -0x8000_0000_0000_0000
  const I64_MAX: int := 0x7FFF_FFFF_FFFF_FFFF

  /** Rust `i64`. */
  type i64 = n: int | I64_MIN <= n <= I64_MAX

  datatype Option<+T> = None | Some(value: T)

  const NEWLINE: byte := 10
  const CR: byte := 13
  const SPACE: byte := 32
  const MINUS: byte := 45
  const PLUS: byte := 43
  const ZERO: byte := 48
  const CRLF: Bytes := [CR, NEWLINE]

  /** The bytes of an ASCII string literal. */
  function Str(s: string): (r: Bytes)
    ensures |r| == |s|
  {
    seq(|s|, i requires 0 <= i < |s| => (s[i] as int) % 256)
  }

  lemma StrConcat(a: string, b: string)
    ensures Str(a + b) == Str(a) + Str(b)
  {
  }

  predicate IsDigit(b: byte)
  {
    ZERO <= b <= ZERO + 9
  }

  predicate AllDigits(s: Bytes)
  {
    forall i :: 0 <= i < |s| ==> IsDigit(s[i])
  }

  /** Decimal digits of `n` without leading zeros. */
  function Digits(n: nat): (r: Bytes)
    ensures |r| > 0 && IsDigit(r[0])
    decreases n
  {
    if n < 10 then [ZERO + n] else Digits(n / 10) + [ZERO + n % 10]
  }

  /** `format!("{}", n)`: an optional minus sign followed by the digits of |n|. */
  function FormatInt(n: int): (r: Bytes)
    ensures |r| > 0
    ensures r[0] == MINUS <==> n < 0
    ensures n < 0 ==> |r| > 1 && IsDigit(r[1])
    ensures n >= 0 ==> IsDigit(r[0])
  {
    if n < 0 then [MINUS] + Digits(-n) else Digits(n)
  }

  /** The number a sequence of decimal digits denotes. */
  function DigitsValue(s: Bytes): nat
    requires AllDigits(s)
    decreases |s|
  {
    if |s| == 0 then 0 else 10 * DigitsValue(s[..|s| - 1]) + (s[|s| - 1] - ZERO)
  }

  /**
   * `s.parse::<i64>()`: an optional `+` or `-`, then at least one decimal
   * digit and nothing else; the value must fit in an i64.
   */
  function ParseI64(s: Bytes): (r: Option<i64>)
    ensures r.Some? ==> |s| > 0 && (s[0] == MINUS || s[0] == PLUS || IsDigit(s[0]))
    ensures r.Some? ==> forall i :: 0 < i < |s| ==> IsDigit(s[i])
  {
    if |s| == 0 then None
    else
      var negative := s[0] == MINUS;
      var digits := if s[0] == MINUS || s[0] == PLUS then s[1..] else s;
      if |digits| == 0 || !AllDigits(digits) then None
      else
        var magnitude: int := DigitsValue(digits);
        var n := if negative then -magnitude else magnitude;
        if I64_MIN <= n <= I64_MAX then Some(n) else None
  }

  /** Digits(n) is a non-empty run of decimal digits that denotes n. */
  lemma {:induction false} DigitsDenote(n: nat)
    ensures |Digits(n)| > 0 && AllDigits(Digits(n)) && DigitsValue(Digits(n)) == n
  {
    if n >= 10 {
      DigitsDenote(n / 10);
      var d := Digits(n);
      assert d[..|d| - 1] == Digits(n / 10);
    }
  }

  /** Unsigned decimal text parses to the number it denotes. */
  lemma ParseUnsigned(d: Bytes)
    requires |d| > 0 && AllDigits(d) && DigitsValue(d) <= I64_MAX
    ensures ParseI64(d) == Some(DigitsValue(d))
  {
    assert IsDigit(d[0]);
  }

  /** A minus sign before decimal text negates the number it denotes. */
  lemma ParseNegative(d: Bytes)
    requires |d| > 0 && AllDigits(d) && DigitsValue(d) <= -I64_MIN
    ensures ParseI64([MINUS] + d) == Some(-(DigitsValue(d) as int))
  {
    assert ([MINUS] + d)[1..] == d;
  }

  /** Parsing what `format!` printed gives the number back. */
  lemma {:induction false} ParseFormatInt(n: i64)
    ensures ParseI64(FormatInt(n)) == Some(n)
  {
    var m: int := n;
    if m < 0 {
      DigitsDenote(-m);
      ParseNegative(Digits(-m));
    } else {
      DigitsDenote(m);
      ParseUnsigned(Digits(m));
    }
  }

  /** A formatted integer is ASCII text: digits and possibly a leading minus. */
  lemma {:induction false} FormatIntIsAscii(n: int)
    ensures |FormatInt(n)| > 0
    ensures forall i :: 0 <= i < |FormatInt(n)| ==> FormatInt(n)[i] < 128
    ensures NEWLINE !in FormatInt(n)
  {
    DigitsDenote(if n < 0 then -n else n);
  }

  predicate IsContinuation(b: byte)
  {
    0x80 <= b <= 0xBF
  }

  /**
   * Well-formed UTF-8 (the byte sequences of Table 3-7 of the Unicode
   * Standard, as in section 4 of RFC 3629), which is what
   * `String::from_utf8` accepts.
   */
  predicate ValidUtf8(s: Bytes)
    decreases |s|
  {
    if |s| == 0 then true
    else
      var b := s[0];
      if b < 0x80 then ValidUtf8(s[1..])
      else if 0xC2 <= b <= 0xDF then
        |s| >= 2 && IsContinuation(s[1]) && ValidUtf8(s[2..])
      else if b == 0xE0 then
        |s| >= 3 && 0xA0 <= s[1] <= 0xBF && IsContinuation(s[2]) && ValidUtf8(s[3..])
      else if 0xE1 <= b <= 0xEC || b == 0xEE || b == 0xEF then
        |s| >= 3 && IsContinuation(s[1]) && IsContinuation(s[2]) && ValidUtf8(s[3..])
      else if b == 0xED then
        |s| >= 3 && 0x80 <= s[1] <= 0x9F && IsContinuation(s[2]) && ValidUtf8(s[3..])
      else if b == 0xF0 then
        |s| >= 4 && 0x90 <= s[1] <= 0xBF && IsContinuation(s[2]) && IsContinuation(s[3]) && ValidUtf8(s[4..])
      else if 0xF1 <= b <= 0xF3 then
        |s| >= 4 && IsContinuation(s[1]) && IsContinuation(s[2]) && IsContinuation(s[3]) && ValidUtf8(s[4..])
      else if b == 0xF4 then
        |s| >= 4 && 0x80 <= s[1] <= 0x8F && IsContinuation(s[2]) && IsContinuation(s[3]) && ValidUtf8(s[4..])
      else false
  }

  /** Valid UTF-8 starts with an ASCII byte or a lead byte, never with a continuation byte or C0, C1, F5 to FF. */
  lemma Utf8Lead(s: Bytes)
    requires ValidUtf8(s) && |s| > 0
    ensures s[0] < 0x80 || 0xC2 <= s[0] <= 0xF4
  {
  }

  /** ASCII text is valid UTF-8. */
  lemma {:induction false} AsciiIsUtf8(s: Bytes)
    requires forall i :: 0 <= i < |s| ==> s[i] < 128
    ensures ValidUtf8(s)
  {
    if |s| > 0 {
      AsciiIsUtf8(s[1..]);
    }
  }

  /** ASCII text: every character below 128. */
  predicate IsAscii(s: string)
  {
    forall i :: 0 <= i < |s| ==> s[i] < 128 as char
  }

  /** The bytes of ASCII text are its character codes, and they are valid UTF-8. */
  lemma StrAscii(s: string)
    requires IsAscii(s)
    ensures forall i :: 0 <= i < |s| ==> Str(s)[i] == s[i] as int < 128
    ensures ValidUtf8(Str(s))
  {
    AsciiIsUtf8(Str(s));
  }

  predicate IsAsciiLower(b: byte)
  {
    97 <= b <= 122
  }

  predicate IsAsciiLetter(b: byte)
  {
    65 <= b <= 90 || IsAsciiLower(b)
  }

  function UpperByte(b: byte): byte
  {
    if IsAsciiLower(b) then b - 32 else b
  }

  /** `to_uppercase` restricted to ASCII: lower-case letters become upper-case, every other byte is kept. */
  function Upper(s: Bytes): (r: Bytes)
    ensures |r| == |s|
    ensures forall i :: 0 <= i < |s| ==> !IsAsciiLower(r[i])
    ensures forall i :: 0 <= i < |s| && !IsAsciiLower(s[i]) ==> r[i] == s[i]
    ensures forall i :: 0 <= i < |s| && IsAsciiLower(s[i]) ==> r[i] == s[i] - 32
  {
    seq(|s|, i requires 0 <= i < |s| => UpperByte(s[i]))
  }

  /** Two byte strings spell the same text up to the case of ASCII letters. */
  predicate EqualIgnoringCase(a: Bytes, b: Bytes)
  {
    |a| == |b| &&
    forall i :: 0 <= i < |a| ==>
      a[i] == b[i] || (IsAsciiLetter(a[i]) && IsAsciiLetter(b[i]) && (a[i] == b[i] + 32 || b[i] == a[i] + 32))
  }

  /** Upper-casing identifies exactly the strings that differ only in the case of ASCII letters. */
  lemma UpperIdentifiesCase(a: Bytes, b: Bytes)
    ensures Upper(a) == Upper(b) <==> EqualIgnoringCase(a, b)
  {
    if Upper(a) == Upper(b) {
      forall i | 0 <= i < |a|
        ensures a[i] == b[i] || (IsAsciiLetter(a[i]) && IsAsciiLetter(b[i]) && (a[i] == b[i] + 32 || b[i] == a[i] + 32))
      {
        assert Upper(a)[i] == Upper(b)[i];
      }
    }
    if EqualIgnoringCase(a, b) {
      assert forall i :: 0 <= i < |a| ==> Upper(a)[i] == Upper(b)[i];
    }
  }

  /** Dropping the same prefix from two such strings keeps them equal up to case. */
  lemma CaseSuffix(a: Bytes, b: Bytes, k: nat)
    requires EqualIgnoringCase(a, b) && k <= |a|
    ensures EqualIgnoringCase(a[k..], b[k..])
  {
    forall i | 0 <= i < |a| - k
      ensures a[k..][i] == b[k..][i] || (IsAsciiLetter(a[k..][i]) && IsAsciiLetter(b[k..][i]) && (a[k..][i] == b[k..][i] + 32 || b[k..][i] == a[k..][i] + 32))
    {
      assert a[k..][i] == a[k + i] && b[k..][i] == b[k + i];
    }
  }

  /** Changing the case of ASCII letters never changes whether text is UTF-8. */
  lemma {:induction false} CaseKeepsUtf8(a: Bytes, b: Bytes)
    requires EqualIgnoringCase(a, b)
    ensures ValidUtf8(a) <==> ValidUtf8(b)
    decreases |a|
  {
    if |a| > 0 {
      assert forall i :: 0 <= i < |a| ==> (a[i] < 0x80 <==> b[i] < 0x80) && (a[i] >= 0x80 ==> a[i] == b[i]);
      var k := 1;
      while k <= 4 && k <= |a|
        invariant 1 <= k <= 5
        invariant forall j :: 1 <= j < k && j <= |a| ==> (ValidUtf8(a[j..]) <==> ValidUtf8(b[j..]))
      {
        CaseSuffix(a, b, k);
        CaseKeepsUtf8(a[k..], b[k..]);
        k := k + 1;
      }
    }
  }

  /** Upper-casing is idempotent. */
  lemma UpperIdempotent(s: Bytes)
    ensures Upper(Upper(s)) == Upper(s)
  {
  }
}
