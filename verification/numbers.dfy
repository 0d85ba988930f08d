/** Number formatting and parsing as the .NET runtime does it for the proxy:
    `long.TryParse` (Content-Length), `int.TryParse(…, HexNumber)` (chunk sizes),
    `long.ToString()` and `short` formatting (Content-Length, status code),
    `int.ToString("X")` (chunk sizes), and `Convert.ToBase64String`. */
module Numbers {
  import opened Wrappers
  import opened Faults
  import opened Text

  const LongMin: int := -0x8000_0000_0000_0000
  const LongMax: int := 0x7FFF_FFFF_FFFF_FFFF
  const IntMin: int := -0x8000_0000
  const IntMax: int := 0x7FFF_FFFF
  const ShortMin: int := -0x8000
  const ShortMax: int := 0x7FFF

  /** Whitespace `NumberStyles.Integer` and `NumberStyles.HexNumber` allow around a number. */
  predicate IsNumberWhite(c: char) {
    c == ' ' || ('\t' <= c <= '\r')
  }

  function SkipNumberWhite(s: string): (r: string)
    ensures |r| <= |s| && r == s[|s| - |r|..]
  {
    if |s| > 0 && IsNumberWhite(s[0]) then SkipNumberWhite(s[1..]) else s
  }

  function DropNumberWhite(s: string): (r: string)
    ensures |r| <= |s| && r == s[..|r|]
  {
    if |s| > 0 && IsNumberWhite(s[|s| - 1]) then DropNumberWhite(s[..|s| - 1]) else s
  }

  function StripNumberWhite(s: string): string {
    DropNumberWhite(SkipNumberWhite(s))
  }

  lemma StripNoWhite(s: string)
    requires s != [] && !IsNumberWhite(s[0]) && !IsNumberWhite(s[|s| - 1])
    ensures StripNumberWhite(s) == s
  {
  }

  // ---------------------------------------------------------------- decimal

  predicate IsDigit(c: char) {
    '0' <= c <= '9'
  }

  predicate AllDigits(s: string) {
    forall i :: 0 <= i < |s| ==> IsDigit(s[i])
  }

  function Digit(d: nat): char
    requires d < 10
  {
    ('0' as int + d) as char
  }

  /** The value of a digit string, read most significant digit first. */
  function DigitsValue(s: string): nat
    requires AllDigits(s)
  {
    if |s| == 0 then 0
    else DigitsValue(s[..|s| - 1]) * 10 + (s[|s| - 1] as int - '0' as int)
  }

  /** Shortest decimal digits of `n`. */
  function FormatNat(n: nat): (s: string)
    ensures |s| >= 1 && AllDigits(s)
  {
    if n < 10 then [Digit(n)] else FormatNat(n / 10) + [Digit(n % 10)]
  }

  /** `long.ToString()` and `short` formatting under the invariant culture. */
  function FormatInteger(n: int): string {
    if n < 0 then "-" + FormatNat(-n) else FormatNat(n)
  }

  lemma {:induction false} DigitsValueOfFormat(n: nat)
    ensures DigitsValue(FormatNat(n)) == n
  {
    if n >= 10 {
      var s := FormatNat(n);
      assert s[..|s| - 1] == FormatNat(n / 10);
      DigitsValueOfFormat(n / 10);
    }
  }

  /** `long.TryParse` / `int.TryParse` with `NumberStyles.Integer`: optional whitespace
      around, an optional sign, at least one decimal digit, and a value in `[lo, hi]`. */
  function ParseInteger(s: string, lo: int, hi: int): (r: Option<int>)
    ensures r.Some? ==> lo <= r.value <= hi
  {
    var t := StripNumberWhite(s);
    var signed := |t| > 0 && (t[0] == '-' || t[0] == '+');
    var digits := if signed then t[1..] else t;
    if |digits| == 0 || !AllDigits(digits) then None
    else
      var v: int := if signed && t[0] == '-' then 0 - DigitsValue(digits) as int else DigitsValue(digits);
      if lo <= v <= hi then Some(v) else None
  }

  /** Formatting then parsing an integer in range gives it back: the Content-Length
      setter and getter, and the status code written and read, agree. */
  lemma {:induction false} ParseFormatInteger(n: int, lo: int, hi: int)
    requires lo <= n <= hi
    ensures ParseInteger(FormatInteger(n), lo, hi) == Some(n)
  {
    if n < 0 {
      ParseFormatNegative(n, lo, hi);
    } else {
      var d := FormatNat(n);
      DigitsValueOfFormat(n);
      var s := FormatInteger(n);
      assert s == "" + d;
      ParseDigits(s, d, false, n, lo, hi);
    }
  }

  lemma ParseFormatNegative(n: int, lo: int, hi: int)
    requires lo <= n <= hi && n < 0
    ensures ParseInteger(FormatInteger(n), lo, hi) == Some(n)
  {
    var d := FormatNat(-n);
    DigitsValueOfFormat(-n);
    var s := FormatInteger(n);
    assert s == "-" + d;
    ParseDigits(s, d, true, n, lo, hi);
  }

  /** Digits, with a minus sign in front when `negative`, parse as their value. */
  lemma {:induction false} ParseDigits(s: string, d: string, negative: bool, v: int, lo: int, hi: int)
    requires |d| > 0 && AllDigits(d)
    requires s == (if negative then "-" else "") + d
    requires v == if negative then -(DigitsValue(d) as int) else DigitsValue(d)
    requires lo <= v <= hi
    ensures ParseInteger(s, lo, hi) == Some(v)
  {
    assert s[|s| - 1] == d[|d| - 1];
    assert IsDigit(d[0]) && IsDigit(d[|d| - 1]);
    StripNoWhite(s);
    assert StripNumberWhite(s) == s;
    if negative {
      assert s[0] == '-' && s[1..] == d;
    } else {
      assert s == d && s[0] != '-' && s[0] != '+';
    }
  }

  // ------------------------------------------------------------ hexadecimal

  predicate IsHexDigit(c: char) {
    ('0' <= c <= '9') || ('a' <= c <= 'f') || ('A' <= c <= 'F')
  }

  predicate AllHex(s: string) {
    forall i :: 0 <= i < |s| ==> IsHexDigit(s[i])
  }

  function HexDigitValue(c: char): nat
    requires IsHexDigit(c)
  {
    if '0' <= c <= '9' then c as int - '0' as int
    else if 'a' <= c <= 'f' then c as int - 'a' as int + 10
    else c as int - 'A' as int + 10
  }

  function HexValue(s: string): nat
    requires AllHex(s)
  {
    if |s| == 0 then 0 else HexValue(s[..|s| - 1]) * 16 + HexDigitValue(s[|s| - 1])
  }

  function UpperHexDigit(d: nat): char
    requires d < 16
  {
    if d < 10 then ('0' as int + d) as char else ('A' as int + d - 10) as char
  }

  /** `int.ToString("X")` for a non-negative value. */
  function FormatHexUpper(n: nat): (s: string)
    ensures |s| >= 1
  {
    if n < 16 then [UpperHexDigit(n)] else FormatHexUpper(n / 16) + [UpperHexDigit(n % 16)]
  }

  /** A value below 16^k has at most k hexadecimal digits. */
  lemma {:induction false} FormatHexLength(n: nat, k: nat, bound: nat)
    requires k >= 1 && bound >= 16 && n < bound && bound == Pow16(k)
    ensures |FormatHexUpper(n)| <= k
    decreases k
  {
    if n >= 16 {
      FormatHexLength(n / 16, k - 1, bound / 16);
    }
  }

  function Pow16(k: nat): (r: nat)
    ensures r >= 1
  {
    if k == 0 then 1 else 16 * Pow16(k - 1)
  }

  /** `n.ToString("X").ToLower()`, the chunk-size line the proxy writes. */
  function LowerHex(n: nat): string {
    Lower(FormatHexUpper(n))
  }

  /** The chunk-size text is lower-case hexadecimal whose value is `n`. */
  lemma {:induction false} LowerHexValue(n: nat)
    ensures |LowerHex(n)| >= 1
    ensures forall i :: 0 <= i < |LowerHex(n)| ==> ('0' <= LowerHex(n)[i] <= '9') || ('a' <= LowerHex(n)[i] <= 'f')
    ensures AllHex(LowerHex(n)) && HexValue(LowerHex(n)) == n
  {
    var u := FormatHexUpper(n);
    var s := LowerHex(n);
    if n >= 16 {
      LowerHexValue(n / 16);
      assert u == FormatHexUpper(n / 16) + [UpperHexDigit(n % 16)];
      assert s[..|s| - 1] == LowerHex(n / 16);
    }
  }

  /** `int.TryParse(s, NumberStyles.HexNumber, …)`: optional whitespace around, at least
      one hex digit of either case, no sign; a value of up to 32 bits is read as a
      two's-complement `int`, so `ffffffff` is -1. */
  function ParseHex32(s: string): (r: Option<int>)
    ensures r.Some? ==> IntMin <= r.value <= IntMax
  {
    var t := StripNumberWhite(s);
    if |t| == 0 || !AllHex(t) then None
    else
      var v := HexValue(t);
      if v >= 0x1_0000_0000 then None
      else if v > IntMax then Some(v - 0x1_0000_0000)
      else Some(v)
  }

  /** Any length a byte array can have is written and read back unchanged. */
  lemma ParseLowerHex(n: nat)
    requires n <= IntMax
    ensures ParseHex32(LowerHex(n)) == Some(n)
  {
    LowerHexValue(n);
    var s := LowerHex(n);
    assert !IsNumberWhite(s[0]) && !IsNumberWhite(s[|s| - 1]);
    StripNoWhite(s);
  }

  // ----------------------------------------------------------------- base64

  function Base64Digit(v: nat): (c: char)
    requires v < 64
    ensures IsBase64Char(c)
  {
    if v < 26 then ('A' as int + v) as char
    else if v < 52 then ('a' as int + v - 26) as char
    else if v < 62 then ('0' as int + v - 52) as char
    else if v == 62 then '+'
    else '/'
  }

  predicate IsBase64Char(c: char) {
    ('A' <= c <= 'Z') || ('a' <= c <= 'z') || ('0' <= c <= '9') || c == '+' || c == '/' || c == '='
  }

  /** One group of up to three octets as four characters, padded with `=`. */
  function Base64Group(b: Bytes): (s: string)
    requires 1 <= |b| <= 3
    ensures |s| == 4 && forall i :: 0 <= i < 4 ==> IsBase64Char(s[i])
  {
    var b0 := b[0] as nat;
    var b1 := if |b| > 1 then b[1] as nat else 0;
    var b2 := if |b| > 2 then b[2] as nat else 0;
    var c0 := Base64Digit(b0 / 4);
    var c1 := Base64Digit(b0 % 4 * 16 + b1 / 16);
    var c2 := if |b| > 1 then Base64Digit(b1 % 16 * 4 + b2 / 64) else '=';
    var c3 := if |b| > 2 then Base64Digit(b2 % 64) else '=';
    [c0, c1, c2, c3]
  }

  predicate AllBase64(s: string) {
    forall i :: 0 <= i < |s| ==> IsBase64Char(s[i])
  }

  /** `Convert.ToBase64String`: four characters per started group of three octets,
      padded with `=`. */
  function Base64(b: Bytes): (s: string)
    ensures |s| == 4 * ((|b| + 2) / 3)
    ensures AllBase64(s)
    decreases |b|
  {
    if |b| == 0 then ""
    else if |b| <= 3 then Base64Group(b)
    else
      var head := Base64Group(b[..3]);
      var tail := Base64(b[3..]);
      assert (|b| + 2) / 3 == 1 + (|b[3..]| + 2) / 3;
      assert AllBase64(head + tail) by {
        assert forall i :: 4 <= i < 4 + |tail| ==> (head + tail)[i] == tail[i - 4];
      }
      head + tail
  }
}
