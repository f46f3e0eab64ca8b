/** The tokens of JSON spelled out, as section 2 to 7 of RFC 8259 and the C library have them. */
module CJsonLiterals {
  import opened Collections

  /** The bytes of an ASCII literal. */
  function Ascii(s: string): (r: Bytes)
    requires forall i :: 0 <= i < |s| ==> s[i] < 128 as char
    ensures |r| == |s| && forall i :: 0 <= i < |s| ==> r[i] == s[i] as int
  {
    seq(|s|, i requires 0 <= i < |s| => s[i] as int)
  }

  // ---------- escapes ----------

  /** What a backslash and a letter stand for: the eight pairs of section 7 of RFC 8259. */
  function Meaning(letter: Byte): Option<Byte> {
    if letter == '\"' as int then Some(34)
    else if letter == '\\' as int then Some(92)
    else if letter == '/' as int then Some(47)
    else if letter == 'b' as int then Some(8)
    else if letter == 'f' as int then Some(12)
    else if letter == 'n' as int then Some(10)
    else if letter == 'r' as int then Some(13)
    else if letter == 't' as int then Some(9)
    else None
  }

  const LOWER := "0123456789abcdef"
  const UPPER := "0123456789ABCDEF"

  predicate IsHexDigit(b: Byte) {
    48 <= b <= 57 || 65 <= b <= 70 || 97 <= b <= 102
  }

  /** The hexadecimal digit b, of either case, has the value v. */
  predicate IsHex(b: Byte, v: nat) {
    v < 16 && (LOWER[v] as int == b || UPPER[v] as int == b)
  }

  /** The four digits t write n. */
  predicate FourHex(t: Bytes, n: nat) {
    && |t| == 4 && n < 0x1_0000
    && IsHex(t[0], n / 0x1000) && IsHex(t[1], n / 0x100 % 0x10) && IsHex(t[2], n / 0x10 % 0x10) && IsHex(t[3], n % 0x10)
  }

  // ---------- numbers ----------

  predicate IsDecimal(t: Bytes) {
    forall i :: 0 <= i < |t| ==> '0' as int <= t[i] <= '9' as int
  }

  function Tens(n: nat): (r: nat)
    ensures r > 0
  {
    if n == 0 then 1 else 10 * Tens(n - 1)
  }

  /** The value of digits in front of the point, each by its place. */
  function Whole(t: Bytes): nat
    requires IsDecimal(t)
  {
    if t == [] then 0
    else
      var digit: int := t[0];
      assert digit >= 48;
      (digit - 48) * Tens(|t| - 1) + Whole(t[1..])
  }

  /** The value of digits behind the point. */
  function Fraction(t: Bytes): real
    requires IsDecimal(t)
  {
    if t == [] then 0.0
    else
      var digit: int := t[0];
      ((digit - 48) as real + Fraction(t[1..])) / 10.0
  }

  /** The point moved by e places. */
  function Shifted(m: real, up: bool, e: nat): real
    decreases e
  {
    if e == 0 then m else Shifted(if up then m * 10.0 else m / 10.0, up, e - 1)
  }
}
