/**
 * The few JavaScript runtime primitives the snapshot store and the file
 * helpers rely on, stated over unbounded integers and Dafny strings:
 * ToInt32 (section 7.1.6 of ECMA-262), the `<<` operator, integral
 * `Number.prototype.toString(16)`, the UTF-16 view of a string that
 * `length` and `charCodeAt` expose, and `String.prototype.toLowerCase`
 * as far as it matters for comparing against ASCII keys.
 */
module JsRuntime {

  const TwoTo31: int := 0x8000_0000
  const TwoTo32: int := 0x1_0000_0000

  predicate IsInt32(x: int) {
    -TwoTo31 <= x < TwoTo31
  }

  /** ToInt32 on an integral Number: reduce modulo 2^32 into the signed range. */
  function ToInt32(x: int): (r: int)
    ensures IsInt32(r)
  {
    var m := x % TwoTo32;
    if m >= TwoTo31 then m - TwoTo32 else m
  }

  /** ToInt32 differs from its argument by a whole number of 2^32 steps. */
  lemma ToInt32Offset(x: int) returns (k: int)
    ensures ToInt32(x) == x - k * TwoTo32
  {
    k := x / TwoTo32 + (if x % TwoTo32 >= TwoTo31 then 1 else 0);
  }

  /** Euclidean division by 2^32 has a unique quotient and remainder. */
  lemma ModByTwoTo32Unique(a: int, q: int, r: int)
    requires a == q * TwoTo32 + r && 0 <= r < TwoTo32
    ensures a % TwoTo32 == r
  {
  }

  /** ToInt32 only depends on its argument modulo 2^32. */
  lemma ToInt32Periodic(x: int, k: int)
    ensures ToInt32(x + k * TwoTo32) == ToInt32(x)
  {
    var q, r := x / TwoTo32, x % TwoTo32;
    assert x + k * TwoTo32 == (q + k) * TwoTo32 + r;
    ModByTwoTo32Unique(x + k * TwoTo32, q + k, r);
  }

  /** ToInt32 leaves a value that is already a signed 32-bit integer alone. */
  lemma ToInt32OfInt32(x: int)
    requires IsInt32(x)
    ensures ToInt32(x) == x
  {
    if x < 0 {
      ModByTwoTo32Unique(x, -1, x + TwoTo32);
    } else {
      ModByTwoTo32Unique(x, 0, x);
    }
  }

  /** `x << 5`: both operands go through ToInt32 and the product wraps to 32 bits. */
  function ShiftLeft5(x: int): (r: int)
    ensures IsInt32(r)
  {
    ToInt32(ToInt32(x) * 32)
  }

  /** On a signed 32-bit value `x << 5` is multiplication by 32 modulo 2^32. */
  lemma ShiftLeft5IsTimes32(x: int) returns (k: int)
    requires IsInt32(x)
    ensures ShiftLeft5(x) == 32 * x - k * TwoTo32
  {
    ToInt32OfInt32(x);
    k := ToInt32Offset(x * 32);
  }

  // ---------------------------------------------------------------------
  // Number.prototype.toString(16) on integral values, and its inverse
  // ---------------------------------------------------------------------

  predicate IsHexDigit(c: char) {
    '0' <= c <= '9' || 'a' <= c <= 'f'
  }

  function HexDigit(d: int): (c: char)
    requires 0 <= d < 16
    ensures IsHexDigit(c)
  {
    "0123456789abcdef"[d]
  }

  /** Value of a lower-case hexadecimal digit (0 for anything else). */
  function DigitValue(c: char): (v: int)
    ensures 0 <= v < 16
  {
    if '0' <= c <= '9' then c as int - '0' as int
    else if 'a' <= c <= 'f' then c as int - 'a' as int + 10
    else 0
  }

  lemma DigitValueOfHexDigit(d: int)
    requires 0 <= d < 16
    ensures DigitValue(HexDigit(d)) == d
  {
  }

  /** The digits of n in base 16, most significant first, without leading zeros. */
  function HexDigits(n: nat): (s: string)
    ensures |s| >= 1
    ensures forall i :: 0 <= i < |s| ==> IsHexDigit(s[i])
    ensures n > 0 ==> s[0] != '0'
    decreases n
  {
    if n < 16 then [HexDigit(n)] else HexDigits(n / 16) + [HexDigit(n % 16)]
  }

  /** Integral `Number.prototype.toString(16)`: a `-` sign, then the digits of the magnitude. */
  function ToRadix16(n: int): (s: string)
    ensures |s| >= 1
  {
    if n < 0 then "-" + HexDigits(-n) else HexDigits(n)
  }

  /** The value of a digit string read in base 16 (Horner's rule from the right). */
  function ValueOfDigits(s: string): int
  {
    if s == [] then 0 else ValueOfDigits(s[..|s| - 1]) * 16 + DigitValue(s[|s| - 1])
  }

  /** Reads back what ToRadix16 writes. */
  function ParseRadix16(s: string): int
  {
    if |s| > 0 && s[0] == '-' then -ValueOfDigits(s[1..]) else ValueOfDigits(s)
  }

  lemma {:induction false} ValueOfHexDigits(n: nat)
    ensures ValueOfDigits(HexDigits(n)) == n
    decreases n
  {
    var s := HexDigits(n);
    if n < 16 {
      assert s[..|s| - 1] == [];
      DigitValueOfHexDigit(n);
    } else {
      ValueOfHexDigits(n / 16);
      assert s[..|s| - 1] == HexDigits(n / 16);
      DigitValueOfHexDigit(n % 16);
    }
  }

  /** A non-negative number is rendered as its digits, which read back as the number. */
  lemma RoundTripNonNegative(n: int)
    requires n >= 0
    ensures ParseRadix16(ToRadix16(n)) == n
  {
    var d := HexDigits(n);
    assert ToRadix16(n) == d;
    assert IsHexDigit(d[0]);
    ValueOfHexDigits(n);
  }

  /** A negative number is rendered as `-` and the digits of its magnitude. */
  lemma RoundTripNegative(n: int)
    requires n < 0
    ensures ParseRadix16(ToRadix16(n)) == n
  {
    var m: nat := -n;
    var d := HexDigits(m);
    var s := "-" + d;
    assert ToRadix16(n) == s;
    assert |s| > 0 && s[0] == '-' && s[1..] == d;
    assert ParseRadix16(s) == -ValueOfDigits(d);
    ValueOfHexDigits(m);
  }

  /** The hexadecimal rendering loses nothing: it determines the number. */
  lemma Radix16RoundTrip(n: int)
    ensures ParseRadix16(ToRadix16(n)) == n
  {
    if n < 0 {
      RoundTripNegative(n);
    } else {
      RoundTripNonNegative(n);
    }
  }

  /** Different numbers are rendered as different strings. */
  lemma Radix16Injective(m: int, n: int)
    requires ToRadix16(m) == ToRadix16(n)
    ensures m == n
  {
    Radix16RoundTrip(m);
    Radix16RoundTrip(n);
  }

  // ---------------------------------------------------------------------
  // Strings as JavaScript sees them: UTF-16 code units
  // ---------------------------------------------------------------------

  /** The UTF-16 code units of one character (a surrogate pair above U+FFFF). */
  function CharUnits(c: char): (u: seq<int>)
    ensures 1 <= |u| <= 2
    ensures forall i :: 0 <= i < |u| ==> 0 <= u[i] < 0x1_0000
    ensures |u| == 1 <==> c as int < 0x1_0000
    // a character of the Basic Multilingual Plane is its own code unit, and
    // (a Dafny char never being a surrogate) that unit is not a surrogate
    ensures c as int < 0x1_0000 ==> u == [c as int] && !IsSurrogate(u[0])
    // above it: a high surrogate, a low surrogate and the value they encode
    ensures c as int >= 0x1_0000 ==>
      IsHighSurrogate(u[0]) && IsLowSurrogate(u[1]) &&
      PairValue(u[0], u[1]) == c as int
  {
    var v := c as int;
    if v < 0x1_0000 then [v]
    else [0xD800 + (v - 0x1_0000) / 0x400, 0xDC00 + (v - 0x1_0000) % 0x400]
  }

  predicate IsHighSurrogate(x: int) { 0xD800 <= x < 0xDC00 }
  predicate IsLowSurrogate(x: int) { 0xDC00 <= x < 0xE000 }
  predicate IsSurrogate(x: int) { 0xD800 <= x < 0xE000 }

  /** The code point a surrogate pair stands for. */
  function PairValue(hi: int, lo: int): int
  {
    0x1_0000 + (hi - 0xD800) * 0x400 + (lo - 0xDC00)
  }

  /** The sequence `s.charCodeAt(0), ..., s.charCodeAt(s.length - 1)`. */
  function CodeUnits(s: string): (u: seq<int>)
    ensures |s| <= |u| <= 2 * |s|
    ensures forall i :: 0 <= i < |u| ==> 0 <= u[i] < 0x1_0000
    // a string inside the Basic Multilingual Plane has one unit per character
    ensures (forall i :: 0 <= i < |s| ==> s[i] as int < 0x1_0000) ==>
      |u| == |s| && forall i :: 0 <= i < |s| ==> u[i] == s[i] as int
  {
    if s == [] then [] else CharUnits(s[0]) + CodeUnits(s[1..])
  }

  /** Code units of a concatenation are the concatenation of code units. */
  lemma {:induction false} CodeUnitsConcat(a: string, b: string)
    ensures CodeUnits(a + b) == CodeUnits(a) + CodeUnits(b)
    decreases |a|
  {
    if a == [] {
      assert a + b == b;
    } else {
      assert (a + b)[1..] == a[1..] + b;
      CodeUnitsConcat(a[1..], b);
    }
  }

  /**
   * Reads UTF-16 code units back as characters: a high surrogate followed by
   * a low one is one character; a lone surrogate becomes U+FFFD.
   */
  function FromCodeUnits(u: seq<int>): (s: string)
    ensures |s| <= |u|
    decreases |u|
  {
    if u == [] then []
    else if |u| >= 2 && IsHighSurrogate(u[0]) && IsLowSurrogate(u[1]) then
      [PairValue(u[0], u[1]) as char] + FromCodeUnits(u[2..])
    else if 0 <= u[0] < 0xD800 || 0xE000 <= u[0] < 0x11_0000 then
      [u[0] as char] + FromCodeUnits(u[1..])
    else
      ['\U{FFFD}'] + FromCodeUnits(u[1..])
  }

  /** Decoding one character's units ahead of any other units. */
  lemma FromCharUnits(c: char, rest: seq<int>)
    ensures FromCodeUnits(CharUnits(c) + rest) == [c] + FromCodeUnits(rest)
  {
    var u := CharUnits(c) + rest;
    if c as int < 0x1_0000 {
      assert u[1..] == rest;
    } else {
      assert u[2..] == rest;
    }
  }

  /** No information is lost in the UTF-16 view of a string. */
  lemma {:induction false} CodeUnitsRoundTrip(s: string)
    ensures FromCodeUnits(CodeUnits(s)) == s
    decreases |s|
  {
    if s != [] {
      FromCharUnits(s[0], CodeUnits(s[1..]));
      CodeUnitsRoundTrip(s[1..]);
      assert [s[0]] + s[1..] == s;
    }
  }

  // ---------------------------------------------------------------------
  // String.prototype.toLowerCase, for comparison against ASCII keys
  // ---------------------------------------------------------------------

  /**
   * Lower-cases A-Z and U+212A KELVIN SIGN (the one non-ASCII character whose
   * lower case is an ASCII letter); every other character is kept.
   */
  function LowerChar(c: char): (d: char)
    ensures d == '.' <==> c == '.'
    ensures d == '/' <==> c == '/'
  {
    if 'A' <= c <= 'Z' then (c as int + 32) as char
    else if c == '\U{212A}' then 'k'
    else c
  }

  function ToLowerCase(s: string): (r: string)
    ensures |r| == |s|
  {
    seq(|s|, i requires 0 <= i < |s| => LowerChar(s[i]))
  }

  /** Lower-casing twice is lower-casing once. */
  lemma ToLowerCaseIdempotent(s: string)
    ensures ToLowerCase(ToLowerCase(s)) == ToLowerCase(s)
  {
  }

  /** Lower-casing commutes with taking a slice. */
  lemma ToLowerCaseSlice(s: string, i: int, j: int)
    requires 0 <= i <= j <= |s|
    ensures ToLowerCase(s)[i..j] == ToLowerCase(s[i..j])
  {
  }
}
