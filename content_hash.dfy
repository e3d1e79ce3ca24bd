/**
 * The store's content checksum: a signed 32-bit rolling hash over the
 * UTF-16 code units of the content, rendered in base 16.
 */
module ContentHash {
  import opened JsRuntime

  /** One turn of the loop: `hash = ((hash << 5) - hash) + char; hash = hash & hash`. */
  function Step(hash: int, unit: int): (h: int)
    ensures IsInt32(h)
  {
    // `hash & hash` is ToInt32(hash); the subtraction and addition are exact
    // on Numbers because every operand is below 2^33 in magnitude.
    ToInt32(ShiftLeft5(hash) - hash + unit)
  }

  /** The value of `hash` after the loop has consumed `units`, starting from 0. */
  function Hash(units: seq<int>): (h: int)
    ensures IsInt32(h)
  {
    if units == [] then 0 else Step(Hash(units[..|units| - 1]), units[|units| - 1])
  }

  /** The hash string stored as a snapshot's content hash. */
  function ContentHashOf(content: string): (h: string)
    // the string reads back as the loop's signed 32-bit value
    ensures ParseRadix16(h) == Hash(CodeUnits(content))
    ensures IsInt32(ParseRadix16(h))
  {
    Radix16RoundTrip(Hash(CodeUnits(content)));
    ToRadix16(Hash(CodeUnits(content)))
  }

  function Pow31(k: nat): nat
  {
    if k == 0 then 1 else 31 * Pow31(k - 1)
  }

  /** Reference definition: the polynomial sum of unit_i * 31^(n-1-i). */
  function Polynomial(units: seq<int>): int
  {
    if units == [] then 0 else units[0] * Pow31(|units| - 1) + Polynomial(units[1..])
  }

  /** On a 32-bit hash, one step is `hash * 31 + char` wrapped to 32 bits. */
  lemma StepIsMultiplyAdd(hash: int, unit: int)
    requires IsInt32(hash)
    ensures Step(hash, unit) == ToInt32(31 * hash + unit)
  {
    var k := ShiftLeft5IsTimes32(hash);
    assert ShiftLeft5(hash) - hash + unit == (31 * hash + unit) + (-k) * TwoTo32;
    ToInt32Periodic(31 * hash + unit, -k);
  }

  lemma {:induction false} PolynomialSnoc(units: seq<int>, c: int)
    ensures Polynomial(units + [c]) == 31 * Polynomial(units) + c
    decreases |units|
  {
    if units == [] {
      assert Polynomial([c]) == c * Pow31(0) + Polynomial([]);
    } else {
      var u := units + [c];
      assert u[1..] == units[1..] + [c];
      PolynomialSnoc(units[1..], c);
      assert Pow31(|u| - 1) == 31 * Pow31(|units| - 1);
      calc {
        Polynomial(u);
        u[0] * Pow31(|u| - 1) + Polynomial(u[1..]);
        units[0] * (31 * Pow31(|units| - 1)) + 31 * Polynomial(units[1..]) + c;
        { assert units[0] * (31 * Pow31(|units| - 1)) == 31 * (units[0] * Pow31(|units| - 1)); }
        31 * (units[0] * Pow31(|units| - 1) + Polynomial(units[1..])) + c;
      }
    }
  }

  /** The loop computes the content's base-31 polynomial modulo 2^32, read as a signed value. */
  lemma {:induction false} HashIsPolynomial(units: seq<int>)
    ensures Hash(units) == ToInt32(Polynomial(units))
    decreases |units|
  {
    if units == [] {
      ToInt32OfInt32(0);
    } else {
      var init, c := units[..|units| - 1], units[|units| - 1];
      assert units == init + [c];
      HashIsPolynomial(init);
      var p := Polynomial(init);
      StepIsMultiplyAdd(Hash(init), c);
      var k := ToInt32Offset(p);
      assert 31 * ToInt32(p) + c == (31 * p + c) + (-31 * k) * TwoTo32;
      ToInt32Periodic(31 * p + c, -31 * k);
      PolynomialSnoc(init, c);
    }
  }

  /** The hash string of the empty content is "0". */
  lemma EmptyContentHash()
    ensures ContentHashOf("") == "0"
  {
    assert CodeUnits("") == [];
  }
}
