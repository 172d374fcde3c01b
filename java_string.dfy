/**
 * The two pieces of JVM string semantics the contact id depends on:
 * `String.hashCode()` (a polynomial over the UTF-16 code units, computed
 * in 32-bit two's-complement `int` arithmetic) and Kotlin's `Int.toString()`
 * (decimal digits with a leading '-' for negative values).
 */
module JavaString {

  const Modulus32: int := 0x1_0000_0000
  const MinInt32: int := -0x8000_0000
  const MaxInt32: int := 0x7FFF_FFFF

  /** The UTF-16 code units Java stores for one Unicode scalar value. */
  function Utf16(c: char): (units: seq<int>)
    ensures 1 <= |units| <= 2
    ensures |units| == 1 <==> (c as int) < 0x1_0000
    ensures forall i :: 0 <= i < |units| ==> 0 <= units[i] < 0x1_0000
  {
    var cp := c as int;
    if cp < 0x1_0000 then [cp]
    else [0xD800 + (cp - 0x1_0000) / 0x400, 0xDC00 + (cp - 0x1_0000) % 0x400]
  }

  /** The UTF-16 code units of a whole string, in order. */
  function CodeUnits(s: string): (units: seq<int>)
    ensures |s| <= |units| <= 2 * |s|
    ensures forall i :: 0 <= i < |units| ==> 0 <= units[i] < 0x1_0000
  {
    if s == [] then [] else CodeUnits(s[..|s| - 1]) + Utf16(s[|s| - 1])
  }

  /** Reinterprets an unbounded integer as a Java `int`: the unique value of
      the 32-bit two's-complement range congruent to `x` modulo 2^32. */
  function WrapInt32(x: int): (r: int)
    ensures MinInt32 <= r <= MaxInt32
    ensures (x - r) % Modulus32 == 0
  {
    var m := x % Modulus32;
    if m <= MaxInt32 then m else m - Modulus32
  }

  /** `String.hashCode()` over code units: `h = 31 * h + unit` for each unit
      in order, starting from 0, every step wrapping to 32 bits. */
  function HashUnits(units: seq<int>): (h: int)
    ensures MinInt32 <= h <= MaxInt32
  {
    if units == [] then 0
    else WrapInt32(31 * HashUnits(units[..|units| - 1]) + units[|units| - 1])
  }

  function HashCode(s: string): (h: int)
    ensures MinInt32 <= h <= MaxInt32
  {
    HashUnits(CodeUnits(s))
  }

  function Pow31(n: nat): nat
  {
    if n == 0 then 1 else 31 * Pow31(n - 1)
  }

  /** The closed form the Java API documents for `String.hashCode()`:
      s[0]*31^(n-1) + s[1]*31^(n-2) + ... + s[n-1], over unbounded integers. */
  function PolynomialHash(units: seq<int>): int
  {
    if units == [] then 0 else units[0] * Pow31(|units| - 1) + PolynomialHash(units[1..])
  }

  lemma {:induction false} PolynomialHashSnoc(units: seq<int>, u: int)
    ensures PolynomialHash(units + [u]) == 31 * PolynomialHash(units) + u
  {
    if units == [] {
      assert [u][1..] == [];
    } else {
      var rest := units[1..];
      assert (units + [u])[1..] == rest + [u];
      PolynomialHashSnoc(rest, u);
      calc {
        PolynomialHash(units + [u]);
        units[0] * Pow31(|units|) + PolynomialHash(rest + [u]);
        units[0] * (31 * Pow31(|units| - 1)) + 31 * PolynomialHash(rest) + u;
        31 * (units[0] * Pow31(|units| - 1) + PolynomialHash(rest)) + u;
        31 * PolynomialHash(units) + u;
      }
    }
  }

  lemma MultipleOfModulus(n: int)
    ensures (n * Modulus32) % Modulus32 == 0
  {
  }

  lemma {:induction false} HashUnitsCongruentToPolynomial(units: seq<int>)
    ensures (PolynomialHash(units) - HashUnits(units)) % Modulus32 == 0
  {
    if units != [] {
      var p, u := units[..|units| - 1], units[|units| - 1];
      assert units == p + [u];
      HashUnitsCongruentToPolynomial(p);
      PolynomialHashSnoc(p, u);
      var k := (PolynomialHash(p) - HashUnits(p)) / Modulus32;
      assert PolynomialHash(p) - HashUnits(p) == k * Modulus32;
      var x := 31 * HashUnits(p) + u;
      var j := (x - WrapInt32(x)) / Modulus32;
      assert x - WrapInt32(x) == j * Modulus32;
      assert PolynomialHash(units) - HashUnits(units) == (31 * k + j) * Modulus32;
      MultipleOfModulus(31 * k + j);
    }
  }

  /** Two values of the int range that are congruent modulo 2^32 are equal. */
  lemma WrapInt32Unique(x: int, r: int)
    requires MinInt32 <= r <= MaxInt32
    requires (x - r) % Modulus32 == 0
    ensures WrapInt32(x) == r
  {
    var w := WrapInt32(x);
    var a, b := (x - r) / Modulus32, (x - w) / Modulus32;
    assert x - r == a * 0x1_0000_0000;
    assert x - w == b * 0x1_0000_0000;
    assert w - r == (a - b) * 0x1_0000_0000;
  }

  /** `s.hashCode()` is the documented polynomial over the UTF-16 code units,
      wrapped to a Java `int`. */
  lemma HashCodeIsWrappedPolynomial(s: string)
    ensures HashCode(s) == WrapInt32(PolynomialHash(CodeUnits(s)))
  {
    HashUnitsCongruentToPolynomial(CodeUnits(s));
    WrapInt32Unique(PolynomialHash(CodeUnits(s)), HashCode(s));
  }

  lemma CodeUnitsOfBmpPair(x: char, y: char)
    requires x as int < 0x1_0000 && y as int < 0x1_0000
    ensures CodeUnits([x, y]) == [x as int, y as int]
  {
    assert [x, y][..1] == [x];
    assert [x][..0] == [];
  }

  lemma HashUnitsOfPair(a: int, b: int)
    requires 0 <= a < 0x1_0000
    ensures HashUnits([a, b]) == WrapInt32(31 * a + b)
  {
    assert [a, b][..1] == [a] && [a][..0] == [];
    WrapInt32Unique(a, a);
    assert HashUnits([a]) == a;
  }

  /** For a two-character string inside the Basic Multilingual Plane the
      hash is 31 * first + second, wrapped. */
  lemma HashCodeOfBmpPair(x: char, y: char)
    requires x as int < 0x1_0000 && y as int < 0x1_0000
    ensures HashCode([x, y]) == WrapInt32(31 * (x as int) + y as int)
  {
    CodeUnitsOfBmpPair(x, y);
    HashUnitsOfPair(x as int, y as int);
  }

  /** The hash is not injective: "Aa" and "BB" both hash to 2112. */
  lemma HashCodeCollides()
    ensures "Aa" != "BB" && HashCode("Aa") == HashCode("BB") == 2112
  {
    HashCodeOfBmpPair('A', 'a');
    HashCodeOfBmpPair('B', 'B');
    assert 31 * ('A' as int) + 'a' as int == 2112 == 31 * ('B' as int) + 'B' as int;
    WrapInt32Unique(2112, 2112);
  }

  lemma HashCodeOfEmpty()
    ensures HashCode("") == 0
  {
  }

  function DigitChar(d: nat): (c: char)
    requires d < 10
    ensures '0' <= c <= '9'
    ensures c as int - '0' as int == d
  {
    ('0' as int + d) as char
  }

  /** Decimal digits of a natural number, most significant first, no leading zeros. */
  function NatToDecimal(n: nat): (s: string)
    ensures |s| >= 1
    ensures forall i :: 0 <= i < |s| ==> '0' <= s[i] <= '9'
    ensures |s| > 1 ==> s[0] != '0'
  {
    if n < 10 then [DigitChar(n)] else NatToDecimal(n / 10) + [DigitChar(n % 10)]
  }

  /** Kotlin's `Int.toString()`: a '-' then the digits of the magnitude for a
      negative value, the digits alone otherwise. */
  function IntToString(i: int): (s: string)
    ensures |s| >= 1
    ensures s[0] == '-' <==> i < 0
  {
    if i < 0 then "-" + NatToDecimal(-i) else NatToDecimal(i)
  }

  lemma {:induction false} NatToDecimalInjective(a: nat, b: nat)
    requires NatToDecimal(a) == NatToDecimal(b)
    ensures a == b
  {
    var s := NatToDecimal(a);
    var n := |s|;
    if n == 1 {
      assert DigitChar(a) == s[0] == DigitChar(b);
    } else {
      assert DigitChar(a % 10) == s[n - 1] == DigitChar(b % 10);
      assert NatToDecimal(a / 10) == s[..n - 1] == NatToDecimal(b / 10);
      NatToDecimalInjective(a / 10, b / 10);
    }
  }

  /** Distinct ints print as distinct strings, so comparing the printed ids
      is comparing the hashes. */
  lemma IntToStringInjective(a: int, b: int)
    ensures IntToString(a) == IntToString(b) <==> a == b
  {
    if IntToString(a) == IntToString(b) {
      if a < 0 {
        assert IntToString(a)[1..] == NatToDecimal(-a);
        assert IntToString(b)[1..] == NatToDecimal(-b);
        NatToDecimalInjective(-a, -b);
      } else {
        NatToDecimalInjective(a, b);
      }
    }
  }

  lemma IntToStringOfZero()
    ensures IntToString(0) == "0"
  {
  }
}
