/** The canonical map key of a 64-bit float (IEEE 754-2019, section 3.4: one sign bit, 11
    exponent bits biased by 1023, 52 fraction bits), and exactly which floats share a key. */
module FloatKey {
  import opened Words

  const CANONICAL_NAN_BITS: u64 := 0x7ff8_0000_0000_0000
  const CANONICAL_ZERO_BITS: u64 := 0

  /** The bits of -2^52. */
  const MINUS_TWO_52: u64 := 0xc330_0000_0000_0000

  /** The bits of -1.5 * 2^51. */
  const NAN_TWIN: u64 := 0xc328_0000_0000_0000

  function Fraction(bits: u64): nat { bits % TWO_52 }

  function Exponent(bits: u64): nat { bits / TWO_52 % 2048 }

  predicate Negative(bits: u64) { bits / TWO_63 != 0 }

  predicate IsNaN(bits: u64) { Exponent(bits) == 2047 && Fraction(bits) != 0 }

  predicate IsZero(bits: u64) { Exponent(bits) == 0 && Fraction(bits) == 0 }

  predicate IsSubnormal(bits: u64) { Exponent(bits) == 0 && Fraction(bits) != 0 }

  /** A signed 16-bit integer widened to 64 bits: two's complement. */
  function SignExtend(e: int): u64
    requires -0x8000 <= e < 0x8000
  {
    e % TWO_64
  }

  /** The key of a float: mantissa without its top bit, unbiased exponent cut to 11 bits, and
      the inverted sign. */
  function ConvertF64(bits: u64): u64 {
    if IsNaN(bits) then CANONICAL_NAN_BITS
    else
      var exp := Exponent(bits);
      var man := if exp == 0 then Fraction(bits) * 2 else Fraction(bits) + TWO_52;
      if man == 0 then CANONICAL_ZERO_BITS
      else
        // exponent bias and mantissa shift
        var unbiased: int := exp - (1023 + 52);
        var shifted := SignExtend(unbiased) * TWO_52 % TWO_64;
        var expField := shifted / TWO_52 % 2048 * TWO_52;
        var signField := if Negative(bits) then 0 else TWO_63;
        man % TWO_52 + expField + signField
  }

  // ----- the number a float stands for -----

  /** The magnitude of a finite float in units of 2^-1074, the least positive double. */
  function Magnitude(bits: u64): nat { Scaled(Fraction(bits), Exponent(bits)) }

  function Scaled(frac: nat, exp: nat): nat {
    if exp == 0 then frac else (TWO_52 + frac) * Pow2(exp - 1)
  }

  /** The exact value of a finite float, in the same units. */
  function Value(bits: u64): int {
    var m: int := Magnitude(bits);
    if Negative(bits) then 0 - m else m
  }

  predicate IsFinite(bits: u64) { Exponent(bits) != 2047 }

  // ----- equal bits, equal numbers -----

  lemma FieldsDetermine(a: u64, b: u64)
    requires Fraction(a) == Fraction(b) && Exponent(a) == Exponent(b) && Negative(a) == Negative(b)
    ensures a == b
  {
    assert a / TWO_52 == a / TWO_63 * 2048 + Exponent(a);
    assert b / TWO_52 == b / TWO_63 * 2048 + Exponent(b);
  }

  lemma {:induction false} Pow2Gap(m: nat, n: nat)
    requires m < n
    ensures 2 * Pow2(m) <= Pow2(n)
    ensures Pow2(m) >= 1
  {
    if m + 1 < n { Pow2Gap(m, n - 1); }
    Pow2Positive(m);
  }

  lemma ProductOrder(a: nat, b: nat, p: nat)
    requires a < b && p >= 1
    ensures a * p < b * p
  {
    assert b * p == a * p + (b - a) * p;
  }

  /** Every number of one exponent is below every number of a greater one. */
  lemma ExponentOrder(m: nat, p: nat, m': nat, p': nat)
    requires m < 2 * TWO_52 && TWO_52 <= m' && 1 <= p && 2 * p <= p'
    ensures m * p < m' * p'
  {
    ProductOrder(m, 2 * TWO_52, p);
    assert TWO_52 * (p' - 2 * p) >= 0;
    assert (m' - TWO_52) * p' >= 0;
  }

  /** A greater exponent field means a greater magnitude, and within one exponent a greater
      fraction does. */
  lemma ScaledOrder(f: nat, e: nat, f': nat, e': nat)
    requires f < TWO_52 && f' < TWO_52
    requires e < e' || (e == e' && f < f')
    ensures Scaled(f, e) < Scaled(f', e')
  {
    if e' > 0 {
      Pow2Positive(e' - 1);
      if e == e' {
        ProductOrder(TWO_52 + f, TWO_52 + f', Pow2(e' - 1));
      } else if e == 0 {
        assert (TWO_52 + f') * (Pow2(e' - 1) - 1) >= 0;
      } else {
        Pow2Gap(e - 1, e' - 1);
        ExponentOrder(TWO_52 + f, Pow2(e - 1), TWO_52 + f', Pow2(e' - 1));
      }
    }
  }

  lemma MagnitudeInjective(a: u64, b: u64)
    requires Magnitude(a) == Magnitude(b)
    ensures Exponent(a) == Exponent(b) && Fraction(a) == Fraction(b)
  {
    var fa, ea, fb, eb := Fraction(a), Exponent(a), Fraction(b), Exponent(b);
    if ea < eb || (ea == eb && fa < fb) { ScaledOrder(fa, ea, fb, eb); }
    if eb < ea || (ea == eb && fb < fa) { ScaledOrder(fb, eb, fa, ea); }
  }

  lemma ZeroMagnitude(a: u64)
    ensures Magnitude(a) == 0 <==> IsZero(a)
  {
    if Exponent(a) != 0 { Pow2Positive(Exponent(a) - 1); }
  }

  /** Two floats are the same number exactly when they are bit-equal or both zero. */
  lemma SameValue(a: u64, b: u64)
    ensures Value(a) == Value(b) <==> a == b || (IsZero(a) && IsZero(b))
  {
    ZeroMagnitude(a);
    ZeroMagnitude(b);
    if Value(a) == Value(b) && !IsZero(a) {
      MagnitudeInjective(a, b);
      FieldsDetermine(a, b);
    }
  }

  // ----- equal keys -----

  /** The exponent code wraps modulo 2^11, one to one on the 11-bit exponents. */
  lemma ExponentCode(exp: nat)
    requires exp < 2048
    ensures SignExtend(exp - 1075) * TWO_52 % TWO_64 / TWO_52 % 2048 * TWO_52
            == (exp + 973) % 2048 * TWO_52
  {
    var e := SignExtend(exp - 1075);
    var q := e / 4096;
    assert e == (if exp >= 1075 then exp - 1075 else exp - 1075 + TWO_64);
    assert e * TWO_52 == q * TWO_64 + e % 4096 * TWO_52;
    assert e * TWO_52 % TWO_64 == e % 4096 * TWO_52;
  }

  /** The three fields of a float's key. */
  predicate IsKeyOf(key: u64, a: u64) {
    && Fraction(key) == (if Exponent(a) == 0 then Fraction(a) * 2 % TWO_52 else Fraction(a))
    && Exponent(key) == (Exponent(a) + 973) % 2048
    && Negative(key) == !Negative(a)
  }

  lemma PackedFields(low: nat, code: nat, negative: bool, word: u64)
    requires low < TWO_52 && code < 2048
    requires word == low + code * TWO_52 + (if negative then TWO_63 else 0)
    ensures Fraction(word) == low && Exponent(word) == code && Negative(word) == negative
  {
    assert word / TWO_52 == code + (if negative then 2048 else 0);
  }

  lemma KeyFields(a: u64)
    requires !IsNaN(a) && !IsZero(a)
    ensures IsKeyOf(ConvertF64(a), a)
  {
    ExponentCode(Exponent(a));
    var man := if Exponent(a) == 0 then Fraction(a) * 2 else Fraction(a) + TWO_52;
    PackedFields(man % TWO_52, (Exponent(a) + 973) % 2048, !Negative(a), ConvertF64(a));
  }

  /** Subnormals of one sign whose fractions differ in the top bit only: the shift by one and
      the mask drop that bit. */
  predicate Twins(a: u64, b: u64) {
    && IsSubnormal(a) && IsSubnormal(b)
    && Negative(a) == Negative(b)
    && (Fraction(a) == Fraction(b) + TWO_52 / 2 || Fraction(b) == Fraction(a) + TWO_52 / 2)
  }

  /** One number, or both not a number. */
  predicate SameNumber(a: u64, b: u64) {
    if IsNaN(a) || IsNaN(b) then IsNaN(a) && IsNaN(b) else Value(a) == Value(b)
  }

  /** Different numbers with one key: two twin subnormals, a zero and -2^52, or a NaN and
      -1.5 * 2^51. */
  predicate Aliased(a: u64, b: u64) {
    || Twins(a, b)
    || (IsZero(a) && b == MINUS_TWO_52)
    || (IsZero(b) && a == MINUS_TWO_52)
    || (IsNaN(a) && b == NAN_TWIN)
    || (IsNaN(b) && a == NAN_TWIN)
  }

  lemma ZeroCode(a: u64)
    requires !IsNaN(a)
    ensures ConvertF64(a) == CANONICAL_ZERO_BITS <==> IsZero(a) || a == MINUS_TWO_52
  {
    if !IsZero(a) {
      KeyFields(a);
      FieldsDetermineZero(a);
    }
  }

  lemma FieldsDetermineZero(a: u64)
    requires !IsNaN(a) && !IsZero(a)
    ensures ConvertF64(a) == 0 <==> a == MINUS_TWO_52
  {
    KeyFields(a);
    if ConvertF64(a) == 0 {
      assert Exponent(a) == 1075 && Fraction(a) == 0 && Negative(a);
      FieldsDetermine(a, MINUS_TWO_52);
    }
    if a == MINUS_TWO_52 { FieldsDetermine(ConvertF64(a), 0); }
  }

  lemma FieldCodes(f: nat, g: nat, d: nat, e: nat)
    requires f < TWO_52 && g < TWO_52 && d < 2048 && e < 2048
    ensures f * 2 % TWO_52 == g * 2 % TWO_52 <==> f == g || f == g + TWO_52 / 2 || g == f + TWO_52 / 2
    ensures (d + 973) % 2048 == (e + 973) % 2048 <==> d == e
  {
  }

  lemma NonzeroKeys(a: u64, b: u64, ka: u64, kb: u64)
    requires IsKeyOf(ka, a) && IsKeyOf(kb, b) && !IsZero(a) && !IsZero(b)
    ensures ka == kb <==> a == b || Twins(a, b)
  {
    var fa, ea, fb, eb := Fraction(a), Exponent(a), Fraction(b), Exponent(b);
    FieldCodes(fa, fb, ea, eb);
    if ea == eb && fa == fb && Negative(a) == Negative(b) { FieldsDetermine(a, b); }
    if Fraction(ka) == Fraction(kb) && ea == eb && Negative(a) == Negative(b) { FieldsDetermine(ka, kb); }
  }

  lemma NumberKeys(a: u64, b: u64)
    requires !IsNaN(a) && !IsNaN(b)
    ensures ConvertF64(a) == ConvertF64(b) <==> Value(a) == Value(b) || Aliased(a, b)
    ensures Aliased(a, b) ==> Value(a) != Value(b)
  {
    SameValue(a, b);
    ZeroCode(a);
    ZeroCode(b);
    if !IsZero(a) && !IsZero(b) {
      KeyFields(a);
      KeyFields(b);
      NonzeroKeys(a, b, ConvertF64(a), ConvertF64(b));
    }
  }

  /** NaNs of every payload share one key, which one number has too. */
  lemma NaNKey(a: u64)
    ensures ConvertF64(a) == CANONICAL_NAN_BITS <==> IsNaN(a) || a == NAN_TWIN
  {
    if !IsZero(a) && !IsNaN(a) {
      KeyFields(a);
      if ConvertF64(a) == CANONICAL_NAN_BITS { FieldsDetermine(a, NAN_TWIN); }
      if a == NAN_TWIN { FieldsDetermine(ConvertF64(a), CANONICAL_NAN_BITS); }
    }
  }

  /** Key canonicalisation, for every pair of floats whatever: one key means one number, but for
      the aliased pairs, which are different numbers with one key. */
  lemma KeyIsCanonical(a: u64, b: u64)
    ensures ConvertF64(a) == ConvertF64(b) <==> SameNumber(a, b) || Aliased(a, b)
    ensures (ConvertF64(a) == ConvertF64(b) <==> SameNumber(a, b)) <==> !Aliased(a, b)
  {
    NaNKey(a);
    NaNKey(b);
    if !IsNaN(a) && !IsNaN(b) { NumberKeys(a, b); }
  }

  // ----- coordinates -----

  /** A degree value as the location tables hold: zero, or a normal float of magnitude at most
      180 (0x4066_8000_0000_0000 is the bits of 180.0). */
  predicate IsCoordinate(bits: u64) {
    IsZero(bits) || (Exponent(bits) > 0 && bits % TWO_63 <= 0x4066_8000_0000_0000)
  }

  lemma FortyFive(n: nat)
    ensures Pow2(n + 45) == 0x2000_0000_0000 * Pow2(n)
  {
    Pow2Sum(45, n);
    Pow2Sum(15, 30);
    Pow2Sum(15, 15);
    assert Pow2(15) == 0x8000;
  }

  /** 180.0 has fraction 0x6_8000_0000_0000 and exponent field 1030. */
  lemma OneEighty(e: nat, n: nat)
    requires e == 1030 && n == 1074
    ensures Scaled(0x6_8000_0000_0000, e) == 180 * Pow2(n)
  {
    FortyFive(e - 1);
  }

  /** The bound on the bits is the bound on the number: at most 180 in units of 2^-1074. */
  lemma CoordinateRange(bits: u64)
    ensures IsCoordinate(bits) <==>
      IsZero(bits) || (Exponent(bits) > 0 && Magnitude(bits) <= 180 * Pow2(1074))
  {
    var f, e := Fraction(bits), Exponent(bits);
    assert bits % TWO_63 == e * TWO_52 + f;
    OneEighty(1030, 1074);
    if e < 1030 || (e == 1030 && f < 0x6_8000_0000_0000) { ScaledOrder(f, e, 0x6_8000_0000_0000, 1030); }
    if e > 1030 || (e == 1030 && f > 0x6_8000_0000_0000) { ScaledOrder(0x6_8000_0000_0000, 1030, f, e); }
  }

  /** No two coordinates are aliased: neither -2^52 nor -1.5 * 2^51 is one, nor a subnormal. */
  lemma CoordinatesUnaliased(a: u64, b: u64)
    requires IsCoordinate(a) && IsCoordinate(b)
    ensures !IsNaN(a) && !IsNaN(b) && !Aliased(a, b)
  {
    assert !IsCoordinate(MINUS_TWO_52) && !IsCoordinate(NAN_TWIN);
    CoordinateIsNumber(a);
    CoordinateIsNumber(b);
  }

  lemma CoordinateIsNumber(a: u64)
    requires IsCoordinate(a)
    ensures !IsNaN(a) && !IsSubnormal(a)
  {
    assert a % TWO_63 == Exponent(a) * TWO_52 + Fraction(a);
  }

  /** On coordinates the key is exactly the number: -0.0 and 0.0 share one, nothing else does. */
  lemma CoordinateKeys(a: u64, b: u64)
    requires IsCoordinate(a) && IsCoordinate(b)
    ensures ConvertF64(a) == ConvertF64(b) <==> Value(a) == Value(b)
  {
    CoordinatesUnaliased(a, b);
    KeyIsCanonical(a, b);
  }
}
