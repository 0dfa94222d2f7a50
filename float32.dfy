/**
 * IEEE-754 single-precision words, as readFloatLE reads them. The adapter
 * compares one of them with 1.0 (lightOn) and tests numbers for truthiness;
 * both are decided here on the raw 32-bit word.
 */
module Float32 {
  import opened Bytes

  const SignBit: nat := 0x8000_0000
  const FractionLimit: nat := 0x80_0000   // 2^23
  const OneBits: nat := 0x3F80_0000       // 1.0
  const InfinityBits: nat := 0x7F80_0000  // +Infinity

  /** A single split into its sign, biased exponent and fraction fields. */
  datatype Single = Single(negative: bool, exponent: nat, fraction: nat)

  function Fields(bits: nat): (f: Single)
    requires bits < U32Limit
    ensures f.exponent < 256 && f.fraction < FractionLimit
  {
    Single(bits >= SignBit, (bits / FractionLimit) % 256, bits % FractionLimit)
  }

  predicate IsNaN(bits: nat)
    requires bits < U32Limit
  {
    Fields(bits).exponent == 255 && Fields(bits).fraction != 0
  }

  function Pow2(e: int): (p: real)
    ensures p > 0.0
    decreases if e < 0 then -e else e
  {
    if e == 0 then 1.0 else if e > 0 then 2.0 * Pow2(e - 1) else Pow2(e + 1) / 2.0
  }

  lemma {:induction false} Pow2AtLeastTwo(e: int)
    requires e >= 1
    ensures Pow2(e) >= 2.0
  {
    if e > 1 {
      Pow2AtLeastTwo(e - 1);
    }
  }

  lemma {:induction false} Pow2AtMostHalf(e: int)
    requires e <= -1
    ensures Pow2(e) <= 0.5
    decreases -e
  {
    if e < -1 {
      Pow2AtMostHalf(e + 1);
    }
  }

  /** The fraction field as a real in [0, 1). */
  function Frac(f: Single): (x: real)
    requires f.fraction < FractionLimit
    ensures 0.0 <= x < 1.0 && (x > 0.0 <==> f.fraction > 0)
  {
    f.fraction as real / FractionLimit as real
  }

  /** The magnitude a finite single denotes (subnormal when the exponent field is 0). */
  function Magnitude(f: Single): (m: real)
    requires f.exponent < 255 && f.fraction < FractionLimit
  {
    if f.exponent == 0 then Frac(f) * Pow2(-126) else (1.0 + Frac(f)) * Pow2(f.exponent - 127)
  }

  /** `x > 1.0` for the single x whose word is `bits`, decided on its real value. */
  predicate ExceedsOne(bits: nat)
    requires bits < U32Limit
  {
    var f := Fields(bits);
    if f.exponent == 255 then !f.negative && f.fraction == 0  // only +Infinity; NaN compares false
    else (if f.negative then -Magnitude(f) else Magnitude(f)) > 1.0
  }

  /** gotinfo's `light > 1.0`, on the word: positive and above 1.0, up to +Infinity. */
  function LightOn(bits: nat): bool {
    OneBits < bits <= InfinityBits
  }

  lemma ScaleBelow(a: real, c: real, p: real)
    requires 0.0 <= a && a < c && p > 0.0
    ensures 0.0 <= a * p < c * p
  {
  }

  lemma ScaleAbove(a: real, p: real)
    requires a >= 1.0 && p > 0.0
    ensures a * p >= p
  {
  }

  lemma SubnormalBelowOne(f: Single)
    requires f.exponent == 0 && f.fraction < FractionLimit
    ensures 0.0 <= Magnitude(f) < 1.0
  {
    Pow2AtMostHalf(-126);
    ScaleBelow(Frac(f), 1.0, Pow2(-126));
  }

  lemma NormalBelowOne(f: Single)
    requires 1 <= f.exponent < 127 && f.fraction < FractionLimit
    ensures 0.0 <= Magnitude(f) < 1.0
  {
    var p := Pow2(f.exponent - 127);
    Pow2AtMostHalf(f.exponent - 127);
    ScaleBelow(1.0 + Frac(f), 2.0, p);
  }

  lemma NormalAboveBias(f: Single)
    requires 127 < f.exponent < 255 && f.fraction < FractionLimit
    ensures Magnitude(f) >= 2.0
  {
    var p := Pow2(f.exponent - 127);
    Pow2AtLeastTwo(f.exponent - 127);
    ScaleAbove(1.0 + Frac(f), p);
  }

  /** A finite magnitude exceeds 1 exactly when the exponent is above the bias, or at it with a fraction. */
  lemma MagnitudeExceedsOne(f: Single)
    requires f.exponent < 255 && f.fraction < FractionLimit
    ensures Magnitude(f) >= 0.0
    ensures Magnitude(f) > 1.0 <==> f.exponent > 127 || (f.exponent == 127 && f.fraction > 0)
  {
    if f.exponent == 0 {
      SubnormalBelowOne(f);
    } else if f.exponent < 127 {
      NormalBelowOne(f);
    } else if f.exponent > 127 {
      NormalAboveBias(f);
    } else {
      assert Pow2(0) == 1.0;
    }
  }

  /** Where the word of 1.0 and of +Infinity fall among the fields of a word. */
  lemma LightOnFields(bits: nat)
    requires bits < U32Limit
    ensures var f := Fields(bits);
      LightOn(bits) <==> !f.negative && (f.exponent == 255 ==> f.fraction == 0) &&
                         (f.exponent > 127 || (f.exponent == 127 && f.fraction > 0))
  {
  }

  /** Comparing words agrees with comparing the reals they denote. */
  lemma LightOnExceedsOne(bits: nat)
    requires bits < U32Limit
    ensures LightOn(bits) == ExceedsOne(bits)
  {
    LightOnFields(bits);
    var f := Fields(bits);
    if f.exponent < 255 {
      MagnitudeExceedsOne(f);
    }
  }

  /** JavaScript truthiness of a number: everything but +0, -0 and NaN. */
  predicate NumberTruthy(bits: nat)
    requires bits < U32Limit
  {
    bits != 0 && bits != SignBit && !IsNaN(bits)
  }

  /** The only words whose exponent and fraction fields are both zero are +0 and -0. */
  lemma ZeroFields(bits: nat)
    requires bits < U32Limit
    ensures var f := Fields(bits);
      f.exponent == 0 && f.fraction == 0 <==> bits == 0 || bits == SignBit
  {
  }

  /** A non-NaN number is truthy exactly when it is infinite or its value is not zero. */
  lemma NumberTruthyNonzero(bits: nat)
    requires bits < U32Limit && !IsNaN(bits)
    ensures var f := Fields(bits);
      NumberTruthy(bits) <==> f.exponent == 255 || Magnitude(f) != 0.0
  {
    ZeroFields(bits);
    var f := Fields(bits);
    if f.exponent == 0 {
      var x, p := Frac(f), Pow2(-126);
      assert Magnitude(f) == x * p;
      if f.fraction > 0 {
        assert x * p > 0.0;
      } else {
        assert x == 0.0;
      }
    } else if f.exponent < 255 {
      var x, p := 1.0 + Frac(f), Pow2(f.exponent - 127);
      assert Magnitude(f) == x * p && x > 0.0 && p > 0.0;
      assert x * p > 0.0;
    }
  }
}
