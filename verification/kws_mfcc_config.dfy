/** The fixed feature-extraction configuration of kws_mfcc.h. The two sample
    counts are C preprocessor expressions evaluated in double precision and
    truncated by an `int16_t` cast. The model evaluates them the way IEEE 754
    binary64 arithmetic does (round to nearest, ties to even) and checks the
    result against the exact product over the reals. */
module KwsMfccConfig {

  const SampFreq := 44100
  const FrameShiftMs := 10
  const FrameLenMs := 25
  const NumFrames := 249
  const NumMfccCoeffs := 13
  const MfccBufferSize := NumFrames * NumMfccCoeffs

  const Int16Min := -0x8000
  const Int16Max := 0x7fff
  const Uint16Limit := 0x1_0000

  /** Bits in the significand of a binary64 value. */
  const Precision := 53

  function Pow2(n: nat): (r: nat)
    ensures r > 0
  {
    if n == 0 then 1 else 2 * Pow2(n - 1)
  }

  lemma {:induction false} Pow2Add(a: nat, b: nat)
    ensures Pow2(a + b) == Pow2(a) * Pow2(b)
    decreases a
  {
    if a > 0 {
      Pow2Add(a - 1, b);
      assert Pow2(a + b) == 2 * Pow2(a - 1 + b);
    }
  }

  /** Number of binary digits of n. */
  function Bits(n: nat): nat {
    if n == 0 then 0 else 1 + Bits(n / 2)
  }

  /** n has b binary digits exactly when 2^(b-1) <= n < 2^b. */
  lemma {:induction false} BitsOf(n: nat, b: nat)
    requires 0 < b && Pow2(b - 1) <= n < Pow2(b)
    ensures Bits(n) == b
    decreases b
  {
    if b > 1 {
      assert Pow2(b - 1) == 2 * Pow2(b - 2);
      BitsOf(n / 2, b - 1);
    }
  }

  /** n / d rounded to the nearest integer, ties to the even one: the
      default rounding of IEEE 754. The result is within half of d. */
  function RoundHalfEven(n: nat, d: nat): (r: nat)
    requires d > 0
    ensures 2 * n <= d * (2 * r) + d
    ensures d * (2 * r) <= 2 * n + d
  {
    var q, rem := n / d, n % d;
    var r := if 2 * rem < d then q else if 2 * rem > d then q + 1 else if q % 2 == 0 then q else q + 1;
    NearestBounds(n, d, q, rem, r);
    r
  }

  lemma NearestBounds(n: nat, d: nat, q: nat, rem: nat, r: nat)
    requires d > 0 && q == n / d && rem == n % d
    requires r == q || r == q + 1
    requires r == q ==> 2 * rem <= d
    requires r == q + 1 ==> d <= 2 * rem
    ensures 2 * n <= d * (2 * r) + d
    ensures d * (2 * r) <= 2 * n + d
  {
    var p := d * q;
    assert n == p + rem && rem < d;
    if r == q {
      assert d * (2 * r) == 2 * p;
    } else {
      assert d * (2 * r) == 2 * p + 2 * d;
    }
  }

  /** A positive binary64 value: mant * 2^exp. Overflow, subnormals and
      negative values never arise in the two macros and are not modelled. */
  datatype Double = Double(mant: nat, exp: int)

  function Value(x: Double): real {
    if x.exp >= 0 then (x.mant * Pow2(x.exp)) as real
    else x.mant as real / Pow2(-x.exp) as real
  }

  /** The double nearest the exact value n * 2^exp: kept as it is when n
      fits the significand, otherwise the low bits are rounded away. */
  function Round(n: nat, exp: int): (r: Double)
    ensures Bits(n) <= Precision ==> r == Double(n, exp)
    ensures Bits(n) > Precision ==> r.exp == exp + Bits(n) - Precision
    ensures r.exp >= exp
    ensures 2 * n <= Pow2(r.exp - exp) * (2 * r.mant) + Pow2(r.exp - exp)
    ensures Pow2(r.exp - exp) * (2 * r.mant) <= 2 * n + Pow2(r.exp - exp)
  {
    if Bits(n) <= Precision then Double(n, exp)
    else
      var s := Bits(n) - Precision;
      Double(RoundHalfEven(n, Pow2(s)), exp + s)
  }

  /** The literal 0.001: 0.001 lies in [2^-10, 2^-9), where the doubles are
      the multiples of 2^-62. */
  const Milli := Double(RoundHalfEven(Pow2(62), 1000), -62)

  /** A double times an integer (an int converts to double exactly here). */
  function Mul(a: Double, k: nat): Double {
    Round(a.mant * k, a.exp)
  }

  /** `SAMP_FREQ * 0.001 * ms`, evaluated left to right in double. */
  function SamplesInDouble(ms: nat): Double {
    Mul(Mul(Milli, SampFreq), ms)
  }

  /** The same product evaluated exactly. */
  function SamplesIn(ms: int): real {
    SampFreq as real * 0.001 * ms as real
  }

  /** A C conversion of a floating value to `int16_t`: truncation toward zero.
      The conversion is only defined when the truncated value fits. */
  function TruncateToInt16(x: real): (r: int)
    requires Int16Min as real - 1.0 < x < Int16Max as real + 1.0
    ensures Int16Min <= r <= Int16Max
    ensures 0.0 <= x ==> r as real <= x < r as real + 1.0
    ensures x < 0.0 ==> r as real - 1.0 < x <= r as real
  {
    if x >= 0.0 then x.Floor else -((-x).Floor)
  }

  /** `(int16_t)(SAMP_FREQ * 0.001 * ms)` for the two macros. The rounding
      of the double products loses nothing: the count is the exact product
      truncated. */
  function MacroSamples(ms: nat): (r: int)
    requires ms == FrameShiftMs || ms == FrameLenMs
    ensures r == SamplesIn(ms).Floor
  {
    DoubleProductsExact();
    TruncateToInt16(Value(SamplesInDouble(ms)))
  }

  /** FRAME_SHIFT: samples between the starts of consecutive frames; the
      value the macro evaluates to (MacroValues). */
  const FrameShift: nat := 441

  /** FRAME_LEN: samples in one frame; the value the macro evaluates to
      (MacroValues). */
  const FrameLen: nat := 1102

  /** The two macros evaluate to the constants the rest of the model uses. */
  lemma MacroValues()
    ensures MacroSamples(FrameShiftMs) == FrameShift
    ensures MacroSamples(FrameLenMs) == FrameLen
  {
  }

  /** 0.001 is stored as a normal double, within half a unit in the last
      place of 1/1000. */
  lemma MilliNearest()
    ensures Pow2(Precision - 1) <= Milli.mant < Pow2(Precision)
    ensures 2 * Pow2(62) <= 1000 * (2 * Milli.mant) + 1000
    ensures 1000 * (2 * Milli.mant) <= 2 * Pow2(62) + 1000
  {
    Powers();
    MilliValue();
  }

  /** In double, 44100 * 0.001 is 44.1 plus 2^-47 / 5, and multiplying by 10
      and by 25 rounds that excess away: both macros see the exact values
      441.0 and 1102.5. */
  lemma DoubleProductsExact()
    ensures Value(Mul(Milli, SampFreq)) == 44.1 + 1.0 / 703687441776640.0
    ensures Value(SamplesInDouble(FrameShiftMs)) == SamplesIn(FrameShiftMs) == 441.0
    ensures Value(SamplesInDouble(FrameLenMs)) == SamplesIn(FrameLenMs) == 1102.5
  {
    FreqValue();
    ShiftValue();
    LenValue();
  }

  /** The value of m * 2^-e, once 2^e is known. */
  lemma ValueOf(m: nat, e: nat, p: nat, v: real)
    requires 0 < e && Pow2(e) == p && v * p as real == m as real
    ensures Value(Double(m, -(e as int))) == v
  {
  }

  lemma FreqValue()
    ensures Value(Mul(Milli, SampFreq)) == 44.1 + 1.0 / 703687441776640.0
  {
    assert Mul(Milli, SampFreq) == Double(6206523236469965, -47) by {
      FreqTimesMilli();
    }
    assert Pow2(47) == 0x8000_0000_0000 by {
      Powers();
    }
    ValueOf(6206523236469965, 47, 0x8000_0000_0000, 44.1 + 1.0 / 703687441776640.0);
  }

  lemma ShiftValue()
    ensures Value(SamplesInDouble(FrameShiftMs)) == 441.0
  {
    assert SamplesInDouble(FrameShiftMs) == Double(7758154045587456, -44) by {
      FreqTimesMilli();
      ShiftProduct();
    }
    assert Pow2(44) == 0x1000_0000_0000 by {
      Powers();
    }
    ValueOf(7758154045587456, 44, 0x1000_0000_0000, 441.0);
  }

  lemma LenValue()
    ensures Value(SamplesInDouble(FrameLenMs)) == 1102.5
  {
    assert SamplesInDouble(FrameLenMs) == Double(4848846278492160, -42) by {
      FreqTimesMilli();
      LenProduct();
    }
    assert Pow2(42) == 0x400_0000_0000 by {
      Powers();
    }
    ValueOf(4848846278492160, 42, 0x400_0000_0000, 1102.5);
  }

  lemma SmallPowers()
    ensures Pow2(2) == 4 && Pow2(3) == 8 && Pow2(5) == 32
    ensures Pow2(10) == 1024 && Pow2(15) == 32768 && Pow2(20) == 0x10_0000
  {
    assert Pow2(1) == 2 && Pow2(2) == 4 && Pow2(3) == 8 && Pow2(4) == 16 && Pow2(5) == 32;
    Pow2Add(5, 5);
    Pow2Add(10, 5);
    Pow2Add(10, 10);
  }

  /** The powers of two the two macros need. */
  lemma Powers()
    ensures Pow2(3) == 8 && Pow2(5) == 32 && Pow2(15) == 32768
    ensures Pow2(42) == 0x400_0000_0000 && Pow2(44) == 0x1000_0000_0000
    ensures Pow2(47) == 0x8000_0000_0000
    ensures Pow2(52) == 0x10_0000_0000_0000 && Pow2(53) == 0x20_0000_0000_0000
    ensures Pow2(55) == 0x80_0000_0000_0000 && Pow2(56) == 0x100_0000_0000_0000
    ensures Pow2(57) == 0x200_0000_0000_0000 && Pow2(58) == 0x400_0000_0000_0000
    ensures Pow2(62) == 0x4000_0000_0000_0000
    ensures Pow2(67) == 0x8_0000_0000_0000_0000 && Pow2(68) == 0x10_0000_0000_0000_0000
  {
    SmallPowers();
    Pow2Add(20, 20);
    Pow2Add(40, 2);
    Pow2Add(40, 3);
    Pow2Add(40, 4);
    Pow2Add(40, 5);
    Pow2Add(40, 7);
    Pow2Add(40, 10);
    Pow2Add(40, 15);
    Pow2Add(40, 20);
    Pow2Add(50, 2);
    Pow2Add(50, 3);
    Pow2Add(55, 1);
    Pow2Add(55, 2);
    Pow2Add(55, 3);
    Pow2Add(60, 2);
    Pow2Add(62, 5);
    Pow2Add(67, 1);
  }

  lemma MilliValue()
    ensures Milli == Double(4611686018427388, -62)
  {
    Powers();
  }

  /** 44100 * 0.001: a 68-bit exact product, rounded to 53 bits. */
  lemma FreqTimesMilli()
    ensures Mul(Milli, SampFreq) == Double(6206523236469965, -47)
  {
    Powers();
    MilliValue();
    BitsOf(44100 * 4611686018427388, 68);
  }

  /** (44100 * 0.001) * 10 == 441 * 2^44 * 2^-44. */
  lemma ShiftProduct()
    ensures Mul(Double(6206523236469965, -47), FrameShiftMs) == Double(7758154045587456, -44)
  {
    Powers();
    BitsOf(10 * 6206523236469965, 56);
  }

  /** (44100 * 0.001) * 25 == 2205 * 2^41 * 2^-42. */
  lemma LenProduct()
    ensures Mul(Double(6206523236469965, -47), FrameLenMs) == Double(4848846278492160, -42)
  {
    Powers();
    BitsOf(25 * 6206523236469965, 58);
  }

  /** The values the macros evaluate to, and the facts the extractor relies on:
      frames overlap, the feature buffer holds 3237 floats, and the 16-bit
      frame counter of the extraction loop can count past NumFrames. */
  lemma ConfigurationValues()
    ensures FrameShift == 441 && FrameLen == 1102
    ensures FrameLen > FrameShift > 0
    ensures MfccBufferSize == 3237
    ensures NumFrames < Uint16Limit
  {
  }
}
