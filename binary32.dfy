/** The IEEE 754-2008 binary32 interchange format (section 3.4), as far as the
    driver uses it: `(float)w` for a 16-bit register word w, then
    BitConverter.GetBytes of that float. Every integer in 0..65535 is exactly
    representable in binary32, so the conversion is an integer computation of
    the bit pattern; no floating-point arithmetic is involved. */
module Binary32 {
  import opened Bytes

  datatype Option<T> = None | Some(value: T)

  const FRACTION_BITS: nat := 23
  const EXPONENT_BIAS: nat := 127
  /** 2^23: the weight of the implicit leading significand bit. */
  const HIDDEN_BIT: nat := 0x80_0000
  /** 2^31: the weight of the sign bit. */
  const SIGN_BIT: nat := 0x8000_0000
  const PATTERN_LIMIT: nat := 0x1_0000_0000

  lemma WordLog2Bound(w: u16)
    requires w > 0
    ensures Log2(w as int) <= 15
  {
    var e := Log2(w as int);
    if e >= 16 {
      Pow2Monotone(16, e);
      Pow2Constants();
    }
  }

  /** The binary32 bit pattern of the float that equals w: sign 0, biased
      exponent 127 + floor(log2 w), fraction the bits of w below its leading
      one, shifted to the top of the 23-bit field; 0 is the all-zero pattern. */
  function Encode(w: u16): (p: nat)
    ensures p < SIGN_BIT
  {
    if w == 0 then 0
    else
      WordLog2Bound(w);
      var e := Log2(w as int);
      FractionFits(w);
      (EXPONENT_BIAS + e) * HIDDEN_BIT + (w as int - Pow2(e)) * Pow2(FRACTION_BITS - e)
  }

  /** Only the word 0 has the all-zero pattern. */
  lemma EncodeZero(w: u16)
    ensures Encode(w) == 0 <==> w == 0
  {
    if w > 0 {
      FractionFits(w);
    }
  }

  /** The biased exponent field of the pattern of a nonzero w is
      127 + floor(log2 w), and its fraction field is w's bits below the
      leading one, shifted to the top of the 23 bits. */
  lemma EncodeFields(w: u16)
    requires w > 0
    ensures Log2(w as int) <= 15
    ensures Encode(w) / HIDDEN_BIT == EXPONENT_BIAS + Log2(w as int)
    ensures Encode(w) % HIDDEN_BIT == (w as int - Pow2(Log2(w as int))) * Pow2(FRACTION_BITS - Log2(w as int))
  {
    FractionFits(w);
    var e := Log2(w as int);
    var m := (w as int - Pow2(e)) * Pow2(FRACTION_BITS - e);
    assert Encode(w) == (EXPONENT_BIAS + e) * HIDDEN_BIT + m;
    FieldsOf(EXPONENT_BIAS + e, m);
  }

  /** The fraction field computed by Encode fits in 23 bits, and together with
      the hidden bit it is w scaled by 2^(23 - e). */
  lemma FractionFits(w: u16)
    requires w > 0
    ensures Log2(w as int) <= 15
    ensures var e := Log2(w as int);
      && 0 <= (w as int - Pow2(e)) * Pow2(FRACTION_BITS - e) < HIDDEN_BIT
      && HIDDEN_BIT + (w as int - Pow2(e)) * Pow2(FRACTION_BITS - e) == w as int * Pow2(FRACTION_BITS - e)
  {
    WordLog2Bound(w);
    var e := Log2(w as int);
    var k := Pow2(FRACTION_BITS - e);
    Pow2Add(e, FRACTION_BITS - e);
    Pow2Constants();
    assert Pow2(e + 1) == 2 * Pow2(e);
    ScaleBelow(w as int - Pow2(e), Pow2(e), k);
    ScaleSum(Pow2(e), w as int - Pow2(e), k);
  }

  lemma ScaleBelow(a: nat, b: nat, k: nat)
    requires a < b && k > 0
    ensures 0 <= a * k < b * k
  {
  }

  lemma ScaleSum(a: int, b: int, k: int)
    ensures a * k + b * k == (a + b) * k
  {
  }

  /** The value a binary32 pattern denotes (section 3.4): sign, biased exponent
      and fraction fields; a biased exponent of 255 is an infinity or a NaN,
      which have no real value. */
  function Value(p: nat): (v: Option<real>)
    requires p < PATTERN_LIMIT
  {
    var sign := p / SIGN_BIT;
    var biased := (p / HIDDEN_BIT) % 0x100;
    var fraction := p % HIDDEN_BIT;
    if biased == 0xFF then None
    else
      var magnitude := Magnitude(biased, fraction);
      Some(if sign == 1 then -magnitude else magnitude)
  }

  /** The magnitude of a finite pattern: subnormal for a biased exponent of 0,
      otherwise the significand 1.fraction scaled by 2^(biased - 127). */
  function Magnitude(biased: nat, fraction: nat): real
  {
    if biased == 0 then fraction as real / Pow2(149) as real
    else if biased >= EXPONENT_BIAS + FRACTION_BITS then
      ((HIDDEN_BIT + fraction) * Pow2(biased - (EXPONENT_BIAS + FRACTION_BITS))) as real
    else
      (HIDDEN_BIT + fraction) as real / Pow2(EXPONENT_BIAS + FRACTION_BITS - biased) as real
  }

  /** The conversion is exact: the pattern Encode produces denotes w itself. */
  lemma {:induction false} EncodeRoundTrip(w: u16)
    ensures Value(Encode(w)) == Some(w as real)
  {
    if w > 0 {
      FractionFits(w);
      var e := Log2(w as int);
      var k := Pow2(FRACTION_BITS - e);
      var m := (w as int - Pow2(e)) * k;
      assert Encode(w) == (EXPONENT_BIAS + e) * HIDDEN_BIT + m;
      NormalValue(Encode(w), e, m, w as int, k);
    }
  }

  /** Different words have different patterns. */
  lemma EncodeInjective(v: u16, w: u16)
    requires Encode(v) == Encode(w)
    ensures v == w
  {
    EncodeRoundTrip(v);
    EncodeRoundTrip(w);
  }

  /** A pattern with biased exponent 127 + e, e <= 15, whose significand
      (hidden bit included) is n scaled by k = 2^(23 - e), denotes n. */
  lemma NormalValue(p: nat, e: nat, fraction: nat, n: int, k: nat)
    requires e <= 15 && fraction < HIDDEN_BIT && k == Pow2(FRACTION_BITS - e)
    requires p == (EXPONENT_BIAS + e) * HIDDEN_BIT + fraction && p < SIGN_BIT
    requires HIDDEN_BIT + fraction == n * k
    ensures Value(p) == Some(n as real)
  {
    PositiveNormal(p, EXPONENT_BIAS + e, fraction);
    NormalMagnitude(e, fraction);
    RealQuotient(n, k);
  }

  /** A biased exponent below 127 + 23 scales the significand down. */
  lemma NormalMagnitude(e: nat, fraction: nat)
    requires e <= 15
    ensures Magnitude(EXPONENT_BIAS + e, fraction) == (HIDDEN_BIT + fraction) as real / Pow2(FRACTION_BITS - e) as real
  {
  }

  /** A pattern below the sign bit, assembled from a finite biased exponent and
      a 23-bit fraction, denotes the positive magnitude of those fields. */
  lemma PositiveNormal(p: nat, biased: nat, fraction: nat)
    requires p < SIGN_BIT && biased < 0xFF && fraction < HIDDEN_BIT
    requires p == biased * HIDDEN_BIT + fraction
    ensures Value(p) == Some(Magnitude(biased, fraction))
  {
    FieldsOf(biased, fraction);
    BelowDivisor(p, SIGN_BIT);
  }

  /** A pattern assembled from a biased exponent and a 23-bit fraction gives
      those fields back. */
  lemma FieldsOf(biased: nat, fraction: nat)
    requires fraction < HIDDEN_BIT
    ensures (biased * HIDDEN_BIT + fraction) / HIDDEN_BIT == biased
    ensures (biased * HIDDEN_BIT + fraction) % HIDDEN_BIT == fraction
  {
  }

  lemma BelowDivisor(p: nat, d: nat)
    requires p < d
    ensures p / d == 0
  {
  }

  lemma RealQuotient(n: int, k: nat)
    requires k > 0
    ensures (n * k) as real / k as real == n as real
  {
    assert (n * k) as real == n as real * k as real;
  }

  /** BitConverter.GetBytes of the float: its four pattern bytes, least
      significant first. */
  function GetBytes(p: nat): (b: seq<byte>)
    requires p < PATTERN_LIMIT
    ensures |b| == 4
    ensures ToUInt16(b, 0) as int + 0x1_0000 * ToUInt16(b, 2) as int == p
  {
    SplitPattern(p);
    [(p % 0x100) as byte, (p / 0x100 % 0x100) as byte,
     (p / 0x1_0000 % 0x100) as byte, (p / 0x100_0000) as byte]
  }

  lemma SplitPattern(p: nat)
    ensures p % 0x100 + 0x100 * (p / 0x100 % 0x100) == p % 0x1_0000
    ensures p / 0x1_0000 % 0x100 + 0x100 * (p / 0x100_0000) == p / 0x1_0000
  {
    var q := p / 0x100;
    var r := q / 0x100;
    assert p == 0x100 * q + p % 0x100;
    assert q == 0x100 * r + q % 0x100;
    assert p == 0x1_0000 * r + (p % 0x100 + 0x100 * (q % 0x100));
    assert p / 0x1_0000 == r && p % 0x1_0000 == p % 0x100 + 0x100 * (q % 0x100);
    var t := r / 0x100;
    assert r == 0x100 * t + r % 0x100;
    assert p == 0x100_0000 * t + (p % 0x1_0000 + 0x1_0000 * (r % 0x100));
    assert p / 0x100_0000 == t;
  }

  /** The two register halves a client reassembles (low word first) give back
      the float that equals w. */
  lemma HalvesRoundTrip(w: u16)
    ensures var b := GetBytes(Encode(w));
      Value(ToUInt16(b, 0) as int + 0x1_0000 * ToUInt16(b, 2) as int) == Some(w as real)
  {
    EncodeRoundTrip(w);
  }
}
