/**
  Sorted-set scores. A score is an IEEE 754 binary64 bit pattern; its numeric value is
  given by the format (section 3.4 of IEEE 754-2008), scaled by 2^1074 so that it is an
  integer. The model proves that the 64-bit code stored in score keys orders scores by value.
 */
module Score {
  import opened Bytes

  const SIGN: u64 := 0x8000_0000_0000_0000
  const FRACTION: nat := 0x10_0000_0000_0000
  const MAX: u64 := 0xFFFF_FFFF_FFFF_FFFF

  function Exponent(bits: u64): nat {
    (bits % SIGN) / FRACTION
  }

  predicate IsNan(bits: u64) {
    Exponent(bits) == 0x7FF && bits % FRACTION != 0
  }

  type f64 = bits: u64 | !IsNan(bits)

  function Pow2(n: nat): (p: nat)
    ensures p > 0
  {
    if n == 0 then 1 else 2 * Pow2(n - 1)
  }

  /** |x| * 2^1074 for the magnitude bits `m`; an infinity counts as the value after the largest finite one. */
  function Magnitude(m: nat): nat
    requires m < SIGN
  {
    var e, f := m / FRACTION, m % FRACTION;
    if e == 0 then f else (FRACTION + f) * Pow2(e - 1)
  }

  function Value(x: f64): int {
    if x >= SIGN then 0 - Magnitude(x - SIGN) else Magnitude(x)
  }

  /** The value from sign, exponent and fraction, as the format gives it. */
  lemma ValueIs(negative: bool, e: nat, f: nat)
    requires e <= 0x7FF && f < 0x10_0000_0000_0000 && (e == 0x7FF ==> f == 0)
    ensures var m := e * 0x10_0000_0000_0000 + f;
            var x := if negative then 0x8000_0000_0000_0000 + m else m;
            var size := if e == 0 then f else (0x10_0000_0000_0000 + f) * Pow2(e - 1);
            && 0 <= x <= MAX && !IsNan(x)
            && Value(x) == if negative then -size else size
    ensures Pow2(0) == 1 && (e > 0 ==> Pow2(e) == 2 * Pow2(e - 1))
  {
    hide Magnitude, IsNan, Pow2;
    MagnitudeIs(e, f);
    NotNan(negative, e, f);
    Doubles(e);
  }

  lemma MagnitudeIs(e: nat, f: nat)
    requires e <= 0x7FF && f < FRACTION
    ensures e * FRACTION + f < SIGN
    ensures Magnitude(e * FRACTION + f) == if e == 0 then f else (FRACTION + f) * Pow2(e - 1)
  {
    hide Pow2;
    Parts(e, f);
  }

  lemma NotNan(negative: bool, e: nat, f: nat)
    requires e <= 0x7FF && f < FRACTION && (e == 0x7FF ==> f == 0)
    ensures !IsNan((if negative then SIGN else 0) + (e * FRACTION + f))
  {
    Parts(e, f);
    assert (SIGN + (e * FRACTION + f)) % SIGN == e * FRACTION + f;
  }

  lemma Doubles(e: nat)
    ensures Pow2(0) == 1 && (e > 0 ==> Pow2(e) == 2 * Pow2(e - 1))
  {
  }

  lemma Parts(e: nat, f: nat)
    requires e <= 0x7FF && f < FRACTION
    ensures (e * FRACTION + f) / FRACTION == e && (e * FRACTION + f) % FRACTION == f && e * FRACTION + f < SIGN
    ensures (SIGN + (e * FRACTION + f)) % FRACTION == f
  {
  }

  lemma {:induction false} Pow2Monotone(m: nat, n: nat)
    requires m <= n
    ensures Pow2(m) <= Pow2(n)
    decreases n
  {
    if m < n {
      Pow2Monotone(m, n - 1);
    }
  }

  lemma MagnitudeMonotone(m: nat, n: nat)
    requires m < n < SIGN
    ensures Magnitude(m) < Magnitude(n)
  {
    var e, f := m / FRACTION, m % FRACTION;
    var g, h := n / FRACTION, n % FRACTION;
    if e == g {
      if e > 0 {
        ProductMonotone(FRACTION + f, FRACTION + h, Pow2(e - 1));
      }
    } else {
      assert e < g;
      Pow2Monotone(e, g - 1);
      ProductAtLeast(FRACTION, FRACTION + h, Pow2(e), Pow2(g - 1));
      if e > 0 {
        ProductMonotone(FRACTION + f, 2 * FRACTION, Pow2(e - 1));
        assert 2 * FRACTION * Pow2(e - 1) == FRACTION * Pow2(e);
      }
    }
  }

  lemma ProductMonotone(a: nat, b: nat, p: nat)
    requires a < b && p > 0
    ensures a * p < b * p
  {
  }

  lemma ProductAtLeast(a: nat, b: nat, p: nat, q: nat)
    requires a <= b && 0 < p <= q
    ensures a * p <= b * q
  {
    assert a * p <= b * p;
    assert b * p <= b * q;
  }

  /** `encode_f64_to_cmp_uint64`: set the sign bit of a score that is not negative, invert a negative one. */
  function ToCmp(x: f64): u64 {
    if Value(x) >= 0 then (if x < SIGN then x + SIGN else x) else MAX - x
  }

  /** `decode_cmp_uint64_to_f64`. */
  function FromCmp(code: u64): u64 {
    if code >= SIGN then code - SIGN else MAX - code
  }

  /** Both as bit operations: the sign bit set, all bits inverted; a negative zero stays as it is. */
  lemma ToCmpIs(x: f64)
    ensures x < 0x8000_0000_0000_0000 ==> ToCmp(x) == x + 0x8000_0000_0000_0000
    ensures x == 0x8000_0000_0000_0000 ==> ToCmp(x) == x
    ensures x > 0x8000_0000_0000_0000 ==> ToCmp(x) == 0xFFFF_FFFF_FFFF_FFFF - x
  {
    ValueSign(x);
  }

  lemma ValueSign(x: f64)
    ensures x > SIGN ==> Value(x) < 0
    ensures x == SIGN || x == 0 ==> Value(x) == 0
    ensures 0 < x < SIGN ==> Value(x) > 0
  {
    if x > SIGN {
      MagnitudeMonotone(0, x - SIGN);
    } else if 0 < x < SIGN {
      MagnitudeMonotone(0, x);
    }
  }

  /** The code is a strict order embedding of score values; only the two zeros share a code. */
  lemma ToCmpOrder(x: f64, y: f64)
    ensures ToCmp(x) < ToCmp(y) <==> Value(x) < Value(y)
    ensures ToCmp(x) == ToCmp(y) <==> Value(x) == Value(y)
    ensures ToCmp(x) == ToCmp(y) <==> x == y || (x % SIGN == 0 && y % SIGN == 0)
  {
    hide Magnitude, IsNan;
    ValueSign(x);
    ValueSign(y);
    if x < SIGN && y < SIGN {
      if x < y { MagnitudeMonotone(x, y); } else if y < x { MagnitudeMonotone(y, x); }
    } else if x > SIGN && y > SIGN {
      if x < y { MagnitudeMonotone(x - SIGN, y - SIGN); } else if y < x { MagnitudeMonotone(y - SIGN, x - SIGN); }
    }
  }

  /** Decoding recovers the score, up to the sign of zero, and always its code. */
  lemma FromToCmp(x: f64)
    ensures !IsNan(FromCmp(ToCmp(x)))
    ensures FromCmp(ToCmp(x)) == if x == SIGN then 0 else x
    ensures ToCmp(FromCmp(ToCmp(x))) == ToCmp(x)
  {
    ValueSign(x);
    ValueSign(0);
  }

  /** Moving a bound by one code excludes exactly the scores of the bound's value, and cannot overflow. */
  lemma ExclusiveBound(bound: f64, x: f64)
    ensures 0 < ToCmp(bound) < MAX
    ensures ToCmp(bound) + 1 <= ToCmp(x) <==> Value(bound) < Value(x)
    ensures ToCmp(x) <= ToCmp(bound) - 1 <==> Value(x) < Value(bound)
  {
    ValueSign(bound);
    assert IsNan(MAX) && IsNan(SIGN - 1);
    ToCmpOrder(bound, x);
    ToCmpOrder(x, bound);
  }
}
