/**
  Rounding an encoded number to an integral value by integer arithmetic on its
  bits (runtime/src/ieee.rs, round_integral_bits; IEEE 754-2019 section 5.9).
  Modes are nearest-even (0), toward zero (1), up (2), down (3), nearest-away
  (4); every other tag truncates.
 */
module IntegralRounding {
  import opened Arith
  import opened Powers
  import opened BinaryFloat

  /** Whether the truncated magnitude moves up by one integer, from where the
      discarded part lies relative to a half and the parity of the kept part. */
  predicate Increments(mode: int, negative: bool, part: int, half: int, odd: bool) {
    match mode
    case 0 => part > half || (part == half && odd)
    case 2 => !negative
    case 3 => negative
    case 4 => part >= half
    case _ => false
  }

  function RoundIntegralBits(f: Format, bits: nat, mode: int): nat
    requires f.Valid() && IsEncoding(f, bits)
  {
    var exponent, fraction := ExponentField(f, bits), FractionField(f, bits);
    if exponent == Bit(f.exponentBits) - 1 || (exponent == 0 && fraction == 0) then bits
    else
      var unbiased := exponent - f.Bias();
      if unbiased >= f.fractionBits then bits
      else if unbiased < 0 then RoundBelowOne(f, bits, mode)
      else RoundFraction(bits, Bit(f.fractionBits - unbiased), Negative(f, bits), mode)
  }

  function RoundBelowOne(f: Format, bits: nat, mode: int): nat
    requires f.exponentBits >= 1
  {
    var half := f.Hidden() * (f.Bias() - 1);
    var negative := Negative(f, bits);
    Encode(f, negative,
           if Increments(mode, negative, Magnitude(f, bits), half, false) then f.Hidden() * f.Bias() else 0)
  }

  function RoundFraction(bits: nat, integerUnit: nat, negative: bool, mode: int): nat
    requires integerUnit > 0
  {
    var discarded := bits % integerUnit;
    if discarded == 0 then bits
    else
      var truncated := bits / integerUnit;
      integerUnit * (if Increments(mode, negative, discarded, integerUnit / 2, truncated % 2 != 0)
                     then truncated + 1 else truncated)
  }

  /** `n` is the magnitude of the integer that `mode` selects for a number of
      magnitude `v` and the given sign. */
  ghost predicate IsRounded(mode: int, negative: bool, v: real, n: nat) {
    var r := n as real;
    match mode
    case 0 => -0.5 <= v - r <= 0.5 && (v - r == 0.5 || r - v == 0.5 ==> n % 2 == 0)
    case 2 => if negative then r <= v < r + 1.0 else r - 1.0 < v <= r
    case 3 => if negative then r - 1.0 < v <= r else r <= v < r + 1.0
    case 4 => r - 0.5 <= v < r + 0.5
    case _ => r <= v < r + 1.0
  }

  lemma {:induction false} RoundedIsUnique(mode: int, negative: bool, v: real, m: nat, n: nat)
    requires IsRounded(mode, negative, v, m) && IsRounded(mode, negative, v, n)
    ensures m == n
  {
    var x, y := m as real, n as real;
    assert -1.0 <= x - y <= 1.0;
  }

  // ---- Fixed-point facts ----

  /** q * 2^k / 2^k == q */
  lemma {:induction false} ScaleBitDown(k: nat, x: nat)
    ensures Scale(2, NatScale(2, x, k) as real, 0 - k) == x as real
  {
    NatScaleReal(2, x, k);
    ScaleAdd(2, x as real, k, 0 - k);
  }

  lemma {:induction false} BitTimes(q: nat, k: nat)
    ensures NatScale(2, q, k) == Bit(k) * q
    decreases k
  {
    if k > 0 {
      BitTimes(q, k - 1);
      assert Bit(k) * q == 2 * (Bit(k - 1) * q);
    }
  }

  /** A significand q*2^k + d read with k fraction bits is q + d/2^k. */
  lemma {:induction false} FixedPoint(k: nat, q: nat, d: nat)
    requires k >= 1 && d < Bit(k)
    ensures var v := Scale(2, (Bit(k) * q + d) as real, 0 - k);
            var t := v - q as real;
      && 0.0 <= t < 1.0
      && (t == 0.0 <==> d == 0)
      && (t < 0.5 <==> d < Bit(k) / 2)
      && (t == 0.5 <==> d == Bit(k) / 2)
  {
    BitTimes(q, k);
    ScaleBitDown(k, q);
    ScaleSum(2, (Bit(k) * q) as real, d as real, 0 - k);
    var t := Scale(2, d as real, 0 - k);
    assert Scale(2, Bit(k) as real, 0 - k) == 1.0 by {
      BitTimes(1, k);
      ScaleBitDown(k, 1);
    }
    ScaleOrder(2, d as real, Bit(k) as real, 0 - k);
    ScaleOrder(2, d as real, 0.0, 0 - k);
    ScaleOrder(2, 0.0, d as real, 0 - k);
    var h := Bit(k - 1);
    assert Bit(k) / 2 == h;
    ScaleSum(2, h as real, h as real, 0 - k);
    assert h as real + h as real == Bit(k) as real;
    assert Scale(2, h as real, 0 - k) == 0.5;
    ScaleOrder(2, d as real, h as real, 0 - k);
  }

  // ---- The three ranges ----

  /** |x| < 1: the result is zero or one. */
  lemma {:induction false} BelowOne(f: Format, m: nat)
    requires f.Valid() && m < f.Hidden() * f.Bias()
    ensures Mag(f, f.Hidden() * f.Bias()) == 1.0
    ensures 0.0 <= Mag(f, m) < 1.0
    ensures m == 0 <==> Mag(f, m) == 0.0
    ensures m > f.Hidden() * (f.Bias() - 1) <==> Mag(f, m) > 0.5
    ensures m >= f.Hidden() * (f.Bias() - 1) <==> Mag(f, m) >= 0.5
  {
    var h := f.Hidden();
    BiasIsOdd(f);
    assert Mag(f, h * f.Bias() + 0) == 1.0 by {
      MagAt(f, f.Bias(), 0);
      BitTimes(1, f.fractionBits);
      ScaleBitDown(f.fractionBits, 1);
    }
    assert Mag(f, h * (f.Bias() - 1) + 0) == 0.5 by {
      MagAt(f, f.Bias() - 1, 0);
      BitTimes(1, f.fractionBits);
      ScaleBitDown(f.fractionBits, 1);
      ScaleStep(2, h as real, -1 - f.fractionBits);
    }
    MagOrder(f, m, h * f.Bias());
    MagOrder(f, m, h * (f.Bias() - 1));
    MagOrder(f, h * (f.Bias() - 1), m);
    MagZero(f);
    MagOrder(f, 0, m);
  }

  lemma {:induction false} BiasIsOdd(f: Format)
    requires f.Valid()
    ensures f.Bias() % 2 == 1 && f.Bias() >= 3
    ensures f.Bias() + f.fractionBits + 1 < Bit(f.exponentBits)
  {
    var p := Bit(f.exponentBits - 2);
    BitMonotone(1, f.exponentBits - 2);
    assert Bit(1) == 2;
    assert f.Bias() == 2 * p - 1 == 2 * (p - 1) + 1;
  }

  /** The lowest kept bit is the integer part's parity.  For u > 0 it is a
      fraction bit; for u == 0 it is the exponent's low bit, which agrees with
      the hidden bit because the bias is odd. */
  lemma {:induction false} KeptParity(c: nat, u: nat, s: nat, p: nat)
    requires c == Bit(u) * s + p && p < Bit(u)
    requires u == 0 ==> s % 2 == 1
    ensures c % 2 == (Bit(u) + p) % 2
  {
    if u == 0 {
      assert Bit(u) == 1 && p == 0 && c == s;
    } else {
      EvenPlus(Bit(u), Bit(u - 1), s, p);
      EvenPlus(Bit(u), Bit(u - 1), 1, p);
    }
  }

  ghost predicate Correct(f: Format, bits: nat, mode: int, r: nat)
    requires f.Valid()
  {
    && IsEncoding(f, r)
    && Negative(f, r) == Negative(f, bits)
    && IsFinite(f, r)
    && exists n: nat ::
         && IsInteger(Mag(f, Magnitude(f, r)), n)
         && IsRounded(mode, Negative(f, bits), Mag(f, Magnitude(f, bits)), n)
  }

  ghost predicate IsInteger(x: real, n: nat) {
    x == n as real
  }

  /** Comparing the encoding with that of one half is comparing the value. */
  lemma {:induction false} SmallRounds(mode: int, negative: bool, m: nat, half: int, v: real)
    requires 0.0 < v < 1.0 && (m > half <==> v > 0.5) && (m >= half <==> v >= 0.5)
    ensures IsRounded(mode, negative, v, if Increments(mode, negative, m, half, false) then 1 else 0)
  {
  }

  lemma {:induction false} SmallDispatch(f: Format, bits: nat, mode: int)
    requires f.Valid() && IsEncoding(f, bits) && ExponentField(f, bits) < f.Bias()
    ensures Magnitude(f, bits) < f.Hidden() * f.Bias()
    ensures RoundIntegralBits(f, bits, mode) == if Magnitude(f, bits) == 0 then bits else RoundBelowOne(f, bits, mode)
  {
    hide RoundBelowOne, RoundFraction, Magnitude;
    SplitFields(f, bits);
    BiasIsOdd(f);
    var e := ExponentField(f, bits);
    HighPart(f.Hidden(), e, FractionField(f, bits), f.Bias());
    SumIsZero(f.Hidden(), e, FractionField(f, bits));
  }

  lemma {:induction false} SumIsZero(h: nat, e: nat, g: nat)
    requires h > 0
    ensures h * e + g == 0 <==> e == 0 && g == 0
  {
    if e > 0 {
      PositiveProduct(h, e);
    }
  }

  lemma {:induction false} SmallCorrect(f: Format, bits: nat, mode: int)
    requires f.Valid() && IsEncoding(f, bits)
    requires ExponentField(f, bits) < f.Bias()
    ensures Correct(f, bits, mode, RoundIntegralBits(f, bits, mode))
  {
    hide Correct, RoundIntegralBits, Mag, IsRounded, Increments, IsEncoding, ExponentField, Encode, Negative;
    var negative, m := Negative(f, bits), Magnitude(f, bits);
    SmallDispatch(f, bits, mode);
    BelowOne(f, m);
    ExponentInRange(f, f.Bias());
    MagZero(f);
    if m == 0 {
      SplitSign(f, bits);
      ZeroRounds(mode, negative);
      CorrectFrom(f, bits, mode, 0, 0);
    } else {
      SmallRounds(mode, negative, m, f.Hidden() * (f.Bias() - 1), Mag(f, m));
      if Increments(mode, negative, m, f.Hidden() * (f.Bias() - 1), false) {
        CorrectFrom(f, bits, mode, f.Hidden() * f.Bias(), 1);
      } else {
        CorrectFrom(f, bits, mode, 0, 0);
      }
    }
  }

  lemma {:induction false} ZeroRounds(mode: int, negative: bool)
    ensures IsRounded(mode, negative, 0.0, 0)
  {
  }

  lemma {:induction false} ExponentInRange(f: Format, e: nat)
    requires f.Valid() && e <= f.Bias() + f.fractionBits
    ensures f.Hidden() * e + f.Hidden() <= f.Infinity() < f.SignBit()
  {
    BiasIsOdd(f);
    BitProduct(f.exponentBits, f.fractionBits);
    MulMonotone(f.Hidden(), e + 1, Bit(f.exponentBits) - 1);
    DistributePred(f.Hidden(), Bit(f.exponentBits));
    DistributePred(f.Hidden(), e);
  }

  lemma {:induction false} LargeCorrect(f: Format, bits: nat, mode: int)
    requires f.Valid() && IsEncoding(f, bits) && IsFinite(f, bits)
    requires ExponentField(f, bits) >= f.Bias() + f.fractionBits
    ensures Correct(f, bits, mode, bits)
  {
    SplitFields(f, bits);
    BiasIsOdd(f);
    var e, g := ExponentField(f, bits), FractionField(f, bits);
    var n := NatScale(2, f.Hidden() + g, e - f.Bias() - f.fractionBits);
    MagAt(f, e, g);
    NatScaleReal(2, f.Hidden() + g, e - f.Bias() - f.fractionBits);
    assert IsInteger(Mag(f, Magnitude(f, bits)), n);
    assert IsRounded(mode, Negative(f, bits), n as real, n);
  }

  /** Bits and value of the range 1 <= |x| < 2^F side by side: the integer part
      is q, the discarded part d. */
  lemma {:induction false} MiddleSplit(f: Format, bits: nat, k: nat) returns (q: nat, d: nat)
    requires f.Valid() && IsEncoding(f, bits) && 1 <= k <= f.fractionBits
    requires ExponentField(f, bits) == f.Bias() + f.fractionBits - k
    ensures d == bits % Bit(k) == FractionField(f, bits) % Bit(k) <= FractionField(f, bits)
    ensures f.Hidden() + FractionField(f, bits) == Bit(k) * q + d
    ensures FractionField(f, bits) - d + Bit(k) <= f.Hidden()
    ensures bits / Bit(k) % 2 == q % 2
  {
    var u := f.fractionBits - k;
    var unit, w, top := Bit(k), Bit(u), Bit(f.exponentBits);
    BitProduct(u, k);
    BiasIsOdd(f);
    DivDiv(bits, unit, w);
    var c;
    c, d := Euclid(bits, unit);
    var s, p := Euclid(c, w);
    q := w + p;
    SplitField(FractionField(f, bits), unit, w, p, d);
    EvenRemainder(s, top, Bit(f.exponentBits - 1));
    KeptParity(c, u, s, p);
  }

  lemma {:induction false} SplitField(g: nat, unit: nat, w: nat, p: nat, d: nat)
    requires g == unit * p + d && d < unit && p < w
    ensures g % unit == d <= g
    ensures w * unit + g == unit * (w + p) + d
    ensures g - d + unit <= w * unit
  {
    DivMod(g, unit, p, d);
    MulMonotone(unit, p + 1, w);
    DistributePred(unit, p);
  }

  lemma {:induction false} MiddleCorrect(f: Format, bits: nat, mode: int)
    requires f.Valid() && IsEncoding(f, bits)
    requires f.Bias() <= ExponentField(f, bits) < f.Bias() + f.fractionBits
    ensures Correct(f, bits, mode, RoundIntegralBits(f, bits, mode))
  {
    var k := f.fractionBits - (ExponentField(f, bits) - f.Bias());
    var q, d := MiddleSplit(f, bits, k);
    var up := d != 0 && Increments(mode, Negative(f, bits), d, Bit(k) / 2, q % 2 != 0);
    var x := StepUp(f.Hidden(), FractionField(f, bits), Bit(k), q, d, up);
    MiddleBits(f, bits, mode, k, d, up);
    MiddleDenotes(f, bits, mode, k, q, d, x, up);
  }

  lemma {:induction false} StepUp(h: nat, g: nat, unit: nat, q: nat, d: nat, up: bool) returns (x: nat)
    requires d <= g < h && h + g == unit * q + d && g - d + unit <= h
    ensures x == (g - d + if up then unit else 0) <= h
    ensures h + x == unit * if up then q + 1 else q
  {
    x := g - d + if up then unit else 0;
    DistributePred(unit, q);
  }

  lemma {:induction false} MiddleDenotes(f: Format, bits: nat, mode: int, k: nat, q: nat, d: nat, x: nat, up: bool)
    requires f.Valid() && IsEncoding(f, bits) && 1 <= k <= f.fractionBits && d < Bit(k)
    requires ExponentField(f, bits) == f.Bias() + f.fractionBits - k
    requires up == (d != 0 && Increments(mode, Negative(f, bits), d, Bit(k) / 2, q % 2 != 0))
    requires f.Hidden() + FractionField(f, bits) == Bit(k) * q + d
    requires x <= f.Hidden() && f.Hidden() + x == Bit(k) * if up then q + 1 else q
    ensures Correct(f, bits, mode, Encode(f, Negative(f, bits), f.Hidden() * ExponentField(f, bits) + x))
  {
    hide *;
    var n := if up then q + 1 else q;
    MiddleValue(f, ExponentField(f, bits), k, n, x);
    MiddleMag(f, bits, k, q, d);
    MiddleRounds(mode, Negative(f, bits), k, q, d);
    CorrectFrom(f, bits, mode, f.Hidden() * ExponentField(f, bits) + x, n);
  }

  lemma {:induction false} MiddleMag(f: Format, bits: nat, k: nat, q: nat, d: nat)
    requires f.Valid() && IsEncoding(f, bits) && 1 <= k <= f.fractionBits
    requires ExponentField(f, bits) == f.Bias() + f.fractionBits - k
    requires f.Hidden() + FractionField(f, bits) == Bit(k) * q + d
    ensures Mag(f, Magnitude(f, bits)) == Scale(2, (Bit(k) * q + d) as real, 0 - k)
  {
    hide Mag, Scale, ExponentField, FractionField, Magnitude, Bit;
    BiasIsOdd(f);
    SplitFields(f, bits);
    MagAt(f, ExponentField(f, bits), FractionField(f, bits));
  }

  lemma {:induction false} MiddleBits(f: Format, bits: nat, mode: int, k: nat, d: nat, up: bool)
    requires f.Valid() && IsEncoding(f, bits) && 1 <= k <= f.fractionBits
    requires ExponentField(f, bits) == f.Bias() + f.fractionBits - k
    requires d == bits % Bit(k) <= FractionField(f, bits)
    requires up == (d != 0 && Increments(mode, Negative(f, bits), d, Bit(k) / 2, bits / Bit(k) % 2 != 0))
    ensures RoundIntegralBits(f, bits, mode)
         == Encode(f, Negative(f, bits),
                   f.Hidden() * ExponentField(f, bits) + FractionField(f, bits) - d + if up then Bit(k) else 0)
  {
    BiasIsOdd(f);
    SplitSign(f, bits);
    SplitFields(f, bits);
    FractionResult(bits, Bit(k), Negative(f, bits), mode, up);
  }

  lemma {:induction false} MiddleValue(f: Format, e: nat, k: nat, n: nat, x: nat)
    requires f.Valid() && 1 <= k <= f.fractionBits && e == f.Bias() + f.fractionBits - k
    requires x <= f.Hidden() && f.Hidden() + x == Bit(k) * n
    ensures f.Hidden() * e + x < f.Infinity()
    ensures IsInteger(Mag(f, f.Hidden() * e + x), n)
  {
    MiddleInRange(f, e, x);
    MagAt(f, e, x);
    FixedPoint(k, n, 0);
  }

  lemma {:induction false} MiddleInRange(f: Format, e: nat, x: nat)
    requires f.Valid() && e < f.Bias() + f.fractionBits && x <= f.Hidden()
    ensures f.Hidden() * e + x < f.Infinity()
  {
    BiasIsOdd(f);
    ExponentInRange(f, e + 1);
    DistributePred(f.Hidden(), e);
  }

  lemma {:induction false} CorrectFrom(f: Format, bits: nat, mode: int, m: nat, n: nat)
    requires f.Valid() && IsEncoding(f, bits) && m < f.Infinity() && IsInteger(Mag(f, m), n)
    requires IsRounded(mode, Negative(f, bits), Mag(f, Magnitude(f, bits)), n)
    ensures Correct(f, bits, mode, Encode(f, Negative(f, bits), m))
  {
    ExponentInRange(f, 0);
    EncodeParts(f, Negative(f, bits), m);
  }

  lemma {:induction false} FractionResult(bits: nat, unit: nat, negative: bool, mode: int, up: bool)
    requires unit > 0
    requires up == (bits % unit != 0 && Increments(mode, negative, bits % unit, unit / 2, bits / unit % 2 != 0))
    ensures RoundFraction(bits, unit, negative, mode) == bits - bits % unit + if up then unit else 0
  {
    assert bits == unit * (bits / unit) + bits % unit;
    assert unit * (bits / unit + 1) == unit * (bits / unit) + unit;
  }

  lemma {:induction false} MiddleRounds(mode: int, negative: bool, k: nat, q: nat, d: nat)
    requires k >= 1 && d < Bit(k)
    ensures IsRounded(mode, negative, Scale(2, (Bit(k) * q + d) as real, 0 - k),
                      if d != 0 && Increments(mode, negative, d, Bit(k) / 2, q % 2 != 0) then q + 1 else q)
  {
    FixedPoint(k, q, d);
    assert (q + 1) as real == q as real + 1.0;
  }

  /** The rounded encoding denotes the integer the mode selects, with the sign
      kept, for every finite encoding and every mode; infinities and NaNs pass
      through unchanged. */
  lemma {:induction false} RoundIntegralCorrect(f: Format, bits: nat, mode: int)
    requires f.Valid() && IsEncoding(f, bits)
    ensures IsFinite(f, bits) ==> Correct(f, bits, mode, RoundIntegralBits(f, bits, mode))
    ensures !IsFinite(f, bits) ==> RoundIntegralBits(f, bits, mode) == bits
  {
    SplitFields(f, bits);
    BiasIsOdd(f);
    FiniteExponent(f, bits);
    if IsFinite(f, bits) {
      var e := ExponentField(f, bits);
      if e < f.Bias() {
        SmallCorrect(f, bits, mode);
      } else if e >= f.Bias() + f.fractionBits {
        LargeCorrect(f, bits, mode);
      } else {
        MiddleCorrect(f, bits, mode);
      }
    }
  }

  lemma {:induction false} FiniteExponent(f: Format, bits: nat)
    requires f.Valid() && IsEncoding(f, bits)
    ensures IsFinite(f, bits) <==> ExponentField(f, bits) < Bit(f.exponentBits) - 1
  {
    SplitFields(f, bits);
    HighPart(f.Hidden(), ExponentField(f, bits), FractionField(f, bits), Bit(f.exponentBits) - 1);
  }

  /** Rounding a rounded encoding again, in any mode, returns the same bits. */
  lemma {:induction false} RoundIntegralIdempotent(f: Format, bits: nat, mode: int, mode': int)
    requires f.Valid() && IsEncoding(f, bits)
    ensures IsEncoding(f, RoundIntegralBits(f, bits, mode))
    ensures RoundIntegralBits(f, RoundIntegralBits(f, bits, mode), mode') == RoundIntegralBits(f, bits, mode)
  {
    RoundIntegralCorrect(f, bits, mode);
    IntegersRoundToThemselves(f, RoundIntegralBits(f, bits, mode), mode');
  }

  lemma {:induction false} IntegersRoundToThemselves(f: Format, bits: nat, mode: int)
    requires f.Valid() && IsEncoding(f, bits)
    requires IsFinite(f, bits) ==> exists n: nat :: IsInteger(Mag(f, Magnitude(f, bits)), n)
    ensures RoundIntegralBits(f, bits, mode) == bits
  {
    RoundIntegralCorrect(f, bits, mode);
    if IsFinite(f, bits) {
      IntegersStay(f, bits, mode, RoundIntegralBits(f, bits, mode));
    }
  }

  lemma {:induction false} IntegersStay(f: Format, bits: nat, mode: int, r: nat)
    requires f.Valid() && IsEncoding(f, bits) && Correct(f, bits, mode, r)
    requires exists n: nat :: IsInteger(Mag(f, Magnitude(f, bits)), n)
    ensures r == bits
  {
    var v := Mag(f, Magnitude(f, bits));
    var n: nat :| IsInteger(v, n);
    var n': nat :| IsInteger(Mag(f, Magnitude(f, r)), n') && IsRounded(mode, Negative(f, bits), v, n');
    RoundedIsUnique(mode, Negative(f, bits), v, n, n');
    MagOrder(f, Magnitude(f, r), Magnitude(f, bits));
    SplitSign(f, r);
    SplitSign(f, bits);
  }
}
