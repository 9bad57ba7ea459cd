/**
  Decimal text to correctly rounded binary (runtime/src/decimal_input.rs,
  parse_f32 and parse_f64).  The host's nearest-even parser is a parameter; what
  it is handed has its exponent clamped, and the field's own exponent may have
  saturated: neither changes the result.
 */
module DecimalInput {
  import opened Wrappers
  import opened MachineInts
  import opened Arith
  import opened Powers
  import opened Digits
  import opened BinaryFloat
  import opened ExactDecimals
  import opened DirectedRounding
  import opened DecimalText

  /** d.ddd * 10^exponent, the form handed to the host parser. */
  datatype Scientific = Scientific(negative: bool, digits: seq<nat>, exponent: int) {
    ghost function Magnitude(): real {
      Scale(10, DigitsValue(digits) as real, exponent - (|digits| - 1))
    }
  }

  function Clamp(x: int): int {
    if x < -10_000 then -10_000 else if x > 10_000 then 10_000 else x
  }

  function CanonicalForParser(d: ExactDecimal): Scientific {
    Scientific(d.negative, d.digits, Clamp(d.exponent + |d.digits| - 1))
  }

  // ---- Magnitudes no supported format can tell apart ----

  ghost function Big(): real {
    Scale(10, 1.0, 9000)
  }

  ghost function Small(): real {
    Scale(10, 1.0, -9000)
  }

  /** Equal, or both beyond every finite value, or both positive and below half
      the least positive value. */
  ghost predicate Agree(a: real, b: real) {
    || a == b
    || (a >= Big() && b >= Big())
    || (0.0 < a <= Small() && 0.0 < b <= Small())
  }

  lemma {:induction false} BigAndSmall(f: Format)
    requires Supported(f)
    ensures Mag(f, f.Infinity()) < Big()
    ensures 0.0 < Small() < Mag(f, 1) / 2.0
  {
    hide Scale, Mag;
    InfinityMag(f);
    LeastMag(f);
    ScaleOrder(2, 0.0, 1.0, 26999);
    ScaleOrder(10, 0.0, 1.0, -9000);
    assert Mag(f, f.Infinity()) < Big() by {
      TenBeatsEight(1.0, 9000);
      ScaleGrows(2, 1.0, f.Bias() + 1, 26999);
      ScaleStep(2, 1.0, 26999);
    }
    assert Small() <= Scale(2, 1.0, -27000) by {
      TenBeatsEight(Small(), 9000);
      TenPowersCancel();
      ScaleAdd(2, 1.0, -27000, 27000);
      ScaleZero(2, 1.0);
      ScaleOrder(2, Scale(2, 1.0, -27000), Small(), 27000);
    }
    var e := f.MinExponent();
    ScaleGrows(2, 1.0, -27000, e - 2);
    ScaleStep(2, 1.0, e - 1);
    ScaleStep(2, 1.0, e - 2);
    ScaleOrder(2, 0.0, 1.0, e - 2);
  }

  lemma {:induction false} ScaleZero(b: Base, x: real)
    ensures Scale(b, x, 0) == x
  {
  }

  lemma {:induction false} TenPowersCancel()
    ensures Scale(10, Small(), 9000) == 1.0
  {
    hide Scale;
    ScaleAdd(10, 1.0, -9000, 9000);
    ScaleZero(10, 1.0);
  }

  lemma {:induction false} InfinityMag(f: Format)
    requires f.Valid()
    ensures Mag(f, f.Infinity()) == Scale(2, 1.0, f.Bias() + 1)
  {
    var e := Bit(f.exponentBits) - 1;
    assert e == 2 * f.Bias() + 1;
    MagAt(f, e, 0);
    BitScale(0, f.fractionBits);
    NatScaleReal(2, 1, f.fractionBits);
    ScaleAdd(2, 1.0, f.fractionBits, e - f.Bias() - f.fractionBits);
  }

  lemma {:induction false} LeastMag(f: Format)
    requires f.Valid()
    ensures Mag(f, 1) == Scale(2, 1.0, f.MinExponent())
  {
    BitMonotone(1, f.fractionBits);
    assert Bit(1) == 2;
    DivMod(1, f.Hidden(), 0, 1);
  }

  lemma {:induction false} NearestOfBig(f: Format, a: real, m: nat)
    requires Supported(f) && a >= Big()
    ensures IsNearest(f, a, m) <==> m == f.Infinity()
    ensures IsNearestEven(f, a, m) <==> m == f.Infinity()
    ensures IsNearestAway(f, a, m) <==> m == f.Infinity()
  {
    hide Mag;
    BigAndSmall(f);
    InfinityEven(f);
    forall k | 0 <= k < f.Infinity()
      ensures Distance(a, Mag(f, k)) > Distance(a, Mag(f, f.Infinity()))
    {
      MagOrder(f, k, f.Infinity());
    }
  }

  lemma {:induction false} NearestOfSmall(f: Format, a: real, m: nat)
    requires Supported(f) && 0.0 < a <= Small()
    ensures IsNearest(f, a, m) <==> m == 0
    ensures IsNearestEven(f, a, m) <==> m == 0
    ensures IsNearestAway(f, a, m) <==> m == 0
  {
    hide Mag;
    BigAndSmall(f);
    InfinityEven(f);
    MagZero(f);
    forall k | 0 < k <= f.Infinity()
      ensures Distance(a, Mag(f, k)) > Distance(a, Mag(f, 0))
    {
      MagOrder(f, k, 1);
    }
  }

  lemma {:induction false} AgreeNearest(f: Format, a: real, b: real, m: nat)
    requires Supported(f) && Agree(a, b)
    ensures IsNearestEven(f, a, m) <==> IsNearestEven(f, b, m)
    ensures IsNearestAway(f, a, m) <==> IsNearestAway(f, b, m)
  {
    hide IsNearest, IsNearestEven, IsNearestAway;
    if a != b {
      if a >= Big() && b >= Big() {
        NearestOfBig(f, a, m);
        NearestOfBig(f, b, m);
      } else {
        NearestOfSmall(f, a, m);
        NearestOfSmall(f, b, m);
      }
    }
  }

  /** No finite magnitude lies between numbers that agree. */
  lemma {:induction false} AgreeCuts(f: Format, a: real, b: real, k: nat)
    requires Supported(f) && Agree(a, b) && k < f.Infinity()
    ensures Mag(f, k) <= a <==> Mag(f, k) <= b
    ensures Mag(f, k) >= a <==> Mag(f, k) >= b
    ensures Mag(f, k) >= 0.0
    ensures a == b || (a > 0.0 && b > 0.0)
  {
    hide Mag;
    BigAndSmall(f);
    MagZero(f);
    MagOrder(f, k, f.Infinity());
    MagOrder(f, 0, k);
    MagOrder(f, 1, k);
    MagOrder(f, k, 1);
    InfinityEven(f);
  }

  lemma {:induction false} AgreeBounds(f: Format, negative: bool, a: real, b: real, y: nat)
    requires Supported(f) && Agree(a, b)
    ensures AtLeast(f, y, Signed(negative, a)) <==> AtLeast(f, y, Signed(negative, b))
    ensures AtMost(f, y, Signed(negative, a)) <==> AtMost(f, y, Signed(negative, b))
  {
    if IsFinite(f, y) {
      hide Mag;
      AgreeCuts(f, a, b, Magnitude(f, y));
    }
  }

  /** Correct rounding cannot tell agreeing numbers apart, in any mode. */
  lemma {:induction false} AgreeRounds(f: Format, mode: RoundMode, negative: bool, a: real, b: real, r: nat)
    requires Supported(f) && Agree(a, b)
    requires RoundsTo(f, mode, negative, Signed(negative, a), r)
    ensures RoundsTo(f, mode, negative, Signed(negative, b), r)
  {
    hide Mag, AtLeast, AtMost, IsNearestEven, IsNearestAway, NoGreater, Agree, Magnitude, Negative;
    AgreeNearest(f, a, b, Magnitude(f, r));
    forall y
      ensures AtLeast(f, y, Signed(negative, a)) <==> AtLeast(f, y, Signed(negative, b))
      ensures AtMost(f, y, Signed(negative, a)) <==> AtMost(f, y, Signed(negative, b))
    {
      AgreeBounds(f, negative, a, b, y);
    }
    forall k: nat | k < f.Infinity()
      ensures Mag(f, k) <= a <==> Mag(f, k) <= b
    {
      AgreeCuts(f, a, b, k);
    }
  }

  // ---- The exponent clamp and saturation ----

  lemma {:induction false} ClampAgrees(d: ExactDecimal)
    requires d.Normal()
    ensures Agree(CanonicalForParser(d).Magnitude(), d.Magnitude())
  {
    hide Scale, NatScale;
    var c := CanonicalForParser(d);
    var sci := d.exponent + |d.digits| - 1;
    if d.IsZero() {
      SingleDigit(0);
      ScaleOrder(10, 0.0, 0.0, d.exponent);
      ScaleOrder(10, 0.0, 0.0, c.exponent - (|c.digits| - 1));
    } else if c.exponent != sci {
      var clamped := ExactDecimal(d.negative, d.digits, c.exponent - (|d.digits| - 1));
      assert clamped.Normal();
      OrderBounds(d);
      OrderBounds(clamped);
      assert clamped.Order() == c.exponent + 1;
      if sci > 10_000 {
        ScaleGrows(10, 1.0, 9000, 10_000);
        ScaleGrows(10, 1.0, 9000, d.Order() - 1);
      } else {
        ScaleGrows(10, 1.0, -9999, -9000);
        ScaleGrows(10, 1.0, d.Order(), -9000);
      }
    }
  }

  const LIMIT: int := 0x4000_0000_0000_0000

  /** A number with n digits and exponent at most -n-9000 is small; one with
      exponent at least 9000 is big. */
  lemma {:induction false} Extremes(v: nat, n: nat, e: int)
    requires 0 < v < NatScale(10, 1, n)
    ensures e >= 9000 ==> Scale(10, v as real, e) >= Big()
    ensures n + e <= -9000 ==> 0.0 < Scale(10, v as real, e) <= Small()
  {
    hide Scale, NatScale;
    ScaleOrder(10, v as real, 1.0, e);
    ScaleOrder(10, 0.0, v as real, e);
    if e >= 9000 {
      ScaleGrows(10, 1.0, 9000, e);
    }
    if n + e <= -9000 {
      NatScaleReal(10, 1, n);
      ScaleOrder(10, v as real, Scale(10, 1.0, n), e);
      ScaleAdd(10, 1.0, n, e);
      ScaleGrows(10, 1.0, n + e, -9000);
    }
  }

  /** Fields and implied-decimal counts below 2^62: saturation only happens far
      outside every format's range. */
  lemma {:induction false} SaturationAgrees(before: nat, n: nat, e: int, trueExponent: int, d: ExactDecimal,
                                            stripped: nat)
    requires d.Normal() && NormalizedFrom(before, n, e, d, stripped)
    requires before < NatScale(10, 1, n) && n < LIMIT && I64_MIN <= e <= I64_MAX
    requires
      || e == trueExponent
      || (e >= 9000 && trueExponent >= 9000)
      || (e <= -LIMIT - 9000 && trueExponent <= -LIMIT - 9000)
    ensures Agree(d.Magnitude(), Scale(10, before as real, trueExponent))
  {
    hide Scale, NatScale, DigitsValue;
    if before == 0 {
      SingleDigit(0);
      ScaleOrder(10, 0.0, 0.0, trueExponent);
      ScaleOrder(10, 0.0, 0.0, d.exponent);
    } else if e + stripped > I64_MAX {
      Extremes(before, n, trueExponent);
      ValueBound(d.digits);
      ValueAtLeast(d.digits);
      Extremes(DigitsValue(d.digits), |d.digits|, d.exponent);
    } else {
      NormalizedKeepsValue(before, e, d, stripped);
      Extremes(before, n, trueExponent);
      Extremes(before, n, e);
    }
  }

  /** The saturated exponent against the one the field denotes. */
  lemma {:induction false} ExponentAgrees(g: Field, implied: nat, scale: int)
    requires WellFormed(g) && |g.fraction| < LIMIT && implied < LIMIT && -0x8000_0000 <= scale < 0x8000_0000
    ensures var e, t := FieldExponent(g, implied, scale), DenotedExponent(g, implied, scale);
      || e == t
      || (e >= 9000 && t >= 9000)
      || (e <= -LIMIT - 9000 && t <= -LIMIT - 9000)
  {
  }

  // ---- End to end ----

  /** A correct nearest-even parser for scientific notation. */
  ghost predicate IsHostParser(f: Format, host: Scientific -> nat)
    requires f.Valid()
  {
    forall s: Scientific :: IsHostResult(f, s, host(s))
  }

  ghost predicate IsHostResult(f: Format, s: Scientific, r: nat)
    requires f.Valid()
  {
    AreDigits(s.digits) && |s.digits| > 0 ==>
      IsNumber(f, r) && Negative(f, r) == s.negative && IsNearestEven(f, s.Magnitude(), Magnitude(f, r))
  }

  /** Every well-formed field with white space around it is read; the result is the
      number it denotes, correctly rounded in the requested mode.  Any text with a
      letter other than e and E gets the host's answer, and nothing else is read. */
  method ParseReal(f: Format, host: Scientific -> nat, hostSpecial: string -> Option<nat>,
                   input: string, impliedDecimals: nat, scaleFactor: int, mode: RoundMode)
    returns (r: Option<nat>)
    requires Supported(f) && IsHostParser(f, host)
    requires |input| < LIMIT && impliedDecimals < LIMIT && -0x8000_0000 <= scaleFactor < 0x8000_0000
    ensures HasSpecialSpelling(input) <==>
      exists i :: 0 <= i < |input| && IsLetter(input[i]) && input[i] != 'e' && input[i] != 'E'
    ensures HasSpecialSpelling(input) ==> r == hostSpecial(Trim(input))
    ensures !HasSpecialSpelling(input) ==> (r.Some? <==> exists a, g, b :: Surrounded(input, a, g, b))
    ensures forall a, g, b :: Surrounded(input, a, g, b) ==>
      && r.Some?
      && RoundsTo(f, mode, DenotesNegative(g),
                  Signed(DenotesNegative(g), DenotedMagnitude(g, impliedDecimals, scaleFactor)), r.value)
  {
    hide Spell, WellFormed, Trim, RoundsTo, NormalizedFrom, IsNearestEven, Agree, Scale, DigitsValue;
    hide HasSpecialSpelling, Surrounded;
    SpecialExactly(input);
    if HasSpecialSpelling(input) {
      forall a, g, b
        ensures !Surrounded(input, a, g, b)
      {
        SurroundedIsNotSpecial(input, a, g, b);
      }
      return hostSpecial(Trim(input));
    }
    ghost var g, stripped;
    var exact;
    exact, g, stripped := Parse(input, impliedDecimals, scaleFactor);
    if exact.None? {
      forall a, h, b
        ensures !Surrounded(input, a, h, b)
      {
        NotSurrounded(input, a, h, b);
      }
      return None;
    }
    SurroundedByTrim(input, g);
    var d := exact.value;
    var s := CanonicalForParser(d);
    var nearest := host(s);
    assert IsHostResult(f, s, nearest);
    ClampAgrees(d);
    AgreeNearest(f, s.Magnitude(), d.Magnitude(), Magnitude(f, nearest));
    var result := Adjust(f, d, nearest, mode);
    FieldAgrees(g, impliedDecimals, scaleFactor, d, stripped);
    AgreeRounds(f, mode, d.negative, d.Magnitude(), DenotedMagnitude(g, impliedDecimals, scaleFactor), result);
    r := Some(result);
    forall a, h, b | Surrounded(input, a, h, b)
      ensures h == g
    {
      SurroundedUnique(input, g, a, h, b);
    }
  }

  lemma {:induction false} SurroundedIsNotSpecial(input: string, a: string, g: Field, b: string)
    requires HasSpecialSpelling(input)
    ensures !Surrounded(input, a, g, b)
  {
    hide HasSpecialSpelling, Spell, Trim, AllWhite;
    if Surrounded(input, a, g, b) {
      TrimField(input, a, g, b);
      TrimKeepsLetters(input);
      FieldsAreNotSpecial(g);
    }
  }

  lemma {:induction false} NotSurrounded(input: string, a: string, g: Field, b: string)
    requires forall h :: WellFormed(h) ==> Trim(input) != Spell(h)
    ensures !Surrounded(input, a, g, b)
  {
    hide Spell, Trim, AllWhite;
    if Surrounded(input, a, g, b) {
      TrimField(input, a, g, b);
    }
  }

  lemma {:induction false} SurroundedByTrim(input: string, g: Field)
    requires WellFormed(g) && Trim(input) == Spell(g)
    ensures exists a, h, b :: Surrounded(input, a, h, b)
  {
    var a, b := TrimRemoves(input);
    assert Surrounded(input, a, g, b);
  }

  lemma {:induction false} SurroundedUnique(input: string, g: Field, a: string, h: Field, b: string)
    requires WellFormed(g) && Trim(input) == Spell(g) && Surrounded(input, a, h, b)
    ensures h == g
  {
    hide Spell, Trim, AllWhite, WellFormed;
    assert WellFormed(h);
    TrimField(input, a, h, b);
    SpellInjective(g, h);
  }

  lemma {:induction false} FieldAgrees(g: Field, implied: nat, scale: int, d: ExactDecimal, stripped: nat)
    requires WellFormed(g) && |g.whole + g.fraction| < LIMIT && implied < LIMIT && -0x8000_0000 <= scale < 0x8000_0000
    requires d.Normal()
    requires NormalizedFrom(DigitsValue(g.whole + g.fraction), |g.whole + g.fraction|,
                            FieldExponent(g, implied, scale), d, stripped)
    ensures Agree(d.Magnitude(), DenotedMagnitude(g, implied, scale))
  {
    hide NormalizedFrom, DigitsValue, Scale, NatScale, Agree;
    var ds := g.whole + g.fraction;
    ValueBound(ds);
    ExponentAgrees(g, implied, scale);
    SaturationAgrees(DigitsValue(ds), |ds|, FieldExponent(g, implied, scale), DenotedExponent(g, implied, scale), d,
                     stripped);
  }
}
