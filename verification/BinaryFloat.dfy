/**
  Binary interchange encodings (IEEE 754-2019 section 3.4) with any exponent and
  fraction width; binary32 and binary64 are the two instances in use.  Bit
  patterns are naturals, masks and shifts are division by powers of two.
 */
module BinaryFloat {
  import opened Arith
  import opened Powers

  datatype Format = Format(exponentBits: nat, fractionBits: nat) {

    ghost predicate Valid() {
      && exponentBits >= 3
      && fractionBits >= 1
      && fractionBits + 1 < Bit(exponentBits - 1)
    }

    function Bias(): (b: nat)
      requires exponentBits >= 1
    {
      Bit(exponentBits - 1) - 1
    }

    /** The implicit leading significand bit, 2^fractionBits. */
    function Hidden(): (h: nat)
      ensures h > 0
    {
      Bit(fractionBits)
    }

    function SignBit(): (s: nat)
      ensures s > 0
    {
      Bit(exponentBits + fractionBits)
    }

    /** The magnitude bits of infinity: exponent field all ones, fraction zero. */
    function Infinity(): nat
    {
      NatProduct(Hidden(), Bit(exponentBits) - 1);
      Hidden() * (Bit(exponentBits) - 1)
    }

    /** Exponent of the least positive value, -149 or -1074. */
    function MinExponent(): int
      requires exponentBits >= 1
    {
      1 - Bias() - fractionBits
    }
  }

  const Binary32 := Format(8, 23)
  const Binary64 := Format(11, 52)

  lemma {:induction false} StandardFormats()
    ensures Binary32.Valid() && Binary32.Bias() == 127 && Binary32.MinExponent() == -149
    ensures Binary64.Valid() && Binary64.Bias() == 1023 && Binary64.MinExponent() == -1074
  {
    assert Bit(7) == 128;
    assert Bit(10) == 1024;
  }

  lemma {:induction false} BitProduct(m: nat, n: nat)
    ensures Bit(m + n) == Bit(m) * Bit(n)
    decreases m
  {
    if m > 0 {
      BitProduct(m - 1, n);
      assert Bit(m + n) == 2 * Bit(m - 1 + n);
    }
  }

  predicate IsEncoding(f: Format, bits: nat) {
    bits < 2 * f.SignBit()
  }

  predicate Negative(f: Format, bits: nat) {
    bits / f.SignBit() % 2 != 0
  }

  function Magnitude(f: Format, bits: nat): (m: nat) {
    bits % f.SignBit()
  }

  function ExponentField(f: Format, bits: nat): nat {
    bits / f.Hidden() % Bit(f.exponentBits)
  }

  function FractionField(f: Format, bits: nat): nat {
    bits % f.Hidden()
  }

  predicate IsFinite(f: Format, bits: nat) {
    Magnitude(f, bits) < f.Infinity()
  }

  function Encode(f: Format, negative: bool, magnitude: nat): nat {
    (if negative then f.SignBit() else 0) + magnitude
  }

  /** An encoding is its sign bit over its magnitude bits. */
  lemma {:induction false} SplitSign(f: Format, bits: nat)
    requires IsEncoding(f, bits)
    ensures Negative(f, bits) <==> bits >= f.SignBit()
    ensures Magnitude(f, bits) < f.SignBit()
    ensures bits == Encode(f, Negative(f, bits), Magnitude(f, bits))
  {
    if bits >= f.SignBit() {
      DivMod(bits, f.SignBit(), 1, bits - f.SignBit());
    } else {
      DivMod(bits, f.SignBit(), 0, bits);
    }
  }

  lemma {:induction false} EncodeParts(f: Format, negative: bool, m: nat)
    requires m < f.SignBit()
    ensures IsEncoding(f, Encode(f, negative, m))
    ensures Negative(f, Encode(f, negative, m)) == negative
    ensures Magnitude(f, Encode(f, negative, m)) == m
  {
    DivMod(Encode(f, negative, m), f.SignBit(), if negative then 1 else 0, m);
  }

  /** The exponent and fraction fields of an encoding, read off its magnitude. */
  lemma {:induction false} SplitFields(f: Format, bits: nat)
    requires IsEncoding(f, bits)
    ensures var m := Magnitude(f, bits);
      && ExponentField(f, bits) == m / f.Hidden() < Bit(f.exponentBits)
      && FractionField(f, bits) == m % f.Hidden()
      && m == f.Hidden() * ExponentField(f, bits) + FractionField(f, bits)
  {
    BitProduct(f.exponentBits, f.fractionBits);
    var h, top, e := f.Hidden(), Bit(f.exponentBits), ExponentField(f, bits);
    DivDiv(bits, h, top);
    DivMod(Magnitude(f, bits), h, e, bits % h);
  }

  // ---- Values ----

  datatype BinaryParts = BinaryParts(negative: bool, significand: nat, exponent2: int)

  /** Sign, significand and power of two of a finite encoding. */
  function Parts(f: Format, bits: nat): BinaryParts
    requires f.exponentBits >= 1
  {
    var exponent := ExponentField(f, bits);
    var fraction := FractionField(f, bits);
    if exponent == 0 then
      BinaryParts(Negative(f, bits), fraction, f.MinExponent())
    else
      BinaryParts(Negative(f, bits), f.Hidden() + fraction, exponent - f.Bias() - f.fractionBits)
  }

  function PartsMagnitude(p: BinaryParts): real {
    Scale(2, p.significand as real, p.exponent2)
  }

  /** How many times the least positive value fits into the value of magnitude
      `m`.  At `Infinity()` this continues the finite scale: 2^(emax+1). */
  function Units(f: Format, m: nat): nat {
    var e, g := m / f.Hidden(), m % f.Hidden();
    if e == 0 then g else NatScale(2, f.Hidden() + g, e - 1)
  }

  /** The real number denoted by magnitude bits `m`. */
  function Mag(f: Format, m: nat): real
    requires f.exponentBits >= 1
  {
    Scale(2, Units(f, m) as real, f.MinExponent())
  }

  function Signed(negative: bool, x: real): real {
    if negative then -x else x
  }

  /** The real number denoted by a finite encoding. */
  function Value(f: Format, bits: nat): real
    requires f.exponentBits >= 1
  {
    Signed(Negative(f, bits), Mag(f, Magnitude(f, bits)))
  }

  lemma {:induction false} PartsDenoteValue(f: Format, bits: nat)
    requires f.Valid() && IsEncoding(f, bits)
    ensures PartsMagnitude(Parts(f, bits)) == Mag(f, Magnitude(f, bits))
  {
    SplitFields(f, bits);
    var e, g := ExponentField(f, bits), FractionField(f, bits);
    if e > 0 {
      NatScaleReal(2, f.Hidden() + g, e - 1);
      ScaleAdd(2, (f.Hidden() + g) as real, e - 1, f.MinExponent());
    }
  }

  function Gap(f: Format, m: nat): (g: nat)
  {
    var e := m / f.Hidden();
    NatScale(2, 1, if e == 0 then 0 else e - 1)
  }

  /** Consecutive magnitudes are one unit in the last place apart, also where
      the exponent field changes. */
  lemma {:induction false} UnitsStep(f: Format, m: nat)
    ensures Gap(f, m) > 0
    ensures Units(f, m + 1) == Units(f, m) + Gap(f, m)
  {
    var h := f.Hidden();
    var e, g := m / h, m % h;
    if g + 1 < h {
      DivMod(m + 1, h, e, g + 1);
      StepInBinade(h + g, e);
    } else {
      DivMod(m + 1, h, e + 1, 0);
      StepToNextBinade(h, e);
    }
  }

  lemma {:induction false} StepInBinade(s: nat, e: nat)
    ensures e > 0 ==> NatScale(2, s + 1, e - 1) == NatScale(2, s, e - 1) + NatScale(2, 1, e - 1)
    ensures e > 0 ==> NatScale(2, 1, e - 1) > 0
  {
    if e > 0 {
      NatScaleSum(2, s, 1, e - 1);
      NatScaleOrder(2, 0, 1, e - 1);
    }
  }

  lemma {:induction false} StepToNextBinade(h: nat, e: nat)
    requires h > 0
    ensures e > 0 ==> NatScale(2, h, e) == NatScale(2, h + h - 1, e - 1) + NatScale(2, 1, e - 1)
    ensures e > 0 ==> NatScale(2, 1, e - 1) > 0
  {
    if e > 0 {
      NatScaleAdd(2, h, 1, e - 1);
      assert NatScale(2, h, 1) == h + h;
      StepInBinade(h + h - 1, e);
    }
  }

  lemma {:induction false} UnitsMonotone(f: Format, i: nat, j: nat)
    requires i < j
    ensures Units(f, i) < Units(f, j)
    decreases j
  {
    UnitsStep(f, j - 1);
    if i < j - 1 {
      UnitsMonotone(f, i, j - 1);
    }
  }

  /** Magnitude bits are ordered like the numbers they denote. */
  lemma {:induction false} MagOrder(f: Format, i: nat, j: nat)
    requires f.exponentBits >= 1
    ensures i < j <==> Mag(f, i) < Mag(f, j)
    ensures i == j <==> Mag(f, i) == Mag(f, j)
  {
    if i < j {
      UnitsMonotone(f, i, j);
    } else if j < i {
      UnitsMonotone(f, j, i);
    }
    ScaleOrder(2, Units(f, i) as real, Units(f, j) as real, f.MinExponent());
  }

  lemma {:induction false} MagZero(f: Format)
    requires f.exponentBits >= 1
    ensures Mag(f, 0) == 0.0
  {
    DivMod(0, f.Hidden(), 0, 0);
    ScaleOrder(2, 0.0, 0.0, f.MinExponent());
  }

  /** Writing past the fraction field continues the binade: a fraction of 2^F
      carries into the exponent and denotes the next power of two. */
  lemma {:induction false} MagAt(f: Format, e: nat, x: nat)
    requires f.Valid() && e >= 1 && x <= f.Hidden()
    ensures Mag(f, f.Hidden() * e + x) == Scale(2, (f.Hidden() + x) as real, e - f.Bias() - f.fractionBits)
  {
    var h := f.Hidden();
    UnitsAt(f, e, x);
    NatScaleReal(2, h + x, e - 1);
    ScaleAdd(2, (h + x) as real, e - 1, f.MinExponent());
  }

  lemma {:induction false} UnitsAt(f: Format, e: nat, x: nat)
    requires e >= 1 && x <= f.Hidden()
    ensures Units(f, f.Hidden() * e + x) == NatScale(2, f.Hidden() + x, e - 1)
  {
    var h := f.Hidden();
    var m := h * e + x;
    if x < h {
      DivMod(m, h, e, x);
    } else {
      DistributePred(h, e);
      DivMod(m, h, e + 1, 0);
      StepToNextBinade(h, e);
      StepInBinade(h + h - 1, e);
    }
  }
}
