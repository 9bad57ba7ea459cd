/**
  Directed rounding of exact decimals (runtime/src/decimal_input.rs, adjust_f32
  and adjust_f64; IEEE 754-2019 section 4.3).  The host parser supplies the
  nearest-even value; the modes RU, RD, RZ and RC move it by at most one unit in
  the last place.
 */
module DirectedRounding {
  import opened Arith
  import opened Powers
  import opened Digits
  import opened BinaryFloat
  import opened ExactDecimals

  datatype RoundMode = Up | Down | Zero | Nearest | Compatible | ProcessorDefined

  /** Widths for which u64 significands and the +-10000 exponent clamp suffice. */
  ghost predicate Supported(f: Format) {
    f.Valid() && f.fractionBits <= 60 && f.Bias() <= 20000
  }

  lemma {:induction false} StandardFormatsSupported()
    ensures Supported(Binary32) && Supported(Binary64)
  {
    StandardFormats();
  }

  // ---- What correct rounding means ----

  function Distance(x: real, y: real): real {
    if x < y then y - x else x - y
  }

  /** m is nearest to a among all magnitudes, infinity standing for 2^(emax+1). */
  ghost predicate IsNearest(f: Format, a: real, m: nat)
    requires f.Valid()
  {
    && m <= f.Infinity()
    && forall k :: 0 <= k <= f.Infinity() ==> Distance(a, Mag(f, m)) <= Distance(a, Mag(f, k))
  }

  ghost predicate IsNearestEven(f: Format, a: real, m: nat)
    requires f.Valid()
  {
    && IsNearest(f, a, m)
    && forall k :: 0 <= k <= f.Infinity() && k != m && Distance(a, Mag(f, m)) == Distance(a, Mag(f, k)) ==> m % 2 == 0
  }

  ghost predicate IsNearestAway(f: Format, a: real, m: nat)
    requires f.Valid()
  {
    && IsNearest(f, a, m)
    && forall k :: 0 <= k <= f.Infinity() && Distance(a, Mag(f, m)) == Distance(a, Mag(f, k)) ==> k <= m
  }

  /** The encodings that are numbers: everything but the NaNs. */
  ghost predicate IsNumber(f: Format, bits: nat) {
    IsEncoding(f, bits) && Magnitude(f, bits) <= f.Infinity()
  }

  /** x <= value(bits), with infinities above and below every real. */
  ghost predicate AtLeast(f: Format, bits: nat, x: real)
    requires f.Valid()
  {
    if IsFinite(f, bits) then Value(f, bits) >= x else !Negative(f, bits)
  }

  ghost predicate AtMost(f: Format, bits: nat, x: real)
    requires f.Valid()
  {
    if IsFinite(f, bits) then Value(f, bits) <= x else Negative(f, bits)
  }

  /** value(y) <= value(z) on the extended real line. */
  ghost predicate NoGreater(f: Format, y: nat, z: nat)
    requires f.Valid()
  {
    if IsFinite(f, y) then AtLeast(f, z, Value(f, y))
    else Negative(f, y) || (!IsFinite(f, z) && !Negative(f, z))
  }

  /** `r` is the correctly rounded encoding of the real x, whose sign (also of
      zero) is `negative`. */
  ghost predicate RoundsTo(f: Format, mode: RoundMode, negative: bool, x: real, r: nat)
    requires f.Valid()
  {
    && IsNumber(f, r)
    && Negative(f, r) == negative
    && match mode
       case Up =>
         AtLeast(f, r, x) && forall y :: IsNumber(f, y) && AtLeast(f, y, x) ==> NoGreater(f, r, y)
       case Down =>
         AtMost(f, r, x) && forall y :: IsNumber(f, y) && AtMost(f, y, x) ==> NoGreater(f, y, r)
       case Zero =>
         var a := if negative then -x else x;
         && IsFinite(f, r) && Mag(f, Magnitude(f, r)) <= a
         && forall k :: 0 <= k < f.Infinity() && Mag(f, k) <= a ==> k <= Magnitude(f, r)
       case Compatible => IsNearestAway(f, if negative then -x else x, Magnitude(f, r))
       case _ => IsNearestEven(f, if negative then -x else x, Magnitude(f, r))
  }

  // ---- Magnitudes around the nearest one ----

  /** m is the least magnitude that reaches a. */
  ghost predicate IsCeiling(f: Format, a: real, m: nat)
    requires f.Valid()
  {
    && m <= f.Infinity()
    && (m < f.Infinity() ==> a <= Mag(f, m))
    && forall k :: 0 <= k < m ==> Mag(f, k) < a
  }

  /** m is the greatest finite magnitude not above a. */
  ghost predicate IsFloor(f: Format, a: real, m: nat)
    requires f.Valid()
  {
    && m < f.Infinity()
    && Mag(f, m) <= a
    && forall k :: m < k < f.Infinity() ==> a < Mag(f, k)
  }

  lemma {:induction false} CeilingFrom(f: Format, a: real, m: nat)
    requires f.Valid() && m <= f.Infinity()
    requires m < f.Infinity() ==> a <= Mag(f, m)
    requires m > 0 ==> Mag(f, m - 1) < a
    ensures IsCeiling(f, a, m)
  {
    forall k | 0 <= k < m
      ensures Mag(f, k) < a
    {
      MagOrder(f, m - 1, k);
    }
  }

  lemma {:induction false} FloorFrom(f: Format, a: real, m: nat)
    requires f.Valid() && m < f.Infinity() && Mag(f, m) <= a
    requires m + 1 < f.Infinity() ==> a < Mag(f, m + 1)
    ensures IsFloor(f, a, m)
  {
    forall k | m < k < f.Infinity()
      ensures a < Mag(f, k)
    {
      MagOrder(f, k, m + 1);
    }
  }

  /** The nearest magnitude is off by less than one step. */
  lemma {:induction false} NearestNeighbours(f: Format, a: real, m: nat)
    requires f.Valid() && IsNearest(f, a, m)
    ensures m < f.Infinity() ==> a < Mag(f, m + 1)
    ensures m > 0 ==> Mag(f, m - 1) < a
  {
    MagOrder(f, m, m + 1);
    if m < f.Infinity() {
      assert Distance(a, Mag(f, m)) <= Distance(a, Mag(f, m + 1));
    }
    if m > 0 {
      MagOrder(f, m - 1, m);
      assert Distance(a, Mag(f, m)) <= Distance(a, Mag(f, m - 1));
    }
  }

  lemma {:induction false} NearestCeiling(f: Format, a: real, m: nat)
    requires f.Valid() && IsNearest(f, a, m)
    ensures m == f.Infinity() ==> IsCeiling(f, a, m)
    ensures m < f.Infinity() ==> IsCeiling(f, a, if a > Mag(f, m) then m + 1 else m)
  {
    NearestNeighbours(f, a, m);
    if m < f.Infinity() && a > Mag(f, m) {
      CeilingFrom(f, a, m + 1);
    } else {
      CeilingFrom(f, a, m);
    }
  }

  lemma {:induction false} NearestFloor(f: Format, a: real, m: nat)
    requires f.Valid() && IsNearest(f, a, m) && a >= 0.0
    ensures f.Infinity() > 0
    ensures m == f.Infinity() ==> IsFloor(f, a, m - 1)
    ensures m < f.Infinity() && a < Mag(f, m) ==> m > 0 && IsFloor(f, a, m - 1)
    ensures m < f.Infinity() && a >= Mag(f, m) ==> IsFloor(f, a, m)
  {
    NearestNeighbours(f, a, m);
    InfinityEven(f);
    MagZero(f);
    if m == f.Infinity() || a < Mag(f, m) {
      FloorFrom(f, a, m - 1);
    } else {
      FloorFrom(f, a, m);
    }
  }

  lemma {:induction false} InfinityEven(f: Format)
    requires f.Valid()
    ensures f.Infinity() > 1 && f.Infinity() % 2 == 0
    ensures f.Infinity() < f.SignBit()
  {
    var h, t := f.Hidden(), Bit(f.exponentBits);
    BitMonotone(1, f.exponentBits);
    EvenPlus(h, Bit(f.fractionBits - 1), t - 1, 0);
    MulMonotone(h, 1, t - 1);
    BitProduct(f.exponentBits, f.fractionBits);
    DistributePred(h, t);
  }

  /** Nearest with the tie to the next magnitude taken: ties away from zero. */
  lemma {:induction false} NearestAwayFrom(f: Format, a: real, m: nat)
    requires f.Valid() && IsNearestEven(f, a, m)
    requires m < f.Infinity()
    ensures IsNearest(f, a, m)
    ensures Distance(a, Mag(f, m)) == Distance(a, Mag(f, m + 1)) ==> m + 1 < f.Infinity() && IsNearestAway(f, a, m + 1)
    ensures Distance(a, Mag(f, m)) != Distance(a, Mag(f, m + 1)) ==> IsNearestAway(f, a, m)
  {
    NearestNeighbours(f, a, m);
    MagOrder(f, m, m + 1);
    if Distance(a, Mag(f, m)) == Distance(a, Mag(f, m + 1)) {
      InfinityEven(f);
      assert m % 2 == 0;
      forall k | m + 1 < k <= f.Infinity()
        ensures Distance(a, Mag(f, k)) > Distance(a, Mag(f, m + 1))
      {
        MagOrder(f, m + 1, k);
      }
    } else {
      forall k | m < k <= f.Infinity()
        ensures Distance(a, Mag(f, k)) > Distance(a, Mag(f, m))
      {
        MagOrder(f, m + 1, k);
      }
    }
  }

  // ---- From magnitudes to signed encodings ----

  lemma {:induction false} CeilingIsUp(f: Format, a: real, m: nat)
    requires f.Valid() && a >= 0.0 && IsCeiling(f, a, m)
    ensures RoundsTo(f, Up, false, a, Encode(f, false, m))
    ensures RoundsTo(f, Down, true, -a, Encode(f, true, m))
  {
    InfinityEven(f);
    EncodeParts(f, false, m);
    EncodeParts(f, true, m);
    forall y | IsNumber(f, y) && AtLeast(f, y, a)
      ensures NoGreater(f, Encode(f, false, m), y)
    {
      CeilingBelow(f, a, m, y);
    }
    forall y | IsNumber(f, y) && AtMost(f, y, -a)
      ensures NoGreater(f, y, Encode(f, true, m))
    {
      CeilingBelow(f, a, m, y);
    }
  }

  lemma {:induction false} CeilingBelow(f: Format, a: real, m: nat, y: nat)
    requires f.Valid() && a >= 0.0 && IsCeiling(f, a, m) && IsNumber(f, y)
    requires AtLeast(f, y, a) || AtMost(f, y, -a)
    ensures IsFinite(f, y) ==> m < f.Infinity() && Mag(f, m) <= Mag(f, Magnitude(f, y))
    ensures a > 0.0 && AtLeast(f, y, a) ==> !Negative(f, y)
    ensures a > 0.0 && AtMost(f, y, -a) ==> Negative(f, y)
    ensures a == 0.0 ==> Mag(f, m) == 0.0 && m < f.Infinity()
  {
    MagZero(f);
    var k := Magnitude(f, y);
    MagOrder(f, 0, k);
    if IsFinite(f, y) {
      assert Mag(f, k) >= a;
      MagOrder(f, k, m);
    }
    InfinityEven(f);
  }

  lemma {:induction false} FloorIsDown(f: Format, a: real, m: nat)
    requires f.Valid() && a >= 0.0 && IsFloor(f, a, m)
    ensures RoundsTo(f, Down, false, a, Encode(f, false, m))
    ensures RoundsTo(f, Up, true, -a, Encode(f, true, m))
    ensures RoundsTo(f, Zero, false, a, Encode(f, false, m))
    ensures RoundsTo(f, Zero, true, -a, Encode(f, true, m))
  {
    InfinityEven(f);
    EncodeParts(f, false, m);
    EncodeParts(f, true, m);
    MagZero(f);
    MagOrder(f, 0, m);
    forall y | IsNumber(f, y) && (AtMost(f, y, a) || AtLeast(f, y, -a))
      ensures AtMost(f, y, a) ==> NoGreater(f, y, Encode(f, false, m))
      ensures AtLeast(f, y, -a) ==> NoGreater(f, Encode(f, true, m), y)
    {
      FloorAbove(f, a, m, y);
    }
  }

  lemma {:induction false} FloorAbove(f: Format, a: real, m: nat, y: nat)
    requires f.Valid() && a >= 0.0 && IsFloor(f, a, m) && IsNumber(f, y)
    ensures IsFinite(f, y) && Mag(f, Magnitude(f, y)) <= a ==> Mag(f, Magnitude(f, y)) <= Mag(f, m)
    ensures 0.0 <= Mag(f, m) && 0.0 <= Mag(f, Magnitude(f, y))
  {
    MagZero(f);
    var k := Magnitude(f, y);
    MagOrder(f, 0, k);
    MagOrder(f, 0, m);
    if IsFinite(f, y) && Mag(f, k) <= a {
      assert k <= m;
      MagOrder(f, m, k);
    }
  }

  // ---- The runtime's adjustment ----

  lemma {:induction false} ZeroMagnitudeBits(f: Format)
    ensures Magnitude(f, 0) == 0
  {
    DivMod(0, f.SignBit(), 0, 0);
  }

  function NextUp(f: Format, bits: nat): nat {
    if Magnitude(f, bits) > f.Infinity() || bits == f.Infinity() then bits
    else if Magnitude(f, bits) == 0 then 1
    else ZeroMagnitudeBits(f); if Negative(f, bits) then bits - 1
    else bits + 1
  }

  function NextDown(f: Format, bits: nat): nat {
    if Magnitude(f, bits) > f.Infinity() || bits == f.SignBit() + f.Infinity() then bits
    else if Magnitude(f, bits) == 0 then f.SignBit() + 1
    else ZeroMagnitudeBits(f); if Negative(f, bits) then bits + 1
    else bits - 1
  }

  /** Away from zero one magnitude up, toward zero one magnitude down; the sign
      bit is never reached. */
  lemma {:induction false} Neighbours(f: Format, m: nat)
    requires f.Valid() && m < f.Infinity()
    ensures NextUp(f, Encode(f, false, m)) == Encode(f, false, m + 1)
    ensures NextDown(f, Encode(f, true, m)) == Encode(f, true, m + 1)
    ensures m > 0 ==> NextUp(f, Encode(f, true, m)) == Encode(f, true, m - 1)
    ensures m > 0 ==> NextDown(f, Encode(f, false, m)) == Encode(f, false, m - 1)
  {
    InfinityEven(f);
    EncodeParts(f, false, m);
    EncodeParts(f, true, m);
  }

  /** The number halfway between two finite encodings of adjacent magnitude. */
  method ExactMidpoint(left: BinaryParts, right: BinaryParts) returns (r: ExactDecimal)
    requires left.significand < 0x4000_0000_0000_0000 && right.significand < 0x4000_0000_0000_0000
    requires -100000 < left.exponent2 < 100000 && -1 <= left.exponent2 - right.exponent2 <= 1
    ensures r.Normal()
    ensures r.Magnitude() == (PartsMagnitude(left) + PartsMagnitude(right)) / 2.0
    ensures r.negative == (left.negative && left.significand + right.significand != 0)
  {
    var exponent2 := if left.exponent2 < right.exponent2 then left.exponent2 else right.exponent2;
    var leftShift, rightShift := left.exponent2 - exponent2, right.exponent2 - exponent2;
    var x, y := NatScale(2, left.significand, leftShift), NatScale(2, right.significand, rightShift);
    assert x < 0x8000_0000_0000_0000 && y < 0x8000_0000_0000_0000;
    r := FromBinaryParts(left.negative, x + y, exponent2 - 1);
    NatScaleReal(2, left.significand, leftShift);
    NatScaleReal(2, right.significand, rightShift);
    ScaleAdd(2, left.significand as real, leftShift, exponent2);
    ScaleAdd(2, right.significand as real, rightShift, exponent2);
    ScaleSum(2, x as real, y as real, exponent2);
    ScaleStep(2, (x + y) as real, exponent2 - 1);
  }

  lemma {:induction false} PartsInRange(f: Format, bits: nat)
    requires Supported(f) && IsEncoding(f, bits) && IsFinite(f, bits)
    ensures var p := Parts(f, bits);
      && p.significand < 0x2000_0000_0000_0000
      && -20100 <= p.exponent2 <= 20100
      && p.negative == Negative(f, bits)
  {
    hide ExponentField, FractionField, Magnitude, Negative;
    SplitFields(f, bits);
    HiddenInRange(f);
    assert Bit(f.exponentBits) == 2 * (f.Bias() + 1);
  }

  lemma {:induction false} HiddenInRange(f: Format)
    requires f.fractionBits <= 60
    ensures f.Hidden() <= 0x1000_0000_0000_0000
  {
    BitMonotone(f.fractionBits, 60);
    assert Bit(10) == 1024;
    hide Bit;
    BitProduct(10, 10);
    BitProduct(20, 10);
    BitProduct(30, 30);
  }

  /** Neighbouring magnitudes have exponents that differ by at most one. */
  lemma {:induction false} PartsAdjacent(f: Format, bits: nat, bits': nat)
    requires Supported(f) && IsEncoding(f, bits) && IsEncoding(f, bits')
    requires Magnitude(f, bits') == Magnitude(f, bits) + 1
    ensures -1 <= Parts(f, bits').exponent2 - Parts(f, bits).exponent2 <= 1
    ensures Parts(f, bits').significand > 0
  {
    SplitFields(f, bits);
    SplitFields(f, bits');
    AdjacentQuotients(f.Hidden(), ExponentField(f, bits), FractionField(f, bits),
                      ExponentField(f, bits'), FractionField(f, bits'));
  }

  lemma {:induction false} AdjacentQuotients(h: nat, e: nat, g: nat, e': nat, g': nat)
    requires g < h && g' < h && h * e' + g' == h * e + g + 1
    ensures (e' == e && g' == g + 1) || e' == e + 1
  {
    if g + 1 < h {
      QuotientUnique(h, e', g', e, g + 1);
    } else {
      DistributePred(h, e);
      QuotientUnique(h, e', g', e + 1, 0);
    }
  }

  method ExactFromEncoding(f: Format, bits: nat) returns (r: ExactDecimal)
    requires Supported(f) && IsEncoding(f, bits) && IsFinite(f, bits)
    ensures r.Normal() && r.Value() == Value(f, bits)
  {
    var parts := Parts(f, bits);
    PartsInRange(f, bits);
    PartsDenoteValue(f, bits);
    r := FromBinaryParts(parts.negative, parts.significand, parts.exponent2);
    ScaleOrder(2, 0.0, parts.significand as real, parts.exponent2);
  }

  function Largest(f: Format, negative: bool): nat
    requires f.Infinity() > 0
  {
    Encode(f, negative, f.Infinity() - 1)
  }

  /** Moves the host parser's nearest-even value to the neighbour the mode asks for. */
  method Adjust(f: Format, exact: ExactDecimal, nearest: nat, mode: RoundMode) returns (r: nat)
    requires Supported(f) && exact.Normal()
    requires IsNumber(f, nearest) && Negative(f, nearest) == exact.negative
    requires IsNearestEven(f, exact.Magnitude(), Magnitude(f, nearest))
    ensures RoundsTo(f, mode, exact.negative, exact.Value(), r)
  {
    hide Mag, RoundsTo, NextUp, NextDown, IsNearestEven, Encode, DigitsValue, Scale;
    ghost var a, m := exact.Magnitude(), Magnitude(f, nearest);
    InfinityEven(f);
    ZeroMagnitude(exact);
    SplitSign(f, nearest);
    DirectedResults(f, exact.negative, a, m);
    if !IsFinite(f, nearest) {
      match mode {
        case Up => r := if exact.negative then Largest(f, true) else nearest;
        case Down => r := if !exact.negative then Largest(f, false) else nearest;
        case Zero => r := Largest(f, exact.negative);
        case _ => r := nearest;
      }
      return;
    }
    var near := ExactFromEncoding(f, nearest);
    var relation := Compare(exact, near);
    Neighbours(f, m);
    if relation == Equal {
      return nearest;
    }
    match mode {
      case Up => r := if relation == Greater then NextUp(f, nearest) else nearest;
      case Down => r := if relation == Less then NextDown(f, nearest) else nearest;
      case Zero =>
        if exact.negative {
          r := if relation == Greater then NextUp(f, nearest) else nearest;
        } else {
          r := if relation == Less then NextDown(f, nearest) else nearest;
        }
      case Compatible => r := AdjustCompatible(f, exact, nearest);
      case _ => r := nearest;
    }
  }

  method AdjustCompatible(f: Format, exact: ExactDecimal, nearest: nat) returns (r: nat)
    requires Supported(f) && exact.Normal()
    requires IsNumber(f, nearest) && IsFinite(f, nearest) && Negative(f, nearest) == exact.negative
    requires IsNearestEven(f, exact.Magnitude(), Magnitude(f, nearest))
    ensures RoundsTo(f, Compatible, exact.negative, exact.Value(), r)
  {
    hide Mag, NextUp, NextDown, IsNearest, IsNearestEven, IsNearestAway, DigitsValue, Scale;
    ghost var a, m := exact.Magnitude(), Magnitude(f, nearest);
    InfinityEven(f);
    SplitSign(f, nearest);
    Neighbours(f, m);
    NearestAwayFrom(f, a, m);
    var away := if exact.negative then NextDown(f, nearest) else NextUp(f, nearest);
    EncodeParts(f, exact.negative, m + 1);
    MagOrder(f, m, m + 1);
    NearestNeighbours(f, a, m);
    r := nearest;
    if IsFinite(f, away) {
      PartsInRange(f, nearest);
      PartsInRange(f, away);
      PartsAdjacent(f, nearest, away);
      PartsDenoteValue(f, nearest);
      PartsDenoteValue(f, away);
      var midpoint := ExactMidpoint(Parts(f, nearest), Parts(f, away));
      var relation := Compare(exact, midpoint);
      if relation == Equal {
        r := away;
      }
    }
  }

  function CeilingOf(f: Format, a: real, m: nat): nat
    requires f.Valid()
  {
    if m == f.Infinity() || a <= Mag(f, m) then m else m + 1
  }

  function FloorOf(f: Format, a: real, m: nat): int
    requires f.Valid()
  {
    if m == f.Infinity() || a < Mag(f, m) then m - 1 else m
  }

  /** Every result in terms of the nearest magnitude. */
  lemma {:induction false} DirectedResults(f: Format, negative: bool, a: real, m: nat)
    requires f.Valid() && a >= 0.0 && IsNearestEven(f, a, m)
    ensures FloorOf(f, a, m) >= 0
    ensures RoundsTo(f, Up, negative, Signed(negative, a),
                     Encode(f, negative, if negative then FloorOf(f, a, m) else CeilingOf(f, a, m)))
    ensures RoundsTo(f, Down, negative, Signed(negative, a),
                     Encode(f, negative, if negative then CeilingOf(f, a, m) else FloorOf(f, a, m)))
    ensures RoundsTo(f, Zero, negative, Signed(negative, a), Encode(f, negative, FloorOf(f, a, m)))
    ensures RoundsTo(f, Nearest, negative, Signed(negative, a), Encode(f, negative, m))
    ensures RoundsTo(f, ProcessorDefined, negative, Signed(negative, a), Encode(f, negative, m))
    ensures m == f.Infinity() || a == Mag(f, m) ==>
      RoundsTo(f, Compatible, negative, Signed(negative, a), Encode(f, negative, m))
  {
    hide Mag, Encode;
    InfinityEven(f);
    NearestCeiling(f, a, m);
    NearestFloor(f, a, m);
    CeilingIsUp(f, a, CeilingOf(f, a, m));
    FloorIsDown(f, a, FloorOf(f, a, m));
    EncodeParts(f, negative, m);
    if m == f.Infinity() || a == Mag(f, m) {
      ExactIsAway(f, a, m);
    }
  }

  lemma {:induction false} ExactIsAway(f: Format, a: real, m: nat)
    requires f.Valid() && IsNearest(f, a, m) && (m == f.Infinity() || a == Mag(f, m))
    ensures IsNearestAway(f, a, m)
  {
    forall k | 0 <= k <= f.Infinity() && Distance(a, Mag(f, m)) == Distance(a, Mag(f, k))
      ensures k <= m
    {
      MagOrder(f, k, m);
    }
  }

  // ---- The nearest-even value exists, and overflows where IEEE 754 says ----

  lemma {:induction false} FloorExists(f: Format, a: real, k: nat) returns (m: nat)
    requires f.Valid() && a >= 0.0
    ensures m <= k && Mag(f, m) <= a
    ensures m < k ==> a < Mag(f, m + 1)
    decreases k
  {
    hide Mag;
    if k == 0 {
      MagZero(f);
      m := 0;
    } else if Mag(f, k) <= a {
      m := k;
    } else {
      m := FloorExists(f, a, k - 1);
    }
  }

  /** Between neighbours m and m+1 only those two can be nearest. */
  lemma {:induction false} Bracketed(f: Format, a: real, m: nat, k: nat)
    requires f.Valid() && m < f.Infinity() && k <= f.Infinity()
    requires Mag(f, m) <= a < Mag(f, m + 1)
    ensures k <= m ==> Distance(a, Mag(f, m)) <= Distance(a, Mag(f, k))
    ensures k < m ==> Distance(a, Mag(f, m)) < Distance(a, Mag(f, k))
    ensures k > m ==> Distance(a, Mag(f, m + 1)) <= Distance(a, Mag(f, k))
    ensures k > m + 1 ==> Distance(a, Mag(f, m + 1)) < Distance(a, Mag(f, k))
  {
    hide Mag;
    MagOrder(f, k, m);
    MagOrder(f, m + 1, k);
  }

  lemma {:induction false} NearestExists(f: Format, a: real) returns (r: nat)
    requires f.Valid() && a >= 0.0
    ensures IsNearestEven(f, a, r)
  {
    hide Mag;
    var top := f.Infinity();
    var m := FloorExists(f, a, top);
    if m == top {
      r := top;
      forall k | 0 <= k < top
        ensures Distance(a, Mag(f, top)) < Distance(a, Mag(f, k))
      {
        MagOrder(f, k, top);
      }
    } else {
      var d, d' := Distance(a, Mag(f, m)), Distance(a, Mag(f, m + 1));
      r := if d < d' || (d == d' && m % 2 == 0) then m else m + 1;
      forall k | 0 <= k <= top
        ensures Distance(a, Mag(f, r)) <= Distance(a, Mag(f, k))
        ensures k != r && Distance(a, Mag(f, r)) == Distance(a, Mag(f, k)) ==> r % 2 == 0
      {
        Bracketed(f, a, m, k);
      }
    }
  }

  /** Rounding overflows exactly from MAX plus half a unit in the last place on. */
  lemma {:induction false} NearestOverflow(f: Format, a: real, m: nat)
    requires f.Valid() && a >= 0.0 && IsNearestEven(f, a, m)
    ensures f.Infinity() > 0
    ensures m == f.Infinity() <==> a >= (Mag(f, f.Infinity() - 1) + Mag(f, f.Infinity())) / 2.0
  {
    hide Mag;
    InfinityEven(f);
    var top := f.Infinity();
    MagOrder(f, top - 1, top);
    assert Distance(a, Mag(f, m)) <= Distance(a, Mag(f, top));
    assert Distance(a, Mag(f, m)) <= Distance(a, Mag(f, top - 1));
    MagOrder(f, m, top - 1);
    MagOrder(f, m, top);
  }
}
