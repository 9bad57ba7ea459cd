/**
  Exact decimal numbers: sign, digit string and power of ten
  (runtime/src/decimal_input.rs, ExactDecimal).  Exponents are i64 values with
  saturating arithmetic.
 */
module ExactDecimals {
  import opened MachineInts
  import opened Powers
  import opened Digits
  import opened DecimalIntegers

  datatype Ordering = Less | Equal | Greater {
    function Reverse(): Ordering {
      match this
      case Less => Greater
      case Equal => Equal
      case Greater => Less
    }
  }

  datatype ExactDecimal = ExactDecimal(negative: bool, digits: seq<nat>, exponent: int) {

    predicate IsZero() {
      digits == [0]
    }

    /** "0" with exponent zero, or no leading and no trailing zero. */
    ghost predicate Normal() {
      && AreDigits(digits) && |digits| > 0
      && (IsZero() ==> exponent == 0)
      && (!IsZero() ==> digits[0] != 0 && digits[|digits| - 1] != 0)
    }

    /** Decimal exponent of the position just above the leading digit. */
    function Order(): int {
      |digits| + exponent
    }

    ghost function Magnitude(): real {
      Scale(10, DigitsValue(digits) as real, exponent)
    }

    ghost function Value(): real {
      if negative then -Magnitude() else Magnitude()
    }
  }

  // ---- Normalization ----

  /** Strips leading and trailing zeros.  `stripped` trailing zeros moved into
      the exponent, which saturates. */
  method Normalized(negative: bool, digits: seq<nat>, exponent: int) returns (r: ExactDecimal, ghost stripped: nat)
    requires AreDigits(digits) && I64_MIN <= exponent <= I64_MAX
    ensures r.Normal() && r.negative == negative
    ensures DigitsValue(digits) == 0 <==> r.IsZero()
    ensures DigitsValue(digits) > 0 ==>
      && |r.digits| + stripped <= |digits|
      && DigitsValue(digits) == NatScale(10, DigitsValue(r.digits), stripped)
      && r.exponent == Saturate(exponent + stripped)
  {
    var first := 0;
    while first < |digits| && digits[first] == 0
      invariant 0 <= first <= |digits|
      invariant forall i :: 0 <= i < first ==> digits[i] == 0
    {
      first := first + 1;
    }
    stripped := 0;
    if first == |digits| {
      ValueZeros(digits);
      return ExactDecimal(negative, [0], 0), 0;
    }
    DropLeadingZeros(digits, first);
    var ds := digits[first..];
    ghost var kept := ds;
    ValueAtLeast(ds);
    var e := exponent;
    while ds[|ds| - 1] == 0
      invariant 0 < |ds| && |ds| + stripped == |kept| && ds == kept[..|ds|] && ds[0] != 0
      invariant DigitsValue(kept) == NatScale(10, DigitsValue(ds), stripped)
      invariant e == Saturate(exponent + stripped)
      decreases |ds|
    {
      DropTrailingZero(ds, stripped);
      ds := ds[..|ds| - 1];
      e := Saturate(e + 1);
      stripped := stripped + 1;
    }
    r := ExactDecimal(negative, ds, e);
  }

  lemma {:induction false} DropLeadingZeros(digits: seq<nat>, first: nat)
    requires first <= |digits| && forall i :: 0 <= i < first ==> digits[i] == 0
    ensures DigitsValue(digits) == DigitsValue(digits[first..])
  {
    assert digits == digits[..first] + digits[first..];
    ValueZeros(digits[..first]);
    ValueConcat(digits[..first], digits[first..]);
    NatScaleOrder(10, 0, 0, |digits| - first);
  }

  lemma {:induction false} DropTrailingZero(ds: seq<nat>, k: nat)
    requires |ds| > 0 && ds[|ds| - 1] == 0
    ensures NatScale(10, DigitsValue(ds), k) == NatScale(10, DigitsValue(ds[..|ds| - 1]), k + 1)
  {
    var v := DigitsValue(ds[..|ds| - 1]);
    NatScaleAdd(10, v, 1, k);
    assert NatScale(10, v, 1) == 10 * v;
  }

  /** Where the exponent does not saturate, normalizing keeps the number. */
  lemma {:induction false} NormalizedKeepsValue(before: nat, exponent: int, r: ExactDecimal, stripped: nat)
    requires before == NatScale(10, DigitsValue(r.digits), stripped)
    requires r.exponent == exponent + stripped
    ensures r.Magnitude() == Scale(10, before as real, exponent)
  {
    var v := DigitsValue(r.digits);
    NatScaleReal(10, v, stripped);
    ScaleAdd(10, v as real, stripped, exponent);
  }

  // ---- Exact expansion of a binary number ----

  /** The decimal number equal to significand * 2^exponent2. */
  method FromBinaryParts(negative: bool, significand: nat, exponent2: int) returns (r: ExactDecimal)
    requires significand < U128 && -0x8000_0000 <= exponent2 < 0x8000_0000
    ensures r.Normal()
    ensures r.Magnitude() == Scale(2, significand as real, exponent2)
    ensures r.negative == (negative && significand != 0)
  {
    if significand == 0 {
      r := ExactDecimal(false, [0], 0);
      ScaleOrder(2, 0.0, 0.0, exponent2);
      SingleDigit(0);
      return;
    }
    var integer := new DecimalInteger(significand);
    var exponent := 0;
    ghost var done := 0;
    if exponent2 >= 0 {
      var remaining := exponent2;
      while remaining >= 29
        invariant 0 <= remaining <= exponent2 && done == exponent2 - remaining
        invariant integer.Valid() && integer.Value() == NatScale(2, significand, done)
      {
        TwentyNineTwos(significand, done);
        integer.MultiplySmall(0x2000_0000);
        done := done + 29;
        remaining := remaining - 29;
      }
      for i := 0 to remaining
        invariant integer.Valid() && integer.Value() == NatScale(2, significand, exponent2 - remaining + i)
      {
        integer.MultiplySmall(2);
      }
    } else {
      var remaining := -exponent2;
      while remaining >= 13
        invariant 0 <= remaining <= -exponent2 && done == -exponent2 - remaining
        invariant integer.Valid() && integer.Value() == NatScale(5, significand, done)
      {
        ThirteenFives(significand, done);
        integer.MultiplySmall(1_220_703_125);
        done := done + 13;
        remaining := remaining - 13;
      }
      for i := 0 to remaining
        invariant integer.Valid() && integer.Value() == NatScale(5, significand, -exponent2 - remaining + i)
      {
        integer.MultiplySmall(5);
      }
      exponent := exponent2;
    }
    var digits := integer.ToDecimalString();
    ghost var k: nat, b: Base := if exponent2 >= 0 then exponent2 else -exponent2, if exponent2 >= 0 then 2 else 5;
    assert DigitsValue(digits) == NatScale(b, significand, k);
    ExpansionLength(digits, significand, b, k);
    NatScaleOrder(b, 0, significand, k);
    ghost var stripped;
    r, stripped := Normalized(negative, digits, exponent);
    NormalizedKeepsValue(DigitsValue(digits), exponent, r, stripped);
    ExpansionValue(significand, exponent2);
  }

  lemma {:induction false} TwentyNineTwos(x: nat, done: nat)
    ensures NatScale(2, x, done + 29) == NatScale(2, x, done) * 0x2000_0000
  {
    hide NatScale;
    var v := NatScale(2, x, done);
    NatScaleAdd(2, x, done, 29);
    EightTwos(v);
    EightTwos(256 * v);
    EightTwos(65536 * v);
    FiveTwos(16777216 * v);
    NatScaleAdd(2, v, 8, 8);
    NatScaleAdd(2, v, 16, 8);
    NatScaleAdd(2, v, 24, 5);
  }

  lemma {:induction false} EightTwos(x: nat)
    ensures NatScale(2, x, 8) == 256 * x
  {
    assert NatScale(2, x, 4) == 16 * x;
    NatScaleAdd(2, x, 4, 4);
    assert NatScale(2, 16 * x, 4) == 256 * x;
  }

  lemma {:induction false} FiveTwos(x: nat)
    ensures NatScale(2, x, 5) == 32 * x
  {
    assert NatScale(2, x, 4) == 16 * x;
  }

  lemma {:induction false} ThirteenFives(x: nat, done: nat)
    ensures NatScale(5, x, done + 13) == NatScale(5, x, done) * 1_220_703_125
  {
    hide NatScale;
    var v := NatScale(5, x, done);
    NatScaleAdd(5, x, done, 13);
    FourFives(v);
    FourFives(625 * v);
    FourFives(390625 * v);
    OneFive(244140625 * v);
    NatScaleAdd(5, v, 4, 4);
    NatScaleAdd(5, v, 8, 4);
    NatScaleAdd(5, v, 12, 1);
  }

  lemma {:induction false} FourFives(x: nat)
    ensures NatScale(5, x, 4) == 625 * x
  {
    assert NatScale(5, x, 2) == 25 * x;
  }

  lemma {:induction false} OneFive(x: nat)
    ensures NatScale(5, x, 1) == 5 * x
  {
  }

  lemma {:induction false} SingleDigit(d: nat)
    ensures DigitsValue([d]) == d
  {
    assert [d][..0] == [];
  }

  /** s * 5^k * 10^-k == s * 2^-k */
  lemma {:induction false} ExpansionValue(s: nat, exponent2: int)
    ensures exponent2 >= 0 ==> Scale(10, NatScale(2, s, exponent2) as real, 0) == Scale(2, s as real, exponent2)
    ensures exponent2 < 0 ==> Scale(10, NatScale(5, s, -exponent2) as real, exponent2) == Scale(2, s as real, exponent2)
  {
    if exponent2 >= 0 {
      NatScaleReal(2, s, exponent2);
    } else {
      NatScaleReal(5, s, -exponent2);
      var v := Scale(5, s as real, -exponent2);
      ScaleTen(v, exponent2);
      ScaleAdd(5, s as real, -exponent2, exponent2);
    }
  }

  /** The expansion has at most 39 + k digits, so its exponent cannot saturate. */
  lemma {:induction false} ExpansionLength(digits: seq<nat>, s: nat, b: Base, k: nat)
    requires |digits| > 0 && digits[0] != 0 && DigitsValue(digits) == NatScale(b, s, k) && s < U128
    ensures |digits| <= 39 + k
  {
    hide *;
    ValueAtLeast(digits);
    ThirtyNineDigits();
    NatScaleOrder(b, s, NatScale(10, 1, 39), k);
    BaseBound(b, NatScale(10, 1, 39), k);
    NatScaleAdd(10, 1, 39, k);
    if |digits| > 39 + k {
      NatScaleGrows(10, 1, 39 + k, |digits| - 1);
    }
  }

  lemma {:induction false} ThirtyNineDigits()
    ensures U128 <= NatScale(10, 1, 39)
  {
    NineDigits(1);
    NatScaleAdd(10, 1, 9, 9);
    NineDigits(RADIX);
    NatScaleAdd(10, 1, 18, 9);
    NineDigits(RADIX * RADIX);
    NatScaleAdd(10, 1, 27, 9);
    NineDigits(RADIX * RADIX * RADIX);
    var v := NatScale(10, 1, 36);
    NatScaleAdd(10, 1, 36, 3);
    assert NatScale(10, v, 3) == 1000 * v;
  }

  lemma {:induction false} BaseBound(b: Base, x: nat, k: nat)
    ensures NatScale(b, x, k) <= NatScale(10, x, k)
    decreases k
  {
    if k > 0 {
      BaseBound(b, x, k - 1);
    }
  }

  // ---- Comparison ----

  function Compared(x: real, y: real): Ordering {
    if x < y then Less else if x == y then Equal else Greater
  }

  /** A normal nonzero number of order o lies in [10^(o-1), 10^o). */
  lemma {:induction false} OrderBounds(d: ExactDecimal)
    requires d.Normal() && !d.IsZero()
    ensures 0.0 < Scale(10, 1.0, d.Order() - 1) <= d.Magnitude() < Scale(10, 1.0, d.Order())
  {
    var n, e := |d.digits|, d.exponent;
    ValueBound(d.digits);
    ValueAtLeast(d.digits);
    NatScaleReal(10, 1, n);
    NatScaleReal(10, 1, n - 1);
    ScaleAdd(10, 1.0, n, e);
    ScaleAdd(10, 1.0, n - 1, e);
    var v := DigitsValue(d.digits) as real;
    ScaleOrder(10, v, Scale(10, 1.0, n), e);
    ScaleOrder(10, v, Scale(10, 1.0, n - 1), e);
    ScaleOrder(10, 0.0, 1.0, d.Order() - 1);
  }

  lemma {:induction false} ZeroMagnitude(d: ExactDecimal)
    requires d.Normal()
    ensures d.Magnitude() >= 0.0
    ensures d.IsZero() <==> d.Magnitude() == 0.0
  {
    if d.IsZero() {
      SingleDigit(0);
    } else {
      OrderBounds(d);
    }
  }

  function DigitAt(ds: seq<nat>, i: nat): nat {
    if i < |ds| then ds[i] else 0
  }

  /** Zero-filled on the right to width w. */
  ghost function Widened(ds: seq<nat>, w: nat): (r: seq<nat>)
    requires w >= |ds|
    ensures |r| == w && forall i :: 0 <= i < w ==> r[i] == DigitAt(ds, i)
  {
    ds + seq(w - |ds|, _ => 0)
  }

  lemma {:induction false} WidenedMagnitude(d: ExactDecimal, w: nat)
    requires w >= |d.digits|
    ensures d.Magnitude() == Scale(10, DigitsValue(Widened(d.digits, w)) as real, d.Order() - w)
  {
    var k, v := w - |d.digits|, DigitsValue(d.digits);
    var zeros := seq(k, _ => 0);
    ValueConcat(d.digits, zeros);
    ValueZeros(zeros);
    NatScaleReal(10, v, k);
    ScaleAdd(10, v as real, k, d.Order() - w);
  }

  /** Two numbers of the same order are ordered by their widened digit strings. */
  lemma {:induction false} SameOrder(a: ExactDecimal, b: ExactDecimal, w: nat)
    requires a.Order() == b.Order() && w >= |a.digits| && w >= |b.digits|
    ensures Compared(a.Magnitude(), b.Magnitude())
         == Compared(DigitsValue(Widened(a.digits, w)) as real, DigitsValue(Widened(b.digits, w)) as real)
  {
    WidenedMagnitude(a, w);
    WidenedMagnitude(b, w);
    ScaleOrder(10, DigitsValue(Widened(a.digits, w)) as real, DigitsValue(Widened(b.digits, w)) as real, a.Order() - w);
  }

  lemma {:induction false} FirstDifference(a: seq<nat>, b: seq<nat>, w: nat, i: nat)
    requires AreDigits(a) && AreDigits(b) && i < w && w >= |a| && w >= |b|
    requires forall j :: 0 <= j < i ==> DigitAt(a, j) == DigitAt(b, j)
    requires DigitAt(a, i) < DigitAt(b, i)
    ensures DigitsValue(Widened(a, w)) < DigitsValue(Widened(b, w))
  {
    var u, v := Widened(a, w), Widened(b, w);
    assert forall j :: 0 <= j < i ==> u[j] == DigitAt(a, j) == DigitAt(b, j) == v[j];
    assert u[..i] == v[..i];
    ValueLexicographic(u, v, i);
  }

  method CompareMagnitude(a: ExactDecimal, b: ExactDecimal) returns (r: Ordering)
    requires a.Normal() && b.Normal()
    ensures r == Compared(a.Magnitude(), b.Magnitude())
  {
    ZeroMagnitude(a);
    ZeroMagnitude(b);
    if a.IsZero() {
      return if b.IsZero() then Equal else Less;
    }
    if b.IsZero() {
      return Greater;
    }
    OrderBounds(a);
    OrderBounds(b);
    if a.Order() != b.Order() {
      if a.Order() < b.Order() {
        ScaleGrows(10, 1.0, a.Order(), b.Order() - 1);
        return Less;
      } else {
        ScaleGrows(10, 1.0, b.Order(), a.Order() - 1);
        return Greater;
      }
    }
    var width := if |a.digits| < |b.digits| then |b.digits| else |a.digits|;
    SameOrder(a, b, width);
    var index := 0;
    while index < width
      invariant 0 <= index <= width
      invariant forall j :: 0 <= j < index ==> DigitAt(a.digits, j) == DigitAt(b.digits, j)
    {
      var left, right := DigitAt(a.digits, index), DigitAt(b.digits, index);
      if left < right {
        FirstDifference(a.digits, b.digits, width, index);
        return Less;
      } else if left > right {
        FirstDifference(b.digits, a.digits, width, index);
        return Greater;
      }
      index := index + 1;
    }
    assert Widened(a.digits, width) == Widened(b.digits, width);
    r := Equal;
  }

  /** The comparison is the numeric order; positive and negative zero are equal. */
  method Compare(a: ExactDecimal, b: ExactDecimal) returns (r: Ordering)
    requires a.Normal() && b.Normal()
    ensures r == Compared(a.Value(), b.Value())
  {
    ZeroMagnitude(a);
    ZeroMagnitude(b);
    if a.IsZero() && b.IsZero() {
      return Equal;
    }
    if a.negative != b.negative {
      return if a.negative then Less else Greater;
    }
    var magnitude := CompareMagnitude(a, b);
    r := if a.negative then magnitude.Reverse() else magnitude;
  }
}
