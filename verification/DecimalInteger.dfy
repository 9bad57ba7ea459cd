/**
  The arbitrary-precision integer behind exact float expansions: little-endian
  limbs in base 10^9, multiplied in place by small factors
  (runtime/src/decimal_input.rs, DecimalInteger).
 */
module DecimalIntegers {
  import opened Arith
  import opened Powers
  import opened Digits

  const RADIX: nat := 1_000_000_000
  const U32: nat := 0x1_0000_0000
  const U64: nat := 0x1_0000_0000_0000_0000
  const U128: nat := 0x1_0000_0000_0000_0000_0000_0000_0000_0000

  predicate AreLimbs(limbs: seq<nat>) {
    forall i :: 0 <= i < |limbs| ==> limbs[i] < RADIX
  }

  /** The number with the given low limbs and everything above them equal to `top`. */
  function LimbsUnder(limbs: seq<nat>, top: nat): nat {
    if limbs == [] then top else limbs[0] + RADIX * LimbsUnder(limbs[1..], top)
  }

  function LimbsValue(limbs: seq<nat>): nat {
    LimbsUnder(limbs, 0)
  }

  /** Splitting one limb off the top part keeps the number. */
  lemma {:induction false} PushLimb(limbs: seq<nat>, x: nat, rest: nat)
    ensures LimbsUnder(limbs + [x], rest) == LimbsUnder(limbs, x + RADIX * rest)
    decreases |limbs|
  {
    if limbs == [] {
      assert (limbs + [x])[1..] == [];
    } else {
      PushLimb(limbs[1..], x, rest);
      assert (limbs + [x])[1..] == limbs[1..] + [x];
    }
  }

  class DecimalInteger {
    var limbs: seq<nat>

    /** Limbs below 10^9 with a nonzero top limb. */
    ghost predicate Valid()
      reads this
    {
      AreLimbs(limbs) && |limbs| > 0 && limbs[|limbs| - 1] > 0
    }

    ghost function Value(): nat
      reads this
    {
      LimbsValue(limbs)
    }

    constructor (initial: nat)
      ensures AreLimbs(limbs) && |limbs| > 0 && Value() == initial
      ensures initial > 0 ==> Valid()
    {
      var value: nat := initial;
      var ls: seq<nat> := [];
      while value != 0
        invariant AreLimbs(ls) && LimbsUnder(ls, value) == initial
        invariant value == 0 && initial > 0 ==> |ls| > 0 && ls[|ls| - 1] > 0
        invariant initial == 0 ==> ls == []
      {
        PushLimb(ls, value % RADIX, value / RADIX);
        ls := ls + [value % RADIX];
        value := value / RADIX;
      }
      if |ls| == 0 {
        ls := [0];
        assert ls[1..] == [];
      }
      limbs := ls;
    }

    /** Multiplies by a u32 factor; the asserts are the u64 and u32 ranges of the
        intermediate product, the stored limb and the carry. */
    method MultiplySmall(factor: nat)
      requires Valid() && 0 < factor < U32
      modifies this
      ensures Valid() && Value() == old(Value()) * factor
    {
      hide LimbsUnder, LimbsValue, Multiple;
      ghost var was := limbs;
      var carry: nat := 0;
      var i := 0;
      MultiplyStart(was, factor);
      while i < |limbs|
        invariant 0 <= i <= |limbs| == |was|
        invariant AreLimbs(limbs) && limbs[i..] == was[i..]
        invariant carry < factor
        invariant LimbsUnder(limbs[..i], carry + Multiple(factor, was[i..])) == Multiple(factor, was)
        invariant i == |limbs| && carry == 0 ==> limbs[i - 1] > 0
      {
        var product := limbs[i] * factor + carry;
        CarryBound(limbs[i], factor, carry);
        assert product < U64;
        assert product % RADIX < U32;
        MultiplyTurn(limbs, was, i, factor, carry);
        limbs := limbs[i := product % RADIX];
        carry := product / RADIX;
        i := i + 1;
      }
      assert limbs[..i] == limbs && was[i..] == [];
      MultiplyEnd(factor);
      PushCarry(carry);
      MultipleValue(factor, was, limbs);
    }

    /** Appends what is left of the carry, limb by limb. */
    method PushCarry(initial: nat)
      requires AreLimbs(limbs) && |limbs| > 0 && (initial == 0 ==> limbs[|limbs| - 1] > 0)
      modifies this
      ensures Valid() && LimbsUnder(limbs, 0) == old(LimbsUnder(limbs, initial))
    {
      hide LimbsUnder, LimbsValue;
      var carry: nat := initial;
      while carry != 0
        invariant AreLimbs(limbs) && |limbs| > 0 && LimbsUnder(limbs, carry) == old(LimbsUnder(limbs, initial))
        invariant carry == 0 ==> limbs[|limbs| - 1] > 0
      {
        PushLimb(limbs, carry % RADIX, carry / RADIX);
        limbs := limbs + [carry % RADIX];
        carry := carry / RADIX;
      }
    }

    /** Prints the top limb plain and every lower limb with nine digits. */
    method ToDecimalString() returns (result: seq<nat>)
      requires Valid()
      ensures AreDigits(result) && |result| > 0 && result[0] != 0
      ensures DigitsValue(result) == Value()
    {
      var i := |limbs| - 1;
      result := ToDigits(limbs[i]);
      assert limbs[i..] == [limbs[i]];
      SingleLimb(limbs[i]);
      while i > 0
        invariant 0 <= i < |limbs|
        invariant AreDigits(result) && |result| > 0 && result[0] != 0
        invariant DigitsValue(result) == LimbsValue(limbs[i..])
      {
        i := i - 1;
        PaddedValue(limbs[i], 9);
        ValueConcat(result, Padded(limbs[i], 9));
        NineDigits(DigitsValue(result));
        assert limbs[i..][1..] == limbs[i + 1..];
        result := result + Padded(limbs[i], 9);
      }
      assert limbs[0..] == limbs;
    }
  }

  lemma {:induction false} CarryBound(limb: nat, factor: nat, carry: nat)
    requires limb < RADIX && 0 < factor < U32 && carry < factor
    ensures var p := limb * factor + carry;
      && p < U64
      && p / RADIX < factor
      && (p / RADIX == 0 && limb > 0 ==> p % RADIX > 0)
  {
    MulMonotone(factor, limb, RADIX - 1);
    if limb > 0 {
      MulMonotone(factor, 1, limb);
    }
    assert factor * limb == limb * factor;
    CarryRange(limb * factor + carry, factor);
  }

  lemma {:induction false} CarryRange(p: nat, factor: nat)
    requires 0 < factor < U32 && p < factor * RADIX
    ensures p < U64 && p / RADIX < factor
  {
  }

  ghost function Multiple(factor: nat, limbs: seq<nat>): nat {
    factor * LimbsValue(limbs)
  }

  lemma {:induction false} MultiplyStart(limbs: seq<nat>, factor: nat)
    ensures LimbsUnder(limbs[..0], 0 + Multiple(factor, limbs[0..])) == Multiple(factor, limbs)
  {
    assert limbs[0..] == limbs;
  }

  lemma {:induction false} MultiplyEnd(factor: nat)
    ensures Multiple(factor, []) == 0
  {
  }

  lemma {:induction false} MultipleValue(factor: nat, was: seq<nat>, limbs: seq<nat>)
    requires LimbsUnder(limbs, 0) == Multiple(factor, was)
    ensures LimbsValue(limbs) == LimbsValue(was) * factor
  {
  }

  /** One column of the multiplication: carry + f*(x + R*rest) regrouped by limb. */
  lemma {:induction false} MultiplyStep(done: seq<nat>, x: nat, factor: nat, carry: nat, rest: seq<nat>)
    ensures var p := x * factor + carry;
      LimbsUnder(done + [p % RADIX], p / RADIX + Multiple(factor, rest))
        == LimbsUnder(done, carry + Multiple(factor, [x] + rest))
  {
    var p, v := x * factor + carry, LimbsValue(rest);
    assert ([x] + rest)[1..] == rest;
    Regroup(x, factor, v);
    PushLimb(done, p % RADIX, p / RADIX + factor * v);
  }

  /** One turn of the limb loop: limbs below i are done, the rest still old. */
  lemma {:induction false} MultiplyTurn(limbs: seq<nat>, was: seq<nat>, i: nat, factor: nat, carry: nat)
    requires i < |limbs| == |was| && limbs[i..] == was[i..]
    ensures var p := limbs[i] * factor + carry;
      var next := limbs[i := p % RADIX];
      && limbs[i] == was[i] && next[i + 1..] == was[i + 1..]
      && LimbsUnder(next[..i + 1], p / RADIX + Multiple(factor, was[i + 1..]))
         == LimbsUnder(limbs[..i], carry + Multiple(factor, was[i..]))
  {
    hide LimbsUnder, LimbsValue, Multiple;
    assert limbs[i] == limbs[i..][0] == was[i..][0] == was[i];
    var p := was[i] * factor + carry;
    MultiplyStep(limbs[..i], was[i], factor, carry, was[i + 1..]);
    assert was[i..] == [was[i]] + was[i + 1..];
    var next := limbs[i := p % RADIX];
    assert next[..i + 1] == limbs[..i] + [p % RADIX];
    assert next[i + 1..] == limbs[i..][1..] && was[i + 1..] == was[i..][1..];
  }

  lemma {:induction false} Regroup(x: nat, factor: nat, v: nat)
    ensures factor * (x + RADIX * v) == x * factor + RADIX * (factor * v)
  {
  }

  lemma {:induction false} SingleLimb(x: nat)
    ensures LimbsValue([x]) == x
  {
    assert [x][1..] == [];
    assert LimbsUnder([], 0) == 0;
  }

  lemma {:induction false} NineDigits(x: nat)
    ensures NatScale(10, x, 9) == RADIX * x
    ensures NatScale(10, 1, 9) == RADIX
  {
    assert NatScale(10, x, 3) == 1000 * x;
    NatScaleAdd(10, x, 3, 3);
    NatScaleAdd(10, x, 6, 3);
    assert NatScale(10, 1000 * x, 3) == 1_000_000 * x;
    assert NatScale(10, 1_000_000 * x, 3) == RADIX * x;
    assert NatScale(10, 1, 3) == 1000;
    NatScaleAdd(10, 1, 3, 3);
    NatScaleAdd(10, 1, 6, 3);
    assert NatScale(10, 1000, 3) == 1_000_000;
    assert NatScale(10, 1_000_000, 3) == RADIX;
  }
}
