/**
  Powers of two, five and ten.  A field such as 123e-7 denotes a scaled number,
  so the basic operation is "scale x by b^e" rather than the power itself: its
  laws are linear in x.
 */
module Powers {

  /** The bases that decimal and binary fields are read in. */
  type Base = b: nat | b == 2 || b == 5 || b == 10 witness 2

  /** b * x, with a literal factor in each case. */
  function Times(b: Base, x: real): real {
    if b == 2 then 2.0 * x else if b == 5 then 5.0 * x else 10.0 * x
  }

  function Over(b: Base, x: real): real {
    if b == 2 then x / 2.0 else if b == 5 then x / 5.0 else x / 10.0
  }

  /** x * b^e for any integer exponent. */
  function Scale(b: Base, x: real, e: int): real
    decreases if e < 0 then -e else e
  {
    if e == 0 then x
    else if e > 0 then Times(b, Scale(b, x, e - 1))
    else Over(b, Scale(b, x, e + 1))
  }

  lemma {:induction false} ScaleStep(b: Base, x: real, e: int)
    ensures Scale(b, x, e + 1) == Times(b, Scale(b, x, e))
  {
  }

  lemma {:induction false} ScaleAdd(b: Base, x: real, m: int, n: int)
    ensures Scale(b, Scale(b, x, m), n) == Scale(b, x, m + n)
    decreases if n < 0 then -n else n
  {
    if n > 0 {
      ScaleAdd(b, x, m, n - 1);
      ScaleStep(b, x, m + n - 1);
    } else if n < 0 {
      ScaleAdd(b, x, m, n + 1);
      ScaleStep(b, x, m + n);
    }
  }

  lemma {:induction false} ScaleSum(b: Base, x: real, y: real, e: int)
    ensures Scale(b, x + y, e) == Scale(b, x, e) + Scale(b, y, e)
    decreases if e < 0 then -e else e
  {
    if e > 0 {
      ScaleSum(b, x, y, e - 1);
    } else if e < 0 {
      ScaleSum(b, x, y, e + 1);
    }
  }

  /** Scaling keeps order, and so signs. */
  lemma {:induction false} ScaleOrder(b: Base, x: real, y: real, e: int)
    ensures x < y <==> Scale(b, x, e) < Scale(b, y, e)
    ensures x == y <==> Scale(b, x, e) == Scale(b, y, e)
    ensures Scale(b, 0.0, e) == 0.0
    decreases if e < 0 then -e else e
  {
    if e > 0 {
      ScaleOrder(b, x, y, e - 1);
    } else if e < 0 {
      ScaleOrder(b, x, y, e + 1);
    }
  }

  lemma {:induction false} ScaleGrows(b: Base, x: real, m: int, n: int)
    requires x >= 0.0 && m <= n
    ensures 0.0 <= Scale(b, x, m) <= Scale(b, x, n)
    decreases n - m
  {
    ScaleOrder(b, 0.0, x, m);
    if m < n {
      ScaleGrows(b, x, m, n - 1);
      ScaleStep(b, x, n - 1);
    }
  }

  /** Multiplying by c once before or after scaling is the same. */
  lemma {:induction false} ScaleTimes(b: Base, c: Base, x: real, e: int)
    ensures Scale(b, Times(c, x), e) == Times(c, Scale(b, x, e))
    decreases if e < 0 then -e else e
  {
    if e > 0 {
      ScaleTimes(b, c, x, e - 1);
    } else if e < 0 {
      ScaleTimes(b, c, x, e + 1);
    }
  }

  /** A power of ten is the same power of two and of five. */
  lemma {:induction false} ScaleTen(x: real, e: int)
    ensures Scale(10, x, e) == Scale(2, Scale(5, x, e), e)
    decreases if e < 0 then -e else e
  {
    if e > 0 {
      ScaleTen(x, e - 1);
      ScaleTimes(2, 5, Scale(5, x, e - 1), e - 1);
    } else if e < 0 {
      ScaleTen(x, e + 1);
      ScaleTimes(2, 5, Scale(5, x, e), e);
      ScaleStep(5, x, e);
      ScaleStep(2, Scale(5, x, e), e);
      ScaleStep(10, x, e);
      ScaleTimes(2, 5, Scale(5, x, e), e + 1);
    }
  }

  /** 10^e is at least 2^(3e): the crude bound behind the exponent clamps. */
  lemma {:induction false} TenBeatsEight(x: real, e: nat)
    requires x >= 0.0
    ensures Scale(10, x, e) >= Scale(2, x, 3 * e) >= 0.0
    decreases e
  {
    if e > 0 {
      TenBeatsEight(x, e - 1);
      ScaleStep(2, x, 3 * e - 1);
      ScaleStep(2, x, 3 * e - 2);
      ScaleStep(2, x, 3 * e - 3);
    }
  }

  function NatTimes(b: Base, x: nat): nat {
    if b == 2 then 2 * x else if b == 5 then 5 * x else 10 * x
  }

  /** x * b^e on naturals. */
  function NatScale(b: Base, x: nat, e: nat): nat
    decreases e
  {
    if e == 0 then x else NatTimes(b, NatScale(b, x, e - 1))
  }

  lemma {:induction false} NatScaleReal(b: Base, x: nat, e: nat)
    ensures NatScale(b, x, e) as real == Scale(b, x as real, e)
    decreases e
  {
    if e > 0 {
      NatScaleReal(b, x, e - 1);
    }
  }

  lemma {:induction false} NatScaleAdd(b: Base, x: nat, m: nat, n: nat)
    ensures NatScale(b, NatScale(b, x, m), n) == NatScale(b, x, m + n)
    decreases n
  {
    if n > 0 {
      NatScaleAdd(b, x, m, n - 1);
    }
  }

  lemma {:induction false} NatScaleSum(b: Base, x: nat, y: nat, e: nat)
    ensures NatScale(b, x + y, e) == NatScale(b, x, e) + NatScale(b, y, e)
    decreases e
  {
    if e > 0 {
      NatScaleSum(b, x, y, e - 1);
    }
  }

  lemma {:induction false} NatScaleOrder(b: Base, x: nat, y: nat, e: nat)
    ensures x < y <==> NatScale(b, x, e) < NatScale(b, y, e)
    ensures x == 0 <==> NatScale(b, x, e) == 0
    decreases e
  {
    if e > 0 {
      NatScaleOrder(b, x, y, e - 1);
    }
  }

  lemma {:induction false} NatScaleGrows(b: Base, x: nat, m: nat, n: nat)
    requires m <= n
    ensures NatScale(b, x, m) <= NatScale(b, x, n)
    decreases n
  {
    if m < n {
      NatScaleGrows(b, x, m, n - 1);
    }
  }

  /** 2^n, the weight of bit n. */
  function Bit(n: nat): (p: nat)
    ensures p > 0
  {
    if n == 0 then 1 else 2 * Bit(n - 1)
  }

  lemma {:induction false} BitScale(n: nat, e: nat)
    ensures NatScale(2, Bit(n), e) == Bit(n + e)
    decreases e
  {
    if e > 0 {
      BitScale(n, e - 1);
    }
  }

  lemma {:induction false} BitMonotone(m: nat, n: nat)
    requires m <= n
    ensures Bit(m) <= Bit(n)
    decreases n
  {
    if m < n {
      BitMonotone(m, n - 1);
    }
  }
}
