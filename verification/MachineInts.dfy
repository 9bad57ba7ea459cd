/** Machine integers: the 64-bit signed range, saturation and wrap-around. */
module MachineInts {
  import opened Arith
  import opened Powers

  const I64_MAX: int := 0x7fff_ffff_ffff_ffff
  const I64_MIN: int := -0x8000_0000_0000_0000

  function Saturate(x: int): (r: int)
    ensures I64_MIN <= r <= I64_MAX
  {
    if x > I64_MAX then I64_MAX else if x < I64_MIN then I64_MIN else x
  }

  // ---- Two's complement ----

  type Modulus = m: int | m > 0 && m % 2 == 0 witness 2

  const TWO_64: Modulus := 0x1_0000_0000_0000_0000

  /** The signed value that x wraps around to. */
  function Wrap(x: int, m: Modulus): int {
    (x + m / 2) % m - m / 2
  }

  ghost predicate Congruent(x: int, y: int, m: int)
    requires m > 0
  {
    x % m == y % m
  }

  lemma {:induction false} MultipleDifference(m: int, p: int, q: int)
    ensures m * (p - q) == m * p - m * q
  {
  }

  /** Congruent values differ by a multiple. */
  lemma {:induction false} Difference(x: int, y: int, m: int) returns (q: int)
    requires m > 0 && Congruent(x, y, m)
    ensures x - y == m * q
  {
    q := x / m - y / m;
    MultipleDifference(m, x / m, y / m);
  }

  lemma {:induction false} FromDifference(x: int, y: int, m: int, q: int)
    requires m > 0 && x - y == m * q
    ensures Congruent(x, y, m)
  {
    var p, r := Euclid(x, m);
    MultipleDifference(m, p, q);
    DivMod(y, m, p - q, r);
  }

  /** Wrapping changes a value by a multiple of the modulus, into the signed range. */
  lemma {:induction false} WrapCongruent(x: int, m: Modulus)
    ensures Congruent(Wrap(x, m), x, m)
    ensures -(m / 2) <= Wrap(x, m) < m / 2
  {
    var h := m / 2;
    var q, r := Euclid(x + h, m);
    assert Wrap(x, m) == r - h;
    MultipleDifference(m, 0, q);
    FromDifference(Wrap(x, m), x, m, -q);
  }

  lemma {:induction false} CongruentSum(x: int, x': int, v: int, m: int)
    requires m > 0 && Congruent(x, x', m)
    ensures Congruent(x + v, x' + v, m)
  {
    hide Congruent;
    var q := Difference(x, x', m);
    FromDifference(x + v, x' + v, m, q);
  }

  lemma {:induction false} CongruentChain(x: int, y: int, z: int, m: int)
    requires m > 0 && Congruent(x, y, m) && Congruent(y, z, m)
    ensures Congruent(x, z, m)
  {
  }

  lemma {:induction false} CongruentBack(x: int, y: int, m: int)
    requires m > 0 && Congruent(x, y, m)
    ensures Congruent(y, x, m)
  {
  }

  /** Wrapping as one goes is wrapping once. */
  lemma {:induction false} WrapOnce(x: int, v: int, m: Modulus)
    ensures Wrap(Wrap(x, m) + v, m) == Wrap(x + v, m)
  {
    WrapCongruent(x, m);
    CongruentSum(Wrap(x, m), x, v + m / 2, m);
    assert Wrap(x, m) + v + m / 2 == Wrap(x, m) + (v + m / 2);
    assert x + v + m / 2 == x + (v + m / 2);
  }

  /** A value in the signed range of `bits` bits that agrees with x modulo 2^bits, and
      is x itself when x is in that range. */
  ghost predicate FitsAs(r: int, x: int, bits: nat)
    requires bits > 0
  {
    var half: int := Bit(bits - 1);
    && -half <= r < half
    && Congruent(r, x, Bit(bits))
    && (-half <= x < half ==> r == x)
  }

  lemma {:induction false} WrapFits(x: int, m: Modulus, bits: nat)
    requires bits > 0 && m == Bit(bits)
    ensures FitsAs(Wrap(x, m), x, bits)
  {
    var h := m / 2;
    assert Bit(bits - 1) == h;
    WrapCongruent(x, m);
    if -h <= x < h {
      DivMod(x + h, m, 0, x + h);
    }
  }

  /** There is only one such value. */
  lemma {:induction false} FitsIsWrap(r: int, x: int, m: Modulus, bits: nat)
    requires bits > 0 && m == Bit(bits) && FitsAs(r, x, bits)
    ensures r == Wrap(x, m)
  {
    var w := Wrap(x, m);
    WrapFits(x, m, bits);
    assert Bit(bits) == 2 * Bit(bits - 1);
    CongruentBack(w, x, m);
    CongruentChain(r, x, w, m);
    var q := Difference(r, w, m);
    if q >= 1 {
      MulMonotone(m, 1, q);
    } else if q <= -1 {
      MulMonotone(m, q, -1);
    }
  }

  /** The widths of the integer kinds as powers of two. */
  lemma {:induction false} ByteWidths()
    ensures Bit(8) == 0x100 && Bit(16) == 0x1_0000 && Bit(32) == 0x1_0000_0000 && Bit(64) == TWO_64
  {
    assert Bit(0) == 1;
    hide Bit;
    EightMore(0);
    EightMore(8);
    EightMore(16);
    EightMore(24);
    EightMore(32);
    EightMore(40);
    EightMore(48);
    EightMore(56);
  }

  lemma {:induction false} EightMore(n: nat)
    ensures Bit(n + 8) == 0x100 * Bit(n)
  {
    assert Bit(n + 8) == 2 * Bit(n + 7) && Bit(n + 7) == 2 * Bit(n + 6) && Bit(n + 6) == 2 * Bit(n + 5);
    assert Bit(n + 5) == 2 * Bit(n + 4) && Bit(n + 4) == 2 * Bit(n + 3) && Bit(n + 3) == 2 * Bit(n + 2);
    assert Bit(n + 2) == 2 * Bit(n + 1) && Bit(n + 1) == 2 * Bit(n);
  }

  lemma {:induction false} LimitBits()
    ensures Bit(63) == I64_MAX + 1 == -I64_MIN && Bit(127) == 0x8000_0000_0000_0000_0000_0000_0000_0000
  {
    hide Bit;
    ByteWidths();
    OneMore(63);
    EightMore(64);
    EightMore(72);
    EightMore(80);
    EightMore(88);
    EightMore(96);
    EightMore(104);
    EightMore(112);
    EightMore(120);
    OneMore(127);
  }

  lemma {:induction false} OneMore(n: nat)
    ensures Bit(n + 1) == 2 * Bit(n)
  {
  }

  /** Congruence modulo a multiple is congruence. */
  lemma {:induction false} CoarserModulus(x: int, y: int, m: int, c: int)
    requires m > 0 && m * c > 0 && Congruent(x, y, m * c)
    ensures Congruent(x, y, m)
  {
    hide Congruent;
    var q := Difference(x, y, m * c);
    MultipleOf(m, c, q);
    FromDifference(x, y, m, c * q);
  }

  lemma {:induction false} MultipleOf(m: int, c: int, q: int)
    ensures (m * c) * q == m * (c * q)
  {
  }
}
