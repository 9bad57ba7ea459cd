/** Facts about products, quotients and remainders that the solver needs spelled out. */
module Arith {

  lemma {:induction false} MulMonotone(h: nat, a: int, b: int)
    requires a <= b
    ensures h * a <= h * b
  {
  }

  lemma {:induction false} QuotientUnique(h: int, q: int, r: int, q': int, r': int)
    requires h > 0 && 0 <= r < h && 0 <= r' < h && h * q + r == h * q' + r'
    ensures q == q' && r == r'
  {
    if q < q' {
      MulMonotone(h, q + 1, q');
    } else if q' < q {
      MulMonotone(h, q' + 1, q);
    }
  }

  /** Division with remainder is characterised by its defining equation. */
  lemma {:induction false} DivMod(m: int, h: int, q: int, r: int)
    requires h > 0 && 0 <= r < h && m == h * q + r
    ensures m / h == q && m % h == r
  {
    QuotientUnique(h, q, r, m / h, m % h);
  }

  lemma {:induction false} Euclid(m: int, h: int) returns (q: int, r: nat)
    requires h > 0
    ensures q == m / h && r == m % h < h && m == h * q + r
    ensures m >= 0 ==> q >= 0
  {
    q, r := m / h, m % h;
  }

  lemma {:induction false} QuotientBound(m: int, h: int, n: int)
    requires h > 0 && 0 <= m < h * n
    ensures 0 <= m / h < n
  {
    if m / h >= n {
      MulMonotone(h, n, m / h);
    }
  }

  /** Comparing a two-part number with a multiple of its radix compares the high part. */
  lemma {:induction false} HighPart(h: nat, e: int, g: nat, t: int)
    requires g < h
    ensures h * e + g < h * t <==> e < t
  {
    if e < t {
      MulMonotone(h, e + 1, t);
      DistributePred(h, e);
    } else {
      MulMonotone(h, t, e);
    }
  }

  /** Splitting twice is splitting once by the product. */
  lemma {:induction false} DivDiv(m: int, h: int, t: int)
    requires h > 0 && t > 0 && m >= 0
    ensures t * h > 0
    ensures m % (t * h) == h * (m / h % t) + m % h
    ensures m / (t * h) == m / h / t
  {
    var e, g := m / h, m % h;
    var s, x := e / t, e % t;
    assert m == h * e + g;
    assert e == t * s + x;
    var r := h * x + g;
    assert r < t * h by {
      MulMonotone(h, x + 1, t);
    }
    assert m == (t * h) * s + r by {
      Distribute(h, t, s, x);
    }
    PositiveProduct(t, h);
    DivMod(m, t * h, s, r);
  }

  lemma {:induction false} DistributePred(h: int, t: int)
    ensures h * (t - 1) == t * h - h
    ensures h * (t + 1) == t * h + h
  {
  }

  /** Parity survives taking the remainder by an even number. */
  lemma {:induction false} EvenRemainder(s: nat, w: nat, h: nat)
    requires h > 0 && w == 2 * h
    ensures s % w % 2 == s % 2
  {
    var q, r := Euclid(s, w);
    EvenPlus(w, h, q, r);
  }

  lemma {:induction false} EvenPlus(w: nat, h: nat, q: nat, r: nat)
    requires w == 2 * h
    ensures (w * q + r) % 2 == r % 2
  {
    assert w * q == 2 * (h * q);
  }

  lemma {:induction false} SumTimes(a: int, b: int, c: int)
    ensures (a + b) * c == a * c + b * c
  {
  }

  lemma {:induction false} NatProduct(a: nat, b: nat)
    ensures a * b >= 0
  {
  }

  lemma {:induction false} PositiveProduct(a: int, b: int)
    requires a > 0 && b > 0
    ensures a * b > 0
  {
  }

  lemma {:induction false} Distribute(h: int, t: int, s: int, x: int)
    ensures h * (t * s + x) == (t * h) * s + h * x
  {
  }
}
