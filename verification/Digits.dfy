/** Decimal digit strings, most significant digit first, and the numbers they denote. */
module Digits {
  import opened Powers

  predicate AreDigits(ds: seq<nat>) {
    forall i :: 0 <= i < |ds| ==> ds[i] < 10
  }

  function DigitsValue(ds: seq<nat>): nat {
    if ds == [] then 0 else 10 * DigitsValue(ds[..|ds| - 1]) + ds[|ds| - 1]
  }

  lemma {:induction false} ValueAppend(ds: seq<nat>, d: nat)
    ensures DigitsValue(ds + [d]) == 10 * DigitsValue(ds) + d
  {
    assert (ds + [d])[..|ds|] == ds;
  }

  lemma {:induction false} ValueConcat(a: seq<nat>, b: seq<nat>)
    ensures DigitsValue(a + b) == NatScale(10, DigitsValue(a), |b|) + DigitsValue(b)
    decreases |b|
  {
    if b == [] {
      assert a + b == a;
    } else {
      var b' := b[..|b| - 1];
      ValueConcat(a, b');
      assert a + b == (a + b') + [b[|b| - 1]];
      ValueAppend(a + b', b[|b| - 1]);
    }
  }

  lemma {:induction false} ValueZeros(ds: seq<nat>)
    requires forall i :: 0 <= i < |ds| ==> ds[i] == 0
    ensures DigitsValue(ds) == 0
    decreases |ds|
  {
    if ds != [] {
      ValueZeros(ds[..|ds| - 1]);
    }
  }

  /** A string of n digits denotes a number below 10^n. */
  lemma {:induction false} ValueBound(ds: seq<nat>)
    requires AreDigits(ds)
    ensures DigitsValue(ds) < NatScale(10, 1, |ds|)
    decreases |ds|
  {
    if ds != [] {
      ValueBound(ds[..|ds| - 1]);
    }
  }

  /** Without a leading zero it is also at least 10^(n-1). */
  lemma {:induction false} ValueAtLeast(ds: seq<nat>)
    requires |ds| > 0 && ds[0] != 0
    ensures DigitsValue(ds) >= NatScale(10, 1, |ds| - 1) > 0
    decreases |ds|
  {
    if |ds| > 1 {
      ValueAtLeast(ds[..|ds| - 1]);
    } else {
      assert ds[..0] == [];
    }
  }

  /** Strings of equal length are ordered by their first difference. */
  lemma {:induction false} ValueLexicographic(a: seq<nat>, b: seq<nat>, i: nat)
    requires AreDigits(a) && AreDigits(b) && |a| == |b| && i < |a|
    requires a[..i] == b[..i] && a[i] < b[i]
    ensures DigitsValue(a) < DigitsValue(b)
  {
    var u, v := a[..i + 1], b[..i + 1];
    assert a == u + a[i + 1..] && b == v + b[i + 1..];
    assert u == a[..i] + [a[i]] && v == a[..i] + [b[i]];
    ValueAppend(a[..i], a[i]);
    ValueAppend(a[..i], b[i]);
    ConcatOrder(u, a[i + 1..], v, b[i + 1..]);
  }

  lemma {:induction false} ConcatOrder(u: seq<nat>, p: seq<nat>, v: seq<nat>, q: seq<nat>)
    requires DigitsValue(u) < DigitsValue(v) && |p| == |q| && AreDigits(p)
    ensures DigitsValue(u + p) < DigitsValue(v + q)
  {
    hide DigitsValue, NatScale;
    ValueConcat(u, p);
    ValueConcat(v, q);
    ValueBound(p);
    NatScaleSum(10, DigitsValue(u), 1, |p|);
    NatScaleOrder(10, DigitsValue(v), DigitsValue(u) + 1, |p|);
  }

  // ---- Printing naturals ----

  /** The digits of n without leading zeros ("0" for zero). */
  function ToDigits(n: nat): (ds: seq<nat>)
    ensures AreDigits(ds) && |ds| > 0 && DigitsValue(ds) == n
    ensures n > 0 ==> ds[0] != 0
  {
    if n < 10 then
      assert [n][..0] == [];
      [n]
    else
      ValueAppend(ToDigits(n / 10), n % 10);
      ToDigits(n / 10) + [n % 10]
  }

  /** The last k digits of n, zero-filled on the left. */
  function Padded(n: nat, k: nat): (ds: seq<nat>)
    ensures AreDigits(ds) && |ds| == k
    decreases k
  {
    if k == 0 then [] else Padded(n / 10, k - 1) + [n % 10]
  }

  lemma {:induction false} PaddedValue(n: nat, k: nat)
    requires n < NatScale(10, 1, k)
    ensures DigitsValue(Padded(n, k)) == n
    decreases k
  {
    if k > 0 {
      PaddedValue(n / 10, k - 1);
      ValueAppend(Padded(n / 10, k - 1), n % 10);
    }
  }
}
