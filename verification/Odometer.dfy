/**
  Column-major index spaces.  Every array walk in the runtime keeps an index
  vector and advances it like an odometer, first dimension fastest; the
  reference is the mixed-radix expansion of the element number.
 */
module Odometer {
  import opened Arith

  predicate Positive(extents: seq<nat>) {
    forall d :: 0 <= d < |extents| ==> extents[d] > 0
  }

  function Total(extents: seq<nat>): nat {
    if extents == [] then 1 else extents[0] * Total(extents[1..])
  }

  predicate InBox(idx: seq<nat>, extents: seq<nat>) {
    |idx| == |extents| && forall d :: 0 <= d < |idx| ==> idx[d] < extents[d]
  }

  /** The k-th index vector in column-major order. */
  function Index(k: nat, extents: seq<nat>): seq<nat>
    requires Positive(extents)
    decreases |extents|
  {
    if extents == [] then [] else [k % extents[0]] + Index(k / extents[0], extents[1..])
  }

  /** The column-major number of an index vector. */
  function Linear(idx: seq<nat>, extents: seq<nat>): nat
    requires |idx| == |extents|
  {
    if idx == [] then 0 else idx[0] + extents[0] * Linear(idx[1..], extents[1..])
  }

  /** One turn of the odometer. */
  function Step(idx: seq<nat>, extents: seq<nat>): (r: seq<nat>)
    requires |idx| == |extents|
    ensures |r| == |idx|
  {
    if idx == [] then []
    else if idx[0] + 1 < extents[0] then [idx[0] + 1] + idx[1..]
    else [0] + Step(idx[1..], extents[1..])
  }

  lemma {:induction false} TotalEmpty()
    ensures Total([]) == 1
  {
  }

  lemma {:induction false} TotalPositive(extents: seq<nat>)
    requires Positive(extents)
    ensures Total(extents) > 0
    decreases |extents|
  {
    if extents != [] {
      TotalPositive(extents[1..]);
      PositiveProduct(extents[0], Total(extents[1..]));
    }
  }

  lemma {:induction false} TotalZero(extents: seq<nat>, d: nat)
    requires d < |extents| && extents[d] == 0
    ensures Total(extents) == 0
    decreases |extents|
  {
    if d > 0 {
      TotalZero(extents[1..], d - 1);
    }
  }

  lemma {:induction false} NonemptyExactly(extents: seq<nat>)
    ensures Total(extents) > 0 <==> Positive(extents)
  {
    if Positive(extents) {
      TotalPositive(extents);
    } else {
      var d :| 0 <= d < |extents| && extents[d] == 0;
      TotalZero(extents, d);
    }
  }

  lemma {:induction false} LinearBound(idx: seq<nat>, extents: seq<nat>)
    requires InBox(idx, extents)
    ensures Linear(idx, extents) < Total(extents)
    decreases |idx|
  {
    if idx != [] {
      LinearBound(idx[1..], extents[1..]);
      HighPart(extents[0], Linear(idx[1..], extents[1..]), idx[0], Total(extents[1..]));
    }
  }

  lemma {:induction false} IndexInBox(k: nat, extents: seq<nat>)
    requires Positive(extents)
    ensures InBox(Index(k, extents), extents)
    decreases |extents|
  {
    if extents != [] {
      IndexInBox(k / extents[0], extents[1..]);
    }
  }

  /** Numbering and indexing are inverse to each other. */
  lemma {:induction false} LinearOfIndex(k: nat, extents: seq<nat>)
    requires Positive(extents) && k < Total(extents)
    ensures InBox(Index(k, extents), extents)
    ensures Linear(Index(k, extents), extents) == k
    decreases |extents|
  {
    IndexInBox(k, extents);
    if extents != [] {
      QuotientBound(k, extents[0], Total(extents[1..]));
      LinearOfIndex(k / extents[0], extents[1..]);
      assert Index(k, extents)[1..] == Index(k / extents[0], extents[1..]);
    }
  }

  lemma {:induction false} IndexOfLinear(idx: seq<nat>, extents: seq<nat>)
    requires InBox(idx, extents)
    ensures Positive(extents) && Index(Linear(idx, extents), extents) == idx
    decreases |idx|
  {
    assert Positive(extents) by {
      forall d | 0 <= d < |extents|
        ensures extents[d] > 0
      {
        assert idx[d] < extents[d];
      }
    }
    if idx != [] {
      IndexOfLinear(idx[1..], extents[1..]);
      DivMod(Linear(idx, extents), extents[0], Linear(idx[1..], extents[1..]), idx[0]);
      assert idx == [idx[0]] + idx[1..];
    }
  }

  /** The odometer counts: one step adds one, and the last index wraps to zero. */
  lemma {:induction false} StepCounts(idx: seq<nat>, extents: seq<nat>)
    requires InBox(idx, extents)
    ensures InBox(Step(idx, extents), extents)
    ensures Linear(Step(idx, extents), extents)
         == if Linear(idx, extents) + 1 < Total(extents) then Linear(idx, extents) + 1 else 0
    decreases |idx|
  {
    if idx != [] {
      var e, rest, r := extents[0], idx[1..], extents[1..];
      StepCounts(rest, r);
      LinearBound(rest, r);
      LinearBound(idx, extents);
      var next := Step(idx, extents);
      if idx[0] + 1 < e {
        assert next[1..] == rest;
        LinearBound(next, extents);
      } else {
        assert next[1..] == Step(rest, r);
        CarryLinear(e, idx[0], Linear(rest, r), Total(r));
      }
    }
  }

  lemma {:induction false} CarryLinear(e: nat, i: nat, l: nat, t: nat)
    requires i < e && i + 1 >= e && l < t
    ensures i + e * l + 1 == e * (l + 1)
    ensures i + e * l + 1 < e * t <==> l + 1 < t
    ensures e * 0 == 0
  {
    DistributePred(e, l);
    HighPart(e, l + 1, 0, t);
  }

  /** Advancing the k-th index gives the next one. */
  lemma {:induction false} StepIndex(k: nat, extents: seq<nat>)
    requires Positive(extents) && k < Total(extents)
    ensures |Index(k, extents)| == |extents|
    ensures Step(Index(k, extents), extents) == Index(if k + 1 < Total(extents) then k + 1 else 0, extents)
  {
    var idx := Index(k, extents);
    LinearOfIndex(k, extents);
    StepCounts(idx, extents);
    IndexOfLinear(Step(idx, extents), extents);
  }

  lemma {:induction false} IndexZero(extents: seq<nat>)
    requires Positive(extents)
    ensures Index(0, extents) == Zeros(|extents|)
    decreases |extents|
  {
    if extents != [] {
      IndexZero(extents[1..]);
      DivMod(0, extents[0], 0, 0);
    }
  }

  /** The runtime's in-place odometer loop. */
  method Advance(idx: array<nat>, extents: seq<nat>)
    requires idx.Length == |extents|
    modifies idx
    ensures idx[..] == Step(old(idx[..]), extents)
  {
    hide Step, StepFrom;
    ghost var was := idx[..];
    var d := 0;
    StepFromStart(was, extents);
    while d < |extents|
      invariant 0 <= d <= |extents|
      invariant forall j :: 0 <= j < d ==> idx[j] == 0
      invariant forall j :: d <= j < |extents| ==> idx[j] == was[j]
      invariant Step(was, extents) == StepFrom(was, extents, d)
    {
      StepFromAt(was, extents, d);
      idx[d] := idx[d] + 1;
      if idx[d] < extents[d] {
        break;
      }
      idx[d] := 0;
      d := d + 1;
    }
    if d == |extents| {
      StepFromEnd(was, extents);
    }
    SameSequence(idx[..], Step(was, extents));
  }

  lemma {:induction false} SameSequence(a: seq<nat>, b: seq<nat>)
    requires |a| == |b| && forall j :: 0 <= j < |a| ==> a[j] == b[j]
    ensures a == b
  {
  }

  /** The step's result once the first d wheels have wrapped. */
  ghost function StepFrom(idx: seq<nat>, extents: seq<nat>, d: nat): seq<nat>
    requires |idx| == |extents| && d <= |idx|
  {
    Zeros(d) + Step(idx[d..], extents[d..])
  }

  lemma {:induction false} StepFromStart(idx: seq<nat>, extents: seq<nat>)
    requires |idx| == |extents|
    ensures Step(idx, extents) == StepFrom(idx, extents, 0)
  {
    assert idx[0..] == idx && extents[0..] == extents;
  }

  lemma {:induction false} StepFromEnd(idx: seq<nat>, extents: seq<nat>)
    requires |idx| == |extents|
    ensures StepFrom(idx, extents, |idx|) == Zeros(|idx|)
  {
  }

  lemma {:induction false} StepFromAt(idx: seq<nat>, extents: seq<nat>, d: nat)
    requires |idx| == |extents| && d < |idx|
    ensures idx[d] + 1 < extents[d] ==>
      && var r := StepFrom(idx, extents, d);
      && |r| == |idx| && r[d] == idx[d] + 1
      && (forall j :: 0 <= j < d ==> r[j] == 0)
      && forall j :: d < j < |idx| ==> r[j] == idx[j]
    ensures idx[d] + 1 >= extents[d] ==> StepFrom(idx, extents, d) == StepFrom(idx, extents, d + 1)
  {
    assert idx[d..][1..] == idx[d + 1..] && extents[d..][1..] == extents[d + 1..];
  }

  function Zeros(n: nat): (z: seq<nat>)
    ensures |z| == n && forall i :: 0 <= i < n ==> z[i] == 0
  {
    seq(n, _ => 0)
  }

  // ---- Offsets ----

  /** The memory step, in elements, from the first element to element idx. */
  function Offset(idx: seq<int>, strides: seq<int>): int
    requires |idx| == |strides|
  {
    if idx == [] then 0 else idx[0] * strides[0] + Offset(idx[1..], strides[1..])
  }

  /** Distinct elements have distinct offsets. */
  ghost predicate Injective(extents: seq<nat>, strides: seq<int>)
    requires |extents| == |strides|
  {
    forall i: seq<nat>, j: seq<nat> ::
      InBox(i, extents) && InBox(j, extents) && Offset(i, strides) == Offset(j, strides) ==> i == j
  }

  /** The runtime's offset loop. */
  method ComputeOffset(idx: array<nat>, strides: seq<int>) returns (offset: int)
    requires idx.Length == |strides|
    ensures offset == Offset(idx[..], strides)
  {
    offset := 0;
    for d := 0 to |strides|
      invariant offset + Offset(idx[d..], strides[d..]) == Offset(idx[..], strides)
    {
      assert idx[d..][1..] == idx[d + 1..] && strides[d..][1..] == strides[d + 1..];
      offset := offset + idx[d] * strides[d];
    }
  }

  lemma {:induction false} OffsetConcat(a: seq<int>, b: seq<int>, s: seq<int>, t: seq<int>)
    requires |a| == |s| && |b| == |t|
    ensures Offset(a + b, s + t) == Offset(a, s) + Offset(b, t)
    decreases |a|
  {
    if a == [] {
      assert a + b == b && s + t == t;
    } else {
      OffsetConcat(a[1..], b, s[1..], t);
      assert (a + b)[1..] == a[1..] + b && (s + t)[1..] == s[1..] + t;
    }
  }

  lemma {:induction false} OffsetZeros(n: nat, strides: seq<int>)
    requires |strides| == n
    ensures Offset(Zeros(n), strides) == 0
    decreases n
  {
    if n > 0 {
      OffsetZeros(n - 1, strides[1..]);
      assert Zeros(n)[1..] == Zeros(n - 1);
    }
  }

  lemma {:induction false} TotalAppend(extents: seq<nat>, e: nat)
    ensures Total(extents + [e]) == Total(extents) * e
    decreases |extents|
  {
    if extents == [] {
      assert (extents + [e])[1..] == [];
      assert Total([]) == 1;
      assert extents + [e] == [e];
    } else {
      TotalAppend(extents[1..], e);
      assert (extents + [e])[1..] == extents[1..] + [e];
      ProductAssociates(extents[0], Total(extents[1..]), e);
    }
  }

  lemma {:induction false} ProductAssociates(a: int, b: int, c: int)
    ensures a * (b * c) == (a * b) * c
  {
  }

  lemma {:induction false} LinearAppend(idx: seq<nat>, extents: seq<nat>, i: nat, e: nat)
    requires |idx| == |extents|
    ensures Linear(idx + [i], extents + [e]) == Linear(idx, extents) + i * Total(extents)
    decreases |idx|
  {
    if idx == [] {
      assert extents == [];
      assert idx + [i] == [i] && extents + [e] == [e] && [i][1..] == [] && [e][1..] == [];
    } else {
      LinearAppend(idx[1..], extents[1..], i, e);
      assert (idx + [i])[1..] == idx[1..] + [i] && (extents + [e])[1..] == extents[1..] + [e];
      LinearAppendAlgebra(extents[0], Linear(idx[1..], extents[1..]), i, Total(extents[1..]));
    }
  }

  lemma {:induction false} LinearAppendAlgebra(e: int, l: int, i: int, t: int)
    ensures e * (l + i * t) == e * l + i * (e * t)
  {
  }
}
