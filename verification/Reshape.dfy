/**
  RESHAPE (runtime/src/array.rs, afs_array_reshape).  Source element k, followed
  by PAD as often as needed, goes to the result slot whose subscripts are the
  digits of k dealt out to the dimensions in the order ORDER names them.
 */
module Reshape {
  import opened Arith
  import opened Odometer
  import opened Repetition
  import opened StridedViews
  import opened Wrappers

  // ---- Permutations ----

  predicate IsPermutation(perm: seq<nat>) {
    (forall k :: 0 <= k < |perm| ==> perm[k] < |perm|) &&
    forall j, k :: 0 <= j < k < |perm| ==> perm[j] != perm[k]
  }

  function Identity(n: nat): (r: seq<nat>)
    ensures |r| == n && forall k :: 0 <= k < n ==> r[k] == k
  {
    seq(n, k => k)
  }

  /** s with its entries listed in the order perm names them. */
  function Permute(s: seq<nat>, perm: seq<nat>): (r: seq<nat>)
    requires forall k :: 0 <= k < |perm| ==> perm[k] < |s|
    ensures |r| == |perm| && forall k :: 0 <= k < |perm| ==> r[k] == s[perm[k]]
  {
    seq(|perm|, k requires 0 <= k < |perm| => s[perm[k]])
  }

  lemma {:induction false} DistinctCount(perm: seq<nat>, n: nat)
    requires forall k :: 0 <= k < |perm| ==> perm[k] < n
    requires forall j, k :: 0 <= j < k < |perm| ==> perm[j] != perm[k]
    ensures |perm| <= n
    ensures |perm| == n ==> forall d :: 0 <= d < n ==> d in perm
  {
    var values := set d | d in perm;
    var all := Below(n);
    DistinctSize(perm, values);
    SubsetSize(values, all);
    if |perm| == n {
      forall d | 0 <= d < n
        ensures d in perm
      {
        assert d in all;
      }
    }
  }

  lemma {:induction false} DistinctSize(perm: seq<nat>, values: set<nat>)
    requires values == set d | d in perm
    requires forall j, k :: 0 <= j < k < |perm| ==> perm[j] != perm[k]
    ensures |values| == |perm|
    decreases |perm|
  {
    if perm == [] {
      assert values == {};
    } else {
      var rest := set d | d in perm[1..];
      DistinctSize(perm[1..], rest);
      assert perm[0] !in rest;
      assert values == rest + {perm[0]};
    }
  }

  ghost function Below(n: nat): (r: set<nat>)
    ensures |r| == n && forall d: nat :: d in r <==> d < n
  {
    if n == 0 then {} else Below(n - 1) + {n - 1}
  }

  lemma {:induction false} SubsetSize(a: set<nat>, b: set<nat>)
    requires a <= b
    ensures |a| <= |b|
    ensures |a| == |b| ==> a == b
  {
    var rest := b - a;
    assert b == a + rest && |b| == |a| + |rest|;
  }

  /** A permutation hits every position. */
  lemma {:induction false} Onto(perm: seq<nat>, d: nat) returns (k: nat)
    requires IsPermutation(perm) && d < |perm|
    ensures k < |perm| && perm[k] == d
  {
    DistinctCount(perm, |perm|);
    assert d in perm;
    k :| 0 <= k < |perm| && perm[k] == d;
  }

  lemma {:induction false} TotalMiddle(a: seq<nat>, e: nat, b: seq<nat>)
    ensures Total(a + [e] + b) == Total(a + b) * e
    decreases |a|
  {
    if a == [] {
      assert a + [e] + b == [e] + b && ([e] + b)[1..] == b && a + b == b;
    } else {
      TotalMiddle(a[1..], e, b);
      assert (a + [e] + b)[1..] == a[1..] + [e] + b && (a + b)[1..] == a[1..] + b;
      ProductAssociates(a[0], Total(a[1..] + b), e);
    }
  }

  lemma {:induction false} WithoutLargest(perm: seq<nat>, k: nat)
    requires IsPermutation(perm) && k < |perm| && perm[k] == |perm| - 1
    ensures IsPermutation(perm[..k] + perm[k + 1..])
  {
    var n, shorter := |perm| - 1, perm[..k] + perm[k + 1..];
    forall j | 0 <= j < n
      ensures shorter[j] < n
    {
      var at := if j < k then j else j + 1;
      assert shorter[j] == perm[at] && perm[at] != perm[k];
    }
    forall i, j | 0 <= i < j < n
      ensures shorter[i] != shorter[j]
    {
      assert shorter[i] == perm[if i < k then i else i + 1];
      assert shorter[j] == perm[if j < k then j else j + 1];
    }
  }

  lemma {:induction false} PermuteAround(extents: seq<nat>, perm: seq<nat>, k: nat)
    requires |perm| == |extents| && k < |perm| && perm[k] == |perm| - 1
    requires IsPermutation(perm) && IsPermutation(perm[..k] + perm[k + 1..])
    ensures var n := |perm| - 1;
      var a, b := Permute(extents, perm[..k]), Permute(extents, perm[k + 1..]);
      Permute(extents, perm) == a + [extents[n]] + b && Permute(extents[..n], perm[..k] + perm[k + 1..]) == a + b
  {
  }

  /** Listing the extents in another order does not change the number of elements. */
  lemma {:induction false} TotalPermuted(extents: seq<nat>, perm: seq<nat>)
    requires IsPermutation(perm) && |perm| == |extents|
    ensures Total(Permute(extents, perm)) == Total(extents)
    decreases |perm|
  {
    if perm == [] {
      assert Permute(extents, perm) == extents;
    } else {
      hide Total;
      var n := |perm| - 1;
      var k := Onto(perm, n);
      WithoutLargest(perm, k);
      PermuteAround(extents, perm, k);
      hide IsPermutation;
      var less := extents[..n];
      TotalPermuted(less, perm[..k] + perm[k + 1..]);
      TotalMiddle(Permute(extents, perm[..k]), extents[n], Permute(extents, perm[k + 1..]));
      TotalAppend(less, extents[n]);
      assert extents == less + [extents[n]];
    }
  }

  // ---- Where source element k goes ----

  function Position(perm: seq<nat>, d: nat): (k: nat)
    requires d in perm
    ensures k < |perm| && perm[k] == d
  {
    if perm[0] == d then 0 else 1 + Position(perm[1..], d)
  }

  /** The subscripts whose entry perm[k] is subs[k]. */
  ghost function Deal(subs: seq<nat>, perm: seq<nat>): (r: seq<nat>)
    requires IsPermutation(perm) && |subs| == |perm|
    ensures |r| == |perm| && forall k :: 0 <= k < |perm| ==> r[perm[k]] == subs[k]
  {
    DistinctCount(perm, |perm|);
    seq(|perm|, d requires 0 <= d < |perm| => subs[Position(perm, d)])
  }

  lemma {:induction false} DealUnique(subs: seq<nat>, perm: seq<nat>, r: seq<nat>)
    requires IsPermutation(perm) && |subs| == |perm| == |r|
    requires forall k :: 0 <= k < |perm| ==> r[perm[k]] == subs[k]
    ensures r == Deal(subs, perm)
  {
    forall d | 0 <= d < |perm|
      ensures r[d] == Deal(subs, perm)[d]
    {
      var k := Onto(perm, d);
    }
  }

  lemma {:induction false} DealInBox(subs: seq<nat>, perm: seq<nat>, extents: seq<nat>)
    requires IsPermutation(perm) && |subs| == |perm| == |extents|
    requires InBox(subs, Permute(extents, perm))
    ensures InBox(Deal(subs, perm), extents)
  {
    forall d | 0 <= d < |perm|
      ensures Deal(subs, perm)[d] < extents[d]
    {
      var k := Onto(perm, d);
    }
  }

  ghost predicate Shape(extents: seq<nat>, perm: seq<nat>) {
    IsPermutation(perm) && |perm| == |extents| && Positive(extents)
  }

  /** The result slot of source element k. */
  ghost function Target(k: nat, extents: seq<nat>, perm: seq<nat>): nat
    requires Shape(extents, perm)
  {
    IndexInBox(k, Permute(extents, perm));
    Linear(Deal(Index(k, Permute(extents, perm)), perm), extents)
  }

  /** The source element that result slot m asks for. */
  ghost function Origin(m: nat, extents: seq<nat>, perm: seq<nat>): nat
    requires Shape(extents, perm)
  {
    IndexInBox(m, extents);
    Linear(Permute(Index(m, extents), perm), Permute(extents, perm))
  }

  /** Every source position below the total has its own result slot below the total. */
  lemma {:induction false} OriginOfTarget(k: nat, extents: seq<nat>, perm: seq<nat>)
    requires Shape(extents, perm) && k < Total(extents)
    ensures Target(k, extents, perm) < Total(extents)
    ensures Origin(Target(k, extents, perm), extents, perm) == k
  {
    hide Index, Linear, Total;
    var logical := Permute(extents, perm);
    TotalPermuted(extents, perm);
    LinearOfIndex(k, logical);
    var subs := Index(k, logical);
    var r := Deal(subs, perm);
    DealInBox(subs, perm, extents);
    LinearBound(r, extents);
    IndexOfLinear(r, extents);
    assert Permute(r, perm) == subs;
  }

  /** Every result slot is the target of some source position. */
  lemma {:induction false} TargetOfOrigin(m: nat, extents: seq<nat>, perm: seq<nat>)
    requires Shape(extents, perm) && m < Total(extents)
    ensures Origin(m, extents, perm) < Total(extents)
    ensures Target(Origin(m, extents, perm), extents, perm) == m
  {
    hide Index, Linear, Total;
    var logical := Permute(extents, perm);
    TotalPermuted(extents, perm);
    LinearOfIndex(m, extents);
    var r := Index(m, extents);
    var subs := Permute(r, perm);
    assert InBox(subs, logical);
    LinearBound(subs, logical);
    IndexOfLinear(subs, logical);
    DealUnique(subs, perm, r);
  }

  /** Without ORDER the elements keep their places. */
  lemma {:induction false} IdentityOrder(k: nat, extents: seq<nat>)
    requires Positive(extents) && k < Total(extents)
    ensures Target(k, extents, Identity(|extents|)) == k
  {
    var perm := Identity(|extents|);
    assert Permute(extents, perm) == extents;
    LinearOfIndex(k, extents);
    DealUnique(Index(k, extents), perm, Index(k, extents));
  }

  // ---- ORDER ----

  /** The first `rank` entries are a permutation of 1..rank. */
  ghost predicate ValidOrder(order: seq<int>, rank: nat) {
    && |order| >= rank
    && (forall k :: 0 <= k < rank ==> 1 <= order[k] <= rank)
    && forall j, k :: 0 <= j < k < rank ==> order[j] != order[k]
  }

  /** An absent ORDER is the empty sequence. */
  method ReadOrder(order: seq<int>, rank: nat) returns (perm: seq<nat>)
    ensures |perm| == rank && IsPermutation(perm)
    ensures ValidOrder(order, rank) ==> forall k :: 0 <= k < rank ==> perm[k] == order[k] - 1
    ensures !ValidOrder(order, rank) ==> perm == Identity(rank)
  {
    perm := Identity(rank);
    if |order| < rank {
      return;
    }
    var seen := new bool[rank](_ => false);
    var candidate: seq<nat> := [];
    for i := 0 to rank
      invariant |candidate| == i
      invariant forall k :: 0 <= k < i ==> candidate[k] == order[k] - 1 && 1 <= order[k] <= rank
      invariant forall d :: 0 <= d < rank ==> (seen[d] <==> d in candidate)
      invariant forall j, k :: 0 <= j < k < i ==> order[j] != order[k]
    {
      var raw := order[i];
      if raw < 1 || raw > rank {
        return;
      }
      var dim := raw - 1;
      if seen[dim] {
        assert dim in candidate;
        return;
      }
      assert dim !in candidate;
      seen[dim] := true;
      candidate := candidate + [dim];
    }
    perm := candidate;
  }

  // ---- RESHAPE ----

  function Extent(x: int): nat {
    if x < 0 then 0 else x
  }

  function Clamped(shape: seq<int>): (r: seq<nat>)
    ensures |r| == |shape|
    ensures forall i :: 0 <= i < |shape| ==> (shape[i] > 0 ==> r[i] == shape[i]) && (shape[i] <= 0 ==> r[i] == 0)
  {
    seq(|shape|, i requires 0 <= i < |shape| => Extent(shape[i]))
  }

  /** Element k of the source continued by PAD; with no PAD the runtime falls
      back on the first source element. */
  function Supply<T>(source: seq<T>, pad: seq<T>, k: nat): T
    requires source != [] || pad != []
  {
    if k < |source| then source[k]
    else if pad != [] then pad[(k - |source|) % |pad|]
    else source[0]
  }

  /** It is the source followed by PAD, written out as often as needed. */
  lemma {:induction false} SupplyIs<T>(source: seq<T>, pad: seq<T>, n: nat, k: nat)
    requires k < |source| + n * |pad|
    ensures k < |source + Copies(pad, n)| && Supply(source, pad, k) == (source + Copies(pad, n))[k]
  {
    CopiesLength(pad, n);
    if k >= |source| {
      assert pad == [] ==> n * |pad| == 0;
      CopiesAt(pad, n, k - |source|);
    }
  }

  /** The digits of k over the permuted extents. */
  method LogicalSubscripts(k: nat, extents: seq<nat>, perm: seq<nat>) returns (subs: seq<nat>)
    requires Shape(extents, perm)
    ensures subs == Index(k, Permute(extents, perm))
  {
    ghost var logical := Permute(extents, perm);
    var idx := k;
    subs := [];
    for d := 0 to |perm|
      invariant |subs| == d
      invariant subs + Index(idx, logical[d..]) == Index(k, logical)
    {
      var extent := if extents[perm[d]] > 1 then extents[perm[d]] else 1;
      assert logical[d..][1..] == logical[d + 1..];
      subs := subs + [idx % extent];
      idx := idx / extent;
    }
  }

  method ResultSubscripts(subs: seq<nat>, perm: seq<nat>) returns (r: seq<nat>)
    requires IsPermutation(perm) && |subs| == |perm|
    ensures r == Deal(subs, perm)
  {
    hide Deal;
    var n := |perm|;
    var result := new nat[n](_ => 0);
    for k := 0 to n
      invariant forall j :: 0 <= j < k ==> result[perm[j]] == subs[j]
    {
      result[perm[k]] := subs[k];
    }
    DealUnique(subs, perm, result[..]);
    r := result[..];
  }

  method ResultLinear(r: seq<nat>, extents: seq<nat>) returns (slot: nat)
    requires Positive(extents) && |r| == |extents|
    ensures slot == Linear(r, extents)
  {
    hide Linear, Total;
    slot := 0;
    var multiplier := 1;
    LinearStart();
    for k := 0 to |r|
      invariant slot == Linear(r[..k], extents[..k]) && multiplier == Total(extents[..k])
    {
      LinearAppend(r[..k], extents[..k], r[k], extents[k]);
      TotalAppend(extents[..k], extents[k]);
      assert r[..k + 1] == r[..k] + [r[k]] && extents[..k + 1] == extents[..k] + [extents[k]];
      slot := slot + r[k] * multiplier;
      multiplier := multiplier * (if extents[k] > 1 then extents[k] else 1);
    }
    assert r[..|r|] == r && extents[..|r|] == extents;
  }

  lemma {:induction false} LinearStart()
    ensures Linear([], []) == 0 && Total([]) == 1
  {
  }

  // ---- Operands ----

  /** An argument: its shape and strides, and the value stored a number of elements
      after its base address. */
  datatype Operand<T> = Operand(read: int -> T, dims: seq<Dim>)

  function Count(dims: seq<Dim>): nat {
    Total(Extents(dims))
  }

  /** What the runtime reads: element after element from the base address. */
  ghost function Stored<T>(a: Operand<T>): (r: seq<T>)
    ensures |r| == Count(a.dims)
  {
    seq(Count(a.dims), k => a.read(k))
  }

  /** What the argument is: its elements in column-major order. */
  ghost function Listed<T>(a: Operand<T>): (r: seq<T>)
    ensures |r| == Count(a.dims)
  {
    seq(Count(a.dims), k requires 0 <= k < Count(a.dims) => a.read(ListedAt(a.dims, k)))
  }

  ghost function ListedAt(dims: seq<Dim>, k: nat): int
    requires k < Count(dims)
  {
    NonemptyExactly(Extents(dims));
    IndexInBox(k, Extents(dims));
    Offset(Index(k, Extents(dims)), Strides(dims))
  }

  ghost function StoredOrNone<T>(a: Option<Operand<T>>): seq<T> {
    if a.Some? then Stored(a.value) else []
  }

  ghost function ListedOrNone<T>(a: Option<Operand<T>>): seq<T> {
    if a.Some? then Listed(a.value) else []
  }

  /** A scalar ORDER counts as none. */
  ghost function Present(order: Option<Operand<int>>): Option<Operand<int>> {
    if order.Some? && order.value.dims == [] then None else order
  }

  ghost predicate PlainOrNone<T>(a: Option<Operand<T>>) {
    a.Some? ==> Plain(a.value.dims)
  }

  /** Contiguous, or without elements. */
  ghost predicate Plain(dims: seq<Dim>) {
    Positive(Extents(dims)) ==> Contiguous(Extents(dims), Strides(dims))
  }

  lemma {:induction false} PlainReadsRight<T>(a: Operand<T>)
    requires Plain(a.dims)
    ensures Stored(a) == Listed(a)
  {
    hide Index, Total, Contiguous;
    var e, s := Extents(a.dims), Strides(a.dims);
    NonemptyExactly(e);
    if Positive(e) {
      FlatWalkExactly(e, s);
      forall k | 0 <= k < Total(e)
        ensures Stored(a)[k] == Listed(a)[k]
      {
        assert FlatAt(e, s, k);
        assert ListedAt(a.dims, k) == k;
      }
    }
  }

  /** The runtime reads an argument's own elements, whatever they are, if and only
      if the argument is contiguous or empty. */
  lemma {:induction false} ReadsRightExactly(dims: seq<Dim>)
    ensures Plain(dims) <==> forall read: int -> int :: Stored(Operand(read, dims)) == Listed(Operand(read, dims))
  {
    hide Index, Total, Contiguous, Stored, Listed, Plain;
    if Plain(dims) {
      forall read: int -> int
        ensures Stored(Operand(read, dims)) == Listed(Operand(read, dims))
      {
        PlainReadsRight(Operand(read, dims));
      }
    }
    if forall read: int -> int :: Stored(Operand(read, dims)) == Listed(Operand(read, dims)) {
      var places := Operand((o: int) => o, dims);
      assert Stored(places) == Listed(places);
      PlacesTell(dims);
    }
  }

  /** Memory that holds its own offsets tells a strided argument from a plain one. */
  lemma {:induction false} PlacesTell(dims: seq<Dim>)
    requires Stored(Operand((o: int) => o, dims)) == Listed(Operand((o: int) => o, dims))
    ensures Plain(dims)
  {
    hide Index, Total, Contiguous;
    var e, s, a := Extents(dims), Strides(dims), Operand((o: int) => o, dims);
    NonemptyExactly(e);
    if Positive(e) {
      forall k | 0 <= k < Total(e)
        ensures FlatAt(e, s, k)
      {
        IndexInBox(k, e);
        assert Stored(a)[k] == k && Listed(a)[k] == ListedAt(dims, k);
      }
      FlatWalkExactly(e, s);
    }
  }

  /** A section with stride two of an array that counts 0, 1, 2, ...: its second
      element is 2, and RESHAPE takes 1. */
  lemma {:induction false} StridedSourceMisread()
    ensures var a := Operand((o: int) => o, [Dim(1, 2, 2)]);
      |Stored(a)| == |Listed(a)| == 2 && Listed(a)[1] == 2 && Stored(a)[1] == 1
  {
    var dims := [Dim(1, 2, 2)];
    var e: seq<nat> := [2];
    assert Extents(dims) == e && Strides(dims) == [2] && e[1..] == [];
    assert Total([]) == 1 && Total(e) == 2 * Total([]);
    assert Index(1, e) == [1];
    LastOffset(1, 2);
    assert ListedAt(dims, 1) == 2;
  }

  method ReadValues<T>(a: Operand<T>) returns (r: seq<T>)
    ensures r == Stored(a)
  {
    r := [];
    var count := Total(Extents(a.dims));
    for k := 0 to count
      invariant |r| == k && forall j :: 0 <= j < k ==> r[j] == a.read(j)
    {
      r := r + [a.read(k)];
    }
  }

  // ---- The whole operation ----

  ghost predicate Holds<T>(value: T, source: seq<T>, pad: seq<T>, copies: nat, k: nat) {
    var supply := source + Copies(pad, copies);
    if k < |supply| then value == supply[k] else pad == [] && source != [] && value == source[0]
  }

  lemma {:induction false} SupplyHolds<T>(source: seq<T>, pad: seq<T>, copies: nat, k: nat)
    requires (source != [] || pad != []) && k < copies
    ensures Holds(Supply(source, pad, k), source, pad, copies, k)
  {
    CopiesLength(pad, copies);
    if pad != [] {
      MulMonotone(copies, 1, |pad|);
    }
    if k < |source| + copies * |pad| {
      SupplyIs(source, pad, copies, k);
    }
  }

  /** Slot m of the result holds the element it asks for out of the source followed by
      PAD over and over; when there is no PAD, the first element stands in. */
  ghost predicate Filled<T>(slots: seq<T>, source: seq<T>, pad: seq<T>, extents: seq<nat>, perm: seq<nat>)
    requires IsPermutation(perm) && |perm| == |extents|
  {
    && |slots| == Total(extents)
    && (slots != [] ==> source != [] || pad != [])
    && forall m :: 0 <= m < |slots| && Shape(extents, perm) ==>
         Holds(slots[m], source, pad, |slots|, Origin(m, extents, perm))
  }

  /** None when the rank is not supported; otherwise every slot of the result holds
      the element it asks for, of the arguments as the runtime reads them, which is
      what they are when they are contiguous. */
  method Reshape<T(0)>(source: Operand<T>, shape: Operand<int>, order: Option<Operand<int>>, pad: Option<Operand<T>>)
    returns (result: Option<array<T>>, ghost perm: seq<nat>)
    requires Stored(source) != [] || StoredOrNone(pad) != [] || Total(Clamped(Stored(shape))) == 0
    ensures result.None? <==> Count(shape.dims) == 0 || Count(shape.dims) > 15
    ensures |perm| == Count(shape.dims) && IsPermutation(perm)
    ensures Governs(StoredOrNone(Present(order)), perm)
    ensures result.Some? ==>
      Filled(result.value[..], Stored(source), StoredOrNone(pad), Clamped(Stored(shape)), perm)
    ensures Plain(source.dims) && Plain(shape.dims) && PlainOrNone(order) && PlainOrNone(pad) ==>
      && Governs(ListedOrNone(Present(order)), perm)
      && (result.Some? ==>
            Filled(result.value[..], Listed(source), ListedOrNone(pad), Clamped(Listed(shape)), perm))
  {
    hide Total, Target, Origin, Supply, ValidOrder, Filled, Governs, Stored, Listed, Plain;
    var values := ReadValues(source);
    var extentValues := ReadValues(shape);
    var orderValues: seq<int> := [];
    if order.Some? && order.value.dims != [] {
      orderValues := ReadValues(order.value);
    }
    var padValues: seq<T> := [];
    if pad.Some? {
      padValues := ReadValues(pad.value);
    }
    ArgumentsReadRight(source, shape, order, pad);
    result, perm := ReshapeValues(values, extentValues, orderValues, padValues);
  }

  lemma {:induction false} ArgumentsReadRight<T>(source: Operand<T>, shape: Operand<int>,
                                                 order: Option<Operand<int>>, pad: Option<Operand<T>>)
    ensures Plain(source.dims) ==> Stored(source) == Listed(source)
    ensures Plain(shape.dims) ==> Stored(shape) == Listed(shape)
    ensures order.Some? && Plain(order.value.dims) ==> Stored(order.value) == Listed(order.value)
    ensures pad.Some? && Plain(pad.value.dims) ==> Stored(pad.value) == Listed(pad.value)
  {
    hide Stored, Listed, Plain;
    if Plain(source.dims) {
      PlainReadsRight(source);
    }
    if Plain(shape.dims) {
      PlainReadsRight(shape);
    }
    if order.Some? && Plain(order.value.dims) {
      PlainReadsRight(order.value);
    }
    if pad.Some? && Plain(pad.value.dims) {
      PlainReadsRight(pad.value);
    }
  }

  /** The permutation is the one ORDER gives, or the identity. */
  ghost predicate Governs(order: seq<int>, perm: seq<nat>) {
    if ValidOrder(order, |perm|) then forall k :: 0 <= k < |perm| ==> perm[k] == order[k] - 1
    else perm == Identity(|perm|)
  }

  method ReshapeValues<T(0)>(source: seq<T>, shape: seq<int>, order: seq<int>, pad: seq<T>)
    returns (result: Option<array<T>>, ghost perm: seq<nat>)
    requires source != [] || pad != [] || Total(Clamped(shape)) == 0
    ensures result.None? <==> |shape| == 0 || |shape| > 15
    ensures |perm| == |shape| && IsPermutation(perm) && Governs(order, perm)
    ensures result.Some? ==> Filled(result.value[..], source, pad, Clamped(shape), perm)
  {
    hide Total, Target, Origin, Supply, ValidOrder, Holds;
    var rank := |shape|;
    var ordering := ReadOrder(order, rank);
    perm := ordering;
    if rank == 0 || rank > MAX_RANK {
      return None, perm;
    }
    var extents := Clamped(shape);
    var total := Total(extents);
    var slots := new T[total];
    NonemptyExactly(extents);
    if total > 0 {
      Fill(source, extents, ordering, pad, slots);
      forall m | 0 <= m < total
        ensures Holds(slots[m], source, pad, total, Origin(m, extents, perm))
      {
        TargetOfOrigin(m, extents, perm);
        SupplyHolds(source, pad, total, Origin(m, extents, perm));
      }
    }
    result := Some(slots);
  }

  method Fill<T>(source: seq<T>, extents: seq<nat>, perm: seq<nat>, pad: seq<T>, slots: array<T>)
    requires Shape(extents, perm) && slots.Length == Total(extents)
    requires source != [] || pad != []
    modifies slots
    ensures forall m :: 0 <= m < slots.Length ==> slots[m] == Supply(source, pad, Origin(m, extents, perm))
  {
    hide Total, Target, Origin, Shape, Supply;
    for linear := 0 to slots.Length
      invariant forall j :: 0 <= j < linear ==>
        Target(j, extents, perm) < slots.Length && slots[Target(j, extents, perm)] == Supply(source, pad, j)
    {
      var subs := LogicalSubscripts(linear, extents, perm);
      SubscriptCount(linear, extents, perm);
      var dealt := ResultSubscripts(subs, perm);
      var slot := ResultLinear(dealt, extents);
      TargetIs(linear, extents, perm);
      OriginOfTarget(linear, extents, perm);
      forall j | 0 <= j < linear
        ensures Target(j, extents, perm) != slot
      {
        OriginOfTarget(j, extents, perm);
      }
      slots[slot] := Supply(source, pad, linear);
    }
    forall m | 0 <= m < slots.Length
      ensures slots[m] == Supply(source, pad, Origin(m, extents, perm))
    {
      TargetOfOrigin(m, extents, perm);
    }
  }

  lemma {:induction false} SubscriptCount(k: nat, extents: seq<nat>, perm: seq<nat>)
    requires Shape(extents, perm)
    ensures IsPermutation(perm) && Positive(extents) && |perm| == |extents|
    ensures |Index(k, Permute(extents, perm))| == |perm|
  {
    IndexInBox(k, Permute(extents, perm));
  }

  lemma {:induction false} TargetIs(k: nat, extents: seq<nat>, perm: seq<nat>)
    requires Shape(extents, perm)
    ensures |Index(k, Permute(extents, perm))| == |perm|
    ensures Target(k, extents, perm) == Linear(Deal(Index(k, Permute(extents, perm)), perm), extents)
  {
    IndexInBox(k, Permute(extents, perm));
  }
}
