/**
  Strided views of memory.  A view's element idx sits at
  base + sum(idx[d] * stride[d]) * elemSize, strides being memory steps in
  elements (runtime/src/descriptor.rs, runtime/src/array.rs).
 */
module StridedViews {
  import opened Odometer

  const MAX_RANK: nat := 15

  datatype Dim = Dim(lower: int, upper: int, stride: int) {
    function Extent(): nat {
      if upper < lower then 0 else upper - lower + 1
    }
  }

  function Extents(dims: seq<Dim>): (r: seq<nat>)
    ensures |r| == |dims| && forall d :: 0 <= d < |dims| ==> r[d] == dims[d].Extent()
  {
    seq(|dims|, d requires 0 <= d < |dims| => dims[d].Extent())
  }

  function Strides(dims: seq<Dim>): (r: seq<int>)
    ensures |r| == |dims| && forall d :: 0 <= d < |dims| ==> r[d] == dims[d].stride
  {
    seq(|dims|, d requires 0 <= d < |dims| => dims[d].stride)
  }

  ghost predicate InjectiveView(dims: seq<Dim>) {
    Injective(Extents(dims), Strides(dims))
  }

  /** Every stride lies between zero and the contiguous step: the runtime's test
      for copying the block flat. */
  ghost predicate LooksFlat(extents: seq<nat>, strides: seq<int>)
    requires |extents| == |strides|
  {
    forall d :: 0 <= d < |extents| ==> 0 <= strides[d] <= Total(extents[..d])
  }

  /** Column-major contiguous, up to dimensions with a single element. */
  ghost predicate Contiguous(extents: seq<nat>, strides: seq<int>)
    requires |extents| == |strides|
  {
    forall d :: 0 <= d < |extents| && extents[d] > 1 ==> strides[d] == Total(extents[..d])
  }

  lemma {:induction false} ContiguousOffset(extents: seq<nat>, strides: seq<int>, idx: seq<nat>)
    requires |extents| == |strides| && Contiguous(extents, strides) && InBox(idx, extents)
    ensures Offset(idx, strides) == Linear(idx, extents)
    decreases |idx|
  {
    if idx != [] {
      var n := |idx| - 1;
      var e, s, i := extents[..n], strides[..n], idx[..n];
      assert extents == e + [extents[n]] && strides == s + [strides[n]] && idx == i + [idx[n]];
      assert forall d :: 0 <= d < n ==> e[..d] == extents[..d];
      ContiguousOffset(e, s, i);
      OffsetConcat(i, [idx[n]], s, [strides[n]]);
      LastOffset(idx[n], strides[n]);
      LinearAppend(i, e, idx[n], extents[n]);
      if idx[n] == 0 {
        assert idx[n] * Total(e) == 0;
      }
    }
  }

  lemma {:induction false} LastOffset(i: nat, s: int)
    ensures Offset([i], [s]) == i * s
  {
    assert [i][1..] == [] && [s][1..] == [];
    assert Offset([], []) == 0;
  }

  /** A stride below the contiguous step makes two elements share an offset: the
      second along dimension d, and one reached with the lower dimensions alone. */
  lemma {:induction false} Collision(extents: seq<nat>, strides: seq<int>, d: nat)
    requires |extents| == |strides| && Positive(extents) && d < |extents| && extents[d] > 1
    requires Contiguous(extents[..d], strides[..d]) && 0 <= strides[d] < Total(extents[..d])
    ensures exists i: seq<nat>, j: seq<nat> ::
      InBox(i, extents) && InBox(j, extents) && i != j && Offset(i, strides) == Offset(j, strides)
  {
    var e, s, n := extents[..d], strides[..d], |extents| - d;
    var low := Index(strides[d], e);
    LinearOfIndex(strides[d], e);
    ContiguousOffset(e, s, low);
    var i := low + Zeros(n);
    assert strides == s + strides[d..];
    OffsetConcat(low, Zeros(n), s, strides[d..]);
    OffsetZeros(n, strides[d..]);
    var j := Zeros(d) + ([1] + Zeros(n - 1));
    UnitOffset(d, n - 1, strides);
    assert i[d] == 0 && j[d] == 1;
    assert InBox(i, extents) && InBox(j, extents);
  }

  /** A view without repeated addresses whose strides pass the flat test is
      contiguous: a smaller stride would collide with a lower dimension. */
  lemma {:induction false} FlatIsContiguous(extents: seq<nat>, strides: seq<int>, n: nat)
    requires |extents| == |strides| && n <= |extents| && Positive(extents)
    requires Injective(extents, strides) && LooksFlat(extents, strides)
    ensures Contiguous(extents[..n], strides[..n])
    decreases n
  {
    if n > 0 {
      var d := n - 1;
      FlatIsContiguous(extents, strides, d);
      if extents[d] > 1 && strides[d] < Total(extents[..d]) {
        Collision(extents, strides, d);
        assert false;
      }
      assert forall c :: 0 <= c < n ==> extents[..n][..c] == extents[..c];
      assert forall c :: 0 <= c < d ==> extents[..d][..c] == extents[..c];
      assert forall c :: 0 <= c < d ==> extents[..d][c] == extents[..n][c];
    }
  }

  /** The runtime copies the view correctly: it does not take it for flat, or it is. */
  ghost predicate Copyable(dims: seq<Dim>) {
    LooksFlat(Extents(dims), Strides(dims)) ==> Contiguous(Extents(dims), Strides(dims))
  }

  /** Every view without repeated addresses is copied correctly. */
  lemma {:induction false} InjectiveCopyable(dims: seq<Dim>)
    requires Positive(Extents(dims)) && InjectiveView(dims)
    ensures Copyable(dims)
  {
    var extents, strides := Extents(dims), Strides(dims);
    if LooksFlat(extents, strides) {
      FlatIsContiguous(extents, strides, |extents|);
      assert extents[..|extents|] == extents && strides[..|strides|] == strides;
    }
  }

  /** The flat copy reads element k where the element walk reads it. */
  lemma {:induction false} FlatWalk(extents: seq<nat>, strides: seq<int>, k: nat)
    requires |extents| == |strides| && Positive(extents) && k < Total(extents)
    requires Injective(extents, strides) && LooksFlat(extents, strides)
    ensures |Index(k, extents)| == |strides|
    ensures Offset(Index(k, extents), strides) == k
  {
    FlatIsContiguous(extents, strides, |extents|);
    assert extents[..|extents|] == extents && strides[..|strides|] == strides;
    LinearOfIndex(k, extents);
    ContiguousOffset(extents, strides, Index(k, extents));
  }

  /** Element k of the walk sits k elements after the first. */
  ghost predicate WalkIsFlat(extents: seq<nat>, strides: seq<int>)
    requires |extents| == |strides| && Positive(extents)
  {
    forall k :: 0 <= k < Total(extents) ==> FlatAt(extents, strides, k)
  }

  ghost predicate FlatAt(extents: seq<nat>, strides: seq<int>, k: nat)
    requires |extents| == |strides| && Positive(extents)
  {
    |Index(k, extents)| == |strides| && Offset(Index(k, extents), strides) == k
  }

  /** A flat copy is right for exactly the contiguous views: any other view,
      injective or not, has an element the block copy takes from the wrong place. */
  lemma {:induction false} FlatWalkExactly(extents: seq<nat>, strides: seq<int>)
    requires |extents| == |strides| && Positive(extents)
    ensures Contiguous(extents, strides) <==> WalkIsFlat(extents, strides)
  {
    if Contiguous(extents, strides) {
      forall k | 0 <= k < Total(extents)
        ensures FlatAt(extents, strides, k)
      {
        LinearOfIndex(k, extents);
        ContiguousOffset(extents, strides, Index(k, extents));
      }
    }
    if WalkIsFlat(extents, strides) {
      forall d | 0 <= d < |extents| && extents[d] > 1
        ensures strides[d] == Total(extents[..d])
      {
        var u := UnitVector(extents, strides, d);
        LinearBound(u, extents);
        IndexOfLinear(u, extents);
        assert FlatAt(extents, strides, Linear(u, extents));
      }
    }
  }

  lemma {:induction false} UnitVector(extents: seq<nat>, strides: seq<int>, d: nat) returns (u: seq<nat>)
    requires |extents| == |strides| && Positive(extents) && d < |extents| && extents[d] > 1
    ensures InBox(u, extents) && Offset(u, strides) == strides[d] && Linear(u, extents) == Total(extents[..d])
  {
    var canonical := seq(|extents|, i requires 0 <= i < |extents| => Total(extents[..i]));
    u := Zeros(d) + ([1] + Zeros(|extents| - d - 1));
    UnitOffset(d, |extents| - d - 1, strides);
    UnitOffset(d, |extents| - d - 1, canonical);
    ContiguousOffset(extents, canonical, u);
  }

  lemma {:induction false} UnitOffset(d: nat, n: nat, strides: seq<int>)
    requires |strides| == d + 1 + n
    ensures Offset(Zeros(d) + ([1] + Zeros(n)), strides) == strides[d]
  {
    var s, rest := strides[..d], strides[d..];
    assert strides == s + rest;
    OffsetConcat(Zeros(d), [1] + Zeros(n), s, rest);
    OffsetZeros(d, s);
    assert ([1] + Zeros(n))[1..] == Zeros(n);
    OffsetZeros(n, rest[1..]);
  }

  /** A two-by-two view with both strides one passes the flat test, yet its last
      element is not where a block copy takes it from. */
  lemma {:induction false} FlatTestIsNotEnough()
    ensures LooksFlat([2, 2], [1, 1]) && !Contiguous([2, 2], [1, 1])
  {
    var e: seq<nat> := [2, 2];
    assert e[..0] == [] && e[..1] == [2] && [2][1..] == [];
    assert Total([]) == 1 && Total([2]) == 2 * Total([]);
  }

  /** The runtime's flat test. */
  method IsStrided(dims: seq<Dim>) returns (strided: bool)
    requires Positive(Extents(dims))
    ensures strided <==> !LooksFlat(Extents(dims), Strides(dims))
  {
    ghost var extents := Extents(dims);
    var canonical := 1;
    for i := 0 to |dims|
      invariant canonical == Total(extents[..i])
      invariant forall d :: 0 <= d < i ==> 0 <= dims[d].stride <= Total(extents[..d])
    {
      if dims[i].stride < 0 || dims[i].stride > canonical {
        return true;
      }
      TotalAppend(extents[..i], extents[i]);
      assert extents[..i + 1] == extents[..i] + [extents[i]];
      canonical := canonical * (if dims[i].Extent() > 1 then dims[i].Extent() else 1);
    }
    strided := false;
  }
}
