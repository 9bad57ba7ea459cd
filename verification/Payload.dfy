/**
  Copying the payload of a strided view into contiguous storage
  (runtime/src/array.rs, copy_same_type_payload_to_contiguous).
 */
module Payload {
  import opened Arith
  import opened Odometer
  import opened StridedViews

  /** Byte position of element k of a view that starts at byte `start`. */
  function Place(start: int, elemSize: nat, dims: seq<Dim>, k: nat): int
    requires Positive(Extents(dims))
  {
    IndexInBox(k, Extents(dims));
    start + Offset(Index(k, Extents(dims)), Strides(dims)) * elemSize
  }

  function Piece(content: seq<bv8>, p: int, n: nat): (r: seq<bv8>)
    requires 0 <= p && p + n <= |content|
    ensures |r| == n
  {
    content[p..p + n]
  }

  /** Every element of the view lies inside `length` bytes. */
  ghost predicate Inside(start: int, elemSize: nat, dims: seq<Dim>, length: nat)
    requires Positive(Extents(dims))
  {
    forall k :: 0 <= k < Total(Extents(dims)) ==>
      0 <= Place(start, elemSize, dims, k) && Place(start, elemSize, dims, k) + elemSize <= length
  }

  /** The first n elements in column-major order, packed. */
  ghost function Gathered(content: seq<bv8>, start: int, elemSize: nat, dims: seq<Dim>, n: nat): (r: seq<bv8>)
    requires Positive(Extents(dims)) && Inside(start, elemSize, dims, |content|) && n <= Total(Extents(dims))
    ensures |r| == n * elemSize
    decreases n
  {
    if n == 0 then []
    else
      DistributePred(elemSize, n - 1);
      Gathered(content, start, elemSize, dims, n - 1) + Piece(content, Place(start, elemSize, dims, n - 1), elemSize)
  }

  /** Reading the packed result back: element k is the view's element k. */
  lemma {:induction false} GatheredAt(content: seq<bv8>, start: int, elemSize: nat, dims: seq<Dim>, n: nat, k: nat)
    requires Positive(Extents(dims)) && Inside(start, elemSize, dims, |content|) && k < n <= Total(Extents(dims))
    ensures k * elemSize + elemSize <= n * elemSize
    ensures Gathered(content, start, elemSize, dims, n)[k * elemSize..k * elemSize + elemSize]
         == Piece(content, Place(start, elemSize, dims, k), elemSize)
    decreases n
  {
    MulMonotone(elemSize, k + 1, n);
    DistributePred(elemSize, k);
    DistributePred(elemSize, n - 1);
    var g := Gathered(content, start, elemSize, dims, n);
    var h := Gathered(content, start, elemSize, dims, n - 1);
    if k < n - 1 {
      GatheredAt(content, start, elemSize, dims, n - 1, k);
      assert g[k * elemSize..k * elemSize + elemSize] == h[k * elemSize..k * elemSize + elemSize];
    } else {
      assert g[k * elemSize..k * elemSize + elemSize] == Piece(content, Place(start, elemSize, dims, k), elemSize);
    }
  }

  lemma {:induction false} FlatPlace(start: int, elemSize: nat, dims: seq<Dim>, k: nat)
    requires Positive(Extents(dims)) && k < Total(Extents(dims))
    requires Contiguous(Extents(dims), Strides(dims))
    ensures Place(start, elemSize, dims, k) == start + k * elemSize
  {
    LinearOfIndex(k, Extents(dims));
    ContiguousOffset(Extents(dims), Strides(dims), Index(k, Extents(dims)));
  }

  /** A flat block copy is the packed element walk. */
  lemma {:induction false} FlatGathered(content: seq<bv8>, start: int, elemSize: nat, dims: seq<Dim>, n: nat)
    requires Positive(Extents(dims)) && Inside(start, elemSize, dims, |content|) && n <= Total(Extents(dims))
    requires Contiguous(Extents(dims), Strides(dims))
    ensures n > 0 ==> 0 <= start && start + n * elemSize <= |content|
    ensures n > 0 ==> Gathered(content, start, elemSize, dims, n) == content[start..start + n * elemSize]
    decreases n
  {
    hide Place, Inside, Contiguous;
    if n > 0 {
      FlatGathered(content, start, elemSize, dims, n - 1);
      FlatPlace(start, elemSize, dims, 0);
      FlatPlace(start, elemSize, dims, n - 1);
      InsideAt(start, elemSize, dims, |content|, 0);
      InsideAt(start, elemSize, dims, |content|, n - 1);
      DistributePred(elemSize, n - 1);
      var m := (n - 1) * elemSize;
      assert n * elemSize == m + elemSize;
      if n > 1 {
        JoinSlices(content, start, start + m, start + m + elemSize);
      }
    }
  }

  lemma {:induction false} JoinSlices(content: seq<bv8>, a: int, b: int, c: int)
    requires 0 <= a <= b <= c <= |content|
    ensures content[a..b] + content[b..c] == content[a..c]
  {
  }

  lemma {:induction false} InsideAt(start: int, elemSize: nat, dims: seq<Dim>, length: nat, k: nat)
    requires Positive(Extents(dims)) && Inside(start, elemSize, dims, length) && k < Total(Extents(dims))
    ensures 0 <= Place(start, elemSize, dims, k) && Place(start, elemSize, dims, k) + elemSize <= length
  {
  }

  /** Packs the view's elements into `dest`, of any view the flat test does not
      mistake. */
  method CopyToContiguous(src: array<bv8>, start: int, elemSize: nat, dims: seq<Dim>, dest: array<bv8>)
    requires src != dest && elemSize > 0 && Positive(Extents(dims))
    requires Copyable(dims) && Inside(start, elemSize, dims, src.Length)
    requires dest.Length == Total(Extents(dims)) * elemSize
    modifies dest
    ensures dest[..] == Gathered(src[..], start, elemSize, dims, Total(Extents(dims)))
  {
    hide Gathered, Total, Inside, LooksFlat, Positive, Contiguous;
    var strided := IsStrided(dims);
    TotalPositive(Extents(dims));
    if strided {
      CopyElements(src, start, elemSize, dims, dest);
    } else {
      FlatGathered(src[..], start, elemSize, dims, Total(Extents(dims)));
      CopyPiece(src, start, dest, 0, dest.Length);
      assert dest[..] == dest[0..0 + dest.Length];
    }
  }

  method CopyElements(src: array<bv8>, start: int, elemSize: nat, dims: seq<Dim>, dest: array<bv8>)
    requires src != dest && elemSize > 0 && Positive(Extents(dims))
    requires Inside(start, elemSize, dims, src.Length)
    requires dest.Length == Total(Extents(dims)) * elemSize
    modifies dest
    ensures dest[..] == Gathered(src[..], start, elemSize, dims, Total(Extents(dims)))
  {
    hide Inside, Index, Total, Place, Gathered, Offset, Step;
    var extents, strides := Extents(dims), Strides(dims);
    ghost var content := src[..];
    var total := Total(extents);
    var idx := new nat[|dims|](_ => 0);
    IndexZero(extents);
    assert idx[..] == Index(0, extents);
    GatheredStart(content, start, elemSize, dims);
    var k := 0;
    while k < total
      invariant 0 <= k <= total && src[..] == content
      invariant k < total ==> idx[..] == Index(k, extents)
      invariant k * elemSize <= dest.Length
      invariant dest[..k * elemSize] == Gathered(content, start, elemSize, dims, k)
    {
      var offset := ComputeOffset(idx, strides);
      PlaceIs(start, elemSize, dims, k);
      var from, to := start + offset * elemSize, k * elemSize;
      InsideAt(start, elemSize, dims, |content|, k);
      MulMonotone(elemSize, k + 1, total);
      DistributePred(elemSize, k);
      CopyPiece(src, from, dest, to, elemSize);
      GatheredStep(content, start, elemSize, dims, k);
      JoinSlices(dest[..], 0, to, to + elemSize);
      StepIndex(k, extents);
      Advance(idx, extents);
      k := k + 1;
    }
    assert dest[..] == dest[..k * elemSize];
  }

  lemma {:induction false} PlaceIs(start: int, elemSize: nat, dims: seq<Dim>, k: nat)
    requires Positive(Extents(dims))
    ensures |Index(k, Extents(dims))| == |dims|
    ensures Place(start, elemSize, dims, k) == start + Offset(Index(k, Extents(dims)), Strides(dims)) * elemSize
  {
    IndexInBox(k, Extents(dims));
  }

  lemma {:induction false} GatheredStart(content: seq<bv8>, start: int, elemSize: nat, dims: seq<Dim>)
    requires Positive(Extents(dims)) && Inside(start, elemSize, dims, |content|)
    ensures Gathered(content, start, elemSize, dims, 0) == []
  {
  }

  lemma {:induction false} GatheredStep(content: seq<bv8>, start: int, elemSize: nat, dims: seq<Dim>, k: nat)
    requires Positive(Extents(dims)) && Inside(start, elemSize, dims, |content|) && k < Total(Extents(dims))
    ensures 0 <= Place(start, elemSize, dims, k) && Place(start, elemSize, dims, k) + elemSize <= |content|
    ensures Gathered(content, start, elemSize, dims, k + 1)
         == Gathered(content, start, elemSize, dims, k)
            + content[Place(start, elemSize, dims, k)..Place(start, elemSize, dims, k) + elemSize]
  {
  }

  method CopyPiece(src: array<bv8>, from: int, dest: array<bv8>, to: int, n: nat)
    requires src != dest && 0 <= from && from + n <= src.Length && 0 <= to && to + n <= dest.Length
    modifies dest
    ensures dest[to..to + n] == src[from..from + n]
    ensures dest[..to] == old(dest[..to])
  {
    forall b | 0 <= b < n {
      dest[to + b] := src[from + b];
    }
  }
}
