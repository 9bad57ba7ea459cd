/**
  Reductions along one dimension (runtime/src/array.rs, for_each_reduce_along_dim,
  afs_array_sum_int, afs_array_sum_int_dim, afs_array_sum_squares_real_dim).
  One pass over the source in column-major order folds every element into the
  result slot found by dropping the reduced subscript.
 */
module Reductions {
  import opened Arith
  import opened MachineInts
  import opened Odometer
  import opened Powers
  import opened StridedViews

  // ---- Dropping and restoring one subscript ----

  function Remove<T>(s: seq<T>, d: nat): (r: seq<T>)
    requires d < |s|
    ensures |r| == |s| - 1
  {
    s[..d] + s[d + 1..]
  }

  function Insert<T>(s: seq<T>, d: nat, x: T): (r: seq<T>)
    requires d <= |s|
    ensures |r| == |s| + 1
  {
    s[..d] + [x] + s[d..]
  }

  ghost predicate Reducible(extents: seq<nat>, d: nat) {
    Positive(extents) && d < |extents|
  }

  /** The slot that element k is folded into. */
  ghost function SlotOf(k: nat, extents: seq<nat>, d: nat): nat
    requires Reducible(extents, d)
  {
    IndexInBox(k, extents);
    Linear(Remove(Index(k, extents), d), Remove(extents, d))
  }

  ghost function RowOf(k: nat, extents: seq<nat>, d: nat): nat
    requires Reducible(extents, d)
  {
    IndexInBox(k, extents);
    Index(k, extents)[d]
  }

  /** The element whose subscripts are those of slot j with r put in at d. */
  ghost function ElementOf(j: nat, r: nat, extents: seq<nat>, d: nat): nat
    requires Reducible(extents, d)
  {
    IndexInBox(j, Remove(extents, d));
    Linear(Insert(Index(j, Remove(extents, d)), d, r), extents)
  }

  lemma {:induction false} RemoveInBox(idx: seq<nat>, extents: seq<nat>, d: nat)
    requires InBox(idx, extents) && d < |extents|
    ensures InBox(Remove(idx, d), Remove(extents, d))
    ensures Insert(Remove(idx, d), d, idx[d]) == idx
  {
  }

  lemma {:induction false} InsertInBox(j: seq<nat>, r: nat, extents: seq<nat>, d: nat)
    requires d < |extents| && InBox(j, Remove(extents, d)) && r < extents[d]
    ensures InBox(Insert(j, d, r), extents)
    ensures Insert(j, d, r)[d] == r && Remove(Insert(j, d, r), d) == j
  {
  }

  /** Every element has one slot, inside the result, and is found again from slot and row. */
  lemma {:induction false} ElementOfSlot(k: nat, extents: seq<nat>, d: nat)
    requires Reducible(extents, d) && k < Total(extents)
    ensures SlotOf(k, extents, d) < Total(Remove(extents, d)) && RowOf(k, extents, d) < extents[d]
    ensures ElementOf(SlotOf(k, extents, d), RowOf(k, extents, d), extents, d) == k
  {
    hide Index, Linear, Total, Remove, Insert;
    var idx := Index(k, extents);
    LinearOfIndex(k, extents);
    RemoveInBox(idx, extents, d);
    LinearBound(Remove(idx, d), Remove(extents, d));
    IndexOfLinear(Remove(idx, d), Remove(extents, d));
  }

  /** Every slot and row name one element. */
  lemma {:induction false} SlotOfElement(j: nat, r: nat, extents: seq<nat>, d: nat)
    requires Reducible(extents, d) && j < Total(Remove(extents, d)) && r < extents[d]
    ensures ElementOf(j, r, extents, d) < Total(extents)
    ensures SlotOf(ElementOf(j, r, extents, d), extents, d) == j
    ensures RowOf(ElementOf(j, r, extents, d), extents, d) == r
  {
    hide Index, Linear, Total, Remove, Insert;
    LinearOfIndex(j, Remove(extents, d)) by {
      assert Positive(Remove(extents, d)) by { RemovePositive(extents, d); }
    }
    var idx := Insert(Index(j, Remove(extents, d)), d, r);
    InsertInBox(Index(j, Remove(extents, d)), r, extents, d);
    LinearBound(idx, extents);
    IndexOfLinear(idx, extents);
  }

  lemma {:induction false} RemovePositive(extents: seq<nat>, d: nat)
    requires Reducible(extents, d)
    ensures Positive(Remove(extents, d))
  {
  }

  lemma {:induction false} LinearConcat(a: seq<nat>, b: seq<nat>, ea: seq<nat>, eb: seq<nat>)
    requires |a| == |ea| && |b| == |eb|
    ensures Linear(a + b, ea + eb) == Linear(a, ea) + Total(ea) * Linear(b, eb)
    decreases |a|
  {
    if a == [] {
      assert a + b == b && ea + eb == eb && ea == [];
    } else {
      LinearConcat(a[1..], b, ea[1..], eb);
      assert (a + b)[1..] == a[1..] + b && (ea + eb)[1..] == ea[1..] + eb;
      ConcatAlgebra(ea[0], Linear(a[1..], ea[1..]), Total(ea[1..]), Linear(b, eb));
    }
  }

  lemma {:induction false} ConcatAlgebra(e: int, l: int, t: int, m: int)
    ensures e * (l + t * m) == e * l + (e * t) * m
  {
  }

  /** The walk meets the elements of one slot in row order. */
  lemma {:induction false} RowsInOrder(j: nat, r: nat, r': nat, extents: seq<nat>, d: nat)
    requires Reducible(extents, d) && r < r'
    ensures ElementOf(j, r, extents, d) < ElementOf(j, r', extents, d)
  {
    hide Index, Linear, Total;
    RemovePositive(extents, d);
    IndexInBox(j, Remove(extents, d));
    var idx := Index(j, Remove(extents, d));
    var a, b, ea := idx[..d], idx[d..], extents[..d];
    RowLinear(a, r, b, extents, d);
    RowLinear(a, r', b, extents, d);
    TotalPositive(ea);
    MulMonotone(Total(ea), r + 1, r');
    DistributePred(Total(ea), r);
  }

  lemma {:induction false} RowLinear(a: seq<nat>, r: nat, b: seq<nat>, extents: seq<nat>, d: nat)
    requires d < |extents| && |a| == d && |b| == |extents| - d - 1
    ensures Linear(a + [r] + b, extents)
         == Linear(a, extents[..d]) + Total(extents[..d]) * r
            + Total(extents[..d]) * (extents[d] * Linear(b, extents[d + 1..]))
  {
    var ea, eb, e := extents[..d], extents[d + 1..], extents[d];
    assert extents == ea + ([e] + eb) && a + [r] + b == a + ([r] + b);
    LinearConcat(a, [r] + b, ea, [e] + eb);
    assert ([r] + b)[1..] == b && ([e] + eb)[1..] == eb;
    DistributeSum(Total(ea), r, e * Linear(b, eb));
  }

  lemma {:induction false} DistributeSum(t: int, x: int, y: int)
    ensures t * (x + y) == t * x + t * y
  {
  }

  // ---- The fold ----

  /** The result after the walk has met the first k elements. */
  ghost function Walk<A, V>(elems: seq<V>, extents: seq<nat>, d: nat, add: (A, V) -> A, init: seq<A>,
                            k: nat): (r: seq<A>)
    requires Reducible(extents, d) && |elems| == Total(extents) && |init| == Total(Remove(extents, d)) && k <= |elems|
    ensures |r| == |init|
    decreases k
  {
    if k == 0 then init
    else
      ElementOfSlot(k - 1, extents, d);
      var before := Walk(elems, extents, d, add, init, k - 1);
      var slot := SlotOf(k - 1, extents, d);
      before[slot := add(before[slot], elems[k - 1])]
  }

  /** The left-to-right fold of one slot along the reduced dimension. */
  ghost function Fold<A, V>(elems: seq<V>, extents: seq<nat>, d: nat, add: (A, V) -> A, init: A, j: nat, rows: nat): A
    requires Reducible(extents, d) && |elems| == Total(extents) && j < Total(Remove(extents, d)) && rows <= extents[d]
    decreases rows
  {
    if rows == 0 then init
    else
      SlotOfElement(j, rows - 1, extents, d);
      add(Fold(elems, extents, d, add, init, j, rows - 1), elems[ElementOf(j, rows - 1, extents, d)])
  }

  /** After k elements a slot holds the fold of those of its rows the walk has met. */
  lemma {:induction false} WalkSlot<A, V>(elems: seq<V>, extents: seq<nat>, d: nat, add: (A, V) -> A, init: seq<A>,
                                          k: nat, j: nat, rows: nat)
    requires Reducible(extents, d) && |elems| == Total(extents) && |init| == Total(Remove(extents, d)) && k <= |elems|
    requires j < |init| && rows <= extents[d]
    requires rows > 0 ==> ElementOf(j, rows - 1, extents, d) < k
    requires rows < extents[d] ==> ElementOf(j, rows, extents, d) >= k
    ensures Walk(elems, extents, d, add, init, k)[j] == Fold(elems, extents, d, add, init[j], j, rows)
    decreases k
  {
    hide ElementOf, SlotOf, RowOf, Total;
    if k > 0 {
      var slot, row := SlotOf(k - 1, extents, d), RowOf(k - 1, extents, d);
      ElementOfSlot(k - 1, extents, d);
      if rows > 0 {
        SlotOfElement(j, rows - 1, extents, d);
      }
      if slot == j {
        if row < rows - 1 {
          RowsInOrder(j, row, rows - 1, extents, d);
        } else if row > rows {
          RowsInOrder(j, rows, row, extents, d);
        }
        assert rows > 0 && row == rows - 1;
        if rows > 1 {
          RowsInOrder(j, rows - 2, rows - 1, extents, d);
        }
        WalkSlot(elems, extents, d, add, init, k - 1, j, rows - 1);
      } else {
        WalkSlot(elems, extents, d, add, init, k - 1, j, rows);
      }
    }
  }

  /** A complete walk leaves in every slot the fold of its row, whatever `add` is:
      each element has gone into exactly one slot, in order. */
  lemma {:induction false} WalkFolds<A, V>(elems: seq<V>, extents: seq<nat>, d: nat, add: (A, V) -> A, init: seq<A>,
                                           j: nat)
    requires Reducible(extents, d) && |elems| == Total(extents) && |init| == Total(Remove(extents, d)) && j < |init|
    ensures Walk(elems, extents, d, add, init, |elems|)[j] == Fold(elems, extents, d, add, init[j], j, extents[d])
  {
    hide Walk, Fold, SlotOf, RowOf, ElementOf, Total;
    SlotOfElement(j, extents[d] - 1, extents, d);
    WalkSlot(elems, extents, d, add, init, |elems|, j, extents[d]);
  }

  // ---- The walk over memory ----

  /** The elements of a view in column-major order; `read` is the value stored a
      number of bytes after the base. */
  ghost function Elements<V>(read: int -> V, elemSize: int, extents: seq<nat>, strides: seq<int>): (r: seq<V>)
    requires Positive(extents) && |extents| == |strides|
    ensures |r| == Total(extents)
  {
    seq(Total(extents), k requires 0 <= k < Total(extents) => ElementAt(read, elemSize, extents, strides, k))
  }

  ghost function ElementAt<V>(read: int -> V, elemSize: int, extents: seq<nat>, strides: seq<int>, k: nat): V
    requires Positive(extents) && |extents| == |strides|
  {
    IndexInBox(k, extents);
    read(Offset(Index(k, extents), strides) * elemSize)
  }

  function Clamped(strides: seq<int>): (r: seq<int>)
    ensures |r| == |strides| && forall d :: 0 <= d < |strides| ==> r[d] == if strides[d] > 1 then strides[d] else 1
  {
    seq(|strides|, d requires 0 <= d < |strides| => if strides[d] > 1 then strides[d] else 1)
  }

  /** Column-major steps through the result, with none for the reduced dimension. */
  ghost predicate SlotStrides(extents: seq<nat>, d: nat, steps: seq<int>) {
    && d < |extents| && |steps| == |extents| && steps[d] == 0
    && forall i :: 0 <= i < |extents| && i != d ==> steps[i] == Total(Remove(extents, d)[..if i < d then i else i - 1])
  }

  lemma {:induction false} SlotOffset(k: nat, extents: seq<nat>, d: nat, steps: seq<int>)
    requires Reducible(extents, d) && SlotStrides(extents, d, steps)
    ensures |Index(k, extents)| == |extents|
    ensures Offset(Index(k, extents), steps) == SlotOf(k, extents, d)
  {
    hide Index, Linear, Total;
    IndexInBox(k, extents);
    var idx := Index(k, extents);
    RemoveInBox(idx, extents, d);
    DropZeroStep(idx, steps, d);
    var rest := Remove(steps, d);
    assert Contiguous(Remove(extents, d), rest);
    ContiguousOffset(Remove(extents, d), rest, Remove(idx, d));
  }

  lemma {:induction false} DropZeroStep(idx: seq<int>, steps: seq<int>, d: nat)
    requires |idx| == |steps| && d < |idx| && steps[d] == 0
    ensures Offset(idx, steps) == Offset(Remove(idx, d), Remove(steps, d))
  {
    var a, b, s, t := idx[..d], idx[d + 1..], steps[..d], steps[d + 1..];
    assert idx == a + ([idx[d]] + b) && steps == s + ([steps[d]] + t);
    OffsetConcat(a, [idx[d]] + b, s, [steps[d]] + t);
    OffsetConcat(a, b, s, t);
    assert ([idx[d]] + b)[1..] == b && ([steps[d]] + t)[1..] == t;
    assert idx[d] * steps[d] == 0;
  }

  /** The running strides of the result, and the source's extents and clamped strides. */
  method ReductionLayout(dims: seq<Dim>, d: nat) returns (running: seq<int>, ghost steps: seq<int>)
    requires d < |dims|
    ensures SlotStrides(Extents(dims), d, steps) && running == Remove(steps, d)
  {
    hide Total;
    ghost var extents := Extents(dims);
    ghost var rest := Remove(extents, d);
    running, steps := [], [];
    var acc := 1;
    assert Total([]) == 1 by { TotalEmpty(); }
    for i := 0 to |dims|
      invariant |running| == if i <= d then i else i - 1
      invariant |steps| == i && acc == Total(rest[..|running|])
      invariant i <= d ==> running == steps
      invariant i > d ==> running == Remove(steps, d) && steps[d] == 0
      invariant forall c :: 0 <= c < i && c != d ==> steps[c] == Total(rest[..if c < d then c else c - 1])
    {
      if i == d {
        steps := steps + [0];
      } else {
        running, steps := running + [acc], steps + [acc];
        assert rest[..|running|] == rest[..|running| - 1] + [extents[i]];
        TotalAppend(rest[..|running| - 1], extents[i]);
        acc := acc * dims[i].Extent();
      }
    }
  }

  /** Byte offset and slot of the element the odometer stands at. */
  method Locate(idx: array<nat>, strides: seq<int>, elemSize: int, d: nat, running: seq<int>, ghost steps: seq<int>)
    returns (byteOffset: int, slot: int)
    requires idx.Length == |strides| == |steps| && d < |steps| && steps[d] == 0 && running == Remove(steps, d)
    ensures byteOffset == Offset(idx[..], strides) * elemSize
    ensures slot == Offset(idx[..], steps)
  {
    byteOffset, slot := 0, 0;
    var dk := 0;
    ghost var offset := 0;
    for i := 0 to idx.Length
      invariant dk == if i <= d then i else i - 1
      invariant byteOffset == offset * elemSize && offset + Offset(idx[i..], strides[i..]) == Offset(idx[..], strides)
      invariant slot + Offset(idx[i..], steps[i..]) == Offset(idx[..], steps)
    {
      assert idx[i..][1..] == idx[i + 1..];
      assert strides[i..][1..] == strides[i + 1..] && steps[i..][1..] == steps[i + 1..];
      SumTimes(offset, idx[i] * strides[i], elemSize);
      offset := offset + idx[i] * strides[i];
      byteOffset := byteOffset + idx[i] * strides[i] * elemSize;
      if i != d {
        assert running[dk] == steps[i];
        slot := slot + idx[i] * running[dk];
        dk := dk + 1;
      } else {
        assert idx[i] * steps[i] == 0;
      }
    }
  }

  /** The generic walk: the slots of `buf` go from their old contents to the fold of
      every row, read with strides below one taken as one; what a larger result
      holds beyond them stays. */
  method ReduceAlongDim<A, V>(dims: seq<Dim>, elemSize: int, dim: int, read: int -> V, add: (A, V) -> A, buf: array<A>)
    requires 1 <= dim <= |dims| ==> buf.Length >= Total(Remove(Extents(dims), dim - 1))
    modifies buf
    ensures !(1 <= dim <= |dims| && Positive(Extents(dims))) ==> buf[..] == old(buf[..])
    ensures 1 <= dim <= |dims| && Positive(Extents(dims)) ==>
      var e, elems := Extents(dims), Elements(read, elemSize, Extents(dims), Clamped(Strides(dims)));
      var n := Total(Remove(e, dim - 1));
      && (forall j :: 0 <= j < n ==> buf[j] == Fold(elems, e, dim - 1, add, old(buf[j]), j, e[dim - 1]))
      && buf[n..] == old(buf[n..])
  {
    hide Total, Fold, Walk, Index, SlotStrides, SlotOf;
    if dim < 1 || dim > |dims| {
      return;
    }
    var d := dim - 1;
    var extents, strides := Extents(dims), Clamped(Strides(dims));
    var running; ghost var steps;
    running, steps := ReductionLayout(dims, d);
    var total := Total(extents);
    NonemptyExactly(extents);
    if total <= 0 {
      return;
    }
    ghost var elems := Elements(read, elemSize, extents, strides);
    ghost var n := Total(Remove(extents, d));
    ghost var init, beyond := buf[..n], buf[n..];
    var idx := new nat[|dims|](_ => 0);
    IndexZero(extents);
    assert idx[..] == Index(0, extents);
    WalkStart(elems, extents, d, add, init);
    for k := 0 to total
      invariant idx[..] == Index(if k < total then k else 0, extents)
      invariant buf[..n] == Walk(elems, extents, d, add, init, k) && buf[n..] == beyond
    {
      assert steps[d] == 0 && |steps| == |dims| by { StepsShape(extents, d, steps); }
      var byteOffset, slot := Locate(idx, strides, elemSize, d, running, steps);
      SlotOffset(k, extents, d, steps);
      ElementOfSlot(k, extents, d);
      assert elems[k] == read(byteOffset);
      WalkStep(elems, extents, d, add, init, k);
      buf[slot] := add(buf[slot], read(byteOffset));
      StepIndex(k, extents);
      Advance(idx, extents);
    }
    forall j | 0 <= j < n
      ensures buf[j] == Fold(elems, extents, d, add, init[j], j, extents[d])
    {
      WalkFolds(elems, extents, d, add, init, j);
    }
  }

  lemma {:induction false} StepsShape(extents: seq<nat>, d: nat, steps: seq<int>)
    requires SlotStrides(extents, d, steps)
    ensures d < |extents| && |steps| == |extents| && steps[d] == 0
  {
  }

  lemma {:induction false} WalkStart<A, V>(elems: seq<V>, extents: seq<nat>, d: nat, add: (A, V) -> A, init: seq<A>)
    requires Reducible(extents, d) && |elems| == Total(extents) && |init| == Total(Remove(extents, d))
    ensures Walk(elems, extents, d, add, init, 0) == init
  {
  }

  lemma {:induction false} WalkStep<A, V>(elems: seq<V>, extents: seq<nat>, d: nat, add: (A, V) -> A, init: seq<A>,
                                          k: nat)
    requires Reducible(extents, d) && |elems| == Total(extents) && |init| == Total(Remove(extents, d)) && k < |elems|
    ensures SlotOf(k, extents, d) < |init|
    ensures var before, slot := Walk(elems, extents, d, add, init, k), SlotOf(k, extents, d);
      Walk(elems, extents, d, add, init, k + 1) == before[slot := add(before[slot], elems[k])]
  {
    ElementOfSlot(k, extents, d);
  }

  // ---- Clamped strides ----

  ghost predicate SameAddresses(extents: seq<nat>, s: seq<int>, t: seq<int>)
    requires Positive(extents) && |extents| == |s| == |t|
  {
    forall k :: 0 <= k < Total(extents) ==> SameAddress(extents, s, t, k)
  }

  ghost predicate SameAddress(extents: seq<nat>, s: seq<int>, t: seq<int>, k: nat)
    requires Positive(extents) && |extents| == |s| == |t|
  {
    IndexInBox(k, extents);
    Offset(Index(k, extents), s) == Offset(Index(k, extents), t)
  }

  ghost predicate Ascending(extents: seq<nat>, strides: seq<int>)
    requires |extents| == |strides|
  {
    forall d :: 0 <= d < |extents| && extents[d] > 1 ==> strides[d] >= 1
  }

  lemma {:induction false} OffsetsAgree(idx: seq<nat>, extents: seq<nat>, s: seq<int>, t: seq<int>)
    requires InBox(idx, extents) && |extents| == |s| == |t|
    requires forall d :: 0 <= d < |extents| && extents[d] > 1 ==> s[d] == t[d]
    ensures Offset(idx, s) == Offset(idx, t)
    decreases |idx|
  {
    if idx != [] {
      OffsetsAgree(idx[1..], extents[1..], s[1..], t[1..]);
      assert idx[0] < extents[0];
      assert idx[0] * s[0] == idx[0] * t[0];
    }
  }

  /** The clamped walk reads the view's own elements exactly when every dimension
      with more than one element has a positive stride. */
  lemma {:induction false} ClampExactly(extents: seq<nat>, strides: seq<int>)
    requires Positive(extents) && |extents| == |strides|
    ensures Ascending(extents, strides) <==> SameAddresses(extents, Clamped(strides), strides)
  {
    hide Index, Total;
    var clamped := Clamped(strides);
    if Ascending(extents, strides) {
      forall k | 0 <= k < Total(extents)
        ensures SameAddress(extents, clamped, strides, k)
      {
        IndexInBox(k, extents);
        OffsetsAgree(Index(k, extents), extents, clamped, strides);
      }
    }
    if SameAddresses(extents, clamped, strides) {
      forall d | 0 <= d < |extents| && extents[d] > 1
        ensures strides[d] >= 1
      {
        var u := UnitVector(extents, strides, d);
        var u' := UnitVector(extents, clamped, d);
        assert u == u' by {
          IndexOfLinear(u, extents);
          IndexOfLinear(u', extents);
        }
        LinearBound(u, extents);
        IndexOfLinear(u, extents);
        assert SameAddress(extents, clamped, strides, Linear(u, extents));
      }
    }
  }

  /** A reversed pair: the clamped walk looks one element after the first, not one before. */
  lemma {:induction false} ReversedViewMisread()
    ensures !SameAddresses([2], Clamped([-1]), [-1])
  {
    ClampExactly([2], [-1]);
    assert !Ascending([2], [-1]) by {
      assert [2][0] > 1 && [-1][0] < 1;
    }
  }

  lemma {:induction false} SameElements<V>(read: int -> V, elemSize: int, extents: seq<nat>, strides: seq<int>)
    requires Positive(extents) && |extents| == |strides| && Ascending(extents, strides)
    ensures Elements(read, elemSize, extents, Clamped(strides)) == Elements(read, elemSize, extents, strides)
  {
    hide Index, Total, Offset;
    ClampExactly(extents, strides);
    forall k | 0 <= k < Total(extents)
      ensures ElementAt(read, elemSize, extents, Clamped(strides), k) == ElementAt(read, elemSize, extents, strides, k)
    {
      assert SameAddress(extents, Clamped(strides), strides, k);
    }
  }

  // ---- SUM ----

  ghost function SumOf(s: seq<int>): int {
    if s == [] then 0 else SumOf(s[..|s| - 1]) + s[|s| - 1]
  }

  lemma {:induction false} SumUpdated(s: seq<int>, j: nat, v: int)
    requires j < |s|
    ensures SumOf(s[j := v]) == SumOf(s) - s[j] + v
    decreases |s|
  {
    var n := |s| - 1;
    if j < n {
      SumUpdated(s[..n], j, v);
      assert s[j := v][..n] == s[..n][j := v];
    } else {
      assert s[j := v][..n] == s[..n];
    }
  }

  lemma {:induction false} SumPrefix(s: seq<int>, k: nat)
    requires k < |s|
    ensures SumOf(s[..k + 1]) == SumOf(s[..k]) + s[k]
  {
    assert s[..k + 1][..k] == s[..k];
  }

  /** SUM over the whole array, in 64-bit wrap-around arithmetic; sizes below one
      count as one. */
  method SumInt(isNull: bool, dims: seq<Dim>, elemSize: int, read: int -> int) returns (sum: int)
    ensures isNull || dims == [] || !Positive(Extents(dims)) ==> sum == 0
    ensures !isNull && dims != [] && Positive(Extents(dims)) ==>
      FitsAs(sum, SumOf(Elements(read, if elemSize > 1 then elemSize else 1, Extents(dims), Strides(dims))), 64)
  {
    hide Total, Index, Wrap, SumOf, FitsAs, Bit;
    sum := 0;
    if isNull || |dims| == 0 {
      return;
    }
    var extents, strides := Extents(dims), Strides(dims);
    for i := 0 to |dims|
      invariant forall d :: 0 <= d < i ==> extents[d] > 0
    {
      if extents[i] <= 0 {
        return;
      }
    }
    var total := Total(extents);
    var size := if elemSize > 1 then elemSize else 1;
    ghost var elems := Elements(read, size, extents, strides);
    var idx := new nat[|dims|](_ => 0);
    IndexZero(extents);
    assert idx[..] == Index(0, extents);
    NoSum(elems);
    WrapNothing(TWO_64);
    for k := 0 to total
      invariant idx[..] == Index(if k < total then k else 0, extents)
      invariant sum == Wrap(SumOf(elems[..k]), TWO_64)
    {
      var offset := ComputeOffset(idx, strides);
      assert elems[k] == read(offset * size);
      SumPrefix(elems, k);
      WrapOnce(SumOf(elems[..k]), elems[k], TWO_64);
      sum := Wrap(sum + read(offset * size), TWO_64);
      StepIndex(k, extents);
      Advance(idx, extents);
    }
    assert elems[..total] == elems;
    ByteWidths();
    WrapFits(SumOf(elems), TWO_64, 64);
  }

  function Width(elemSize: int): Modulus {
    match elemSize
    case 1 => 0x100
    case 2 => 0x1_0000
    case 4 => 0x1_0000_0000
    case _ => TWO_64
  }

  function WrappingAdd(m: Modulus): (int, int) -> int {
    (sum, v) => Wrap(sum + v, m)
  }

  /** SUM along a dimension, in the element's own width; a larger result is zero
      beyond the slots. */
  method SumIntDim(dims: seq<Dim>, elemSize: int, dim: int, read: int -> int, buf: array<int>)
    requires 1 <= dim <= |dims| ==> buf.Length >= Total(Remove(Extents(dims), dim - 1))
    modifies buf
    ensures !(1 <= dim <= |dims| && Positive(Extents(dims))) ==> forall j :: 0 <= j < buf.Length ==> buf[j] == 0
    ensures 1 <= dim <= |dims| && Positive(Extents(dims)) ==>
      var n := Total(Remove(Extents(dims), dim - 1));
      var elems := Elements(read, elemSize, Extents(dims), Clamped(Strides(dims)));
      && RowSums(buf[..n], elems, Extents(dims), dim - 1, if elemSize in {1, 2, 4} then 8 * elemSize else 64)
      && forall j :: n <= j < buf.Length ==> buf[j] == 0
  {
    hide Fold, Total, Remove, DimSums, RowSums;
    forall i | 0 <= i < buf.Length {
      buf[i] := 0;
    }
    ReduceAlongDim(dims, elemSize, dim, read, WrappingAdd(Width(elemSize)), buf);
    if 1 <= dim <= |dims| && Positive(Extents(dims)) {
      ghost var elems := Elements(read, elemSize, Extents(dims), Clamped(Strides(dims)));
      ghost var n := Total(Remove(Extents(dims), dim - 1));
      FoldsAreDimSums(buf[..n], elems, Extents(dims), dim - 1, Width(elemSize));
      WidthIs(elemSize);
      DimSumsAreRowSums(buf[..n], elems, Extents(dims), dim - 1, elemSize);
    }
  }

  lemma {:induction false} FoldsAreDimSums(slots: seq<int>, elems: seq<int>, extents: seq<nat>, d: nat, m: Modulus)
    requires Reducible(extents, d) && |elems| == Total(extents) && |slots| == Total(Remove(extents, d))
    requires forall j :: 0 <= j < |slots| ==> slots[j] == Fold(elems, extents, d, WrappingAdd(m), 0, j, extents[d])
    ensures DimSums(slots, elems, extents, d, m)
  {
  }

  lemma {:induction false} WidthIs(elemSize: int)
    ensures Width(elemSize) == Bit(if elemSize in {1, 2, 4} then 8 * elemSize else 64)
  {
    ByteWidths();
  }

  // ---- What a slot holds ----

  /** The elements of slot j along the reduced dimension. */
  ghost function Row(elems: seq<int>, extents: seq<nat>, d: nat, j: nat, rows: nat): (r: seq<int>)
    requires Reducible(extents, d) && |elems| == Total(extents) && j < Total(Remove(extents, d)) && rows <= extents[d]
    ensures |r| == rows
    decreases rows
  {
    if rows == 0 then []
    else
      SlotOfElement(j, rows - 1, extents, d);
      Row(elems, extents, d, j, rows - 1) + [elems[ElementOf(j, rows - 1, extents, d)]]
  }

  /** Every slot is the sum of its row as an integer of the given width. */
  ghost predicate RowSums(slots: seq<int>, elems: seq<int>, extents: seq<nat>, d: nat, bits: nat)
    requires Reducible(extents, d) && |elems| == Total(extents) && bits > 0
  {
    |slots| == Total(Remove(extents, d)) &&
    forall j :: 0 <= j < |slots| ==> FitsAs(slots[j], SumOf(Row(elems, extents, d, j, extents[d])), bits)
  }

  lemma {:induction false} FoldIsRowSum(elems: seq<int>, extents: seq<nat>, d: nat, m: Modulus, j: nat, rows: nat)
    requires Reducible(extents, d) && |elems| == Total(extents) && j < Total(Remove(extents, d)) && rows <= extents[d]
    ensures Fold(elems, extents, d, WrappingAdd(m), 0, j, rows) == Wrap(SumOf(Row(elems, extents, d, j, rows)), m)
    decreases rows
  {
    hide Wrap, ElementOf, Total, Remove, Reducible;
    if rows == 0 {
      WrapNothing(m);
    } else {
      FoldIsRowSum(elems, extents, d, m, j, rows - 1);
      SlotOfElement(j, rows - 1, extents, d);
      var before, v := Row(elems, extents, d, j, rows - 1), elems[ElementOf(j, rows - 1, extents, d)];
      assert (before + [v])[..rows - 1] == before;
      WrapOnce(SumOf(before), v, m);
    }
  }

  lemma {:induction false} WrapNothing(m: Modulus)
    ensures Wrap(0, m) == 0
  {
    DivMod(m / 2, m, 0, m / 2);
  }

  lemma {:induction false} DimSumsAreRowSums(slots: seq<int>, elems: seq<int>, extents: seq<nat>, d: nat, elemSize: int)
    requires Reducible(extents, d) && |elems| == Total(extents)
    requires DimSums(slots, elems, extents, d, Width(elemSize))
    ensures RowSums(slots, elems, extents, d, if elemSize in {1, 2, 4} then 8 * elemSize else 64)
  {
    hide Wrap, Fold, Row, Total, Remove, FitsAs, Width, Bit, SumOf;
    var bits := if elemSize in {1, 2, 4} then 8 * elemSize else 64;
    WidthIs(elemSize);
    forall j | 0 <= j < |slots|
      ensures FitsAs(slots[j], SumOf(Row(elems, extents, d, j, extents[d])), bits)
    {
      FoldIsRowSum(elems, extents, d, Width(elemSize), j, extents[d]);
      WrapFits(SumOf(Row(elems, extents, d, j, extents[d])), Width(elemSize), bits);
    }
  }

  /** Slot j holds the wrapped sum of its row. */
  ghost predicate DimSums(slots: seq<int>, elems: seq<int>, extents: seq<nat>, d: nat, m: Modulus)
    requires Reducible(extents, d) && |elems| == Total(extents)
  {
    |slots| == Total(Remove(extents, d)) &&
    forall j :: 0 <= j < |slots| ==> slots[j] == Fold(elems, extents, d, WrappingAdd(m), 0, j, extents[d])
  }

  lemma {:induction false} WalkConserves(elems: seq<int>, extents: seq<nat>, d: nat, m: Modulus, init: seq<int>, k: nat)
    requires Reducible(extents, d) && |elems| == Total(extents) && |init| == Total(Remove(extents, d)) && k <= |elems|
    ensures Congruent(SumOf(Walk(elems, extents, d, WrappingAdd(m), init, k)), SumOf(init) + SumOf(elems[..k]), m)
    decreases k
  {
    hide Walk, SlotOf, Total, Reducible, Remove, Wrap, SumOf;
    if k == 0 {
      WalkStart(elems, extents, d, WrappingAdd(m), init);
      assert SumOf(elems[..0]) == 0 by { NoSum(elems); }
    } else {
      hide Congruent;
      WalkConserves(elems, extents, d, m, init, k - 1);
      WalkStep(elems, extents, d, WrappingAdd(m), init, k - 1);
      var before, slot := Walk(elems, extents, d, WrappingAdd(m), init, k - 1), SlotOf(k - 1, extents, d);
      SlotConserves(before, slot, elems[k - 1], m, SumOf(init) + SumOf(elems[..k - 1]));
      SumPrefix(elems, k - 1);
    }
  }

  /** Adding v to one slot adds v to the total. */
  lemma {:induction false} SlotConserves(before: seq<int>, slot: nat, v: int, m: Modulus, sum: int)
    requires slot < |before| && Congruent(SumOf(before), sum, m)
    ensures Congruent(SumOf(before[slot := Wrap(before[slot] + v, m)]), sum + v, m)
  {
    hide Congruent, SumOf, Wrap;
    var after := Wrap(before[slot] + v, m);
    SumUpdated(before, slot, after);
    WrapCongruent(before[slot] + v, m);
    var rest := SumOf(before) - before[slot];
    CongruentSum(after, before[slot] + v, rest, m);
    CongruentSum(SumOf(before), sum, v, m);
    assert after + rest == SumOf(before) - before[slot] + after;
    assert before[slot] + v + rest == SumOf(before) + v;
    CongruentChain(after + rest, SumOf(before) + v, sum + v, m);
  }

  lemma {:induction false} NoSum(elems: seq<int>)
    ensures SumOf(elems[..0]) == 0
  {
  }

  lemma {:induction false} ZeroSum(n: nat)
    ensures SumOf(Zeros(n)) == 0
    decreases n
  {
    if n > 0 {
      ZeroSum(n - 1);
      assert Zeros(n)[..n - 1] == Zeros(n - 1);
    }
  }

  /** The slots' total is congruent to the elements' total. */
  lemma {:induction false} DimSumsConserve(slots: seq<int>, elems: seq<int>, extents: seq<nat>, d: nat, m: Modulus)
    requires Reducible(extents, d) && |elems| == Total(extents) && DimSums(slots, elems, extents, d, m)
    ensures Congruent(SumOf(slots), SumOf(elems), m)
  {
    hide Fold, Walk, SumOf, Total, Wrap, Congruent;
    var init := Zeros(|slots|);
    ZeroSum(|slots|);
    forall j | 0 <= j < |slots|
      ensures slots[j] == Walk(elems, extents, d, WrappingAdd(m), init, |elems|)[j]
    {
      WalkFolds(elems, extents, d, WrappingAdd(m), init, j);
    }
    assert slots == Walk(elems, extents, d, WrappingAdd(m), init, |elems|);
    WalkConserves(elems, extents, d, m, init, |elems|);
    assert elems[..|elems|] == elems;
  }

  lemma {:induction false} RowSumsAreDimSums(slots: seq<int>, elems: seq<int>, extents: seq<nat>, d: nat, bits: nat,
                                             m: Modulus)
    requires Reducible(extents, d) && |elems| == Total(extents) && bits > 0 && m == Bit(bits)
    requires RowSums(slots, elems, extents, d, bits)
    ensures DimSums(slots, elems, extents, d, m)
  {
    hide Wrap, Fold, Row, Total, Remove, FitsAs, Bit, SumOf;
    forall j | 0 <= j < |slots|
      ensures slots[j] == Fold(elems, extents, d, WrappingAdd(m), 0, j, extents[d])
    {
      FoldIsRowSum(elems, extents, d, m, j, extents[d]);
      FitsIsWrap(slots[j], SumOf(Row(elems, extents, d, j, extents[d])), m, bits);
    }
  }

  /** SUM(a, DIM) adds up to SUM(a), modulo the element width, on every view the
      clamp leaves alone. */
  lemma {:induction false} DimTotalsAgree(dims: seq<Dim>, elemSize: int, d: nat, read: int -> int, slots: seq<int>,
                                          whole: int)
    requires Reducible(Extents(dims), d) && Ascending(Extents(dims), Strides(dims)) && elemSize in {1, 2, 4, 8}
    requires RowSums(slots, Elements(read, elemSize, Extents(dims), Clamped(Strides(dims))),
                     Extents(dims), d, 8 * elemSize)
    requires FitsAs(whole, SumOf(Elements(read, elemSize, Extents(dims), Strides(dims))), 64)
    ensures Congruent(SumOf(slots), whole, Bit(8 * elemSize))
  {
    var elems, sum := Elements(read, elemSize, Extents(dims), Strides(dims)), SumOf(slots);
    var total := SumOf(elems);
    hide RowSums, DimSums, SumOf, Elements, Wrap, Bit;
    var c := match elemSize
      case 1 => 0x100_0000_0000_0000
      case 2 => 0x1_0000_0000_0000
      case 4 => 0x1_0000_0000
      case _ => 1;
    ByteWidths();
    var m: Modulus := match elemSize
      case 1 => 0x100
      case 2 => 0x1_0000
      case 4 => 0x1_0000_0000
      case _ => TWO_64;
    assert m == Bit(8 * elemSize) && m * c == TWO_64;
    SameElements(read, elemSize, Extents(dims), Strides(dims));
    RowSumsAreDimSums(slots, elems, Extents(dims), d, 8 * elemSize, m);
    DimSumsConserve(slots, elems, Extents(dims), d, m);
    assert Congruent(whole, total, TWO_64);
    hide FitsAs, Congruent;
    CoarserModulus(whole, total, m, c);
    CongruentBack(whole, total, m);
    CongruentChain(sum, total, whole, m);
  }
}
