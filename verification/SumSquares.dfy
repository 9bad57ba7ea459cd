/**
  SUM(a**2, DIM) without the temporary (runtime/src/array.rs,
  afs_array_sum_squares_real_dim and sum_squares_dim_generic).  Rank-2 arrays
  reduced along their first dimension take a column loop instead of the generic
  walk.  `add(sum, v)` stands for sum + v*v; nothing is supposed about it, so the
  results agree bit for bit in floating point.
 */
module SumSquares {
  import opened Odometer
  import opened StridedViews
  import opened Reductions

  /** Every slot is the fold of its row over the view's own elements. */
  ghost predicate RowFolds<A, V>(slots: seq<A>, dims: seq<Dim>, d: nat, read: int -> V, add: (A, V) -> A, zero: A)
    requires d < |dims|
  {
    var e := Extents(dims);
    |slots| == Total(Remove(e, d)) &&
    if Positive(e) then
      forall j :: 0 <= j < |slots| ==> slots[j] == Fold(Elements(read, 1, e, Strides(dims)), e, d, add, zero, j, e[d])
    else forall j :: 0 <= j < |slots| ==> slots[j] == zero
  }

  /** The slots at the front of `buf` are those folds; what lies beyond is zero. */
  ghost predicate Leaves<A, V>(buf: seq<A>, dims: seq<Dim>, d: nat, read: int -> V, add: (A, V) -> A, zero: A)
    requires d < |dims|
  {
    var n := Total(Remove(Extents(dims), d));
    && n <= |buf| && RowFolds(buf[..n], dims, d, read, add, zero)
    && forall j :: n <= j < |buf| ==> buf[j] == zero
  }

  /** The result strides, one per source dimension and zero for the reduced one. */
  method ResultStrides(dims: seq<Dim>, d: nat) returns (steps: seq<int>, total: int)
    requires d < |dims|
    ensures SlotStrides(Extents(dims), d, steps) && total == Total(Extents(dims))
  {
    hide Total;
    ghost var extents := Extents(dims);
    ghost var rest := Remove(extents, d);
    steps, total := [], 1;
    var stride := 1;
    ghost var kept := 0;
    TotalEmpty();
    for i := 0 to |dims|
      invariant kept == if i <= d then i else i - 1
      invariant |steps| == i && stride == Total(rest[..kept]) && total == Total(extents[..i])
      invariant i > d ==> steps[d] == 0
      invariant forall c :: 0 <= c < i && c != d ==> steps[c] == Total(rest[..if c < d then c else c - 1])
    {
      var extent := dims[i].Extent();
      TotalAppend(extents[..i], extents[i]);
      assert extents[..i + 1] == extents[..i] + [extents[i]];
      total := total * extent;
      if i != d {
        steps := steps + [stride];
        TotalAppend(rest[..kept], extents[i]);
        assert rest[..kept + 1] == rest[..kept] + [extents[i]];
        stride := stride * extent;
        kept := kept + 1;
      } else {
        steps := steps + [0];
      }
    }
    assert extents[..|dims|] == extents;
  }

  method GenericWalk<A, V>(dims: seq<Dim>, d: nat, read: int -> V, add: (A, V) -> A, ghost zero: A, buf: array<A>)
    requires d < |dims| && buf.Length >= Total(Remove(Extents(dims), d))
    requires forall j :: 0 <= j < buf.Length ==> buf[j] == zero
    modifies buf
    ensures Leaves(buf[..], dims, d, read, add, zero)
  {
    hide Total, Fold, Walk, Index, SlotStrides, SlotOf, Remove;
    var extents, strides := Extents(dims), Strides(dims);
    var steps, total := ResultStrides(dims, d);
    NonemptyExactly(extents);
    if total <= 0 {
      return;
    }
    ghost var elems := Elements(read, 1, extents, strides);
    ghost var n := Total(Remove(extents, d));
    ghost var init := buf[..n];
    var idx := new nat[|dims|](_ => 0);
    IndexZero(extents);
    assert idx[..] == Index(0, extents);
    WalkStart(elems, extents, d, add, init);
    for k := 0 to total
      invariant idx[..] == Index(if k < total then k else 0, extents)
      invariant buf[..n] == Walk(elems, extents, d, add, init, k)
      invariant forall j :: n <= j < buf.Length ==> buf[j] == zero
    {
      assert |steps| == |dims| by { StepsShape(extents, d, steps); }
      var source := ComputeOffset(idx, strides);
      var slot := ComputeOffset(idx, steps);
      SlotOffset(k, extents, d, steps);
      ElementOfSlot(k, extents, d);
      assert elems[k] == read(source * 1);
      WalkStep(elems, extents, d, add, init, k);
      buf[slot] := add(buf[slot], read(source));
      StepIndex(k, extents);
      Advance(idx, extents);
    }
    forall j | 0 <= j < n
      ensures buf[j] == Fold(elems, extents, d, add, zero, j, extents[d])
    {
      WalkFolds(elems, extents, d, add, init, j);
    }
  }

  /** Where the column loop reads is where the walk reads. */
  lemma {:induction false} MatrixElement<V>(dims: seq<Dim>, read: int -> V, row: nat, column: nat)
    requires |dims| == 2 && row < dims[0].Extent() && column < dims[1].Extent()
    ensures var e := Extents(dims);
      && Reducible(e, 0) && column < Total(Remove(e, 0)) && ElementOf(column, row, e, 0) < Total(e)
      && Elements(read, 1, e, Strides(dims))[ElementOf(column, row, e, 0)]
         == read(row * dims[0].stride + column * dims[1].stride)
  {
    var e, s := Extents(dims), Strides(dims);
    var pair := [row, column];
    assert Remove(e, 0) == [e[1]] && [e[1]][1..] == [];
    assert Total([e[1]]) == e[1] * Total([]);
    assert Index(column, [e[1]]) == [column];
    assert Insert([column], 0, row) == pair;
    LinearBound(pair, e);
    IndexOfLinear(pair, e);
    PairOffset(row, column, s);
  }

  lemma {:induction false} PairOffset(row: nat, column: nat, s: seq<int>)
    requires |s| == 2
    ensures Offset([row, column], s) == row * s[0] + column * s[1]
  {
    assert [row, column][1..] == [column] && s == [s[0], s[1]] && s[1..] == [s[1]];
    LastOffset(column, s[1]);
  }

  /** One column of the shortcut. */
  method ColumnSum<A, V>(dims: seq<Dim>, column: nat, read: int -> V, add: (A, V) -> A, zero: A) returns (sum: A)
    requires |dims| == 2 && column < dims[1].Extent()
    ensures dims[0].Extent() == 0 ==> sum == zero
    ensures dims[0].Extent() > 0 ==>
      && Reducible(Extents(dims), 0) && column < Total(Remove(Extents(dims), 0))
      && sum == Fold(Elements(read, 1, Extents(dims), Strides(dims)),
                     Extents(dims), 0, add, zero, column, dims[0].Extent())
  {
    hide Total, Remove, Elements, ElementOf;
    ghost var e := Extents(dims);
    sum := zero;
    var rows := dims[0].Extent();
    if rows > 0 {
      MatrixElement(dims, read, 0, column);
    }
    for row := 0 to rows
      invariant rows == 0 ==> sum == zero
      invariant rows > 0 ==> sum == Fold(Elements(read, 1, e, Strides(dims)), e, 0, add, zero, column, row)
    {
      MatrixElement(dims, read, row, column);
      var offset := row * dims[0].stride + column * dims[1].stride;
      sum := add(sum, read(offset));
    }
  }

  /** The shortcut leaves what the generic walk would leave. */
  method ColumnLoop<A, V>(dims: seq<Dim>, read: int -> V, add: (A, V) -> A, zero: A, buf: array<A>)
    requires |dims| == 2 && buf.Length >= Total(Remove(Extents(dims), 0))
    requires forall j :: 0 <= j < buf.Length ==> buf[j] == zero
    modifies buf
    ensures Leaves(buf[..], dims, 0, read, add, zero)
  {
    hide Total, Fold, Remove, Elements;
    ghost var e := Extents(dims);
    var columns := dims[1].Extent();
    assert Total(Remove(e, 0)) == columns by { ColumnCount(dims); }
    ghost var rows := dims[0].Extent();
    for column := 0 to columns
      invariant forall j :: columns <= j < buf.Length ==> buf[j] == zero
      invariant rows == 0 ==> forall j :: 0 <= j < column ==> buf[j] == zero
      invariant rows > 0 && columns > 0 ==>
        forall j :: 0 <= j < column ==> buf[j] == Fold(Elements(read, 1, e, Strides(dims)), e, 0, add, zero, j, rows)
    {
      var sum := ColumnSum(dims, column, read, add, zero);
      buf[column] := sum;
    }
  }

  lemma {:induction false} ColumnCount(dims: seq<Dim>)
    requires |dims| == 2
    ensures Total(Remove(Extents(dims), 0)) == dims[1].Extent()
  {
    var e := Extents(dims);
    assert Remove(e, 0) == [e[1]] && [e[1]][1..] == [];
    assert Total([e[1]]) == e[1] * Total([]);
  }

  /** Nothing happens for a dimension the source does not have. */
  method SumSquaresDim<A, V>(dims: seq<Dim>, dim: int, read: int -> V, add: (A, V) -> A, zero: A, buf: array<A>)
    requires 1 <= dim <= |dims| ==> buf.Length >= Total(Remove(Extents(dims), dim - 1))
    modifies buf
    ensures !(1 <= dim <= |dims|) ==> buf[..] == old(buf[..])
    ensures 1 <= dim <= |dims| ==> Leaves(buf[..], dims, dim - 1, read, add, zero)
  {
    hide Leaves, Total, Remove;
    if dim < 1 || dim > |dims| {
      return;
    }
    forall i | 0 <= i < buf.Length {
      buf[i] := zero;
    }
    if |dims| == 2 && dim == 1 {
      ColumnLoop(dims, read, add, zero, buf);
    } else {
      GenericWalk(dims, dim - 1, read, add, zero, buf);
    }
  }

  /** Both ways compute the same function of the source, so which one is taken
      cannot be told from the result. */
  lemma {:induction false} RowFoldsUnique<A, V>(a: seq<A>, b: seq<A>, dims: seq<Dim>, d: nat, read: int -> V,
                                                add: (A, V) -> A, zero: A)
    requires d < |dims| && |a| == |b| && Leaves(a, dims, d, read, add, zero) && Leaves(b, dims, d, read, add, zero)
    ensures a == b
  {
    hide Total, Fold, Elements, Remove;
    var n := Total(Remove(Extents(dims), d));
    assert forall j :: 0 <= j < n ==> a[j] == a[..n][j] && b[j] == b[..n][j];
    forall j | 0 <= j < |a|
      ensures a[j] == b[j]
    {
    }
  }
}
