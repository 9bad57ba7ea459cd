/**
  Array sections (runtime/src/array.rs, afs_create_section).  A section is a new
  view of the same memory; a spec with stride zero selects one subscript and
  drops the dimension.
 */
module Sections {
  import opened Arith
  import opened Odometer
  import opened StridedViews
  import opened Allocatables

  datatype SectionSpec = SectionSpec(start: int, end: int, stride: int)

  /** Division rounding toward zero. */
  function TruncDiv(a: int, b: int): int
    requires b != 0
  {
    if a >= 0 && b > 0 then a / b
    else if a >= 0 then -(a / -b)
    else if b > 0 then -(-a / b)
    else -a / -b
  }

  predicate IsEmpty(s: SectionSpec) {
    (s.stride > 0 && s.start > s.end) || (s.stride < 0 && s.start < s.end)
  }

  function SectionExtent(s: SectionSpec): (n: int)
    requires s.stride != 0
    ensures n >= 0
  {
    if IsEmpty(s) then 0 else TruncDiv(s.end - s.start, s.stride) + 1
  }

  function Kept(specs: seq<SectionSpec>): nat {
    if specs == [] then 0 else (if specs[0].stride == 0 then 0 else 1) + Kept(specs[1..])
  }

  function SectionDims(dims: seq<Dim>, specs: seq<SectionSpec>): (r: seq<Dim>)
    requires |dims| == |specs|
    ensures |r| == Kept(specs)
  {
    if specs == [] then []
    else if specs[0].stride == 0 then SectionDims(dims[1..], specs[1..])
    else [Dim(1, SectionExtent(specs[0]), dims[0].stride * specs[0].stride)] + SectionDims(dims[1..], specs[1..])
  }

  /** Elements from the source's first element to the section's first element. */
  function SectionShift(dims: seq<Dim>, specs: seq<SectionSpec>): int
    requires |dims| == |specs|
  {
    if specs == [] then 0
    else (specs[0].start - dims[0].lower) * dims[0].stride + SectionShift(dims[1..], specs[1..])
  }

  /** The source element that element idx of the section stands for: subscript
      start + i*stride in every kept dimension. */
  function SourceIndex(dims: seq<Dim>, specs: seq<SectionSpec>, idx: seq<nat>): (r: seq<int>)
    requires |dims| == |specs| && |idx| == Kept(specs)
    ensures |r| == |dims|
  {
    if specs == [] then []
    else if specs[0].stride == 0 then
      [specs[0].start - dims[0].lower] + SourceIndex(dims[1..], specs[1..], idx)
    else
      [specs[0].start - dims[0].lower + idx[0] * specs[0].stride] + SourceIndex(dims[1..], specs[1..], idx[1..])
  }

  method CreateSection(source: ArrayDescriptor, result: ArrayDescriptor, specs: seq<SectionSpec>)
    requires source != result && |specs| <= |source.dims|
    modifies result
    ensures result.dims == SectionDims(source.dims[..|specs|], specs)
    ensures result.elemSize == source.elemSize && !result.isAllocated
    ensures result.baseAddr == if source.baseAddr == 0 then 0
                               else source.baseAddr + SectionShift(source.dims[..|specs|], specs) * source.elemSize
    ensures result.contiguous <==> forall d :: 0 <= d < |result.dims| ==> result.dims[d].stride == 1
  {
    hide SectionShift, SectionDims, SectionExtent;
    ghost var all := source.dims[..|specs|];
    var shift := 0;
    var dims: seq<Dim> := [];
    for i := 0 to |specs|
      invariant shift + SectionShift(all[i..], specs[i..]) == SectionShift(all, specs)
      invariant dims + SectionDims(all[i..], specs[i..]) == SectionDims(all, specs)
    {
      SectionStep(all, specs, i, dims);
      var spec, srcDim := specs[i], source.dims[i];
      shift := shift + (spec.start - srcDim.lower) * srcDim.stride;
      if spec.stride != 0 {
        dims := dims + [Dim(1, SectionExtent(spec), srcDim.stride * spec.stride)];
      }
    }
    SectionEnd(all, specs, dims);
    result.elemSize, result.dims := source.elemSize, dims;
    result.isAllocated := false;
    result.baseAddr := if source.baseAddr == 0 then 0 else source.baseAddr + shift * source.elemSize;
    result.contiguous := forall d :: 0 <= d < |dims| ==> dims[d].stride == 1;
  }

  lemma {:induction false} SectionStep(dims: seq<Dim>, specs: seq<SectionSpec>, i: nat, done: seq<Dim>)
    requires |dims| == |specs| && i < |dims|
    ensures SectionShift(dims[i..], specs[i..])
         == (specs[i].start - dims[i].lower) * dims[i].stride + SectionShift(dims[i + 1..], specs[i + 1..])
    ensures specs[i].stride == 0 ==> SectionDims(dims[i..], specs[i..]) == SectionDims(dims[i + 1..], specs[i + 1..])
    ensures specs[i].stride != 0 ==>
      done + SectionDims(dims[i..], specs[i..])
      == done + [Dim(1, SectionExtent(specs[i]), dims[i].stride * specs[i].stride)]
         + SectionDims(dims[i + 1..], specs[i + 1..])
  {
    hide SectionExtent;
    assert dims[i..][1..] == dims[i + 1..] && specs[i..][1..] == specs[i + 1..];
  }

  lemma {:induction false} SectionEnd(dims: seq<Dim>, specs: seq<SectionSpec>, done: seq<Dim>)
    requires |dims| == |specs|
    ensures SectionShift(dims[|dims|..], specs[|dims|..]) == 0
    ensures done + SectionDims(dims[|dims|..], specs[|dims|..]) == done
  {
  }

  // ---- What a section contains ----

  /** The subscript lies between start and end, in the stride's direction. */
  predicate Reaches(s: SectionSpec, i: nat) {
    if s.stride > 0 then s.start + i * s.stride <= s.end else s.start + i * s.stride >= s.end
  }

  /** The extent counts exactly the subscripts between start and end. */
  lemma {:induction false} ExtentCounts(s: SectionSpec, i: nat)
    requires s.stride != 0
    ensures i < SectionExtent(s) <==> Reaches(s, i)
  {
    if s.stride > 0 {
      MulMonotone(s.stride, 0, i);
      if s.start <= s.end {
        CountUpTo(s.end - s.start, s.stride, i);
      }
    } else {
      MulMonotone(-s.stride, 0, i);
      assert i * s.stride == -(-s.stride * i);
      if s.start >= s.end {
        CountUpTo(s.start - s.end, -s.stride, i);
        BothNegative(s.end - s.start, s.stride);
      }
    }
  }

  lemma {:induction false} CountUpTo(span: nat, step: nat, i: nat)
    requires step > 0
    ensures i < span / step + 1 <==> step * i <= span
  {
    var q, r := Euclid(span, step);
    if i <= q {
      MulMonotone(step, i, q);
    } else {
      MulMonotone(step, q + 1, i);
      DistributePred(step, q);
    }
  }

  lemma {:induction false} BothNegative(a: int, b: int)
    requires a <= 0 && b < 0
    ensures TruncDiv(a, b) == -a / -b
  {
    if a == 0 {
      DivMod(0, -b, 0, 0);
    }
  }

  /** A section's element and the source element it stands for have one address. */
  lemma {:induction false} SectionAddress(dims: seq<Dim>, specs: seq<SectionSpec>, idx: seq<nat>)
    requires |dims| == |specs| && |idx| == Kept(specs)
    ensures SectionShift(dims, specs) + Offset(idx, Strides(SectionDims(dims, specs)))
         == Offset(SourceIndex(dims, specs, idx), Strides(dims))
    decreases |specs|
  {
    if specs != [] {
      assert Strides(dims)[1..] == Strides(dims[1..]);
      var si := SourceIndex(dims, specs, idx);
      if specs[0].stride == 0 {
        SectionAddress(dims[1..], specs[1..], idx);
        assert si[1..] == SourceIndex(dims[1..], specs[1..], idx);
      } else {
        SectionAddress(dims[1..], specs[1..], idx[1..]);
        assert si[1..] == SourceIndex(dims[1..], specs[1..], idx[1..]);
        assert Strides(SectionDims(dims, specs))[1..] == Strides(SectionDims(dims[1..], specs[1..]));
        AddressAlgebra(specs[0].start - dims[0].lower, idx[0], specs[0].stride, dims[0].stride);
      }
    }
  }

  lemma {:induction false} AddressAlgebra(a: int, i: int, step: int, stride: int)
    ensures (a + i * step) * stride == a * stride + i * (stride * step)
  {
  }

  /** Every subscript a section uses is within the source's bounds. */
  predicate InBounds(dims: seq<Dim>, specs: seq<SectionSpec>)
    requires |dims| == |specs|
  {
    forall d :: 0 <= d < |dims| ==> SpecInBounds(dims[d], specs[d])
  }

  /** The last subscript used, which need not be the end. */
  function LastSubscript(s: SectionSpec): int
    requires s.stride != 0
  {
    s.start + (SectionExtent(s) - 1) * s.stride
  }

  predicate SpecInBounds(dim: Dim, s: SectionSpec) {
    if s.stride == 0 then dim.lower <= s.start <= dim.upper
    else IsEmpty(s) || (dim.lower <= s.start <= dim.upper && dim.lower <= LastSubscript(s) <= dim.upper)
  }

  lemma {:induction false} SourceIndexInBox(dims: seq<Dim>, specs: seq<SectionSpec>, idx: seq<nat>)
    requires |dims| == |specs| && InBounds(dims, specs)
    requires InBox(idx, Extents(SectionDims(dims, specs)))
    ensures var si := SourceIndex(dims, specs, idx);
      forall d :: 0 <= d < |dims| ==> 0 <= si[d] < dims[d].Extent()
    decreases |specs|
  {
    if specs != [] {
      var s := specs[0];
      assert SpecInBounds(dims[0], s);
      assert InBounds(dims[1..], specs[1..]);
      var rest := SectionDims(dims[1..], specs[1..]);
      if s.stride == 0 {
        SourceIndexInBox(dims[1..], specs[1..], idx);
      } else {
        assert Extents(SectionDims(dims, specs))[1..] == Extents(rest);
        assert InBox(idx[1..], Extents(rest));
        SourceIndexInBox(dims[1..], specs[1..], idx[1..]);
        assert idx[0] < SectionExtent(s);
        UsedSubscripts(dims[0], s, idx[0]);
      }
    }
  }

  /** First and last subscript in bounds put all in bounds. */
  lemma {:induction false} UsedSubscripts(dim: Dim, s: SectionSpec, i: nat)
    requires s.stride != 0 && SpecInBounds(dim, s) && i < SectionExtent(s)
    ensures dim.lower <= s.start + i * s.stride <= dim.upper
  {
    hide SectionExtent;
    var last := SectionExtent(s) - 1;
    assert !IsEmpty(s) by { NotEmpty(s, i); }
    if s.stride > 0 {
      MulMonotone(s.stride, i, last);
      MulMonotone(s.stride, 0, i);
    } else {
      MulMonotone(-s.stride, i, last);
      MulMonotone(-s.stride, 0, i);
      assert i * s.stride == -(-s.stride * i) && last * s.stride == -(-s.stride * last);
    }
  }

  lemma {:induction false} NotEmpty(s: SectionSpec, i: nat)
    requires s.stride != 0 && i < SectionExtent(s)
    ensures !IsEmpty(s)
  {
  }

  /** 1:11:3 of ten elements is in bounds: its subscripts are 1, 4, 7 and 10. */
  lemma {:induction false} EndMayOvershoot()
    ensures SpecInBounds(Dim(1, 10, 1), SectionSpec(1, 11, 3)) && SectionExtent(SectionSpec(1, 11, 3)) == 4
  {
  }

  lemma {:induction false} SourceIndexInjective(dims: seq<Dim>, specs: seq<SectionSpec>, i: seq<nat>, j: seq<nat>)
    requires |dims| == |specs| && |i| == |j| == Kept(specs)
    requires SourceIndex(dims, specs, i) == SourceIndex(dims, specs, j)
    ensures i == j
    decreases |specs|
  {
    if specs != [] {
      var a, b := SourceIndex(dims, specs, i), SourceIndex(dims, specs, j);
      assert a[0] == b[0] && a[1..] == b[1..];
      if specs[0].stride == 0 {
        SourceIndexInjective(dims[1..], specs[1..], i, j);
      } else {
        SourceIndexInjective(dims[1..], specs[1..], i[1..], j[1..]);
        StrideCancels(i[0], j[0], specs[0].stride);
        assert i == [i[0]] + i[1..] && j == [j[0]] + j[1..];
      }
    }
  }

  lemma {:induction false} StrideCancels(i: int, j: int, stride: int)
    requires stride != 0 && i * stride == j * stride
    ensures i == j
  {
  }

  /** Sections of a view without repeated addresses have none either. */
  lemma {:induction false} SectionInjective(dims: seq<Dim>, specs: seq<SectionSpec>)
    requires |dims| == |specs| && InBounds(dims, specs) && InjectiveView(dims)
    ensures InjectiveView(SectionDims(dims, specs))
  {
    var sd := SectionDims(dims, specs);
    forall i: seq<nat>, j: seq<nat> |
      InBox(i, Extents(sd)) && InBox(j, Extents(sd)) && Offset(i, Strides(sd)) == Offset(j, Strides(sd))
      ensures i == j
    {
      SectionAddress(dims, specs, i);
      SectionAddress(dims, specs, j);
      SourceIndexInBox(dims, specs, i);
      SourceIndexInBox(dims, specs, j);
      var a: seq<nat>, b: seq<nat> := SourceIndex(dims, specs, i), SourceIndex(dims, specs, j);
      assert InBox(a, Extents(dims)) && InBox(b, Extents(dims));
      assert Offset(a, Strides(dims)) == Offset(b, Strides(dims));
      SourceIndexInjective(dims, specs, i, j);
    }
  }

  /** The flag tells the truth: a nonempty section without repeated addresses that
      is marked contiguous is contiguous. */
  lemma {:induction false} FlaggedContiguous(dims: seq<Dim>)
    requires Positive(Extents(dims)) && InjectiveView(dims)
    requires forall d :: 0 <= d < |dims| ==> dims[d].stride == 1
    ensures Contiguous(Extents(dims), Strides(dims))
  {
    hide Contiguous, InjectiveView;
    var e := Extents(dims);
    forall d | 0 <= d < |dims|
      ensures 0 <= Strides(dims)[d] <= Total(e[..d])
    {
      TotalPositive(e[..d]);
    }
    InjectiveCopyable(dims);
  }

  // ---- A section of a section is a section ----

  function ComposeOne(a: SectionSpec, b: SectionSpec): SectionSpec {
    SectionSpec(a.start + (b.start - 1) * a.stride, a.start + (b.end - 1) * a.stride, a.stride * b.stride)
  }

  function Compose(outer: seq<SectionSpec>, inner: seq<SectionSpec>): (r: seq<SectionSpec>)
    requires |inner| == Kept(outer)
    ensures |r| == |outer|
  {
    if outer == [] then []
    else if outer[0].stride == 0 then [outer[0]] + Compose(outer[1..], inner)
    else [ComposeOne(outer[0], inner[0])] + Compose(outer[1..], inner[1..])
  }

  lemma {:induction false} ComposedExtent(a: SectionSpec, b: SectionSpec)
    requires a.stride != 0 && b.stride != 0
    ensures ComposeOne(a, b).stride != 0
    ensures SectionExtent(ComposeOne(a, b)) == SectionExtent(b)
  {
    hide TruncDiv;
    var c := ComposeOne(a, b);
    var span := b.end - b.start;
    NonzeroProduct(a.stride, b.stride);
    assert c.end - c.start == span * a.stride;
    ScaledSigns(a.stride, b.stride, span);
    if !IsEmpty(b) {
      ScaledTruncDiv(span, b.stride, a.stride);
    }
  }

  lemma {:induction false} NonzeroProduct(a: int, b: int)
    requires a != 0 && b != 0
    ensures a * b != 0
  {
  }

  lemma {:induction false} ScaledSigns(k: int, s: int, span: int)
    requires k != 0 && s != 0
    ensures (k * s > 0) <==> ((k > 0) == (s > 0))
    ensures (span * k > 0) <==> (span > 0 && k > 0) || (span < 0 && k < 0)
    ensures (span * k < 0) <==> (span > 0 && k < 0) || (span < 0 && k > 0)
  {
  }

  lemma {:induction false} ScaledTruncDiv(x: int, y: int, k: int)
    requires y != 0 && k != 0 && ((x >= 0 && y > 0) || (x <= 0 && y < 0))
    ensures k * y != 0
    ensures TruncDiv(x * k, k * y) == TruncDiv(x, y)
  {
    NonzeroProduct(k, y);
    var ax, ay, ak := if y > 0 then x else -x, if y > 0 then y else -y, if k > 0 then k else -k;
    if y < 0 {
      BothNegative(x, y);
    }
    ScaledDiv(ax, ay, ak);
    ScaledSigns(k, y, x);
    if k * y < 0 {
      assert -(x * k) == ax * ak && -(k * y) == ak * ay;
      BothNegative(x * k, k * y);
    } else {
      assert x * k == ax * ak && k * y == ak * ay;
    }
  }

  lemma {:induction false} ScaledDiv(x: nat, y: nat, k: nat)
    requires y > 0 && k > 0
    ensures k * y > 0
    ensures x * k / (k * y) == x / y
  {
    var q, r := Euclid(x, y);
    PositiveProduct(k, y);
    ScaleDivision(x, y, k, q, r);
    DivMod(x * k, k * y, q, k * r);
  }

  lemma {:induction false} ScaleDivision(x: nat, y: nat, k: nat, q: nat, r: nat)
    requires k > 0 && x == y * q + r && r < y
    ensures x * k == (k * y) * q + k * r && 0 <= k * r < k * y
  {
  }

  lemma {:induction false} SectionsCompose(dims: seq<Dim>, outer: seq<SectionSpec>, inner: seq<SectionSpec>)
    requires |dims| == |outer| && |inner| == Kept(outer)
    ensures SectionDims(SectionDims(dims, outer), inner) == SectionDims(dims, Compose(outer, inner))
    ensures SectionShift(dims, outer) + SectionShift(SectionDims(dims, outer), inner)
         == SectionShift(dims, Compose(outer, inner))
    decreases |outer|
  {
    if outer != [] {
      var c := Compose(outer, inner);
      if outer[0].stride == 0 {
        SectionsCompose(dims[1..], outer[1..], inner);
        assert c[1..] == Compose(outer[1..], inner);
      } else {
        SectionsCompose(dims[1..], outer[1..], inner[1..]);
        assert c[1..] == Compose(outer[1..], inner[1..]);
        ComposeHead(dims, outer, inner);
      }
    }
  }

  lemma {:induction false} ComposeHead(dims: seq<Dim>, outer: seq<SectionSpec>, inner: seq<SectionSpec>)
    requires |dims| == |outer| && |inner| == Kept(outer) && outer != [] && outer[0].stride != 0
    ensures |inner| > 0
    ensures var d := SectionDims(dims, outer);
      && d[1..] == SectionDims(dims[1..], outer[1..])
      && (inner[0].stride != 0 ==>
            Dim(1, SectionExtent(inner[0]), d[0].stride * inner[0].stride)
            == Dim(1, SectionExtent(ComposeOne(outer[0], inner[0])),
                   dims[0].stride * ComposeOne(outer[0], inner[0]).stride))
      && (ComposeOne(outer[0], inner[0]).stride == 0 <==> inner[0].stride == 0)
      && (outer[0].start - dims[0].lower) * dims[0].stride + (inner[0].start - d[0].lower) * d[0].stride
         == (ComposeOne(outer[0], inner[0]).start - dims[0].lower) * dims[0].stride
  {
    var a, b, s := outer[0], inner[0], dims[0].stride;
    if b.stride != 0 {
      ComposedExtent(a, b);
      assert (s * a.stride) * b.stride == s * (a.stride * b.stride);
    } else {
      assert a.stride * b.stride == 0;
    }
    AddressAlgebra(a.start - dims[0].lower, b.start - 1, a.stride, s);
  }
}
