/**
  Whole runs over allocatable variables: any sequence of ALLOCATE, DEALLOCATE,
  MOVE_ALLOC and assignments, arrays and deferred-length strings mixed, starting
  with nothing allocated.
 */
module AllocatablePrograms {
  import opened Arith
  import opened Odometer
  import opened StridedViews
  import opened Payload
  import opened Allocatables
  import opened DeferredStrings
  import opened Sections

  datatype TextSource = Literal(bytes: seq<bv8>) | SliceOf(variable: nat, offset: nat)

  datatype Operation =
    | Allocate(i: nat, elemSize: int, dims: seq<Dim>)
    | Deallocate(i: nat)
    | Move(i: nat, j: nat)
    | Assign(i: nat, j: nat)
    | AssignSection(i: nat, j: nat, specs: seq<SectionSpec>)
    | AllocateText(i: nat, length: int)
    | AssignText(i: nat, source: TextSource, length: int)
    | DeallocateText(i: nat)
    | MoveText(i: nat, j: nat)

  /** Only these can find too little memory without reporting it. */
  predicate MayEndProgram(op: Operation) {
    op.Assign? || op.AssignSection? || op.AssignText?
  }

  /** A section of an allocated variable can be read. */
  lemma {:induction false} SectionReadable(h: Heap, d: ArrayDescriptor, section: ArrayDescriptor,
                                           specs: seq<SectionSpec>)
    requires h.Valid() && d.Owns(h) && |specs| == |d.dims| && InBounds(d.dims, specs)
    requires section.dims == SectionDims(d.dims, specs) && section.elemSize == d.elemSize && !section.isAllocated
    requires section.baseAddr == if d.baseAddr == 0 then 0 else d.baseAddr + SectionShift(d.dims, specs) * d.elemSize
    ensures Readable(h, section, d.baseAddr)
  {
    hide Index, Total, Contiguous, InjectiveView, Copyable, SectionDims, SectionShift, Offset;
    KeptBound(specs);
    if !Absent(section) && section.TotalBytes() > 0 {
      NonemptyExtents(Extents(section.dims), section.elemSize);
      assert d.baseAddr != 0;
      ContiguousInjective(Extents(d.dims), Strides(d.dims));
      OwnedInjective(h, d);
      SectionInjective(d.dims, specs);
      InjectiveCopyable(section.dims);
      var start := section.baseAddr - d.baseAddr;
      forall k | 0 <= k < Total(Extents(section.dims))
        ensures 0 <= Place(start, section.elemSize, section.dims, k)
        ensures Place(start, section.elemSize, section.dims, k) + section.elemSize <= h.live[d.baseAddr].Length
      {
        SectionElementInside(h, d, section, specs, k);
      }
      SectionBaseNonzero(h, d, section, specs);
    }
  }

  lemma {:induction false} KeptBound(specs: seq<SectionSpec>)
    ensures Kept(specs) <= |specs|
    decreases |specs|
  {
    if specs != [] {
      KeptBound(specs[1..]);
    }
  }

  lemma {:induction false} ContiguousInjective(extents: seq<nat>, strides: seq<int>)
    requires |extents| == |strides| && Contiguous(extents, strides)
    ensures Injective(extents, strides)
  {
    forall i: seq<nat>, j: seq<nat> | InBox(i, extents) && InBox(j, extents) && Offset(i, strides) == Offset(j, strides)
      ensures i == j
    {
      ContiguousOffset(extents, strides, i);
      ContiguousOffset(extents, strides, j);
      IndexOfLinear(i, extents);
      IndexOfLinear(j, extents);
    }
  }

  lemma {:induction false} OwnedInjective(h: Heap, d: ArrayDescriptor)
    requires d.Owns(h) && d.baseAddr != 0
    ensures InjectiveView(d.dims)
  {
    ContiguousInjective(Extents(d.dims), Strides(d.dims));
  }

  /** The number of the source element that element k of the section stands for. */
  ghost function SourceNumber(dims: seq<Dim>, specs: seq<SectionSpec>, k: nat): nat
    requires |dims| == |specs| && InBounds(dims, specs) && Positive(Extents(SectionDims(dims, specs)))
  {
    IndexInBox(k, Extents(SectionDims(dims, specs)));
    var idx := Index(k, Extents(SectionDims(dims, specs)));
    SourceIndexInBox(dims, specs, idx);
    Linear(SourceIndex(dims, specs, idx), Extents(dims))
  }

  /** Element k of the section is that element of the variable's block. */
  lemma {:induction false} SectionPlace(h: Heap, d: ArrayDescriptor, section: ArrayDescriptor,
                                        specs: seq<SectionSpec>, k: nat)
    requires h.Valid() && d.Owns(h) && d.baseAddr != 0 && |specs| == |d.dims| && InBounds(d.dims, specs)
    requires section.dims == SectionDims(d.dims, specs) && section.elemSize == d.elemSize
    requires section.baseAddr == d.baseAddr + SectionShift(d.dims, specs) * d.elemSize
    requires Positive(Extents(section.dims)) && k < Total(Extents(section.dims))
    ensures SourceNumber(d.dims, specs, k) < Total(Extents(d.dims))
    ensures Place(section.baseAddr - d.baseAddr, section.elemSize, section.dims, k)
         == SourceNumber(d.dims, specs, k) * d.elemSize
  {
    hide Index, Total, Contiguous, SectionDims, SectionShift, Offset;
    var idx := Index(k, Extents(section.dims));
    IndexInBox(k, Extents(section.dims));
    SectionAddress(d.dims, specs, idx);
    SourceIndexInBox(d.dims, specs, idx);
    var si: seq<nat> := SourceIndex(d.dims, specs, idx);
    assert InBox(si, Extents(d.dims));
    ContiguousOffset(Extents(d.dims), Strides(d.dims), si);
    LinearBound(si, Extents(d.dims));
    PlaceIs(section.baseAddr - d.baseAddr, section.elemSize, section.dims, k);
    ElementBytes(SectionShift(d.dims, specs), Offset(idx, Strides(section.dims)), Linear(si, Extents(d.dims)),
                 Total(Extents(d.dims)), d.elemSize);
  }

  /** Element k of the section lies in the variable's block. */
  lemma {:induction false} SectionElementInside(h: Heap, d: ArrayDescriptor, section: ArrayDescriptor,
                                                specs: seq<SectionSpec>, k: nat)
    requires h.Valid() && d.Owns(h) && d.baseAddr != 0 && |specs| == |d.dims| && InBounds(d.dims, specs)
    requires section.dims == SectionDims(d.dims, specs) && section.elemSize == d.elemSize
    requires section.baseAddr == d.baseAddr + SectionShift(d.dims, specs) * d.elemSize
    requires Positive(Extents(section.dims)) && k < Total(Extents(section.dims))
    ensures var p := Place(section.baseAddr - d.baseAddr, section.elemSize, section.dims, k);
      0 <= p && p + section.elemSize <= h.live[d.baseAddr].Length
  {
    hide Index, Total, Contiguous, SectionDims, SectionShift, Offset, Place, SourceNumber, InBounds;
    SectionPlace(h, d, section, specs, k);
    var l := SourceNumber(d.dims, specs, k);
    ElementBytes(0, l, l, Total(Extents(d.dims)), d.elemSize);
  }

  lemma {:induction false} ElementBytes(shift: int, offset: int, l: nat, total: nat, elemSize: nat)
    requires shift + offset == l && l < total
    ensures shift * elemSize + offset * elemSize == l * elemSize
    ensures 0 <= l * elemSize && l * elemSize + elemSize <= total * elemSize
  {
    MulMonotone(elemSize, l + 1, total);
    DistributePred(elemSize, l);
  }

  lemma {:induction false} SectionBaseNonzero(h: Heap, d: ArrayDescriptor, section: ArrayDescriptor,
                                              specs: seq<SectionSpec>)
    requires h.Valid() && d.Owns(h) && d.baseAddr != 0 && |specs| == |d.dims| && InBounds(d.dims, specs)
    requires section.dims == SectionDims(d.dims, specs) && section.elemSize == d.elemSize
    requires section.baseAddr == d.baseAddr + SectionShift(d.dims, specs) * d.elemSize
    requires Positive(Extents(section.dims))
    ensures section.baseAddr > 0
  {
    hide Index, Total, Contiguous, SectionDims, SectionShift;
    TotalPositive(Extents(section.dims));
    SectionElementInside(h, d, section, specs, 0);
    PlaceIs(section.baseAddr - d.baseAddr, section.elemSize, section.dims, 0);
    IndexZero(Extents(section.dims));
    OffsetZeros(|section.dims|, Strides(section.dims));
  }

  ghost function SetOf<T>(s: seq<T>): set<T> {
    set x | x in s
  }

  lemma {:induction false} VariableReadable(h: Heap, d: ArrayDescriptor)
    requires h.Valid() && d.Owns(h)
    ensures Readable(h, d, d.baseAddr)
  {
    hide Total, Contiguous, Index;
    if d.baseAddr != 0 && d.TotalBytes() > 0 {
      var extents := Extents(d.dims);
      NonemptyExtents(extents, d.elemSize);
      forall k | 0 <= k < Total(extents)
        ensures 0 <= Place(0, d.elemSize, d.dims, k)
        ensures Place(0, d.elemSize, d.dims, k) + d.elemSize <= h.live[d.baseAddr].Length
      {
        LinearOfIndex(k, extents);
        ContiguousOffset(extents, Strides(d.dims), Index(k, extents));
        PlaceIs(0, d.elemSize, d.dims, k);
        ElementBytes(0, k, k, Total(extents), d.elemSize);
      }
    }
  }

  /** A variable's elements are its block. */
  lemma {:induction false} VariableElements(h: Heap, d: ArrayDescriptor)
    requires h.Valid() && d.Owns(h) && Readable(h, d, d.baseAddr) && d.isAllocated && d.TotalBytes() > 0
    ensures d.baseAddr in h.live && Elements(h, d, d.baseAddr) == h.live[d.baseAddr][..]
  {
    hide Total, Contiguous, Inside, Gathered;
    var content := h.live[d.baseAddr][..];
    TotalPositive(Extents(d.dims));
    FlatGathered(content, 0, d.elemSize, d.dims, Total(Extents(d.dims)));
    assert content[0..0 + Total(Extents(d.dims)) * d.elemSize] == content;
  }

  /** Semantic checks exclude equal shapes with unequal element sizes. */
  predicate Conforming(dest: ArrayDescriptor, extents: seq<nat>, elemSize: int)
    reads dest
  {
    dest.isAllocated && Extents(dest.dims) == extents ==> dest.elemSize == elemSize
  }

  predicate PermittedWhole(dest: ArrayDescriptor, source: ArrayDescriptor)
    reads dest, source
  {
    source.isAllocated && Conforming(dest, Extents(source.dims), source.elemSize)
  }

  /** Assignment of a whole variable, possibly to itself: the destination's block
      is a copy of the source's. */
  method AssignWholeStep(h: Heap, dest: ArrayDescriptor, source: ArrayDescriptor,
                         ghost arrays: set<ArrayDescriptor>, ghost strings: set<StringDescriptor>)
    returns (ok: bool)
    requires Ownership(h, arrays, strings) && dest in arrays && source in arrays
    modifies h, dest, Storage(h, dest)
    ensures ok ==> Ownership(h, arrays, strings)
    ensures BlocksKept(h)
    ensures ok && old(PermittedWhole(dest, source)) && old(source.TotalBytes()) > 0 ==>
      && dest.baseAddr in h.live && old(source.baseAddr in h.live)
      && h.live[dest.baseAddr][..] == old(h.live[source.baseAddr][..])
  {
    hide Ownership, Readable, Elements, Total;
    OwnsAt(h, source, arrays, strings);
    VariableReadable(h, source);
    if !Conforming(dest, Extents(source.dims), source.elemSize) {
      return true;
    }
    if source.isAllocated && source.TotalBytes() > 0 {
      VariableElements(h, source);
      BytesKeepVariable(dest, source);
    }
    ok := AssignAllocatable(h, dest, source, source.baseAddr, arrays, strings);
  }

  lemma {:induction false} BytesKeepVariable(dest: ArrayDescriptor, source: ArrayDescriptor)
    requires source.isAllocated && source.TotalBytes() > 0 && |source.dims| <= MAX_RANK && source.elemSize >= 0
    requires source.baseAddr != 0
    ensures !Vanishes(dest, source)
  {
  }

  /** Element k of a section has been copied. */
  ghost predicate ElementCopied(after: seq<bv8>, before: seq<bv8>, dims: seq<Dim>, specs: seq<SectionSpec>,
                                elemSize: nat, k: nat)
    requires |dims| == |specs| && InBounds(dims, specs) && Positive(Extents(SectionDims(dims, specs)))
  {
    var to, from := k * elemSize, SourceNumber(dims, specs, k) * elemSize;
    && to + elemSize <= |after| && from + elemSize <= |before|
    && after[to..to + elemSize] == before[from..from + elemSize]
  }

  /** `after` lists the elements of the section, in column-major order, out of the
      block `before` of an array with dimensions dims. */
  ghost predicate SectionCopied(after: seq<bv8>, before: seq<bv8>, dims: seq<Dim>, specs: seq<SectionSpec>,
                                elemSize: nat) {
    && |dims| == |specs| && InBounds(dims, specs) && Positive(Extents(SectionDims(dims, specs)))
    && |after| == Total(Extents(SectionDims(dims, specs))) * elemSize
    && forall k :: 0 <= k < Total(Extents(SectionDims(dims, specs))) ==>
         ElementCopied(after, before, dims, specs, elemSize, k)
  }

  lemma {:induction false} SectionElements(h: Heap, d: ArrayDescriptor, section: ArrayDescriptor,
                                           specs: seq<SectionSpec>)
    requires h.Valid() && d.Owns(h) && d.baseAddr != 0 && |specs| == |d.dims| && InBounds(d.dims, specs)
    requires section.dims == SectionDims(d.dims, specs) && section.elemSize == d.elemSize
    requires section.baseAddr == d.baseAddr + SectionShift(d.dims, specs) * d.elemSize
    requires Readable(h, section, d.baseAddr) && !Absent(section) && section.TotalBytes() > 0
    ensures SectionCopied(Elements(h, section, d.baseAddr), h.live[d.baseAddr][..], d.dims, specs, d.elemSize)
  {
    hide Index, Total, Contiguous, SectionDims, SectionShift, Offset, Place, SourceNumber, InBounds, Gathered;
    hide Inside, Copyable;
    var total, start, content := section.TotalElements(), section.baseAddr - d.baseAddr, h.live[d.baseAddr][..];
    var after := Elements(h, section, d.baseAddr);
    forall k | 0 <= k < total
      ensures ElementCopied(after, content, d.dims, specs, d.elemSize, k)
    {
      SectionPlace(h, d, section, specs, k);
      InsideAt(start, section.elemSize, section.dims, |content|, k);
      GatheredAt(content, start, section.elemSize, section.dims, total, k);
    }
  }

  /** The program may perform the assignment: the source is allocated, the
      subscripts used are in bounds, and the element sizes agree if the shapes do. */
  predicate PermittedSection(dest: ArrayDescriptor, source: ArrayDescriptor, specs: seq<SectionSpec>)
    reads dest, source
  {
    && source.isAllocated && |specs| == |source.dims| && InBounds(source.dims, specs)
    && Conforming(dest, Extents(SectionDims(source.dims, specs)), source.elemSize)
  }

  /** Assignment of a section of a variable, possibly of the destination itself:
      element k of the destination is the source's old element start + i*stride. */
  method AssignSectionStep(h: Heap, dest: ArrayDescriptor, source: ArrayDescriptor, specs: seq<SectionSpec>,
                           ghost arrays: set<ArrayDescriptor>, ghost strings: set<StringDescriptor>)
    returns (ok: bool)
    requires Ownership(h, arrays, strings) && dest in arrays && source in arrays
    modifies h, dest, Storage(h, dest)
    ensures ok ==> Ownership(h, arrays, strings)
    ensures BlocksKept(h)
    ensures ok && old(PermittedSection(dest, source, specs) && source.elemSize > 0
                      && Positive(Extents(SectionDims(source.dims, specs)))) ==>
      && dest.baseAddr in h.live && old(source.baseAddr in h.live)
      && SectionCopied(h.live[dest.baseAddr][..], old(h.live[source.baseAddr][..]),
                       old(source.dims), specs, old(source.elemSize))
  {
    hide Ownership, Readable, InBounds, SectionCopied, Elements, SectionDims, Total;
    if !PermittedSection(dest, source, specs) {
      return true;
    }
    OwnsAt(h, source, arrays, strings);
    var section := new ArrayDescriptor();
    CreateSection(source, section, specs);
    assert source.dims[..|specs|] == source.dims;
    SectionReadable(h, source, section, specs);
    if source.elemSize > 0 && Positive(Extents(section.dims)) {
      SectionHasBytes(h, source, section, specs);
      SectionElements(h, source, section, specs);
    }
    ok := AssignAllocatable(h, dest, section, source.baseAddr, arrays, strings);
  }

  /** A section with elements that take up bytes is part of a block. */
  lemma {:induction false} SectionHasBytes(h: Heap, d: ArrayDescriptor, section: ArrayDescriptor,
                                           specs: seq<SectionSpec>)
    requires h.Valid() && d.Owns(h) && d.isAllocated && |specs| == |d.dims| && InBounds(d.dims, specs)
    requires section.dims == SectionDims(d.dims, specs) && section.elemSize == d.elemSize && !section.isAllocated
    requires section.baseAddr == if d.baseAddr == 0 then 0 else d.baseAddr + SectionShift(d.dims, specs) * d.elemSize
    requires d.elemSize > 0 && Positive(Extents(section.dims))
    ensures d.baseAddr != 0 && !Absent(section) && section.TotalBytes() > 0
  {
    hide Index, Total, Contiguous, SectionDims, SectionShift, Offset, InBounds;
    SourceHasElements(d.dims, specs);
    TotalPositive(Extents(d.dims));
    PositiveProduct(Total(Extents(d.dims)), d.elemSize);
    TotalPositive(Extents(section.dims));
    PositiveProduct(Total(Extents(section.dims)), d.elemSize);
    SectionBaseNonzero(h, d, section, specs);
  }

  lemma {:induction false} SourceHasElements(dims: seq<Dim>, specs: seq<SectionSpec>)
    requires |dims| == |specs| && InBounds(dims, specs) && Positive(Extents(SectionDims(dims, specs)))
    ensures Positive(Extents(dims))
  {
    var idx := Zeros(|SectionDims(dims, specs)|);
    assert InBox(idx, Extents(SectionDims(dims, specs)));
    SourceIndexInBox(dims, specs, idx);
  }

  // ---- Elements of length zero ----

  /** A section of an allocated variable counts as unallocated, and assigning it
      deallocates, if and only if its elements have length zero. */
  lemma {:induction false} SectionAbsentExactly(h: Heap, d: ArrayDescriptor, section: ArrayDescriptor,
                                                specs: seq<SectionSpec>)
    requires h.Valid() && d.Owns(h) && d.isAllocated && |specs| == |d.dims| && InBounds(d.dims, specs)
    requires section.dims == SectionDims(d.dims, specs) && section.elemSize == d.elemSize && !section.isAllocated
    requires section.baseAddr == if d.baseAddr == 0 then 0 else d.baseAddr + SectionShift(d.dims, specs) * d.elemSize
    ensures Absent(section) <==> d.elemSize == 0
  {
    hide Index, Total, Contiguous, SectionDims, SectionShift, Offset, InBounds;
    if d.elemSize == 0 {
      NoBlockForNothing(h, d);
    } else if Positive(Extents(section.dims)) {
      SectionHasBytes(h, d, section, specs);
    } else {
      NonemptyExactly(Extents(section.dims));
    }
  }

  lemma {:induction false} NoBlockForNothing(h: Heap, d: ArrayDescriptor)
    requires h.Valid() && d.Owns(h) && d.elemSize == 0
    ensures d.baseAddr == 0
  {
    assert d.TotalBytes() == 0;
  }

  /** An allocated variable assigned to itself comes out unallocated if and only if
      its elements have length zero. */
  lemma {:induction false} SelfVanishesExactly(h: Heap, d: ArrayDescriptor)
    requires h.Valid() && d.Owns(h) && d.isAllocated
    ensures Vanishes(d, d) <==> d.elemSize == 0
  {
    hide Total, Contiguous;
    if d.elemSize == 0 {
      NoBlockForNothing(h, d);
    } else if d.baseAddr == 0 {
      assert d.TotalBytes() == 0;
      if d.dims == [] {
        assert Extents(d.dims) == [] && Total([]) == 1 by { TotalEmpty(); }
      }
    }
  }

  /** ALLOCATE(a) with elements of length zero, then a = a. */
  method SelfAssignOfNothing(h: Heap, a: ArrayDescriptor, dims: seq<Dim>,
                             ghost arrays: set<ArrayDescriptor>, ghost strings: set<StringDescriptor>)
    requires Ownership(h, arrays, strings) && a in arrays && !a.isAllocated && LayoutFits(0, dims)
    modifies h, a
    ensures Ownership(h, arrays, strings) && !a.isAllocated && h.live == old(h.live)
  {
    hide Ownership, LayoutFits, Total, Readable, Contiguous;
    NothingAtAll(dims);
    var stat := AllocateArray(h, a, 0, dims, arrays, strings);
    OwnsAt(h, a, arrays, strings);
    NoBlockForNothing(h, a);
    SelfVanishesExactly(h, a);
    VariableReadable(h, a);
    var ok := AssignAllocatable(h, a, a, 0, arrays, strings);
  }

  /** a = b(...) where b's elements have length zero, however many are selected. */
  method SectionAssignOfNothing(h: Heap, a: ArrayDescriptor, b: ArrayDescriptor, specs: seq<SectionSpec>,
                                ghost arrays: set<ArrayDescriptor>, ghost strings: set<StringDescriptor>)
    requires Ownership(h, arrays, strings) && a in arrays && b in arrays
    requires PermittedSection(a, b, specs) && b.elemSize == 0
    modifies h, a, Storage(h, a)
    ensures Ownership(h, arrays, strings) && !a.isAllocated && h.live == old(h.live) - {old(a.baseAddr)}
  {
    hide Ownership, Readable, InBounds, SectionDims, Total, Contiguous;
    OwnsAt(h, b, arrays, strings);
    var section := new ArrayDescriptor();
    CreateSection(b, section, specs);
    assert b.dims[..|specs|] == b.dims;
    SectionReadable(h, b, section, specs);
    SectionAbsentExactly(h, b, section, specs);
    var ok := AssignAllocatable(h, a, section, b.baseAddr, arrays, strings);
  }

  lemma {:induction false} NothingAtAll(dims: seq<Dim>)
    ensures Total(Extents(dims)) * 0 == 0
  {
  }

  method AssignTextStep(h: Heap, dest: StringDescriptor, strings: seq<StringDescriptor>, source: TextSource,
                        length: int,
                        ghost arrays: set<ArrayDescriptor>)
    returns (ok: bool)
    requires Ownership(h, arrays, SetOf(strings)) && dest in strings
    modifies h, dest, if dest.data in h.live then {h.live[dest.data]} else {}
    ensures ok ==> Ownership(h, arrays, SetOf(strings))
    ensures BlocksKept(h)
  {
    hide Ownership;
    var src: Source := Null;
    match source {
      case Literal(bytes) =>
        if length > |bytes| {
          return true;
        }
        src := Constant(bytes);
      case SliceOf(j, offset) =>
        if j >= |strings| || offset + length > strings[j].len || length <= 0 {
          return true;
        }
        StringOwnsAt(h, strings[j], arrays, SetOf(strings));
        src := HeapSlice(strings[j].data, offset);
    }
    ok := AssignDeferred(h, dest, src, length, arrays, SetOf(strings));
  }

  /** One operation.  Operations the language does not permit are skipped;
      `ok` is false when the runtime ends the program. */
  method Step(h: Heap, arrays: seq<ArrayDescriptor>, strings: seq<StringDescriptor>, op: Operation) returns (ok: bool)
    requires Ownership(h, SetOf(arrays), SetOf(strings))
    modifies h, arrays, strings, h.live.Values
    ensures ok ==> Ownership(h, SetOf(arrays), SetOf(strings))
    ensures !ok ==> MayEndProgram(op)
    ensures BlocksKept(h)
  {
    hide Ownership;
    ghost var a, s := SetOf(arrays), SetOf(strings);
    ok := true;
    var stat := 0;
    match op {
      case Allocate(i, elemSize, dims) =>
        if i < |arrays| {
          stat := AllocateArray(h, arrays[i], elemSize, dims, a, s);
        }
      case Deallocate(i) =>
        if i < |arrays| {
          stat := DeallocateArray(h, arrays[i], a, s);
        }
      case Move(i, j) =>
        if i < |arrays| && j < |arrays| {
          MoveAlloc(h, arrays[i], arrays[j], a, s);
        }
      case Assign(i, j) =>
        if i < |arrays| && j < |arrays| {
          assert Storage(h, arrays[i]) <= h.live.Values;
          ok := AssignWholeStep(h, arrays[i], arrays[j], a, s);
        }
      case AssignSection(i, j, specs) =>
        if i < |arrays| && j < |arrays| {
          assert Storage(h, arrays[i]) <= h.live.Values;
          ok := AssignSectionStep(h, arrays[i], arrays[j], specs, a, s);
        }
      case AllocateText(i, length) =>
        if i < |strings| {
          stat := AllocateString(h, strings[i], length, a, s);
        }
      case AssignText(i, source, length) =>
        if i < |strings| {
          assert strings[i].data in h.live ==> h.live[strings[i].data] in h.live.Values;
          ok := AssignTextStep(h, strings[i], strings, source, length, a);
        }
      case DeallocateText(i) =>
        if i < |strings| {
          stat := DeallocStringChecked(h, strings[i], a, s);
        }
      case MoveText(i, j) =>
        if i < |strings| && j < |strings| {
          MoveAllocString(h, strings[i], strings[j], a, s);
        }
    }
  }

  lemma {:induction false} BlockHasAddress(live: map<int, array<bv8>>, b: array<bv8>)
    requires b in live.Values
    ensures exists p :: p in live && live[p] == b
  {
    if forall p :: p in live ==> live[p] != b {
      assert false;
    }
  }

  /** Every run from the initial state keeps the ownership discipline; it stops
      early, after `done` operations, only when the runtime ends the program. */
  method Run(arrayCount: nat, stringCount: nat, ops: seq<Operation>)
    returns (h: Heap, arrays: seq<ArrayDescriptor>, strings: seq<StringDescriptor>, done: nat)
    ensures done == |ops| || (done < |ops| && MayEndProgram(ops[done]))
    ensures done == |ops| ==> Ownership(h, SetOf(arrays), SetOf(strings))
    ensures |arrays| == arrayCount && |strings| == stringCount
  {
    h := new Heap();
    arrays, strings := [], [];
    for i := 0 to arrayCount
      invariant |arrays| == i && fresh(h) && h.Valid() && h.live == map[] && fresh(arrays)
      invariant forall d :: d in arrays ==> d.baseAddr == 0 && !d.isAllocated && d.dims == [] && d.elemSize == 0
    {
      var d := new ArrayDescriptor();
      arrays := arrays + [d];
    }
    for i := 0 to stringCount
      invariant |strings| == i && |arrays| == arrayCount && fresh(h) && h.Valid() && h.live == map[] && fresh(arrays)
      invariant fresh(strings)
      invariant forall d :: d in arrays ==> d.baseAddr == 0 && !d.isAllocated && d.dims == [] && d.elemSize == 0
      invariant forall s :: s in strings ==> s.data == 0 && s.len == 0 && s.capacity == 0
    {
      var s := new StringDescriptor();
      strings := strings + [s];
    }
    done := 0;
    while done < |ops|
      invariant done <= |ops|
      invariant Ownership(h, SetOf(arrays), SetOf(strings))
      invariant fresh(h) && fresh(arrays) && fresh(strings)
      invariant forall p :: p in h.live ==> fresh(h.live[p])
    {
      forall b | b in h.live.Values
        ensures fresh(b)
      {
        BlockHasAddress(h.live, b);
      }
      var ok := Step(h, arrays, strings, ops[done]);
      if !ok {
        return;
      }
      done := done + 1;
    }
  }
}
