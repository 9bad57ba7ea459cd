/**
  Allocatable arrays and deferred-length strings over one heap
  (runtime/src/array.rs and runtime/src/string.rs).  Every live block has one
  owning descriptor; the ghost map `owner` names it.
 */
module Allocatables {
  import opened Arith
  import opened MachineInts
  import opened Odometer
  import opened StridedViews
  import opened Payload

  datatype Owner = OfArray(array: ArrayDescriptor) | OfString(str: StringDescriptor)

  /** malloc and free: disjoint live blocks at nonzero addresses. */
  class Heap {
    var live: map<int, array<bv8>>
    ghost var owner: map<int, Owner>

    ghost predicate Valid()
      reads this
    {
      && owner.Keys == live.Keys
      && (forall p :: p in live ==> p > 0 && live[p].Length > 0)
      && (forall p, q :: p in live && q in live && p != q ==>
            live[p] != live[q] && (p + live[p].Length <= q || q + live[q].Length <= p))
    }

    /** Any place that keeps blocks apart; the allocator chooses. */
    predicate Available(p: int, size: nat)
      reads this
    {
      p > 0 && forall q :: q in live ==> p + size <= q || q + live[q].Length <= p
    }

    constructor ()
      ensures Valid() && live == map[]
    {
      live := map[];
      owner := map[];
    }

    /** Returns the null address when it fails. */
    method Malloc(size: nat, ghost who: Owner) returns (p: int)
      requires Valid() && size > 0
      modifies this
      ensures Valid()
      ensures p == 0 ==> live == old(live) && owner == old(owner)
      ensures p != 0 ==>
        && p > 0 && p !in old(live) && p in live && fresh(live[p]) && live[p].Length == size
        && live == old(live)[p := live[p]] && owner == old(owner)[p := who]
        && old(Available(p, size))
    {
      p :| p == 0 || Available(p, size);
      if p != 0 {
        assert Available(p, size);
        var block := new bv8[size](_ => 0);
        live := live[p := block];
        owner := owner[p := who];
      }
    }

    /** Hands a block over to another descriptor; nothing happens in memory. */
    ghost method Transfer(p: int, who: Owner)
      requires Valid() && (p == 0 || p in live)
      modifies this`owner
      ensures Valid() && owner == if p == 0 then old(owner) else old(owner)[p := who]
    {
      if p != 0 {
        owner := owner[p := who];
      }
    }

    method Free(p: int)
      requires Valid() && p in live
      modifies this
      ensures Valid() && live == old(live) - {p} && owner == old(owner) - {p}
    {
      live := live - {p};
      owner := owner - {p};
    }
  }

  /** Every live block was live before, unmoved, or is new. */
  twostate predicate BlocksKept(h: Heap)
    reads h
  {
    forall p :: p in h.live ==> (p in old(h.live) && h.live[p] == old(h.live[p])) || fresh(h.live[p])
  }

  class ArrayDescriptor {
    var baseAddr: int
    var elemSize: int
    var dims: seq<Dim>
    var isAllocated: bool
    var contiguous: bool

    constructor ()
      ensures baseAddr == 0 && elemSize == 0 && dims == [] && !isAllocated && !contiguous
    {
      baseAddr, elemSize, dims, isAllocated, contiguous := 0, 0, [], false, false;
    }

    function TotalElements(): nat
      reads this
    {
      Total(Extents(dims))
    }

    function TotalBytes(): int
      reads this
    {
      TotalElements() * elemSize
    }

    predicate ZeroSize()
      reads this
    {
      |dims| > 0 && elemSize > 0 && TotalElements() == 0
    }

    predicate LooksSane()
      reads this
    {
      && |dims| <= MAX_RANK && elemSize >= 0
      && (isAllocated && baseAddr == 0 ==> ZeroSize())
      && (!isAllocated ==> baseAddr == 0)
    }

    method Reset()
      modifies this
      ensures baseAddr == 0 && elemSize == 0 && dims == [] && !isAllocated && !contiguous
    {
      baseAddr, elemSize, dims, isAllocated, contiguous := 0, 0, [], false, false;
    }

    method Publish(elemSize: int, dims: seq<Dim>, data: int)
      modifies this
      ensures baseAddr == data && this.elemSize == elemSize && this.dims == dims && isAllocated && contiguous
    {
      this.elemSize, this.dims := elemSize, dims;
      baseAddr := data;
      isAllocated, contiguous := true, true;
    }

    method Adopt(from: ArrayDescriptor)
      requires from != this
      modifies this, from
      ensures baseAddr == old(from.baseAddr) && elemSize == old(from.elemSize) && dims == old(from.dims)
      ensures isAllocated == old(from.isAllocated) && contiguous == old(from.contiguous)
      ensures from.baseAddr == 0 && !from.isAllocated && from.elemSize == old(from.elemSize)
      ensures from.dims == old(from.dims)
    {
      baseAddr, elemSize, dims := from.baseAddr, from.elemSize, from.dims;
      isAllocated, contiguous := from.isAllocated, from.contiguous;
      from.baseAddr, from.isAllocated := 0, false;
    }

    /** An allocatable variable: unallocated, empty, or sole owner of a block of
        exactly its size, laid out contiguously. */
    ghost predicate Owns(h: Heap)
      reads this, h
    {
      OwnsIn(h.live, h.owner)
    }

    ghost predicate OwnsIn(live: map<int, array<bv8>>, owner: map<int, Owner>)
      reads this
    {
      && |dims| <= MAX_RANK && elemSize >= 0
      && (!isAllocated ==> baseAddr == 0)
      && (isAllocated && baseAddr == 0 ==> TotalBytes() == 0)
      && (baseAddr != 0 ==>
            && baseAddr in live && baseAddr in owner && owner[baseAddr] == OfArray(this)
            && live[baseAddr].Length == TotalBytes()
            && Contiguous(Extents(dims), Strides(dims)))
    }
  }

  class StringDescriptor {
    var data: int
    var len: int
    var capacity: int
    var isAllocated: bool
    var deferred: bool

    constructor ()
      ensures data == 0 && len == 0 && capacity == 0 && !isAllocated && !deferred
    {
      data, len, capacity, isAllocated, deferred := 0, 0, 0, false, false;
    }

    method Adopt(from: StringDescriptor)
      requires from != this
      modifies this, from
      ensures data == old(from.data) && len == old(from.len) && capacity == old(from.capacity)
      ensures isAllocated == old(from.isAllocated) && deferred == old(from.deferred)
      ensures from.data == 0 && from.len == 0 && from.capacity == 0 && !from.isAllocated
      ensures from.deferred == old(from.deferred)
    {
      data, len, capacity := from.data, from.len, from.capacity;
      isAllocated, deferred := from.isAllocated, from.deferred;
      from.data, from.len, from.capacity, from.isAllocated := 0, 0, 0, false;
    }

    method Set(data: int, size: nat)
      modifies this
      ensures this.data == data && len == capacity == size && isAllocated && deferred
    {
      this.data, capacity, len := data, size, size;
      isAllocated, deferred := true, true;
    }

    /** Unallocated, empty, or sole owner of a block of `capacity` bytes. */
    ghost predicate Owns(h: Heap)
      reads this, h
    {
      OwnsIn(h.live, h.owner)
    }

    ghost predicate OwnsIn(live: map<int, array<bv8>>, owner: map<int, Owner>)
      reads this
    {
      && 0 <= len <= capacity
      && (data == 0 ==> capacity == 0)
      && (data != 0 ==>
            && isAllocated && data in live && data in owner && owner[data] == OfString(this)
            && live[data].Length == capacity)
    }
  }

  /** The ownership discipline of a whole program state: every descriptor owns
      what it points to, and every live block is pointed to by its owner. */
  ghost predicate Ownership(h: Heap, arrays: set<ArrayDescriptor>, strings: set<StringDescriptor>)
    reads h, arrays, strings
  {
    && h.Valid()
    && (forall d :: d in arrays ==> d.Owns(h))
    && (forall s :: s in strings ==> s.Owns(h))
    && (forall p :: p in h.live ==> OwnedHere(h.owner[p], p, arrays, strings))
  }

  ghost predicate OwnedHere(who: Owner, p: int, arrays: set<ArrayDescriptor>, strings: set<StringDescriptor>)
    reads arrays, strings
  {
    match who
    case OfArray(d) => d in arrays && d.baseAddr == p
    case OfString(s) => s in strings && s.data == p
  }

  /** What the discipline means: no block is leaked and none is shared. */
  lemma {:induction false} NoLeakNoSharing(h: Heap, arrays: set<ArrayDescriptor>, strings: set<StringDescriptor>)
    requires Ownership(h, arrays, strings)
    ensures forall p :: p in h.live ==>
      (exists d :: d in arrays && d.baseAddr == p) || (exists s :: s in strings && s.data == p)
    ensures forall d, e :: d in arrays && e in arrays && d != e && d.baseAddr != 0 ==> d.baseAddr != e.baseAddr
    ensures forall s, t :: s in strings && t in strings && s != t && s.data != 0 ==> s.data != t.data
    ensures forall d, s :: d in arrays && s in strings && d.baseAddr != 0 ==> d.baseAddr != s.data
  {
    forall p | p in h.live
      ensures (exists d :: d in arrays && d.baseAddr == p) || (exists s :: s in strings && s.data == p)
    {
      assert OwnedHere(h.owner[p], p, arrays, strings);
    }
    forall d, e | d in arrays && e in arrays && d != e && d.baseAddr != 0
      ensures d.baseAddr != e.baseAddr
    {
      assert d.Owns(h) && e.Owns(h);
    }
    forall s, t | s in strings && t in strings && s != t && s.data != 0
      ensures s.data != t.data
    {
      assert s.Owns(h) && t.Owns(h);
    }
    forall d, s | d in arrays && s in strings && d.baseAddr != 0
      ensures d.baseAddr != s.data
    {
      assert d.Owns(h) && s.Owns(h);
    }
  }

  // ---- ALLOCATE ----

  datatype Layout = Layout(dims: seq<Dim>, bytes: nat) | Invalid

  function MaxOne(e: nat): nat {
    if e > 1 then e else 1
  }

  /** Product of the extents, empty dimensions counting as one. */
  function StrideSpan(extents: seq<nat>): (s: nat)
    ensures s >= 1
  {
    if extents == [] then 1
    else
      var n := |extents| - 1;
      PositiveProduct(StrideSpan(extents[..n]), MaxOne(extents[n]));
      StrideSpan(extents[..n]) * MaxOne(extents[n])
  }

  /** A layout is accepted exactly when nothing overflows a 64-bit integer. */
  ghost predicate LayoutFits(elemSize: int, dims: seq<Dim>) {
    && |dims| <= MAX_RANK && elemSize >= 0
    && (forall d :: 0 <= d < |dims| ==> dims[d].Extent() <= I64_MAX)
    && StrideSpan(Extents(dims)) <= I64_MAX
    && Total(Extents(dims)) * elemSize <= I64_MAX
  }

  lemma {:induction false} StrideSpanTotal(extents: seq<nat>)
    ensures Total(extents) <= StrideSpan(extents)
    ensures Positive(extents) ==> Total(extents) == StrideSpan(extents)
    ensures !Positive(extents) ==> Total(extents) == 0
    decreases |extents|
  {
    if extents != [] {
      var n := |extents| - 1;
      StrideSpanTotal(extents[..n]);
      assert extents == extents[..n] + [extents[n]];
      TotalAppend(extents[..n], extents[n]);
      SpanStep(Total(extents[..n]), StrideSpan(extents[..n]), extents[n]);
    }
  }

  lemma {:induction false} SpanStep(t: nat, s: nat, e: nat)
    requires t <= s
    ensures t * e <= s * MaxOne(e)
    ensures e > 0 && t == s ==> t * e == s * MaxOne(e)
    ensures e == 0 || t == 0 ==> t * e == 0
  {
    if e > 0 {
      assert MaxOne(e) == e;
      MulMonotone(e, t, s);
    }
  }

  /** A prefix that overflows makes the whole layout overflow. */
  lemma {:induction false} SpanGrows(extents: seq<nat>, n: nat)
    requires n <= |extents|
    ensures StrideSpan(extents[..n]) <= StrideSpan(extents)
    decreases |extents| - n
  {
    if n < |extents| {
      SpanGrows(extents, n + 1);
      assert extents[..n + 1][..n] == extents[..n];
      MulMonotone(StrideSpan(extents[..n]), 1, MaxOne(extents[n]));
    } else {
      assert extents[..n] == extents;
    }
  }

  predicate SameBounds(a: seq<Dim>, b: seq<Dim>) {
    |a| == |b| && forall d :: 0 <= d < |a| ==> a[d].lower == b[d].lower && a[d].upper == b[d].upper
  }

  method CheckedAllocationLayout(elemSize: int, inputDims: seq<Dim>) returns (r: Layout)
    ensures r.Layout? <==> LayoutFits(elemSize, inputDims)
    ensures r.Layout? ==>
      && SameBounds(r.dims, inputDims) && Extents(r.dims) == Extents(inputDims)
      && (forall d :: 0 <= d < |r.dims| ==> r.dims[d].stride == StrideSpan(Extents(inputDims)[..d]))
      && r.bytes == Total(Extents(inputDims)) * elemSize
      && (Positive(Extents(r.dims)) ==> Contiguous(Extents(r.dims), Strides(r.dims)))
  {
    hide Total, StrideSpan, LayoutFits, Contiguous;
    ghost var extents := Extents(inputDims);
    LayoutMeaning(elemSize, inputDims);
    if |inputDims| > MAX_RANK || elemSize < 0 {
      return Invalid;
    }
    var dims: seq<Dim> := [];
    var total, runningStride := 1, 1;
    LayoutStart(extents);
    for i := 0 to |inputDims|
      invariant |dims| == i && total == Total(extents[..i]) && runningStride == StrideSpan(extents[..i])
      invariant forall d :: 0 <= d < i ==>
        && dims[d].lower == inputDims[d].lower && dims[d].upper == inputDims[d].upper
        && dims[d].stride == StrideSpan(extents[..d])
      invariant runningStride <= I64_MAX
      invariant forall d :: 0 <= d < i ==> inputDims[d].Extent() <= I64_MAX
    {
      var extent := inputDims[i].Extent();
      LayoutStep(extents, i);
      if extent > I64_MAX {
        return Invalid;
      }
      dims := dims + [Dim(inputDims[i].lower, inputDims[i].upper, runningStride)];
      total := total * extent;
      runningStride := runningStride * MaxOne(extent);
      if total > I64_MAX || runningStride > I64_MAX {
        return Invalid;
      }
    }
    assert extents[..|inputDims|] == extents;
    assert Extents(dims) == extents;
    CanonicalStrides(extents, Strides(dims));
    var bytes := total * elemSize;
    if bytes > I64_MAX {
      return Invalid;
    }
    r := Layout(dims, bytes);
  }

  lemma {:induction false} LayoutMeaning(elemSize: int, dims: seq<Dim>)
    ensures LayoutFits(elemSize, dims) <==>
      && |dims| <= 15 && elemSize >= 0
      && (forall d :: 0 <= d < |dims| ==> dims[d].Extent() <= I64_MAX)
      && StrideSpan(Extents(dims)) <= I64_MAX
      && Total(Extents(dims)) * elemSize <= I64_MAX
    ensures elemSize >= 0 ==> Total(Extents(dims)) * elemSize >= 0
  {
  }

  lemma {:induction false} LayoutStart(extents: seq<nat>)
    ensures Total(extents[..0]) == 1 && StrideSpan(extents[..0]) == 1
  {
  }

  lemma {:induction false} LayoutStep(extents: seq<nat>, i: nat)
    requires i < |extents|
    ensures Total(extents[..i + 1]) == Total(extents[..i]) * extents[i]
    ensures StrideSpan(extents[..i + 1]) == StrideSpan(extents[..i]) * MaxOne(extents[i])
    ensures Total(extents[..i + 1]) <= StrideSpan(extents[..i + 1]) <= StrideSpan(extents)
  {
    assert extents[..i + 1] == extents[..i] + [extents[i]] && extents[..i + 1][..i] == extents[..i];
    SpanGrows(extents, i + 1);
    TotalAppend(extents[..i], extents[i]);
    StrideSpanTotal(extents[..i + 1]);
  }

  lemma {:induction false} CanonicalStrides(extents: seq<nat>, strides: seq<int>)
    requires |extents| == |strides| && forall d :: 0 <= d < |extents| ==> strides[d] == StrideSpan(extents[..d])
    ensures Positive(extents) ==> Contiguous(extents, strides)
  {
    if Positive(extents) {
      forall d | 0 <= d < |extents|
        ensures strides[d] == Total(extents[..d])
      {
        StrideSpanTotal(extents[..d]);
      }
    }
  }

  // ---- Taking a block and giving it to a descriptor ----

  /** As Ownership, except that block p (if any) belongs to `who`, which is not
      among the listed descriptors. */
  ghost predicate Holding(h: Heap, p: int, who: Owner, arrays: set<ArrayDescriptor>, strings: set<StringDescriptor>)
    reads h, arrays, strings
  {
    h.Valid() && HeldIn(h.live, h.owner, p, who, arrays, strings)
  }

  /** The same of the tables of live blocks and owners. */
  ghost predicate HeldIn(live: map<int, array<bv8>>, owner: map<int, Owner>, p: int, who: Owner,
                         arrays: set<ArrayDescriptor>, strings: set<StringDescriptor>)
    reads arrays, strings
  {
    && (forall d :: d in arrays ==> d.OwnsIn(live, owner))
    && (forall s :: s in strings ==> s.OwnsIn(live, owner))
    && (forall q :: q in live && q != p ==> q in owner && OwnedHere(owner[q], q, arrays, strings))
    && (p != 0 ==> p in live && p in owner && owner[p] == who)
  }

  lemma {:induction false} HeldAfterMalloc(live: map<int, array<bv8>>, owner: map<int, Owner>, p: int,
                                           block: array<bv8>, who: Owner,
                                           arrays: set<ArrayDescriptor>, strings: set<StringDescriptor>)
    requires HeldIn(live, owner, 0, who, arrays, strings) && p !in live && p !in owner && 0 !in live
    ensures HeldIn(live[p := block], owner[p := who], p, who, arrays, strings)
  {
    hide Total, Contiguous;
  }

  lemma {:induction false} HeldAfterFree(live: map<int, array<bv8>>, owner: map<int, Owner>, p: int, who: Owner,
                                         arrays: set<ArrayDescriptor>, strings: set<StringDescriptor>)
    requires HeldIn(live, owner, p, who, arrays, strings) && Elsewhere(who, arrays, strings) && p != 0 && 0 !in live
    ensures HeldIn(live - {p}, owner - {p}, 0, who, arrays, strings)
  {
    hide Total, Contiguous;
  }

  lemma {:induction false} HeldAfterTransfer(live: map<int, array<bv8>>, owner: map<int, Owner>, p: int, who: Owner,
                                             who': Owner,
                                             arrays: set<ArrayDescriptor>, strings: set<StringDescriptor>)
    requires HeldIn(live, owner, p, who, arrays, strings) && Elsewhere(who, arrays, strings) && p != 0
    ensures HeldIn(live, owner[p := who'], p, who', arrays, strings)
  {
    hide Total, Contiguous;
  }

  lemma {:induction false} NothingHeldBy(live: map<int, array<bv8>>, owner: map<int, Owner>, who: Owner, who': Owner,
                                         arrays: set<ArrayDescriptor>, strings: set<StringDescriptor>)
    requires HeldIn(live, owner, 0, who, arrays, strings)
    ensures HeldIn(live, owner, 0, who', arrays, strings)
  {
  }

  lemma {:induction false} DetachArray(h: Heap, desc: ArrayDescriptor, arrays: set<ArrayDescriptor>,
                                       strings: set<StringDescriptor>)
    requires Ownership(h, arrays, strings) && desc in arrays
    ensures Holding(h, desc.baseAddr, OfArray(desc), arrays - {desc}, strings)
  {
    hide Total, Contiguous;
    assert desc.Owns(h);
    forall q | q in h.live && q != desc.baseAddr
      ensures OwnedHere(h.owner[q], q, arrays - {desc}, strings)
    {
      assert OwnedHere(h.owner[q], q, arrays, strings);
    }
  }

  lemma {:induction false} AttachArray(h: Heap, desc: ArrayDescriptor, arrays: set<ArrayDescriptor>,
                                       strings: set<StringDescriptor>)
    requires Holding(h, desc.baseAddr, OfArray(desc), arrays - {desc}, strings) && desc in arrays && desc.Owns(h)
    ensures Ownership(h, arrays, strings)
  {
    hide Total, Contiguous;
    forall q | q in h.live
      ensures OwnedHere(h.owner[q], q, arrays, strings)
    {
      assert q != desc.baseAddr ==> OwnedHere(h.owner[q], q, arrays - {desc}, strings);
    }
  }

  lemma {:induction false} DetachString(h: Heap, desc: StringDescriptor, arrays: set<ArrayDescriptor>,
                                        strings: set<StringDescriptor>)
    requires Ownership(h, arrays, strings) && desc in strings
    ensures Holding(h, desc.data, OfString(desc), arrays, strings - {desc})
  {
    hide Total, Contiguous;
    assert desc.Owns(h);
    forall q | q in h.live && q != desc.data
      ensures OwnedHere(h.owner[q], q, arrays, strings - {desc})
    {
      assert OwnedHere(h.owner[q], q, arrays, strings);
    }
  }

  lemma {:induction false} AttachString(h: Heap, desc: StringDescriptor, arrays: set<ArrayDescriptor>,
                                        strings: set<StringDescriptor>)
    requires Holding(h, desc.data, OfString(desc), arrays, strings - {desc}) && desc in strings && desc.Owns(h)
    ensures Ownership(h, arrays, strings)
  {
    hide Total, Contiguous;
    forall q | q in h.live
      ensures OwnedHere(h.owner[q], q, arrays, strings)
    {
      assert q != desc.data ==> OwnedHere(h.owner[q], q, arrays, strings - {desc});
    }
  }

  /** Frees the held block, if there is one. */
  method Release(h: Heap, p: int, ghost who: Owner, ghost arrays: set<ArrayDescriptor>,
                 ghost strings: set<StringDescriptor>)
    requires Holding(h, p, who, arrays, strings) && Elsewhere(who, arrays, strings)
    modifies h
    ensures Holding(h, 0, who, arrays, strings)
    ensures h.live == old(h.live) - {p}
  {
    hide HeldIn, Elsewhere;
    NullIsFree(h);
    if p != 0 {
      HoldingAt(h, p, who, arrays, strings);
      HeldAfterFree(h.live, h.owner, p, who, arrays, strings);
      h.Free(p);
    }
  }

  ghost predicate Elsewhere(who: Owner, arrays: set<ArrayDescriptor>, strings: set<StringDescriptor>) {
    match who
    case OfArray(d) => d !in arrays
    case OfString(s) => s !in strings
  }

  /** Takes a block on behalf of `who`, which holds none. */
  method Acquire(h: Heap, size: nat, ghost who: Owner, ghost arrays: set<ArrayDescriptor>,
                 ghost strings: set<StringDescriptor>)
    returns (p: int)
    requires Holding(h, 0, who, arrays, strings) && size > 0
    modifies h
    ensures Holding(h, p, who, arrays, strings)
    ensures p == 0 ==> h.live == old(h.live)
    ensures p != 0 ==>
      && p > 0 && p !in old(h.live) && p in h.live && fresh(h.live[p]) && h.live[p].Length == size
      && h.live == old(h.live)[p := h.live[p]]
      && old(h.Available(p, size))
  {
    hide HeldIn, Heap.Available;
    NullIsFree(h);
    ghost var live, owner := h.live, h.owner;
    p := h.Malloc(size, who);
    if p != 0 {
      HeldAfterMalloc(live, owner, p, h.live[p], who, arrays, strings);
    }
  }

  lemma {:induction false} NullIsFree(h: Heap)
    requires h.Valid()
    ensures 0 !in h.live
  {
  }

  /** ALLOCATE: status 0, or 2 already allocated, 4 bad layout, 3 out of memory.
      A failed allocation leaves the descriptor and the heap as they were. */
  method AllocateArray(h: Heap, desc: ArrayDescriptor, elemSize: int, inputDims: seq<Dim>,
                       ghost arrays: set<ArrayDescriptor>, ghost strings: set<StringDescriptor>)
    returns (stat: int)
    requires Ownership(h, arrays, strings) && desc in arrays
    modifies h, desc
    ensures Ownership(h, arrays, strings)
    ensures stat in {0, 2, 3, 4}
    ensures stat == 2 <==> old(desc.isAllocated)
    ensures stat == 4 <==> !old(desc.isAllocated) && !LayoutFits(elemSize, inputDims)
    ensures stat == 3 ==> Total(Extents(inputDims)) * elemSize > 0
    ensures BlocksKept(h)
    ensures stat != 0 ==> unchanged(desc) && h.live == old(h.live)
    ensures stat == 0 ==>
      && desc.isAllocated && desc.contiguous && desc.elemSize == elemSize
      && SameBounds(desc.dims, inputDims) && Extents(desc.dims) == Extents(inputDims)
      && (desc.baseAddr == 0 ==> h.live == old(h.live))
      && (desc.baseAddr != 0 ==>
            && desc.baseAddr !in old(h.live) && desc.baseAddr in h.live && fresh(h.live[desc.baseAddr])
            && h.live == old(h.live)[desc.baseAddr := h.live[desc.baseAddr]]
            && forall b :: 0 <= b < desc.TotalBytes() ==> h.live[desc.baseAddr][b] == 0)
  {
    hide Total, Contiguous, LayoutFits, Ownership, Holding, StrideSpan, SameBounds, Heap.Valid, StringDescriptor.OwnsIn;
    if desc.isAllocated {
      return 2;
    }
    OwnsAt(h, desc, arrays, strings);
    var layout := CheckedAllocationLayout(elemSize, inputDims);
    if layout.Invalid? {
      return 4;
    }
    LayoutMeaning(elemSize, inputDims);
    var data := 0;
    DetachArray(h, desc, arrays, strings);
    if layout.bytes != 0 {
      data := Acquire(h, layout.bytes, OfArray(desc), arrays - {desc}, strings);
      if data == 0 {
        AttachArray(h, desc, arrays, strings);
        return 3;
      }
      ZeroFill(h.live[data]);
      NonemptyExtents(Extents(inputDims), elemSize);
      HoldingAt(h, data, OfArray(desc), arrays - {desc}, strings);
    }
    desc.Publish(elemSize, layout.dims, data);
    AttachArray(h, desc, arrays, strings);
    stat := 0;
  }

  method ZeroFill(block: array<bv8>)
    modifies block
    ensures forall b :: 0 <= b < block.Length ==> block[b] == 0
  {
    forall b | 0 <= b < block.Length {
      block[b] := 0;
    }
  }

  lemma {:induction false} OwnsAt(h: Heap, desc: ArrayDescriptor, arrays: set<ArrayDescriptor>,
                                  strings: set<StringDescriptor>)
    requires Ownership(h, arrays, strings) && desc in arrays
    ensures desc.Owns(h) && h.Valid()
  {
  }

  lemma {:induction false} HoldingAt(h: Heap, p: int, who: Owner, arrays: set<ArrayDescriptor>,
                                     strings: set<StringDescriptor>)
    requires Holding(h, p, who, arrays, strings)
    ensures h.Valid() && (p != 0 ==> p in h.live && p in h.owner && h.owner[p] == who)
  {
  }

  lemma {:induction false} NonemptyExtents(extents: seq<nat>, elemSize: int)
    requires Total(extents) * elemSize != 0
    ensures Positive(extents)
  {
    StrideSpanTotal(extents);
  }

  // ---- DEALLOCATE and MOVE_ALLOC ----

  /** DEALLOCATE: status 0, or 2 for an unallocated variable. */
  method DeallocateArray(h: Heap, desc: ArrayDescriptor,
                         ghost arrays: set<ArrayDescriptor>, ghost strings: set<StringDescriptor>)
    returns (stat: int)
    requires Ownership(h, arrays, strings) && desc in arrays
    modifies h, desc
    ensures Ownership(h, arrays, strings)
    ensures stat == if old(desc.isAllocated) then 0 else 2
    ensures stat != 0 ==> unchanged(desc) && h.live == old(h.live)
    ensures stat == 0 ==> !desc.isAllocated && desc.baseAddr == 0 && h.live == old(h.live) - {old(desc.baseAddr)}
    ensures desc.elemSize == old(desc.elemSize) && desc.dims == old(desc.dims)
  {
    hide Total, Contiguous, Ownership, Holding;
    if !desc.isAllocated {
      return 2;
    }
    OwnsAt(h, desc, arrays, strings);
    DetachArray(h, desc, arrays, strings);
    Release(h, desc.baseAddr, OfArray(desc), arrays - {desc}, strings);
    desc.baseAddr := 0;
    desc.isAllocated := false;
    AttachArray(h, desc, arrays, strings);
    stat := 0;
  }

  /** MOVE_ALLOC: the block changes owner, the old block of `to` is freed. */
  method MoveAlloc(h: Heap, from: ArrayDescriptor, to: ArrayDescriptor,
                   ghost arrays: set<ArrayDescriptor>, ghost strings: set<StringDescriptor>)
    requires Ownership(h, arrays, strings) && from in arrays && to in arrays
    modifies h, from, to
    ensures Ownership(h, arrays, strings)
    ensures from == to ==> unchanged(from) && h.live == old(h.live)
    ensures from != to ==>
      && !from.isAllocated && from.baseAddr == 0
      && to.baseAddr == old(from.baseAddr) && to.isAllocated == old(from.isAllocated)
      && to.elemSize == old(from.elemSize) && to.dims == old(from.dims)
      && h.live == old(h.live) - {old(to.baseAddr)}
  {
    hide Total, Contiguous, Ownership, Holding;
    if from == to {
      return;
    }
    OwnsAt(h, from, arrays, strings);
    ghost var rest := arrays - {to};
    DetachArray(h, to, arrays, strings);
    Release(h, to.baseAddr, OfArray(to), rest, strings);
    NothingHeld(h, OfArray(to), rest, strings);
    ghost var others := rest - {from};
    assert rest == others + {from} && arrays == others + {from, to};
    MoveBlock(h, from, to, others, strings);
  }

  /** The transfer itself, between two descriptors that are not among `others`. */
  method MoveBlock(h: Heap, from: ArrayDescriptor, to: ArrayDescriptor,
                   ghost others: set<ArrayDescriptor>, ghost strings: set<StringDescriptor>)
    requires from !in others && to !in others && from != to
    requires Ownership(h, others + {from}, strings)
    modifies h`owner, from, to
    ensures Ownership(h, others + {from, to}, strings)
    ensures !from.isAllocated && from.baseAddr == 0
    ensures to.baseAddr == old(from.baseAddr) && to.isAllocated == old(from.isAllocated)
    ensures to.elemSize == old(from.elemSize) && to.dims == old(from.dims)
  {
    hide Total, Contiguous, Ownership, Holding, Heap.Valid, OwnedHere, StringDescriptor.OwnsIn;
    OwnsAt(h, from, others + {from}, strings);
    DetachArray(h, from, others + {from}, strings);
    assert others + {from} - {from} == others;
    HandOver(h, from.baseAddr, OfArray(from), OfArray(to), others, strings);
    HoldingAt(h, from.baseAddr, OfArray(to), others, strings);
    to.Adopt(from);
    assert others + {to} - {to} == others;
    AttachArray(h, to, others + {to}, strings);
    assert others + {from, to} - {from} == others + {to};
    AttachEmpty(h, from, others + {from, to}, strings);
  }

  lemma {:induction false} NothingHeld(h: Heap, who: Owner, arrays: set<ArrayDescriptor>,
                                       strings: set<StringDescriptor>)
    requires Holding(h, 0, who, arrays, strings)
    ensures Ownership(h, arrays, strings)
  {
    hide Total, Contiguous;
  }

  lemma {:induction false} AttachEmpty(h: Heap, desc: ArrayDescriptor, arrays: set<ArrayDescriptor>,
                                       strings: set<StringDescriptor>)
    requires Ownership(h, arrays - {desc}, strings) && desc in arrays
    requires desc.baseAddr == 0 && !desc.isAllocated && |desc.dims| <= MAX_RANK && desc.elemSize >= 0
    ensures Ownership(h, arrays, strings)
  {
    hide Total, Contiguous;
    AttachArray(h, desc, arrays, strings);
  }

  ghost method HandOver(h: Heap, p: int, who: Owner, who': Owner, arrays: set<ArrayDescriptor>,
                        strings: set<StringDescriptor>)
    requires Holding(h, p, who, arrays, strings) && Elsewhere(who, arrays, strings)
    modifies h`owner
    ensures Holding(h, p, who', arrays, strings)
  {
    hide HeldIn, Elsewhere;
    if p == 0 {
      NothingHeldBy(h.live, h.owner, who, who', arrays, strings);
    } else {
      HeldAfterTransfer(h.live, h.owner, p, who, who', arrays, strings);
      HoldingAt(h, p, who, arrays, strings);
    }
    h.Transfer(p, who');
  }

  // ---- Allocatable assignment ----

  /** Nothing to copy: neither allocated, nor a view, nor a zero-size array. */
  predicate Absent(source: ArrayDescriptor)
    reads source
  {
    !source.isAllocated && source.baseAddr == 0 && !source.ZeroSize()
  }

  /** The right-hand side views live storage: its elements lie in block `home`, and
      the flat test does not mistake it. */
  ghost predicate Readable(h: Heap, source: ArrayDescriptor, home: int)
    reads source, h
  {
    && |source.dims| <= MAX_RANK && source.elemSize >= 0
    && (!Absent(source) && source.TotalBytes() > 0 ==>
          && source.baseAddr != 0 && home in h.live
          && Positive(Extents(source.dims)) && Copyable(source.dims)
          && Inside(source.baseAddr - home, source.elemSize, source.dims, h.live[home].Length))
  }

  /** The elements of a readable view, packed in column-major order. */
  ghost function Elements(h: Heap, source: ArrayDescriptor, home: int): seq<bv8>
    requires Readable(h, source, home) && !Absent(source) && source.TotalBytes() > 0
    reads source, h, h.live[home]
  {
    Gathered(h.live[home][..], source.baseAddr - home, source.elemSize, source.dims, source.TotalElements())
  }

  lemma {:induction false} ReadableView(h: Heap, source: ArrayDescriptor, home: int)
    requires Readable(h, source, home) && !Absent(source) && source.TotalBytes() > 0
    ensures home in h.live && source.elemSize > 0 && |source.dims| <= MAX_RANK
    ensures ViewReadable(h.live[home].Length, source.baseAddr - home, source.elemSize, source.dims)
    ensures Elements(h, source, home)
         == Gathered(h.live[home][..], source.baseAddr - home, source.elemSize, source.dims,
                     Total(Extents(source.dims)))
  {
    hide Gathered;
  }

  lemma {:induction false} ReadableBasics(h: Heap, source: ArrayDescriptor, home: int)
    requires Readable(h, source, home)
    ensures |source.dims| <= MAX_RANK && source.elemSize >= 0
  {
  }

  predicate BaseInStorage(dest: ArrayDescriptor, base: int)
    reads dest
  {
    && dest.isAllocated && dest.baseAddr != 0 && base != 0
    && dest.TotalBytes() > 0
    && dest.baseAddr <= base < dest.baseAddr + dest.TotalBytes()
  }

  /** The address test finds out whether the view lies in the destination's block. */
  lemma {:induction false} BaseTellsBlock(h: Heap, dest: ArrayDescriptor, source: ArrayDescriptor, home: int)
    requires h.Valid() && dest.Owns(h) && Readable(h, source, home)
    requires !Absent(source) && source.TotalBytes() > 0
    ensures BaseInStorage(dest, source.baseAddr) <==> home == dest.baseAddr
  {
    hide Index, Total, Contiguous, Copyable;
    var extents := Extents(source.dims);
    TotalPositive(extents);
    InsideAt(source.baseAddr - home, source.elemSize, source.dims, h.live[home].Length, 0);
    PlaceIs(source.baseAddr - home, source.elemSize, source.dims, 0);
    IndexZero(extents);
    OffsetZeros(|extents|, Strides(source.dims));
    assert source.elemSize > 0;
    assert home <= source.baseAddr < home + h.live[home].Length;
  }

  ghost function Storage(h: Heap, d: ArrayDescriptor): set<array<bv8>>
    reads h, d
  {
    if d.baseAddr in h.live then {h.live[d.baseAddr]} else {}
  }

  /** Gives `dest` fresh contiguous storage of the given shape. */
  method Reallocate(h: Heap, dest: ArrayDescriptor, elemSize: int, dims: seq<Dim>,
                    ghost arrays: set<ArrayDescriptor>, ghost strings: set<StringDescriptor>)
    returns (ok: bool)
    requires Ownership(h, arrays, strings) && dest in arrays && elemSize >= 0 && |dims| <= MAX_RANK
    modifies h, dest
    ensures ok ==> Ownership(h, arrays, strings)
    ensures BlocksKept(h)
    ensures ok ==> dest.isAllocated && dest.contiguous && dest.elemSize == elemSize
    ensures ok ==> SameBounds(dest.dims, dims) && Extents(dest.dims) == Extents(dims)
    ensures ok ==> (dest.baseAddr != 0 <==> dest.TotalBytes() > 0)
    ensures ok && dest.baseAddr != 0 ==>
      dest.baseAddr in h.live && fresh(h.live[dest.baseAddr]) && h.live[dest.baseAddr].Length == dest.TotalBytes()
    ensures ok ==> forall p :: p in old(h.live) && p != old(dest.baseAddr) ==>
      p in h.live && h.live[p] == old(h.live[p]) && p != dest.baseAddr
    ensures !ok ==> Total(Extents(dims)) * elemSize > 0
  {
    hide Total, Contiguous, Ownership, Holding;
    OwnsAt(h, dest, arrays, strings);
    DetachArray(h, dest, arrays, strings);
    Release(h, dest.baseAddr, OfArray(dest), arrays - {dest}, strings);
    HoldingAt(h, 0, OfArray(dest), arrays - {dest}, strings);
    ok := TakeStorage(h, dest, elemSize, dims, arrays, strings);
  }

  method TakeStorage(h: Heap, dest: ArrayDescriptor, elemSize: int, dims: seq<Dim>,
                     ghost arrays: set<ArrayDescriptor>, ghost strings: set<StringDescriptor>)
    returns (ok: bool)
    requires Holding(h, 0, OfArray(dest), arrays - {dest}, strings) && dest in arrays && elemSize >= 0
    requires |dims| <= MAX_RANK
    modifies h, dest
    ensures ok ==> Ownership(h, arrays, strings)
    ensures BlocksKept(h)
    ensures ok ==> dest.isAllocated && dest.contiguous && dest.elemSize == elemSize
    ensures ok ==> SameBounds(dest.dims, dims) && Extents(dest.dims) == Extents(dims)
    ensures ok ==> (dest.baseAddr != 0 <==> dest.TotalBytes() > 0)
    ensures ok && dest.baseAddr != 0 ==>
      dest.baseAddr in h.live && fresh(h.live[dest.baseAddr]) && h.live[dest.baseAddr].Length == dest.TotalBytes()
    ensures ok ==> forall p :: p in old(h.live) ==> p in h.live && h.live[p] == old(h.live[p]) && p != dest.baseAddr
    ensures !ok ==> Total(Extents(dims)) * elemSize > 0
  {
    hide Total, Contiguous, Ownership, Holding;
    HoldingAt(h, 0, OfArray(dest), arrays - {dest}, strings);
    dest.baseAddr, dest.isAllocated := 0, false;
    dest.elemSize := elemSize;
    dest.dims := CanonicalDims(dims);
    var bytes := dest.TotalBytes();
    if bytes > 0 {
      dest.baseAddr := Acquire(h, bytes, OfArray(dest), arrays - {dest}, strings);
      if dest.baseAddr == 0 {
        return false;
      }
      HoldingAt(h, dest.baseAddr, OfArray(dest), arrays - {dest}, strings);
      NonemptyExtents(Extents(dims), elemSize);
    }
    dest.isAllocated, dest.contiguous := true, true;
    AttachArray(h, dest, arrays, strings);
    ok := true;
  }

  /** The same bounds with the running contiguous strides; the product saturates
      only when some extent is zero or the array exceeds the address space. */
  method CanonicalDims(dims: seq<Dim>) returns (r: seq<Dim>)
    ensures SameBounds(r, dims) && Extents(r) == Extents(dims)
    ensures Positive(Extents(dims)) ==> Contiguous(Extents(r), Strides(r))
  {
    hide Contiguous, StrideSpan;
    ghost var extents := Extents(dims);
    r := [];
    var runningStride := 1;
    LayoutStart(extents);
    for i := 0 to |dims|
      invariant |r| == i && runningStride == StrideSpan(extents[..i])
      invariant forall d :: 0 <= d < i ==>
        r[d].lower == dims[d].lower && r[d].upper == dims[d].upper && r[d].stride == StrideSpan(extents[..d])
    {
      LayoutStep(extents, i);
      r := r + [Dim(dims[i].lower, dims[i].upper, runningStride)];
      runningStride := runningStride * MaxOne(dims[i].Extent());
    }
    assert Extents(r) == extents;
    CanonicalStrides(extents, Strides(r));
  }

  /** Intrinsic assignment to an allocatable.  Whether or not the destination is
      reallocated, and also when the right-hand side is a section of the
      destination, it ends up with the right-hand side's old elements in
      column-major order.  `ok` is false only when memory runs out, which ends
      the program. */
  method AssignAllocatable(h: Heap, dest: ArrayDescriptor, source: ArrayDescriptor, home: int,
                           ghost arrays: set<ArrayDescriptor>, ghost strings: set<StringDescriptor>)
    returns (ok: bool)
    requires Ownership(h, arrays, strings) && dest in arrays
    requires Readable(h, source, home)
    requires dest.isAllocated && Extents(dest.dims) == Extents(source.dims) ==> dest.elemSize == source.elemSize
    modifies h, dest, Storage(h, dest)
    ensures ok ==> Ownership(h, arrays, strings)
    ensures BlocksKept(h)
    ensures old(Vanishes(dest, source)) ==> ok && !dest.isAllocated && h.live == old(h.live) - {old(dest.baseAddr)}
    ensures ok && !old(Vanishes(dest, source)) ==>
      dest.isAllocated && dest.elemSize == old(source.elemSize) && Extents(dest.dims) == old(Extents(source.dims))
    ensures ok && !old(Vanishes(dest, source)) && old(source.TotalBytes()) > 0 ==>
      dest.baseAddr in h.live && h.live[dest.baseAddr][..] == old(Elements(h, source, home))
    ensures old(!Absent(source) && InPlace(dest, source)) ==> ok && unchanged(dest) && h.live == old(h.live)
    ensures !ok ==> old(source.TotalBytes()) > 0
    ensures ok && !old(Vanishes(dest, source)) && !old(InPlace(dest, source)) ==>
      SameBounds(dest.dims, old(source.dims))
    ensures ok ==> forall p :: p in old(h.live) && p != old(dest.baseAddr) ==>
      p in h.live && h.live[p] == old(h.live[p])
  {
    hide Total, Contiguous, Ownership, Gathered, Copyable, Inside;
    if !dest.LooksSane() {
      DiscardGarbage(h, dest, arrays, strings);
    }
    ok := AssignSane(h, dest, source, home, arrays, strings);
  }

  method DiscardGarbage(h: Heap, dest: ArrayDescriptor,
                        ghost arrays: set<ArrayDescriptor>, ghost strings: set<StringDescriptor>)
    requires Ownership(h, arrays, strings) && dest in arrays && !dest.LooksSane()
    modifies h, dest
    ensures Ownership(h, arrays, strings) && h.live == old(h.live)
    ensures old(dest.baseAddr) == 0 && dest.baseAddr == 0 && !dest.isAllocated && dest.dims == [] && dest.elemSize == 0
  {
    hide Total, Contiguous, Ownership;
    OwnsAt(h, dest, arrays, strings);
    ClearDestination(h, dest, arrays, strings);
  }

  method AssignSane(h: Heap, dest: ArrayDescriptor, source: ArrayDescriptor, home: int,
                    ghost arrays: set<ArrayDescriptor>, ghost strings: set<StringDescriptor>)
    returns (ok: bool)
    requires Ownership(h, arrays, strings) && dest in arrays && dest.LooksSane()
    requires Readable(h, source, home)
    requires dest.isAllocated && Extents(dest.dims) == Extents(source.dims) ==> dest.elemSize == source.elemSize
    modifies h, dest, Storage(h, dest)
    ensures ok ==> Ownership(h, arrays, strings)
    ensures BlocksKept(h)
    ensures old(Absent(source)) ==> ok && !dest.isAllocated && h.live == old(h.live) - {old(dest.baseAddr)}
    ensures ok && !old(Absent(source)) ==>
      dest.isAllocated && dest.elemSize == old(source.elemSize) && Extents(dest.dims) == old(Extents(source.dims))
    ensures ok && !old(Absent(source)) && old(source.TotalBytes()) > 0 ==>
      dest.baseAddr in h.live && h.live[dest.baseAddr][..] == old(Elements(h, source, home))
    ensures old(!Absent(source) && InPlace(dest, source)) ==> ok && unchanged(dest) && h.live == old(h.live)
    ensures !ok ==> old(source.TotalBytes()) > 0
    ensures ok && !old(Absent(source)) && !old(InPlace(dest, source)) ==> SameBounds(dest.dims, old(source.dims))
    ensures ok ==> forall p :: p in old(h.live) && p != old(dest.baseAddr) ==>
      p in h.live && h.live[p] == old(h.live[p])
  {
    hide Total, Contiguous, Ownership, Gathered, Copyable, Inside, Elements, Readable, ViewReadable, SameBounds;
    hide Heap.Valid, BaseInStorage;
    ReadableBasics(h, source, home);
    OwnsAt(h, dest, arrays, strings);
    if Absent(source) {
      ClearDestination(h, dest, arrays, strings);
      return true;
    }
    var shapesMatch := SameShape(dest.dims, source.dims);
    var bytes := source.TotalBytes();
    if bytes > 0 {
      BaseTellsBlock(h, dest, source, home);
      ReadableView(h, source, home);
      var overlapping := BaseInStorage(dest, source.baseAddr);
      ok := AssignElements(h, dest, home, source.baseAddr - home, source.elemSize, source.dims, shapesMatch,
                           overlapping, arrays, strings);
    } else {
      ok := true;
      if !shapesMatch || !dest.isAllocated {
        ok := Reallocate(h, dest, source.elemSize, source.dims, arrays, strings);
      }
    }
  }

  /** The assignment deallocates: the right-hand side has no storage and is neither
      allocated nor of size zero, or it is the destination itself and the runtime
      takes that for garbage.  Apart from unallocated variables both happen exactly
      to arrays whose elements have length zero. */
  predicate Vanishes(dest: ArrayDescriptor, source: ArrayDescriptor)
    reads dest, source
  {
    Absent(source) || (source == dest && !dest.LooksSane())
  }

  /** No reallocation is needed. */
  predicate InPlace(dest: ArrayDescriptor, source: ArrayDescriptor)
    reads dest, source
  {
    dest.isAllocated && dest.LooksSane() && Extents(dest.dims) == Extents(source.dims)
  }

  method SameShape(a: seq<Dim>, b: seq<Dim>) returns (same: bool)
    ensures same <==> Extents(a) == Extents(b)
  {
    if |a| != |b| {
      return false;
    }
    for i := 0 to |a|
      invariant forall j :: 0 <= j < i ==> a[j].Extent() == b[j].Extent()
    {
      if a[i].Extent() != b[i].Extent() {
        assert Extents(a)[i] != Extents(b)[i];
        return false;
      }
    }
    same := true;
  }

  /** Frees the destination and leaves it zeroed. */
  method ClearDestination(h: Heap, dest: ArrayDescriptor,
                          ghost arrays: set<ArrayDescriptor>, ghost strings: set<StringDescriptor>)
    requires Ownership(h, arrays, strings) && dest in arrays
    modifies h, dest
    ensures Ownership(h, arrays, strings)
    ensures !dest.isAllocated && dest.baseAddr == 0 && dest.dims == [] && dest.elemSize == 0
    ensures h.live == old(h.live) - {old(dest.baseAddr)}
  {
    hide Total, Contiguous, Ownership, Holding;
    OwnsAt(h, dest, arrays, strings);
    DetachArray(h, dest, arrays, strings);
    if dest.isAllocated && dest.baseAddr != 0 {
      Release(h, dest.baseAddr, OfArray(dest), arrays - {dest}, strings);
    }
    HoldingAt(h, 0, OfArray(dest), arrays - {dest}, strings);
    dest.Reset();
    AttachArray(h, dest, arrays, strings);
  }

  /** Storage for the given shape: the present block if the shapes match. */
  method EnsureStorage(h: Heap, dest: ArrayDescriptor, elemSize: int, dims: seq<Dim>, shapesMatch: bool,
                       ghost arrays: set<ArrayDescriptor>, ghost strings: set<StringDescriptor>)
    returns (ok: bool)
    requires Ownership(h, arrays, strings) && dest in arrays && elemSize >= 0 && |dims| <= MAX_RANK
    requires Total(Extents(dims)) * elemSize > 0
    requires shapesMatch <==> Extents(dest.dims) == Extents(dims)
    requires dest.isAllocated && shapesMatch ==> dest.elemSize == elemSize
    modifies h, dest
    ensures ok ==> Ownership(h, arrays, strings)
    ensures BlocksKept(h)
    ensures ok ==> dest.isAllocated && dest.elemSize == elemSize && Extents(dest.dims) == Extents(dims)
    ensures ok ==> dest.baseAddr in h.live && h.live[dest.baseAddr].Length == Total(Extents(dims)) * elemSize
    ensures old(dest.isAllocated) && shapesMatch ==> ok && unchanged(dest) && h.live == old(h.live)
    ensures ok && !(old(dest.isAllocated) && shapesMatch) ==>
      SameBounds(dest.dims, dims) && fresh(h.live[dest.baseAddr])
    ensures ok ==> forall p :: p in old(h.live) && p != old(dest.baseAddr) ==>
      p in h.live && h.live[p] == old(h.live[p]) && p != dest.baseAddr
  {
    hide Total, Contiguous, Ownership, SameBounds, Heap.Valid;
    ok := true;
    if !shapesMatch || !dest.isAllocated {
      ok := Reallocate(h, dest, elemSize, dims, arrays, strings);
    }
    if ok {
      OwnsAt(h, dest, arrays, strings);
    }
  }

  /** The copying part, from element `start` bytes into block `home`: a snapshot is
      taken first when that is the destination's own block. */
  method AssignElements(h: Heap, dest: ArrayDescriptor, home: int, start: int, elemSize: nat, dims: seq<Dim>,
                        shapesMatch: bool, overlapping: bool,
                        ghost arrays: set<ArrayDescriptor>, ghost strings: set<StringDescriptor>)
    returns (ok: bool)
    requires Ownership(h, arrays, strings) && dest in arrays && elemSize > 0 && |dims| <= MAX_RANK
    requires overlapping <==> home == dest.baseAddr
    requires home in h.live && ViewReadable(h.live[home].Length, start, elemSize, dims)
    requires shapesMatch <==> Extents(dest.dims) == Extents(dims)
    requires dest.isAllocated && shapesMatch ==> dest.elemSize == elemSize
    modifies h, dest, Storage(h, dest)
    ensures ok ==> Ownership(h, arrays, strings)
    ensures BlocksKept(h)
    ensures ok ==> dest.isAllocated && dest.elemSize == elemSize && Extents(dest.dims) == Extents(dims)
    ensures ok ==> dest.baseAddr in h.live
    ensures ok ==>
      h.live[dest.baseAddr][..] == old(Gathered(h.live[home][..], start, elemSize, dims, Total(Extents(dims))))
    ensures old(dest.isAllocated) && shapesMatch ==> ok && unchanged(dest) && h.live == old(h.live)
    ensures ok && !(old(dest.isAllocated) && shapesMatch) ==> SameBounds(dest.dims, dims)
    ensures ok ==> forall p :: p in old(h.live) && p != old(dest.baseAddr) ==>
      p in h.live && h.live[p] == old(h.live[p])
  {
    hide Total, Contiguous, Ownership, Gathered, Copyable, Inside, Positive, SameBounds, Heap.Valid;
    if overlapping {
      ok := AssignFromSelf(h, dest, start, elemSize, dims, shapesMatch, arrays, strings);
    } else {
      ok := AssignFromOther(h, dest, home, start, elemSize, dims, shapesMatch, arrays, strings);
    }
  }

  /** A view of a block of the given length that the runtime copies correctly. */
  ghost predicate ViewReadable(length: nat, start: int, elemSize: nat, dims: seq<Dim>) {
    Positive(Extents(dims)) && Copyable(dims) && Inside(start, elemSize, dims, length)
  }

  method AssignFromSelf(h: Heap, dest: ArrayDescriptor, start: int, elemSize: nat, dims: seq<Dim>, shapesMatch: bool,
                        ghost arrays: set<ArrayDescriptor>, ghost strings: set<StringDescriptor>)
    returns (ok: bool)
    requires Ownership(h, arrays, strings) && dest in arrays && elemSize > 0 && |dims| <= MAX_RANK
    requires dest.baseAddr in h.live && ViewReadable(h.live[dest.baseAddr].Length, start, elemSize, dims)
    requires shapesMatch <==> Extents(dest.dims) == Extents(dims)
    requires dest.isAllocated && shapesMatch ==> dest.elemSize == elemSize
    modifies h, dest, Storage(h, dest)
    ensures ok ==> Ownership(h, arrays, strings)
    ensures BlocksKept(h)
    ensures ok ==> dest.isAllocated && dest.elemSize == elemSize && Extents(dest.dims) == Extents(dims)
    ensures ok ==> dest.baseAddr in h.live
    ensures ok ==>
      h.live[dest.baseAddr][..] == old(Gathered(h.live[dest.baseAddr][..], start, elemSize, dims, Total(Extents(dims))))
    ensures old(dest.isAllocated) && shapesMatch ==> ok && unchanged(dest) && h.live == old(h.live)
    ensures ok && !(old(dest.isAllocated) && shapesMatch) ==> SameBounds(dest.dims, dims)
    ensures ok ==> forall p :: p in old(h.live) && p != old(dest.baseAddr) ==>
      p in h.live && h.live[p] == old(h.live[p])
  {
    hide Total, Contiguous, Ownership, Gathered, Copyable, Inside, Positive, SameBounds, Heap.Valid;
    var bytes := ViewBytes(elemSize, dims);
    var snapshot := new bv8[bytes];
    CopyToContiguous(h.live[dest.baseAddr], start, elemSize, dims, snapshot);
    ok := EnsureStorage(h, dest, elemSize, dims, shapesMatch, arrays, strings);
    if ok {
      CopyAll(snapshot, h.live[dest.baseAddr]);
    }
  }

  method AssignFromOther(h: Heap, dest: ArrayDescriptor, home: int, start: int, elemSize: nat, dims: seq<Dim>,
                         shapesMatch: bool,
                         ghost arrays: set<ArrayDescriptor>, ghost strings: set<StringDescriptor>)
    returns (ok: bool)
    requires Ownership(h, arrays, strings) && dest in arrays && elemSize > 0 && |dims| <= MAX_RANK
    requires home in h.live && home != dest.baseAddr && ViewReadable(h.live[home].Length, start, elemSize, dims)
    requires shapesMatch <==> Extents(dest.dims) == Extents(dims)
    requires dest.isAllocated && shapesMatch ==> dest.elemSize == elemSize
    modifies h, dest, Storage(h, dest)
    ensures ok ==> Ownership(h, arrays, strings)
    ensures BlocksKept(h)
    ensures ok ==> dest.isAllocated && dest.elemSize == elemSize && Extents(dest.dims) == Extents(dims)
    ensures ok ==> dest.baseAddr in h.live
    ensures ok ==>
      h.live[dest.baseAddr][..] == old(Gathered(h.live[home][..], start, elemSize, dims, Total(Extents(dims))))
    ensures old(dest.isAllocated) && shapesMatch ==> ok && unchanged(dest) && h.live == old(h.live)
    ensures ok && !(old(dest.isAllocated) && shapesMatch) ==> SameBounds(dest.dims, dims)
    ensures ok ==> forall p :: p in old(h.live) && p != old(dest.baseAddr) ==>
      p in h.live && h.live[p] == old(h.live[p])
  {
    hide Total, Contiguous, Ownership, Gathered, Copyable, Inside, Positive, SameBounds, Heap.Valid;
    var bytes := ViewBytes(elemSize, dims);
    ok := EnsureStorage(h, dest, elemSize, dims, shapesMatch, arrays, strings);
    if ok {
      OwnsAt(h, dest, arrays, strings);
      DistinctBlocks(h, home, dest.baseAddr);
      CopyToContiguous(h.live[home], start, elemSize, dims, h.live[dest.baseAddr]);
    }
  }

  method ViewBytes(elemSize: nat, dims: seq<Dim>) returns (bytes: nat)
    requires elemSize > 0 && Positive(Extents(dims))
    ensures bytes == Total(Extents(dims)) * elemSize && bytes > 0
  {
    TotalPositive(Extents(dims));
    PositiveProduct(Total(Extents(dims)), elemSize);
    bytes := Total(Extents(dims)) * elemSize;
  }

  lemma {:induction false} DistinctBlocks(h: Heap, p: int, q: int)
    requires h.Valid() && p in h.live && q in h.live && p != q
    ensures h.live[p] != h.live[q]
  {
  }

  method CopyAll(src: array<bv8>, dest: array<bv8>)
    requires src != dest && src.Length == dest.Length
    modifies dest
    ensures dest[..] == old(src[..])
  {
    CopyPiece(src, 0, dest, 0, dest.Length);
    assert dest[..] == dest[0..0 + dest.Length] && src[..] == src[0..0 + dest.Length];
  }
}
