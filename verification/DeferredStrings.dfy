/**
  Deferred-length character variables (runtime/src/string.rs): allocation,
  assignment that may read the destination itself, deallocation and MOVE_ALLOC.
 */
module DeferredStrings {
  import opened StridedViews
  import opened Odometer
  import opened Allocatables

  /** Where the assigned characters come from. */
  datatype Source = Null | HeapSlice(home: int, offset: nat) | Constant(bytes: seq<bv8>)

  /** n characters can be read: a heap slice lies inside a live block. */
  ghost predicate Fetchable(h: Heap, src: Source, n: nat)
    reads h
  {
    match src
    case Null => true
    case HeapSlice(home, offset) => home in h.live && offset + n <= h.live[home].Length
    case Constant(bytes) => n <= |bytes|
  }

  function Memory(h: Heap, src: Source): set<object>
    reads h
  {
    if src.HeapSlice? && src.home in h.live then {h.live[src.home]} else {}
  }

  function Fetch(h: Heap, src: Source, n: nat): (s: seq<bv8>)
    requires Fetchable(h, src, n) && !src.Null?
    reads h, Memory(h, src)
    ensures |s| == n
  {
    match src
    case HeapSlice(home, offset) => h.live[home][offset..offset + n]
    case Constant(bytes) => bytes[..n]
  }

  ghost function Content(h: Heap, s: StringDescriptor): seq<bv8>
    requires s.Owns(h)
    reads h, s, if s.data in h.live then {h.live[s.data]} else {}
  {
    if s.data == 0 then [] else h.live[s.data][..s.len]
  }

  /** memmove: as if the characters passed through a separate buffer. */
  method MoveCharacters(h: Heap, src: Source, n: nat, target: array<bv8>)
    requires Fetchable(h, src, n) && !src.Null? && n <= target.Length
    modifies target
    ensures target[..n] == old(Fetch(h, src, n))
  {
    var content := Fetch(h, src, n);
    forall b | 0 <= b < n {
      target[b] := content[b];
    }
    assert target[..n] == content;
  }

  /** ALLOCATE(character(len=n) :: s): status 0, 2 already allocated, 3 out of
      memory; a failure changes nothing. */
  method AllocateString(h: Heap, desc: StringDescriptor, requestedLen: int,
                        ghost arrays: set<ArrayDescriptor>, ghost strings: set<StringDescriptor>)
    returns (stat: int)
    requires Ownership(h, arrays, strings) && desc in strings
    modifies h, desc
    ensures Ownership(h, arrays, strings)
    ensures BlocksKept(h)
    ensures stat in {0, 2, 3}
    ensures stat == 2 <==> old(desc.isAllocated)
    ensures stat == 3 ==> requestedLen > 0
    ensures stat != 0 ==> unchanged(desc) && h.live == old(h.live)
    ensures stat == 0 ==>
      && desc.isAllocated && desc.deferred
      && desc.len == desc.capacity == (if requestedLen > 0 then requestedLen else 0)
      && desc.Owns(h)
      && (desc.data == 0 ==> h.live == old(h.live))
      && (desc.data != 0 ==> desc.data !in old(h.live) && h.live == old(h.live)[desc.data := h.live[desc.data]])
      && forall b :: 0 <= b < |Content(h, desc)| ==> Content(h, desc)[b] == 0x20
  {
    hide Ownership, Holding;
    StringOwnsAt(h, desc, arrays, strings);
    if desc.isAllocated || desc.data != 0 {
      return 2;
    }
    var len := if requestedLen > 0 then requestedLen else 0;
    var data := 0;
    DetachString(h, desc, arrays, strings);
    if len != 0 {
      data := Acquire(h, len, OfString(desc), arrays, strings - {desc});
      if data == 0 {
        AttachString(h, desc, arrays, strings);
        return 3;
      }
      HoldingAt(h, data, OfString(desc), arrays, strings - {desc});
      var block := h.live[data];
      forall b | 0 <= b < block.Length {
        block[b] := 0x20;
      }
    }
    desc.Set(data, len);
    AttachString(h, desc, arrays, strings);
    stat := 0;
  }

  lemma {:induction false} StringOwnsAt(h: Heap, desc: StringDescriptor, arrays: set<ArrayDescriptor>,
                                        strings: set<StringDescriptor>)
    requires Ownership(h, arrays, strings) && desc in strings
    ensures desc.Owns(h) && h.Valid()
  {
  }

  /** Assignment to a deferred-length variable.  The variable ends up with the
      source's old characters, also when the source is part of the variable: a
      new buffer is filled before the old one is freed.  `ok` is false only when
      memory runs out, which ends the program. */
  method AssignDeferred(h: Heap, desc: StringDescriptor, src: Source, srcLen: int,
                        ghost arrays: set<ArrayDescriptor>, ghost strings: set<StringDescriptor>)
    returns (ok: bool)
    requires Ownership(h, arrays, strings) && desc in strings
    requires srcLen > 0 ==> Fetchable(h, src, srcLen)
    modifies h, desc, if desc.data in h.live then {h.live[desc.data]} else {}
    ensures ok ==> Ownership(h, arrays, strings)
    ensures BlocksKept(h)
    ensures ok ==> desc.isAllocated && desc.deferred && desc.len == (if srcLen > 0 then srcLen else 0)
    ensures ok ==> desc.capacity == if srcLen > old(desc.capacity) then srcLen else old(desc.capacity)
    ensures ok && srcLen > 0 && !src.Null? ==>
      desc.Owns(h) && Content(h, desc) == old(Fetch(h, src, srcLen))
    ensures srcLen <= old(desc.capacity) ==> ok && desc.data == old(desc.data) && h.live == old(h.live)
    ensures ok ==> forall p :: p in old(h.live) && p != old(desc.data) ==> p in h.live && h.live[p] == old(h.live[p])
  {
    hide Ownership, Holding;
    StringOwnsAt(h, desc, arrays, strings);
    DetachString(h, desc, arrays, strings);
    ok := true;
    if srcLen <= 0 {
      desc.len := 0;
      desc.isAllocated, desc.deferred := true, true;
      if desc.data == 0 {
        desc.capacity := 0;
      }
      AttachString(h, desc, arrays, strings);
      return;
    }
    if srcLen > desc.capacity || desc.data == 0 {
      ok := Regrow(h, desc, src, srcLen, arrays, strings);
      return;
    }
    if !src.Null? {
      MoveCharacters(h, src, srcLen, h.live[desc.data]);
    }
    desc.len := srcLen;
    desc.isAllocated, desc.deferred := true, true;
    AttachString(h, desc, arrays, strings);
  }

  /** Moves the variable to a larger buffer: allocate, copy, then free. */
  method Regrow(h: Heap, desc: StringDescriptor, src: Source, srcLen: nat,
                ghost arrays: set<ArrayDescriptor>, ghost strings: set<StringDescriptor>)
    returns (ok: bool)
    requires Ownership(h, arrays, strings) && desc in strings
    requires srcLen > 0 && Fetchable(h, src, srcLen)
    modifies h, desc
    ensures ok ==> Ownership(h, arrays, strings)
    ensures BlocksKept(h)
    ensures ok ==> desc.isAllocated && desc.deferred && desc.len == desc.capacity == srcLen && desc.Owns(h)
    ensures ok && !src.Null? ==> Content(h, desc) == old(Fetch(h, src, srcLen))
    ensures ok ==> forall p :: p in old(h.live) && p != old(desc.data) ==> p in h.live && h.live[p] == old(h.live[p])
  {
    hide Ownership, Holding, HoldingTwo, Heap.Valid, OwnedHere, ArrayDescriptor.OwnsIn, Total, Contiguous;
    StringOwnsAt(h, desc, arrays, strings);
    var newData := Grab(h, desc, srcLen, arrays, strings);
    if newData == 0 {
      return false;
    }
    if !src.Null? {
      MoveCharacters(h, src, srcLen, h.live[newData]);
    }
    Swap(h, desc, newData, arrays, strings);
    desc.Set(newData, srcLen);
    HoldingAt(h, newData, OfString(desc), arrays, strings - {desc});
    AttachString(h, desc, arrays, strings);
    ok := true;
  }

  /** Between allocation and release the variable owns its old block and holds
      the new one. */
  ghost predicate HoldingTwo(h: Heap, desc: StringDescriptor, p: int, arrays: set<ArrayDescriptor>,
                             strings: set<StringDescriptor>)
    reads h, desc, arrays, strings
  {
    && h.Valid() && desc in strings && p in h.live && p != desc.data
    && HeldIn(h.live, h.owner, p, OfString(desc), arrays, strings)
  }

  /** Freeing the old block leaves the variable with the new one. */
  lemma {:induction false} HeldAfterSwap(live: map<int, array<bv8>>, owner: map<int, Owner>, desc: StringDescriptor,
                                         p: int,
                                         arrays: set<ArrayDescriptor>, strings: set<StringDescriptor>)
    requires HeldIn(live, owner, p, OfString(desc), arrays, strings) && desc in strings && p in live
    requires p != desc.data && 0 !in live && p != 0
    ensures HeldIn(live - {desc.data}, owner - {desc.data}, p, OfString(desc), arrays, strings - {desc})
  {
    hide Total, Contiguous;
    assert desc.OwnsIn(live, owner);
    forall q | q in live - {desc.data} && q != p
      ensures OwnedHere(owner[q], q, arrays, strings - {desc})
    {
      assert OwnedHere(owner[q], q, arrays, strings);
    }
  }

  lemma {:induction false} OwnershipIsHeld(h: Heap, who: Owner, arrays: set<ArrayDescriptor>,
                                           strings: set<StringDescriptor>)
    requires Ownership(h, arrays, strings)
    ensures HeldIn(h.live, h.owner, 0, who, arrays, strings)
  {
  }

  method Grab(h: Heap, desc: StringDescriptor, size: nat,
              ghost arrays: set<ArrayDescriptor>, ghost strings: set<StringDescriptor>)
    returns (p: int)
    requires Ownership(h, arrays, strings) && desc in strings && size > 0
    modifies h
    ensures p == 0 ==> h.live == old(h.live)
    ensures p != 0 ==> HoldingTwo(h, desc, p, arrays, strings)
    ensures p != 0 ==>
      && p !in old(h.live) && p in h.live && fresh(h.live[p]) && h.live[p].Length == size
      && h.live == old(h.live)[p := h.live[p]]
  {
    hide HeldIn, Ownership, Heap.Available;
    StringOwnsAt(h, desc, arrays, strings);
    OwnershipIsHeld(h, OfString(desc), arrays, strings);
    NullIsFree(h);
    ghost var live, owner := h.live, h.owner;
    p := h.Malloc(size, OfString(desc));
    if p != 0 {
      HeldAfterMalloc(live, owner, p, h.live[p], OfString(desc), arrays, strings);
    }
  }

  method Swap(h: Heap, desc: StringDescriptor, p: int,
              ghost arrays: set<ArrayDescriptor>, ghost strings: set<StringDescriptor>)
    requires HoldingTwo(h, desc, p, arrays, strings)
    modifies h
    ensures Holding(h, p, OfString(desc), arrays, strings - {desc})
    ensures h.live == old(h.live) - {desc.data}
  {
    hide HeldIn;
    NullIsFree(h);
    HeldAfterSwap(h.live, h.owner, desc, p, arrays, strings);
    OwnsWhileHolding(h, desc, p, arrays, strings);
    if desc.isAllocated && desc.data != 0 {
      h.Free(desc.data);
    } else {
      assert h.live - {0} == h.live && h.owner - {0} == h.owner;
    }
  }

  lemma {:induction false} OwnsWhileHolding(h: Heap, desc: StringDescriptor, p: int, arrays: set<ArrayDescriptor>,
                                            strings: set<StringDescriptor>)
    requires HoldingTwo(h, desc, p, arrays, strings)
    ensures desc.Owns(h)
  {
  }

  /** Implicit deallocation; an unallocated variable stays as it is. */
  method DeallocString(h: Heap, desc: StringDescriptor,
                       ghost arrays: set<ArrayDescriptor>, ghost strings: set<StringDescriptor>)
    requires Ownership(h, arrays, strings) && desc in strings
    modifies h, desc
    ensures Ownership(h, arrays, strings)
    ensures !desc.isAllocated && desc.data == 0 && desc.len == 0 && desc.capacity == 0
    ensures desc.deferred == old(desc.deferred)
    ensures h.live == old(h.live) - {old(desc.data)}
  {
    hide Ownership, Holding;
    StringOwnsAt(h, desc, arrays, strings);
    DetachString(h, desc, arrays, strings);
    if desc.isAllocated && desc.data != 0 {
      Release(h, desc.data, OfString(desc), arrays, strings - {desc});
    }
    HoldingAt(h, 0, OfString(desc), arrays, strings - {desc});
    desc.data, desc.len, desc.capacity := 0, 0, 0;
    desc.isAllocated := false;
    AttachString(h, desc, arrays, strings);
  }

  /** The DEALLOCATE statement: status 2 for an unallocated variable. */
  method DeallocStringChecked(h: Heap, desc: StringDescriptor,
                              ghost arrays: set<ArrayDescriptor>, ghost strings: set<StringDescriptor>)
    returns (stat: int)
    requires Ownership(h, arrays, strings) && desc in strings
    modifies h, desc
    ensures Ownership(h, arrays, strings)
    ensures stat == if old(desc.isAllocated) then 0 else 2
    ensures stat != 0 ==> unchanged(desc) && h.live == old(h.live)
    ensures stat == 0 ==> !desc.isAllocated && h.live == old(h.live) - {old(desc.data)}
  {
    if !desc.isAllocated {
      return 2;
    }
    DeallocString(h, desc, arrays, strings);
    stat := 0;
  }

  /** MOVE_ALLOC: the buffer changes owner. */
  method MoveAllocString(h: Heap, from: StringDescriptor, to: StringDescriptor,
                         ghost arrays: set<ArrayDescriptor>, ghost strings: set<StringDescriptor>)
    requires Ownership(h, arrays, strings) && from in strings && to in strings
    modifies h, from, to
    ensures Ownership(h, arrays, strings)
    ensures from == to ==> unchanged(from) && h.live == old(h.live)
    ensures from != to ==>
      && !from.isAllocated && from.data == 0 && from.len == 0 && from.deferred == old(from.deferred)
      && to.data == old(from.data) && to.len == old(from.len) && to.capacity == old(from.capacity)
      && to.isAllocated == old(from.isAllocated) && to.deferred == old(from.deferred)
      && h.live == old(h.live) - {old(to.data)}
  {
    hide Ownership, Holding;
    if from == to {
      return;
    }
    StringOwnsAt(h, to, arrays, strings);
    ghost var rest := strings - {to};
    DetachString(h, to, arrays, strings);
    if to.isAllocated && to.data != 0 {
      Release(h, to.data, OfString(to), arrays, rest);
    }
    HoldingAt(h, 0, OfString(to), arrays, rest);
    NothingHeld(h, OfString(to), arrays, rest);
    ghost var others := rest - {from};
    assert rest == others + {from} && strings == others + {from, to};
    MoveBuffer(h, from, to, arrays, others);
  }

  method MoveBuffer(h: Heap, from: StringDescriptor, to: StringDescriptor,
                    ghost arrays: set<ArrayDescriptor>, ghost others: set<StringDescriptor>)
    requires from !in others && to !in others && from != to
    requires Ownership(h, arrays, others + {from})
    modifies h`owner, from, to
    ensures Ownership(h, arrays, others + {from, to})
    ensures !from.isAllocated && from.data == 0 && from.len == 0 && from.deferred == old(from.deferred)
    ensures to.data == old(from.data) && to.len == old(from.len) && to.capacity == old(from.capacity)
    ensures to.isAllocated == old(from.isAllocated) && to.deferred == old(from.deferred)
  {
    hide Ownership, Holding, Heap.Valid, OwnedHere, ArrayDescriptor.OwnsIn, Total, Contiguous;
    StringOwnsAt(h, from, arrays, others + {from});
    DetachString(h, from, arrays, others + {from});
    assert others + {from} - {from} == others;
    HandOver(h, from.data, OfString(from), OfString(to), arrays, others);
    HoldingAt(h, from.data, OfString(to), arrays, others);
    to.Adopt(from);
    assert others + {to} - {to} == others;
    AttachString(h, to, arrays, others + {to});
    assert others + {from, to} - {from} == others + {to};
    AttachEmptyString(h, from, arrays, others + {from, to});
  }

  lemma {:induction false} AttachEmptyString(h: Heap, desc: StringDescriptor, arrays: set<ArrayDescriptor>,
                                             strings: set<StringDescriptor>)
    requires Ownership(h, arrays, strings - {desc}) && desc in strings
    requires desc.data == 0 && desc.len == 0 && desc.capacity == 0
    ensures Ownership(h, arrays, strings)
  {
    hide Total, Contiguous;
    AttachString(h, desc, arrays, strings);
  }
}
