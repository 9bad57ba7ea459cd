/**
  The test that two descriptors may share storage (runtime/src/array.rs,
  descriptor_byte_span and afs_descriptors_overlap).  It compares the byte
  ranges between the first and the last byte of either view, in saturating
  128-bit arithmetic.
 */
module Overlap {
  import opened Arith
  import opened MachineInts
  import opened Odometer
  import opened Powers
  import opened StridedViews
  import opened Spans
  import opened Wrappers

  const ADDRESS_LIMIT: int := 0x1_0000_0000_0000_0000

  datatype View = View(base: nat, elemSize: int, dims: seq<Dim>)

  datatype Range = Range(low: int, high: int)

  function Saturate128(x: int): (r: int)
    ensures I128_MIN <= r <= I128_MAX && (I128_MIN <= x <= I128_MAX ==> r == x)
  {
    if x > I128_MAX then I128_MAX else if x < I128_MIN then I128_MIN else x
  }

  /** The address space and the saturating range as powers of two. */
  lemma {:induction false} Limits()
    ensures ADDRESS_LIMIT == Bit(64) && I128_MAX == Bit(127) - 1 && I128_MIN == -(Bit(127) as int)
  {
    ByteWidths();
    LimitBits();
  }

  ghost predicate ElementByte(v: View, idx: seq<nat>, b: int) {
    InBox(idx, Extents(v.dims)) &&
    var start := v.base + Offset(idx, Strides(v.dims)) * v.elemSize;
    start <= b < start + v.elemSize
  }

  /** Byte b belongs to some element of the view. */
  ghost predicate Occupies(v: View, b: int) {
    v.base != 0 && exists idx: seq<nat> :: ElementByte(v, idx, b)
  }

  /** A descriptor the runtime can hold, whose extents it can compute, with all its
      elements in the address space. */
  ghost predicate Addressable(v: View) {
    && |v.dims| <= MAX_RANK && (forall d :: 0 <= d < |v.dims| ==> v.dims[d].Extent() <= I64_MAX)
    && forall b :: Occupies(v, b) ==> 0 <= b < ADDRESS_LIMIT
  }

  /** Byte b lies between two bytes of the view. */
  ghost predicate InHull(v: View, b: int) {
    exists a, c :: Occupies(v, a) && Occupies(v, c) && a <= b <= c
  }

  predicate HasElements(v: View) {
    v.base != 0 && v.elemSize > 0 && Positive(Extents(v.dims))
  }

  function ExactRange(v: View): Range {
    var e, s := Extents(v.dims), Strides(v.dims);
    Range(v.base + Down(e, s) * v.elemSize, v.base + Up(e, s) * v.elemSize + v.elemSize)
  }

  lemma {:induction false} NoElements(v: View)
    requires !HasElements(v)
    ensures forall b :: !Occupies(v, b)
  {
    if b :| Occupies(v, b) {
      var idx: seq<nat> :| ElementByte(v, idx, b);
      IndexOfLinear(idx, Extents(v.dims));
    }
  }

  lemma {:induction false} CornerByte(v: View, idx: seq<nat>, offset: int)
    requires InBox(idx, Extents(v.dims)) && Offset(idx, Strides(v.dims)) == offset && v.elemSize > 0 && v.base != 0
    ensures Occupies(v, v.base + offset * v.elemSize) && Occupies(v, v.base + offset * v.elemSize + v.elemSize - 1)
  {
    assert ElementByte(v, idx, v.base + offset * v.elemSize);
    assert ElementByte(v, idx, v.base + offset * v.elemSize + v.elemSize - 1);
  }

  lemma {:induction false} ByteBetween(base: int, down: int, offset: int, up: int, size: nat, b: int)
    requires down <= offset <= up && base + offset * size <= b < base + offset * size + size
    ensures base + down * size <= b < base + up * size + size
  {
    MulMonotone(size, down, offset);
    MulMonotone(size, offset, up);
  }

  /** The exact range runs from the view's first byte to its last. */
  lemma {:induction false} RangeEnds(v: View)
    requires HasElements(v)
    ensures var r := ExactRange(v);
      Occupies(v, r.low) && Occupies(v, r.high - 1) && forall b :: Occupies(v, b) ==> r.low <= b < r.high
  {
    hide Extents, Strides, Down, Up, Offset;
    var e, s, r := Extents(v.dims), Strides(v.dims), ExactRange(v);
    assert |e| == |s| by { SameRank(v.dims); }
    assert Occupies(v, r.low) && Occupies(v, r.high - 1) by {
      hide Occupies;
      var low, high := Corners(e, s);
      CornerByte(v, low, Down(e, s));
      CornerByte(v, high, Up(e, s));
    }
    forall b | Occupies(v, b)
      ensures r.low <= b < r.high
    {
      var idx: seq<nat> :| ElementByte(v, idx, b);
      WithinReach(idx, e, s);
      ByteBetween(v.base, Down(e, s), Offset(idx, s), Up(e, s), v.elemSize, b);
    }
  }

  lemma {:induction false} SameRank(dims: seq<Dim>)
    ensures |Extents(dims)| == |Strides(dims)| == |dims|
  {
  }

  lemma {:induction false} HullIsRange(v: View, b: int)
    requires HasElements(v)
    ensures InHull(v, b) <==> ExactRange(v).low <= b < ExactRange(v).high
  {
    hide ExactRange, HasElements;
    RangeEnds(v);
  }

  lemma {:induction false} ReachFits(base: int, down: int, up: int, size: int)
    requires size > 0 && down <= 0 <= up
    requires 0 <= base + down * size && base + up * size + size <= ADDRESS_LIMIT
    ensures base + down * size < base + up * size + size
    ensures -ADDRESS_LIMIT <= down * size <= down && up <= up * size <= ADDRESS_LIMIT
  {
    MulMonotone(size, down, 0);
    MulMonotone(size, 0, up);
    MulMonotone(-down, 1, size);
    MulMonotone(up, 1, size);
    assert -down * size == -(down * size);
  }

  /** In an address space, nothing the runtime adds up leaves the 128-bit range. */
  lemma {:induction false} NoSaturation(v: View)
    requires HasElements(v) && Addressable(v)
    ensures var e, s, r := Extents(v.dims), Strides(v.dims), ExactRange(v);
      && 0 <= r.low < r.high <= ADDRESS_LIMIT
      && -ADDRESS_LIMIT <= Down(e, s) * v.elemSize <= Down(e, s) && Up(e, s) <= Up(e, s) * v.elemSize <= ADDRESS_LIMIT
  {
    RangeInside(v);
    ReachFits(v.base, Down(Extents(v.dims), Strides(v.dims)), Up(Extents(v.dims), Strides(v.dims)), v.elemSize);
  }

  lemma {:induction false} RangeInside(v: View)
    requires HasElements(v) && Addressable(v)
    ensures 0 <= ExactRange(v).low && ExactRange(v).high <= ADDRESS_LIMIT
  {
    hide ExactRange, HasElements, Occupies;
    RangeEnds(v);
    var low, high := ExactRange(v).low, ExactRange(v).high - 1;
    assert Occupies(v, low) && Occupies(v, high);
  }

  /** One dimension of the runtime's sum: saturation never bites on the way to a
      total that stays in range. */
  lemma {:induction false} SumStep(e: seq<nat>, s: seq<int>, i: nat, min: int, max: int)
    requires |e| == |s| && i < |e|
    requires I128_MIN <= min + Down(e[i..], s[i..]) && min <= 0
    requires max + Up(e[i..], s[i..]) <= I128_MAX && max >= 0
    ensures var last := Reach(e[i], s[i]);
      && Saturate128(last) == last
      && (last < 0 ==>
            && Saturate128(min + last) == min + last
            && min + last + Down(e[i + 1..], s[i + 1..]) == min + Down(e[i..], s[i..])
            && Up(e[i + 1..], s[i + 1..]) == Up(e[i..], s[i..]))
      && (last >= 0 ==>
            && Saturate128(max + last) == max + last
            && max + last + Up(e[i + 1..], s[i + 1..]) == max + Up(e[i..], s[i..])
            && Down(e[i + 1..], s[i + 1..]) == Down(e[i..], s[i..]))
  {
    hide Reach;
    assert e[i..][1..] == e[i + 1..] && s[i..][1..] == s[i + 1..];
  }

  /** The range, unless the view has no storage or no elements. */
  method DescriptorByteSpan(v: View) returns (span: Option<Range>)
    ensures !HasElements(v) ==> span == None
    ensures HasElements(v) && Addressable(v) ==> span == Some(ExactRange(v))
  {
    hide Addressable, Down, Up, Saturate128, Reach;
    if v.base == 0 || v.elemSize <= 0 || |v.dims| > MAX_RANK {
      if Addressable(v) {
        RankLimit(v);
      }
      return None;
    }
    ghost var e, s := Extents(v.dims), Strides(v.dims);
    ghost var exact := HasElements(v) && Addressable(v);
    if exact {
      NoSaturation(v);
    }
    var min, max := 0, 0;
    assert e[0..] == e && s[0..] == s;
    for i := 0 to |v.dims|
      invariant forall d :: 0 <= d < i ==> e[d] > 0
      invariant exact ==> min <= 0 && min + Down(e[i..], s[i..]) == Down(e, s)
      invariant exact ==> max >= 0 && max + Up(e[i..], s[i..]) == Up(e, s)
    {
      var extent := v.dims[i].Extent();
      if extent <= 0 {
        assert e[i] == 0;
        return None;
      }
      var last := Saturate128(Reach(extent, v.dims[i].stride));
      if exact {
        SumStep(e, s, i, min, max);
      }
      if last < 0 {
        min := Saturate128(min + last);
      } else {
        max := Saturate128(max + last);
      }
    }
    if exact {
      NothingBeyond(e, s);
      FinalSums(v, min, max);
    }
    var low := Saturate128(v.base + Saturate128(min * v.elemSize));
    var high := Saturate128(Saturate128(v.base + Saturate128(max * v.elemSize)) + v.elemSize);
    span := Some(if low <= high then Range(low, high) else Range(high, low));
  }

  lemma {:induction false} NothingBeyond(e: seq<nat>, s: seq<int>)
    requires |e| == |s|
    ensures Down(e[|e|..], s[|e|..]) == 0 == Up(e[|e|..], s[|e|..])
  {
  }

  lemma {:induction false} FinalSums(v: View, min: int, max: int)
    requires HasElements(v) && Addressable(v)
    requires min == Down(Extents(v.dims), Strides(v.dims)) && max == Up(Extents(v.dims), Strides(v.dims))
    ensures Saturate128(v.base + Saturate128(min * v.elemSize)) == ExactRange(v).low
    ensures Saturate128(Saturate128(v.base + Saturate128(max * v.elemSize)) + v.elemSize) == ExactRange(v).high
    ensures ExactRange(v).low <= ExactRange(v).high
  {
    hide Down, Up, Addressable;
    NoSaturation(v);
  }

  lemma {:induction false} RankLimit(v: View)
    requires Addressable(v)
    ensures |v.dims| <= MAX_RANK
  {
  }

  /** Two ranges meet exactly when the hulls of the views have a common byte; in
      particular two views that share a byte are never reported as disjoint. */
  method DescriptorsOverlap(left: View, right: View) returns (overlap: bool)
    ensures Addressable(left) && Addressable(right) ==>
      (overlap <==> exists b :: InHull(left, b) && InHull(right, b))
    ensures Addressable(left) && Addressable(right) && (exists b :: Occupies(left, b) && Occupies(right, b)) ==> overlap
  {
    hide Addressable, HasElements, ExactRange, Occupies, InHull;
    var l := DescriptorByteSpan(left);
    var r := DescriptorByteSpan(right);
    overlap := l.Some? && r.Some? && l.value.low < r.value.high && r.value.low < l.value.high;
    HullsMeet(left, right);
  }

  lemma {:induction false} HullsMeet(left: View, right: View)
    ensures (exists b :: InHull(left, b) && InHull(right, b)) <==>
      && HasElements(left) && HasElements(right)
      && ExactRange(left).low < ExactRange(right).high && ExactRange(right).low < ExactRange(left).high
    ensures (exists b :: Occupies(left, b) && Occupies(right, b)) ==> exists b :: InHull(left, b) && InHull(right, b)
  {
    hide ExactRange, HasElements, Occupies;
    if b :| Occupies(left, b) && Occupies(right, b) {
      assert InHull(left, b) && InHull(right, b);
    }
    HullsMeetExactly(left, right);
  }

  lemma {:induction false} HullsMeetExactly(left: View, right: View)
    ensures (exists b :: InHull(left, b) && InHull(right, b)) <==>
      && HasElements(left) && HasElements(right)
      && ExactRange(left).low < ExactRange(right).high && ExactRange(right).low < ExactRange(left).high
  {
    hide ExactRange, HasElements, InHull;
    var l, r := ExactRange(left), ExactRange(right);
    if b :| InHull(left, b) && InHull(right, b) {
      HullNonempty(left, b);
      HullNonempty(right, b);
      HullIsRange(left, b);
      HullIsRange(right, b);
    }
    if HasElements(left) && HasElements(right) && l.low < r.high && r.low < l.high {
      var b := if l.low < r.low then r.low else l.low;
      RangeNonempty(left);
      RangeNonempty(right);
      HullIsRange(left, b);
      HullIsRange(right, b);
    }
  }

  lemma {:induction false} HullNonempty(v: View, b: int)
    requires InHull(v, b)
    ensures HasElements(v)
  {
    hide HasElements, Occupies;
    if !HasElements(v) {
      NoElements(v);
      assert false;
    }
  }

  lemma {:induction false} RangeNonempty(v: View)
    requires HasElements(v)
    ensures ExactRange(v).low < ExactRange(v).high
  {
    hide ExactRange, HasElements, Occupies;
    RangeEnds(v);
    var low := ExactRange(v).low;
    assert Occupies(v, low);
  }
}
