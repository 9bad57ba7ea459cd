/**
  How far a strided view reaches to either side of its first element: negative
  steps extend it downwards, the others upwards.  Both the storage overlap test
  and RANDOM_NUMBER's range check sum the reach dimension by dimension.
 */
module Spans {
  import opened Arith
  import opened Odometer

  const I128_MAX: int := 0x7fff_ffff_ffff_ffff_ffff_ffff_ffff_ffff
  const I128_MIN: int := -0x8000_0000_0000_0000_0000_0000_0000_0000

  /** The offset of the last element along one dimension. */
  function Reach(extent: nat, stride: int): int {
    (extent - 1) * stride
  }

  function Down(extents: seq<nat>, strides: seq<int>): (r: int)
    requires |extents| == |strides|
    ensures r <= 0
  {
    if extents == [] then 0
    else
      var reach := Reach(extents[0], strides[0]);
      (if reach < 0 then reach else 0) + Down(extents[1..], strides[1..])
  }

  function Up(extents: seq<nat>, strides: seq<int>): (r: int)
    requires |extents| == |strides|
    ensures r >= 0
  {
    if extents == [] then 0
    else
      var reach := Reach(extents[0], strides[0]);
      (if reach < 0 then 0 else reach) + Up(extents[1..], strides[1..])
  }

  /** Every element lies within the reach. */
  lemma {:induction false} WithinReach(idx: seq<nat>, extents: seq<nat>, strides: seq<int>)
    requires |extents| == |strides| && InBox(idx, extents)
    ensures Down(extents, strides) <= Offset(idx, strides) <= Up(extents, strides)
    decreases |idx|
  {
    if idx != [] {
      WithinReach(idx[1..], extents[1..], strides[1..]);
      OneDimension(idx[0], extents[0], strides[0]);
    }
  }

  lemma {:induction false} OneDimension(i: nat, extent: nat, stride: int)
    requires i < extent
    ensures stride >= 0 ==> 0 <= i * stride <= Reach(extent, stride)
    ensures stride <= 0 ==> Reach(extent, stride) <= i * stride <= 0
  {
    if stride >= 0 {
      MulMonotone(stride, i, extent - 1);
    } else {
      MulMonotone(-stride, i, extent - 1);
    }
  }

  /** The two ends are elements of the view, so the reach is no larger than needed. */
  lemma {:induction false} Corners(extents: seq<nat>, strides: seq<int>) returns (low: seq<nat>, high: seq<nat>)
    requires |extents| == |strides| && Positive(extents)
    ensures InBox(low, extents) && Offset(low, strides) == Down(extents, strides)
    ensures InBox(high, extents) && Offset(high, strides) == Up(extents, strides)
    decreases |extents|
  {
    low, high := [], [];
    if extents != [] {
      var l, h := Corners(extents[1..], strides[1..]);
      var reach := Reach(extents[0], strides[0]);
      var last := extents[0] - 1;
      low := (if reach < 0 then [last] else [0]) + l;
      high := (if reach < 0 then [0] else [last]) + h;
      assert low[1..] == l && high[1..] == h;
      assert 0 * strides[0] == 0 && last * strides[0] == reach;
    }
  }
}
