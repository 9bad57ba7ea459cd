/**
  RANDOM_NUMBER on an array descriptor (runtime/src/system.rs,
  fill_random_number_descriptor and next_random_u64).  The descriptor is checked
  completely before anything is drawn or stored; after that a byte cursor is
  kept up to date by adding one stride or taking back one rewind per wheel.
 */
module RandomFill {
  import opened Arith
  import opened MachineInts
  import opened Odometer
  import opened Powers
  import opened StridedViews
  import opened Spans

  const USIZE_LIMIT: int := 0x1_0000_0000_0000_0000

  // ---- The generator ----

  function Lcg(x: nat): nat {
    (x * 6364136223846793005 + 1442695040888963407) % USIZE_LIMIT
  }

  const MULTIPLIER: nat := 6364136223846793005

  /** From 1442695040888963407 on, each next state adds the multiplier, in 64 bits. */
  lemma {:induction false} LcgSteps(x: nat)
    ensures Lcg(0) == 1442695040888963407 && Lcg(x) < 0x1_0000_0000_0000_0000
    ensures Congruent(Lcg(x + 1), Lcg(x) + MULTIPLIER, 0x1_0000_0000_0000_0000)
  {
    var y := x * MULTIPLIER + 1442695040888963407;
    RemainderCongruent(y, USIZE_LIMIT);
    RemainderCongruent(y + MULTIPLIER, USIZE_LIMIT);
    CongruentSum(Lcg(x), y, MULTIPLIER, USIZE_LIMIT);
    CongruentBack(Lcg(x) + MULTIPLIER, y + MULTIPLIER, USIZE_LIMIT);
    CongruentChain(Lcg(x + 1), y + MULTIPLIER, Lcg(x) + MULTIPLIER, USIZE_LIMIT);
  }

  lemma {:induction false} RemainderCongruent(y: nat, m: nat)
    requires m > 0
    ensures Congruent(y % m, y, m)
  {
    var q, r := Euclid(y, m);
    DivMod(r, m, 0, r);
  }

  /** Different states have different successors: the multiplier has an inverse
      modulo 2^64. */
  lemma {:induction false} LcgInjective(x: nat, y: nat)
    requires x < 0x1_0000_0000_0000_0000 && y < 0x1_0000_0000_0000_0000 && Lcg(x) == Lcg(y)
    ensures x == y
  {
    var a, b := x * MULTIPLIER + 1442695040888963407, y * MULTIPLIER + 1442695040888963407;
    assert Congruent(a, b, USIZE_LIMIT);
    var q := Difference(a, b, USIZE_LIMIT);
    assert (x - y) * MULTIPLIER == USIZE_LIMIT * q;
    var inverse, turns := 13877824140714322085, 4787856489426250814;
    assert MULTIPLIER * inverse == USIZE_LIMIT * turns + 1;
    Undo(x - y, MULTIPLIER, inverse, USIZE_LIMIT, turns, q);
    if x != y {
      var k := q * inverse - (x - y) * turns;
      SmallMultiple(x - y, USIZE_LIMIT, k);
    }
  }

  lemma {:induction false} Undo(z: int, a: int, inverse: int, m: int, turns: int, q: int)
    requires z * a == m * q && a * inverse == m * turns + 1
    ensures z == m * (q * inverse - z * turns)
  {
    ProductAssociates(z, a, inverse);
    ProductAssociates(m, q, inverse);
    assert z * (m * turns + 1) == m * (z * turns) + z;
    MultipleDifference(m, q * inverse, z * turns);
  }

  lemma {:induction false} SmallMultiple(z: int, m: int, k: int)
    requires m > 0 && z == m * k && -m < z < m
    ensures z == 0
  {
    if k >= 1 {
      MulMonotone(m, 1, k);
    } else if k <= -1 {
      MulMonotone(m, k, -1);
    }
  }

  /** The state after n draws; draw n returns the state after it. */
  ghost function After(state: nat, n: nat): nat {
    if n == 0 then state else Lcg(After(state, n - 1))
  }

  class Generator {
    var seed: nat
    var initialized: bool
    /** What the clock would seed an untouched generator with. */
    const defaultSeed: nat

    constructor (defaultSeed: nat)
      ensures !initialized && State() == defaultSeed
    {
      this.defaultSeed := defaultSeed;
      seed, initialized := 0, false;
    }

    function State(): nat
      reads this
    {
      if initialized then seed else defaultSeed
    }

    method Next() returns (x: nat)
      modifies this
      ensures initialized && x == State() == Lcg(old(State()))
    {
      if !initialized {
        seed, initialized := defaultSeed, true;
      }
      seed := Lcg(seed);
      x := seed;
    }
  }

  /** The top 24 or 53 bits as a fraction. */
  function RandomUnit(bits: nat, elemSize: int): real {
    if elemSize == 4 then (bits / 0x100_0000_0000) as real / 16777216.0
    else (bits / 0x800) as real / 9007199254740992.0
  }

  /** The fraction is the draw's top 24 or 53 bits: what is left over is less than one
      unit of them. */
  lemma {:induction false} TopBits(bits: nat, elemSize: int) returns (top: nat, low: nat)
    ensures elemSize == 4 ==> bits == 0x100_0000_0000 * top + low && low < 0x100_0000_0000
    ensures elemSize == 4 ==> RandomUnit(bits, elemSize) * 16777216.0 == top as real
    ensures elemSize != 4 ==> bits == 0x800 * top + low && low < 0x800
    ensures elemSize != 4 ==> RandomUnit(bits, elemSize) * 9007199254740992.0 == top as real
  {
    if elemSize == 4 {
      top, low := Euclid(bits, 0x100_0000_0000);
    } else {
      top, low := Euclid(bits, 0x800);
    }
  }

  lemma {:induction false} UnitInterval(bits: nat, elemSize: int)
    requires bits < USIZE_LIMIT
    ensures 0.0 <= RandomUnit(bits, elemSize) < 1.0
  {
    assert bits / 0x100_0000_0000 < 16777216;
    assert bits / 0x800 < 9007199254740992;
  }

  // ---- What is accepted ----

  datatype FillError =
    | InvalidRank | UnsupportedKind | ExtentOverflow | CountOverflow | ZeroStride | OffsetOverflow
    | NoStorage | ByteOffsetRange | ByteStrideRange

  datatype Outcome = Ok | Err(error: FillError)

  predicate Fits128(x: int) {
    I128_MIN <= x <= I128_MAX
  }

  predicate Fits64(x: int) {
    I64_MIN <= x <= I64_MAX
  }

  /** The machine ranges of the checks as powers of two. */
  lemma {:induction false} CheckedRanges(x: int)
    ensures Fits64(x) <==> -(Bit(63) as int) <= x < Bit(63)
    ensures Fits128(x) <==> -(Bit(127) as int) <= x < Bit(127)
    ensures USIZE_LIMIT == Bit(64)
  {
    ByteWidths();
    LimitBits();
  }

  /** Dimension d passes the checks of the first loop. */
  ghost predicate CountableAt(e: seq<nat>, s: seq<int>, d: nat)
    requires |e| == |s| && d < |e|
  {
    && e[d] <= I64_MAX && Total(e[..d + 1]) < USIZE_LIMIT && (e[d] > 1 ==> s[d] != 0)
    && Fits128(Reach(e[d], s[d])) && Fits128(Down(e[..d + 1], s[..d + 1])) && Fits128(Up(e[..d + 1], s[..d + 1]))
  }

  ghost predicate Countable(dims: seq<Dim>) {
    forall d :: 0 <= d < |dims| ==> CountableAt(Extents(dims), Strides(dims), d)
  }

  /** The farthest elements on either side are within a signed byte offset. */
  ghost predicate Reachable(elemSize: int, dims: seq<Dim>) {
    var e, s := Extents(dims), Strides(dims);
    Fits64(Down(e, s) * elemSize) && Fits64(Up(e, s) * elemSize)
  }

  ghost predicate Acceptable(base: int, elemSize: int, dims: seq<Dim>) {
    && 1 <= |dims| <= 15 && (elemSize == 4 || elemSize == 8)
    && Countable(dims)
    && (Positive(Extents(dims)) ==> base != 0 && Reachable(elemSize, dims))
  }

  lemma {:induction false} DownAppend(e: seq<nat>, s: seq<int>, x: nat, t: int)
    requires |e| == |s|
    ensures var reach := Reach(x, t);
      && Down(e + [x], s + [t]) == Down(e, s) + (if reach < 0 then reach else 0)
      && Up(e + [x], s + [t]) == Up(e, s) + (if reach < 0 then 0 else reach)
    decreases |e|
  {
    hide Reach;
    if e == [] {
      assert e + [x] == [x] && s + [t] == [t] && [x][1..] == [] && [t][1..] == [];
      assert s == [];
    } else {
      DownAppend(e[1..], s[1..], x, t);
      assert (e + [x])[1..] == e[1..] + [x] && (s + [t])[1..] == s[1..] + [t];
    }
  }

  /** The first loop: extents, their product and the reach, every step checked. */
  method Measure(dims: seq<Dim>) returns (r: Outcome, total: nat, min: int, max: int)
    ensures r.Ok? <==> Countable(dims)
    ensures r.Ok? ==> total == Total(Extents(dims))
    ensures r.Ok? ==> min == Down(Extents(dims), Strides(dims)) && max == Up(Extents(dims), Strides(dims))
  {
    hide Total, Down, Up, Reach;
    ghost var e, s := Extents(dims), Strides(dims);
    total, min, max := 1, 0, 0;
    NothingMeasured();
    for i := 0 to |dims|
      invariant total == Total(e[..i]) && min == Down(e[..i], s[..i]) && max == Up(e[..i], s[..i])
      invariant Fits128(min) && Fits128(max) && forall d :: 0 <= d < i ==> CountableAt(e, s, d)
    {
      var dim := dims[i];
      MeasureStep(e, s, i);
      assert e[i] == dim.Extent() && s[i] == dim.stride;
      if dim.upper >= dim.lower && (dim.upper - dim.lower > I64_MAX || dim.upper - dim.lower + 1 > I64_MAX) {
        assert !CountableAt(e, s, i);
        return Err(ExtentOverflow), total, min, max;
      }
      var extent := dim.Extent();
      total := total * extent;
      if total >= USIZE_LIMIT {
        assert !CountableAt(e, s, i);
        return Err(CountOverflow), total, min, max;
      }
      if extent > 1 && dim.stride == 0 {
        assert !CountableAt(e, s, i);
        return Err(ZeroStride), total, min, max;
      }
      var last := Reach(extent, dim.stride);
      if !Fits128(last) {
        assert !CountableAt(e, s, i);
        return Err(OffsetOverflow), total, min, max;
      }
      if last < 0 {
        min := min + last;
        if !Fits128(min) {
          assert !CountableAt(e, s, i);
          return Err(OffsetOverflow), total, min, max;
        }
      } else {
        max := max + last;
        if !Fits128(max) {
          assert !CountableAt(e, s, i);
          return Err(OffsetOverflow), total, min, max;
        }
      }
      assert CountableAt(e, s, i);
    }
    assert e[..|dims|] == e && s[..|dims|] == s;
    r := Ok;
  }

  lemma {:induction false} NothingMeasured()
    ensures Total([]) == 1 && Down([], []) == 0 == Up([], [])
  {
  }

  lemma {:induction false} MeasureStep(e: seq<nat>, s: seq<int>, i: nat)
    requires |e| == |s| && i < |e|
    ensures Total(e[..i + 1]) == Total(e[..i]) * e[i]
    ensures var reach := Reach(e[i], s[i]);
      && Down(e[..i + 1], s[..i + 1]) == Down(e[..i], s[..i]) + (if reach < 0 then reach else 0)
      && Up(e[..i + 1], s[..i + 1]) == Up(e[..i], s[..i]) + (if reach < 0 then 0 else reach)
  {
    assert e[..i + 1] == e[..i] + [e[i]] && s[..i + 1] == s[..i] + [s[i]];
    TotalAppend(e[..i], e[i]);
    DownAppend(e[..i], s[..i], e[i], s[i]);
  }

  // ---- Strides and rewinds in bytes ----

  /** Dimensions of one element never move the cursor. */
  function ByteStride(extent: nat, stride: int, elemSize: int): int {
    if extent <= 1 then 0 else stride * elemSize
  }

  ghost function ByteStrides(extents: seq<nat>, strides: seq<int>, elemSize: int): (r: seq<int>)
    requires |extents| == |strides|
    ensures |r| == |extents| && forall d :: 0 <= d < |r| ==> r[d] == ByteStride(extents[d], strides[d], elemSize)
  {
    seq(|extents|, d requires 0 <= d < |extents| => ByteStride(extents[d], strides[d], elemSize))
  }

  /** The cursor at index vector idx stands where the address formula says. */
  lemma {:induction false} CursorOffset(idx: seq<nat>, extents: seq<nat>, strides: seq<int>, elemSize: int)
    requires |extents| == |strides| && InBox(idx, extents)
    ensures Offset(idx, ByteStrides(extents, strides, elemSize)) == Offset(idx, strides) * elemSize
    decreases |idx|
  {
    if idx != [] {
      var b := ByteStrides(extents, strides, elemSize);
      CursorOffset(idx[1..], extents[1..], strides[1..], elemSize);
      assert b[1..] == ByteStrides(extents[1..], strides[1..], elemSize);
      CursorTerm(idx[0], extents[0], strides[0], elemSize);
      SumTimes(idx[0] * strides[0], Offset(idx[1..], strides[1..]), elemSize);
    }
  }

  lemma {:induction false} CursorTerm(i: nat, extent: nat, stride: int, elemSize: int)
    requires i < extent
    ensures i * ByteStride(extent, stride, elemSize) == i * stride * elemSize
  {
    if extent <= 1 {
      assert i == 0;
    } else {
      ProductAssociates(i, stride, elemSize);
    }
  }

  /** Every offset of the view is a signed byte offset. */
  lemma {:induction false} CursorInRange(idx: seq<nat>, elemSize: int, dims: seq<Dim>)
    requires InBox(idx, Extents(dims)) && elemSize > 0 && Reachable(elemSize, dims)
    ensures Fits64(Offset(idx, Strides(dims)) * elemSize)
  {
    var e, s := Extents(dims), Strides(dims);
    WithinReach(idx, e, s);
    MulMonotone(elemSize, Down(e, s), Offset(idx, s));
    MulMonotone(elemSize, Offset(idx, s), Up(e, s));
  }

  /** So the later checks on single strides and rewinds cannot fail. */
  lemma {:induction false} StepsFit(elemSize: int, dims: seq<Dim>, d: nat)
    requires elemSize > 0 && Reachable(elemSize, dims) && Positive(Extents(dims)) && d < |dims|
    ensures var b := ByteStride(Extents(dims)[d], Strides(dims)[d], elemSize);
      Fits64(b) && Fits64(b * (Extents(dims)[d] - 1))
  {
    var e, s := Extents(dims), Strides(dims);
    if e[d] > 1 {
      hide Index, Total, Offset, Reachable;
      var one := AlongOne(e, s, d, 1);
      var last := AlongOne(e, s, d, e[d] - 1);
      CursorInRange(one, elemSize, dims);
      CursorInRange(last, elemSize, dims);
      RewindProduct(e[d] - 1, s[d], elemSize);
    }
  }

  lemma {:induction false} RewindProduct(n: int, stride: int, elemSize: int)
    ensures (stride * elemSize) * n == (n * stride) * elemSize
  {
  }

  /** The element n steps along dimension d. */
  lemma {:induction false} AlongOne(e: seq<nat>, s: seq<int>, d: nat, n: nat) returns (idx: seq<nat>)
    requires |e| == |s| && Positive(e) && d < |e| && n < e[d]
    ensures InBox(idx, e) && Offset(idx, s) == n * s[d]
  {
    var m := |e| - d - 1;
    idx := Zeros(d) + ([n] + Zeros(m));
    assert s == s[..d] + ([s[d]] + s[d + 1..]);
    OffsetConcat(Zeros(d), [n] + Zeros(m), s[..d], [s[d]] + s[d + 1..]);
    OffsetZeros(d, s[..d]);
    OffsetZeros(m, s[d + 1..]);
    assert ([n] + Zeros(m))[1..] == Zeros(m) && ([s[d]] + s[d + 1..])[1..] == s[d + 1..];
  }

  /** The second loop; it fails when a stride or rewind does not fit. */
  method ByteSteps(dims: seq<Dim>, elemSize: int) returns (r: Outcome, strides: seq<int>, rewinds: seq<int>)
    ensures r.Ok? <==> forall d :: 0 <= d < |dims| ==> StepFits(dims[d], elemSize)
    ensures r.Ok? ==> strides == ByteStrides(Extents(dims), Strides(dims), elemSize) && |rewinds| == |dims|
    ensures r.Ok? ==> forall d :: 0 <= d < |dims| && dims[d].Extent() > 0 ==>
      rewinds[d] == strides[d] * (dims[d].Extent() - 1)
  {
    strides, rewinds := [], [];
    for i := 0 to |dims|
      invariant |strides| == |rewinds| == i
      invariant forall d :: 0 <= d < i ==>
        && strides[d] == ByteStride(dims[d].Extent(), dims[d].stride, elemSize)
        && (dims[d].Extent() > 0 ==> rewinds[d] == strides[d] * (dims[d].Extent() - 1))
      invariant forall d :: 0 <= d < i ==> StepFits(dims[d], elemSize)
    {
      var extent := dims[i].Extent();
      if extent <= 1 {
        strides, rewinds := strides + [0], rewinds + [0];
      } else {
        var stride := dims[i].stride * elemSize;
        var rewind := stride * (extent - 1);
        if !Fits64(stride) || !Fits64(rewind) {
          assert !StepFits(dims[i], elemSize);
          return Err(ByteStrideRange), strides, rewinds;
        }
        strides, rewinds := strides + [stride], rewinds + [rewind];
      }
    }
    r := Ok;
  }

  predicate StepFits(dim: Dim, elemSize: int) {
    dim.Extent() > 1 ==> Fits64(dim.stride * elemSize) && Fits64(dim.stride * elemSize * (dim.Extent() - 1))
  }

  // ---- The cursor ----

  /** The cursor reads right and is within the validated range. */
  ghost predicate AtIndex(cursor: int, idx: seq<nat>, extents: seq<nat>, strides: seq<int>)
    requires |extents| == |strides|
  {
    InBox(idx, extents) && cursor == Offset(idx, strides)
  }

  lemma {:induction false} TurnWheel(idx: seq<nat>, extents: seq<nat>, strides: seq<int>, d: nat, x: nat)
    requires |idx| == |extents| == |strides| && d < |idx|
    ensures Offset(idx[d := x], strides) == Offset(idx, strides) + (x - idx[d]) * strides[d]
  {
    var a, b, s, t := idx[..d], idx[d + 1..], strides[..d], strides[d + 1..];
    assert strides == s + ([strides[d]] + t) && idx == a + ([idx[d]] + b) && idx[d := x] == a + ([x] + b);
    OffsetConcat(a, [idx[d]] + b, s, [strides[d]] + t);
    OffsetConcat(a, [x] + b, s, [strides[d]] + t);
    assert ([idx[d]] + b)[1..] == b && ([x] + b)[1..] == b && ([strides[d]] + t)[1..] == t;
    assert (x - idx[d]) * strides[d] == x * strides[d] - idx[d] * strides[d];
  }

  /** The number of wheels one turn moves. */
  ghost function Moves(idx: seq<nat>, extents: seq<nat>): nat
    requires |idx| == |extents|
  {
    if idx == [] then 0
    else if idx[0] + 1 < extents[0] then 1
    else 1 + Moves(idx[1..], extents[1..])
  }

  lemma {:induction false} MovesAt(idx: seq<nat>, extents: seq<nat>, d: nat)
    requires |idx| == |extents| && d < |idx|
    ensures Moves(idx[d..], extents[d..])
         == 1 + if idx[d] + 1 < extents[d] then 0 else Moves(idx[d + 1..], extents[d + 1..])
  {
    assert idx[d..][1..] == idx[d + 1..] && extents[d..][1..] == extents[d + 1..];
  }

  lemma {:induction false} MovesEnds(idx: seq<nat>, extents: seq<nat>)
    requires |idx| == |extents|
    ensures Moves(idx[0..], extents[0..]) == Moves(idx, extents) && Moves(idx[|idx|..], extents[|idx|..]) == 0
  {
    assert idx[0..] == idx && extents[0..] == extents;
  }

  /** One turn of the odometer together with its cursor.  `trace` lists the value
      the cursor takes after each wheel: always the offset of an element. */
  method Turn(idx: array<nat>, cursor: int, extents: seq<nat>, strides: seq<int>, rewinds: seq<int>)
    returns (next: int, ghost trace: seq<(int, seq<nat>)>)
    requires idx.Length == |extents| == |strides| == |rewinds| && AtIndex(cursor, idx[..], extents, strides)
    requires forall d :: 0 <= d < |extents| ==> extents[d] > 0 && rewinds[d] == strides[d] * (extents[d] - 1)
    modifies idx
    ensures idx[..] == Step(old(idx[..]), extents)
    ensures AtIndex(next, idx[..], extents, strides)
    ensures |trace| == Moves(old(idx[..]), extents)
    ensures trace != [] ==> trace[|trace| - 1] == (next, idx[..])
    ensures forall i :: 0 <= i < |trace| ==> AtIndex(trace[i].0, trace[i].1, extents, strides)
  {
    hide Step, StepFrom, Offset, Moves;
    ghost var was := idx[..];
    next, trace := cursor, [];
    var d := 0;
    StepFromStart(was, extents);
    MovesEnds(was, extents);
    ghost var left := Moves(was, extents);
    while d < |extents|
      invariant 0 <= d <= |extents|
      invariant forall j :: 0 <= j < d ==> idx[j] == 0
      invariant forall j :: d <= j < |extents| ==> idx[j] == was[j]
      invariant Step(was, extents) == StepFrom(was, extents, d)
      invariant AtIndex(next, idx[..], extents, strides)
      invariant left == Moves(was[d..], extents[d..]) && |trace| + left == Moves(was, extents)
      invariant trace != [] ==> trace[|trace| - 1] == (next, idx[..])
      invariant forall i :: 0 <= i < |trace| ==> AtIndex(trace[i].0, trace[i].1, extents, strides)
    {
      StepFromAt(was, extents, d);
      MovesAt(was, extents, d);
      left := left - 1;
      ghost var before := idx[..];
      ghost var up := before[d] + 1;
      idx[d] := idx[d] + 1;
      if idx[d] < extents[d] {
        TurnWheel(before, extents, strides, d, up);
        assert idx[..] == before[d := up];
        next := next + strides[d];
        trace := trace + [(next, idx[..])];
        break;
      }
      idx[d] := 0;
      TurnWheel(before, extents, strides, d, 0);
      RewindIs(strides[d], extents[d], before[d]);
      assert idx[..] == before[d := 0];
      next := next - rewinds[d];
      trace := trace + [(next, idx[..])];
      d := d + 1;
    }
    if d == |extents| {
      StepFromEnd(was, extents);
    }
    SameSequence(idx[..], Step(was, extents));
  }

  lemma {:induction false} RewindIs(stride: int, extent: nat, i: nat)
    requires i < extent && i + 1 >= extent
    ensures (0 - i) * stride == -(stride * (extent - 1))
  {
    assert i == extent - 1;
  }

  // ---- Filling ----

  /** Memory as the values stored at element addresses. */
  class Memory {
    var cells: map<int, real>
  }

  /** The address of element k. */
  ghost function Address(base: int, elemSize: int, dims: seq<Dim>, k: nat): int
    requires Positive(Extents(dims))
  {
    IndexInBox(k, Extents(dims));
    base + Offset(Index(k, Extents(dims)), Strides(dims)) * elemSize
  }

  /** The first n elements hold the first n draws from `state`. */
  ghost function Filled(cells: map<int, real>, base: int, elemSize: int, dims: seq<Dim>, state: nat,
                        n: nat): map<int, real>
    requires Positive(Extents(dims))
  {
    if n == 0 then cells
    else Filled(cells, base, elemSize, dims, state, n - 1)
         [Address(base, elemSize, dims, n - 1) := RandomUnit(After(state, n), elemSize)]
  }

  /** Nothing but elements of the view is written. */
  lemma {:induction false} FilledElsewhere(cells: map<int, real>, base: int, elemSize: int, dims: seq<Dim>,
                                           state: nat, n: nat, a: int)
    requires Positive(Extents(dims)) && forall k :: 0 <= k < n ==> Address(base, elemSize, dims, k) != a
    ensures var after := Filled(cells, base, elemSize, dims, state, n);
      (a in after <==> a in cells) && (a in cells ==> after[a] == cells[a])
    decreases n
  {
    hide Address;
    if n > 0 {
      FilledElsewhere(cells, base, elemSize, dims, state, n - 1, a);
    }
  }

  /** In an injective view every element keeps the draw made for it: element k
      holds draw k + 1, so no element is skipped or overwritten. */
  lemma {:induction false} FilledElement(cells: map<int, real>, base: int, elemSize: int, dims: seq<Dim>, state: nat,
                                         n: nat, k: nat)
    requires Positive(Extents(dims)) && InjectiveView(dims) && elemSize > 0 && k < n <= Total(Extents(dims))
    ensures var after, a := Filled(cells, base, elemSize, dims, state, n), Address(base, elemSize, dims, k);
      a in after && after[a] == RandomUnit(After(state, k + 1), elemSize)
    decreases n
  {
    hide Address, RandomUnit, InjectiveView, Total;
    if k < n - 1 {
      FilledElement(cells, base, elemSize, dims, state, n - 1, k);
      DistinctAddresses(base, elemSize, dims, k, n - 1);
    }
  }

  lemma {:induction false} DistinctAddresses(base: int, elemSize: int, dims: seq<Dim>, j: nat, k: nat)
    requires Positive(Extents(dims)) && InjectiveView(dims) && elemSize > 0 && j < k < Total(Extents(dims))
    ensures Address(base, elemSize, dims, j) != Address(base, elemSize, dims, k)
  {
    hide Index, Linear, Total;
    var e, s := Extents(dims), Strides(dims);
    LinearOfIndex(j, e);
    LinearOfIndex(k, e);
    if Address(base, elemSize, dims, j) == Address(base, elemSize, dims, k) {
      SizeCancels(Offset(Index(j, e), s), Offset(Index(k, e), s), elemSize);
      assert false;
    }
  }

  lemma {:induction false} SizeCancels(a: int, b: int, elemSize: int)
    requires elemSize > 0 && a * elemSize == b * elemSize
    ensures a == b
  {
  }

  method FillElements(gen: Generator, mem: Memory, base: int, elemSize: int, dims: seq<Dim>, strides: seq<int>,
                      rewinds: seq<int>, total: nat)
    returns (ghost trace: seq<(int, seq<nat>)>)
    requires Positive(Extents(dims)) && total == Total(Extents(dims)) && |rewinds| == |dims|
    requires strides == ByteStrides(Extents(dims), Strides(dims), elemSize)
    requires forall d :: 0 <= d < |dims| ==> rewinds[d] == strides[d] * (dims[d].Extent() - 1)
    modifies gen, mem
    ensures mem.cells == Filled(old(mem.cells), base, elemSize, dims, old(gen.State()), total)
    ensures gen.State() == After(old(gen.State()), total)
    ensures forall k :: 0 < k < total ==> Visited(trace, Index(k, Extents(dims)))
    ensures forall i :: 0 <= i < |trace| ==> AtIndex(trace[i].0, trace[i].1, Extents(dims), strides)
  {
    hide Total, Index, Lcg, RandomUnit, AtIndex, Visited, Moves;
    var extents := Extents(dims);
    ghost var state := gen.State();
    var idx := new nat[|dims|](_ => 0);
    var cursor := 0;
    trace := [];
    IndexZero(extents);
    assert idx[..] == Index(0, extents);
    CursorStart(extents, strides);
    TotalPositive(extents);
    var linear := 0;
    while true
      invariant 0 <= linear < total
      invariant idx[..] == Index(linear, extents) && AtIndex(cursor, idx[..], extents, strides)
      invariant mem.cells == Filled(old(mem.cells), base, elemSize, dims, state, linear)
      invariant gen.State() == After(state, linear)
      invariant forall k :: 0 < k <= linear ==> Visited(trace, Index(k, extents))
      invariant forall i :: 0 <= i < |trace| ==> AtIndex(trace[i].0, trace[i].1, extents, strides)
      decreases total - linear
    {
      CursorAddress(base, elemSize, dims, linear, cursor);
      var bits := gen.Next();
      mem.cells := mem.cells[base + cursor := RandomUnit(bits, elemSize)];
      if linear + 1 == total {
        break;
      }
      StepIndex(linear, extents);
      ghost var steps;
      cursor, steps := Turn(idx, cursor, extents, strides, rewinds);
      SomeWheelMoves(Index(linear, extents), extents);
      forall k | 0 < k <= linear + 1
        ensures Visited(trace + steps, Index(k, extents))
      {
        VisitedMore(trace, steps, Index(k, extents));
      }
      trace := trace + steps;
      linear := linear + 1;
    }
  }

  /** The cursor stood at index vector idx. */
  ghost predicate Visited(cursors: seq<(int, seq<nat>)>, idx: seq<nat>) {
    exists i :: 0 <= i < |cursors| && cursors[i].1 == idx
  }

  lemma {:induction false} VisitedMore(cursors: seq<(int, seq<nat>)>, more: seq<(int, seq<nat>)>, idx: seq<nat>)
    requires Visited(cursors, idx) || (more != [] && more[|more| - 1].1 == idx)
    ensures Visited(cursors + more, idx)
  {
    if Visited(cursors, idx) {
      var i :| 0 <= i < |cursors| && cursors[i].1 == idx;
      assert (cursors + more)[i].1 == idx;
    } else {
      assert (cursors + more)[|cursors| + |more| - 1].1 == idx;
    }
  }

  lemma {:induction false} SomeWheelMoves(idx: seq<nat>, extents: seq<nat>)
    requires |idx| == |extents| && Total(extents) > 1
    ensures Moves(idx, extents) > 0
  {
  }

  lemma {:induction false} CursorStart(extents: seq<nat>, strides: seq<int>)
    requires |extents| == |strides| && Positive(extents)
    ensures AtIndex(0, Zeros(|extents|), extents, strides)
  {
    OffsetZeros(|extents|, strides);
  }

  lemma {:induction false} CursorAddress(base: int, elemSize: int, dims: seq<Dim>, k: nat, cursor: int)
    requires Positive(Extents(dims))
    requires AtIndex(cursor, Index(k, Extents(dims)), Extents(dims),
                     ByteStrides(Extents(dims), Strides(dims), elemSize))
    ensures base + cursor == Address(base, elemSize, dims, k)
  {
    IndexInBox(k, Extents(dims));
    CursorOffset(Index(k, Extents(dims)), Extents(dims), Strides(dims), elemSize);
  }

  /** RANDOM_NUMBER(HARVEST).  It succeeds exactly on acceptable descriptors; an
      error leaves memory and generator as they were.  `cursors` lists every value
      the byte cursor takes, with the index vector it belongs to. */
  method Fill(gen: Generator, mem: Memory, base: int, elemSize: int, dims: seq<Dim>)
    returns (r: Outcome, ghost cursors: seq<(int, seq<nat>)>)
    modifies gen, mem
    ensures r.Ok? <==> Acceptable(base, elemSize, dims)
    ensures r.Err? || !Positive(Extents(dims)) ==>
      mem.cells == old(mem.cells) && gen.seed == old(gen.seed) && gen.initialized == old(gen.initialized)
    ensures r.Ok? && Positive(Extents(dims)) ==>
      var total := Total(Extents(dims));
      && mem.cells == Filled(old(mem.cells), base, elemSize, dims, old(gen.State()), total)
      && gen.State() == After(old(gen.State()), total)
      && forall k :: 0 < k < total ==> Visited(cursors, Index(k, Extents(dims)))
    ensures forall i :: 0 <= i < |cursors| ==>
      && InBox(cursors[i].1, Extents(dims)) && cursors[i].0 == Offset(cursors[i].1, Strides(dims)) * elemSize
      && Fits64(cursors[i].0)
  {
    hide Total, Countable, Reachable, ByteStrides, Fits64, Filled, After, Down, Up, Offset, Visited, Index;
    cursors := [];
    if |dims| < 1 || |dims| > MAX_RANK {
      return Err(InvalidRank), cursors;
    }
    if elemSize != 4 && elemSize != 8 {
      return Err(UnsupportedKind), cursors;
    }
    var measured, total, min, max := Measure(dims);
    if measured.Err? {
      return measured, cursors;
    }
    NonemptyExactly(Extents(dims));
    if total == 0 {
      return Ok, cursors;
    }
    if base == 0 {
      return Err(NoStorage), cursors;
    }
    if !Fits64(min * elemSize) || !Fits64(max * elemSize) {
      assert !Reachable(elemSize, dims) by { ReachableIs(elemSize, dims); }
      return Err(ByteOffsetRange), cursors;
    }
    ReachableIs(elemSize, dims);
    var steps, strides, rewinds := ByteSteps(dims, elemSize);
    AllStepsFit(elemSize, dims);
    if steps.Err? {
      assert false;
    }
    cursors := FillElements(gen, mem, base, elemSize, dims, strides, rewinds, total);
    CursorsFit(cursors, elemSize, dims);
    r := Ok;
  }

  lemma {:induction false} ReachableIs(elemSize: int, dims: seq<Dim>)
    ensures Reachable(elemSize, dims) <==>
      Fits64(Down(Extents(dims), Strides(dims)) * elemSize) && Fits64(Up(Extents(dims), Strides(dims)) * elemSize)
  {
  }

  lemma {:induction false} AllStepsFit(elemSize: int, dims: seq<Dim>)
    requires elemSize > 0 && Reachable(elemSize, dims) && Positive(Extents(dims))
    ensures forall d :: 0 <= d < |dims| ==> StepFits(dims[d], elemSize)
  {
    hide Reachable;
    forall d | 0 <= d < |dims|
      ensures StepFits(dims[d], elemSize)
    {
      StepsFit(elemSize, dims, d);
    }
  }

  lemma {:induction false} CursorsFit(cursors: seq<(int, seq<nat>)>, elemSize: int, dims: seq<Dim>)
    requires elemSize > 0 && Reachable(elemSize, dims)
    requires forall i :: 0 <= i < |cursors| ==>
      AtIndex(cursors[i].0, cursors[i].1, Extents(dims), ByteStrides(Extents(dims), Strides(dims), elemSize))
    ensures forall i :: 0 <= i < |cursors| ==>
      && InBox(cursors[i].1, Extents(dims)) && cursors[i].0 == Offset(cursors[i].1, Strides(dims)) * elemSize
      && Fits64(cursors[i].0)
  {
    hide Reachable, Fits64, Offset, ByteStrides;
    forall i | 0 <= i < |cursors|
      ensures InBox(cursors[i].1, Extents(dims)) && cursors[i].0 == Offset(cursors[i].1, Strides(dims)) * elemSize
      ensures Fits64(cursors[i].0)
    {
      CursorOffset(cursors[i].1, Extents(dims), Strides(dims), elemSize);
      CursorInRange(cursors[i].1, elemSize, dims);
    }
  }
}
