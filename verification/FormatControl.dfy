/**
  FORMAT control (runtime/src/format.rs; section 13.4 of Fortran 2018): which
  edit descriptor meets which value, under repeat counts, unlimited repeat and
  format reversion.  The output engine and the planner that compiler lowering
  uses are two interpreters of one descriptor tree.
 */
module FormatControl {
  import opened Wrappers

  datatype DataEdit =
    | IntegerI(width: nat, minDigits: Option<nat>)
    | IntegerB(width: nat, minDigits: Option<nat>)
    | IntegerO(width: nat, minDigits: Option<nat>)
    | IntegerZ(width: nat, minDigits: Option<nat>)
    | RealF(width: nat, decimals: nat)
    | RealE(width: nat, decimals: nat, expWidth: Option<nat>)
    | RealEN(width: nat, decimals: nat, expWidth: Option<nat>)
    | RealES(width: nat, decimals: nat, expWidth: Option<nat>)
    | RealEX(width: nat, decimals: nat, expWidth: Option<nat>)
    | RealD(width: nat, decimals: nat)
    | RealG(width: nat, decimals: nat, expWidth: Option<nat>)
    | Logical(width: nat)
    | Character(charWidth: Option<nat>)
    | CharTrimmed

  /** Descriptors that never consume a value. */
  datatype ControlEdit =
    | Skip(count: nat) | TabTo(position: nat) | TabLeft(count: nat) | TabRight(count: nat)
    | Newline | SignMode | BlankMode | ScaleFactor(k: int) | RoundingMode | DecimalMode | LeadingZero
    | LiteralString(text: string)

  datatype FormatDesc =
    | Data(edit: DataEdit)
    | DerivedType(typeName: string, vList: seq<int>)
    | Control(control: ControlEdit)
    | Colon
    | Group(repeat: nat, descriptors: seq<FormatDesc>, isReversionPoint: bool)
    | UnlimitedRepeat(descriptors: seq<FormatDesc>)

  datatype IoValue = IntegerValue | RealValue | LogicalValue | CharacterValue

  /** Whether the engine can edit a value with a descriptor; defined I/O is
      dispatched elsewhere, so DT never matches an intrinsic value. */
  predicate Fits(d: FormatDesc, v: IoValue) {
    d.Data? &&
    match v
    case IntegerValue => d.edit.IntegerI? || d.edit.IntegerB? || d.edit.IntegerO? || d.edit.IntegerZ? || d.edit.RealG?
    case RealValue =>
      || d.edit.RealF? || d.edit.RealE? || d.edit.RealEN? || d.edit.RealES? || d.edit.RealEX?
      || d.edit.RealD? || d.edit.RealG?
    case LogicalValue => d.edit.Logical? || d.edit.RealG?
    case CharacterValue => d.edit.Character? || d.edit.CharTrimmed? || d.edit.RealG?
  }

  /** G takes values of every type, every other data descriptor those of one type. */
  lemma {:induction false} OneTypeEach(e: DataEdit, v: IoValue)
    ensures e.RealG? ==> Fits(Data(e), v)
    ensures !e.RealG? ==> (Fits(Data(e), v) <==> v == TypeOf(e))
  {
  }

  /** The type of the values a descriptor other than G is for. */
  function TypeOf(e: DataEdit): IoValue {
    if e.IntegerI? || e.IntegerB? || e.IntegerO? || e.IntegerZ? then IntegerValue
    else if e.Logical? then LogicalValue
    else if e.Character? || e.CharTrimmed? then CharacterValue
    else RealValue
  }

  predicate HasData(descs: seq<FormatDesc>) {
    exists i :: 0 <= i < |descs| && DescHasData(descs[i])
  }

  predicate DescHasData(d: FormatDesc) {
    match d
    case Data(_) => true
    case DerivedType(_, _) => true
    case Group(_, ds, _) => HasData(ds)
    case UnlimitedRepeat(ds) => HasData(ds)
    case _ => false
  }

  // ---- What one scan of a format consumes ----

  /** The data descriptors met, in order; `stuck` when control enters a loop that
      can never consume a value. */
  datatype Scan = Scan(items: seq<FormatDesc>, stuck: bool)

  function Then(a: Scan, b: Scan): Scan {
    Scan(a.items + b.items, b.stuck)
  }

  /** A scan of `descs` with m values left. */
  function ScanList(descs: seq<FormatDesc>, m: nat): (r: Scan)
    ensures |r.items| <= m
    decreases descs, 0, 0
  {
    if descs == [] || m == 0 then Scan([], false)
    else
      var s := ScanDesc(descs[0], m);
      if s.stuck then s else Then(s, ScanList(descs[1..], m - |s.items|))
  }

  function ScanDesc(d: FormatDesc, m: nat): (r: Scan)
    requires m > 0
    ensures |r.items| <= m
    decreases d, 0, 0
  {
    match d
    case Data(_) => Scan([d], false)
    case DerivedType(_, _) => Scan([d], false)
    case Group(repeat, ds, _) => ScanRepeat(ds, repeat, m)
    case UnlimitedRepeat(ds) => ScanUnlimited(ds, m)
    case _ => Scan([], false)
  }

  function ScanRepeat(ds: seq<FormatDesc>, repeat: nat, m: nat): (r: Scan)
    ensures |r.items| <= m
    decreases ds, 1, repeat
  {
    if repeat == 0 || m == 0 then Scan([], false)
    else
      var s := ScanList(ds, m);
      if s.stuck then s else Then(s, ScanRepeat(ds, repeat - 1, m - |s.items|))
  }

  function ScanUnlimited(ds: seq<FormatDesc>, m: nat): (r: Scan)
    ensures |r.items| <= m
    decreases ds, 1, m
  {
    if m == 0 then Scan([], false)
    else
      var s := ScanList(ds, m);
      if s.stuck then s
      else if s.items == [] then Scan([], true)
      else Then(s, ScanUnlimited(ds, m - |s.items|))
  }

  // ---- Whole formats: reversion ----

  predicate IsReversionPoint(d: FormatDesc) {
    d.UnlimitedRepeat? || (d.Group? && d.isReversionPoint)
  }

  /** From the last top-level parenthesized group on, or the whole format. */
  function Reversion(descs: seq<FormatDesc>): (r: seq<FormatDesc>)
    ensures |r| <= |descs| && r == descs[|descs| - |r|..]
  {
    descs[ReversionStart(descs, |descs|)..]
  }

  /** The last such group among the first n descriptors, or the start. */
  function ReversionStart(descs: seq<FormatDesc>, n: nat): (start: nat)
    requires n <= |descs|
    ensures start <= n
  {
    if n == 0 then 0
    else if IsReversionPoint(descs[n - 1]) then n - 1
    else ReversionStart(descs, n - 1)
  }

  lemma {:induction false} StartIsLast(descs: seq<FormatDesc>, n: nat, i: nat)
    requires i < n <= |descs| && IsReversionPoint(descs[i])
    ensures var start := ReversionStart(descs, n);
      && i <= start < n && IsReversionPoint(descs[start])
      && forall j :: start < j < n ==> !IsReversionPoint(descs[j])
    decreases n
  {
    hide IsReversionPoint;
    if !IsReversionPoint(descs[n - 1]) {
      StartIsLast(descs, n - 1, i);
    }
  }

  /** Reversion starts at the last top-level unlimited or marked group: none follows. */
  lemma {:induction false} ReversionPoint(descs: seq<FormatDesc>, i: nat)
    requires i < |descs| && (descs[i].UnlimitedRepeat? || (descs[i].Group? && descs[i].isReversionPoint))
    ensures var r := Reversion(descs);
      && 0 < |r| <= |descs| - i && (r[0].UnlimitedRepeat? || (r[0].Group? && r[0].isReversionPoint))
      && forall j :: 0 < j < |r| ==> !(r[j].UnlimitedRepeat? || (r[j].Group? && r[j].isReversionPoint))
  {
    hide ReversionStart;
    StartIsLast(descs, |descs|, i);
    var start, r := ReversionStart(descs, |descs|), Reversion(descs);
    assert r == descs[start..] && r[0] == descs[start] && IsReversionPoint(r[0]);
    forall j | 0 < j < |r|
      ensures !(r[j].UnlimitedRepeat? || (r[j].Group? && r[j].isReversionPoint))
    {
      assert r[j] == descs[start + j] && !IsReversionPoint(descs[start + j]);
    }
  }

  lemma {:induction false} StartWithout(descs: seq<FormatDesc>, n: nat)
    requires n <= |descs| && forall i :: 0 <= i < n ==> !IsReversionPoint(descs[i])
    ensures ReversionStart(descs, n) == 0
    decreases n
  {
    hide IsReversionPoint;
    if n > 0 {
      StartWithout(descs, n - 1);
    }
  }

  /** Without such a group control reverts to the start of the format. */
  lemma {:induction false} ReversionWhole(descs: seq<FormatDesc>)
    requires forall i :: 0 <= i < |descs| ==>
      !(descs[i].UnlimitedRepeat? || (descs[i].Group? && descs[i].isReversionPoint))
    ensures Reversion(descs) == descs
  {
    hide ReversionStart;
    StartWithout(descs, |descs|);
  }

  /** What happens to n values that fit: all are edited by the listed descriptors,
      or a scan consumes nothing, or after the listed ones control never comes back. */
  datatype Outcome =
    | Finished(items: seq<FormatDesc>)
    | Invalid(items: seq<FormatDesc>)
    | Diverges(items: seq<FormatDesc>)

  function Prepend(items: seq<FormatDesc>, o: Outcome): Outcome {
    match o
    case Finished(xs) => Finished(items + xs)
    case Invalid(xs) => Invalid(items + xs)
    case Diverges(xs) => Diverges(items + xs)
  }

  /** Scan after scan: first `active`, then always `reversion`. */
  function Passes(active: seq<FormatDesc>, reversion: seq<FormatDesc>, m: nat): (r: Outcome)
    ensures |r.items| <= m
    ensures r.Finished? ==> |r.items| == m
    decreases m
  {
    if m == 0 then Finished([])
    else
      var s := ScanList(active, m);
      if s.stuck then Diverges(s.items)
      else if s.items == [] then Invalid([])
      else Prepend(s.items, Passes(reversion, reversion, m - |s.items|))
  }

  /** Format control for n values. */
  function ControlFlow(format: seq<FormatDesc>, n: nat): (r: Outcome)
    ensures |r.items| <= n
    ensures r.Finished? ==> |r.items| == n
  {
    if n > 0 && !HasData(format) then Invalid([]) else Passes(format, Reversion(format), n)
  }

  // ---- The output engine ----

  datatype FormatError = InvalidFormat | TypeMismatch

  predicate AllFit(items: seq<FormatDesc>, values: seq<IoValue>, start: nat)
    requires start + |items| <= |values|
  {
    forall k :: 0 <= k < |items| ==> Fits(items[k], values[start + k])
  }

  lemma {:induction false} AllFitConcat(a: seq<FormatDesc>, b: seq<FormatDesc>, values: seq<IoValue>, start: nat)
    requires start + |a| + |b| <= |values|
    ensures AllFit(a + b, values, start) <==> AllFit(a, values, start) && AllFit(b, values, start + |a|)
  {
    if AllFit(a + b, values, start) {
      assert forall k :: 0 <= k < |a| ==> (a + b)[k] == a[k];
      forall k | 0 <= k < |b|
        ensures Fits(b[k], values[start + |a| + k])
      {
        assert (a + b)[|a| + k] == b[k];
        assert Fits((a + b)[|a| + k], values[start + (|a| + k)]);
      }
    }
  }

  /** `edits` lists the descriptors used, one per consumed value; they are the
      scan's, and editing succeeds exactly when every value fits. */
  ghost predicate Reports(ok: bool, valIdx: nat, edits: seq<FormatDesc>, items: seq<FormatDesc>,
                          values: seq<IoValue>, start: nat)
    requires start + |items| <= |values|
  {
    && (ok <==> AllFit(items, values, start))
    && (ok ==> edits == items && valIdx == start + |edits|)
  }

  lemma {:induction false} SplitFit(done: seq<FormatDesc>, next: seq<FormatDesc>, rest: seq<FormatDesc>,
                                    all: seq<FormatDesc>,
                                    values: seq<IoValue>, start: nat)
    requires all == done + (next + rest) && start + |all| <= |values| && AllFit(done, values, start)
    ensures AllFit(next, values, start + |done|) ==> AllFit(done + next, values, start) && all == (done + next) + rest
    ensures !AllFit(next, values, start + |done|) ==> !AllFit(all, values, start)
  {
    AllFitConcat(done, next, values, start);
    AllFitConcat(done, next + rest, values, start);
    AllFitConcat(next, rest, values, start + |done|);
    assert all == (done + next) + rest;
  }

  /** The engine comes back from a scan: it does not loop, or it meets a value that
      does not fit first. */
  ghost predicate Ends(s: Scan, values: seq<IoValue>, start: nat)
    requires start + |s.items| <= |values|
  {
    s.stuck ==> !AllFit(s.items, values, start)
  }

  /** What is left to scan after fitting edits ends if the whole does. */
  lemma {:induction false} EndsRest(edits: seq<FormatDesc>, s: Scan, all: Scan, values: seq<IoValue>, start: nat)
    requires all == Then(Scan(edits, false), s) && start + |all.items| <= |values|
    requires AllFit(edits, values, start) && Ends(all, values, start)
    ensures Ends(s, values, start + |edits|)
  {
    AllFitConcat(edits, s.items, values, start);
  }

  /** Applies a descriptor list from value `start` on. */
  method ApplyDescriptors(descs: seq<FormatDesc>, values: seq<IoValue>, start: nat)
    returns (ok: bool, valIdx: nat, edits: seq<FormatDesc>)
    requires start <= |values| && Ends(ScanList(descs, |values| - start), values, start)
    ensures Reports(ok, valIdx, edits, ScanList(descs, |values| - start).items, values, start)
    decreases descs, 0, 0
  {
    hide ScanList, ScanDesc, AllFit;
    valIdx, edits, ok := start, [], true;
    ghost var all := ScanList(descs, |values| - start);
    NothingFits(values, start);
    assert descs[0..] == descs;
    ThenNothing(all);
    for i := 0 to |descs|
      invariant start <= valIdx <= |values| && valIdx == start + |edits| && AllFit(edits, values, start)
      invariant all == Then(Scan(edits, false), ScanList(descs[i..], |values| - valIdx))
    {
      ghost var m := |values| - valIdx;
      ScanListStep(descs, i, m);
      EndsRest(edits, ScanList(descs[i..], m), all, values, start);
      if m > 0 {
        EndsFirst(ScanDesc(descs[i], m), ScanList(descs[i + 1..], m - |ScanDesc(descs[i], m).items|),
                  ScanList(descs[i..], m), values, valIdx);
      }
      var ok', valIdx', more, stop := ApplyDesc(descs[i], values, valIdx);
      assert edits + [] == edits;
      if stop {
        return;
      }
      if m > 0 {
        SplitScan(edits, ScanDesc(descs[i], m), ScanList(descs[i + 1..], m - |ScanDesc(descs[i], m).items|), all,
                  values, start);
      }
      if !ok' {
        return false, valIdx, edits;
      }
      valIdx, edits := valIdx', edits + more;
    }
    ScanListEnd(descs, |values| - valIdx);
    assert edits + [] == edits;
  }

  lemma {:induction false} ThenNothing(s: Scan)
    ensures Then(Scan([], false), s) == s
    ensures Then(Scan(s.items, false), Scan([], false)) == Scan(s.items, false)
  {
    assert [] + s.items == s.items && s.items + [] == s.items;
  }

  /** A scan followed by another ends only if the first does. */
  lemma {:induction false} EndsFirst(s: Scan, rest: Scan, all: Scan, values: seq<IoValue>, start: nat)
    requires all == (if s.stuck then s else Then(s, rest)) && start + |all.items| <= |values|
    requires Ends(all, values, start)
    ensures start + |s.items| <= |values| && Ends(s, values, start)
  {
  }

  /** One more step: if its values fit, it did not loop and its edits join the
      others; if not, the whole does not fit. */
  lemma {:induction false} SplitScan(edits: seq<FormatDesc>, s: Scan, rest: Scan, all: Scan, values: seq<IoValue>,
                                     start: nat)
    requires all == Then(Scan(edits, false), if s.stuck then s else Then(s, rest)) && start + |all.items| <= |values|
    requires AllFit(edits, values, start) && Ends(all, values, start)
    ensures start + |edits| + |s.items| <= |values|
    ensures AllFit(s.items, values, start + |edits|) ==>
      && !s.stuck && AllFit(edits + s.items, values, start)
      && all == Then(Scan(edits + s.items, false), rest)
    ensures !AllFit(s.items, values, start + |edits|) ==> !AllFit(all.items, values, start)
  {
    if s.stuck {
      assert s.items + [] == s.items;
      SplitFit(edits, s.items, [], all.items, values, start);
    } else {
      SplitFit(edits, s.items, rest.items, all.items, values, start);
    }
  }

  lemma {:induction false} NothingFits(values: seq<IoValue>, start: nat)
    requires start <= |values|
    ensures AllFit([], values, start)
  {
  }

  lemma {:induction false} SingleFit(d: FormatDesc, values: seq<IoValue>, start: nat)
    requires start < |values|
    ensures AllFit([d], values, start) <==> Fits(d, values[start])
  {
    assert Fits([d][0], values[start + 0]) <==> Fits(d, values[start]);
  }

  lemma {:induction false} ScanListStep(descs: seq<FormatDesc>, i: nat, m: nat)
    requires i < |descs|
    ensures m == 0 ==> ScanList(descs[i..], m) == ScanList(descs[i + 1..], m) == Scan([], false)
    ensures m > 0 ==>
      var s := ScanDesc(descs[i], m);
      ScanList(descs[i..], m) == if s.stuck then s else Then(s, ScanList(descs[i + 1..], m - |s.items|))
  {
    assert descs[i..][0] == descs[i] && descs[i..][1..] == descs[i + 1..];
  }

  lemma {:induction false} ScanListEnd(descs: seq<FormatDesc>, m: nat)
    ensures ScanList(descs[|descs|..], m) == Scan([], false)
  {
  }

  /** One descriptor.  `stop` tells the list to end because no value is left. */
  method ApplyDesc(d: FormatDesc, values: seq<IoValue>, start: nat)
    returns (ok: bool, valIdx: nat, edits: seq<FormatDesc>, stop: bool)
    requires start <= |values| && (start < |values| ==> Ends(ScanDesc(d, |values| - start), values, start))
    ensures start == |values| ==> ok && valIdx == start && edits == []
    ensures start < |values| ==> !stop && Reports(ok, valIdx, edits, ScanDesc(d, |values| - start).items, values, start)
    decreases d, 0, 0
  {
    ok, valIdx, edits, stop := true, start, [], false;
    match d {
      case Control(_) =>
      case Colon =>
        stop := start >= |values|;
      case DerivedType(_, _) =>
        ok := start >= |values|;
        if start < |values| {
          SingleFit(d, values, start);
        }
      case Group(repeat, ds, _) =>
        ok, valIdx, edits := ApplyGroup(ds, repeat, values, start);
      case UnlimitedRepeat(ds) =>
        ok, valIdx, edits := ApplyUnlimited(ds, values, start);
      case Data(_) =>
        if start >= |values| {
          stop := true;
        } else {
          ok := Fits(d, values[start]);
          valIdx, edits := start + 1, [d];
          SingleFit(d, values, start);
        }
    }
  }

  method ApplyGroup(ds: seq<FormatDesc>, repeat: nat, values: seq<IoValue>, start: nat)
    returns (ok: bool, valIdx: nat, edits: seq<FormatDesc>)
    requires start <= |values| && Ends(ScanRepeat(ds, repeat, |values| - start), values, start)
    ensures Reports(ok, valIdx, edits, ScanRepeat(ds, repeat, |values| - start).items, values, start)
    decreases ds, 1, repeat
  {
    hide ScanList, ScanRepeat, AllFit;
    valIdx, edits, ok := start, [], true;
    ghost var all := ScanRepeat(ds, repeat, |values| - start);
    NothingFits(values, start);
    ThenNothing(all);
    for i := 0 to repeat
      invariant start <= valIdx <= |values| && valIdx == start + |edits| && AllFit(edits, values, start)
      invariant all == Then(Scan(edits, false), ScanRepeat(ds, repeat - i, |values| - valIdx))
    {
      ghost var m := |values| - valIdx;
      ScanRepeatStep(ds, repeat - i, m);
      ghost var s := ScanList(ds, m);
      ghost var rest := ScanRepeat(ds, repeat - i - 1, m - |s.items|);
      EndsRest(edits, ScanRepeat(ds, repeat - i, m), all, values, start);
      EndsFirst(s, rest, ScanRepeat(ds, repeat - i, m), values, valIdx);
      var ok', valIdx', more := ApplyDescriptors(ds, values, valIdx);
      SplitScan(edits, s, rest, all, values, start);
      if !ok' {
        return false, valIdx, edits;
      }
      valIdx, edits := valIdx', edits + more;
    }
    ScanRepeatEnd(ds, |values| - valIdx);
    assert edits + [] == edits;
  }

  lemma {:induction false} ScanRepeatStep(ds: seq<FormatDesc>, repeat: nat, m: nat)
    requires repeat > 0
    ensures var s := ScanList(ds, m);
      ScanRepeat(ds, repeat, m) == if s.stuck then s else Then(s, ScanRepeat(ds, repeat - 1, m - |s.items|))
  {
  }

  lemma {:induction false} ScanRepeatEnd(ds: seq<FormatDesc>, m: nat)
    ensures ScanRepeat(ds, 0, m) == Scan([], false)
  {
  }

  /** The unlimited group's loop ends because every turn consumes a value. */
  method ApplyUnlimited(ds: seq<FormatDesc>, values: seq<IoValue>, start: nat)
    returns (ok: bool, valIdx: nat, edits: seq<FormatDesc>)
    requires start <= |values| && Ends(ScanUnlimited(ds, |values| - start), values, start)
    ensures Reports(ok, valIdx, edits, ScanUnlimited(ds, |values| - start).items, values, start)
    decreases ds, 1, 0
  {
    hide ScanList, ScanUnlimited, AllFit;
    valIdx, edits, ok := start, [], true;
    ghost var all := ScanUnlimited(ds, |values| - start);
    NothingFits(values, start);
    ThenNothing(all);
    while valIdx < |values|
      invariant start <= valIdx <= |values| && valIdx == start + |edits| && AllFit(edits, values, start)
      invariant all == Then(Scan(edits, false), ScanUnlimited(ds, |values| - valIdx))
      decreases |values| - valIdx
    {
      ghost var m := |values| - valIdx;
      ghost var s := ScanList(ds, m);
      ghost var rest := ScanUnlimited(ds, m - |s.items|);
      EndsRest(edits, ScanUnlimited(ds, m), all, values, start);
      NothingFits(values, valIdx);
      ScanUnlimitedStep(ds, m);
      EndsFirst(s, rest, ScanUnlimited(ds, m), values, valIdx);
      var ok', valIdx', more := ApplyDescriptors(ds, values, valIdx);
      SplitScan(edits, s, rest, all, values, start);
      if !ok' {
        return false, valIdx, edits;
      }
      valIdx, edits := valIdx', edits + more;
    }
    ScanUnlimitedEnd(ds);
    assert edits + [] == edits;
  }

  lemma {:induction false} ScanUnlimitedStep(ds: seq<FormatDesc>, m: nat)
    requires m > 0
    ensures var s := ScanList(ds, m);
      ScanUnlimited(ds, m)
      == if s.stuck then s else if s.items == [] then Scan([], true) else Then(s, ScanUnlimited(ds, m - |s.items|))
  {
  }

  lemma {:induction false} ScanUnlimitedEnd(ds: seq<FormatDesc>)
    ensures ScanUnlimited(ds, 0) == Scan([], false)
  {
  }

  /** The engine on a whole value list, with reversion; it comes back unless the
      values before a loop all fit. */
  method FormatValues(format: seq<FormatDesc>, values: seq<IoValue>)
    returns (error: Option<FormatError>, edits: seq<FormatDesc>)
    requires ControlFlow(format, |values|).Diverges? ==> !AllFit(ControlFlow(format, |values|).items, values, 0)
    ensures var flow := ControlFlow(format, |values|);
      && (error == None <==> flow.Finished? && AllFit(flow.items, values, 0))
      && (error == None ==> edits == flow.items)
      && (error == Some(TypeMismatch) <==> !AllFit(flow.items, values, 0))
  {
    hide ScanList, AllFit, HasData, Passes, Prepend, Reversion;
    var reversion := Reversion(format);
    edits, error := [], None;
    NothingFits(values, 0);
    if |values| > 0 && !HasData(format) {
      return Some(InvalidFormat), edits;
    }
    var active := format;
    ghost var all := ControlFlow(format, |values|);
    var valIdx := 0;
    PrependNothing(all);
    while valIdx < |values|
      invariant 0 <= valIdx <= |values| && valIdx == |edits| && AllFit(edits, values, 0)
      invariant all == Prepend(edits, Passes(active, reversion, |values| - valIdx))
      decreases |values| - valIdx
    {
      ghost var m := |values| - valIdx;
      ghost var s := ScanList(active, m);
      PassesStep(edits, active, reversion, m);
      if s.stuck {
        AllFitConcat(edits, s.items, values, 0);
      }
      var ok, valIdx', more := ApplyDescriptors(active, values, valIdx);
      if s.items == [] {
        NothingFits(values, valIdx);
      } else if !s.stuck {
        SplitFit(edits, s.items, Passes(reversion, reversion, m - |s.items|).items, all.items, values, 0);
      }
      if !ok {
        return Some(TypeMismatch), edits;
      }
      if valIdx' == valIdx {
        return Some(InvalidFormat), edits;
      }
      valIdx, edits := valIdx', edits + more;
      active := reversion;
    }
    PassesEnd(edits, active, reversion);
  }

  lemma {:induction false} PrependNothing(o: Outcome)
    ensures Prepend([], o) == o
  {
    assert [] + o.items == o.items;
  }

  lemma {:induction false} PassesEnd(edits: seq<FormatDesc>, active: seq<FormatDesc>, reversion: seq<FormatDesc>)
    ensures Prepend(edits, Passes(active, reversion, 0)) == Finished(edits)
  {
    assert edits + [] == edits;
  }

  /** One turn of the reversion loop, seen from the values already edited. */
  lemma {:induction false} PassesStep(edits: seq<FormatDesc>, active: seq<FormatDesc>, reversion: seq<FormatDesc>,
                                      m: nat)
    requires m > 0
    ensures var s := ScanList(active, m);
      Prepend(edits, Passes(active, reversion, m))
      == if s.stuck then Diverges(edits + s.items)
         else if s.items == [] then Invalid(edits)
         else Prepend(edits + s.items, Passes(reversion, reversion, m - |s.items|))
    ensures var s := ScanList(active, m);
      !s.stuck && s.items != [] ==>
        Prepend(edits, Passes(active, reversion, m)).items
        == edits + (s.items + Passes(reversion, reversion, m - |s.items|).items)
  {
    var s := ScanList(active, m);
    assert edits + [] == edits;
    if !s.stuck && s.items != [] {
      var rest := Passes(reversion, reversion, m - |s.items|).items;
      assert edits + (s.items + rest) == (edits + s.items) + rest;
    }
  }
}
