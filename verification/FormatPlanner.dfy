/**
  The planner (runtime/src/format.rs, parse_data_descriptors_for_items): the data
  descriptor of each of the first n items, for compiler lowering.  It must name
  the descriptors the engine will use.
 */
module FormatPlanner {
  import opened Wrappers
  import opened FormatControl
  import opened Repetition

  // ---- The planner's own expansion ----

  /** As ScanList, but dataless groups are skipped unread and `stuck` stands for
      the InvalidFormat error. */
  function PlanList(descs: seq<FormatDesc>, m: nat): (r: Scan)
    ensures |r.items| <= m
    decreases descs, 0, 0
  {
    if descs == [] || m == 0 then Scan([], false)
    else
      var s := PlanDesc(descs[0], m);
      if s.stuck then s else Then(s, PlanList(descs[1..], m - |s.items|))
  }

  function PlanDesc(d: FormatDesc, m: nat): (r: Scan)
    requires m > 0
    ensures |r.items| <= m
    decreases d, 0, 0
  {
    match d
    case Data(_) => Scan([d], false)
    case DerivedType(_, _) => Scan([d], false)
    case Group(repeat, ds, _) => if HasData(ds) then PlanRepeat(ds, repeat, m) else Scan([], false)
    case UnlimitedRepeat(ds) => if HasData(ds) then PlanUnlimited(ds, m) else Scan([], true)
    case _ => Scan([], false)
  }

  function PlanRepeat(ds: seq<FormatDesc>, repeat: nat, m: nat): (r: Scan)
    ensures |r.items| <= m
    decreases ds, 1, repeat
  {
    if repeat == 0 || m == 0 then Scan([], false)
    else
      var s := PlanList(ds, m);
      if s.stuck then s else Then(s, PlanRepeat(ds, repeat - 1, m - |s.items|))
  }

  function PlanUnlimited(ds: seq<FormatDesc>, m: nat): (r: Scan)
    ensures |r.items| <= m
    decreases ds, 1, m
  {
    if m == 0 then Scan([], false)
    else
      var s := PlanList(ds, m);
      if s.stuck then s
      else if s.items == [] then Scan([], true)
      else Then(s, PlanUnlimited(ds, m - |s.items|))
  }

  function PlanPasses(reversion: seq<FormatDesc>, m: nat): (r: Option<seq<FormatDesc>>)
    decreases m
  {
    if m == 0 then Some([])
    else
      var s := PlanList(reversion, m);
      if s.stuck || s.items == [] then None
      else
        var rest := PlanPasses(reversion, m - |s.items|);
        if rest.None? then None else Some(s.items + rest.value)
  }

  /** The plan for n items; None is InvalidFormat. */
  function Plan(format: seq<FormatDesc>, n: nat): (r: Option<seq<FormatDesc>>)
  {
    var s := PlanList(format, n);
    if s.stuck then None
    else if |s.items| == n then Some(s.items)
    else if !HasData(Reversion(format)) then None
    else
      var rest := PlanPasses(Reversion(format), n - |s.items|);
      if rest.None? then None else Some(s.items + rest.value)
  }

  // ---- The planner's code ----

  lemma {:induction false} ThenAppend(before: seq<FormatDesc>, added: seq<FormatDesc>, s: Scan, rest: Scan)
    ensures Then(Scan(added, false), Then(s, rest)) == Then(Scan(added + s.items, false), rest)
    ensures (before + added) + s.items == before + (added + s.items)
  {
    assert added + (s.items + rest.items) == (added + s.items) + rest.items;
  }

  method AppendDataDescriptors(descs: seq<FormatDesc>, before: seq<FormatDesc>, limit: nat)
    returns (ok: bool, result: seq<FormatDesc>)
    requires |before| <= limit
    ensures var s := PlanList(descs, limit - |before|);
      && ok == !s.stuck
      && (ok ==> result == before + s.items)
    decreases descs, 0, 0
  {
    hide PlanList, PlanDesc;
    result, ok := before, true;
    ghost var added: seq<FormatDesc> := [];
    ghost var all := PlanList(descs, limit - |before|);
    assert descs[0..] == descs;
    ThenNothing(all);
    for i := 0 to |descs|
      invariant result == before + added && |result| <= limit
      invariant all == Then(Scan(added, false), PlanList(descs[i..], limit - |result|))
    {
      ghost var m := limit - |result|;
      PlanListStep(descs, i, m);
      ThenNothing(Scan(added, false));
      if |result| == limit {
        return;
      }
      ghost var s := PlanDesc(descs[i], m);
      ok, result := AppendDescriptor(descs[i], result, limit);
      if !ok {
        return;
      }
      ThenAppend(before, added, s, PlanList(descs[i + 1..], m - |s.items|));
      added := added + s.items;
    }
    ThenNothing(Scan(added, false));
    PlanListEnd(descs, limit - |result|);
  }

  lemma {:induction false} PlanListStep(descs: seq<FormatDesc>, i: nat, m: nat)
    requires i < |descs|
    ensures m == 0 ==> PlanList(descs[i..], m) == Scan([], false)
    ensures m > 0 && PlanDesc(descs[i], m).stuck ==> PlanList(descs[i..], m).stuck
    ensures m > 0 && !PlanDesc(descs[i], m).stuck ==>
      PlanList(descs[i..], m)
      == Then(PlanDesc(descs[i], m), PlanList(descs[i + 1..], m - |PlanDesc(descs[i], m).items|))
  {
    assert descs[i..][0] == descs[i] && descs[i..][1..] == descs[i + 1..];
  }

  lemma {:induction false} PlanListEnd(descs: seq<FormatDesc>, m: nat)
    ensures PlanList(descs[|descs|..], m) == Scan([], false)
  {
  }

  method AppendDescriptor(d: FormatDesc, before: seq<FormatDesc>, limit: nat)
    returns (ok: bool, result: seq<FormatDesc>)
    requires |before| < limit
    ensures var s := PlanDesc(d, limit - |before|);
      && ok == !s.stuck
      && (ok ==> result == before + s.items)
    decreases d, 0, 0
  {
    result, ok := before, true;
    match d {
      case Group(repeat, ds, _) =>
        if HasData(ds) {
          ok, result := AppendGroup(ds, repeat, before, limit);
        }
      case UnlimitedRepeat(ds) =>
        if !HasData(ds) {
          return false, result;
        }
        ok, result := AppendUnlimited(ds, before, limit);
      case Data(_) =>
        result := result + [d];
      case DerivedType(_, _) =>
        result := result + [d];
      case _ =>
    }
  }

  method AppendGroup(ds: seq<FormatDesc>, repeat: nat, before: seq<FormatDesc>, limit: nat)
    returns (ok: bool, result: seq<FormatDesc>)
    requires |before| <= limit
    ensures var s := PlanRepeat(ds, repeat, limit - |before|);
      && ok == !s.stuck
      && (ok ==> result == before + s.items)
    decreases ds, 1, repeat
  {
    hide PlanList, PlanRepeat;
    result, ok := before, true;
    ghost var added: seq<FormatDesc> := [];
    ghost var all := PlanRepeat(ds, repeat, limit - |before|);
    ThenNothing(all);
    for k := 0 to repeat
      invariant result == before + added && |result| <= limit
      invariant all == Then(Scan(added, false), PlanRepeat(ds, repeat - k, limit - |result|))
    {
      ghost var m := limit - |result|;
      ghost var s := PlanList(ds, m);
      PlanRepeatStep(ds, repeat - k, m);
      ThenNothing(Scan(added, false));
      ok, result := AppendDataDescriptors(ds, result, limit);
      if !ok {
        return;
      }
      ThenAppend(before, added, s, PlanRepeat(ds, repeat - k - 1, m - |s.items|));
      added := added + s.items;
      ThenNothing(Scan(added, false));
      PlanRepeatEnd(ds, repeat - k - 1, limit - |result|);
      if |result| == limit {
        return;
      }
    }
    ThenNothing(Scan(added, false));
    PlanRepeatEnd(ds, 0, limit - |result|);
  }

  lemma {:induction false} PlanRepeatStep(ds: seq<FormatDesc>, repeat: nat, m: nat)
    requires repeat > 0
    ensures PlanList(ds, m).stuck ==> PlanRepeat(ds, repeat, m).stuck
    ensures !PlanList(ds, m).stuck ==>
      PlanRepeat(ds, repeat, m) == Then(PlanList(ds, m), PlanRepeat(ds, repeat - 1, m - |PlanList(ds, m).items|))
  {
  }

  lemma {:induction false} PlanRepeatEnd(ds: seq<FormatDesc>, repeat: nat, m: nat)
    ensures repeat == 0 || m == 0 ==> PlanRepeat(ds, repeat, m) == Scan([], false)
  {
  }

  method AppendUnlimited(ds: seq<FormatDesc>, before: seq<FormatDesc>, limit: nat)
    returns (ok: bool, result: seq<FormatDesc>)
    requires |before| <= limit
    ensures var s := PlanUnlimited(ds, limit - |before|);
      && ok == !s.stuck
      && (ok ==> result == before + s.items)
    decreases ds, 1, 0
  {
    hide PlanList, PlanUnlimited;
    result, ok := before, true;
    ghost var added: seq<FormatDesc> := [];
    ghost var all := PlanUnlimited(ds, limit - |before|);
    ThenNothing(all);
    while |result| < limit
      invariant result == before + added && |result| <= limit
      invariant all == Then(Scan(added, false), PlanUnlimited(ds, limit - |result|))
      decreases limit - |result|
    {
      ghost var m := limit - |result|;
      ghost var s := PlanList(ds, m);
      PlanUnlimitedStep(ds, m);
      var length := |result|;
      ok, result := AppendDataDescriptors(ds, result, limit);
      if !ok {
        return;
      }
      if |result| == length {
        return false, result;
      }
      ThenAppend(before, added, s, PlanUnlimited(ds, m - |s.items|));
      added := added + s.items;
    }
    ThenNothing(Scan(added, false));
    PlanUnlimitedEnd(ds);
  }

  lemma {:induction false} PlanUnlimitedStep(ds: seq<FormatDesc>, m: nat)
    requires m > 0
    ensures PlanList(ds, m).stuck || PlanList(ds, m).items == [] ==> PlanUnlimited(ds, m).stuck
    ensures !PlanList(ds, m).stuck && PlanList(ds, m).items != [] ==>
      PlanUnlimited(ds, m) == Then(PlanList(ds, m), PlanUnlimited(ds, m - |PlanList(ds, m).items|))
  {
  }

  lemma {:induction false} PlanUnlimitedEnd(ds: seq<FormatDesc>)
    ensures PlanUnlimited(ds, 0) == Scan([], false)
  {
  }

  method PlanItems(format: seq<FormatDesc>, itemCount: nat) returns (plan: Option<seq<FormatDesc>>)
    ensures plan == Plan(format, itemCount)
  {
    hide PlanList, HasData, Reversion, PlanPasses;
    PassesDone(Reversion(format));
    if itemCount == 0 {
      PlanOfNothing(format);
      return Some([]);
    }
    var ok, result := AppendDataDescriptors(format, [], itemCount);
    if !ok {
      return None;
    }
    assert [] + PlanList(format, itemCount).items == PlanList(format, itemCount).items;
    if |result| == itemCount {
      return Some(result);
    }
    var reversion := Reversion(format);
    if !HasData(reversion) {
      return None;
    }
    ghost var first := result;
    ghost var all := PlanPasses(reversion, itemCount - |first|);
    assert first + [] == first;
    ghost var added: seq<FormatDesc> := [];
    while |result| < itemCount
      invariant |result| <= itemCount && result == first + added
      invariant all.None? <==> PlanPasses(reversion, itemCount - |result|).None?
      invariant all.Some? ==> all.value == added + PlanPasses(reversion, itemCount - |result|).value
      decreases itemCount - |result|
    {
      ghost var s := PlanList(reversion, itemCount - |result|);
      var length := |result|;
      PassStep(reversion, itemCount - length, added);
      ok, result := AppendDataDescriptors(reversion, result, itemCount);
      if !ok || |result| == length {
        return None;
      }
      assert (first + added) + s.items == first + (added + s.items);
      added := added + s.items;
    }
    assert added + [] == added;
    plan := Some(result);
  }

  /** One planning pass over the part reverted to. */
  lemma {:induction false} PassStep(reversion: seq<FormatDesc>, m: nat, added: seq<FormatDesc>)
    requires m > 0
    ensures var s, all := PlanList(reversion, m), PlanPasses(reversion, m);
      if s.stuck || s.items == [] then all.None?
      else
        var rest := PlanPasses(reversion, m - |s.items|);
        && (all.None? <==> rest.None?)
        && (all.Some? ==> added + all.value == (added + s.items) + rest.value)
  {
    hide PlanList;
    var s := PlanList(reversion, m);
    if !s.stuck && s.items != [] {
      var rest := PlanPasses(reversion, m - |s.items|);
      if rest.Some? {
        assert added + (s.items + rest.value) == (added + s.items) + rest.value;
      }
    }
  }

  lemma {:induction false} PassesDone(reversion: seq<FormatDesc>)
    ensures PlanPasses(reversion, 0) == Some([])
  {
  }

  lemma {:induction false} PlanOfNothing(format: seq<FormatDesc>)
    ensures Plan(format, 0) == Some([])
  {
  }

  // ---- Planner and engine agree ----

  lemma {:induction false} NoDataNoItems(descs: seq<FormatDesc>, m: nat)
    requires !HasData(descs)
    ensures ScanList(descs, m).items == []
    decreases descs, 0, 0
  {
    if descs != [] && m > 0 {
      NoDataDesc(descs[0], m);
      SuffixHasNoData(descs, 1);
      NoDataNoItems(descs[1..], m);
    }
  }

  lemma {:induction false} NoDataDesc(d: FormatDesc, m: nat)
    requires m > 0 && !DescHasData(d)
    ensures ScanDesc(d, m).items == []
    decreases d, 0, 0
  {
    match d {
      case Group(repeat, ds, _) => NoDataRepeat(ds, repeat, m);
      case UnlimitedRepeat(ds) => NoDataNoItems(ds, m);
      case _ =>
    }
  }

  lemma {:induction false} NoDataRepeat(ds: seq<FormatDesc>, repeat: nat, m: nat)
    requires !HasData(ds)
    ensures ScanRepeat(ds, repeat, m).items == []
    decreases ds, 1, repeat
  {
    NoDataNoItems(ds, m);
    if repeat > 0 {
      NoDataRepeat(ds, repeat - 1, m);
    }
  }

  /** Wherever the engine's scan comes to an end, the planner expands the same
      descriptors. */
  lemma {:induction false} PlanIsScan(descs: seq<FormatDesc>, m: nat)
    requires !ScanList(descs, m).stuck
    ensures PlanList(descs, m) == ScanList(descs, m)
    decreases descs, 0, 0
  {
    if descs != [] && m > 0 {
      PlanDescIsScan(descs[0], m);
      PlanIsScan(descs[1..], m - |ScanDesc(descs[0], m).items|);
    }
  }

  lemma {:induction false} PlanDescIsScan(d: FormatDesc, m: nat)
    requires m > 0 && !ScanDesc(d, m).stuck
    ensures PlanDesc(d, m) == ScanDesc(d, m)
    decreases d, 0, 0
  {
    match d {
      case Group(repeat, ds, _) =>
        if HasData(ds) {
          PlanRepeatIsScan(ds, repeat, m);
        } else {
          NoDataRepeat(ds, repeat, m);
        }
      case UnlimitedRepeat(ds) =>
        if HasData(ds) {
          PlanUnlimitedIsScan(ds, m);
        } else {
          NoDataNoItems(ds, m);
        }
      case _ =>
    }
  }

  lemma {:induction false} PlanRepeatIsScan(ds: seq<FormatDesc>, repeat: nat, m: nat)
    requires !ScanRepeat(ds, repeat, m).stuck
    ensures PlanRepeat(ds, repeat, m) == ScanRepeat(ds, repeat, m)
    decreases ds, 1, repeat
  {
    if repeat > 0 && m > 0 {
      PlanIsScan(ds, m);
      PlanRepeatIsScan(ds, repeat - 1, m - |ScanList(ds, m).items|);
    }
  }

  lemma {:induction false} PlanUnlimitedIsScan(ds: seq<FormatDesc>, m: nat)
    requires !ScanUnlimited(ds, m).stuck
    ensures PlanUnlimited(ds, m) == ScanUnlimited(ds, m)
    decreases ds, 1, m
  {
    if m > 0 {
      PlanIsScan(ds, m);
      PlanUnlimitedIsScan(ds, m - |ScanList(ds, m).items|);
    }
  }

  lemma {:induction false} PassesAgree(reversion: seq<FormatDesc>, m: nat)
    requires !Passes(reversion, reversion, m).Diverges?
    ensures PlanPasses(reversion, m) == FromOutcome(Passes(reversion, reversion, m))
    decreases m
  {
    if m > 0 {
      PlanIsScan(reversion, m);
      var s := ScanList(reversion, m);
      if s.items != [] {
        PassesAgree(reversion, m - |s.items|);
      }
    }
  }

  function FromOutcome(o: Outcome): Option<seq<FormatDesc>> {
    if o.Finished? then Some(o.items) else None
  }

  lemma {:induction false} ScanConcat(a: seq<FormatDesc>, b: seq<FormatDesc>, m: nat)
    ensures ScanList(a, m).stuck ==> ScanList(a + b, m) == ScanList(a, m)
    ensures !ScanList(a, m).stuck ==>
      ScanList(a + b, m) == Then(ScanList(a, m), ScanList(b, m - |ScanList(a, m).items|))
    decreases |a|
  {
    hide ScanDesc, DescHasData;
    if a == [] {
      assert a + b == b;
      assert [] + ScanList(b, m).items == ScanList(b, m).items;
    } else if m > 0 {
      assert (a + b)[0] == a[0] && (a + b)[1..] == a[1..] + b;
      var s := ScanDesc(a[0], m);
      if !s.stuck {
        ScanConcat(a[1..], b, m - |s.items|);
        var t := ScanList(a[1..], m - |s.items|);
        ThenAssociates(s, t, ScanList(b, m - |s.items| - |t.items|));
      }
    }
  }

  lemma {:induction false} ThenAssociates(a: Scan, b: Scan, c: Scan)
    ensures Then(a, Then(b, c)) == Then(Then(a, b), c)
  {
    assert a.items + (b.items + c.items) == (a.items + b.items) + c.items;
  }

  /** The central agreement: for every format and item count on which the engine
      comes to an end, the plan lists the descriptors the engine uses, and the
      planner rejects exactly what the engine rejects. */
  lemma {:induction false} PlannerMatchesEngine(format: seq<FormatDesc>, n: nat)
    requires !ControlFlow(format, n).Diverges?
    ensures Plan(format, n) == FromOutcome(ControlFlow(format, n))
  {
    hide ScanList, PlanList, HasData, Reversion;
    var reversion := Reversion(format);
    if n == 0 {
      PlanOfNothing(format);
    } else if !HasData(format) {
      SuffixHasNoData(format, |format| - |reversion|);
      PlanWithoutData(format, n);
    } else {
      PlanIsScan(format, n);
      var s := ScanList(format, n);
      if s.items == [] {
        EmptyScanOfSuffix(format, |format| - |reversion|, n);
        PlanIsScan(reversion, n);
        assert PlanPasses(reversion, n) == None;
      } else {
        var m := n - |s.items|;
        assert ControlFlow(format, n) == Prepend(s.items, Passes(reversion, reversion, m));
        PassesAgree(reversion, m);
        if !HasData(reversion) && m > 0 {
          NoDataNoItems(reversion, m);
        }
        assert s.items + [] == s.items;
      }
    }
  }

  lemma {:induction false} SuffixHasNoData(format: seq<FormatDesc>, k: nat)
    requires k <= |format| && !HasData(format)
    ensures !HasData(format[k..])
  {
    assert forall i :: 0 <= i < |format| - k ==> format[k..][i] == format[k + i];
  }

  lemma {:induction false} PlanWithoutData(format: seq<FormatDesc>, n: nat)
    requires n > 0 && !HasData(format) && !HasData(Reversion(format))
    ensures Plan(format, n) == None
  {
    PlanNoItems(format, n);
  }

  lemma {:induction false} PlanNoItems(descs: seq<FormatDesc>, m: nat)
    requires !HasData(descs)
    ensures PlanList(descs, m).items == []
    decreases descs
  {
    if descs != [] && m > 0 {
      assert !DescHasData(descs[0]);
      SuffixHasNoData(descs, 1);
      PlanNoItems(descs[1..], m);
    }
  }

  lemma {:induction false} EmptyScanOfSuffix(format: seq<FormatDesc>, k: nat, m: nat)
    requires k <= |format| && ScanList(format, m) == Scan([], false)
    ensures ScanList(format[k..], m) == Scan([], false)
  {
    assert format == format[..k] + format[k..];
    ScanConcat(format[..k], format[k..], m);
  }

  // ---- When the engine comes to an end ----

  /** Repeat counts are positive and every unlimited group holds a data
      descriptor.  The format parser guarantees the first part. */
  predicate Productive(descs: seq<FormatDesc>) {
    forall i :: 0 <= i < |descs| ==> ProductiveDesc(descs[i])
  }

  predicate ProductiveDesc(d: FormatDesc) {
    match d
    case Group(repeat, ds, _) => repeat > 0 && Productive(ds)
    case UnlimitedRepeat(ds) => HasData(ds) && Productive(ds)
    case _ => true
  }

  /** In a productive format every scan ends, and with data it consumes a value. */
  lemma {:induction false} ProductiveScan(descs: seq<FormatDesc>, m: nat)
    requires Productive(descs)
    ensures !ScanList(descs, m).stuck
    ensures m > 0 && HasData(descs) ==> ScanList(descs, m).items != []
    decreases descs, 0, 0
  {
    if descs != [] && m > 0 {
      ProductiveScanDesc(descs[0], m);
      var s := ScanDesc(descs[0], m);
      ProductiveScan(descs[1..], m - |s.items|);
      if HasData(descs) && s.items == [] {
        var i :| 0 <= i < |descs| && DescHasData(descs[i]);
        assert descs[1..][i - 1] == descs[i];
        assert HasData(descs[1..]);
      }
    }
  }

  lemma {:induction false} ProductiveScanDesc(d: FormatDesc, m: nat)
    requires m > 0 && ProductiveDesc(d)
    ensures !ScanDesc(d, m).stuck
    ensures DescHasData(d) ==> ScanDesc(d, m).items != []
    decreases d, 0, 0
  {
    match d {
      case Group(repeat, ds, _) => ProductiveScanRepeat(ds, repeat, m);
      case UnlimitedRepeat(ds) => ProductiveScanUnlimited(ds, m);
      case _ =>
    }
  }

  lemma {:induction false} ProductiveScanRepeat(ds: seq<FormatDesc>, repeat: nat, m: nat)
    requires Productive(ds)
    ensures !ScanRepeat(ds, repeat, m).stuck
    ensures repeat > 0 && m > 0 && HasData(ds) ==> ScanRepeat(ds, repeat, m).items != []
    decreases ds, 1, repeat
  {
    if repeat > 0 && m > 0 {
      ProductiveScan(ds, m);
      ProductiveScanRepeat(ds, repeat - 1, m - |ScanList(ds, m).items|);
    }
  }

  lemma {:induction false} ProductiveScanUnlimited(ds: seq<FormatDesc>, m: nat)
    requires Productive(ds) && HasData(ds)
    ensures !ScanUnlimited(ds, m).stuck
    ensures m > 0 ==> ScanUnlimited(ds, m).items != []
    decreases ds, 1, m
  {
    if m > 0 {
      ProductiveScan(ds, m);
      ProductiveScanUnlimited(ds, m - |ScanList(ds, m).items|);
    }
  }

  lemma {:induction false} ProductivePasses(active: seq<FormatDesc>, reversion: seq<FormatDesc>, m: nat)
    requires Productive(active) && Productive(reversion)
    ensures !Passes(active, reversion, m).Diverges?
    ensures HasData(active) && HasData(reversion) ==> Passes(active, reversion, m).Finished?
    decreases m
  {
    if m > 0 {
      ProductiveScan(active, m);
      var s := ScanList(active, m);
      if s.items != [] {
        ProductivePasses(reversion, reversion, m - |s.items|);
      }
    }
  }

  /** For productive formats the engine always comes to an end, and rejects the
      format exactly when it has no data descriptor at all, or runs out of them
      with only a dataless part left to revert to. */
  lemma {:induction false} ProductiveFlow(format: seq<FormatDesc>, n: nat)
    requires Productive(format)
    ensures !ControlFlow(format, n).Diverges?
    ensures n > 0 ==>
      (ControlFlow(format, n).Invalid? <==>
        || !HasData(format)
        || (|ScanList(format, n).items| < n && !HasData(Reversion(format))))
  {
    var reversion := Reversion(format);
    assert Productive(reversion);
    ProductivePasses(format, reversion, n);
    if n > 0 && HasData(format) {
      ProductiveScan(format, n);
      var m := n - |ScanList(format, n).items|;
      ProductivePasses(reversion, reversion, m);
      NoDataOrNot(reversion, m);
    }
  }

  lemma {:induction false} NoDataOrNot(reversion: seq<FormatDesc>, m: nat)
    requires Productive(reversion)
    ensures m > 0 && !HasData(reversion) ==> Passes(reversion, reversion, m).Invalid?
  {
    ProductiveScan(reversion, m);
    if !HasData(reversion) {
      NoDataNoItems(reversion, m);
    }
  }

  /** An unlimited group without data: once control enters it with a value left,
      the engine never comes back. */
  lemma {:induction false} DatalessLoopSpins(text: string, m: nat)
    requires m > 0
    ensures var loop := [Control(LiteralString(text))];
      && !HasData(loop) && ScanList(loop, m) == Scan([], false) && ScanUnlimited(loop, m) == Scan([], true)
  {
    var loop := [Control(LiteralString(text))];
    assert loop[1..] == [];
    assert !DescHasData(loop[0]);
  }

  // ---- Laws of format control ----

  /** Asking for fewer items gives a prefix of the longer plan. */
  lemma {:induction false} ScanPrefix(descs: seq<FormatDesc>, m: nat, k: nat)
    requires k <= m && !ScanList(descs, m).stuck
    ensures ScanList(descs, k) == Scan(Prefix(ScanList(descs, m).items, k), false)
    decreases descs, 0, 0
  {
    if descs != [] && k > 0 {
      var s := ScanDesc(descs[0], m);
      ScanDescPrefix(descs[0], m, k);
      if |s.items| < k {
        ScanPrefix(descs[1..], m - |s.items|, k - |s.items|);
      }
      PrefixConcat(s.items, ScanList(descs[1..], m - |s.items|).items, k);
      assert ScanList(descs[1..], 0).items == [];
    }
  }

  lemma {:induction false} ScanDescPrefix(d: FormatDesc, m: nat, k: nat)
    requires 0 < k <= m && !ScanDesc(d, m).stuck
    ensures ScanDesc(d, k) == Scan(Prefix(ScanDesc(d, m).items, k), false)
    decreases d, 0, 0
  {
    match d {
      case Group(repeat, ds, _) => ScanRepeatPrefix(ds, repeat, m, k);
      case UnlimitedRepeat(ds) => ScanUnlimitedPrefix(ds, m, k);
      case _ =>
    }
  }

  lemma {:induction false} ScanRepeatPrefix(ds: seq<FormatDesc>, repeat: nat, m: nat, k: nat)
    requires k <= m && !ScanRepeat(ds, repeat, m).stuck
    ensures ScanRepeat(ds, repeat, k) == Scan(Prefix(ScanRepeat(ds, repeat, m).items, k), false)
    decreases ds, 1, repeat
  {
    if repeat > 0 && k > 0 {
      var s := ScanList(ds, m);
      ScanPrefix(ds, m, k);
      if |s.items| < k {
        ScanRepeatPrefix(ds, repeat - 1, m - |s.items|, k - |s.items|);
      }
      PrefixConcat(s.items, ScanRepeat(ds, repeat - 1, m - |s.items|).items, k);
      assert ScanRepeat(ds, repeat - 1, 0).items == [];
    }
  }

  lemma {:induction false} ScanUnlimitedPrefix(ds: seq<FormatDesc>, m: nat, k: nat)
    requires k <= m && !ScanUnlimited(ds, m).stuck
    ensures ScanUnlimited(ds, k) == Scan(Prefix(ScanUnlimited(ds, m).items, k), false)
    decreases ds, 1, m
  {
    if k > 0 {
      var s := ScanList(ds, m);
      ScanPrefix(ds, m, k);
      if |s.items| < k {
        ScanUnlimitedPrefix(ds, m - |s.items|, k - |s.items|);
      }
      PrefixConcat(s.items, ScanUnlimited(ds, m - |s.items|).items, k);
      assert ScanUnlimited(ds, 0).items == [];
    }
  }

  lemma {:induction false} PassesPrefix(active: seq<FormatDesc>, reversion: seq<FormatDesc>, m: nat, k: nat)
    requires k <= m && Passes(active, reversion, m).Finished?
    ensures Passes(active, reversion, k) == Finished(Passes(active, reversion, m).items[..k])
    decreases m
  {
    if k > 0 {
      var s := ScanList(active, m);
      ScanPrefix(active, m, k);
      var rest := Passes(reversion, reversion, m - |s.items|);
      if |s.items| < k {
        PassesPrefix(reversion, reversion, m - |s.items|, k - |s.items|);
        assert (s.items + rest.items)[..k] == s.items + rest.items[..k - |s.items|];
      } else {
        assert (s.items + rest.items)[..k] == Prefix(s.items, k) + [];
      }
    }
  }

  /** A plan does not depend on how many items follow. */
  lemma {:induction false} PlanPrefix(format: seq<FormatDesc>, n: nat, k: nat)
    requires k <= n && ControlFlow(format, n).Finished?
    ensures Plan(format, n).Some? && |Plan(format, n).value| == n
    ensures Plan(format, k) == Some(Plan(format, n).value[..k])
  {
    PassesPrefix(format, Reversion(format), n, k);
    PlannerMatchesEngine(format, n);
    PlannerMatchesEngine(format, k);
  }

  /** r(...) means the parenthesized list written out r times. */
  lemma {:induction false} GroupUnrolls(ds: seq<FormatDesc>, repeat: nat, m: nat)
    ensures ScanRepeat(ds, repeat, m) == ScanList(Copies(ds, repeat), m)
    decreases repeat
  {
    hide ScanList;
    ScanNothing(Copies(ds, repeat), m);
    if repeat > 0 && m > 0 {
      ScanConcat(ds, Copies(ds, repeat - 1), m);
      if !ScanList(ds, m).stuck {
        GroupUnrolls(ds, repeat - 1, m - |ScanList(ds, m).items|);
      }
    }
  }

  lemma {:induction false} ScanNothing(descs: seq<FormatDesc>, m: nat)
    ensures descs == [] || m == 0 ==> ScanList(descs, m) == Scan([], false)
  {
  }
}
