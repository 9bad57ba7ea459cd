/**
  The output engine of runtime/src/format.rs turn by turn.  Every loop over an
  unlimited group is given `fuel` turns; the engine comes back on some input
  exactly when some fuel is enough.  This ties the scans of FormatControl to the
  loops they stand for: where a scan is stuck and its values fit, no fuel is.
 */
module FormatEngine {
  import opened FormatControl

  /** What applying a list has led to: it is still running, it met a value that
      does not fit, or it came back having used the listed descriptors. */
  datatype Progress = Running | Mismatch | Came(edits: seq<FormatDesc>)

  function AndThen(edits: seq<FormatDesc>, p: Progress): Progress {
    if p.Came? then Came(edits + p.edits) else p
  }

  function RunList(descs: seq<FormatDesc>, values: seq<IoValue>, start: nat, fuel: nat): (p: Progress)
    requires start <= |values|
    ensures p.Came? ==> start + |p.edits| <= |values|
    decreases descs, 0, 0
  {
    if descs == [] || (start == |values| && (descs[0].Data? || descs[0].Colon?)) then Came([])
    else
      var p := RunDesc(descs[0], values, start, fuel);
      if !p.Came? then p else AndThen(p.edits, RunList(descs[1..], values, start + |p.edits|, fuel))
  }

  function RunDesc(d: FormatDesc, values: seq<IoValue>, start: nat, fuel: nat): (p: Progress)
    requires start <= |values| && (d.Data? ==> start < |values|)
    ensures p.Came? ==> start + |p.edits| <= |values|
    decreases d, 0, 0
  {
    match d
    case Data(_) => if Fits(d, values[start]) then Came([d]) else Mismatch
    case DerivedType(_, _) => if start < |values| then Mismatch else Came([])
    case Group(repeat, ds, _) => RunRepeat(ds, repeat, values, start, fuel)
    case UnlimitedRepeat(ds) => RunUnlimited(ds, values, start, fuel, fuel)
    case _ => Came([])
  }

  function RunRepeat(ds: seq<FormatDesc>, repeat: nat, values: seq<IoValue>, start: nat, fuel: nat): (p: Progress)
    requires start <= |values|
    ensures p.Came? ==> start + |p.edits| <= |values|
    decreases ds, 1, repeat
  {
    if repeat == 0 then Came([])
    else
      var p := RunList(ds, values, start, fuel);
      if !p.Came? then p else AndThen(p.edits, RunRepeat(ds, repeat - 1, values, start + |p.edits|, fuel))
  }

  /** The loop of an unlimited group with `turns` turns left. */
  function RunUnlimited(ds: seq<FormatDesc>, values: seq<IoValue>, start: nat, turns: nat, fuel: nat): (p: Progress)
    requires start <= |values|
    ensures p.Came? ==> start + |p.edits| <= |values|
    decreases ds, 1, turns
  {
    if start == |values| then Came([])
    else if turns == 0 then Running
    else
      var p := RunList(ds, values, start, fuel);
      if !p.Came? then p else AndThen(p.edits, RunUnlimited(ds, values, start + |p.edits|, turns - 1, fuel))
  }

  datatype Result = NotYet | Failed(error: FormatError) | Wrote(edits: seq<FormatDesc>)

  function RunPasses(active: seq<FormatDesc>, reversion: seq<FormatDesc>, values: seq<IoValue>,
                     edits: seq<FormatDesc>, fuel: nat): Result
    requires |edits| <= |values|
    decreases |values| - |edits|
  {
    if |edits| == |values| then Wrote(edits)
    else
      match RunList(active, values, |edits|, fuel)
      case Running => NotYet
      case Mismatch => Failed(TypeMismatch)
      case Came(more) =>
        if more == [] then Failed(InvalidFormat)
        else RunPasses(reversion, reversion, values, edits + more, fuel)
  }

  /** The engine on a whole value list. */
  function RunFormat(format: seq<FormatDesc>, values: seq<IoValue>, fuel: nat): Result {
    if values != [] && !HasData(format) then Failed(InvalidFormat)
    else RunPasses(format, Reversion(format), values, [], fuel)
  }

  // ---- Scans describe the loops ----

  /** What a scan says of the values: a misfit among its items comes first; then
      a stuck scan never comes back. */
  ghost predicate Predicted(p: Progress, s: Scan, values: seq<IoValue>, start: nat)
    requires start + |s.items| <= |values|
  {
    if !AllFit(s.items, values, start) then p == Mismatch
    else if s.stuck then p == Running
    else p == Came(s.items)
  }

  /** As predicted, or not yet. */
  ghost predicate Consistent(p: Progress, s: Scan, values: seq<IoValue>, start: nat, enough: bool)
    requires start + |s.items| <= |values|
  {
    if enough then Predicted(p, s, values, start) else p == Running || Predicted(p, s, values, start)
  }

  lemma {:induction false} Sequenced(p: Progress, q: Progress, s: Scan, rest: Scan, values: seq<IoValue>, start: nat,
                                     enough: bool)
    requires start + |s.items| + |rest.items| <= |values|
    requires Consistent(p, s, values, start, enough)
    requires p.Came? ==> Consistent(q, rest, values, start + |s.items|, enough)
    ensures Consistent(if p.Came? then AndThen(p.edits, q) else p,
                       if s.stuck then s else Then(s, rest), values, start, enough)
  {
    AllFitConcat(s.items, rest.items, values, start);
  }

  lemma {:induction false} CameAsScanned(p: Progress, s: Scan, values: seq<IoValue>, start: nat, enough: bool)
    requires start + |s.items| <= |values| && Consistent(p, s, values, start, enough) && p.Came?
    ensures p.edits == s.items && !s.stuck
  {
  }

  lemma {:induction false} NothingToDo(values: seq<IoValue>, start: nat, enough: bool)
    requires start <= |values|
    ensures Consistent(Came([]), Scan([], false), values, start, enough)
  {
  }

  /** Without values nothing runs long and nothing is edited. */
  lemma {:induction false} NoValuesLeft(descs: seq<FormatDesc>, values: seq<IoValue>, fuel: nat)
    ensures RunList(descs, values, |values|, fuel) == Came([])
    decreases descs, 0, 0
  {
    if descs != [] && !descs[0].Data? && !descs[0].Colon? {
      NoValuesLeftDesc(descs[0], values, fuel);
      NoValuesLeft(descs[1..], values, fuel);
    }
  }

  lemma {:induction false} NoValuesLeftDesc(d: FormatDesc, values: seq<IoValue>, fuel: nat)
    requires !d.Data?
    ensures RunDesc(d, values, |values|, fuel) == Came([])
    decreases d, 0, 0
  {
    match d {
      case Group(repeat, ds, _) => NoValuesLeftRepeat(ds, repeat, values, fuel);
      case _ =>
    }
  }

  lemma {:induction false} NoValuesLeftRepeat(ds: seq<FormatDesc>, repeat: nat, values: seq<IoValue>, fuel: nat)
    ensures RunRepeat(ds, repeat, values, |values|, fuel) == Came([])
    decreases ds, 1, repeat
  {
    if repeat > 0 {
      NoValuesLeft(ds, values, fuel);
      NoValuesLeftRepeat(ds, repeat - 1, values, fuel);
    }
  }

  /** Every run of a list is as its scan predicts, and as many turns as there are
      values are enough to see it. */
  lemma {:induction false} RunIsScan(descs: seq<FormatDesc>, values: seq<IoValue>, start: nat, fuel: nat)
    requires start <= |values|
    ensures Consistent(RunList(descs, values, start, fuel),
                       ScanList(descs, |values| - start), values, start, fuel >= |values| - start)
    decreases descs, 0, 0
  {
    hide Consistent, RunDesc, ScanDesc, AndThen, Then;
    var m := |values| - start;
    NothingToDo(values, start, fuel >= m);
    if m == 0 {
      NoValuesLeft(descs, values, fuel);
    } else if descs != [] {
      var p, s := RunDesc(descs[0], values, start, fuel), ScanDesc(descs[0], m);
      RunDescIsScan(descs[0], values, start, fuel);
      var q := Came([]);
      if p.Came? {
        CameAsScanned(p, s, values, start, fuel >= m);
        RunIsScan(descs[1..], values, start + |s.items|, fuel);
        q := RunList(descs[1..], values, start + |s.items|, fuel);
        Loosened(q, ScanList(descs[1..], m - |s.items|), values, start + |s.items|, fuel >= m - |s.items|, fuel >= m);
      }
      Sequenced(p, q, s, ScanList(descs[1..], m - |s.items|), values, start, fuel >= m);
    }
  }

  lemma {:induction false} Loosened(p: Progress, s: Scan, values: seq<IoValue>, start: nat, enough: bool, more: bool)
    requires start + |s.items| <= |values| && Consistent(p, s, values, start, enough) && (more ==> enough)
    ensures Consistent(p, s, values, start, more)
  {
  }

  lemma {:induction false} RunDescIsScan(d: FormatDesc, values: seq<IoValue>, start: nat, fuel: nat)
    requires start < |values|
    ensures Consistent(RunDesc(d, values, start, fuel),
                       ScanDesc(d, |values| - start), values, start, fuel >= |values| - start)
    decreases d, 0, 0
  {
    hide AllFit;
    match d {
      case Group(repeat, ds, _) =>
        RunRepeatIsScan(ds, repeat, values, start, fuel);
      case UnlimitedRepeat(ds) =>
        RunUnlimitedIsScan(ds, values, start, fuel, fuel);
      case _ =>
        NothingFits(values, start);
        SingleFit(d, values, start);
    }
  }

  lemma {:induction false} RunRepeatIsScan(ds: seq<FormatDesc>, repeat: nat, values: seq<IoValue>, start: nat,
                                           fuel: nat)
    requires start <= |values|
    ensures Consistent(RunRepeat(ds, repeat, values, start, fuel),
                       ScanRepeat(ds, repeat, |values| - start), values, start, fuel >= |values| - start)
    decreases ds, 1, repeat
  {
    hide Consistent, RunList, ScanList, AndThen, Then;
    var m := |values| - start;
    NothingToDo(values, start, fuel >= m);
    if m == 0 {
      NoValuesLeftRepeat(ds, repeat, values, fuel);
    } else if repeat > 0 {
      var p, s := RunList(ds, values, start, fuel), ScanList(ds, m);
      RunIsScan(ds, values, start, fuel);
      var q := Came([]);
      if p.Came? {
        CameAsScanned(p, s, values, start, fuel >= m);
        RunRepeatIsScan(ds, repeat - 1, values, start + |s.items|, fuel);
        q := RunRepeat(ds, repeat - 1, values, start + |s.items|, fuel);
        Loosened(q, ScanRepeat(ds, repeat - 1, m - |s.items|), values, start + |s.items|, fuel >= m - |s.items|,
                 fuel >= m);
      }
      Sequenced(p, q, s, ScanRepeat(ds, repeat - 1, m - |s.items|), values, start, fuel >= m);
    }
  }

  /** A turn that uses no value leads to the same turn again, for ever. */
  lemma {:induction false} RunUnlimitedIsScan(ds: seq<FormatDesc>, values: seq<IoValue>, start: nat, turns: nat,
                                              fuel: nat)
    requires start <= |values|
    ensures Consistent(RunUnlimited(ds, values, start, turns, fuel), ScanUnlimited(ds, |values| - start), values, start,
                       turns >= |values| - start && fuel >= |values| - start)
    decreases ds, 1, turns
  {
    hide Consistent, RunList, ScanList, AndThen, Then;
    var m := |values| - start;
    var enough := turns >= m && fuel >= m;
    NothingToDo(values, start, enough);
    if m > 0 && turns == 0 {
      OutOfTurns(ScanUnlimited(ds, m), values, start);
    } else if m > 0 {
      var p, s := RunList(ds, values, start, fuel), ScanList(ds, m);
      RunIsScan(ds, values, start, fuel);
      Loosened(p, s, values, start, fuel >= m, enough);
      if s.items == [] && !s.stuck {
        if p.Came? {
          CameAsScanned(p, s, values, start, enough);
          RunUnlimitedIsScan(ds, values, start, turns - 1, fuel);
          SpinsAgain(RunUnlimited(ds, values, start, turns - 1, fuel), values, start, turns - 1 >= m && fuel >= m,
                     enough);
        } else {
          NotEvenOnce(p, s, values, start, enough);
        }
      } else {
        var q := Came([]);
        if p.Came? {
          CameAsScanned(p, s, values, start, enough);
          RunUnlimitedIsScan(ds, values, start + |s.items|, turns - 1, fuel);
          q := RunUnlimited(ds, values, start + |s.items|, turns - 1, fuel);
          Loosened(q, ScanUnlimited(ds, m - |s.items|), values, start + |s.items|,
                   turns - 1 >= m - |s.items| && fuel >= m - |s.items|, enough);
        }
        Sequenced(p, q, s, ScanUnlimited(ds, m - |s.items|), values, start, enough);
      }
    }
  }

  lemma {:induction false} OutOfTurns(s: Scan, values: seq<IoValue>, start: nat)
    requires start + |s.items| <= |values|
    ensures Consistent(Running, s, values, start, false)
  {
  }

  lemma {:induction false} SpinsAgain(q: Progress, values: seq<IoValue>, start: nat, before: bool, after: bool)
    requires start <= |values| && Consistent(q, Scan([], true), values, start, before)
    ensures Consistent(AndThen([], q), Scan([], true), values, start, after)
  {
  }

  lemma {:induction false} NotEvenOnce(p: Progress, s: Scan, values: seq<IoValue>, start: nat, enough: bool)
    requires start <= |values| && s == Scan([], false) && Consistent(p, s, values, start, enough) && !p.Came?
    ensures Consistent(p, Scan([], true), values, start, enough)
  {
  }

  // ---- Whole formats ----

  /** What the control flow says of the values. */
  ghost predicate ResultIs(r: Result, flow: Outcome, values: seq<IoValue>)
    requires |flow.items| <= |values|
  {
    if !AllFit(flow.items, values, 0) then r == Failed(TypeMismatch)
    else match flow
      case Finished(items) => r == Wrote(items)
      case Invalid(_) => r == Failed(InvalidFormat)
      case Diverges(_) => r == NotYet
  }

  lemma {:induction false} PassesPredicted(active: seq<FormatDesc>, reversion: seq<FormatDesc>, values: seq<IoValue>,
                                           edits: seq<FormatDesc>, fuel: nat)
    requires |edits| <= |values| && AllFit(edits, values, 0)
    ensures var r := RunPasses(active, reversion, values, edits, fuel);
      var flow := Prepend(edits, Passes(active, reversion, |values| - |edits|));
      && (fuel >= |values| - |edits| ==> ResultIs(r, flow, values))
      && (r == NotYet || ResultIs(r, flow, values))
    decreases |values| - |edits|
  {
    hide AllFit, ScanList, RunList, Passes, Prepend;
    var m := |values| - |edits|;
    if m == 0 {
      PassesEnd(edits, active, reversion);
    } else {
      var s := ScanList(active, m);
      RunIsScan(active, values, |edits|, fuel);
      PassesStep(edits, active, reversion, m);
      AllFitConcat(edits, s.items, values, 0);
      NothingFits(values, |edits|);
      if !s.stuck && s.items != [] {
        var rest := Passes(reversion, reversion, m - |s.items|).items;
        SplitFit(edits, s.items, rest, edits + (s.items + rest), values, 0);
        if AllFit(s.items, values, |edits|) {
          PassesPredicted(reversion, reversion, values, edits + s.items, fuel);
        }
      }
    }
  }

  /** Every run of the engine is as the control flow predicts, or not finished; as
      many turns as there are values always show which. */
  lemma {:induction false} RunPredicted(format: seq<FormatDesc>, values: seq<IoValue>, fuel: nat)
    ensures var r, flow := RunFormat(format, values, fuel), ControlFlow(format, |values|);
      && (fuel >= |values| ==> ResultIs(r, flow, values))
      && (r == NotYet || ResultIs(r, flow, values))
  {
    hide HasData, RunPasses, Passes, Reversion, AllFit, Prepend;
    NothingFits(values, 0);
    if values == [] || HasData(format) {
      PassesPredicted(format, Reversion(format), values, [], fuel);
      PrependNothing(Passes(format, Reversion(format), |values|));
    }
  }

  /** The engine comes back on these values. */
  ghost predicate ComesBack(format: seq<FormatDesc>, values: seq<IoValue>) {
    exists fuel: nat :: RunFormat(format, values, fuel) != NotYet
  }

  lemma {:induction false} ComesBackExactly(format: seq<FormatDesc>, values: seq<IoValue>)
    ensures var flow := ControlFlow(format, |values|);
      ComesBack(format, values) <==> !(flow.Diverges? && AllFit(flow.items, values, 0))
  {
    hide RunFormat, ControlFlow;
    var flow := ControlFlow(format, |values|);
    RunPredicted(format, values, |values|);
    if fuel: nat :| RunFormat(format, values, fuel) != NotYet {
      RunPredicted(format, values, fuel);
    }
    if !(flow.Diverges? && AllFit(flow.items, values, 0)) {
      assert RunFormat(format, values, |values|) != NotYet;
    }
  }
}
