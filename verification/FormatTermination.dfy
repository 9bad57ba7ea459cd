/**
  Exactly when the engine comes back.  Each descriptor list has a fate that can
  be read off the format: it passes after a fixed list of items, it absorbs every
  item, or after a fixed list of items it loops forever.
 */
module FormatTermination {
  import opened Wrappers
  import opened FormatControl
  import opened FormatEngine
  import opened FormatPlanner
  import opened Repetition

  datatype Fate = Passing | Absorbing | Looping

  function ListFate(descs: seq<FormatDesc>): Fate {
    if descs == [] then Passing
    else if DescFate(descs[0]) == Passing then ListFate(descs[1..])
    else DescFate(descs[0])
  }

  function DescFate(d: FormatDesc): Fate {
    match d
    case Group(repeat, ds, _) => if repeat == 0 then Passing else ListFate(ds)
    case UnlimitedRepeat(ds) =>
      if ListFate(ds) == Looping || (ListFate(ds) == Passing && ListLead(ds) == []) then Looping else Absorbing
    case _ => Passing
  }

  /** The items met before a passing list ends, before a looping one starts to loop,
      or before an absorbing one starts to go round. */
  function ListLead(descs: seq<FormatDesc>): seq<FormatDesc> {
    if descs == [] then []
    else if DescFate(descs[0]) == Passing then DescLead(descs[0]) + ListLead(descs[1..])
    else DescLead(descs[0])
  }

  function DescLead(d: FormatDesc): seq<FormatDesc> {
    match d
    case Data(_) => [d]
    case DerivedType(_, _) => [d]
    case Group(repeat, ds, _) =>
      if repeat == 0 then [] else if ListFate(ds) == Passing then Copies(ListLead(ds), repeat) else ListLead(ds)
    case UnlimitedRepeat(ds) => if ListFate(ds) == Passing then [] else ListLead(ds)
    case _ => []
  }

  /** The items an absorbing list goes round. */
  function ListCycle(descs: seq<FormatDesc>): seq<FormatDesc> {
    if descs == [] then []
    else if DescFate(descs[0]) == Passing then ListCycle(descs[1..])
    else DescCycle(descs[0])
  }

  function DescCycle(d: FormatDesc): seq<FormatDesc> {
    match d
    case Group(repeat, ds, _) => if repeat == 0 then [] else ListCycle(ds)
    case UnlimitedRepeat(ds) => if ListFate(ds) == Passing then ListLead(ds) else ListCycle(ds)
    case _ => []
  }

  lemma {:induction false} CycleNonempty(descs: seq<FormatDesc>)
    requires ListFate(descs) == Absorbing
    ensures ListCycle(descs) != []
    decreases descs
  {
    if DescFate(descs[0]) == Passing {
      CycleNonempty(descs[1..]);
    } else {
      match descs[0] {
        case Group(repeat, ds, _) => CycleNonempty(ds);
        case UnlimitedRepeat(ds) =>
          if ListFate(ds) != Passing {
            CycleNonempty(ds);
          }
        case _ =>
      }
    }
  }

  /** What a scan with m values left does, by fate, lead and cycle. */
  ghost predicate Behaves(fate: Fate, lead: seq<FormatDesc>, cycle: seq<FormatDesc>, m: nat, s: Scan) {
    match fate
    case Passing => s == Scan(Prefix(lead, m), false)
    case Absorbing => cycle != [] && s == Scan(Cycled(lead, cycle, m), false)
    case Looping => s == Scan(Prefix(lead, m), m > |lead|)
  }

  /** Something that passes, followed by a list. */
  lemma {:induction false} PassThen(lead: seq<FormatDesc>, s: Scan,
                                    fate: Fate, lead': seq<FormatDesc>, cycle: seq<FormatDesc>, m: nat, s': Scan)
    requires s == Scan(Prefix(lead, m), false) && Behaves(fate, lead', cycle, m - |s.items|, s')
    ensures Behaves(fate, lead + lead', cycle, m, Then(s, s'))
  {
    hide Cycled;
    PrefixConcat(lead, lead', m);
    PrefixNone(lead');
    assert Prefix(lead, m) + [] == Prefix(lead, m);
    if fate == Absorbing {
      CycledConcat(lead, lead', cycle, m);
      CycledLength(lead', cycle, m - |s.items|);
    }
  }

  /** Something that does not pass leaves nothing to what follows. */
  lemma {:induction false} StopHere(fate: Fate, lead: seq<FormatDesc>, cycle: seq<FormatDesc>, m: nat, s: Scan)
    requires fate != Passing && Behaves(fate, lead, cycle, m, s)
    ensures s.stuck || |s.items| == m
    ensures Then(s, Scan([], false)) == Scan(s.items, false)
  {
    hide Cycled;
    assert s.items + [] == s.items;
    if fate == Absorbing {
      CycledLength(lead, cycle, m);
    }
  }

  lemma {:induction false} NoValues(fate: Fate, lead: seq<FormatDesc>, cycle: seq<FormatDesc>)
    requires fate == Absorbing ==> cycle != []
    ensures Behaves(fate, lead, cycle, 0, Scan([], false))
  {
    PrefixNone(lead);
    PrefixNone(lead + Copies(cycle, 0));
  }

  lemma {:induction false} ScanFate(descs: seq<FormatDesc>, m: nat)
    ensures Behaves(ListFate(descs), ListLead(descs), ListCycle(descs), m, ScanList(descs, m))
    decreases descs, 0, 0
  {
    hide DescFate, DescLead, DescCycle, ScanDesc, Cycled, Prefix;
    ScanNothing(descs, m);
    if m == 0 {
      if ListFate(descs) == Absorbing {
        CycleNonempty(descs);
      }
      NoValues(ListFate(descs), ListLead(descs), ListCycle(descs));
    } else if descs == [] {
      EmptyPrefix(m);
    } else {
      var d, rest := descs[0], descs[1..];
      ScanDescFate(d, m);
      var s := ScanDesc(d, m);
      if DescFate(d) == Passing {
        ScanFate(rest, m - |s.items|);
        PassThen(DescLead(d), s, ListFate(rest), ListLead(rest), ListCycle(rest), m, ScanList(rest, m - |s.items|));
      } else {
        StopHere(DescFate(d), DescLead(d), DescCycle(d), m, s);
        ScanNothing(rest, m - |s.items|);
      }
    }
  }

  lemma {:induction false} EmptyPrefix(m: nat)
    ensures Prefix<FormatDesc>([], m) == []
  {
  }

  lemma {:induction false} ScanDescFate(d: FormatDesc, m: nat)
    requires m > 0
    ensures Behaves(DescFate(d), DescLead(d), DescCycle(d), m, ScanDesc(d, m))
    decreases d, 0, 0
  {
    hide Cycled;
    match d {
      case Group(repeat, ds, _) => RepeatFate(ds, repeat, m);
      case UnlimitedRepeat(ds) => UnlimitedFate(ds, m);
      case _ =>
    }
  }

  lemma {:induction false} RepeatFate(ds: seq<FormatDesc>, repeat: nat, m: nat)
    ensures ListFate(ds) == Passing ==>
      ScanRepeat(ds, repeat, m) == Scan(Prefix(Copies(ListLead(ds), repeat), m), false)
    ensures ListFate(ds) != Passing && repeat > 0 ==>
      Behaves(ListFate(ds), ListLead(ds), ListCycle(ds), m, ScanRepeat(ds, repeat, m))
    decreases ds, 1, repeat
  {
    hide ListFate, ListLead, ListCycle, ScanList, Cycled, Prefix, Behaves;
    if repeat == 0 {
      EmptyPrefix(m);
    } else if m == 0 {
      PrefixNone(Copies(ListLead(ds), repeat));
      if ListFate(ds) == Absorbing {
        CycleNonempty(ds);
      }
      NoValues(ListFate(ds), ListLead(ds), ListCycle(ds));
    } else {
      ScanFate(ds, m);
      var s := ScanList(ds, m);
      var rest := ScanRepeat(ds, repeat - 1, m - |s.items|);
      if ListFate(ds) == Passing {
        PassingScan(ListLead(ds), ListCycle(ds), m, s);
        RepeatFate(ds, repeat - 1, m - |s.items|);
        PassAgain(ListLead(ds), s, Copies(ListLead(ds), repeat - 1), m, rest);
      } else {
        StopHere(ListFate(ds), ListLead(ds), ListCycle(ds), m, s);
      }
    }
  }

  lemma {:induction false} PassingScan(lead: seq<FormatDesc>, cycle: seq<FormatDesc>, m: nat, s: Scan)
    requires Behaves(Passing, lead, cycle, m, s)
    ensures s == Scan(Prefix(lead, m), false)
  {
  }

  lemma {:induction false} PassAgain(lead: seq<FormatDesc>, s: Scan, lead': seq<FormatDesc>, m: nat, s': Scan)
    requires s == Scan(Prefix(lead, m), false) && s' == Scan(Prefix(lead', m - |s.items|), false)
    ensures Then(s, s') == Scan(Prefix(lead + lead', m), false)
  {
    PassThen(lead, s, Passing, lead', [], m, s');
  }

  lemma {:induction false} UnlimitedFate(ds: seq<FormatDesc>, m: nat)
    ensures Behaves(DescFate(UnlimitedRepeat(ds)), DescLead(UnlimitedRepeat(ds)), DescCycle(UnlimitedRepeat(ds)), m,
                    ScanUnlimited(ds, m))
    decreases ds, 1, m
  {
    hide ListFate, ListLead, ListCycle, ScanList, Cycled, Prefix;
    var d := UnlimitedRepeat(ds);
    if m == 0 {
      if DescFate(d) == Absorbing {
        UnlimitedCycle(ds);
      }
      NoValues(DescFate(d), DescLead(d), DescCycle(d));
    } else {
      ScanFate(ds, m);
      var s := ScanList(ds, m);
      if ListFate(ds) == Passing {
        BarrenOrNot(ListLead(ds), m, s);
        if s.items != [] {
          UnlimitedFate(ds, m - |s.items|);
          CycledTurn(ListLead(ds), m);
          CycledLength([], ListLead(ds), 0);
          TurnEnds(ListLead(ds), m);
          assert s.items + [] == s.items;
        }
      } else {
        StopHere(ListFate(ds), ListLead(ds), ListCycle(ds), m, s);
        if ListFate(ds) == Absorbing {
          CycledLength(ListLead(ds), ListCycle(ds), m);
        }
      }
    }
  }

  lemma {:induction false} UnlimitedCycle(ds: seq<FormatDesc>)
    requires DescFate(UnlimitedRepeat(ds)) == Absorbing
    ensures DescCycle(UnlimitedRepeat(ds)) != []
  {
    if ListFate(ds) != Passing {
      CycleNonempty(ds);
    }
  }

  lemma {:induction false} BarrenOrNot(lead: seq<FormatDesc>, m: nat, s: Scan)
    requires m > 0 && s == Scan(Prefix(lead, m), false)
    ensures s.items == [] <==> lead == []
  {
  }

  lemma {:induction false} TurnEnds(lead: seq<FormatDesc>, m: nat)
    ensures |lead| >= m ==> |Prefix(lead, m)| == m
    ensures |lead| < m ==> Prefix(lead, m) == lead
    ensures Prefix<FormatDesc>([], m) == []
  {
  }

  lemma {:induction false} SuffixPasses(descs: seq<FormatDesc>, k: nat)
    requires k <= |descs| && ListFate(descs) == Passing
    ensures ListFate(descs[k..]) == Passing
    decreases k
  {
    if k > 0 {
      SuffixPasses(descs[1..], k - 1);
      assert descs[1..][k - 1..] == descs[k..];
    } else {
      assert descs[0..] == descs;
    }
  }

  /** Reversion to a passing list goes round its lead. */
  lemma {:induction false} PassesCycle(reversion: seq<FormatDesc>, m: nat)
    requires ListFate(reversion) == Passing && m > 0
    ensures Passes(reversion, reversion, m)
         == if ListLead(reversion) == [] then Invalid([]) else Finished(Cycled([], ListLead(reversion), m))
    decreases m
  {
    hide ListFate, ListLead, ScanList, Cycled, Prefix;
    var lead := ListLead(reversion);
    ScanFate(reversion, m);
    var s := ScanList(reversion, m);
    BarrenOrNot(lead, m, s);
    if s.items != [] {
      CycledTurn(lead, m);
      TurnEnds(lead, m);
      assert s.items + [] == s.items;
      if |s.items| < m {
        PassesCycle(reversion, m - |s.items|);
      }
    }
  }

  /** Which descriptors n values meet, in closed form: the format's lead, and then
      round and round the part reverted to, or the unlimited group. */
  function Flow(format: seq<FormatDesc>, n: nat): Outcome {
    var lead, again := ListLead(format), ListLead(Reversion(format));
    if n == 0 then Finished([])
    else if !HasData(format) then Invalid([])
    else
      match ListFate(format)
      case Absorbing => Finished(Cycled(lead, ListCycle(format), n))
      case Looping => if n > |lead| then Diverges(lead) else Finished(lead[..n])
      case Passing =>
        if n <= |lead| then Finished(lead[..n])
        else if lead == [] || again == [] then Invalid(lead)
        else Finished(Cycled(lead, again, n))
  }

  lemma {:induction false} FlowExactly(format: seq<FormatDesc>, n: nat)
    ensures ControlFlow(format, n) == Flow(format, n)
  {
    hide ScanList, HasData, Reversion, ListFate, ListLead, ListCycle, Cycled;
    var reversion := Reversion(format);
    if n > 0 && HasData(format) {
      ScanFate(format, n);
      var s, lead := ScanList(format, n), ListLead(format);
      assert s.items + [] == s.items;
      assert Passes(reversion, reversion, 0) == Finished([]);
      if ListFate(format) == Passing {
        if |lead| < n {
          SuffixPasses(format, |format| - |reversion|);
          PassesCycle(reversion, n - |lead|);
          if ListLead(reversion) != [] {
            CycledLead(lead, ListLead(reversion), n);
          }
        }
      } else if ListFate(format) == Absorbing {
        CycledLength(lead, ListCycle(format), n);
      }
    }
  }

  lemma {:induction false} CycledLead(lead: seq<FormatDesc>, cycle: seq<FormatDesc>, n: nat)
    requires cycle != [] && |lead| < n
    ensures Cycled(lead, cycle, n) == lead + Cycled([], cycle, n - |lead|)
  {
    CycledConcat(lead, [], cycle, n);
    assert lead + [] == lead;
  }

  /** Item k of a format that passes: from its lead, and then the descriptor of the
      part reverted to whose turn it is. */
  lemma {:induction false} RevertedItem(format: seq<FormatDesc>, n: nat, k: nat)
    requires HasData(format) && ListFate(format) == Passing
    requires ListLead(format) != [] && ListLead(Reversion(format)) != [] && k < n
    ensures var lead, again := ListLead(format), ListLead(Reversion(format));
      var flow := ControlFlow(format, n);
      && flow.Finished? && |flow.items| == n
      && flow.items[k] == if k < |lead| then lead[k] else again[(k - |lead|) % |again|]
  {
    hide ListLead, Reversion, HasData, ListFate, ControlFlow;
    FlowExactly(format, n);
    CycledAt(ListLead(format), ListLead(Reversion(format)), n, k);
    if n <= |ListLead(format)| {
      assert ListLead(format)[..n][k] == ListLead(format)[k];
    }
  }

  /** (I5, (F8.2)) with three values: the third goes with the group again. */
  lemma {:induction false} GroupIsReverted(a: DataEdit, b: DataEdit)
    ensures ControlFlow([Data(a), Group(1, [Data(b)], true)], 3) == Finished([Data(a), Data(b), Data(b)])
  {
    var group := Group(1, [Data(b)], true);
    var format := [Data(a), group];
    assert DescHasData(format[0]);
    SingleItem(b);
    assert format[1..] == [group];
    assert ListLead(format) == [Data(a), Data(b)] && ListFate(format) == Passing;
    assert Reversion(format) == [group];
    hide ControlFlow, ListLead, ListFate, Reversion, HasData;
    RevertedItem(format, 3, 0);
    RevertedItem(format, 3, 1);
    RevertedItem(format, 3, 2);
    var items := ControlFlow(format, 3).items;
    assert items == [Data(a), Data(b), Data(b)];
  }

  lemma {:induction false} SingleItem(b: DataEdit)
    ensures var group := Group(1, [Data(b)], true);
      ListLead([group]) == [Data(b)] && ListFate([group]) == Passing && ListFate([]) == Passing
  {
    var group := Group(1, [Data(b)], true);
    assert [Data(b)][1..] == [] && [group][1..] == [];
    assert DescFate([Data(b)][0]) == Passing && ListFate([Data(b)]) == Passing;
    assert ListLead([Data(b)]) == [Data(b)] + ListLead([]) == [Data(b)];
    assert Copies([Data(b)], 1) == [Data(b)] + Copies([Data(b)], 0);
    assert DescLead(group) == [Data(b)];
    assert ListLead([group]) == DescLead(group) + ListLead([]);
  }

  /** Control for n values never ends exactly when the format has data, its fate is
      to loop, and there are more values than items before the loop; those items
      are its lead. */
  lemma {:induction false} DivergesExactly(format: seq<FormatDesc>, n: nat)
    ensures ControlFlow(format, n).Diverges? <==>
      HasData(format) && ListFate(format) == Looping && n > |ListLead(format)|
    ensures ControlFlow(format, n).Diverges? ==> ControlFlow(format, n).items == ListLead(format)
  {
    hide ControlFlow;
    FlowExactly(format, n);
  }

  /** The format loops on these values: it has data, its fate is to loop, there are
      more values than items before the loop, and the values met there all fit. */
  predicate LoopsOn(format: seq<FormatDesc>, values: seq<IoValue>) {
    && HasData(format) && ListFate(format) == Looping
    && |values| > |ListLead(format)| && AllFit(ListLead(format), values, 0)
  }

  /** The engine comes back on every other format and value list, and on no such one. */
  lemma {:induction false} LoopsExactly(format: seq<FormatDesc>, values: seq<IoValue>)
    ensures ComesBack(format, values) <==> !LoopsOn(format, values)
  {
    hide ComesBack, ControlFlow, HasData, ListFate, ListLead, AllFit;
    DivergesExactly(format, |values|);
    ComesBackExactly(format, values);
  }

  /** Planner and engine: on every value list that fits its plan the engine writes
      with exactly the planned descriptors; if the values control meets all fit,
      both report InvalidFormat or neither does. */
  lemma {:induction false} AgreementExactly(format: seq<FormatDesc>, values: seq<IoValue>)
    requires !(HasData(format) && ListFate(format) == Looping && |values| > |ListLead(format)|)
    ensures var plan, r := Plan(format, |values|), RunFormat(format, values, |values|);
      && r != NotYet
      && (plan.Some? ==> |plan.value| == |values|)
      && (plan.Some? && AllFit(plan.value, values, 0) ==> r == Wrote(plan.value))
      && (plan.Some? && !AllFit(plan.value, values, 0) ==> r == Failed(TypeMismatch))
      && (plan.None? ==> r.Failed?)
      && (r == Failed(InvalidFormat) ==> plan.None?)
      && (AllFit(ControlFlow(format, |values|).items, values, 0) ==> (plan.None? <==> r == Failed(InvalidFormat)))
  {
    hide ControlFlow, HasData, ListFate, ListLead, AllFit, Plan, RunFormat;
    DivergesExactly(format, |values|);
    PlannerMatchesEngine(format, |values|);
    RunPredicted(format, values, |values|);
  }

  /** The same, without fates, for formats whose every unlimited group holds a data
      descriptor. */
  lemma {:induction false} ProductiveAgreement(format: seq<FormatDesc>, values: seq<IoValue>)
    requires Productive(format)
    ensures ComesBack(format, values)
    ensures var plan, r := Plan(format, |values|), RunFormat(format, values, |values|);
      && (plan.Some? ==> |plan.value| == |values|)
      && (plan.Some? && AllFit(plan.value, values, 0) ==> r == Wrote(plan.value))
      && (plan.Some? && !AllFit(plan.value, values, 0) ==> r == Failed(TypeMismatch))
      && (AllFit(ControlFlow(format, |values|).items, values, 0) ==> (plan.None? <==> r == Failed(InvalidFormat)))
  {
    hide ControlFlow, HasData, ListFate, ListLead, AllFit, Plan, RunFormat, Productive;
    ProductiveFlow(format, |values|);
    DivergesExactly(format, |values|);
    AgreementExactly(format, values);
  }

  // ---- Formats on which planner and engine part ----

  /** Any format that runs into a barren loop keeps the engine running whatever
      fuel it has. */
  lemma {:induction false} NeverDone(format: seq<FormatDesc>, values: seq<IoValue>, fuel: nat)
    requires LoopsOn(format, values)
    ensures RunFormat(format, values, fuel) == NotYet
  {
    hide LoopsOn, RunFormat;
    LoopsExactly(format, values);
    if RunFormat(format, values, fuel) != NotYet {
      assert false;
    }
  }

  lemma {:induction false} BarrenLoop(text: string)
    ensures var loop := UnlimitedRepeat([Control(LiteralString(text))]);
      DescFate(loop) == Looping && DescLead(loop) == []
  {
    var body := [Control(LiteralString(text))];
    assert body[1..] == [] && ListFate([]) == Passing && ListLead([]) == [];
    assert DescFate(body[0]) == Passing && DescLead(body[0]) == [];
    assert ListFate(body) == Passing && ListLead(body) == [] + [];
  }

  /** (I5, *('x')) with two integers: the engine writes the first and never comes
      back, the planner reports InvalidFormat. */
  lemma {:induction false} TrailingLoopDiverges(text: string, width: nat, fuel: nat)
    ensures var format := [Data(IntegerI(width, None)), UnlimitedRepeat([Control(LiteralString(text))])];
      RunFormat(format, [IntegerValue, IntegerValue], fuel) == NotYet && Plan(format, 2) == None
  {
    var d, loop := Data(IntegerI(width, None)), UnlimitedRepeat([Control(LiteralString(text))]);
    var format, values := [d, loop], [IntegerValue, IntegerValue];
    BarrenLoop(text);
    assert format[1..] == [loop] && DescHasData(format[0]);
    assert ListFate(format) == Looping && ListLead(format) == [d];
    assert LoopsOn(format, values);
    NeverDone(format, values, fuel);
    DatalessLoopSpins(text, 1);
    assert PlanList([loop], 1).stuck;
    assert PlanDesc(d, 2) == Scan([d], false);
  }

  /** ((*('x')), I5) with one integer: the planner skips the dataless group and
      names I5, while the engine never reaches it. */
  lemma {:induction false} HiddenLoopDiverges(text: string, width: nat, fuel: nat)
    ensures var d := Data(IntegerI(width, None));
      var format := [Group(1, [UnlimitedRepeat([Control(LiteralString(text))])], true), d];
      RunFormat(format, [IntegerValue], fuel) == NotYet && Plan(format, 1) == Some([d])
  {
    var d, loop := Data(IntegerI(width, None)), UnlimitedRepeat([Control(LiteralString(text))]);
    var format, values := [Group(1, [loop], true), d], [IntegerValue];
    BarrenLoop(text);
    assert DescHasData(format[1]);
    assert ListFate([loop]) == Looping && ListLead([loop]) == [];
    assert LoopsOn(format, values);
    NeverDone(format, values, fuel);
    HiddenLoopPlanned(text, IntegerI(width, None));
  }

  lemma {:induction false} HiddenLoopPlanned(text: string, edit: DataEdit)
    ensures var format := [Group(1, [UnlimitedRepeat([Control(LiteralString(text))])], true), Data(edit)];
      PlanList(format, 1) == Scan([Data(edit)], false)
  {
    var d, loop := Data(edit), UnlimitedRepeat([Control(LiteralString(text))]);
    var format := [Group(1, [loop], true), d];
    DatalessLoopSpins(text, 1);
    assert !DescHasData([loop][0]);
    assert PlanDesc(format[0], 1) == Scan([], false);
    assert format[1..] == [d] && [d][1..] == [];
    assert PlanList([d], 1) == Scan([d], false);
    assert [] + [d] == [d];
  }

  /** (I5, *('x')) with two reals, or (DT, *('x')) with two values: the misfit ends
      the run before the loop is reached. */
  lemma {:induction false} MisfitComesFirst(text: string, d: FormatDesc, v: IoValue, w: IoValue)
    requires (d.Data? || d.DerivedType?) && !Fits(d, v)
    ensures RunFormat([d, UnlimitedRepeat([Control(LiteralString(text))])], [v, w], 2) == Failed(TypeMismatch)
  {
    var format, values := [d, UnlimitedRepeat([Control(LiteralString(text))])], [v, w];
    assert DescHasData(format[0]);
    assert RunDesc(d, values, 0, 2) == Mismatch;
    assert RunList(format, values, 0, 2) == Mismatch;
  }
}
