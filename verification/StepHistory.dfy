/** The checker of a speculative-decoding run: one pass over the recorded scheduler steps,
    and what its silence says about the whole run. */
module StepHistory {
  import opened Basics

  // ------------------------------------------------------------- recorded input

  /** Dispatch counters of one kernel family during one step. */
  datatype Section = Section(active: int, fallback: int, reasons: map<string, int>)

  datatype Dispatch = Dispatch(native: Section, coefficient: Section, projection: Section)

  /** A field that may be missing, or hold something else than a number. */
  datatype Count = Absent | NotInt | Int(n: int)

  /** One step as recorded. None stands for a missing or ill-typed field, which the checker treats alike. The
      later frontier is only compared, so any value equal to an integer counts as that integer there. */
  datatype Step = Step(prefix: Option<seq<int>>, tokens: Option<seq<int>>, count: Count, positions: Option<seq<int>>,
                       computedBefore: Option<int>, computedAfter: Count, decode: bool, drafts: Option<int>,
                       wall: Option<real>, dispatch: Dispatch)

  datatype Event = Event(prefixErrors: bool, fidelityFailed: bool)

  datatype Request = Request(measure: bool, desiredK: int, samplingMatches: bool, steps: Option<seq<Step>>,
                             output: Option<seq<int>>, events: seq<Event>)

  /** Which rowwise controls are qualified for packets of two to four positions. */
  datatype Controls = Controls(native: bool, mhc: bool)

  datatype Fault =
    | SamplingProtocol
    | NoSteps
    | HistoryMismatch(step: nat)
    | InvalidPositions(step: nat)
    | Nonconsecutive(step: nat)
    | TooManyTokens(step: nat)
    | WrongAnchor(step: nat)
    | StartDiffers(step: nat)
    | DecodeWidth(step: nat)
    | RollbackMismatch(step: nat)
    | StreamOrCap(step: nat)
    | InvalidWall(step: nat)
    | DispatchMismatch(step: nat, family: nat)
    | FinalStream
    | Bridge
    | NothingEligible

  datatype Selected = Selected(step: nat, position: int, width: int, newTokens: nat)

  // ----------------------------------------------------------- small helpers

  predicate Ints(value: Option<seq<int>>) {
    value.Some? && forall i :: 0 <= i < |value.value| ==> 0 <= value.value[i]
  }

  function Take(s: seq<int>, n: nat): seq<int> {
    if n <= |s| then s[..n] else s
  }

  /** start, start + 1, ..., n numbers in all. */
  predicate Consecutive(xs: seq<int>) {
    forall i :: 0 <= i < |xs| ==> xs[i] == xs[0] + i
  }

  function Cap(r: Request): nat {
    if r.measure then 32 else 64
  }

  function ActiveExpected(count: int, rowwise: bool): bool {
    count == 1 || (rowwise && 1 < count <= 4)
  }

  /** Active path: it ran, nothing fell back. Block fallback: only that, and only for its reason. */
  predicate SectionClean(s: Section, count: int, rowwise: bool) {
    if ActiveExpected(count, rowwise) then
      0 < s.active && s.fallback == 0 && forall key :: key in s.reasons ==> s.reasons[key] == 0
    else
      s.active == 0 && 0 < s.fallback &&
      (if "tokens_not_1" in s.reasons then s.reasons["tokens_not_1"] else 0) == s.fallback
  }

  predicate DispatchClean(d: Dispatch, count: int, ctl: Controls) {
    SectionClean(d.native, count, ctl.native) && SectionClean(d.coefficient, count, ctl.mhc) &&
    SectionClean(d.projection, count, ctl.mhc)
  }

  // ------------------------------------------------- what a clean step looks like

  /** An engine maintenance call: no positions, no tokens. */
  predicate Maintenance(s: Step) {
    s.count.Absent? && s.tokens == Some([])
  }

  predicate Scheduled(s: Step) {
    s.count.Int? && 1 <= s.count.n && Ints(s.positions) && |s.positions.value| == s.count.n
  }

  /** Rejected drafts, as derived from what was emitted. */
  function Rejected(s: Step): int
    requires s.tokens.Some?
  {
    if s.drafts.Some? then Max(0, s.drafts.value - Max(|s.tokens.value| - 1, 0)) else 0
  }

  /** Positions, anchor, scheduler frontiers and widths of a scheduled step. */
  predicate PositionsClean(s: Step, emitted: seq<int>, promptLen: nat)
    requires Scheduled(s) && s.tokens.Some?
  {
    var p, n, tokens := s.positions.value, s.count.n, s.tokens.value;
    && Consecutive(p)
    && |tokens| <= n
    && (emitted != [] ==> p[0] == promptLen + |emitted| - 1)
    && s.computedBefore == Some(p[0])
    && (s.decode ==> s.drafts == Some(n - 1))
    && (s.computedAfter == Absent || s.computedAfter == Int(p[n - 1] + 1 - Rejected(s)))
  }

  /** Everything the checker demands of one step, given what was emitted before it. */
  predicate StepClean(s: Step, emitted: seq<int>, promptLen: nat, oracle: seq<int>, cap: nat, ctl: Controls) {
    && s.prefix == Some(emitted) && Ints(s.tokens)
    && (Maintenance(s) ||
        (&& Scheduled(s)
         && PositionsClean(s, emitted, promptLen)
         && (var after := emitted + s.tokens.value; after == Take(oracle, |after|) && |after| <= cap)
         && s.wall.Some? && 0.0 < s.wall.value
         && (s.decode && s.positions.value[0] >= promptLen + 7 ==> DispatchClean(s.dispatch, s.count.n, ctl))))
  }

  function Emits(s: Step): seq<int> {
    if s.tokens.Some? then s.tokens.value else []
  }

  /** All tokens of the first i steps. */
  function Emitted(steps: seq<Step>, i: nat): seq<int>
    requires i <= |steps|
  {
    if i == 0 then [] else Emitted(steps, i - 1) + Emits(steps[i - 1])
  }

  ghost predicate StepsClean(steps: seq<Step>, n: nat, promptLen: nat, oracle: seq<int>, cap: nat, ctl: Controls)
    requires n <= |steps|
  {
    forall i :: 0 <= i < n ==> StepClean(steps[i], Emitted(steps, i), promptLen, oracle, cap, ctl)
  }

  /** A full-width decode packet past the activation point that keeps inside the cap. */
  predicate Eligible(s: Step, promptLen: nat, width: int, cap: nat)
    requires Scheduled(s) && s.prefix.Some? && s.tokens.Some?
  {
    s.decode && s.positions.value[0] >= promptLen + 7 && s.count.n == width && |s.tokens.value| == width &&
    |s.prefix.value| + width <= cap
  }

  predicate EligibleStep(s: Step, promptLen: nat, width: int, cap: nat) {
    s.prefix.Some? && s.tokens.Some? && !Maintenance(s) && Scheduled(s) && Eligible(s, promptLen, width, cap)
  }

  function Pick(s: Step, i: nat): Selected
    requires Scheduled(s) && s.tokens.Some?
  {
    Selected(i, s.positions.value[0], s.count.n, |s.tokens.value|)
  }

  /** The eligible steps among the first n, in order. */
  function Selection(steps: seq<Step>, n: nat, promptLen: nat, width: int, cap: nat): seq<Selected>
    requires n <= |steps|
  {
    if n == 0 then [] else
      Selection(steps, n - 1, promptLen, width, cap)
      + (if EligibleStep(steps[n - 1], promptLen, width, cap) then [Pick(steps[n - 1], n - 1)] else [])
  }

  predicate EventsClean(events: seq<Event>) {
    events != [] && forall i :: 0 <= i < |events| ==> !events[i].prefixErrors && !events[i].fidelityFailed
  }

  /** The run as a whole. */
  ghost predicate HistoryClean(r: Request, promptLen: nat, oracle: seq<int>, ctl: Controls) {
    && r.samplingMatches
    && r.steps.Some? && r.steps.value != []
    && StepsClean(r.steps.value, |r.steps.value|, promptLen, oracle, Cap(r), ctl)
    && r.output == Some(Emitted(r.steps.value, |r.steps.value|))
    && Emitted(r.steps.value, |r.steps.value|) == Take(oracle, Cap(r))
    && EventsClean(r.events)
    && Selection(r.steps.value, |r.steps.value|, promptLen, r.desiredK + 1, Cap(r)) != []
  }

  // ----------------------------------------------------------------- the checker

  /** What each position fault accuses a scheduled step of. */
  predicate Accuses(f: Fault, s: Step, i: nat, promptLen: nat)
    requires Scheduled(s) && s.prefix.Some? && s.tokens.Some?
  {
    var p, n, tokens, prefix := s.positions.value, s.count.n, s.tokens.value, s.prefix.value;
    match f
    case Nonconsecutive(k) => k == i && !Consecutive(p)
    case TooManyTokens(k) => k == i && |tokens| > n
    case WrongAnchor(k) => k == i && prefix != [] && p[0] != promptLen + |prefix| - 1
    case StartDiffers(k) => k == i && s.computedBefore != Some(p[0])
    case DecodeWidth(k) => k == i && s.decode && s.drafts != Some(n - 1)
    case RollbackMismatch(k) =>
      k == i && s.computedAfter != Absent && s.computedAfter != Int(p[n - 1] + 1 - Rejected(s))
    case _ => false
  }

  predicate Placement(f: Fault) {
    f.Nonconsecutive? || f.TooManyTokens? || f.WrongAnchor?
  }

  /** Order, number and anchor of the positions. */
  method CheckPlacement(s: Step, i: nat, promptLen: nat) returns (faults: seq<Fault>)
    requires Scheduled(s) && s.prefix.Some? && s.tokens.Some?
    ensures forall f :: f in faults <==> Placement(f) && Accuses(f, s, i, promptLen)
  {
    hide Consecutive;
    var p, n, tokens, prefix := s.positions.value, s.count.n, s.tokens.value, s.prefix.value;
    faults := [];
    if !Consecutive(p) {
      faults := faults + [Nonconsecutive(i)];
    }
    if |tokens| > n {
      faults := faults + [TooManyTokens(i)];
    }
    if prefix != [] && p[0] != promptLen + |prefix| - 1 {
      faults := faults + [WrongAnchor(i)];
    }
  }

  /** Where the scheduler says the step starts, how wide it is, and where it leaves the frontier. */
  method CheckFrontier(s: Step, i: nat, promptLen: nat) returns (faults: seq<Fault>)
    requires Scheduled(s) && s.prefix.Some? && s.tokens.Some?
    ensures forall f :: f in faults <==> !Placement(f) && Accuses(f, s, i, promptLen)
  {
    hide Consecutive;
    var p, n, tokens := s.positions.value, s.count.n, s.tokens.value;
    faults := [];
    if s.computedBefore != Some(p[0]) {
      faults := faults + [StartDiffers(i)];
    }
    if s.decode && (s.drafts.None? || s.drafts.value != n - 1) {
      faults := faults + [DecodeWidth(i)];
    }
    if !s.computedAfter.Absent? {
      var rejected := if s.drafts.Some? then Max(0, s.drafts.value - Max(|tokens| - 1, 0)) else 0;
      if s.computedAfter != Int(p[n - 1] + 1 - rejected) {
        faults := faults + [RollbackMismatch(i)];
      }
    }
  }

  /** Position faults of a scheduled step, in the order they are reported: each deserved one, no other. */
  method CheckPositions(s: Step, i: nat, promptLen: nat) returns (faults: seq<Fault>)
    requires Scheduled(s) && s.prefix.Some? && s.tokens.Some?
    ensures faults == [] <==> PositionsClean(s, s.prefix.value, promptLen)
    ensures forall f :: f in faults <==> Accuses(f, s, i, promptLen)
  {
    hide Scheduled;
    var placement := CheckPlacement(s, i, promptLen);
    var frontier := CheckFrontier(s, i, promptLen);
    faults := placement + frontier;
    NoneAccuses(s, i, promptLen);
    assert faults == [] <==> forall f :: f !in faults by {
      assert faults != [] ==> faults[0] in faults;
    }
  }

  /** The six accusations are together what a step must be clean of. */
  lemma NoneAccuses(s: Step, i: nat, promptLen: nat)
    requires Scheduled(s) && s.prefix.Some? && s.tokens.Some?
    ensures PositionsClean(s, s.prefix.value, promptLen) <==> forall f :: !Accuses(f, s, i, promptLen)
  {
    hide Consecutive, Rejected;
    if forall f :: !Accuses(f, s, i, promptLen) {
      assert !Accuses(Nonconsecutive(i), s, i, promptLen) && !Accuses(TooManyTokens(i), s, i, promptLen);
      assert !Accuses(WrongAnchor(i), s, i, promptLen) && !Accuses(StartDiffers(i), s, i, promptLen);
      assert !Accuses(DecodeWidth(i), s, i, promptLen) && !Accuses(RollbackMismatch(i), s, i, promptLen);
    }
  }

  /** Dispatch faults of a decode packet past the activation point. */
  method CheckDispatch(s: Step, i: nat, ctl: Controls) returns (faults: seq<Fault>)
    requires Scheduled(s)
    ensures faults == [] <==> DispatchClean(s.dispatch, s.count.n, ctl)
    ensures forall f :: f in faults ==> f.DispatchMismatch? && f.step == i && f.family < 3
    ensures DispatchMismatch(i, 0) in faults <==> !SectionClean(s.dispatch.native, s.count.n, ctl.native)
    ensures DispatchMismatch(i, 1) in faults <==> !SectionClean(s.dispatch.coefficient, s.count.n, ctl.mhc)
    ensures DispatchMismatch(i, 2) in faults <==> !SectionClean(s.dispatch.projection, s.count.n, ctl.mhc)
  {
    var sections := [s.dispatch.native, s.dispatch.coefficient, s.dispatch.projection];
    var rowwise := [ctl.native, ctl.mhc, ctl.mhc];
    faults := [];
    for k := 0 to 3
      invariant faults == [] <==> forall j :: 0 <= j < k ==> SectionClean(sections[j], s.count.n, rowwise[j])
      invariant forall f :: f in faults ==> f.DispatchMismatch? && f.step == i && f.family < k
      invariant forall j: nat :: j < k ==>
                  (DispatchMismatch(i, j) in faults <==> !SectionClean(sections[j], s.count.n, rowwise[j]))
    {
      if !SectionClean(sections[k], s.count.n, rowwise[k]) {
        faults := faults + [DispatchMismatch(i, k)];
      }
    }
    assert sections[0] == s.dispatch.native && sections[1] == s.dispatch.coefficient &&
           sections[2] == s.dispatch.projection;
  }

  /** One step of the scan: its faults, the tokens it adds to the history, and whether it is
      selected for measurement. */
  method CheckStep(s: Step, i: nat, emitted: seq<int>, promptLen: nat, oracle: seq<int>, cap: nat, width: int,
                   ctl: Controls)
    returns (faults: seq<Fault>, after: seq<int>, picked: seq<Selected>)
    ensures faults == [] <==> StepClean(s, emitted, promptLen, oracle, cap, ctl)
    ensures after ==
            if s.prefix == Some(emitted) && Ints(s.tokens) && Ints(s.positions) && s.positions.value != []
               && s.count == Int(|s.positions.value|)
            then emitted + s.tokens.value else emitted
    ensures HistoryMismatch(i) in faults <==> s.prefix != Some(emitted) || !Ints(s.tokens)
    ensures InvalidPositions(i) in faults <==>
              s.prefix == Some(emitted) && Ints(s.tokens) && !Maintenance(s) && !Scheduled(s)
    ensures StreamOrCap(i) in faults <==>
              s.prefix == Some(emitted) && Ints(s.tokens) && Scheduled(s) && !(after <= oracle && |after| <= cap)
    ensures InvalidWall(i) in faults <==>
              s.prefix == Some(emitted) && Ints(s.tokens) && Scheduled(s) && (s.wall.None? || s.wall.value <= 0.0)
    ensures faults == [] ==> picked == if EligibleStep(s, promptLen, width, cap) then [Pick(s, i)] else []
  {
    faults, after, picked := [], emitted, [];
    if s.prefix != Some(emitted) || !Ints(s.tokens) {
      return [HistoryMismatch(i)], emitted, [];
    }
    if s.count.Absent? && s.tokens.value == [] {
      return;
    }
    if !Scheduled(s) {
      return [InvalidPositions(i)], emitted, [];
    }
    faults := CheckPositions(s, i, promptLen);
    after := emitted + s.tokens.value;
    if after != Take(oracle, |after|) || |after| > cap {
      faults := faults + [StreamOrCap(i)];
    }
    if s.wall.None? || s.wall.value <= 0.0 {
      return faults + [InvalidWall(i)], after, [];
    }
    if s.decode && s.positions.value[0] >= promptLen + 7 {
      var more := CheckDispatch(s, i, ctl);
      faults := faults + more;
    }
    if Eligible(s, promptLen, width, cap) {
      picked := [Pick(s, i)];
    }
  }

  lemma OneMoreStep(steps: seq<Step>, n: nat, promptLen: nat, oracle: seq<int>, cap: nat, ctl: Controls)
    requires n < |steps|
    ensures StepsClean(steps, n + 1, promptLen, oracle, cap, ctl) <==>
              StepsClean(steps, n, promptLen, oracle, cap, ctl) &&
              StepClean(steps[n], Emitted(steps, n), promptLen, oracle, cap, ctl)
  {
    hide StepClean;
  }

  /** The loop over the steps: silent exactly when all of them are clean. */
  method ScanSteps(steps: seq<Step>, promptLen: nat, oracle: seq<int>, cap: nat, width: int, ctl: Controls)
    returns (faults: seq<Fault>, emitted: seq<int>, selected: seq<Selected>)
    ensures faults == [] <==> StepsClean(steps, |steps|, promptLen, oracle, cap, ctl)
    ensures faults == [] ==> emitted == Emitted(steps, |steps|)
    ensures faults == [] ==> selected == Selection(steps, |steps|, promptLen, width, cap)
  {
    hide StepClean, StepsClean, EligibleStep, Pick;
    faults, emitted, selected := [], [], [];
    NoSteps0(steps, promptLen, oracle, cap, ctl);
    for i := 0 to |steps|
      invariant faults == [] <==> StepsClean(steps, i, promptLen, oracle, cap, ctl)
      invariant faults == [] ==> emitted == Emitted(steps, i)
      invariant faults == [] ==> selected == Selection(steps, i, promptLen, width, cap)
    {
      var more, after, picked := CheckStep(steps[i], i, emitted, promptLen, oracle, cap, width, ctl);
      OneMoreStep(steps, i, promptLen, oracle, cap, ctl);
      faults, emitted, selected := faults + more, after, selected + picked;
    }
  }

  lemma NoSteps0(steps: seq<Step>, promptLen: nat, oracle: seq<int>, cap: nat, ctl: Controls)
    ensures StepsClean(steps, 0, promptLen, oracle, cap, ctl)
  {
  }

  /** The whole checker. It is silent exactly on the runs that are clean. */
  method CheckHistory(r: Request, promptLen: nat, oracle: seq<int>, ctl: Controls)
    returns (faults: seq<Fault>, selected: seq<Selected>)
    ensures faults == [] <==> HistoryClean(r, promptLen, oracle, ctl)
    ensures faults == [] ==>
              selected == Selection(r.steps.value, |r.steps.value|, promptLen, r.desiredK + 1, Cap(r))
  {
    hide StepsClean, Take, Selection, Emitted, EventsClean;
    faults, selected := [], [];
    if !r.samplingMatches {
      faults := [SamplingProtocol];
    }
    if r.steps.None? || r.steps.value == [] {
      return faults + [NoSteps], [];
    }
    var more, emitted;
    more, emitted, selected := ScanSteps(r.steps.value, promptLen, oracle, Cap(r), r.desiredK + 1, ctl);
    faults := faults + more;
    if r.output != Some(emitted) || emitted != Take(oracle, Cap(r)) {
      faults := faults + [FinalStream];
    }
    if !EventsClean(r.events) {
      faults := faults + [Bridge];
    }
    if selected == [] {
      faults := faults + [NothingEligible];
    }
  }

  // --------------------------------------------- what silence says about the run

  lemma EmittedGrows(steps: seq<Step>, i: nat, j: nat)
    requires i <= j <= |steps|
    ensures Emitted(steps, i) <= Emitted(steps, j)
    decreases j
  {
    if i < j {
      EmittedGrows(steps, i, j - 1);
    }
  }

  /** Every step starts from exactly what all earlier steps emitted; the whole output is the
      capped oracle. */
  lemma PrefixesTelescope(r: Request, promptLen: nat, oracle: seq<int>, ctl: Controls, i: nat)
    requires HistoryClean(r, promptLen, oracle, ctl) && i < |r.steps.value|
    ensures r.steps.value[i].prefix == Some(Emitted(r.steps.value, i))
    ensures r.output == Some(Take(oracle, Cap(r)))
    ensures Emitted(r.steps.value, i) <= Take(oracle, Cap(r))
  {
    assert StepClean(r.steps.value[i], Emitted(r.steps.value, i), promptLen, oracle, Cap(r), ctl);
    EmittedGrows(r.steps.value, i, |r.steps.value|);
  }

  /** The verified frontier: a decode step that emits something after a non-empty history and
      records its frontier leaves it just past the last emitted token, whatever was rejected. */
  lemma FrontierIsAnchor(r: Request, promptLen: nat, oracle: seq<int>, ctl: Controls, i: nat)
    requires HistoryClean(r, promptLen, oracle, ctl) && i < |r.steps.value|
    requires r.steps.value[i].decode && Emits(r.steps.value[i]) != [] && Emitted(r.steps.value, i) != []
    requires r.steps.value[i].computedAfter != Absent
    ensures r.steps.value[i].computedAfter == Int(promptLen + |Emitted(r.steps.value, i + 1)| - 1)
    ensures Rejected(r.steps.value[i]) == r.steps.value[i].count.n - |Emits(r.steps.value[i])|
  {
    hide DispatchClean, Take, Selection;
    var s := r.steps.value[i];
    assert StepClean(s, Emitted(r.steps.value, i), promptLen, oracle, Cap(r), ctl);
  }

  /** Only maintenance between i and j: nothing emitted in between. */
  ghost predicate IdleBetween(steps: seq<Step>, i: nat, j: nat)
    requires i < j <= |steps|
  {
    forall k :: i < k < j ==> Maintenance(steps[k])
  }

  lemma {:induction false} IdleEmitsNothing(steps: seq<Step>, i: nat, j: nat)
    requires i < j <= |steps| && IdleBetween(steps, i, j)
    ensures Emitted(steps, j) == Emitted(steps, i + 1)
    decreases j
  {
    if i + 1 < j {
      assert Maintenance(steps[j - 1]);
      IdleEmitsNothing(steps, i, j - 1);
      assert Emitted(steps, j - 1) + [] == Emitted(steps, j - 1);
    }
  }

  /** Rollback telescopes: the frontier a step leaves is the position and the scheduler start of
      the next scheduled step. */
  lemma NextStartsAtFrontier(r: Request, promptLen: nat, oracle: seq<int>, ctl: Controls, i: nat, j: nat)
    requires HistoryClean(r, promptLen, oracle, ctl) && i < j < |r.steps.value|
    requires r.steps.value[i].decode && Emits(r.steps.value[i]) != [] && Emitted(r.steps.value, i) != []
    requires r.steps.value[i].computedAfter != Absent
    requires IdleBetween(r.steps.value, i, j) && !Maintenance(r.steps.value[j])
    ensures r.steps.value[j].positions.Some? && r.steps.value[j].positions.value != []
    ensures r.steps.value[i].computedAfter == Int(r.steps.value[j].positions.value[0])
    ensures r.steps.value[j].computedBefore == Some(r.steps.value[j].positions.value[0])
  {
    hide DispatchClean, Take, Selection;
    var steps := r.steps.value;
    FrontierIsAnchor(r, promptLen, oracle, ctl, i);
    IdleEmitsNothing(steps, i, j);
    assert Emitted(steps, i + 1) != [] by {
      EmittedGrows(steps, i, i + 1);
    }
    assert StepClean(steps[j], Emitted(steps, j), promptLen, oracle, Cap(r), ctl);
  }

  /** Every entry of the selection is an eligible step, and they come in step order. */
  lemma {:induction false} SelectionMember(steps: seq<Step>, n: nat, promptLen: nat, width: int, cap: nat, a: nat)
    requires n <= |steps| && a < |Selection(steps, n, promptLen, width, cap)|
    ensures var sel := Selection(steps, n, promptLen, width, cap)[a];
            sel.step < n && EligibleStep(steps[sel.step], promptLen, width, cap)
            && sel == Pick(steps[sel.step], sel.step)
            && sel.position == steps[sel.step].positions.value[0]
            && sel.width == width && sel.newTokens == |steps[sel.step].tokens.value| == width
    decreases n
  {
    if a < |Selection(steps, n - 1, promptLen, width, cap)| {
      SelectionMember(steps, n - 1, promptLen, width, cap, a);
    }
  }

  lemma {:induction false} SelectionOrdered(steps: seq<Step>, n: nat, promptLen: nat, width: int, cap: nat,
                                            a: nat, b: nat)
    requires n <= |steps| && a < b < |Selection(steps, n, promptLen, width, cap)|
    ensures Selection(steps, n, promptLen, width, cap)[a].step < Selection(steps, n, promptLen, width, cap)[b].step
    decreases n
  {
    hide EligibleStep;
    var before := Selection(steps, n - 1, promptLen, width, cap);
    if b < |before| {
      SelectionOrdered(steps, n - 1, promptLen, width, cap, a, b);
    } else {
      SelectionMember(steps, n - 1, promptLen, width, cap, a);
      SelectionMember(steps, n, promptLen, width, cap, b);
    }
  }

  /** Measured steps never share an output token: the tokens of the earlier one end before
      those of the later one begin, and all lie inside the output. */
  lemma SelectedStepsDisjoint(r: Request, promptLen: nat, oracle: seq<int>, ctl: Controls, a: nat, b: nat)
    requires HistoryClean(r, promptLen, oracle, ctl)
    requires a < b < |Selection(r.steps.value, |r.steps.value|, promptLen, r.desiredK + 1, Cap(r))|
    ensures var sel := Selection(r.steps.value, |r.steps.value|, promptLen, r.desiredK + 1, Cap(r));
            sel[a].step < sel[b].step < |r.steps.value| &&
            |Emitted(r.steps.value, sel[a].step)| + sel[a].newTokens <= |Emitted(r.steps.value, sel[b].step)| &&
            |Emitted(r.steps.value, sel[b].step)| + sel[b].newTokens <= |r.output.value|
  {
    hide StepsClean, Take, Selection, Eligible, EventsClean;
    var steps := r.steps.value;
    var n := |steps|;
    var sel := Selection(steps, n, promptLen, r.desiredK + 1, Cap(r));
    SelectionOrdered(steps, n, promptLen, r.desiredK + 1, Cap(r), a, b);
    SelectionMember(steps, n, promptLen, r.desiredK + 1, Cap(r), a);
    SelectionMember(steps, n, promptLen, r.desiredK + 1, Cap(r), b);
    EmitsAt(steps, sel[a].step, sel[b].step);
    EmitsAt(steps, sel[b].step, n);
  }

  lemma {:induction false} EmitsAt(steps: seq<Step>, i: nat, j: nat)
    requires i < j <= |steps|
    ensures |Emitted(steps, i)| + |Emits(steps[i])| <= |Emitted(steps, j)|
    decreases j
  {
    if i + 1 < j {
      EmitsAt(steps, i, j - 1);
    }
  }

  function NewTokens(sel: seq<Selected>): nat {
    if sel == [] then 0 else NewTokens(sel[..|sel| - 1]) + sel[|sel| - 1].newTokens
  }

  /** So the tokens counted for the throughput are at most the tokens emitted. */
  lemma {:induction false} CountedAtMostOnce(steps: seq<Step>, n: nat, promptLen: nat, width: int, cap: nat)
    requires n <= |steps|
    ensures NewTokens(Selection(steps, n, promptLen, width, cap)) <= |Emitted(steps, n)|
    decreases n
  {
    hide Eligible;
    if n > 0 {
      CountedAtMostOnce(steps, n - 1, promptLen, width, cap);
      var before := Selection(steps, n - 1, promptLen, width, cap);
      if EligibleStep(steps[n - 1], promptLen, width, cap) {
        assert (before + [Pick(steps[n - 1], n - 1)])[..|before|] == before;
      } else {
        assert before + [] == before;
      }
    }
  }

  // ------------------------------------------------- the same conditions in plain terms

  /** A kernel family on its active path ran and never fell back; off it, it only fell back, and each time because
      the packet held more than one token. */
  lemma SectionMeans(s: Section, count: int, rowwise: bool)
    ensures count == 1 || (rowwise && 2 <= count <= 4) ==>
              (SectionClean(s, count, rowwise) <==>
               s.active > 0 && s.fallback == 0 && forall key :: key in s.reasons ==> s.reasons[key] == 0)
    ensures !(count == 1 || (rowwise && 2 <= count <= 4)) ==>
              (SectionClean(s, count, rowwise) <==>
               s.active == 0 && s.fallback > 0
               && "tokens_not_1" in s.reasons && s.reasons["tokens_not_1"] == s.fallback)
  {
  }

  /** A clean step is an empty maintenance call, or a packet of consecutive positions. */
  lemma CleanForm(s: Step, emitted: seq<int>, promptLen: nat, oracle: seq<int>, cap: nat, ctl: Controls)
    requires StepClean(s, emitted, promptLen, oracle, cap, ctl)
    ensures s.prefix == Some(emitted) && s.tokens.Some?
    ensures forall i :: 0 <= i < |s.tokens.value| ==> s.tokens.value[i] >= 0
    ensures (s.count == Absent && s.tokens.value == []) ||
            (s.count.Int? && s.positions.Some? && 1 <= s.count.n == |s.positions.value|
             && s.positions.value[0] >= 0
             && forall i :: 0 <= i < s.count.n ==> s.positions.value[i] == s.positions.value[0] + i)
  {
  }

  lemma MaintenanceClean(s: Step, emitted: seq<int>, promptLen: nat, oracle: seq<int>, cap: nat, ctl: Controls)
    requires s.prefix == Some(emitted) && s.tokens == Some([]) && s.count == Absent
    ensures StepClean(s, emitted, promptLen, oracle, cap, ctl)
  {
  }

  /** When such a packet is clean: what it may emit, where it starts and leaves the scheduler, how many drafts it
      has, and which kernels ran. */
  lemma PacketMeans(s: Step, emitted: seq<int>, promptLen: nat, oracle: seq<int>, cap: nat, ctl: Controls,
                    p: seq<int>, tokens: seq<int>, rejected: int)
    requires s.prefix == Some(emitted) && s.tokens == Some(tokens) && forall i :: 0 <= i < |tokens| ==> tokens[i] >= 0
    requires s.positions == Some(p) && s.count == Int(|p|) && p != [] && p[0] >= 0
    requires forall i :: 0 <= i < |p| ==> p[i] == p[0] + i
    requires s.drafts.None? ==> rejected == 0
    requires s.drafts.Some? && tokens != [] ==> rejected == Max(0, s.drafts.value - (|tokens| - 1))
    requires s.drafts.Some? && tokens == [] ==> rejected == Max(0, s.drafts.value)
    ensures StepClean(s, emitted, promptLen, oracle, cap, ctl) <==>
            && |tokens| <= |p| && emitted + tokens <= oracle && |emitted| + |tokens| <= cap
            && (emitted != [] ==> p[0] == promptLen + |emitted| - 1)
            && s.computedBefore == Some(p[0])
            && (s.decode ==> s.drafts == Some(|p| - 1))
            && (s.computedAfter == Absent || s.computedAfter == Int(p[0] + |p| - rejected))
            && s.wall.Some? && s.wall.value > 0.0
            && (s.decode && p[0] >= promptLen + 7 ==>
                  SectionClean(s.dispatch.native, |p|, ctl.native)
                  && SectionClean(s.dispatch.coefficient, |p|, ctl.mhc)
                  && SectionClean(s.dispatch.projection, |p|, ctl.mhc))
  {
    hide SectionClean;
    assert Scheduled(s) && Consecutive(p);
    assert Rejected(s) == rejected;
    StreamMeans(emitted + tokens, oracle);
  }

  lemma StreamMeans(after: seq<int>, oracle: seq<int>)
    ensures after == Take(oracle, |after|) <==> after <= oracle
  {
  }

  /** A step is selected exactly when it is a full packet of the width, past the activation point, that emits a token
      for each of its positions inside the cap. */
  lemma {:induction false} SelectedMeans(steps: seq<Step>, n: nat, promptLen: nat, width: int, cap: nat, i: nat)
    requires i < n <= |steps|
    ensures var s := steps[i];
            (exists a :: 0 <= a < |Selection(steps, n, promptLen, width, cap)|
                         && Selection(steps, n, promptLen, width, cap)[a].step == i) <==>
            s.decode && s.prefix.Some? && s.tokens.Some? && s.positions.Some? && s.count == Int(width)
            && 1 <= width == |s.positions.value| == |s.tokens.value|
            && (forall k :: 0 <= k < width ==> s.positions.value[k] >= 0)
            && s.positions.value[0] >= promptLen + 7 && |s.prefix.value| + width <= cap
    decreases n
  {
    var sel := Selection(steps, n, promptLen, width, cap);
    var before := Selection(steps, n - 1, promptLen, width, cap);
    assert EligibleStep(steps[i], promptLen, width, cap) <==>
      (var s := steps[i];
       s.decode && s.prefix.Some? && s.tokens.Some? && s.positions.Some? && s.count == Int(width)
       && 1 <= width == |s.positions.value| == |s.tokens.value|
       && (forall k :: 0 <= k < width ==> s.positions.value[k] >= 0)
       && s.positions.value[0] >= promptLen + 7 && |s.prefix.value| + width <= cap);
    hide EligibleStep, Selection, Ints;
    SelectionSplits(steps, n, promptLen, width, cap);
    if i < n - 1 {
      SelectedMeans(steps, n - 1, promptLen, width, cap, i);
      forall a | 0 <= a < |sel| && sel[a].step == i ensures a < |before| && before[a] == sel[a] {
      }
      forall a | 0 <= a < |before| ensures sel[a] == before[a] {
      }
    } else {
      forall a | 0 <= a < |before| ensures before[a].step < i {
        SelectionMember(steps, n - 1, promptLen, width, cap, a);
      }
    }
  }

  lemma SelectionSplits(steps: seq<Step>, n: nat, promptLen: nat, width: int, cap: nat)
    requires 0 < n <= |steps|
    ensures var sel := Selection(steps, n, promptLen, width, cap);
            var before := Selection(steps, n - 1, promptLen, width, cap);
            before <= sel && |sel| <= |before| + 1 &&
            (|sel| == |before| + 1 <==> EligibleStep(steps[n - 1], promptLen, width, cap)) &&
            (|sel| == |before| + 1 ==> sel[|before|].step == n - 1)
  {
  }

  /** What silence about a whole request means, with the cap of 32 tokens for a measurement and 64 otherwise. */
  lemma HistoryMeans(r: Request, promptLen: nat, oracle: seq<int>, ctl: Controls)
    ensures HistoryClean(r, promptLen, oracle, ctl) <==>
            && r.samplingMatches && r.steps.Some? && r.steps.value != []
            && (forall i :: 0 <= i < |r.steps.value| ==>
                  StepClean(r.steps.value[i], Emitted(r.steps.value, i), promptLen, oracle,
                            if r.measure then 32 else 64, ctl))
            && r.output == Some(Emitted(r.steps.value, |r.steps.value|))
            && r.output.value == (if |oracle| <= (if r.measure then 32 else 64) then oracle
                                  else oracle[..if r.measure then 32 else 64])
            && r.events != []
            && (forall i :: 0 <= i < |r.events| ==> !r.events[i].prefixErrors && !r.events[i].fidelityFailed)
            && Selection(r.steps.value, |r.steps.value|, promptLen, r.desiredK + 1, if r.measure then 32 else 64) != []
  {
    hide StepClean, Selection, Emitted;
  }

  /** The stream so far grows by the tokens of each step. */
  lemma EmittedMeans(steps: seq<Step>, i: nat)
    requires i < |steps|
    ensures Emitted(steps, 0) == []
    ensures steps[i].tokens.Some? ==> Emitted(steps, i + 1) == Emitted(steps, i) + steps[i].tokens.value
  {
  }

  // ------------------------------------------------- a correct scheduler is not accused

  /** What a correct scheduler records for a decode packet of n positions of which it keeps a tokens. */
  function HonestPacket(emitted: seq<int>, promptLen: nat, oracle: seq<int>, n: nat, a: nat, wall: real,
                        d: Dispatch): Step
    requires 1 <= a <= n && emitted != [] && |emitted| + a <= |oracle|
  {
    var p := promptLen + |emitted| - 1;
    Step(Some(emitted), Some(oracle[|emitted|..|emitted| + a]), Int(n), Some(seq(n, i requires 0 <= i < n => p + i)),
         Some(p), Int(p + a), true, Some(n - 1), Some(wall), d)
  }

  /** Whatever the width and however many drafts are rejected, such a packet raises no fault, and the
      next packet may start where its frontier ends. */
  lemma HonestPacketClean(emitted: seq<int>, promptLen: nat, oracle: seq<int>, cap: nat, n: nat, a: nat, wall: real,
                          d: Dispatch, ctl: Controls)
    requires 1 <= a <= n && emitted != [] && |emitted| + a <= |oracle| && |emitted| + a <= cap
    requires emitted <= oracle && (forall i :: 0 <= i < |oracle| ==> 0 <= oracle[i])
    requires 0.0 < wall && DispatchClean(d, n, ctl)
    ensures var s := HonestPacket(emitted, promptLen, oracle, n, a, wall, d);
            StepClean(s, emitted, promptLen, oracle, cap, ctl) && Rejected(s) == n - a
            && emitted + Emits(s) == oracle[..|emitted| + a]
  {
    hide DispatchClean;
    var s := HonestPacket(emitted, promptLen, oracle, n, a, wall, d);
    assert emitted + Emits(s) == oracle[..|emitted| + a];
    assert PositionsClean(s, emitted, promptLen);
  }
}
