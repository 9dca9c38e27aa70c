/**
 Every interleaving of a master and a plant that keep in turn, with any number of
 timed-out and repeated waits, is a lockstep: nothing is lost, duplicated or torn.
 */
module LockstepSafety {
  import opened Words
  import opened Lockstep

  // ---------------------------------------------------------------------------
  // The history of a lockstep
  // ---------------------------------------------------------------------------

  ghost predicate InStep(h: History) {
    && h.taken <= h.posted
    && |h.answered| <= |h.taken|
    && (forall k :: 0 <= k < |h.answered| ==> h.answered[k].step == h.posted[k])
    && |h.received| <= |h.answered|
    && (forall k :: 0 <= k < |h.received| ==> h.received[k] == h.answered[k].outputs)
    && |h.posted| <= |h.received| + 1
  }

  // ---------------------------------------------------------------------------
  // Who may touch what
  // ---------------------------------------------------------------------------

  predicate MasterFills(c: MasterPc) {
    c.PutTime? || c.PutDt? || c.PutInputs? || c.BumpIndex? || c.StorePosted?
  }

  predicate MasterTakes(c: MasterPc) {
    c.TakeOutputs? || c.StoreIdle?
  }

  predicate PlantTakes(c: PlantPc) {
    c.TakeInputs? || c.TakeTime? || c.TakeDt?
  }

  /** The plant has a step and has not answered it. */
  predicate PlantHolds(c: PlantPc) {
    c.Holding? || c.PutOutputs? || c.StoreOutputs?
  }

  /** The region shows the whole of a step. */
  predicate Shows(r: Region, step: Step) {
    r.simTime == step.simTime && r.dt == step.dt && r.toPlant == step.inputs
  }

  predicate MasterFilled(r: Region, c: MasterPc) {
    match c
    case PutDt(step) => r.simTime == step.simTime
    case PutInputs(step, i) =>
      r.simTime == step.simTime && r.dt == step.dt && i <= FRAME_WORDS && step.inputs[..i] <= r.toPlant
    case BumpIndex(step) => Shows(r, step)
    case StorePosted(step) => Shows(r, step)
    case TakeOutputs(got) => got <= r.toMaster
    case StoreIdle(outputs) => outputs == r.toMaster
    case _ => true
  }

  predicate PlantFilled(r: Region, c: PlantPc) {
    match c
    case TakeInputs(got) => got <= r.toPlant
    case TakeTime(inputs) => inputs == r.toPlant
    case TakeDt(inputs, simTime) => inputs == r.toPlant && simTime == r.simTime
    case PutOutputs(step, outputs, i) => i <= FRAME_WORDS && outputs[..i] <= r.toMaster
    case StoreOutputs(step, outputs) => outputs == r.toMaster
    case _ => true
  }

  /** Between two steps: nothing is outstanding and the plant waits. */
  predicate BetweenSteps(s: State) {
    var h := s.history;
    && |h.posted| == |h.taken| == |h.answered| == |h.received|
    && (s.region.phase == Idle || s.region.phase == ShutdownRequested)
    && !PlantTakes(s.plant) && !PlantHolds(s.plant) && !MasterTakes(s.master)
  }

  /** The plant has taken the last step, asked again after a shutdown request and been told of it. */
  predicate Dropped(s: State) {
    |s.history.taken| == |s.history.posted| && s.region.phase == ShutdownRequested && !PlantTakes(s.plant)
  }

  /** A step is outstanding: it is the plant's to take, its to answer, answered or dropped. */
  predicate Underway(s: State) {
    var h := s.history;
    && |h.posted| == |h.received| + 1
    && s.region.phase != Idle
    && !MasterFills(s.master)
    && Shows(s.region, h.posted[|h.posted| - 1])
    && (if PlantHolds(s.plant) then
          && |h.taken| == |h.posted| == |h.answered| + 1
          && s.plant.step == h.posted[|h.posted| - 1]
          && s.region.phase != OutputsPosted
        else if |h.answered| == |h.posted| then
          && |h.taken| == |h.posted| && !PlantTakes(s.plant)
          && s.region.toMaster == h.answered[|h.answered| - 1].outputs
          && s.region.phase != InputsPosted
        else
          && |h.answered| == |h.posted| - 1
          && s.region.phase != OutputsPosted
          && (|h.taken| == |h.answered| || Dropped(s)))
    && (MasterTakes(s.master) ==> s.region.phase == OutputsPosted)
  }

  ghost predicate Invariant(s: State) {
    && InStep(s.history)
    && MasterFilled(s.region, s.master)
    && PlantFilled(s.region, s.plant)
    && (BetweenSteps(s) || Underway(s))
  }

  // ---------------------------------------------------------------------------
  // Every step keeps the invariant
  // ---------------------------------------------------------------------------

  /** Filling the region and reading it: the history stands still. */
  lemma MasterCopies(s: State, input: MasterInput)
    requires InBounds(s) && Invariant(s)
    requires (MasterFills(s.master) && !s.master.StorePosted?) || s.master.TakeOutputs?
    ensures Invariant(MasterStep(s, input))
  {
    hide InStep;
    var s' := MasterStep(s, input);
    match s.master
    case PutInputs(step, i) =>
      if i < FRAME_WORDS {
        assert s'.region.toPlant[..i + 1] == s.region.toPlant[..i] + [step.inputs[i]];
        assert step.inputs[..i + 1] == step.inputs[..i] + [step.inputs[i]];
      } else {
        assert s.region.toPlant == step.inputs;
      }
    case TakeOutputs(got) =>
      if |got| < FRAME_WORDS {
        assert s.region.toMaster[..|got| + 1] == got + [s.region.toMaster[|got|]];
      }
    case _ =>
  }

  lemma MasterPosts(s: State, input: MasterInput)
    requires InBounds(s) && Invariant(s) && s.master.StorePosted?
    ensures Invariant(MasterStep(s, input))
  {
  }

  lemma MasterReceives(s: State, input: MasterInput)
    requires InBounds(s) && Invariant(s) && s.master.StoreIdle?
    ensures Invariant(MasterStep(s, input))
  {
  }

  /** Outside its calls or looking at the phase: nothing is posted or received. */
  lemma MasterLooks(s: State, input: MasterInput)
    requires InBounds(s) && Invariant(s) && (s.master.Outside? || s.master.WaitOutputs?)
    requires Allowed(s, Master(input))
    ensures Invariant(MasterStep(s, input))
  {
    hide InStep;
    SameSteps(s.history, MasterStep(s, input).history);
  }

  /** The promises of the history do not depend on the results of the waits. */
  lemma SameSteps(h: History, h': History)
    requires h'.posted == h.posted && h'.taken == h.taken && h'.answered == h.answered && h'.received == h.received
    ensures InStep(h') == InStep(h)
    ensures InStep(h) ==> |h.received| <= |h.answered| <= |h.taken| <= |h.posted| <= |h.received| + 1
  {
  }

  lemma MasterKeeps(s: State, input: MasterInput)
    requires InBounds(s) && Invariant(s) && Allowed(s, Master(input))
    ensures Invariant(MasterStep(s, input))
  {
    hide Invariant;
    match s.master
    case StorePosted(_) => MasterPosts(s, input);
    case StoreIdle(_) => MasterReceives(s, input);
    case Outside => MasterLooks(s, input);
    case WaitOutputs => MasterLooks(s, input);
    case _ => MasterCopies(s, input);
  }

  lemma PlantCopies(s: State, input: PlantInput)
    requires InBounds(s) && Invariant(s)
    requires s.plant.TakeInputs? || s.plant.TakeTime? || s.plant.PutOutputs?
    ensures Invariant(PlantStep(s, input))
  {
    hide InStep;
    var s' := PlantStep(s, input);
    match s.plant
    case TakeInputs(got) =>
      if |got| < FRAME_WORDS {
        assert s.region.toPlant[..|got| + 1] == got + [s.region.toPlant[|got|]];
      }
    case PutOutputs(step, outputs, i) =>
      if i < FRAME_WORDS {
        assert s'.region.toMaster[..i + 1] == s.region.toMaster[..i] + [outputs[i]];
        assert outputs[..i + 1] == outputs[..i] + [outputs[i]];
      } else {
        assert s.region.toMaster == outputs;
      }
    case _ =>
  }

  lemma PlantTakesAll(s: State, input: PlantInput)
    requires InBounds(s) && Invariant(s) && s.plant.TakeDt?
    ensures Invariant(PlantStep(s, input))
  {
  }

  lemma PlantAnswers(s: State, input: PlantInput)
    requires InBounds(s) && Invariant(s) && s.plant.StoreOutputs?
    ensures Invariant(PlantStep(s, input))
  {
  }

  /** Outside its calls, looking at the phase or holding a step: nothing is taken or answered. */
  lemma PlantLooks(s: State, input: PlantInput)
    requires InBounds(s) && Invariant(s) && (s.plant.Away? || s.plant.WaitInputs? || s.plant.Holding?)
    requires Allowed(s, Plant(input))
    ensures Invariant(PlantStep(s, input))
  {
    hide InStep;
    SameSteps(s.history, PlantStep(s, input).history);
  }

  lemma PlantKeeps(s: State, input: PlantInput)
    requires InBounds(s) && Invariant(s) && Allowed(s, Plant(input))
    ensures Invariant(PlantStep(s, input))
  {
    hide Invariant;
    match s.plant
    case TakeDt(_, _) => PlantTakesAll(s, input);
    case StoreOutputs(_, _) => PlantAnswers(s, input);
    case Away => PlantLooks(s, input);
    case WaitInputs => PlantLooks(s, input);
    case Holding(_) => PlantLooks(s, input);
    case _ => PlantCopies(s, input);
  }

  // ---------------------------------------------------------------------------
  // Every schedule
  // ---------------------------------------------------------------------------

  lemma {:induction false} RunKeeps(schedule: seq<Choice>)
    requires InTurn(schedule)
    ensures Invariant(Run(schedule))
    decreases |schedule|
  {
    if schedule != [] {
      var n := |schedule| - 1;
      hide Invariant;
      RunKeeps(schedule[..n]);
      match schedule[n]
      case Master(input) => MasterKeeps(Run(schedule[..n]), input);
      case Plant(input) => PlantKeeps(Run(schedule[..n]), input);
    }
  }

  /**
   The k-th ready wait for inputs returned the k-th posted frame, time and step
   length, whole; the k-th ready wait for outputs returned what the plant answered
   to that same step; and at most one step is outstanding.
   */
  ghost predicate InLockstep(h: History) {
    && |h.received| <= |h.answered| <= |h.taken| <= |h.posted| <= |h.received| + 1
    && (forall k :: 0 <= k < |h.taken| ==> h.taken[k] == h.posted[k])
    && (forall k :: 0 <= k < |h.received| ==>
          && h.received[k] == h.answered[k].outputs
          && h.answered[k].step == h.taken[k] == h.posted[k])
  }

  /** Two sides that keep their turn are in lockstep, on every schedule. */
  lemma LockstepHolds(schedule: seq<Choice>)
    requires InTurn(schedule)
    ensures InLockstep(Run(schedule).history)
  {
    hide Run;
    RunKeeps(schedule);
  }

  /** While one side copies, the other is elsewhere: frame, time and length change hands whole. */
  lemma OneOwner(schedule: seq<Choice>)
    requires InTurn(schedule)
    ensures var s := Run(schedule);
            && (MasterFills(s.master) ==> !PlantTakes(s.plant) && !PlantHolds(s.plant))
            && (MasterTakes(s.master) ==> !PlantTakes(s.plant) && !PlantHolds(s.plant))
            && (PlantTakes(s.plant) || PlantHolds(s.plant) ==>
                  s.region.phase == InputsPosted || s.region.phase == ShutdownRequested)
            && (MasterTakes(s.master) ==> s.region.phase == OutputsPosted)
  {
    hide Run;
    RunKeeps(schedule);
  }

  /** The step index counts the posts, modulo 2^64, the running one included from its increment on. */
  ghost predicate IndexCounts(s: State) {
    s.region.stepIndex == (|s.history.posted| + (if s.master.StorePosted? then 1 else 0)) % TWO_64
  }

  lemma IndexNext(s: State, c: Choice)
    requires InBounds(s) && IndexCounts(s)
    ensures IndexCounts(Next(s, c))
  {
  }

  lemma {:induction false} StepIndex(schedule: seq<Choice>)
    ensures IndexCounts(Run(schedule))
    decreases |schedule|
  {
    if schedule != [] {
      var n := |schedule| - 1;
      hide Next, IndexCounts;
      StepIndex(schedule[..n]);
      IndexNext(Run(schedule[..n]), schedule[n]);
    }
  }
}
