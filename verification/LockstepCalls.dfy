/**
 Whole calls of either side as runs of the transition system, from any state and
 whether or not the other side has kept its turn.
 */
module LockstepCalls {
  import opened Lockstep
  import opened LockstepSafety

  const MASTER_GO := Master(MasterGo(false))
  const PLANT_GO := Plant(PlantGo(false))

  /** The plant has seen the posted inputs and will answer them. */
  predicate WillAnswer(c: PlantPc) {
    PlantTakes(c) || PlantHolds(c)
  }

  /** Plant steps left until it stores the outputs' phase. */
  function AnswerIn(c: PlantPc): nat
    requires c.TakeInputs? ==> |c.got| <= FRAME_WORDS
    requires c.PutOutputs? ==> c.i <= FRAME_WORDS
  {
    match c
    case TakeInputs(got) => 2 * FRAME_WORDS + 6 - |got|
    case TakeTime(_) => FRAME_WORDS + 5
    case TakeDt(_, _) => FRAME_WORDS + 4
    case Holding(_) => FRAME_WORDS + 3
    case PutOutputs(_, _, i) => FRAME_WORDS - i + 2
    case StoreOutputs(_, _) => 1
    case _ => 0
  }

  /** Master steps left until the posting store. */
  function PostIn(c: MasterPc): nat
    requires c.PutInputs? ==> c.i <= FRAME_WORDS
  {
    match c
    case PutTime(_) => FRAME_WORDS + 5
    case PutDt(_) => FRAME_WORDS + 4
    case PutInputs(_, i) => FRAME_WORDS - i + 3
    case BumpIndex(_) => 2
    case StorePosted(_) => 1
    case _ => 0
  }

  /** The running call's step. */
  function Filling(c: MasterPc): Step
    requires MasterFills(c)
  {
    c.step
  }

  /** One access of `post_inputs`. */
  lemma FillOne(s: State)
    requires InBounds(s) && MasterFills(s.master) && MasterFilled(s.region, s.master)
    ensures var s' := MasterStep(s, MasterGo(false));
            && s'.plant == s.plant
            && (if s.master.StorePosted? then
                  && s'.master == Outside && s'.region.phase == InputsPosted && Shows(s'.region, s.master.step)
                  && s'.history == s.history.(posted := s.history.posted + [s.master.step])
                else
                  && MasterFills(s'.master) && Filling(s'.master) == Filling(s.master)
                  && MasterFilled(s'.region, s'.master)
                  && s'.history == s.history && PostIn(s'.master) < PostIn(s.master))
  {
    var s' := MasterStep(s, MasterGo(false));
    match s.master
    case PutInputs(step, i) =>
      if i < FRAME_WORDS {
        assert s'.region.toPlant[..i + 1] == s.region.toPlant[..i] + [step.inputs[i]];
        assert step.inputs[..i + 1] == step.inputs[..i] + [step.inputs[i]];
      } else {
        assert s.region.toPlant == step.inputs;
      }
    case _ =>
  }

  lemma {:induction false} FillAll(s: State) returns (more: seq<Choice>, s': State)
    requires InBounds(s) && MasterFills(s.master) && MasterFilled(s.region, s.master)
    ensures s' == RunFrom(s, more) && InTurnFrom(s, more)
    ensures s'.master == Outside && s'.plant == s.plant
    ensures s'.region.phase == InputsPosted && Shows(s'.region, Filling(s.master))
    ensures s'.history == s.history.(posted := s.history.posted + [Filling(s.master)])
    decreases PostIn(s.master)
  {
    FillOne(s);
    var next, rest := Next(s, MASTER_GO), [];
    if s.master.StorePosted? {
      s' := next;
      NothingRun(next);
    } else {
      rest, s' := FillAll(next);
    }
    more := [MASTER_GO] + rest;
    hide MasterFilled, RunFrom, InTurnFrom;
    RunCons(s, MASTER_GO, rest);
  }

  /** `post_inputs`, whether or not a step is outstanding. */
  lemma PostAll(s: State, step: Step) returns (more: seq<Choice>, s': State)
    requires InBounds(s) && s.master == Outside
    ensures s' == RunFrom(s, more)
    ensures s'.master == Outside && s'.plant == s.plant
    ensures s'.region.phase == InputsPosted && Shows(s'.region, step)
    ensures s'.history == s.history.(posted := s.history.posted + [step])
  {
    var rest;
    rest, s' := FillAll(Next(s, Master(PostInputs(step))));
    more := [Master(PostInputs(step))] + rest;
    hide RunFrom, InTurnFrom;
    RunCons(s, Master(PostInputs(step)), rest);
  }

  /** One access of `wait_for_inputs` past its look at the phase. */
  lemma TakeOne(s: State)
    requires InBounds(s) && PlantTakes(s.plant) && PlantFilled(s.region, s.plant)
    ensures var s' := PlantStep(s, PlantGo(false));
            && s'.master == s.master && s'.region == s.region
            && (if s.plant.TakeDt? then
                  && s'.plant.Holding? && Shows(s.region, s'.plant.step)
                  && s'.history.posted == s.history.posted && s'.history.taken == s.history.taken + [s'.plant.step]
                else
                  && PlantTakes(s'.plant) && PlantFilled(s.region, s'.plant)
                  && s'.history == s.history && AnswerIn(s'.plant) < AnswerIn(s.plant))
  {
    match s.plant
    case TakeInputs(got) =>
      if |got| < FRAME_WORDS {
        assert s.region.toPlant[..|got| + 1] == got + [s.region.toPlant[|got|]];
      }
    case _ =>
  }

  lemma {:induction false} TakeAll(s: State) returns (more: seq<Choice>, s': State)
    requires InBounds(s) && PlantTakes(s.plant) && PlantFilled(s.region, s.plant)
    ensures s' == RunFrom(s, more) && InTurnFrom(s, more)
    ensures s'.master == s.master && s'.region == s.region
    ensures s'.plant.Holding? && Shows(s.region, s'.plant.step)
    ensures s'.history.posted == s.history.posted && s'.history.taken == s.history.taken + [s'.plant.step]
    decreases AnswerIn(s.plant)
  {
    TakeOne(s);
    var next, rest := Next(s, PLANT_GO), [];
    if s.plant.TakeDt? {
      s' := next;
      NothingRun(next);
    } else {
      rest, s' := TakeAll(next);
    }
    more := [PLANT_GO] + rest;
    hide PlantFilled, RunFrom, InTurnFrom;
    RunCons(s, PLANT_GO, rest);
  }

  /** The rest of `wait_for_inputs` with inputs posted, from its first look at the phase. */
  lemma LookAndTake(s: State) returns (more: seq<Choice>, s': State)
    requires InBounds(s) && s.plant == WaitInputs && s.region.phase == InputsPosted
    ensures s' == RunFrom(s, more) && InTurnFrom(s, more)
    ensures s'.master == s.master && s'.region == s.region
    ensures s'.plant.Holding? && Shows(s.region, s'.plant.step)
    ensures s'.history.posted == s.history.posted && s'.history.taken == s.history.taken + [s'.plant.step]
  {
    var rest;
    rest, s' := TakeAll(Next(s, PLANT_GO));
    more := [PLANT_GO] + rest;
    hide RunFrom, InTurnFrom;
    RunCons(s, PLANT_GO, rest);
  }

  /** `wait_for_inputs` with inputs posted, whether or not the plant holds a step already. */
  lemma WaitAndTake(s: State) returns (more: seq<Choice>, s': State)
    requires InBounds(s) && (s.plant.Away? || s.plant.Holding?) && s.region.phase == InputsPosted
    ensures s' == RunFrom(s, more)
    ensures s'.master == s.master && s'.region == s.region
    ensures s'.plant.Holding? && Shows(s.region, s'.plant.step)
    ensures s'.history.posted == s.history.posted && s'.history.taken == s.history.taken + [s'.plant.step]
  {
    var rest;
    rest, s' := LookAndTake(Next(s, Plant(WaitForInputs)));
    more := [Plant(WaitForInputs)] + rest;
    hide RunFrom, InTurnFrom;
    RunCons(s, Plant(WaitForInputs), rest);
  }
}
