/**
 `ShmBridge` as the source has it: calls of one side as straight-line code over the
 region, while the other side may make any number of accesses between two of them.
 Every access is a step of the transition system; nothing here keeps either side in turn.
 */
module ShmBridge {
  import opened Words
  import opened Lockstep
  import opened LockstepSafety

  class Bridge {
    var phase: StepPhase
    var stepIndex: nat
    var simTime: U64
    var dt: U64
    const toPlant: array<U64>
    const toMaster: array<U64>

    var master: MasterPc
    var plant: PlantPc

    // how the other side is interleaved: before access number `tick`, it makes the moves `plan(tick)`
    const plan: nat -> seq<Choice>
    var tick: nat

    // what has happened so far
    ghost var history: History
    ghost var schedule: seq<Choice>

    ghost predicate Sized()
      reads this
    {
      toPlant.Length == toMaster.Length == FRAME_WORDS && toPlant != toMaster
    }

    ghost function View(): State
      requires Sized()
      reads this, toPlant, toMaster
    {
      State(Region(phase, stepIndex, simTime, dt, toPlant[..], toMaster[..]), master, plant, history)
    }

    ghost predicate Valid()
      reads this, toPlant, toMaster
    {
      Sized() && View() == Run(schedule)
    }

    ghost function Parts(): set<object> {
      {this, toPlant, toMaster}
    }

    /** `create_master`: the region, constructed once; the plant has opened it. */
    constructor (plan: nat -> seq<Choice>)
      ensures Valid() && fresh(Parts())
      ensures master == Outside && plant == Away && schedule == []
    {
      phase, stepIndex, simTime, dt := Idle, 0, 0, 0;
      toPlant := new U64[FRAME_WORDS](_ => 0);
      toMaster := new U64[FRAME_WORDS](_ => 0);
      master, plant := Outside, Away;
      this.plan, tick := plan, 0;
      history, schedule := History([], [], [], [], [], []), [];
      new;
      assert toPlant[..] == Zeros(FRAME_WORDS) && toMaster[..] == Zeros(FRAME_WORDS);
    }

    // -------------------------------------------------------------------------
    // Single accesses, in place
    // -------------------------------------------------------------------------

    method MasterMove(input: MasterInput)
      requires Sized() && InBounds(View())
      modifies this, toPlant
      ensures Sized() && View() == MasterStep(old(View()), input)
      ensures schedule == old(schedule) && tick == old(tick)
    {
      match master
      case Outside =>
        match input {
          case PostInputs(step) => master := PutTime(step);
          case WaitForOutputs => master := WaitOutputs;
          case RequestShutdown => phase := ShutdownRequested;
          case MasterGo(_) =>
        }
      case PutTime(step) => simTime, master := step.simTime, PutDt(step);
      case PutDt(step) => dt, master := step.dt, PutInputs(step, 0);
      case PutInputs(step, i) =>
        if i < FRAME_WORDS {
          toPlant[i] := step.inputs[i];
          master := PutInputs(step, i + 1);
        } else {
          master := BumpIndex(step);
        }
      case BumpIndex(step) => stepIndex, master := (stepIndex + 1) % TWO_64, StorePosted(step);
      case StorePosted(step) =>
        phase, master := InputsPosted, Outside;
        history := history.(posted := history.posted + [step]);
      case WaitOutputs =>
        if phase == OutputsPosted {
          master := TakeOutputs([]);
        } else if phase == ShutdownRequested || input == MasterGo(true) {
          history := history.(masterWaits := history.masterWaits
                                             + [if phase == ShutdownRequested then Shutdown else TimedOut]);
          master := Outside;
        }
      case TakeOutputs(got) =>
        master := if |got| < FRAME_WORDS then TakeOutputs(got + [toMaster[|got|]]) else StoreIdle(got);
      case StoreIdle(outputs) =>
        phase, master := Idle, Outside;
        history := history.(received := history.received + [outputs], masterWaits := history.masterWaits + [Ready]);
    }

    method PlantMove(input: PlantInput)
      requires Sized() && InBounds(View())
      modifies this, toMaster
      ensures Sized() && View() == PlantStep(old(View()), input)
      ensures schedule == old(schedule) && tick == old(tick)
    {
      match plant
      case Away => plant := if input.WaitForInputs? then WaitInputs else Away;
      case WaitInputs =>
        if phase == InputsPosted {
          plant := TakeInputs([]);
        } else if phase == ShutdownRequested || input == PlantGo(true) {
          history := history.(plantWaits := history.plantWaits
                                            + [if phase == ShutdownRequested then Shutdown else TimedOut]);
          plant := Away;
        }
      case TakeInputs(got) =>
        plant := if |got| < FRAME_WORDS then TakeInputs(got + [toPlant[|got|]]) else TakeTime(got);
      case TakeTime(inputs) => plant := TakeDt(inputs, simTime);
      case TakeDt(inputs, time) =>
        var step := Step(time, dt, inputs);
        plant := Holding(step);
        history := history.(taken := history.taken + [step], plantWaits := history.plantWaits + [Ready]);
      case Holding(step) =>
        match input {
          case PostOutputs(outputs) => plant := PutOutputs(step, outputs, 0);
          case WaitForInputs => plant := WaitInputs;
          case PlantGo(_) =>
        }
      case PutOutputs(step, outputs, i) =>
        if i < FRAME_WORDS {
          toMaster[i] := outputs[i];
          plant := PutOutputs(step, outputs, i + 1);
        } else {
          plant := StoreOutputs(step, outputs);
        }
      case StoreOutputs(step, outputs) =>
        phase, plant := OutputsPosted, Away;
        history := history.(answered := history.answered + [Answer(step, outputs)]);
    }

    /** The plant may move before an access of the master. */
    method PlantInterferes()
      requires Valid()
      modifies this, toMaster
      ensures Valid() && master == old(master) && tick == old(tick) + 1
      ensures history.posted == old(history.posted) && history.received == old(history.received)
      ensures history.masterWaits == old(history.masterWaits)
    {
      hide Run, PlantStep;
      var moves := plan(tick);
      tick := tick + 1;
      for i := 0 to |moves|
        invariant Valid() && master == old(master) && tick == old(tick) + 1
        invariant history.posted == old(history.posted) && history.received == old(history.received)
        invariant history.masterWaits == old(history.masterWaits)
      {
        if moves[i].Plant? {
          PlantLeavesMaster(View(), moves[i].pinput);
          PlantAccess(moves[i].pinput);
        }
      }
    }

    /** The master may move before an access of the plant. */
    method MasterInterferes()
      requires Valid()
      modifies this, toPlant
      ensures Valid() && plant == old(plant) && tick == old(tick) + 1
      ensures history.taken == old(history.taken) && history.answered == old(history.answered)
      ensures history.plantWaits == old(history.plantWaits)
    {
      hide Run, MasterStep;
      var moves := plan(tick);
      tick := tick + 1;
      for i := 0 to |moves|
        invariant Valid() && plant == old(plant) && tick == old(tick) + 1
        invariant history.taken == old(history.taken) && history.answered == old(history.answered)
        invariant history.plantWaits == old(history.plantWaits)
      {
        if moves[i].Master? {
          MasterLeavesPlant(View(), moves[i].minput);
          MasterAccess(moves[i].minput);
        }
      }
    }

    /** One access of the master, as a step of the transition system. */
    method MasterAccess(input: MasterInput)
      requires Valid()
      modifies this, toPlant
      ensures Valid() && View() == MasterStep(old(View()), input) && tick == old(tick)
    {
      RunSnoc(Initial(), schedule, Master(input));
      MasterMove(input);
      schedule := schedule + [Master(input)];
    }

    /** One access of the plant, as a step of the transition system. */
    method PlantAccess(input: PlantInput)
      requires Valid()
      modifies this, toMaster
      ensures Valid() && View() == PlantStep(old(View()), input) && tick == old(tick)
    {
      RunSnoc(Initial(), schedule, Plant(input));
      PlantMove(input);
      schedule := schedule + [Plant(input)];
    }

    // -------------------------------------------------------------------------
    // The master's calls
    // -------------------------------------------------------------------------

    /** `post_inputs`, whether or not a step is outstanding. */
    method PostInputs(step: Step)
      requires Valid() && master == Outside
      modifies this, toPlant, toMaster
      ensures Valid() && master == Outside
      ensures history.posted == old(history.posted) + [step] && history.received == old(history.received)
    {
      hide Run, RunFrom, PlantStep;
      PostTimes(step);
      CopyInputs(step);
      PlantInterferes();
      MasterAccess(MasterGo(false));  // step_index
      PlantInterferes();
      MasterAccess(MasterGo(false));  // phase
    }

    /** The call begins and stores time and step length. */
    method PostTimes(step: Step)
      requires Valid() && master == Outside
      modifies this, toPlant, toMaster
      ensures Valid() && master == PutInputs(step, 0)
      ensures history.posted == old(history.posted) && history.received == old(history.received)
    {
      hide Run, RunFrom, PlantStep;
      MasterAccess(MasterInput.PostInputs(step));
      PlantInterferes();
      MasterAccess(MasterGo(false));  // sim_time_s
      PlantInterferes();
      MasterAccess(MasterGo(false));  // dt_s
    }

    /** The assignment to `master_to_plant`. */
    method CopyInputs(step: Step)
      requires Valid() && master == PutInputs(step, 0)
      modifies this, toPlant, toMaster
      ensures Valid() && master == BumpIndex(step)
      ensures history.posted == old(history.posted) && history.received == old(history.received)
    {
      hide Run, RunFrom, PlantStep;
      for i := 0 to FRAME_WORDS
        invariant Valid() && master == PutInputs(step, i)
        invariant history.posted == old(history.posted) && history.received == old(history.received)
      {
        PlantInterferes();
        MasterAccess(MasterGo(false));
      }
      MasterAccess(MasterGo(false));
    }

    /**
     `wait_for_outputs`, looking at the phase `polls` times before its deadline.  A
     ready wait returns the frame it received; any other leaves things as they were.
     */
    method WaitForOutputs(polls: nat) returns (result: WaitResult, outputs: Frame)
      requires Valid() && master == Outside
      modifies this, toPlant, toMaster
      ensures Valid() && master == Outside
      ensures history.masterWaits == old(history.masterWaits) + [result]
      ensures history.posted == old(history.posted)
      ensures history.received == old(history.received) + if result == Ready then [outputs] else []
    {
      hide Run, RunFrom, PlantStep;
      outputs := Zeros(FRAME_WORDS);
      MasterAccess(MasterInput.WaitForOutputs);
      result := SpinForOutputs(polls);
      if result == Ready {
        outputs := CopyToMaster();
        PlantInterferes();
        MasterAccess(MasterGo(false));  // phase
      }
    }

    /** The assignment from `plant_to_master`. */
    method CopyToMaster() returns (outputs: Frame)
      requires Valid() && master == TakeOutputs([])
      modifies this, toPlant, toMaster
      ensures Valid() && master == StoreIdle(outputs)
      ensures history.posted == old(history.posted) && history.received == old(history.received)
      ensures history.masterWaits == old(history.masterWaits)
    {
      hide Run, RunFrom, PlantStep;
      var got: seq<U64> := [];
      for i := 0 to FRAME_WORDS
        invariant Valid() && master == TakeOutputs(got) && |got| == i
        invariant history.posted == old(history.posted) && history.received == old(history.received)
        invariant history.masterWaits == old(history.masterWaits)
      {
        PlantInterferes();
        got := got + [toMaster[i]];
        MasterAccess(MasterGo(false));
      }
      outputs := got;
      MasterAccess(MasterGo(false));
    }

    /**
     `spin_wait_for_phase` with kOutputsPosted: says what the last look showed, and that the
     deadline has passed only after `polls` further looks.
     */
    method SpinForOutputs(polls: nat) returns (result: WaitResult)
      requires Valid() && master == WaitOutputs
      modifies this, toPlant, toMaster
      ensures Valid() && master == if result == Ready then TakeOutputs([]) else Outside
      ensures result == if phase == OutputsPosted then Ready
                        else if phase == ShutdownRequested then Shutdown else TimedOut
      ensures tick <= old(tick) + polls + 1 && (result == TimedOut ==> tick == old(tick) + polls + 1)
      ensures history.posted == old(history.posted) && history.received == old(history.received)
      ensures history.masterWaits == old(history.masterWaits) + if result == Ready then [] else [result]
    {
      hide Run, RunFrom, PlantStep;
      var left := polls;
      while true
        invariant Valid() && master == WaitOutputs
        invariant history.posted == old(history.posted) && history.received == old(history.received)
        invariant history.masterWaits == old(history.masterWaits)
        invariant 0 <= left <= polls && tick == old(tick) + (polls - left)
        decreases left
      {
        PlantInterferes();
        var current := phase;
        MasterAccess(MasterGo(left == 0));
        if current == OutputsPosted {
          return Ready;
        }
        if current == ShutdownRequested {
          return Shutdown;
        }
        if left == 0 {
          return TimedOut;
        }
        left := left - 1;
      }
    }

    /** `request_shutdown` */
    method RequestShutdown()
      requires Valid() && master == Outside
      modifies this, toPlant, toMaster
      ensures Valid() && master == Outside && phase == ShutdownRequested
      ensures history.posted == old(history.posted) && history.received == old(history.received)
    {
      hide Run, RunFrom, PlantStep;
      PlantInterferes();
      MasterAccess(MasterInput.RequestShutdown);
    }

    // -------------------------------------------------------------------------
    // The plant's calls
    // -------------------------------------------------------------------------

    /** `wait_for_inputs`, by a plant that may still hold a step: a ready wait returns the step it took. */
    method WaitForInputs(polls: nat) returns (result: WaitResult, step: Step)
      requires Valid() && (plant == Away || plant.Holding?)
      modifies this, toPlant, toMaster
      ensures Valid() && plant == if result == Ready then Holding(step) else Away
      ensures history.plantWaits == old(history.plantWaits) + [result]
      ensures history.answered == old(history.answered)
      ensures history.taken == old(history.taken) + if result == Ready then [step] else []
    {
      hide Run, RunFrom, MasterStep;
      step := Step(0, 0, Zeros(FRAME_WORDS));
      PlantAccess(PlantInput.WaitForInputs);
      result := SpinForInputs(polls);
      if result == Ready {
        var inputs := CopyToPlant();
        MasterInterferes();
        var time := simTime;
        PlantAccess(PlantGo(false));
        MasterInterferes();
        step := Step(time, dt, inputs);
        PlantAccess(PlantGo(false));
      }
    }

    /** The assignment from `master_to_plant`. */
    method CopyToPlant() returns (inputs: Frame)
      requires Valid() && plant == TakeInputs([])
      modifies this, toPlant, toMaster
      ensures Valid() && plant == TakeTime(inputs)
      ensures history.taken == old(history.taken) && history.answered == old(history.answered)
      ensures history.plantWaits == old(history.plantWaits)
    {
      hide Run, RunFrom, MasterStep;
      var got: seq<U64> := [];
      for i := 0 to FRAME_WORDS
        invariant Valid() && plant == TakeInputs(got) && |got| == i
        invariant history.taken == old(history.taken) && history.answered == old(history.answered)
        invariant history.plantWaits == old(history.plantWaits)
      {
        MasterInterferes();
        got := got + [toPlant[i]];
        PlantAccess(PlantGo(false));
      }
      inputs := got;
      PlantAccess(PlantGo(false));
    }

    /** `spin_wait_for_phase` with kInputsPosted, likewise. */
    method SpinForInputs(polls: nat) returns (result: WaitResult)
      requires Valid() && plant == WaitInputs
      modifies this, toPlant, toMaster
      ensures Valid() && plant == if result == Ready then TakeInputs([]) else Away
      ensures result == if phase == InputsPosted then Ready
                        else if phase == ShutdownRequested then Shutdown else TimedOut
      ensures tick <= old(tick) + polls + 1 && (result == TimedOut ==> tick == old(tick) + polls + 1)
      ensures history.taken == old(history.taken) && history.answered == old(history.answered)
      ensures history.plantWaits == old(history.plantWaits) + if result == Ready then [] else [result]
    {
      hide Run, RunFrom, MasterStep;
      var left := polls;
      while true
        invariant Valid() && plant == WaitInputs
        invariant history.taken == old(history.taken) && history.answered == old(history.answered)
        invariant history.plantWaits == old(history.plantWaits)
        invariant 0 <= left <= polls && tick == old(tick) + (polls - left)
        decreases left
      {
        MasterInterferes();
        var current := phase;
        PlantAccess(PlantGo(left == 0));
        if current == InputsPosted {
          return Ready;
        }
        if current == ShutdownRequested {
          return Shutdown;
        }
        if left == 0 {
          return TimedOut;
        }
        left := left - 1;
      }
    }

    /** `post_outputs`, by a plant that holds a step. */
    method PostOutputs(outputs: Frame)
      requires Valid() && plant.Holding?
      modifies this, toPlant, toMaster
      ensures Valid() && plant == Away
      ensures history.answered == old(history.answered) + [Answer(old(plant).step, outputs)]
      ensures history.taken == old(history.taken)
    {
      hide Run, RunFrom, MasterStep;
      ghost var step := plant.step;
      PlantAccess(PlantInput.PostOutputs(outputs));
      for i := 0 to FRAME_WORDS
        invariant Valid() && plant == PutOutputs(step, outputs, i)
        invariant history.taken == old(history.taken) && history.answered == old(history.answered)
      {
        MasterInterferes();
        PlantAccess(PlantGo(false));
      }
      PlantAccess(PlantGo(false));
      MasterInterferes();
      PlantAccess(PlantGo(false));  // phase
    }
  }

  /** As long as both sides have kept their turn, the calls on the object are in lockstep. */
  lemma CallsInLockstep(bridge: Bridge)
    requires bridge.Valid() && InTurn(bridge.schedule)
    ensures InLockstep(bridge.history)
  {
    LockstepHolds(bridge.schedule);
    hide Run, InTurn, InLockstep;
  }

  lemma PlantLeavesMaster(s: State, input: PlantInput)
    requires InBounds(s)
    ensures var s' := PlantStep(s, input);
            && s'.master == s.master
            && s'.history.posted == s.history.posted && s'.history.received == s.history.received
            && s'.history.masterWaits == s.history.masterWaits
  {
  }

  lemma MasterLeavesPlant(s: State, input: MasterInput)
    requires InBounds(s)
    ensures var s' := MasterStep(s, input);
            && s'.plant == s.plant
            && s'.history.taken == s.history.taken && s'.history.answered == s.history.answered
            && s'.history.plantWaits == s.history.plantWaits
  {
  }
}
