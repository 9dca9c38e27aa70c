/**
 The lockstep bridge as a transition system: a master and a plant, each inside
 one of its calls or between two of them, taking turns at single accesses to the
 shared region in any order.  Frames are copied word by word.

 Nothing in the code keeps the two sides in turn.  `InTurn` is what it expects of
 them: the master posts when no step is outstanding, and the plant asks for no other
 step while it holds one, unless shutdown has been requested.  Waits may time out and
 be repeated any number of times, and shutdown may be requested at any time.
 */
module Lockstep {
  import opened Words

  datatype StepPhase = Idle | InputsPosted | OutputsPosted | ShutdownRequested

  datatype WaitResult = Ready | Shutdown | TimedOut

  /** kMaxChannelValues values and the count. */
  const FRAME_WORDS: nat := 65

  type Frame = f: seq<U64> | |f| == FRAME_WORDS witness Zeros(FRAME_WORDS)

  /** What `post_inputs` posts, doubles as their 64-bit patterns. */
  datatype Step = Step(simTime: U64, dt: U64, inputs: Frame)

  datatype Answer = Answer(step: Step, outputs: Frame)

  // ---------------------------------------------------------------------------
  // State
  // ---------------------------------------------------------------------------

  datatype Region = Region(
    phase: StepPhase, stepIndex: nat, simTime: U64, dt: U64, toPlant: Frame, toMaster: Frame)

  datatype MasterPc =
    | Outside
    | PutTime(step: Step)
    | PutDt(step: Step)
    | PutInputs(step: Step, i: nat)
    | BumpIndex(step: Step)
    | StorePosted(step: Step)
    | WaitOutputs
    | TakeOutputs(got: seq<U64>)
    | StoreIdle(outputs: Frame)

  datatype PlantPc =
    | Away
    | WaitInputs
    | TakeInputs(got: seq<U64>)
    | TakeTime(inputs: Frame)
    | TakeDt(inputs: Frame, simTime: U64)
    | Holding(step: Step)
    | PutOutputs(step: Step, outputs: Frame, i: nat)
    | StoreOutputs(step: Step, outputs: Frame)

  /**
   `posted`: steps posted; `taken`: what the ready waits for inputs returned;
   `answered`: what the plant posted, with the step it held; `received`: what the
   ready waits for outputs returned; and all results of both waits.
   */
  datatype History = History(
    posted: seq<Step>, taken: seq<Step>, answered: seq<Answer>, received: seq<Frame>,
    masterWaits: seq<WaitResult>, plantWaits: seq<WaitResult>)

  datatype State = State(region: Region, master: MasterPc, plant: PlantPc, history: History)

  /** `create_master` has constructed the region. */
  function Initial(): State {
    State(Region(Idle, 0, 0, 0, Zeros(FRAME_WORDS), Zeros(FRAME_WORDS)), Outside, Away, History([], [], [], [], [], []))
  }

  predicate InBounds(s: State) {
    && s.region.stepIndex < TWO_64
    && (s.master.PutInputs? ==> s.master.i <= FRAME_WORDS)
    && (s.master.TakeOutputs? ==> |s.master.got| <= FRAME_WORDS)
    && (s.plant.TakeInputs? ==> |s.plant.got| <= FRAME_WORDS)
    && (s.plant.PutOutputs? ==> s.plant.i <= FRAME_WORDS)
  }

  /** A posted step whose answer has not been received. */
  predicate Outstanding(h: History) {
    |h.posted| != |h.received|
  }

  // ---------------------------------------------------------------------------
  // Steps
  // ---------------------------------------------------------------------------

  /** `Go` carries on inside a call; at a wait it says whether the deadline has passed. */
  datatype MasterInput = PostInputs(step: Step) | WaitForOutputs | RequestShutdown | MasterGo(deadlinePassed: bool)

  datatype PlantInput = WaitForInputs | PostOutputs(outputs: Frame) | PlantGo(deadlinePassed: bool)

  datatype Choice = Master(minput: MasterInput) | Plant(pinput: PlantInput)

  function MasterWaited(s: State, result: WaitResult): State {
    s.(master := Outside, history := s.history.(masterWaits := s.history.masterWaits + [result]))
  }

  function PlantWaited(s: State, result: WaitResult): State {
    s.(plant := Away, history := s.history.(plantWaits := s.history.plantWaits + [result]))
  }

  function MasterStep(s: State, input: MasterInput): (s': State)
    requires InBounds(s)
    ensures InBounds(s')
  {
    match s.master
    case Outside =>
      (match input
       case PostInputs(step) => s.(master := PutTime(step))
       case WaitForOutputs => s.(master := WaitOutputs)
       case RequestShutdown => s.(region := s.region.(phase := ShutdownRequested))
       case MasterGo(_) => s)
    case PutTime(step) => s.(region := s.region.(simTime := step.simTime), master := PutDt(step))
    case PutDt(step) => s.(region := s.region.(dt := step.dt), master := PutInputs(step, 0))
    case PutInputs(step, i) =>
      if i < FRAME_WORDS then
        s.(region := s.region.(toPlant := s.region.toPlant[i := step.inputs[i]]), master := PutInputs(step, i + 1))
      else s.(master := BumpIndex(step))
    case BumpIndex(step) =>
      s.(region := s.region.(stepIndex := (s.region.stepIndex + 1) % TWO_64), master := StorePosted(step))
    case StorePosted(step) =>
      s.(region := s.region.(phase := InputsPosted), master := Outside,
         history := s.history.(posted := s.history.posted + [step]))
    case WaitOutputs =>
      if s.region.phase == OutputsPosted then s.(master := TakeOutputs([]))
      else if s.region.phase == ShutdownRequested then MasterWaited(s, Shutdown)
      else if input == MasterGo(true) then MasterWaited(s, TimedOut)
      else s
    case TakeOutputs(got) =>
      if |got| < FRAME_WORDS then s.(master := TakeOutputs(got + [s.region.toMaster[|got|]]))
      else s.(master := StoreIdle(got))
    case StoreIdle(outputs) =>
      MasterWaited(s.(region := s.region.(phase := Idle),
                      history := s.history.(received := s.history.received + [outputs])), Ready)
  }

  function PlantStep(s: State, input: PlantInput): (s': State)
    requires InBounds(s)
    ensures InBounds(s')
  {
    match s.plant
    case Away => if input == WaitForInputs then s.(plant := WaitInputs) else s
    case WaitInputs =>
      if s.region.phase == InputsPosted then s.(plant := TakeInputs([]))
      else if s.region.phase == ShutdownRequested then PlantWaited(s, Shutdown)
      else if input == PlantGo(true) then PlantWaited(s, TimedOut)
      else s
    case TakeInputs(got) =>
      if |got| < FRAME_WORDS then s.(plant := TakeInputs(got + [s.region.toPlant[|got|]]))
      else s.(plant := TakeTime(got))
    case TakeTime(inputs) => s.(plant := TakeDt(inputs, s.region.simTime))
    case TakeDt(inputs, simTime) =>
      var step := Step(simTime, s.region.dt, inputs);
      PlantWaited(s.(history := s.history.(taken := s.history.taken + [step])), Ready).(plant := Holding(step))
    case Holding(step) =>
      (match input
       case PostOutputs(outputs) => s.(plant := PutOutputs(step, outputs, 0))
       case WaitForInputs => s.(plant := WaitInputs)
       case PlantGo(_) => s)
    case PutOutputs(step, outputs, i) =>
      if i < FRAME_WORDS then
        s.(region := s.region.(toMaster := s.region.toMaster[i := outputs[i]]),
           plant := PutOutputs(step, outputs, i + 1))
      else s.(plant := StoreOutputs(step, outputs))
    case StoreOutputs(step, outputs) =>
      s.(region := s.region.(phase := OutputsPosted), plant := Away,
         history := s.history.(answered := s.history.answered + [Answer(step, outputs)]))
  }

  function Next(s: State, c: Choice): (s': State)
    requires InBounds(s)
    ensures InBounds(s')
  {
    match c
    case Master(input) => MasterStep(s, input)
    case Plant(input) => PlantStep(s, input)
  }

  function RunFrom(s: State, schedule: seq<Choice>): (s': State)
    requires InBounds(s)
    ensures InBounds(s')
    decreases |schedule|
  {
    if schedule == [] then s else Next(RunFrom(s, schedule[..|schedule| - 1]), schedule[|schedule| - 1])
  }

  function Run(schedule: seq<Choice>): (s: State)
    ensures InBounds(s)
  {
    RunFrom(Initial(), schedule)
  }

  /**
   The master does not post over an outstanding step; the plant does not ask for another
   while it holds one, unless shutdown has been requested.
   */
  predicate Allowed(s: State, c: Choice) {
    match c
    case Master(PostInputs(_)) => s.master == Outside ==> !Outstanding(s.history)
    case Plant(WaitForInputs) => s.plant.Holding? ==> s.region.phase == ShutdownRequested
    case _ => true
  }

  /** Every choice is an allowed one where it is made. */
  predicate InTurnFrom(s: State, schedule: seq<Choice>)
    requires InBounds(s)
    decreases |schedule|
  {
    schedule == [] ||
    (var n := |schedule| - 1;
     InTurnFrom(s, schedule[..n]) && Allowed(RunFrom(s, schedule[..n]), schedule[n]))
  }

  predicate InTurn(schedule: seq<Choice>) {
    InTurnFrom(Initial(), schedule)
  }

  lemma RunSnoc(s: State, schedule: seq<Choice>, c: Choice)
    requires InBounds(s)
    ensures RunFrom(s, schedule + [c]) == Next(RunFrom(s, schedule), c)
  {
    hide Next;
    assert (schedule + [c])[..|schedule|] == schedule;
  }

  lemma {:induction false} RunConcat(s: State, a: seq<Choice>, b: seq<Choice>)
    requires InBounds(s)
    ensures RunFrom(s, a + b) == RunFrom(RunFrom(s, a), b)
    decreases |b|
  {
    hide Next;
    if b == [] {
      assert a + b == a;
    } else {
      var c := b[|b| - 1];
      RunConcat(s, a, b[..|b| - 1]);
      assert a + b == (a + b[..|b| - 1]) + [c];
      RunSnoc(s, a + b[..|b| - 1], c);
    }
  }

  lemma {:induction false} InTurnConcat(s: State, a: seq<Choice>, b: seq<Choice>)
    requires InBounds(s)
    ensures InTurnFrom(s, a + b) <==> InTurnFrom(s, a) && InTurnFrom(RunFrom(s, a), b)
    decreases |b|
  {
    hide RunFrom, Allowed;
    if b == [] {
      assert a + b == a;
    } else {
      var n := |b| - 1;
      InTurnConcat(s, a, b[..n]);
      RunConcat(s, a, b[..n]);
      assert (a + b)[..|a + b| - 1] == a + b[..n];
    }
  }

  lemma NothingRun(s: State)
    requires InBounds(s)
    ensures RunFrom(s, []) == s && InTurnFrom(s, [])
  {
  }

  /** The first choice and the rest. */
  lemma RunCons(s: State, c: Choice, rest: seq<Choice>)
    requires InBounds(s)
    ensures RunFrom(s, [c] + rest) == RunFrom(Next(s, c), rest)
    ensures InTurnFrom(s, [c] + rest) <==> Allowed(s, c) && InTurnFrom(Next(s, c), rest)
  {
    OneStep(s, c);
    RunConcat(s, [c], rest);
    InTurnConcat(s, [c], rest);
    hide RunFrom, InTurnFrom, Next, Allowed;
  }

  lemma OneStep(s: State, c: Choice)
    requires InBounds(s)
    ensures RunFrom(s, [c]) == Next(s, c)
    ensures InTurnFrom(s, [c]) <==> Allowed(s, c)
  {
    hide Next, Allowed;
    NothingRun(s);
    assert [c][..0] == [];
  }
}
