/**
 The regulator sequencer over whole histories of calls: what `configure` and `start`
 answer, and which steps a running sequence counts.
 */
module SequencerHistory {
  import opened Words
  import opened SequencerModel

  /** `ids` are those read once the count is accepted. */
  datatype Op = Configure(ids: seq<Byte>, count: nat, timeout: U32) | Start | Next(tick: Tick)

  function Apply(s: Sequencer, op: Op): Sequencer {
    match op
    case Configure(ids, count, timeout) =>
      if ConfigureError(s, count) == NoError && |ids| == count then Sequencer(ids, timeout, 0, 0, Idle) else s
    case Start => if StartError(s) == NoError then Started(s.rails, s.timeout) else s
    case Next(tick) => Step(Wrapping, s, tick)
  }

  /** The sequencer after a history of calls on a fresh one. */
  function After(ops: seq<Op>): Sequencer
    decreases |ops|
  {
    if ops == [] then FRESH else Apply(After(ops[..|ops| - 1]), ops[|ops| - 1])
  }

  lemma AfterSnoc(ops: seq<Op>, op: Op)
    ensures After(ops + [op]) == Apply(After(ops), op)
  {
    assert (ops + [op])[..|ops|] == ops;
  }

  // ---------------------------------------------------------------------------
  // The history, without the code's own error checks
  // ---------------------------------------------------------------------------

  /** A configuration of 1 to kMaxRails rails. */
  predicate Configures(op: Op) {
    op.Configure? && 1 <= op.count <= MAX_RAILS && |op.ids| == op.count
  }

  /** What the history says of a sequence: its rails, its timeout, and the steps of the last start, if any. */
  datatype Record = Record(rails: seq<Byte>, timeout: U32, started: bool, ticks: seq<Tick>)

  /** A started sequence runs until all its rails have confirmed in time or one was late. */
  ghost predicate Running(r: Record) {
    r.started && Confirmed(r.ticks) < |r.rails| && Prompt(r.ticks, r.timeout)
  }

  /**
   While a sequence runs only steps count.  Otherwise an acceptable configuration takes
   effect and ends the last start, and a start with rails configured begins the steps anew.
   */
  ghost function Recorded(ops: seq<Op>): Record
    decreases |ops|
  {
    if ops == [] then Record([], 0, false, [])
    else
      var (r, op) := (Recorded(ops[..|ops| - 1]), ops[|ops| - 1]);
      if op.Next? then r.(ticks := r.ticks + [op.tick])
      else if Running(r) then r
      else if Configures(op) then Record(op.ids, op.timeout, false, [])
      else if op.Start? && r.rails != [] then r.(started := true, ticks := [])
      else r
  }

  lemma RecordedSnoc(ops: seq<Op>, op: Op)
    ensures var r := Recorded(ops);
            Recorded(ops + [op]) ==
              if op.Next? then r.(ticks := r.ticks + [op.tick])
              else if Running(r) then r
              else if Configures(op) then Record(op.ids, op.timeout, false, [])
              else if op.Start? && r.rails != [] then r.(started := true, ticks := [])
              else r
  {
    assert (ops + [op])[..|ops|] == ops;
  }

  /** No step of the sequence overflows the counter while a rail is being enabled. */
  ghost predicate Fits(r: Record) {
    r.started ==> StepsFit(Started(r.rails, r.timeout), r.ticks)
  }

  /** The state is that of the recorded sequence, from its start and its steps alone. */
  ghost predicate Agrees(s: Sequencer, r: Record) {
    && s.rails == r.rails && s.timeout == r.timeout && |r.rails| <= MAX_RAILS
    && (if r.started then r.rails != [] && s == Run(Wrapping, Started(r.rails, r.timeout), r.ticks)
        else s == Sequencer(r.rails, r.timeout, 0, 0, Idle))
  }

  /** Every sequence of the history fits, up to its end. */
  ghost predicate AllFit(ops: seq<Op>) {
    forall k :: 0 <= k <= |ops| ==> Fits(Recorded(ops[..k]))
  }

  lemma EnablingIffRunning(s: Sequencer, r: Record)
    requires Agrees(s, r) && Fits(r)
    ensures s.phase == Enabling <==> Running(r)
  {
    if r.started {
      WrapIsHarmless(Started(r.rails, r.timeout), r.ticks);
      EnablingStands(r.rails, r.timeout, r.ticks);
      PhaseIsItsHistory(r.rails, r.timeout, r.ticks);
      if Running(r) {
        StillEnabling(r.ticks, |r.rails|, r.timeout);
        NeverIdle(Unbounded, r.rails, r.timeout, r.ticks);
      }
      hide Run, Faults, Completes, Confirmed, Prompt, StepsFit;
    }
  }

  lemma {:induction false} NextAgrees(s: Sequencer, r: Record, tick: Tick)
    requires Agrees(s, r)
    ensures Agrees(Step(Wrapping, s, tick), r.(ticks := r.ticks + [tick]))
  {
    if r.started {
      RunSnoc(Wrapping, Started(r.rails, r.timeout), r.ticks, tick);
      SameRails(Wrapping, s, tick);
      hide Run, Step;
    } else {
      hide Run;
    }
  }

  lemma SameRails(clock: Clock, s: Sequencer, tick: Tick)
    ensures var s' := Step(clock, s, tick); s'.rails == s.rails && s'.timeout == s.timeout
  {
  }

  lemma ApplyAgrees(ops: seq<Op>, op: Op, s: Sequencer)
    requires Agrees(s, Recorded(ops)) && Fits(Recorded(ops))
    ensures Agrees(Apply(s, op), Recorded(ops + [op]))
  {
    var r := Recorded(ops);
    RecordedSnoc(ops, op);
    EnablingIffRunning(s, r);
    match op
    case Next(tick) => NextAgrees(s, r, tick);
    case Configure(_, _, _) => hide Run, Recorded, Running;
    case Start =>
      hide Recorded, Running;
      assert Run(Wrapping, Started(r.rails, r.timeout), []) == Started(r.rails, r.timeout);
  }

  /**
   After any history of calls: the rails are those of the last acceptable configuration
   made while nothing ran, and a running sequence has counted exactly the steps since the
   last start made while nothing ran.  Neither call disturbs a running sequence.
   */
  lemma {:induction false} HistoryAgrees(ops: seq<Op>)
    requires AllFit(ops)
    ensures Agrees(After(ops), Recorded(ops))
    decreases |ops|
  {
    if ops != [] {
      var before, op := ops[..|ops| - 1], ops[|ops| - 1];
      forall k | 0 <= k <= |before| ensures Fits(Recorded(before[..k])) {
        assert before[..k] == ops[..k];
      }
      hide Agrees, Recorded, Fits, After, Apply;
      HistoryAgrees(before);
      assert before[..|before|] == before;
      assert ops == before + [op];
      AfterSnoc(before, op);
      ApplyAgrees(before, op, After(before));
    }
  }

  /** The phase after any history: enabling while the recorded sequence runs, then as it ended. */
  lemma PhaseAfter(ops: seq<Op>)
    requires AllFit(ops)
    ensures var (s, r) := (After(ops), Recorded(ops));
            && (s.phase == Idle <==> !r.started)
            && (s.phase == Enabling <==> Running(r))
            && (s.phase == Enabling ==> s.index == Confirmed(r.ticks) < |r.rails|)
            && (s.phase == Faulted <==> r.started && Faults(r.ticks, |r.rails|, r.timeout))
            && (s.phase == Complete <==> r.started && Completes(r.ticks, |r.rails|, r.timeout))
  {
    var r := Recorded(ops);
    HistoryAgrees(ops);
    assert ops[..|ops|] == ops;
    EnablingIffRunning(After(ops), r);
    if r.started {
      WrappingPhaseIsItsHistory(r.rails, r.timeout, r.ticks);
      NeverIdle(Wrapping, r.rails, r.timeout, r.ticks);
    }
    hide After, Recorded, Run, Running, Faults, Completes, Confirmed, StepsFit;
  }

  // ---------------------------------------------------------------------------
  // What start() answers
  // ---------------------------------------------------------------------------

  /** The errors the header lists for a call of `start` after this history. */
  ghost function ListedForStart(r: Record): set<Error> {
    (if Running(r) then {AlreadyRunning} else {}) + (if r.rails == [] then {NoRails} else {})
  }

  /** `start` returns the error the header lists, and is accepted where it lists none. */
  lemma StartAnswersAsListed(ops: seq<Op>)
    requires AllFit(ops)
    ensures var (error, listed) := (StartError(After(ops)), ListedForStart(Recorded(ops)));
            if error == NoError then listed == {} else listed == {error}
  {
    HistoryAgrees(ops);
    assert ops[..|ops|] == ops;
    EnablingIffRunning(After(ops), Recorded(ops));
    hide After, Recorded, Run, Confirmed, Prompt;
  }

  /** Called in the middle of a sequence it says so and changes nothing. */
  lemma StartWhileEnabling(s: Sequencer)
    requires Valid(s) && s.phase == Enabling
    ensures StartError(s) == AlreadyRunning && Apply(s, Start) == s
  {
  }

  /** Two rails, the first of which has confirmed: a second start does not go back to it. */
  lemma StartsAgain()
    ensures var ops := [Configure([7, 9], 2, 100), Start, Next(Tick(1, true)), Start];
            CurrentRail(After(ops)) == 9 && After(ops).phase == Enabling
            && After(ops + [Next(Tick(1, true))]).phase == Complete
  {
    var ops := [Configure([7, 9], 2, 100), Start, Next(Tick(1, true)), Start];
    AfterSnoc([], ops[0]);
    AfterSnoc(ops[..1], ops[1]);
    AfterSnoc(ops[..2], ops[2]);
    AfterSnoc(ops[..3], ops[3]);
    assert [] + [ops[0]] == ops[..1] && ops[..1] + [ops[1]] == ops[..2];
    assert ops[..2] + [ops[2]] == ops[..3] && ops[..3] + [ops[3]] == ops;
    AfterSnoc(ops, Next(Tick(1, true)));
  }
}
