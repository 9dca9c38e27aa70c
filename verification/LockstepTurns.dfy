/**
 What keeping the turn is for: the first choice that does not is exactly where the
 lockstep can be lost.
 */
module LockstepTurns {
  import opened Lockstep
  import opened LockstepSafety
  import opened LockstepCalls

  // ---------------------------------------------------------------------------
  // The first choice out of turn
  // ---------------------------------------------------------------------------

  /** A step posted over an outstanding one: two are outstanding when the call returns. */
  lemma SecondStepOutstanding(at: seq<Choice>, step: Step) returns (more: seq<Choice>)
    requires InTurn(at) && Run(at).master == Outside && Outstanding(Run(at).history)
    ensures var s := Next(Run(at), Master(PostInputs(step)));
            InTurnFrom(s, more) && !InLockstep(RunFrom(s, more).history)
  {
    hide Run, RunFrom, InTurnFrom;
    RunKeeps(at);
    var s';
    more, s' := FillAll(Next(Run(at), Master(PostInputs(step))));
  }

  /** A plant that holds the step and asks again takes one more than there are. */
  lemma OneTakenTooMany(at: seq<Choice>) returns (more: seq<Choice>)
    requires InTurn(at) && Run(at).plant.Holding? && Run(at).region.phase != ShutdownRequested
    ensures var s := Next(Run(at), Plant(WaitForInputs));
            InTurnFrom(s, more) && !InLockstep(RunFrom(s, more).history)
  {
    hide Run, RunFrom, InTurnFrom;
    RunKeeps(at);
    var s';
    more, s' := LookAndTake(Next(Run(at), Plant(WaitForInputs)));
  }

  /**
   After a run in turn, a choice is allowed exactly when every continuation in turn is
   still in lockstep: nothing less than keeping the turn will do, and nothing more is needed.
   */
  lemma TurnIsExact(at: seq<Choice>, c: Choice)
    requires InTurn(at)
    ensures Allowed(Run(at), c) <==>
            forall more :: InTurnFrom(Run(at + [c]), more) ==> InLockstep(Run(at + [c] + more).history)
  {
    hide RunFrom, InTurnFrom, InLockstep, Next;
    RunSnoc(Initial(), at, c);
    if Allowed(Run(at), c) {
      forall more | InTurnFrom(Run(at + [c]), more) ensures InLockstep(Run(at + [c] + more).history) {
        OneStep(Run(at), c);
        InTurnConcat(Initial(), at, [c]);
        InTurnConcat(Initial(), at + [c], more);
        LockstepHolds(at + [c] + more);
      }
    } else {
      var more;
      if c.Master? {
        more := SecondStepOutstanding(at, c.minput.step);
      } else {
        more := OneTakenTooMany(at);
      }
      RunConcat(Initial(), at + [c], more);
      assert !InLockstep(Run(at + [c] + more).history);
    }
  }

  // ---------------------------------------------------------------------------
  // Two runs
  // ---------------------------------------------------------------------------

  /** A step taken that is not the one posted: somebody did not keep the turn. */
  lemma OutOfTurn(schedule: seq<Choice>, k: nat)
    requires var h := Run(schedule).history; k < |h.taken| && (k >= |h.posted| || h.taken[k] != h.posted[k])
    ensures !InTurn(schedule)
  {
    if InTurn(schedule) {
      LockstepHolds(schedule);
    }
    hide Run, InTurn;
  }

  /** The master posts twice: the first step is lost, and the plant takes the second for it. */
  lemma PostingOverLosesAStep(a: Step, b: Step) returns (schedule: seq<Choice>)
    requires a != b
    ensures var h := Run(schedule).history; h.posted == [a, b] && h.taken == [b]
    ensures !InTurn(schedule)
  {
    hide RunFrom, InTurn, Shows;
    var first, s := PostAll(Initial(), a);
    var second, third;
    second, s := PostAll(s, b);
    third, s := WaitAndTake(s);
    schedule := first + second + third;
    RunConcat(Initial(), first, second);
    RunConcat(Initial(), first + second, third);
    Same(s.region, s.plant.step, b);
    OutOfTurn(schedule, 0);
  }

  lemma Same(r: Region, a: Step, b: Step)
    requires Shows(r, a) && Shows(r, b)
    ensures a == b
  {
  }

  /** The plant asks again while it holds a step: it is handed the same one twice. */
  lemma AskingAgainRepeatsAStep(a: Step) returns (schedule: seq<Choice>)
    ensures var h := Run(schedule).history; h.posted == [a] && h.taken == [a, a]
    ensures !InTurn(schedule)
  {
    hide RunFrom, InTurn, Shows;
    var first, s := PostAll(Initial(), a);
    var second, third;
    second, s := WaitAndTake(s);
    Same(s.region, s.plant.step, a);
    third, s := WaitAndTake(s);
    Same(s.region, s.plant.step, a);
    schedule := first + second + third;
    RunConcat(Initial(), first, second);
    RunConcat(Initial(), first + second, third);
    OutOfTurn(schedule, 1);
  }
}
