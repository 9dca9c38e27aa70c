/**
 Bounded completion of a step: how many accesses of either side until the master's
 wait returns, however they are interleaved.
 */
module LockstepProgress {
  import opened Lockstep
  import opened LockstepSafety
  import opened LockstepCalls

  /** A plant that answers what it takes, a master that waits, and deadlines far away. */
  predicate Cooperative(schedule: seq<Choice>) {
    forall c :: c in schedule ==> c == Master(MasterGo(false)) || (c.Plant? && c.pinput.PostOutputs?)
  }

  function PlantSteps(schedule: seq<Choice>): nat {
    if schedule == [] then 0 else (if schedule[0].Plant? then 1 else 0) + PlantSteps(schedule[1..])
  }

  function MasterSteps(schedule: seq<Choice>): nat {
    if schedule == [] then 0 else (if schedule[0].Master? then 1 else 0) + MasterSteps(schedule[1..])
  }

  lemma {:induction false} MasterStepsConcat(a: seq<Choice>, b: seq<Choice>)
    ensures MasterSteps(a + b) == MasterSteps(a) + MasterSteps(b)
    decreases |a|
  {
    if a == [] {
      assert a + b == b;
    } else {
      assert (a + b)[1..] == a[1..] + b;
      MasterStepsConcat(a[1..], b);
    }
  }

  lemma {:induction false} FirstChoice(schedule: seq<Choice>)
    requires Cooperative(schedule) && (PlantSteps(schedule) > 0 || MasterSteps(schedule) > 0)
    ensures var (c, rest) := (schedule[0], schedule[1..]);
            && Cooperative([c]) && Cooperative(rest)
            && PlantSteps(schedule) == (if c.Plant? then 1 else 0) + PlantSteps(rest)
            && MasterSteps(schedule) == (if c.Master? then 1 else 0) + MasterSteps(rest)
  {
    assert schedule[0] in schedule && forall c :: c in schedule[1..] ==> c in schedule;
  }

  // ---------------------------------------------------------------------------
  // Until the outputs are posted
  // ---------------------------------------------------------------------------

  /** The master waits for a posted step that the plant waits for or has. */
  ghost predicate InService(s: State) {
    s.master == WaitOutputs && s.region.phase == InputsPosted && (s.plant == WaitInputs || WillAnswer(s.plant))
  }

  /** The outputs are posted and the master waits for them. */
  ghost predicate Answered(s: State) {
    s.master == WaitOutputs && s.region.phase == OutputsPosted && s.plant == Away
  }

  function StepsToAnswer(s: State): nat
    requires InBounds(s)
  {
    if s.plant == WaitInputs then 2 * FRAME_WORDS + 7 else AnswerIn(s.plant)
  }

  lemma AnswerNearerBy(s: State, c: Choice)
    requires InBounds(s) && InService(s) && Cooperative([c])
    ensures var s' := Next(s, c);
            && s'.history.masterWaits == s.history.masterWaits
            && (Answered(s') || (InService(s') && StepsToAnswer(s') + (if c.Plant? then 1 else 0) <= StepsToAnswer(s)))
  {
    assert c in [c];
  }

  lemma SomeLeft(s: State)
    requires InBounds(s) && InService(s)
    ensures 0 < StepsToAnswer(s) <= 137
  {
  }

  lemma {:induction false} AnswerComesInTime(s: State, schedule: seq<Choice>) returns (k: nat)
    requires InBounds(s) && InService(s) && Cooperative(schedule)
    requires PlantSteps(schedule) >= StepsToAnswer(s)
    ensures k <= |schedule| && Answered(RunFrom(s, schedule[..k]))
    ensures RunFrom(s, schedule[..k]).history.masterWaits == s.history.masterWaits
    decreases |schedule|
  {
    SomeLeft(s);
    FirstChoice(schedule);
    hide Next, InService, Answered, StepsToAnswer, RunFrom, Cooperative, PlantSteps, MasterSteps, InBounds;
    var s' := Next(s, schedule[0]);
    AnswerNearerBy(s, schedule[0]);
    if Answered(s') {
      k := 0;
      NothingRun(s');
    } else {
      k := AnswerComesInTime(s', schedule[1..]);
    }
    assert schedule[..k + 1] == [schedule[0]] + schedule[1..][..k];
    RunCons(s, schedule[0], schedule[1..][..k]);
    k := k + 1;
  }

  // ---------------------------------------------------------------------------
  // Until they are received
  // ---------------------------------------------------------------------------

  ghost predicate Receiving(s: State) {
    (s.master == WaitOutputs || MasterTakes(s.master)) && s.region.phase == OutputsPosted && s.plant == Away
  }

  function StepsToReceive(s: State): nat
    requires InBounds(s)
  {
    match s.master
    case WaitOutputs => FRAME_WORDS + 3
    case TakeOutputs(got) => FRAME_WORDS - |got| + 2
    case StoreIdle(_) => 1
    case _ => 0
  }

  lemma ReceiptNearerBy(s: State, c: Choice)
    requires InBounds(s) && Receiving(s) && Cooperative([c])
    ensures var s' := Next(s, c);
            || s'.history.masterWaits == s.history.masterWaits + [Ready]
            || (&& Receiving(s') && s'.history.masterWaits == s.history.masterWaits
                && StepsToReceive(s') + (if c.Master? then 1 else 0) <= StepsToReceive(s))
  {
    assert c in [c];
  }

  lemma {:induction false} ReceiptComesInTime(s: State, schedule: seq<Choice>) returns (k: nat)
    requires InBounds(s) && Receiving(s) && Cooperative(schedule)
    requires MasterSteps(schedule) >= StepsToReceive(s)
    ensures k <= |schedule| && RunFrom(s, schedule[..k]).history.masterWaits == s.history.masterWaits + [Ready]
    decreases |schedule|
  {
    SomeLeftToReceive(s);
    FirstChoice(schedule);
    hide Next, Receiving, StepsToReceive, RunFrom, Cooperative, PlantSteps, MasterSteps, InBounds;
    var s' := Next(s, schedule[0]);
    ReceiptNearerBy(s, schedule[0]);
    if s'.history.masterWaits == s.history.masterWaits + [Ready] {
      k := 0;
      NothingRun(s');
    } else {
      k := ReceiptComesInTime(s', schedule[1..]);
    }
    assert schedule[..k + 1] == [schedule[0]] + schedule[1..][..k];
    RunCons(s, schedule[0], schedule[1..][..k]);
    k := k + 1;
  }

  lemma SomeLeftToReceive(s: State)
    requires InBounds(s) && Receiving(s)
    ensures StepsToReceive(s) > 0
  {
  }

  /** `j` steps into `a` and `i` steps on, with `b` after `a`. */
  lemma RunOn(s: State, a: seq<Choice>, b: seq<Choice>, j: nat, i: nat)
    requires InBounds(s) && j <= |a| && i <= |a[j..] + b|
    ensures j + i <= |a + b|
    ensures RunFrom(s, (a + b)[..j + i]) == RunFrom(RunFrom(s, a[..j]), (a[j..] + b)[..i])
  {
    hide RunFrom, InBounds;
    assert (a + b)[..j + i] == a[..j] + (a[j..] + b)[..i];
    RunConcat(s, a[..j], (a[j..] + b)[..i]);
  }

  lemma ReceivingBegins(s: State)
    requires InBounds(s) && Answered(s)
    ensures Receiving(s) && StepsToReceive(s) == 68
  {
  }

  /**
   A posted step is answered within 137 accesses of the plant, and the master's wait
   returns ready within 68 of its own after that, however they are interleaved.
   */
  lemma {:induction false} StepCompletes(s: State, a: seq<Choice>, b: seq<Choice>) returns (k: nat)
    requires InBounds(s) && InService(s) && Cooperative(a) && Cooperative(b)
    requires PlantSteps(a) >= 137 && MasterSteps(b) >= 68
    ensures k <= |a + b| && RunFrom(s, (a + b)[..k]).history.masterWaits == s.history.masterWaits + [Ready]
  {
    hide *;
    SomeLeft(s);
    var j := AnswerComesInTime(s, a);
    var answered := RunFrom(s, a[..j]);
    ReceivingBegins(answered);
    Remaining(a, b, j);
    var i := ReceiptComesInTime(answered, a[j..] + b);
    RunOn(s, a, b, j, i);
    k := j + i;
  }

  /** What is left of the schedule after `j` steps of `a`. */
  lemma {:induction false} Remaining(a: seq<Choice>, b: seq<Choice>, j: nat)
    requires Cooperative(a) && Cooperative(b) && j <= |a|
    ensures Cooperative(a[j..] + b) && MasterSteps(a[j..] + b) >= MasterSteps(b)
  {
    MasterStepsConcat(a[j..], b);
  }
}
