/** `RegulatorSequencer` in place, against its value in `SequencerModel`. */
module RegulatorSequencer {
  import opened Words
  import opened SequencerModel
  import opened SequencerHistory

  /** What comes of `configure`: its result, or a read through a null pointer. */
  datatype Configured = Returned(error: Error) | NullRead

  class Regulator {
    /** rail_ids_ */
    const railIds: array<Byte>
    var railCount: nat
    var index: nat
    var timeout: U32
    var elapsed: U32
    var phase: Phase

    /** The calls so far. */
    ghost var ops: seq<Op>

    ghost predicate Shape()
      reads this
    {
      railIds.Length == MAX_RAILS && railCount <= MAX_RAILS
    }

    ghost function Contents(): Sequencer
      requires Shape()
      reads this, railIds
    {
      Sequencer(railIds[..railCount], timeout, index, elapsed, phase)
    }

    /** The array is zero until the first `configure` fills it. */
    ghost predicate Good()
      reads this, railIds
    {
      && Shape() && Valid(Contents()) && (railCount == 0 ==> railIds[0] == 0)
      && Contents() == After(ops)
    }

    constructor ()
      ensures Good() && fresh(railIds) && Contents() == FRESH && ops == []
    {
      railIds := new Byte[MAX_RAILS](_ => 0);
      railCount, index, timeout, elapsed, phase, ops := 0, 0, 0, 0, Idle, [];
    }

    /**
     The pointer is read only once the count is accepted; it must then hold that many ids,
     unless it is null.  `NullRead` is what then comes of reading it: nothing the source
     defines, and here the end of the call.
     */
    method Configure(ids: array?<Byte>, count: Byte, confirmTimeout: U32) returns (outcome: Configured)
      requires Good()
      requires ConfigureError(Contents(), count) == NoError && ids != null ==> count <= ids.Length
      modifies this, railIds
      ensures Good()
      ensures var error := ConfigureError(old(Contents()), count);
              if error == NoError && ids == null then
                outcome == NullRead && Contents() == old(Contents()) && ops == old(ops)
              else
                && outcome == Returned(error)
                && ops == old(ops) + [Op.Configure(if error == NoError then old(ids[..count]) else [],
                                                   count, confirmTimeout)]
                && Contents() == if error == NoError then Sequencer(old(ids[..count]), confirmTimeout, 0, 0, Idle)
                                 else old(Contents())
    {
      ghost var read := if ConfigureError(Contents(), count) == NoError && ids != null then ids[..count] else [];
      AfterSnoc(ops, Op.Configure(read, count, confirmTimeout));
      hide After;
      if ConfigureError(Contents(), count) != NoError || ids != null {
        ops := ops + [Op.Configure(read, count, confirmTimeout)];
      }
      if phase == Enabling {
        return Returned(AlreadyRunning);
      }
      if count == 0 {
        return Returned(NoRails);
      }
      if count > MAX_RAILS {
        return Returned(TooManyRails);
      }
      if ids == null {
        return NullRead;
      }
      CopyIds(ids, count);
      railCount, timeout, index, elapsed, phase := count, confirmTimeout, 0, 0, Idle;
      outcome := Returned(NoError);
    }

    /** The loop of `configure`; the ids may be the object's own. */
    method CopyIds(ids: array<Byte>, count: nat)
      requires count <= ids.Length && count <= railIds.Length
      modifies railIds
      ensures railIds[..count] == old(ids[..count])
    {
      for i := 0 to count
        invariant forall j :: 0 <= j < i ==> railIds[j] == old(ids[j])
        invariant forall j :: i <= j < count ==> ids[j] == old(ids[j])
      {
        railIds[i] := ids[i];
      }
    }

    method Start() returns (error: Error)
      requires Good()
      modifies this
      ensures Good()
      ensures error == StartError(old(Contents()))
      ensures Contents() ==
              if error == NoError then Started(old(Contents()).rails, old(Contents()).timeout) else old(Contents())
      ensures ops == old(ops) + [Op.Start]
      ensures old(phase) == Enabling ==> error == AlreadyRunning && Contents() == old(Contents())
      ensures AllFit(old(ops)) ==> ListedForStart(Recorded(old(ops))) == if error == NoError then {} else {error}
    {
      AfterSnoc(ops, Op.Start);
      if AllFit(ops) {
        StartAnswersAsListed(ops);
      }
      hide After, Recorded, AllFit, ListedForStart;
      ops := ops + [Op.Start];
      if railCount == 0 {
        return NoRails;
      }
      if phase == Enabling {
        return AlreadyRunning;
      }
      index, elapsed, phase := 0, 0, Enabling;
      return NoError;
    }

    method StepOnce(dt: U32, railPowerGood: bool) returns (now: Phase)
      requires Good()
      modifies this
      ensures Good()
      ensures Contents() == Step(Wrapping, old(Contents()), Tick(dt, railPowerGood)) && now == phase
      ensures ops == old(ops) + [Next(Tick(dt, railPowerGood))]
    {
      AfterSnoc(ops, Next(Tick(dt, railPowerGood)));
      hide After, Step;
      now := Move(dt, railPowerGood);
      ops := ops + [Next(Tick(dt, railPowerGood))];
    }

    /** The body of `step`. */
    method Move(dt: U32, railPowerGood: bool) returns (now: Phase)
      requires Shape() && Valid(Contents())
      modifies `index, `elapsed, `phase
      ensures Shape() && Valid(Contents()) && (phase == Idle <==> old(phase) == Idle)
      ensures Contents() == Step(Wrapping, old(Contents()), Tick(dt, railPowerGood)) && now == phase
    {
      if phase != Enabling {
        return phase;
      }
      if railPowerGood {
        index, elapsed := index + 1, 0;
        if index >= railCount {
          phase := Complete;
        }
        return phase;
      }
      elapsed := Add32(elapsed, dt);
      if elapsed > timeout {
        phase := Faulted;
      }
      return phase;
    }

    /**
     The rail being enabled, or the one that was late; otherwise the first one, 0 when
     there is none: the header's promise is kept exactly as `FirstRailIff` says.
     */
    method CurrentRailId() returns (id: Byte)
      requires Good()
      ensures var s := Contents();
              && id == CurrentRail(s)
              && id == if s.phase in {Enabling, Faulted} then s.rails[s.index] else FirstRail(s)
    {
      var safe := if index < railCount then index else 0;
      id := railIds[safe];
    }
  }

  /**
   The object after any calls none of whose sequences overflowed: its phase is what the
   steps since the last start made while nothing ran say in unbounded time.
   */
  lemma PhaseOfRegulator(r: Regulator)
    requires r.Good() && AllFit(r.ops)
    ensures var h := Recorded(r.ops);
            && r.railIds[..r.railCount] == h.rails && r.timeout == h.timeout
            && (r.phase == Idle <==> !h.started)
            && (r.phase == Enabling <==> Running(h))
            && (r.phase == Enabling ==> r.index == Confirmed(h.ticks))
            && (r.phase == Faulted <==> h.started && Faults(h.ticks, |h.rails|, h.timeout))
            && (r.phase == Complete <==> h.started && Completes(h.ticks, |h.rails|, h.timeout))
  {
    HistoryAgrees(r.ops);
    PhaseAfter(r.ops);
    hide After, Recorded, AllFit, Faults, Completes, Confirmed, Running, Run;
  }
}
