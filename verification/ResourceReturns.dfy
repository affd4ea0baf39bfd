/** From every state a program can be in, everything can still be given back. */
module ResourceReturns {
  import opened Outcomes
  import opened Sums
  import opened ResourceProtocol
  import opened ResourceSafety
  import opened ResourceTrees
  import opened ResourceEffects
  import opened ResourceRelease

  /** Dropping handles, releasing reservations and running destructors; nothing is created, taken or moved. */
  predicate IsGivingBack(action: Action) {
    action.DropHandle? || action.ReturnAmount? || action.DropReservation? || action.RefundParent? || action.DropParent?
  }

  const OPEN: Handle -> nat := (h: Handle) => if h.Some? then 1 else 0

  const HELD: Reservation -> nat := (r: Reservation) => if r.Active? then 2 else if r.Discharged? then 1 else 0

  /** Steps that owners still have to take: one for a handle, two for a reservation, one for a half-released one. */
  function Owed(s: System): nat {
    Sum(s.handles, OPEN) + Sum(s.reservations, HELD)
  }

  /** While anybody owns anything, some owner can take a step, and it brings the end nearer. */
  lemma SomeOwnerGivesBack(s: System) returns (action: Action)
    requires Invariant(s) && !NoOwners(s)
    ensures IsGivingBack(action) && Enabled(s, action)
    ensures Owed(Step(s, action)) < Owed(s)
    ensures |Step(s, action).accounts| == |s.accounts|
  {
    if h :| 0 <= h < |s.handles| && s.handles[h].Some? {
      action := DropHandle(h);
      DropHandleEffect(s, h);
      SumUpdate(s.handles, h, None, OPEN);
    } else {
      var r :| 0 <= r < |s.reservations| && !s.reservations[r].Empty?;
      if s.reservations[r].Active? {
        action := ReturnAmount(r);
        ReturnAmountEffect(s, r);
        SumUpdate(s.reservations, r, Discharged(s.reservations[r].account), HELD);
      } else {
        action := DropReservation(r);
        DropReservationEffect(s, r);
        SumUpdate(s.reservations, r, Empty, HELD);
      }
    }
  }

  /** `steps` gives back from one state to another. */
  ghost predicate GivesBack(s: System, steps: seq<Action>, end: System)
    decreases |steps|
  {
    if |steps| == 0 then end == s
    else
      && IsGivingBack(steps[0]) && Enabled(s, steps[0])
      && GivesBack(Step(s, steps[0]), steps[1..], end)
  }

  lemma {:induction false} CascadeGivesBack(s: System, steps: seq<Action>, end: System)
    requires Cascades(s, steps, end)
    ensures GivesBack(s, steps, end)
    decreases |steps|
  {
    if |steps| > 0 {
      CascadeGivesBack(Step(s, steps[0]), steps[1..], end);
    }
  }

  ghost predicate AllReturned(s: System) {
    forall i | 0 <= i < |s.accounts| :: s.accounts[i].phase == Dead && s.accounts[i].used == 0
  }

  lemma {:induction false} OwnersGiveBack(s: System) returns (steps: seq<Action>, end: System)
    requires Invariant(s)
    ensures GivesBack(s, steps, end)
    ensures |end.accounts| == |s.accounts| && AllReturned(end)
    decreases Owed(s)
  {
    if NoOwners(s) {
      steps, end := CascadeFinishes(s);
      CascadeGivesBack(s, steps, end);
    } else {
      var action := SomeOwnerGivesBack(s);
      StepKeeps(s, action);
      var rest, last := OwnersGiveBack(Step(s, action));
      steps, end := [action] + rest, last;
      assert steps[1..] == rest;
    }
  }

  lemma {:induction false} ReachedByGivingBack(schedule: seq<Action>, s: System, steps: seq<Action>, end: System)
    requires Reaches(schedule, s) && GivesBack(s, steps, end)
    ensures Reaches(schedule + steps, end)
    decreases |steps|
  {
    if |steps| == 0 {
      assert schedule + steps == schedule;
    } else {
      var next := Step(s, steps[0]);
      OneMoreStep(schedule, s, steps[0], next);
      ReachedByGivingBack(schedule + [steps[0]], next, steps[1..], end);
      assert (schedule + [steps[0]]) + steps[1..] == schedule + steps;
    }
  }

  /**
   * However the threads have been interleaved so far, and whoever still owns what, the program can go on
   * by handle drops, releases and destructor steps alone until every account is destroyed and unused.
   */
  lemma EverythingReturns(schedule: seq<Action>, s: System) returns (steps: seq<Action>, end: System)
    requires Reaches(schedule, s)
    ensures forall k | 0 <= k < |steps| :: IsGivingBack(steps[k])
    ensures Reaches(schedule + steps, end)
    ensures |end.accounts| == |s.accounts| && AllReturned(end)
  {
    EverySchedule(schedule, s);
    steps, end := OwnersGiveBack(s);
    ReachedByGivingBack(schedule, s, steps, end);
    OnlyGivingBack(s, steps, end);
  }

  lemma {:induction false} OnlyGivingBack(s: System, steps: seq<Action>, end: System)
    requires GivesBack(s, steps, end)
    ensures forall k | 0 <= k < |steps| :: IsGivingBack(steps[k])
    decreases |steps|
  {
    if |steps| > 0 {
      OnlyGivingBack(Step(s, steps[0]), steps[1..], end);
      forall k | 0 <= k < |steps|
        ensures IsGivingBack(steps[k])
      {
        assert k > 0 ==> steps[k] == steps[1..][k - 1];
      }
    }
  }
}
