/** When dropping a budget handle gives the capacity of its account back. */
module ResourceRelease {
  import opened Outcomes
  import opened Sums
  import opened ResourceProtocol
  import opened ResourceSafety

  /** No other handle, no reservation and no child that is not destroyed refers to the account of handle `h`. */
  predicate SoleOwner(s: System, h: nat)
    requires OpenHandle(s, h)
  {
    var a := s.handles[h].value;
    && (forall k | 0 <= k < |s.handles| && k != h :: s.handles[k] != Some(a))
    && (forall k | 0 <= k < |s.reservations| && !s.reservations[k].Empty? :: s.reservations[k].account != a)
    && (forall k | 0 <= k < |s.accounts| && s.accounts[k].parent == Some(a) :: s.accounts[k].phase == Dead)
  }

  /** A sum is zero exactly when every weight is. */
  lemma SumIsZero<T>(s: seq<T>, weight: T -> nat)
    ensures Sum(s, weight) == 0 <==> forall k | 0 <= k < |s| :: weight(s[k]) == 0
  {
    if forall k | 0 <= k < |s| :: weight(s[k]) == 0 {
      SumZero(s, weight);
    } else {
      var k :| 0 <= k < |s| && weight(s[k]) != 0;
      SumAtLeast(s, k, weight);
    }
  }

  lemma OtherHandles(s: System, h: nat)
    requires OpenHandle(s, h)
    ensures var a := s.handles[h].value;
            Sum(s.handles, HandleOn(a)) == 1 <==> forall k | 0 <= k < |s.handles| && k != h :: s.handles[k] != Some(a)
    ensures Sum(s.handles, HandleOn(s.handles[h].value)) >= 1
  {
    var a := s.handles[h].value;
    var others := s.handles[h := None];
    SumUpdate(s.handles, h, None, HandleOn(a));
    SumIsZero(others, HandleOn(a));
    if forall k | 0 <= k < |others| :: HandleOn(a)(others[k]) == 0 {
      forall k | 0 <= k < |s.handles| && k != h
        ensures s.handles[k] != Some(a)
      {
        assert HandleOn(a)(others[k]) == 0;
      }
    }
    if forall k | 0 <= k < |s.handles| && k != h :: s.handles[k] != Some(a) {
      forall k | 0 <= k < |others|
        ensures HandleOn(a)(others[k]) == 0
      {
      }
    }
  }

  lemma HeldByNone(s: System, a: nat)
    ensures Sum(s.reservations, HeldOn(a)) == 0
            <==> forall k | 0 <= k < |s.reservations| && !s.reservations[k].Empty? :: s.reservations[k].account != a
  {
    SumIsZero(s.reservations, HeldOn(a));
    if forall k | 0 <= k < |s.reservations| :: HeldOn(a)(s.reservations[k]) == 0 {
      forall k | 0 <= k < |s.reservations| && !s.reservations[k].Empty?
        ensures s.reservations[k].account != a
      {
        assert HeldOn(a)(s.reservations[k]) == 0;
      }
    }
  }

  lemma ChildOfNone(s: System, a: nat)
    ensures Sum(s.accounts, ChildOf(a)) == 0
            <==> forall k | 0 <= k < |s.accounts| && s.accounts[k].parent == Some(a) :: s.accounts[k].phase == Dead
  {
    SumIsZero(s.accounts, ChildOf(a));
    if forall k | 0 <= k < |s.accounts| :: ChildOf(a)(s.accounts[k]) == 0 {
      forall k | 0 <= k < |s.accounts| && s.accounts[k].parent == Some(a)
        ensures s.accounts[k].phase == Dead
      {
        assert ChildOf(a)(s.accounts[k]) == 0;
      }
    }
  }

  /**
   * Dropping a handle starts the destructor that returns the account's funding exactly when nothing else
   * refers to the account; otherwise the account lives on and every account's usage stays what it was.
   */
  lemma DropReturnsFunding(s: System, h: nat)
    requires Invariant(s) && OpenHandle(s, h)
    ensures var a, t := s.handles[h].value, HandleDropped(s, h);
            && (t.accounts[a].phase == Dying <==> SoleOwner(s, h))
            && (t.accounts[a].phase == Live <==> !SoleOwner(s, h))
            && (forall k | 0 <= k < |s.accounts| :: t.accounts[k].used == s.accounts[k].used)
  {
    var a := s.handles[h].value;
    assert AccountOk(s, a);
    OtherHandles(s, h);
    HeldByNone(s, a);
    ChildOfNone(s, a);
  }

  lemma OneMoreStep(schedule: seq<Action>, before: System, action: Action, after: System)
    requires Reaches(schedule, before) && Taken(before, action, after)
    ensures Reaches(schedule + [action], after)
  {
    assert (schedule + [action])[..|schedule|] == schedule;
  }

  lemma FourSteps(a: Action, s: System, b: Action, t: System, c: Action, u: System, d: Action, v: System)
    returns (schedule: seq<Action>)
    requires Taken(INITIAL, a, s) && Taken(s, b, t) && Taken(t, c, u) && Taken(u, d, v)
    ensures Reaches(schedule, v)
  {
    var none: seq<Action> := [];
    OneMoreStep(none, INITIAL, a, s);
    OneMoreStep(none + [a], s, b, t);
    OneMoreStep(none + [a] + [b], t, c, u);
    OneMoreStep(none + [a] + [b] + [c], u, d, v);
    schedule := none + [a] + [b] + [c] + [d];
  }

  // ---------- a reservation that outlives its handle ----------

  const ROOTED := System([Account(1, 0, None, 0, 1, Live)], [Some(0)], [], false)
  const FUNDED := System([Account(1, 1, None, 0, 2, Live), Account(1, 0, Some(0), 1, 1, Live)],
                         [Some(0), Some(1)], [], false)
  const CHARGED := System([Account(1, 1, None, 0, 2, Live), Account(1, 1, Some(0), 1, 2, Live)],
                          [Some(0), Some(1)], [Active(1, 1)], false)
  const OUTLIVED := System([Account(1, 1, None, 0, 2, Live), Account(1, 1, Some(0), 1, 1, Live)],
                           [Some(0), None], [Active(1, 1)], false)

  lemma RootStep()
    ensures Taken(INITIAL, CreateRoot(1), ROOTED)
  {
  }

  lemma ChildStep()
    ensures Taken(ROOTED, CreateChild(0, 1), FUNDED)
  {
  }

  lemma ReserveStep()
    ensures Taken(FUNDED, ResourceProtocol.Reserve(1, 1), CHARGED)
  {
  }

  lemma DropStep()
    ensures Taken(CHARGED, DropHandle(1), OUTLIVED)
  {
  }

  /**
   * Destroying the final handle of a child does not by itself release the parent's capacity: a
   * reservation that outlives the handle keeps all of it charged.
   */
  lemma ReservationOutlivesHandle() returns (schedule: seq<Action>, s: System)
    ensures Reaches(schedule, s)
    ensures |s.accounts| == 2 && s.accounts[1].parent == Some(0)
    ensures forall k | 0 <= k < |s.handles| :: s.handles[k] != Some(1)
    ensures s.accounts[1].phase == Live && s.accounts[0].used == s.accounts[0].capacity
  {
    RootStep();
    ChildStep();
    ReserveStep();
    DropStep();
    schedule := FourSteps(CreateRoot(1), ROOTED, CreateChild(0, 1), FUNDED,
                          ResourceProtocol.Reserve(1, 1), CHARGED, DropHandle(1), OUTLIVED);
    s := OUTLIVED;
  }
}
