/** Every step of the budget protocol keeps its invariant; neither terminate guard can fire. */
module ResourceSafety {
  import opened Outcomes
  import opened Sums
  import opened ResourceProtocol

  /** Two accounts that weigh the same on their parents. */
  predicate SameTies(a: Account, b: Account) {
    a.parent == b.parent && a.parentAmount == b.parentAmount && Funded(a) == Funded(b)
    && (a.phase == Dead <==> b.phase == Dead)
  }

  /** Changing the usage or references of an account does not change what its ancestors see. */
  lemma TiesUnchanged(accounts: seq<Account>, a: nat, x: Account, i: nat)
    requires a < |accounts| && SameTies(accounts[a], x)
    ensures Sum(accounts[a := x], FundedFrom(i)) == Sum(accounts, FundedFrom(i))
    ensures Sum(accounts[a := x], ChildOf(i)) == Sum(accounts, ChildOf(i))
  {
    SumUpdate(accounts, a, x, FundedFrom(i));
    SumUpdate(accounts, a, x, ChildOf(i));
  }

  lemma HandleKeepsAlive(s: System, h: nat)
    requires Invariant(s) && OpenHandle(s, h)
    ensures var a := s.accounts[s.handles[h].value]; a.phase == Live && a.references > 0
  {
    var a := s.handles[h].value;
    assert AccountOk(s, a);
    SumAtLeast(s.handles, h, HandleOn(a));
  }

  lemma ReservationKeepsAlive(s: System, r: nat)
    requires Invariant(s) && r < |s.reservations| && !s.reservations[r].Empty?
    ensures s.reservations[r].account < |s.accounts|
    ensures var a := s.accounts[s.reservations[r].account]; a.phase == Live && a.references > 0
  {
    var a := s.reservations[r].account;
    assert AccountOk(s, a);
    SumAtLeast(s.reservations, r, HeldOn(a));
  }

  lemma ChildKeepsAlive(s: System, c: nat)
    requires Invariant(s) && c < |s.accounts| && s.accounts[c].phase != Dead && s.accounts[c].parent.Some?
    ensures s.accounts[c].parent.value < c
    ensures var p := s.accounts[s.accounts[c].parent.value]; p.phase == Live && p.references > 0
  {
    assert AccountOk(s, c);
    var p := s.accounts[c].parent.value;
    assert AccountOk(s, p);
    SumAtLeast(s.accounts, c, ChildOf(p));
  }

  /** No handle, reservation or account refers to an account that does not exist yet. */
  lemma NothingOnNewAccount(s: System)
    requires Invariant(s)
    ensures var n := |s.accounts|;
            && Sum(s.handles, HandleOn(n)) == 0
            && Sum(s.reservations, ChargedTo(n)) == 0 && Sum(s.reservations, HeldOn(n)) == 0
            && Sum(s.accounts, FundedFrom(n)) == 0 && Sum(s.accounts, ChildOf(n)) == 0
  {
    var n := |s.accounts|;
    SumZero(s.handles, HandleOn(n));
    SumZero(s.reservations, ChargedTo(n));
    SumZero(s.reservations, HeldOn(n));
    forall i | 0 <= i < |s.accounts|
      ensures s.accounts[i].parent != Some(n)
    {
      assert AccountOk(s, i);
    }
    SumZero(s.accounts, FundedFrom(n));
    SumZero(s.accounts, ChildOf(n));
  }

  // ---------- acquiring ----------

  lemma CreateRootKeeps(s: System, c: U64)
    requires Invariant(s)
    ensures Invariant(RootCreated(s, c))
  {
    if c != 0 {
      var t, n := RootCreated(s, c), |s.accounts|;
      var x := Account(c, 0, None, 0, 1, Live);
      forall i | 0 <= i < |t.accounts|
        ensures AccountOk(t, i)
      {
        SumAppend(s.handles, Some(n), HandleOn(i));
        SumAppend(s.accounts, x, FundedFrom(i));
        SumAppend(s.accounts, x, ChildOf(i));
        if i < n {
          assert AccountOk(s, i);
        } else {
          NothingOnNewAccount(s);
        }
      }
    }
  }

  lemma ChildCreatedAccount(s: System, h: nat, c: U64, i: nat)
    requires Invariant(s) && OpenHandle(s, h)
    requires ChildCreated(s, h, c) != s
    requires i <= |s.accounts|
    ensures |ChildCreated(s, h, c).accounts| == |s.accounts| + 1
    ensures AccountOk(ChildCreated(s, h, c), i)
  {
    var a, n := s.handles[h].value, |s.accounts|;
    var t := ChildCreated(s, h, c);
    var x, y := t.accounts[a], Account(c, 0, Some(a), c, 1, Live);
    HandleKeepsAlive(s, h);
    assert AccountOk(s, a);
    SumAppend(s.handles, Some(n), HandleOn(i));
    TiesUnchanged(s.accounts, a, x, i);
    SumAppend(s.accounts[a := x], y, FundedFrom(i));
    SumAppend(s.accounts[a := x], y, ChildOf(i));
    if i < n {
      assert AccountOk(s, i);
    } else {
      NothingOnNewAccount(s);
    }
  }

  lemma CreateChildKeeps(s: System, h: nat, c: U64)
    requires Invariant(s) && OpenHandle(s, h)
    ensures Invariant(ChildCreated(s, h, c))
  {
    if ChildCreated(s, h, c) != s {
      forall i | 0 <= i <= |s.accounts|
        ensures AccountOk(ChildCreated(s, h, c), i)
      {
        ChildCreatedAccount(s, h, c, i);
      }
    }
  }

  lemma ReserveKeeps(s: System, h: nat, amount: U64)
    requires Invariant(s) && OpenHandle(s, h)
    ensures Invariant(Reserved(s, h, amount))
  {
    var a := s.handles[h].value;
    var account := s.accounts[a];
    var charge := Charge(account.capacity, account.used, amount);
    if charge.Ok? {
      var t := Reserved(s, h, amount);
      HandleKeepsAlive(s, h);
      assert AccountOk(s, a);
      forall i | 0 <= i < |t.accounts|
        ensures AccountOk(t, i)
      {
        assert AccountOk(s, i);
        SumAppend(s.reservations, Active(a, amount), ChargedTo(i));
        SumAppend(s.reservations, Active(a, amount), HeldOn(i));
        TiesUnchanged(s.accounts, a, t.accounts[a], i);
      }
    }
  }

  lemma CopyHandleKeeps(s: System, h: nat)
    requires Invariant(s) && OpenHandle(s, h)
    ensures Invariant(HandleCopied(s, h))
  {
    var a, t := s.handles[h].value, HandleCopied(s, h);
    HandleKeepsAlive(s, h);
    forall i | 0 <= i < |t.accounts|
      ensures AccountOk(t, i)
    {
      assert AccountOk(s, i);
      SumAppend(s.handles, Some(a), HandleOn(i));
      TiesUnchanged(s.accounts, a, t.accounts[a], i);
    }
  }

  // ---------- moving ----------

  lemma MoveConstructKeeps(s: System, r: nat)
    requires Invariant(s) && Movable(s, r)
    ensures Invariant(MovedToNew(s, r))
  {
    var t, x := MovedToNew(s, r), s.reservations[r];
    forall i | 0 <= i < |t.accounts|
      ensures AccountOk(t, i)
    {
      assert AccountOk(s, i);
      SumUpdate(s.reservations, r, Empty, ChargedTo(i));
      SumUpdate(s.reservations, r, Empty, HeldOn(i));
      SumAppend(s.reservations[r := Empty], x, ChargedTo(i));
      SumAppend(s.reservations[r := Empty], x, HeldOn(i));
    }
  }

  lemma MoveIntoKeeps(s: System, target: nat, r: nat)
    requires Invariant(s) && Movable(s, r) && target < |s.reservations| && target != r && s.reservations[target].Empty?
    ensures Invariant(MovedOver(s, target, r))
  {
    var t, x := MovedOver(s, target, r), s.reservations[r];
    forall i | 0 <= i < |t.accounts|
      ensures AccountOk(t, i)
    {
      assert AccountOk(s, i);
      SumUpdate(s.reservations, target, x, ChargedTo(i));
      SumUpdate(s.reservations, target, x, HeldOn(i));
      SumUpdate(s.reservations[target := x], r, Empty, ChargedTo(i));
      SumUpdate(s.reservations[target := x], r, Empty, HeldOn(i));
    }
  }

  // ---------- releasing ----------

  /** The guard in a reservation's release: an unreleased amount is always part of what is used. */
  lemma ReturnFits(s: System, r: nat)
    requires Invariant(s) && Unreleased(s, r)
    ensures s.reservations[r].amount <= s.accounts[s.reservations[r].account].used
  {
    var a := s.reservations[r].account;
    assert AccountOk(s, a);
    SumAtLeast(s.reservations, r, ChargedTo(a));
  }

  /** The guard in an account's destructor: funding not yet returned is part of the parent's usage. */
  lemma RefundFits(s: System, c: nat)
    requires Invariant(s) && InDestructor(s, c) && s.accounts[c].parent.Some?
    ensures s.accounts[c].parentAmount <= s.accounts[s.accounts[c].parent.value].used
  {
    var p := s.accounts[c].parent.value;
    assert AccountOk(s, p);
    SumAtLeast(s.accounts, c, FundedFrom(p));
  }

  lemma ReturnAmountKeeps(s: System, r: nat)
    requires Invariant(s) && Unreleased(s, r)
    ensures Invariant(AmountReturned(s, r))
  {
    var a := s.reservations[r].account;
    ReturnFits(s, r);
    var t := AmountReturned(s, r);
    forall i | 0 <= i < |t.accounts|
      ensures AccountOk(t, i)
    {
      assert AccountOk(s, i);
      SumUpdate(s.reservations, r, Discharged(a), ChargedTo(i));
      SumUpdate(s.reservations, r, Discharged(a), HeldOn(i));
      TiesUnchanged(s.accounts, a, t.accounts[a], i);
    }
  }

  lemma DropReservationKeeps(s: System, r: nat)
    requires Invariant(s) && HalfReleased(s, r)
    ensures Invariant(ReservationDropped(s, r))
  {
    var a, t := s.reservations[r].account, ReservationDropped(s, r);
    ReservationKeepsAlive(s, r);
    assert AccountOk(s, a);
    forall i | 0 <= i < |t.accounts|
      ensures AccountOk(t, i)
    {
      assert AccountOk(s, i);
      SumUpdate(s.reservations, r, Empty, ChargedTo(i));
      SumUpdate(s.reservations, r, Empty, HeldOn(i));
      TiesUnchanged(s.accounts, a, t.accounts[a], i);
    }
  }

  lemma DropHandleKeeps(s: System, h: nat)
    requires Invariant(s) && OpenHandle(s, h)
    ensures Invariant(HandleDropped(s, h))
  {
    var a, t := s.handles[h].value, HandleDropped(s, h);
    HandleKeepsAlive(s, h);
    assert AccountOk(s, a);
    forall i | 0 <= i < |t.accounts|
      ensures AccountOk(t, i)
    {
      assert AccountOk(s, i);
      SumUpdate(s.handles, h, None, HandleOn(i));
      TiesUnchanged(s.accounts, a, t.accounts[a], i);
    }
  }

  lemma ParentRefundedAccount(s: System, c: nat, i: nat)
    requires Invariant(s) && InDestructor(s, c)
    requires i < |s.accounts|
    ensures |ParentRefunded(s, c).accounts| == |s.accounts|
    ensures AccountOk(ParentRefunded(s, c), i)
  {
    var middle := s.accounts;
    assert AccountOk(s, i);
    if s.accounts[c].parent.Some? {
      ChildKeepsAlive(s, c);
      RefundFits(s, c);
      var p := s.accounts[c].parent.value;
      var x := ParentRefunded(s, c).accounts[p];
      middle := s.accounts[p := x];
      TiesUnchanged(s.accounts, p, x, i);
    }
    var t, y := ParentRefunded(s, c), ParentRefunded(s, c).accounts[c];
    assert t.accounts == middle[c := y] && t.handles == s.handles && t.reservations == s.reservations;
    SumUpdate(middle, c, y, FundedFrom(i));
    SumUpdate(middle, c, y, ChildOf(i));
  }

  lemma RefundParentKeeps(s: System, c: nat)
    requires Invariant(s) && InDestructor(s, c)
    ensures Invariant(ParentRefunded(s, c))
  {
    if s.accounts[c].parent.Some? {
      RefundFits(s, c);
    }
    forall i | 0 <= i < |s.accounts|
      ensures AccountOk(ParentRefunded(s, c), i)
    {
      ParentRefundedAccount(s, c, i);
    }
  }

  lemma ParentDroppedAccount(s: System, c: nat, i: nat)
    requires Invariant(s) && AfterRefund(s, c)
    requires i < |s.accounts|
    ensures AccountOk(ParentDropped(s, c), i)
  {
    var t, p := ParentDropped(s, c), s.accounts[c].parent.value;
    ChildKeepsAlive(s, c);
    assert AccountOk(s, i);
    var x, y := DropReference(s.accounts[p]), s.accounts[c].(phase := Dead);
    var middle := s.accounts[p := x];
    assert t.accounts == middle[c := y] && t.handles == s.handles && t.reservations == s.reservations;
    TiesUnchanged(s.accounts, p, x, i);
    SumUpdate(middle, c, y, FundedFrom(i));
    SumUpdate(middle, c, y, ChildOf(i));
    if i == p {
      assert t.accounts[i] == x;
    } else if i == c {
      assert t.accounts[i] == y;
    } else {
      assert t.accounts[i] == s.accounts[i];
    }
  }

  lemma DropParentKeeps(s: System, c: nat)
    requires Invariant(s) && AfterRefund(s, c)
    ensures Invariant(ParentDropped(s, c))
  {
    forall i | 0 <= i < |s.accounts|
      ensures AccountOk(ParentDropped(s, c), i)
    {
      ParentDroppedAccount(s, c, i);
    }
  }

  // ---------- every interleaving ----------

  lemma StepKeeps(s: System, action: Action)
    requires Invariant(s) && Enabled(s, action)
    ensures Invariant(Step(s, action))
  {
    match action
    case CreateRoot(c) => CreateRootKeeps(s, c);
    case CreateChild(h, c) => CreateChildKeeps(s, h, c);
    case Reserve(h, amount) => ReserveKeeps(s, h, amount);
    case CopyHandle(h) => CopyHandleKeeps(s, h);
    case DropHandle(h) => DropHandleKeeps(s, h);
    case MoveConstruct(r) => MoveConstructKeeps(s, r);
    case MoveInto(t, r) => MoveIntoKeeps(s, t, r);
    case ReturnAmount(r) => ReturnAmountKeeps(s, r);
    case DropReservation(r) => DropReservationKeeps(s, r);
    case RefundParent(c) => RefundParentKeeps(s, c);
    case DropParent(c) => DropParentKeeps(s, c);
  }

  ghost predicate Taken(before: System, action: Action, after: System) {
    Enabled(before, action) && after == Step(before, action)
  }

  /** A schedule: each action is one that was enabled where it was taken. */
  ghost predicate Reaches(schedule: seq<Action>, s: System)
    decreases |schedule|
  {
    if |schedule| == 0 then s == INITIAL
    else
      var n := |schedule| - 1;
      exists before: System :: Taken(before, schedule[n], s) && Reaches(schedule[..n], before)
  }

  /** On every schedule usage is conserved and bounded, references are counted, and the process is never terminated. */
  lemma {:induction false} EverySchedule(schedule: seq<Action>, s: System)
    requires Reaches(schedule, s)
    ensures Invariant(s)
    decreases |schedule|
  {
    if |schedule| > 0 {
      var n := |schedule| - 1;
      var before: System :| Taken(before, schedule[n], s) && Reaches(schedule[..n], before);
      EverySchedule(schedule[..n], before);
      StepKeeps(before, schedule[n]);
    }
  }
}
