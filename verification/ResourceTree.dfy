/** What the budget protocol guarantees over a whole tree of accounts. */
module ResourceTrees {
  import opened Outcomes
  import opened Sums
  import opened ResourceProtocol
  import opened ResourceSafety

  // ---------- the bound over a tree ----------

  /** The root above an account. */
  function RootOf(accounts: seq<Account>, i: nat): nat
    decreases i
  {
    if i < |accounts| && accounts[i].parent.Some? && accounts[i].parent.value < i
    then RootOf(accounts, accounts[i].parent.value)
    else i
  }

  /** Unreleased amounts on accounts below index `bound` in the tree of `root`. */
  function ChargedWithin(accounts: seq<Account>, root: nat, bound: nat): Reservation -> nat {
    (r: Reservation) => if r.Active? && r.account < bound && RootOf(accounts, r.account) == root then r.amount else 0
  }

  /** Funding held by children of accounts below index `bound` in the tree of `root`. */
  function FundedWithin(accounts: seq<Account>, root: nat, bound: nat): Account -> nat {
    (a: Account) =>
      if a.parent.Some? && a.parent.value < bound && RootOf(accounts, a.parent.value) == root && Funded(a)
      then a.parentAmount else 0
  }

  /** Everything reserved and not yet released anywhere in a tree. */
  function TotalReserved(s: System, root: nat): nat {
    Sum(s.reservations, ChargedWithin(s.accounts, root, |s.accounts|))
  }

  function UsedWithin(accounts: seq<Account>, root: nat, bound: nat): nat
    requires bound <= |accounts|
  {
    if bound == 0 then 0
    else UsedWithin(accounts, root, bound - 1)
         + (if RootOf(accounts, bound - 1) == root then accounts[bound - 1].used else 0)
  }

  lemma OneMoreCharged(accounts: seq<Account>, reservations: seq<Reservation>, root: nat, i: nat)
    ensures Sum(reservations, ChargedWithin(accounts, root, i + 1))
         == Sum(reservations, ChargedWithin(accounts, root, i))
            + (if RootOf(accounts, i) == root then Sum(reservations, ChargedTo(i)) else 0)
  {
    if RootOf(accounts, i) == root {
      SumSplit(reservations, ChargedWithin(accounts, root, i + 1), ChargedWithin(accounts, root, i), ChargedTo(i));
    } else {
      var none := (x: Reservation) => 0;
      SumSplit(reservations, ChargedWithin(accounts, root, i + 1), ChargedWithin(accounts, root, i), none);
      SumZero(reservations, none);
    }
  }

  lemma OneMoreFunded(accounts: seq<Account>, root: nat, i: nat)
    ensures Sum(accounts, FundedWithin(accounts, root, i + 1))
         == Sum(accounts, FundedWithin(accounts, root, i))
            + (if RootOf(accounts, i) == root then Sum(accounts, FundedFrom(i)) else 0)
  {
    if RootOf(accounts, i) == root {
      SumSplit(accounts, FundedWithin(accounts, root, i + 1), FundedWithin(accounts, root, i), FundedFrom(i));
    } else {
      var none := (x: Account) => 0;
      SumSplit(accounts, FundedWithin(accounts, root, i + 1), FundedWithin(accounts, root, i), none);
      SumZero(accounts, none);
    }
  }

  /** Summing conservation over a tree. */
  lemma {:induction false} TreeConserves(s: System, root: nat, bound: nat)
    requires Invariant(s) && bound <= |s.accounts|
    ensures UsedWithin(s.accounts, root, bound)
         == Sum(s.reservations, ChargedWithin(s.accounts, root, bound))
            + Sum(s.accounts, FundedWithin(s.accounts, root, bound))
    decreases bound
  {
    if bound == 0 {
      SumZero(s.reservations, ChargedWithin(s.accounts, root, 0));
      SumZero(s.accounts, FundedWithin(s.accounts, root, 0));
    } else {
      var i := bound - 1;
      TreeConserves(s, root, i);
      assert AccountOk(s, i);
      OneMoreCharged(s.accounts, s.reservations, root, i);
      OneMoreFunded(s.accounts, root, i);
    }
  }

  /** An account whose last reference is gone carries no usage. */
  lemma UnreferencedIsUnused(s: System, i: nat)
    requires Invariant(s) && i < |s.accounts|
    requires s.accounts[i].references == 0
    ensures s.accounts[i].used == 0
  {
    assert AccountOk(s, i);
    forall k | 0 <= k < |s.reservations|
      ensures ChargedTo(i)(s.reservations[k]) == 0
    {
      SumAtLeast(s.reservations, k, HeldOn(i));
    }
    SumZero(s.reservations, ChargedTo(i));
    forall k | 0 <= k < |s.accounts|
      ensures FundedFrom(i)(s.accounts[k]) == 0
    {
      SumAtLeast(s.accounts, k, ChildOf(i));
    }
    SumZero(s.accounts, FundedFrom(i));
  }

  /** Every member other than the root uses no more than the funding its ancestors still hold for it. */
  lemma {:induction false} FundingCoversUse(s: System, root: nat, bound: nat)
    requires Invariant(s) && bound <= |s.accounts|
    requires root < |s.accounts| && RootOf(s.accounts, root) == root
    ensures UsedWithin(s.accounts, root, bound)
         <= Sum(s.accounts[..bound], FundedWithin(s.accounts, root, |s.accounts|))
            + (if root < bound then s.accounts[root].used else 0)
    decreases bound
  {
    if bound > 0 {
      var i := bound - 1;
      FundingCoversUse(s, root, i);
      assert s.accounts[..bound][..i] == s.accounts[..i];
      assert AccountOk(s, i);
      if RootOf(s.accounts, i) == root && i != root && !Funded(s.accounts[i]) {
        UnreferencedIsUnused(s, i);
      }
    }
  }

  /** Nothing reserved anywhere in a tree, whoever still holds handles, exceeds what its root accounts for. */
  lemma TreeBounded(s: System, root: nat)
    requires Invariant(s)
    requires root < |s.accounts| && s.accounts[root].parent.None?
    ensures TotalReserved(s, root) <= s.accounts[root].used <= s.accounts[root].capacity
  {
    var n := |s.accounts|;
    TreeConserves(s, root, n);
    FundingCoversUse(s, root, n);
    assert s.accounts[..n] == s.accounts;
    assert AccountOk(s, root);
  }

  /** On every schedule. */
  lemma EveryScheduleBounded(schedule: seq<Action>, s: System, root: nat)
    requires Reaches(schedule, s)
    requires root < |s.accounts| && s.accounts[root].parent.None?
    ensures TotalReserved(s, root) <= s.accounts[root].used <= s.accounts[root].capacity
  {
    EverySchedule(schedule, s);
    TreeBounded(s, root);
  }

  // ---------- everything is given back ----------

  /** An account with no unreleased reservation and no child still funded is unused. */
  lemma IdleIsUnused(s: System, i: nat)
    requires Invariant(s) && i < |s.accounts|
    requires forall k | 0 <= k < |s.reservations| :: !(s.reservations[k].Active? && s.reservations[k].account == i)
    requires forall k | 0 <= k < |s.accounts| :: !(s.accounts[k].parent == Some(i) && Funded(s.accounts[k]))
    ensures s.accounts[i].used == 0
  {
    assert AccountOk(s, i);
    SumZero(s.reservations, ChargedTo(i));
    SumZero(s.accounts, FundedFrom(i));
  }

  predicate NoOwners(s: System) {
    && (forall k | 0 <= k < |s.handles| :: s.handles[k].None?)
    && (forall k | 0 <= k < |s.reservations| :: s.reservations[k].Empty?)
  }

  function Remaining(phase: Phase): nat {
    match phase
    case Live => 3
    case Dying => 2
    case Refunded => 1
    case Dead => 0
  }

  const LIFE: Account -> nat := (a: Account) => Remaining(a.phase)

  function Pending(s: System): nat {
    Sum(s.accounts, LIFE)
  }

  predicate IsDestruction(action: Action) {
    action.RefundParent? || action.DropParent?
  }

  /** Each destructor step strictly lowers the work left, so a cascade up the parent chain ends. */
  lemma DestructionProgresses(s: System, action: Action)
    requires Invariant(s) && Enabled(s, action) && IsDestruction(action)
    ensures Pending(Step(s, action)) < Pending(s)
    ensures NoOwners(s) ==> NoOwners(Step(s, action))
  {
    var c := action.account;
    assert AccountOk(s, c);
    var t := Step(s, action);
    var middle := s.accounts;
    if s.accounts[c].parent.Some? {
      var p := s.accounts[c].parent.value;
      if action.RefundParent? {
        RefundFits(s, c);
      } else {
        ChildKeepsAlive(s, c);
      }
      SumUpdate(s.accounts, p, t.accounts[p], LIFE);
      middle := s.accounts[p := t.accounts[p]];
    }
    assert t.accounts == middle[c := t.accounts[c]];
    SumUpdate(middle, c, t.accounts[c], LIFE);
  }

  /** Without owners, some destructor can run until every account is gone. */
  lemma {:induction false} SomeDestructorRuns(s: System, bound: nat) returns (action: Action)
    requires Invariant(s) && NoOwners(s)
    requires bound <= |s.accounts|
    requires forall k | bound <= k < |s.accounts| :: s.accounts[k].phase == Dead
    requires exists k | 0 <= k < bound :: s.accounts[k].phase != Dead
    ensures IsDestruction(action) && Enabled(s, action)
    decreases bound
  {
    var i := bound - 1;
    if s.accounts[i].phase == Dead {
      action := SomeDestructorRuns(s, i);
    } else {
      assert AccountOk(s, i);
      SumZero(s.handles, HandleOn(i));
      SumZero(s.reservations, HeldOn(i));
      forall k | 0 <= k < |s.accounts|
        ensures ChildOf(i)(s.accounts[k]) == 0
      {
        assert AccountOk(s, k);
      }
      SumZero(s.accounts, ChildOf(i));
      action := if s.accounts[i].phase == Dying then RefundParent(i) else DropParent(i);
    }
  }

  /** `steps` is a sequence of destructor steps that leads from one state to another. */
  ghost predicate Cascades(s: System, steps: seq<Action>, end: System)
    decreases |steps|
  {
    if |steps| == 0 then end == s
    else
      && IsDestruction(steps[0]) && Enabled(s, steps[0])
      && Cascades(Step(s, steps[0]), steps[1..], end)
  }

  /** Once the last handle and reservation are gone, the cascade ends with every account destroyed and unused. */
  lemma {:induction false} CascadeFinishes(s: System) returns (steps: seq<Action>, end: System)
    requires Invariant(s) && NoOwners(s)
    ensures Cascades(s, steps, end) && |steps| <= Pending(s)
    ensures Invariant(end)
    ensures |end.accounts| == |s.accounts|
    ensures forall i | 0 <= i < |end.accounts| :: end.accounts[i].phase == Dead && end.accounts[i].used == 0
    decreases Pending(s)
  {
    if forall k | 0 <= k < |s.accounts| :: s.accounts[k].phase == Dead {
      steps, end := [], s;
      forall i | 0 <= i < |s.accounts|
        ensures s.accounts[i].used == 0
      {
        assert AccountOk(s, i);
        UnreferencedIsUnused(s, i);
      }
    } else {
      var action := SomeDestructorRuns(s, |s.accounts|);
      DestructionProgresses(s, action);
      StepKeeps(s, action);
      DestructionKeepsSize(s, action);
      var rest, last := CascadeFinishes(Step(s, action));
      steps, end := [action] + rest, last;
      assert steps[1..] == rest;
    }
  }

  lemma DestructionKeepsSize(s: System, action: Action)
    requires Enabled(s, action) && IsDestruction(action)
    ensures |Step(s, action).accounts| == |s.accounts|
  {
  }
}
