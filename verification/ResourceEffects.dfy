/** What each step of the protocol changes, and that it changes nothing else. */
module ResourceEffects {
  import opened Outcomes
  import opened Sums
  import opened ResourceProtocol
  import opened ResourceSafety

  /** No account but `a` differs; handles and reservations are as given. */
  ghost predicate OnlyAccount(s: System, t: System, a: nat) {
    && !t.terminated
    && |t.accounts| == |s.accounts|
    && forall k | 0 <= k < |s.accounts| && k != a :: t.accounts[k] == s.accounts[k]
  }

  /** Everything that unreleased reservations charge to account `a`. */
  function ChargedOn(s: System, a: nat): nat {
    Sum(s.reservations, ChargedTo(a))
  }

  // ---------- giving back ----------

  /**
   * The locked half of a release lowers the usage of the reservation's account by exactly its amount,
   * takes the amount out of what is charged there, and touches no other account, handle or reservation.
   */
  lemma ReturnAmountEffect(s: System, r: nat)
    requires Invariant(s) && Enabled(s, ReturnAmount(r))
    ensures var t, a, amount := Step(s, ReturnAmount(r)), s.reservations[r].account, s.reservations[r].amount;
            && OnlyAccount(s, t, a) && t.handles == s.handles
            && amount <= s.accounts[a].used
            && t.accounts[a] == s.accounts[a].(used := s.accounts[a].used - amount)
            && t.reservations == s.reservations[r := Discharged(a)]
            && ChargedOn(t, a) == ChargedOn(s, a) - amount
  {
    ReturnFits(s, r);
    SumUpdate(s.reservations, r, Discharged(s.reservations[r].account), ChargedTo(s.reservations[r].account));
  }

  /** What dropping one reference leaves of an account: the last one starts its destructor. */
  predicate LostReference(before: Account, after: Account) {
    && before.references > 0
    && after.references == before.references - 1
    && after.phase == (if before.references == 1 then Dying else before.phase)
    && after.(references := before.references, phase := before.phase) == before
  }

  predicate GainedReference(before: Account, after: Account) {
    after.references == before.references + 1 && after.(references := before.references) == before
  }

  /** The second half of a release gives up the reference and nothing else. */
  lemma DropReservationEffect(s: System, r: nat)
    requires Invariant(s) && Enabled(s, DropReservation(r))
    ensures var t, a := Step(s, DropReservation(r)), s.reservations[r].account;
            && OnlyAccount(s, t, a) && t.handles == s.handles
            && LostReference(s.accounts[a], t.accounts[a])
            && t.reservations == s.reservations[r := Empty]
  {
    assert AccountOk(s, s.reservations[r].account);
    ReservationKeepsAlive(s, r);
  }

  lemma DropHandleEffect(s: System, h: nat)
    requires Invariant(s) && Enabled(s, DropHandle(h))
    ensures var t, a := Step(s, DropHandle(h)), s.handles[h].value;
            && OnlyAccount(s, t, a) && t.reservations == s.reservations
            && LostReference(s.accounts[a], t.accounts[a])
            && t.handles == s.handles[h := None]
  {
    assert AccountOk(s, s.handles[h].value);
    HandleKeepsAlive(s, h);
  }

  /** No account but `a` and `b` differs. */
  ghost predicate OnlyAccounts(s: System, t: System, a: nat, b: nat) {
    && !t.terminated
    && |t.accounts| == |s.accounts|
    && t.handles == s.handles && t.reservations == s.reservations
    && forall k | 0 <= k < |s.accounts| && k != a && k != b :: t.accounts[k] == s.accounts[k]
  }

  /** The locked half of a destructor returns exactly the account's funding to its parent; a root has none to return. */
  lemma RefundParentEffect(s: System, c: nat)
    requires Invariant(s) && Enabled(s, RefundParent(c))
    ensures var t, account := Step(s, RefundParent(c)), s.accounts[c];
            if account.parent.None? then OnlyAccounts(s, t, c, c) && t.accounts[c] == account.(phase := Dead)
            else
              var p := account.parent.value;
              && p != c && OnlyAccounts(s, t, c, p)
              && account.capacity <= s.accounts[p].used
              && t.accounts[p] == s.accounts[p].(used := s.accounts[p].used - account.capacity)
              && t.accounts[c] == account.(phase := Refunded)
  {
    assert AccountOk(s, c);
    if s.accounts[c].parent.Some? {
      RefundFits(s, c);
    }
  }

  /** The end of a destructor gives up the reference to the parent. */
  lemma DropParentEffect(s: System, c: nat)
    requires Invariant(s) && Enabled(s, DropParent(c))
    ensures var t, p := Step(s, DropParent(c)), s.accounts[c].parent.value;
            && p != c && OnlyAccounts(s, t, c, p)
            && LostReference(s.accounts[p], t.accounts[p])
            && t.accounts[c] == s.accounts[c].(phase := Dead)
  {
    assert AccountOk(s, c);
    assert AccountOk(s, s.accounts[c].parent.value);
    ChildKeepsAlive(s, c);
  }

  // ---------- taking ----------

  lemma CreateRootEffect(s: System, c: U64)
    requires Invariant(s)
    ensures Step(s, CreateRoot(c))
         == if c == 0 then s
            else System(s.accounts + [Account(c, 0, None, 0, 1, Live)], s.handles + [Some(|s.accounts|)],
                        s.reservations, false)
  {
  }

  /** A child that fits is funded in full out of its parent and starts unused; one that does not changes nothing. */
  lemma CreateChildEffect(s: System, h: nat, c: U64)
    requires Invariant(s) && Enabled(s, CreateChild(h, c))
    ensures var t, a, n := Step(s, CreateChild(h, c)), s.handles[h].value, |s.accounts|;
            if c == 0 || s.accounts[a].used + c > s.accounts[a].capacity then t == s
            else
              && |t.accounts| == n + 1 && !t.terminated
              && t.accounts[n] == Account(c, 0, Some(a), c, 1, Live)
              && GainedReference(s.accounts[a].(used := s.accounts[a].used + c), t.accounts[a])
              && (forall k | 0 <= k < n && k != a :: t.accounts[k] == s.accounts[k])
              && t.handles == s.handles + [Some(n)] && t.reservations == s.reservations
  {
    assert AccountOk(s, s.handles[h].value);
  }

  /** A reservation that fits charges exactly its amount; one that does not changes nothing. */
  lemma ReserveEffect(s: System, h: nat, amount: U64)
    requires Invariant(s) && Enabled(s, ResourceProtocol.Reserve(h, amount))
    ensures var t, a := Step(s, ResourceProtocol.Reserve(h, amount)), s.handles[h].value;
            if amount == 0 || s.accounts[a].used + amount > s.accounts[a].capacity then t == s
            else
              && OnlyAccount(s, t, a) && t.handles == s.handles
              && GainedReference(s.accounts[a].(used := s.accounts[a].used + amount), t.accounts[a])
              && t.reservations == s.reservations + [Active(a, amount)]
              && ChargedOn(t, a) == ChargedOn(s, a) + amount
  {
    var a := s.handles[h].value;
    assert AccountOk(s, a);
    SumAppend(s.reservations, Active(a, amount), ChargedTo(a));
  }

  lemma CopyHandleEffect(s: System, h: nat)
    requires Invariant(s) && Enabled(s, CopyHandle(h))
    ensures var t, a := Step(s, CopyHandle(h)), s.handles[h].value;
            && OnlyAccount(s, t, a) && t.reservations == s.reservations
            && GainedReference(s.accounts[a], t.accounts[a])
            && t.handles == s.handles + [Some(a)]
  {
  }

  // ---------- moving ----------

  /** Moving a reservation into a new one hands over the charge and leaves the source empty. */
  lemma MoveConstructEffect(s: System, r: nat)
    requires Invariant(s) && Enabled(s, MoveConstruct(r))
    ensures var t, n := Step(s, MoveConstruct(r)), |s.reservations|;
            && t.accounts == s.accounts && t.handles == s.handles && !t.terminated
            && |t.reservations| == n + 1 && t.reservations[n] == s.reservations[r] && t.reservations[r] == Empty
            && (forall k | 0 <= k < n && k != r :: t.reservations[k] == s.reservations[k])
            && (forall a: nat :: ChargedOn(t, a) == ChargedOn(s, a))
  {
    var emptied := s.reservations[r := Empty];
    forall a: nat
      ensures ChargedOn(Step(s, MoveConstruct(r)), a) == ChargedOn(s, a)
    {
      SumUpdate(s.reservations, r, Empty, ChargedTo(a));
      SumAppend(emptied, s.reservations[r], ChargedTo(a));
    }
  }

  /** The same into an existing one that is empty. */
  lemma MoveIntoEffect(s: System, target: nat, r: nat)
    requires Invariant(s) && Enabled(s, MoveInto(target, r))
    ensures var t := Step(s, MoveInto(target, r));
            && t.accounts == s.accounts && t.handles == s.handles && !t.terminated
            && |t.reservations| == |s.reservations|
            && t.reservations[target] == s.reservations[r] && t.reservations[r] == Empty
            && (forall k | 0 <= k < |s.reservations| && k != target && k != r ::
                  t.reservations[k] == s.reservations[k])
            && (forall a: nat :: ChargedOn(t, a) == ChargedOn(s, a))
  {
    var filled := s.reservations[target := s.reservations[r]];
    forall a: nat
      ensures ChargedOn(Step(s, MoveInto(target, r)), a) == ChargedOn(s, a)
    {
      SumUpdate(s.reservations, target, s.reservations[r], ChargedTo(a));
      SumUpdate(filled, r, Empty, ChargedTo(a));
    }
  }
}
