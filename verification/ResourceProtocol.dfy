/**
 * Hierarchical resource budgets as a protocol between threads.
 *
 * Accounts, budget handles and reservations are cells addressed by index. Every locked region and
 * every change of a reference count is one atomic step, so any interleaving of any number of
 * threads is a sequence of steps. Releasing takes two steps (return the amount, then drop the
 * reference), and so does destroying an account (return the funding, then drop the parent).
 */
module ResourceProtocol {
  import opened Outcomes
  import opened Sums

  datatype Phase =
    | Live       // referenced
    | Dying      // last reference gone, destructor not yet past the refund
    | Refunded   // funding returned, parent reference still held
    | Dead

  datatype Account = Account(
    capacity: U64,
    used: U64,
    parent: Option<nat>,
    parentAmount: U64,
    references: nat,
    phase: Phase)

  datatype Reservation =
    | Empty
    | Active(account: nat, amount: U64)
    | Discharged(account: nat)   // amount returned, reference still held

  type Handle = Option<nat>

  datatype System = System(
    accounts: seq<Account>,
    handles: seq<Handle>,
    reservations: seq<Reservation>,
    terminated: bool)

  datatype Action =
    | CreateRoot(newCapacity: U64)
    | CreateChild(handle: nat, newCapacity: U64)
    | Reserve(handle: nat, amount: U64)
    | CopyHandle(handle: nat)
    | DropHandle(handle: nat)
    | MoveConstruct(source: nat)
    | MoveInto(target: nat, source: nat)
    | ReturnAmount(reservation: nat)
    | DropReservation(reservation: nat)
    | RefundParent(account: nat)
    | DropParent(account: nat)

  const INITIAL: System := System([], [], [], false)

  // ---------- the locked regions ----------

  /** Unsigned 64-bit wrap-around. */
  function Wrap(n: int): U64 {
    n % 0x1_0000_0000_0000_0000
  }

  /** Charging an account: refused unless the amount fits in what is left. */
  function Charge(capacity: U64, used: U64, amount: U64): (r: Result<U64>)
    ensures used <= capacity ==> (r.Ok? <==> 0 < amount && used + amount <= capacity)
    ensures used <= capacity && r.Ok? ==> r.value == used + amount
  {
    if amount == 0 then Err(InvalidResourceLimit)
    else if amount > Wrap(capacity - used) then Err(LimitExceeded)
    else Ok(Wrap(used + amount))
  }

  /** Returning an amount: the guard that would terminate the process reports an invariant violation. */
  function Refund(used: U64, amount: U64): (r: Result<U64>)
    ensures r.Ok? <==> amount <= used
    ensures r.Ok? ==> r.value == used - amount
  {
    if amount > used then Err(InvariantViolation) else Ok(used - amount)
  }

  // ---------- steps ----------

  function AddReference(a: Account): Account {
    a.(references := a.references + 1)
  }

  /** Dropping the last reference starts the destructor. */
  function DropReference(a: Account): Account {
    if a.references <= 1 then a.(references := 0, phase := Dying) else a.(references := a.references - 1)
  }

  predicate OpenHandle(s: System, h: nat) {
    h < |s.handles| && s.handles[h].Some? && s.handles[h].value < |s.accounts|
  }

  /** A reservation no thread is in the middle of releasing. */
  predicate Movable(s: System, r: nat) {
    r < |s.reservations| && !s.reservations[r].Discharged?
  }

  predicate Unreleased(s: System, r: nat) {
    r < |s.reservations| && s.reservations[r].Active? && s.reservations[r].account < |s.accounts|
  }

  predicate HalfReleased(s: System, r: nat) {
    r < |s.reservations| && s.reservations[r].Discharged? && s.reservations[r].account < |s.accounts|
  }

  predicate InDestructor(s: System, a: nat) {
    && a < |s.accounts| && s.accounts[a].phase == Dying
    && (s.accounts[a].parent.Some? ==> s.accounts[a].parent.value < |s.accounts|)
  }

  predicate AfterRefund(s: System, a: nat) {
    && a < |s.accounts| && s.accounts[a].phase == Refunded
    && s.accounts[a].parent.Some? && s.accounts[a].parent.value < |s.accounts|
  }

  function RootCreated(s: System, c: U64): System {
    if c == 0 then s
    else s.(accounts := s.accounts + [Account(c, 0, None, 0, 1, Live)], handles := s.handles + [Some(|s.accounts|)])
  }

  function ChildCreated(s: System, h: nat, c: U64): System
    requires OpenHandle(s, h)
  {
    var a := s.handles[h].value;
    var parent := s.accounts[a];
    match Charge(parent.capacity, parent.used, c)
    case Err(_) => s
    case Ok(used) =>
      s.(accounts := s.accounts[a := AddReference(parent.(used := used))] + [Account(c, 0, Some(a), c, 1, Live)],
         handles := s.handles + [Some(|s.accounts|)])
  }

  function Reserved(s: System, h: nat, amount: U64): System
    requires OpenHandle(s, h)
  {
    var a := s.handles[h].value;
    var account := s.accounts[a];
    match Charge(account.capacity, account.used, amount)
    case Err(_) => s
    case Ok(used) =>
      s.(accounts := s.accounts[a := AddReference(account.(used := used))],
         reservations := s.reservations + [Active(a, amount)])
  }

  function HandleCopied(s: System, h: nat): System
    requires OpenHandle(s, h)
  {
    var a := s.handles[h].value;
    s.(accounts := s.accounts[a := AddReference(s.accounts[a])], handles := s.handles + [Some(a)])
  }

  function HandleDropped(s: System, h: nat): System
    requires OpenHandle(s, h)
  {
    var a := s.handles[h].value;
    s.(accounts := s.accounts[a := DropReference(s.accounts[a])], handles := s.handles[h := None])
  }

  function MovedToNew(s: System, r: nat): System
    requires Movable(s, r)
  {
    s.(reservations := s.reservations[r := Empty] + [s.reservations[r]])
  }

  function MovedOver(s: System, target: nat, r: nat): System
    requires Movable(s, r) && target < |s.reservations| && target != r
  {
    s.(reservations := s.reservations[target := s.reservations[r]][r := Empty])
  }

  function AmountReturned(s: System, r: nat): System
    requires Unreleased(s, r)
  {
    var a := s.reservations[r].account;
    var account := s.accounts[a];
    match Refund(account.used, s.reservations[r].amount)
    case Err(_) => s.(terminated := true)
    case Ok(used) =>
      s.(accounts := s.accounts[a := account.(used := used)], reservations := s.reservations[r := Discharged(a)])
  }

  function ReservationDropped(s: System, r: nat): System
    requires HalfReleased(s, r)
  {
    var a := s.reservations[r].account;
    s.(accounts := s.accounts[a := DropReference(s.accounts[a])], reservations := s.reservations[r := Empty])
  }

  function ParentRefunded(s: System, a: nat): System
    requires InDestructor(s, a)
  {
    var account := s.accounts[a];
    if account.parent.None? then s.(accounts := s.accounts[a := account.(phase := Dead)])
    else
      var p := account.parent.value;
      match Refund(s.accounts[p].used, account.parentAmount)
      case Err(_) => s.(terminated := true)
      case Ok(used) =>
        s.(accounts := s.accounts[p := s.accounts[p].(used := used)][a := account.(phase := Refunded)])
  }

  function ParentDropped(s: System, a: nat): System
    requires AfterRefund(s, a)
  {
    var p := s.accounts[a].parent.value;
    s.(accounts := s.accounts[p := DropReference(s.accounts[p])][a := s.accounts[a].(phase := Dead)])
  }

  /** What the owners of handles and reservations, and running destructors, may do next. */
  predicate Enabled(s: System, action: Action) {
    !s.terminated &&
    match action
    case CreateRoot(_) => true
    case CreateChild(h, _) => OpenHandle(s, h)
    case Reserve(h, _) => OpenHandle(s, h)
    case CopyHandle(h) => OpenHandle(s, h)
    case DropHandle(h) => OpenHandle(s, h)
    case MoveConstruct(r) => Movable(s, r)
    case MoveInto(t, r) => Movable(s, r) && t < |s.reservations| && t != r && s.reservations[t].Empty?
    case ReturnAmount(r) => Unreleased(s, r)
    case DropReservation(r) => HalfReleased(s, r)
    case RefundParent(a) => InDestructor(s, a)
    case DropParent(a) => AfterRefund(s, a)
  }

  function Step(s: System, action: Action): System
    requires Enabled(s, action)
  {
    match action
    case CreateRoot(c) => RootCreated(s, c)
    case CreateChild(h, c) => ChildCreated(s, h, c)
    case Reserve(h, amount) => Reserved(s, h, amount)
    case CopyHandle(h) => HandleCopied(s, h)
    case DropHandle(h) => HandleDropped(s, h)
    case MoveConstruct(r) => MovedToNew(s, r)
    case MoveInto(t, r) => MovedOver(s, t, r)
    case ReturnAmount(r) => AmountReturned(s, r)
    case DropReservation(r) => ReservationDropped(s, r)
    case RefundParent(a) => ParentRefunded(s, a)
    case DropParent(a) => ParentDropped(s, a)
  }

  // ---------- the invariant ----------

  function HandleOn(i: nat): Handle -> nat {
    (x: Handle) => if x == Some(i) then 1 else 0
  }

  function ChargedTo(i: nat): Reservation -> nat {
    (r: Reservation) => if r.Active? && r.account == i then r.amount else 0
  }

  function HeldOn(i: nat): Reservation -> nat {
    (r: Reservation) => if !r.Empty? && r.account == i then 1 else 0
  }

  /** An account's funding stays with its parent until the destructor returns it. */
  predicate Funded(a: Account) {
    a.phase == Live || a.phase == Dying
  }

  function FundedFrom(i: nat): Account -> nat {
    (a: Account) => if a.parent == Some(i) && Funded(a) then a.parentAmount else 0
  }

  function ChildOf(i: nat): Account -> nat {
    (a: Account) => if a.parent == Some(i) && a.phase != Dead then 1 else 0
  }

  /** Conservation: what is used is what unreleased reservations and funded children hold. */
  ghost predicate Conserves(s: System, i: nat)
    requires i < |s.accounts|
  {
    s.accounts[i].used == Sum(s.reservations, ChargedTo(i)) + Sum(s.accounts, FundedFrom(i))
  }

  /** The reference count is the number of cells that refer to the account. */
  ghost predicate CountsReferences(s: System, i: nat)
    requires i < |s.accounts|
  {
    s.accounts[i].references
      == Sum(s.handles, HandleOn(i)) + Sum(s.reservations, HeldOn(i)) + Sum(s.accounts, ChildOf(i))
  }

  predicate WellFormedAccount(a: Account, i: nat) {
    && 0 < a.capacity
    && a.used <= a.capacity
    && (a.parent.Some? ==> a.parent.value < i && a.parentAmount == a.capacity)
    && (a.parent.None? ==> a.phase != Refunded)
    && (a.phase == Live <==> a.references > 0)
  }

  predicate InBounds(s: System) {
    && (forall k | 0 <= k < |s.handles| && s.handles[k].Some? :: s.handles[k].value < |s.accounts|)
    && (forall k | 0 <= k < |s.reservations| && !s.reservations[k].Empty? ::
          s.reservations[k].account < |s.accounts|)
  }

  ghost predicate AccountOk(s: System, i: nat)
    requires i < |s.accounts|
  {
    WellFormedAccount(s.accounts[i], i) && Conserves(s, i) && CountsReferences(s, i)
  }

  ghost predicate Invariant(s: System) {
    && !s.terminated
    && InBounds(s)
    && forall i | 0 <= i < |s.accounts| :: AccountOk(s, i)
  }
}
