/** Budgets and move-only reservations as one thread sees them. */
module ResourceBudgets {
  import opened Outcomes
  import opened ResourceProtocol

  datatype ResourceKind =
    | ResidentMemory
    | BlockRows
    | DecodedBlockBytes
    | RecordBytes
    | MetadataBytes
    | Fields
    | EncodingDepth
    | Workers
    | QueuedBlocks

  /** The counter shared by every handle, reservation and child of one budget. */
  class ResourceBudgetState {
    const kind: ResourceKind
    const capacity: U64
    var used: U64
    var parent: ResourceBudgetState?
    var parentAmount: U64

    constructor (kind: ResourceKind, capacity: U64)
      ensures this.kind == kind && this.capacity == capacity
      ensures used == 0 && parent == null && parentAmount == 0
    {
      this.kind, this.capacity := kind, capacity;
      used, parent, parentAmount := 0, null, 0;
    }

    /** The destructor: funding goes back to the parent, and only this account's share of it. */
    method Destroy()
      requires parent != null ==> parent != this && parentAmount <= parent.used
      modifies if parent == null then {} else {parent}
      ensures parent != null ==>
                && parent.used == old(parent.used) - parentAmount
                && parent.parent == old(parent.parent) && parent.parentAmount == old(parent.parentAmount)
    {
      if parent != null && parentAmount != 0 {
        parent.used := Refund(parent.used, parentAmount).value;
      }
    }
  }

  class ResourceReservation {
    var state: ResourceBudgetState?
    var amount: U64

    constructor (state: ResourceBudgetState?, amount: U64)
      ensures this.state == state && this.amount == amount
    {
      this.state, this.amount := state, amount;
    }

    ghost predicate Valid()
      reads this, if state == null then {} else {state}
    {
      if state == null then amount == 0 else 0 < amount <= state.used <= state.capacity
    }

    predicate IsActive()
      reads this
    {
      state != null
    }

    ghost function Footprint(): set<object>
      reads this
    {
      if state == null then {this} else {this, state}
    }

    /** Gives back the whole amount once; releasing again changes nothing. */
    method Release()
      requires Valid()
      modifies Footprint()
      ensures Valid() && !IsActive()
      ensures var s := old(state); s != null ==>
                && s.used == old(s.used) - old(amount)
                && s.parent == old(s.parent) && s.parentAmount == old(s.parentAmount)
    {
      if state == null {
        return;
      }
      state.used := Refund(state.used, amount).value;
      state := null;
      amount := 0;
    }

    /** A move takes over the charge and leaves the source empty. */
    constructor MoveFrom(other: ResourceReservation)
      requires other.Valid()
      modifies other
      ensures state == old(other.state) && amount == old(other.amount)
      ensures other.state == null && other.amount == 0
      ensures Valid()
    {
      state, amount := other.state, other.amount;
      new;
      other.state, other.amount := null, 0;
    }

    /**
     * Move assignment releases what was held and then takes over the other charge. When both charge
     * one account its usage falls by exactly what was held.
     */
    method MoveAssign(other: ResourceReservation)
      requires Valid() && other.Valid()
      requires state != null && other.state == state && other != this ==> amount + other.amount <= state.used
      modifies Footprint(), other
      ensures other == this ==>
                state == old(state) && amount == old(amount) && (state != null ==> state.used == old(state.used))
      ensures other != this ==>
                && state == old(other.state) && amount == old(other.amount)
                && other.state == null && other.amount == 0
                && (old(state) != null ==> old(state).used == old(state.used) - old(amount))
      ensures Valid()
    {
      if other != this {
        Release();
        state, amount := other.state, other.amount;
        other.state, other.amount := null, 0;
      }
    }
  }

  class ResourceBudget {
    const state: ResourceBudgetState

    constructor (state: ResourceBudgetState)
      ensures this.state == state
    {
      this.state := state;
    }

    static method CreateRoot(kind: ResourceKind, capacity: U64) returns (r: Result<ResourceBudget>)
      ensures r.Err? <==> capacity == 0
      ensures r.Err? ==> r.error == InvalidResourceLimit
      ensures r.Ok? ==>
                && fresh(r.value) && fresh(r.value.state)
                && r.value.state.kind == kind && r.value.state.capacity == capacity
                && r.value.state.used == 0 && r.value.state.parent == null
    {
      if capacity == 0 {
        return Err(InvalidResourceLimit);
      }
      var account := new ResourceBudgetState(kind, capacity);
      var budget := new ResourceBudget(account);
      return Ok(budget);
    }

    /** A child is funded in full out of what its parent has left, or the parent is untouched. */
    method CreateChild(capacity: U64) returns (r: Result<ResourceBudget>)
      requires state.used <= state.capacity
      modifies state`used
      ensures r.Ok? <==> 0 < capacity && old(state.used) + capacity <= state.capacity
      ensures state.used == old(state.used) + (if r.Ok? then capacity else 0)
      ensures r.Err? ==> r.error == if capacity == 0 then InvalidResourceLimit else LimitExceeded
      ensures r.Ok? ==>
                var child := r.value.state;
                && fresh(child) && child.kind == state.kind && child.capacity == capacity && child.used == 0
                && child.parent == state && child.parentAmount == capacity
    {
      if capacity == 0 {
        return Err(InvalidResourceLimit);
      }
      var child := new ResourceBudgetState(state.kind, capacity);
      var charge := Charge(state.capacity, state.used, capacity);
      if charge.Err? {
        return Err(LimitExceeded);
      }
      state.used := charge.value;
      child.parent := state;
      child.parentAmount := capacity;
      var budget := new ResourceBudget(child);
      return Ok(budget);
    }

    /** A reservation charges exactly its amount, or the account is untouched. */
    method Reserve(amount: U64) returns (r: Result<ResourceReservation>)
      requires state.used <= state.capacity
      modifies state`used
      ensures r.Ok? <==> 0 < amount && old(state.used) + amount <= state.capacity
      ensures state.used == old(state.used) + (if r.Ok? then amount else 0)
      ensures r.Err? ==> r.error == if amount == 0 then InvalidResourceLimit else LimitExceeded
      ensures r.Ok? ==> fresh(r.value) && r.value.state == state && r.value.amount == amount && r.value.Valid()
    {
      if amount == 0 {
        return Err(InvalidResourceLimit);
      }
      var charge := Charge(state.capacity, state.used, amount);
      if charge.Err? {
        return Err(LimitExceeded);
      }
      state.used := charge.value;
      var reservation := new ResourceReservation(state, amount);
      return Ok(reservation);
    }

    function Available(): (available: nat)
      requires state.used <= state.capacity
      reads this, state
      ensures available + state.used == state.capacity
    {
      state.capacity - state.used
    }
  }
}
