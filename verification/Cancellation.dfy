/**
 * Cancellation as code that polls it sees it: a flag that is raised once and stays raised. A schedule
 * says how many polls pass before it is seen, so quantifying over schedules covers every moment at
 * which another thread can raise it.
 */
module Cancellation {
  datatype Schedule = Never | AfterPolls(polls: nat)

  predicate Raised(s: Schedule) {
    s == AfterPolls(0)
  }

  /** Once raised, the flag stays raised. */
  function Polled(s: Schedule): Schedule {
    if s.AfterPolls? && s.polls > 0 then AfterPolls(s.polls - 1) else s
  }

  class CancellationToken {
    var schedule: Schedule

    constructor (schedule: Schedule)
      ensures this.schedule == schedule
    {
      this.schedule := schedule;
    }

    method IsCancelled() returns (cancelled: bool)
      modifies this
      ensures cancelled == Raised(old(schedule)) && schedule == Polled(old(schedule))
    {
      cancelled := Raised(schedule);
      schedule := Polled(schedule);
    }
  }
}
