/** A schedule record. Its `run_at` and the instant it last ran are
    attributes that are assigned in place; `valid?` and
    `next_interval_time` read them. */
module Schedules {
  import opened Wrappers
  import opened Zones
  import opened RunAts
  import Recurrence

  class Schedule {
    var runAt: Option<RawRunAt>
    var lastRunOn: Option<int>

    /** A new schedule with the given `run_at` that has never run. */
    constructor(runAt: Option<RawRunAt>)
      ensures this.runAt == runAt && lastRunOn == None
    {
      this.runAt := runAt;
      lastRunOn := None;
    }

    /** Assigns the `run_at` attribute; the last run is kept. */
    method SetRunAt(r: Option<RawRunAt>)
      modifies this
      ensures runAt == r && lastRunOn == old(lastRunOn)
    {
      runAt := r;
    }

    /** Assigns the `last_run_on` attribute; the `run_at` is kept. */
    method SetLastRunOn(t: Option<int>)
      modifies this
      ensures lastRunOn == t && runAt == old(runAt)
    {
      lastRunOn := t;
    }

    /** `valid?`: the `run_at` passes the check of `RunAts.Validate`, which
        holds exactly when the record is well formed. */
    predicate HasValidRunAt()
      reads this
      ensures HasValidRunAt() <==> WellFormed(runAt)
    {
      ValidIffWellFormed(runAt);
      IsValid(runAt)
    }

    /** `next_interval_time` at instant `now`, zone names being resolved by
        `zoneNamed`. A schedule that is not valid has none; the verdict
        says why. */
    function NextIntervalTime(now: int, zoneNamed: string -> Zone): (r: Result<int, ValidationError>)
      reads this
      ensures r.Success? <==> HasValidRunAt()
      ensures r.Failure? ==> r.error == Validate(runAt).error
      ensures r.Success? ==> r.value == Recurrence.NextIntervalTime(Validate(runAt).value, lastRunOn, now, zoneNamed)
      ensures r.Success? && runAt.value.startTime.value > now ==> r.value == runAt.value.startTime.value
      ensures r.Success? && runAt.value.interval.value.unit == Some("once") ==> r.value == runAt.value.startTime.value
      ensures r.Success? && runAt.value.interval.value.unit != Some("once") ==> r.value > now
      ensures r.Success? && runAt.value.interval.value.unit != Some("once") && runAt.value.startTime.value <= now ==>
        var g := Recurrence.GridOf(Validate(runAt).value, zoneNamed);
        exists k: nat :: k >= 1 && r.value == Recurrence.Candidate(g, k)
                         && forall j :: 1 <= j < k ==> Recurrence.Candidate(g, j) <= now
    {
      Recurrence.NextTimeOf(runAt, lastRunOn, now, zoneNamed)
    }
  }
}
