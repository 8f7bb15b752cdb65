/** The schedule's `next_interval_time`: given a validated `run_at`, the
    current instant and the optional last run, the next instant at which the
    schedule fires.

    A repeating schedule fires on a grid anchored at its start time. The k-th
    point of the grid (k >= 1) is
      - hourly:  start + k * N hours, plain UTC arithmetic;
      - daily:   the start's wall-clock reading in the schedule's zone moved
                 k * N calendar days, resolved back to an instant;
      - monthly: the start's wall-clock reading moved k * N calendar months
                 (day of month clamped to the target month), resolved back.
    While the start time is still ahead, it is the answer; otherwise the
    answer is the first grid point strictly after now. The grid index is
    found by a closed-form jump followed by a scan of a few points. */
module Recurrence {
  import opened Wrappers
  import opened Calendar
  import opened Zones
  import opened RunAts

  /** A repeating schedule's grid: its start instant, unit, count and zone,
      together with the start's wall-clock reading in that zone (`anchor`)
      and that reading's month index, day of month and time of day. */
  datatype Grid = Grid(start: int, unit: Unit, count: Count, zone: Zone,
                       anchor: int, anchorMonth: int, anchorDay: MonthDay, anchorTime: DayTime)

  /** The zone named by `tz`; no `tz` means UTC. Zone names are looked up by
      `zoneNamed`, the zone database, which is outside this model. */
  function ZoneOf(r: RunAt, zoneNamed: string -> Zone): Zone {
    match r.tz
    case None => Utc
    case Some(name) => zoneNamed(name)
  }

  function GridOf(r: RunAt, zoneNamed: string -> Zone): Grid
    requires r.interval.Every?
  {
    var zone := ZoneOf(r, zoneNamed);
    var anchor := ToLocal(zone, r.startTime);
    var d := DateOf(anchor);
    Grid(r.startTime, r.interval.unit, r.interval.count, zone, anchor, MonthIndex(d), d.day, TimeOfDay(anchor))
  }

  // ---- arithmetic ----------------------------------------------------------

  lemma MulNonNegative(a: int, b: int)
    requires a >= 0 && b >= 0
    ensures a * b >= 0
  {
  }

  lemma MulMonotone(a: int, b: int, c: int)
    requires a <= b && c >= 0
    ensures a * c <= b * c
  {
  }

  lemma DivBounds(x: int, d: int)
    requires d > 0
    ensures (x / d) * d <= x < (x / d + 1) * d
    ensures x >= 0 ==> x / d >= 0
  {
  }

  lemma DivMonotone(x: int, y: int, d: int)
    requires x <= y && d > 0
    ensures x / d <= y / d
  {
    DivBounds(x, d);
    DivBounds(y, d);
    if x / d > y / d {
      MulMonotone(y / d + 1, x / d, d);
    }
  }

  lemma DayAndTimeWithin(day: int, s: int, lo: int, hi: int)
    requires lo <= day < hi && 0 <= s < 86400
    ensures lo * 86400 <= day * 86400 + s < hi * 86400
  {
  }

  // ---- the grid ------------------------------------------------------------

  /** The wall-clock reading on day `day` (clamped to the month's length) of
      the month with index `i`, at second `time` of the day. */
  function MonthlyReading(i: int, day: MonthDay, time: DayTime): int {
    (MonthStartDay(i) + Min(day, MonthLength(i)) - 1) * 86400 + time
  }

  /** The wall-clock reading of the k-th point of a daily or monthly grid. */
  function WallReading(g: Grid, k: nat): int
    requires g.unit != Hourly
  {
    if g.unit == Daily then g.anchor + k * (g.count * 86400)
    else MonthlyReading(g.anchorMonth + k * g.count, g.anchorDay, g.anchorTime)
  }

  /** The k-th point of the grid: on an hourly grid k * N hours after the
      start, otherwise the k-th reading resolved in the grid's zone, which
      lies within 14 hours of that reading. */
  function Candidate(g: Grid, k: nat): (p: int)
    ensures g.unit != Hourly ==> WallReading(g, k) - MaxOffset <= p <= WallReading(g, k) + MaxOffset
  {
    if g.unit == Hourly then g.start + k * (g.count * 3600)
    else ToUtc(g.zone, WallReading(g, k))
  }

  /** The first index from `k` on whose point is after `now`, given that
      the point at `bound` is. */
  function FirstAfter(points: nat -> int, now: int, k: nat, bound: nat): (r: nat)
    requires k <= bound && points(bound) > now
    ensures k <= r <= bound && points(r) > now
    ensures forall j :: k <= j < r ==> points(j) <= now
    decreases bound - k
  {
    if points(k) > now then k else FirstAfter(points, now, k + 1, bound)
  }

  // ---- hourly: elapsed whole steps, in closed form ----------------------

  function HourlyIndex(g: Grid, now: int): (k: nat)
    requires g.unit == Hourly
    ensures k >= 1 && Candidate(g, k) > now
    ensures forall j :: 1 <= j < k ==> Candidate(g, j) <= now
  {
    var step := g.count * 3600;
    if now < g.start then 1
    else
      var q := (now - g.start) / step;
      DivBounds(now - g.start, step);
      assert forall j :: 1 <= j <= q ==> j * step <= q * step by {
        forall j | 1 <= j <= q { MulMonotone(j, q, step); }
      }
      q + 1
  }

  // ---- jumps: whole steps past an offset -------------------------------

  /** One more than the number of whole steps of size `step` in `x`, and 1
      when `x` is negative: the first index whose multiple of `step` is past
      `x`. */
  function StepsPast(x: int, step: int): (k: nat)
    requires step >= 1
    ensures k >= 1
    ensures x < 0 ==> k == 1
    ensures x >= 0 ==> (k - 1) * step <= x < k * step
  {
    if x < 0 then 1
    else
      DivBounds(x, step);
      x / step + 1
  }

  lemma StepsPastMonotone(x: int, y: int, step: int)
    requires x <= y && step >= 1
    ensures StepsPast(x, step) <= StepsPast(y, step)
  {
    if x >= 0 {
      DivMonotone(x, y, step);
    }
  }

  /** Every index below `StepsPast(x, step)` has its multiple of `step` at
      most `x`. */
  lemma StepsPastBelow(x: int, step: int, j: int)
    requires step >= 1 && 1 <= j < StepsPast(x, step)
    ensures j * step <= x
  {
    MulMonotone(j, StepsPast(x, step) - 1, step);
  }

  // ---- daily: jump by the offset bound, then scan ------------------------

  /** Below this index every daily point is at most `now`. */
  function DailyLow(g: Grid, now: int): (k: nat)
    requires g.unit == Daily
    ensures k >= 1
    ensures forall j :: 1 <= j < k ==> Candidate(g, j) <= now
  {
    var x := now - MaxOffset - g.anchor;
    var k := StepsPast(x, g.count * 86400);
    assert forall j :: 1 <= j < k ==> Candidate(g, j) <= now by {
      forall j | 1 <= j < k ensures Candidate(g, j) <= now {
        StepsPastBelow(x, g.count * 86400, j);
      }
    }
    k
  }

  /** At this index the daily point is after `now`. */
  function DailyHigh(g: Grid, now: int): (k: nat)
    requires g.unit == Daily
    ensures k >= DailyLow(g, now)
    ensures Candidate(g, k) > now
  {
    var y := now + MaxOffset - g.anchor;
    var k := StepsPast(y, g.count * 86400);
    StepsPastMonotone(now - MaxOffset - g.anchor, y, g.count * 86400);
    k
  }

  // ---- monthly: jump by elapsed months, then scan ------------------------

  /** Month index of the wall-clock reading of instant `t` in zone `z`. */
  function LocalMonth(z: Zone, t: int): int {
    MonthIndex(DateOf(ToLocal(z, t)))
  }

  /** A monthly reading lies within its month `i`. */
  lemma MonthlyReadingWithinMonth(i: int, day: MonthDay, time: DayTime)
    ensures MonthStartDay(i) * 86400 <= MonthlyReading(i, day, time) < MonthStartDay(i + 1) * 86400
  {
    MonthStartStep(i);
    DayAndTimeWithin(MonthStartDay(i) + Min(day, MonthLength(i)) - 1, time,
                     MonthStartDay(i), MonthStartDay(i + 1));
  }

  /** A reading lies within its own month `n`. */
  lemma WallWithinMonth(wall: int, n: int)
    requires n == MonthIndex(DateOf(wall))
    ensures MonthStartDay(n) * 86400 <= wall < MonthStartDay(n + 1) * 86400
  {
    var d := DateOf(wall);
    DateWithinMonth(d, n);
    MonthStartStep(n);
    DayAndTime(wall);
    DayAndTimeWithin(DaysFromCivil(d), TimeOfDay(wall), MonthStartDay(n), MonthStartDay(n + 1));
  }

  lemma EarlyArith(c: int, w: int, a: int, b: int, e: int, ln: int, now: int)
    requires c <= w + MaxOffset && w < a * 86400 && b - a >= 0 && e - b >= 28
    requires e * 86400 <= ln && ln <= now + MaxOffset
    ensures c <= now
  {
  }

  /** A reading `w` in month `i`, resolved back to `c`, is at most any `now`
      whose reading `ln` is in month `n`, two or more months later. */
  lemma EarlierMonthEarlier(c: int, w: int, i: int, n: int, ln: int, now: int)
    requires c <= w + MaxOffset && w < MonthStartDay(i + 1) * 86400
    requires i <= n - 2
    requires MonthStartDay(n) * 86400 <= ln && ln <= now + MaxOffset
    ensures c <= now
  {
    MonthStartGrowth(i + 1, n - 1);
    MonthStartGrowth(n - 1, n);
    EarlyArith(c, w, MonthStartDay(i + 1), MonthStartDay(n - 1), MonthStartDay(n), ln, now);
  }

  /** A reading `w` in month `i`, resolved back to `c`, is after any `now`
      whose reading `ln` is in month `n`, two or more months earlier. */
  lemma LaterMonthLater(c: int, w: int, i: int, n: int, ln: int, now: int)
    requires c >= w - MaxOffset && w >= MonthStartDay(i) * 86400
    requires i >= n + 2
    requires ln < MonthStartDay(n + 1) * 86400 && ln >= now - MaxOffset
    ensures c > now
  {
    MonthStartGrowth(n + 2, i);
    MonthStartGrowth(n + 1, n + 2);
  }

  /** The k-th monthly point is the reading in month `anchorMonth + k * N`,
      resolved back. */
  lemma MonthlyCandidate(g: Grid, k: nat, i: int)
    requires g.unit == Monthly && i == g.anchorMonth + k * g.count
    ensures WallReading(g, k) == MonthlyReading(i, g.anchorDay, g.anchorTime)
    ensures Candidate(g, k) == ToUtc(g.zone, MonthlyReading(i, g.anchorDay, g.anchorTime))
  {
  }

  /** A monthly point whose month is at least two before now's is before now. */
  lemma MonthlyEarlyPoint(g: Grid, now: int, j: nat)
    requires g.unit == Monthly
    requires g.anchorMonth + j * g.count <= LocalMonth(g.zone, now) - 2
    ensures Candidate(g, j) <= now
  {
    var i := g.anchorMonth + j * g.count;
    MonthlyCandidate(g, j, i);
    var w := MonthlyReading(i, g.anchorDay, g.anchorTime);
    var ln := ToLocal(g.zone, now);
    var n := MonthIndex(DateOf(ln));
    MonthlyReadingWithinMonth(i, g.anchorDay, g.anchorTime);
    WallWithinMonth(ln, n);
    EarlierMonthEarlier(ToUtc(g.zone, w), w, i, n, ln, now);
  }

  /** A monthly point whose month is at least two after now's is after now. */
  lemma MonthlyLatePoint(g: Grid, now: int, j: nat)
    requires g.unit == Monthly
    requires g.anchorMonth + j * g.count >= LocalMonth(g.zone, now) + 2
    ensures Candidate(g, j) > now
  {
    var i := g.anchorMonth + j * g.count;
    MonthlyCandidate(g, j, i);
    var w := MonthlyReading(i, g.anchorDay, g.anchorTime);
    var ln := ToLocal(g.zone, now);
    var n := MonthIndex(DateOf(ln));
    MonthlyReadingWithinMonth(i, g.anchorDay, g.anchorTime);
    WallWithinMonth(ln, n);
    LaterMonthLater(ToUtc(g.zone, w), w, i, n, ln, now);
  }

  /** Below this index every monthly point is at most `now`. */
  function MonthlyLow(g: Grid, now: int): (k: nat)
    requires g.unit == Monthly
    ensures k >= 1
    ensures forall j :: 1 <= j < k ==> Candidate(g, j) <= now
  {
    var x := LocalMonth(g.zone, now) - 2 - g.anchorMonth;
    var k := StepsPast(x, g.count);
    assert forall j :: 1 <= j < k ==> Candidate(g, j) <= now by {
      forall j | 1 <= j < k ensures Candidate(g, j) <= now {
        StepsPastBelow(x, g.count, j);
        MonthlyEarlyPoint(g, now, j);
      }
    }
    k
  }

  /** At this index the monthly point is after `now`. */
  function MonthlyHigh(g: Grid, now: int): (k: nat)
    requires g.unit == Monthly
    ensures k >= MonthlyLow(g, now)
    ensures Candidate(g, k) > now
  {
    var n := LocalMonth(g.zone, now);
    var k := StepsPast(n + 2 - g.anchorMonth, g.count);
    StepsPastMonotone(n - 2 - g.anchorMonth, n + 2 - g.anchorMonth, g.count);
    MonthlyLatePoint(g, now, k);
    k
  }

  // ---- the next fire instant ----------------------------------------------

  /** The scan of the grid between a low index, below which every point is
      at most `now`, and a high index whose point is after `now`. */
  function ScanGrid(g: Grid, now: int, low: nat, high: nat): (k: nat)
    requires 1 <= low <= high && Candidate(g, high) > now
    requires forall j :: 1 <= j < low ==> Candidate(g, j) <= now
    ensures k >= 1 && Candidate(g, k) > now
    ensures forall j :: 1 <= j < k ==> Candidate(g, j) <= now
  {
    var points := (j: nat) => Candidate(g, j);
    var k := FirstAfter(points, now, low, high);
    assert forall j :: 1 <= j < k ==> Candidate(g, j) <= now by {
      forall j | low <= j < k ensures Candidate(g, j) <= now {
        assert points(j) <= now;
      }
    }
    assert points(k) > now;
    k
  }

  /** The first grid index whose point is strictly after `now`. */
  function NextIndex(g: Grid, now: int): (k: nat)
    ensures k >= 1 && Candidate(g, k) > now
    ensures forall j :: 1 <= j < k ==> Candidate(g, j) <= now
  {
    match g.unit
    case Hourly => HourlyIndex(g, now)
    case Daily => ScanGrid(g, now, DailyLow(g, now), DailyHigh(g, now))
    case Monthly => ScanGrid(g, now, MonthlyLow(g, now), MonthlyHigh(g, now))
  }

  /** `next_interval_time`. A start time still ahead of `now` is returned as
      it is; a one-shot schedule yields its start time; otherwise the result
      is the first grid point strictly after `now`. The last run does not
      move the grid. */
  function NextIntervalTime(r: RunAt, lastRunOn: Option<int>, now: int, zoneNamed: string -> Zone): (t: int)
    ensures r.startTime > now ==> t == r.startTime
    ensures r.interval.Once? ==> t == r.startTime
    ensures r.interval.Every? ==> t > now
    ensures r.interval.Every? && r.startTime <= now ==>
      exists k: nat :: k >= 1 && t == Candidate(GridOf(r, zoneNamed), k)
                       && forall j :: 1 <= j < k ==> Candidate(GridOf(r, zoneNamed), j) <= now
  {
    if r.startTime > now then r.startTime
    else match r.interval
      case Once => r.startTime
      case Every(_, _) => Candidate(GridOf(r, zoneNamed), NextIndex(GridOf(r, zoneNamed), now))
  }

  /** The next time of a stored `run_at`. A record that fails validation
      has none and reports why. For a valid one, a start still ahead is the
      answer, as is the start of a one-shot schedule; a repeating schedule
      that has started answers the first point of its grid after `now`. */
  function NextTimeOf(raw: Option<RawRunAt>, lastRunOn: Option<int>, now: int, zoneNamed: string -> Zone)
    : (r: Result<int, ValidationError>)
    ensures r.Success? <==> IsValid(raw)
    ensures r.Failure? ==> r.error == Validate(raw).error
    ensures r.Success? ==> r.value == NextIntervalTime(Validate(raw).value, lastRunOn, now, zoneNamed)
    ensures r.Success? && raw.value.startTime.value > now ==> r.value == raw.value.startTime.value
    ensures r.Success? && raw.value.interval.value.unit == Some("once") ==> r.value == raw.value.startTime.value
    ensures r.Success? && raw.value.interval.value.unit != Some("once") ==>
      Validate(raw).value.interval.Every? && r.value > now
    ensures r.Success? && raw.value.interval.value.unit != Some("once") && raw.value.startTime.value <= now ==>
      var g := GridOf(Validate(raw).value, zoneNamed);
      exists k: nat :: k >= 1 && r.value == Candidate(g, k) && forall j :: 1 <= j < k ==> Candidate(g, j) <= now
  {
    match Validate(raw)
    case Failure(e) => Failure(e)
    case Success(runAt) => Success(NextIntervalTime(runAt, lastRunOn, now, zoneNamed))
  }
}
