/** What the next fire instant means: it is the least grid point after now,
    it keeps the start's wall-clock time in the schedule's zone, the last run
    does not move it, and an hourly schedule ignores the zone. */
module RecurrenceFacts {
  import opened Wrappers
  import opened Calendar
  import opened Zones
  import opened RunAts
  import opened Recurrence

  // ---- the index, declaratively --------------------------------------------

  /** `k` is the first grid index whose point is strictly after `now`. */
  predicate IsNextIndex(g: Grid, now: int, k: nat) {
    k >= 1 && Candidate(g, k) > now && forall j :: 1 <= j < k ==> Candidate(g, j) <= now
  }

  /** The jump-and-scan search finds exactly the index described above. */
  lemma NextIndexCharacterized(g: Grid, now: int, k: nat)
    ensures IsNextIndex(g, now, k) <==> k == NextIndex(g, now)
  {
  }

  // ---- grids whose points increase ------------------------------------------

  /** Later grid points are later instants. */
  ghost predicate Increasing(g: Grid) {
    forall i: nat, j: nat :: i < j ==> Candidate(g, i) < Candidate(g, j)
  }

  /** Each point before the next one. */
  ghost predicate StepsUp(g: Grid) {
    forall j: nat :: Candidate(g, j) < Candidate(g, j + 1)
  }

  lemma {:induction false} StepsUpBetween(g: Grid, i: nat, j: nat)
    requires StepsUp(g) && i < j
    ensures Candidate(g, i) < Candidate(g, j)
    decreases j - i
  {
    assert Candidate(g, i) < Candidate(g, i + 1);
    if i + 1 < j {
      StepsUpBetween(g, i + 1, j);
    }
  }

  lemma StepsUpIncreasing(g: Grid)
    requires StepsUp(g)
    ensures Increasing(g)
  {
    forall i: nat, j: nat | i < j ensures Candidate(g, i) < Candidate(g, j) {
      StepsUpBetween(g, i, j);
    }
  }

  /** Hourly points are a fixed number of seconds apart. */
  lemma HourlyIncreasing(g: Grid)
    requires g.unit == Hourly
    ensures Increasing(g)
  {
    forall j: nat ensures Candidate(g, j) < Candidate(g, j + 1) {
      assert (j + 1) * (g.count * 3600) == j * (g.count * 3600) + g.count * 3600;
    }
    StepsUpIncreasing(g);
  }

  /** The zone's offsets never differ by a whole day. The scenario zones meet
      this; a zone that has crossed the date line does not. */
  ghost predicate OffsetsWithinDay(z: Zone) {
    forall a, b :: z.offset(a) - z.offset(b) < 86400
  }

  /** Daily points are N days of wall clock apart; a zone whose offsets
      differ by less than a day cannot reorder them. */
  lemma DailyIncreasing(g: Grid)
    requires g.unit == Daily && OffsetsWithinDay(g.zone)
    ensures Increasing(g)
  {
    forall j: nat ensures Candidate(g, j) < Candidate(g, j + 1) {
      var step := g.count * 86400;
      assert (j + 1) * step == j * step + step;
      var w, w' := WallReading(g, j), WallReading(g, j + 1);
      assert w' == w + step;
      var a, b := w - g.zone.offset(w), w' - g.zone.offset(w');
      assert g.zone.offset(b) - g.zone.offset(a) < 86400;
    }
    StepsUpIncreasing(g);
  }

  /** Wall reading gap between the day-clamped readings of two months: the
      day counts of the months lie in 28..31. */
  lemma ClampedGap(a: int, b: int, day: int)
    requires 28 <= a <= 31 && 28 <= b <= 31 && 1 <= day <= 31
    ensures a + Min(day, b) - Min(day, a) >= 28
  {
  }

  /** Readings with the same day and time in a month and a later month are at
      least 28 days apart. */
  lemma MonthlyReadingGap(i: int, i2: int, day: MonthDay, time: DayTime)
    requires i < i2
    ensures MonthlyReading(i2, day, time) - MonthlyReading(i, day, time) >= 28 * 86400
  {
    MonthStartStep(i);
    MonthStartGrowth(i + 1, i2);
    ClampedGap(MonthLength(i), MonthLength(i2), day);
  }

  /** Monthly points are at least 28 days of wall clock apart, far more than
      any two offsets differ. */
  lemma MonthlyStep(g: Grid, j: nat)
    requires g.unit == Monthly
    ensures Candidate(g, j) < Candidate(g, j + 1)
  {
    var i, i2 := g.anchorMonth + j * g.count, g.anchorMonth + (j + 1) * g.count;
    assert i2 == i + g.count;
    MonthlyCandidate(g, j, i);
    MonthlyCandidate(g, j + 1, i2);
    MonthlyReadingGap(i, i2, g.anchorDay, g.anchorTime);
  }

  lemma MonthlyIncreasing(g: Grid)
    requires g.unit == Monthly
    ensures Increasing(g)
  {
    forall j: nat ensures Candidate(g, j) < Candidate(g, j + 1) {
      MonthlyStep(g, j);
    }
    StepsUpIncreasing(g);
  }

  // ---- the next instant is the least grid point after now -----------------

  /** On an increasing grid, the first point after `now` is below every
      other point after `now`. */
  lemma FirstIsLeast(g: Grid, now: int, n: nat, k: nat)
    requires Increasing(g) && IsNextIndex(g, now, n)
    requires k >= 1 && Candidate(g, k) > now
    ensures Candidate(g, n) <= Candidate(g, k)
  {
    if n < k {
      assert Candidate(g, n) < Candidate(g, k);
    }
  }

  /** On an increasing grid, the next instant is a grid point after `now` and
      no grid point after `now` comes before it. */
  lemma NextIsLeastPointAfter(r: RunAt, lastRunOn: Option<int>, now: int, zoneNamed: string -> Zone)
    requires r.interval.Every? && r.startTime <= now && Increasing(GridOf(r, zoneNamed))
    ensures var t := NextIntervalTime(r, lastRunOn, now, zoneNamed);
            && t > now
            && (exists k: nat :: k >= 1 && t == Candidate(GridOf(r, zoneNamed), k))
            && forall k: nat :: k >= 1 && Candidate(GridOf(r, zoneNamed), k) > now ==>
                                  t <= Candidate(GridOf(r, zoneNamed), k)
  {
    var g := GridOf(r, zoneNamed);
    var n := NextIndex(g, now);
    assert NextIntervalTime(r, lastRunOn, now, zoneNamed) == Candidate(g, n);
    forall k: nat | k >= 1 && Candidate(g, k) > now ensures Candidate(g, n) <= Candidate(g, k) {
      FirstIsLeast(g, now, n, k);
    }
  }

  /** On an increasing grid, the point at `k` is the next instant as soon as
      it is after `now` and the point before it is not. */
  lemma NextAt(r: RunAt, lastRunOn: Option<int>, now: int, zoneNamed: string -> Zone, k: nat)
    requires r.interval.Every? && r.startTime <= now && Increasing(GridOf(r, zoneNamed))
    requires k >= 1 && Candidate(GridOf(r, zoneNamed), k) > now
    requires k == 1 || Candidate(GridOf(r, zoneNamed), k - 1) <= now
    ensures NextIntervalTime(r, lastRunOn, now, zoneNamed) == Candidate(GridOf(r, zoneNamed), k)
  {
    var g := GridOf(r, zoneNamed);
    forall j | 1 <= j < k - 1 ensures Candidate(g, j) <= now {
      assert Candidate(g, j) < Candidate(g, k - 1);
    }
    NextIndexCharacterized(g, now, k);
  }

  // ---- hourly ----------------------------------------------------------------

  lemma AlignedArith(start: int, now: int, n: int, step: int)
    requires step >= 1 && n >= 1 && start + n * step > now
    requires if n == 1 then start <= now else start + (n - 1) * step <= now
    ensures (start + n * step - start) % step == 0
    ensures now < start + n * step <= now + step
  {
    DivUnique(n * step, step, n, 0);
    assert (n - 1) * step == n * step - step;
  }

  /** An hourly schedule fires a whole number of N-hour steps after its start,
      within one step after now. */
  lemma HourlyNextIsAligned(r: RunAt, lastRunOn: Option<int>, now: int, zoneNamed: string -> Zone)
    requires r.interval.Every? && r.interval.unit == Hourly && r.startTime <= now
    ensures var t := NextIntervalTime(r, lastRunOn, now, zoneNamed);
            && (t - r.startTime) % (r.interval.count * 3600) == 0
            && now < t <= now + r.interval.count * 3600
  {
    var g := GridOf(r, zoneNamed);
    var step := r.interval.count * 3600;
    var n := NextIndex(g, now);
    assert NextIntervalTime(r, lastRunOn, now, zoneNamed) == r.startTime + n * step;
    if n > 1 {
      assert Candidate(g, n - 1) <= now;
    }
    AlignedArith(r.startTime, now, n, step);
  }

  /** Two hourly grids with the same start and count have the same next
      index, whatever their zones. */
  lemma HourlyGridsAgree(g: Grid, h: Grid, now: int)
    requires g.unit == Hourly && h.unit == Hourly
    requires g.start == h.start && g.count == h.count
    ensures NextIndex(g, now) == NextIndex(h, now)
  {
    var n := NextIndex(g, now);
    assert forall j: nat :: Candidate(g, j) == Candidate(h, j);
    NextIndexCharacterized(h, now, n);
  }

  /** Hourly steps are plain UTC arithmetic: the zone plays no part. */
  lemma HourlyIgnoresZone(r: RunAt, lastRunOn: Option<int>, now: int, zoneNamed: string -> Zone,
                          otherZones: string -> Zone)
    requires r.interval.Every? && r.interval.unit == Hourly
    ensures NextIntervalTime(r, lastRunOn, now, zoneNamed) == NextIntervalTime(r, lastRunOn, now, otherZones)
  {
    var g, h := GridOf(r, zoneNamed), GridOf(r, otherZones);
    HourlyGridsAgree(g, h, now);
  }

  // ---- the last run ---------------------------------------------------------

  /** The last run time does not shift the grid or the answer. */
  lemma LastRunOnDoesNotShiftGrid(r: RunAt, a: Option<int>, b: Option<int>, now: int, zoneNamed: string -> Zone)
    ensures NextIntervalTime(r, a, now, zoneNamed) == NextIntervalTime(r, b, now, zoneNamed)
  {
  }

  // ---- wall-clock time is kept ----------------------------------------------

  /** A daily point shows, in the grid's zone, the anchor's time of day,
      k * N days later, unless its reading falls in a daylight-saving gap. */
  lemma DailyPointKeepsWallClock(g: Grid, k: nat)
    requires g.unit == Daily && WallClockExists(g.zone, WallReading(g, k))
    ensures TimeOfDay(ToLocal(g.zone, Candidate(g, k))) == TimeOfDay(g.anchor)
    ensures DayOf(ToLocal(g.zone, Candidate(g, k))) == DayOf(g.anchor) + k * g.count
  {
    var m := k * g.count;
    assert k * (g.count * 86400) == m * 86400;
    DayAndTime(g.anchor);
    DivUnique(g.anchor + m * 86400, 86400, DayOf(g.anchor) + m, TimeOfDay(g.anchor));
  }

  /** A daily schedule's k-th point shows the start's time of day in the
      schedule's zone, k * N days later, whenever some instant shows that
      reading and the offset changes at most once around it. */
  lemma DailyKeepsWallClock(r: RunAt, zoneNamed: string -> Zone, k: nat)
    requires r.interval.Every? && r.interval.unit == Daily
    requires var g := GridOf(r, zoneNamed);
             Shown(g.zone, WallReading(g, k)) && OneChangeNear(g.zone, WallReading(g, k))
    ensures var z := ZoneOf(r, zoneNamed);
            var local := ToLocal(z, Candidate(GridOf(r, zoneNamed), k));
            && TimeOfDay(local) == TimeOfDay(ToLocal(z, r.startTime))
            && DayOf(local) == DayOf(ToLocal(z, r.startTime)) + k * r.interval.count
  {
    var g := GridOf(r, zoneNamed);
    ShownResolves(g.zone, WallReading(g, k));
    DailyPointKeepsWallClock(g, k);
  }

  /** Without a zone a daily schedule is UTC arithmetic and keeps the start's
      UTC time of day. */
  lemma DailyWithoutZone(r: RunAt, zoneNamed: string -> Zone, k: nat)
    requires r.interval.Every? && r.interval.unit == Daily && r.tz.None?
    ensures Candidate(GridOf(r, zoneNamed), k) == r.startTime + k * r.interval.count * 86400
    ensures WallClockExists(GridOf(r, zoneNamed).zone, WallReading(GridOf(r, zoneNamed), k))
    ensures TimeOfDay(Candidate(GridOf(r, zoneNamed), k)) == TimeOfDay(r.startTime)
  {
    var g := GridOf(r, zoneNamed);
    UtcIsIdentity(r.startTime);
    UtcIsIdentity(WallReading(g, k));
    DailyPointKeepsWallClock(g, k);
  }

  /** The wall reading of a monthly point is the start's reading moved by
      whole months, with the day clamped. */
  lemma MonthlyReadingIsAddMonths(d: Date, m: nat, time: DayTime, i: int)
    requires ValidDate(d) && i == MonthIndex(d) + m
    ensures MonthlyReading(i, d.day, time) == DaysFromCivil(AddMonths(d, m)) * 86400 + time
  {
    AddMonthsDay(d, m, i);
  }

  /** A monthly point shows, in the grid's zone, the anchor's date moved
      k * N months (day clamped to the month) and the anchor's time of day,
      unless its reading falls in a daylight-saving gap. */
  lemma MonthlyPointKeepsAnchor(g: Grid, k: nat, d: Date)
    requires g.unit == Monthly && WallClockExists(g.zone, WallReading(g, k))
    requires d == DateOf(g.anchor)
    requires g.anchorMonth == MonthIndex(d) && g.anchorDay == d.day && g.anchorTime == TimeOfDay(g.anchor)
    ensures k * g.count >= 0
    ensures DateOf(ToLocal(g.zone, Candidate(g, k))) == AddMonths(d, k * g.count)
    ensures TimeOfDay(ToLocal(g.zone, Candidate(g, k))) == TimeOfDay(g.anchor)
  {
    MulNonNegative(k, g.count);
    var m: nat := k * g.count;
    var i := g.anchorMonth + m;
    MonthlyCandidate(g, k, i);
    var wall := MonthlyReading(i, g.anchorDay, g.anchorTime);
    MonthlyReadingIsAddMonths(d, m, g.anchorTime, i);
    DayAndTimeRoundTrip(AddMonths(d, m), g.anchorTime, wall);
  }

  /** A monthly schedule's k-th point shows, in the schedule's zone, the
      start's date moved k * N months (day clamped to the month) and the
      start's time of day, whenever some instant shows that reading and the
      offset changes at most once around it. The months are counted from the
      start each time, so a clamped day does not carry over to later points. */
  lemma MonthlyKeepsAnchor(r: RunAt, zoneNamed: string -> Zone, k: nat)
    requires r.interval.Every? && r.interval.unit == Monthly
    requires var g := GridOf(r, zoneNamed);
             Shown(g.zone, WallReading(g, k)) && OneChangeNear(g.zone, WallReading(g, k))
    ensures var z := ZoneOf(r, zoneNamed);
            var local := ToLocal(z, Candidate(GridOf(r, zoneNamed), k));
            && k * r.interval.count >= 0
            && DateOf(local) == AddMonths(DateOf(ToLocal(z, r.startTime)), k * r.interval.count)
            && TimeOfDay(local) == TimeOfDay(ToLocal(z, r.startTime))
  {
    var g := GridOf(r, zoneNamed);
    ShownResolves(g.zone, WallReading(g, k));
    MonthlyPointKeepsAnchor(g, k, DateOf(g.anchor));
  }
}
