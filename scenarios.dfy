/** The schedules of the model spec, stated as lemmas about the model.

    Zones are given by the offsets they had around the instants involved:
    US Central in 2012, US Eastern and Alaska in 2010, each switching at
    2 AM local time on the second Sunday of March and the first Sunday of
    November. A clock that runs on past a stubbed "now" is taken to stand
    at that instant exactly.

    The lemmas take the instants and dates of a test as parameters fixed by
    `requires x == <literal>` rather than writing the literals in place:
    with every argument a literal, the verifier unfolds the calendar
    functions on the literals and the proofs become far too costly. */
module Scenarios {
  import opened Wrappers
  import opened Calendar
  import opened Zones
  import opened RunAts
  import opened Recurrence
  import opened RecurrenceFacts
  import opened Schedules

  // ---- zones ---------------------------------------------------------------

  /** US Central: CST until 2012-03-11 08:00 UTC, CDT after. */
  function CentralOffset(t: int): UtcOffset {
    if t < 1331452800 then -21600 else -18000
  }

  /** US Eastern: EST, EDT from 2010-03-14 07:00 UTC, EST from 2010-11-07
      06:00 UTC. */
  function EasternOffset(t: int): UtcOffset {
    if t < 1268550000 then -18000 else if t < 1289109600 then -14400 else -18000
  }

  /** Alaska: AKST, AKDT from 2010-03-14 11:00 UTC, AKST from 2010-11-07
      10:00 UTC. */
  function AlaskaOffset(t: int): UtcOffset {
    if t < 1268564400 then -32400 else if t < 1289124000 then -28800 else -32400
  }

  const CentralName := "Central Time (US & Canada)"
  const EasternName := "Eastern Time (US & Canada)"
  const AlaskaName := "Alaska"
  const UtcName := "UTC"

  /** The zone database of these scenarios. */
  function ZoneNamed(name: string): Zone {
    if name == CentralName then Zone(CentralOffset)
    else if name == EasternName then Zone(EasternOffset)
    else if name == AlaskaName then Zone(AlaskaOffset)
    else Utc
  }

  /** The civil reading of instant `t`, second `hour * 3600 + minute * 60`
      of date `d`. */
  lemma ReadsAs(t: int, d: Date, hour: int, minute: int)
    requires ValidDate(d) && 0 <= hour < 24 && 0 <= minute < 60
    requires t == DaysFromCivil(d) * 86400 + hour * 3600 + minute * 60
    ensures DateOf(t) == d && HourOf(t) == hour && MinuteOf(t) == minute
  {
    var s := hour * 3600 + minute * 60;
    DayAndTimeRoundTrip(d, s, t);
    DivUnique(s, 3600, hour, minute * 60);
    DivUnique(minute * 60, 60, minute, 0);
  }

  // ---- UTC: daily and hourly at 2011-01-01 06:00 ----------------------------

  // Instants used below, in seconds since the epoch:
  //   1291266000 = 2010-12-02 05:00 UTC    1291276800 = 2010-12-02 08:00 UTC
  //   1293861600 = 2011-01-01 06:00 UTC    1293865200 = 2011-01-01 07:00 UTC
  //   1293868800 = 2011-01-01 08:00 UTC    1293876000 = 2011-01-01 10:00 UTC
  //   1293944400 = 2011-01-02 05:00 UTC    1294290000 = 2011-01-06 05:00 UTC
  //   1295931600 = 2011-01-25 05:00 UTC

  /** A daily schedule without zone fires at its `k`-th point when that is
      after `now` and the one before is not. */
  lemma UtcDaily(r: RunAt, lastRunOn: Option<int>, now: int, k: nat)
    requires r.interval.Every? && r.interval.unit == Daily && r.tz.None? && r.startTime <= now
    requires k >= 1 && r.startTime + k * r.interval.count * 86400 > now
    requires r.startTime + (k - 1) * r.interval.count * 86400 <= now
    ensures NextIntervalTime(r, lastRunOn, now, ZoneNamed) == r.startTime + k * r.interval.count * 86400
  {
    var g := GridOf(r, ZoneNamed);
    assert OffsetsWithinDay(g.zone);
    DailyIncreasing(g);
    DailyWithoutZone(r, ZoneNamed, k);
    DailyWithoutZone(r, ZoneNamed, k - 1);
    NextAt(r, lastRunOn, now, ZoneNamed, k);
  }

  /** Without zone, every day from 2010-12-02 08:00: at 2011-01-01 06:00 the next
      run is 2011-01-01 08:00, whatever the last run. */
  lemma UtcDailyFromEightAm(start: int, now: int, lastRunOn: Option<int>)
    requires start == 1291276800 && now == 1293861600
    ensures NextIntervalTime(RunAt(start, Every(Daily, 1), None), lastRunOn, now, ZoneNamed) == 1293868800
  {
    UtcDaily(RunAt(start, Every(Daily, 1), None), lastRunOn, now, 30);
  }

  /** Without zone, every day from 2010-12-02 05:00: at 2011-01-01 06:00 the next
      run is 2011-01-02 05:00, whatever the last run. */
  lemma UtcDailyFromFiveAm(start: int, now: int, lastRunOn: Option<int>)
    requires start == 1291266000 && now == 1293861600
    ensures NextIntervalTime(RunAt(start, Every(Daily, 1), None), lastRunOn, now, ZoneNamed) == 1293944400
  {
    UtcDaily(RunAt(start, Every(Daily, 1), None), lastRunOn, now, 31);
  }

  /** Without zone, every 5 days from 2010-12-02 08:00: at 2011-01-01 06:00 the next
      run is 2011-01-01 08:00, whatever the last run. */
  lemma UtcFiveDailyFromEightAm(start: int, now: int, lastRunOn: Option<int>)
    requires start == 1291276800 && now == 1293861600
    ensures NextIntervalTime(RunAt(start, Every(Daily, 5), None), lastRunOn, now, ZoneNamed) == 1293868800
  {
    UtcDaily(RunAt(start, Every(Daily, 5), None), lastRunOn, now, 6);
  }

  /** Without zone, every 5 days from 2010-12-02 05:00: at 2011-01-01 06:00 the next
      run is 2011-01-06 05:00, whatever the last run. */
  lemma UtcFiveDailyFromFiveAm(start: int, now: int, lastRunOn: Option<int>)
    requires start == 1291266000 && now == 1293861600
    ensures NextIntervalTime(RunAt(start, Every(Daily, 5), None), lastRunOn, now, ZoneNamed) == 1294290000
  {
    UtcDaily(RunAt(start, Every(Daily, 5), None), lastRunOn, now, 7);
  }

  /** An hourly schedule fires at its `k`-th point when that is after `now`
      and the one before is not. */
  lemma HourlyAt(r: RunAt, lastRunOn: Option<int>, now: int, zoneNamed: string -> Zone, k: nat)
    requires r.interval.Every? && r.interval.unit == Hourly && r.startTime <= now
    requires k >= 1 && r.startTime + k * (r.interval.count * 3600) > now
    requires r.startTime + (k - 1) * (r.interval.count * 3600) <= now
    ensures NextIntervalTime(r, lastRunOn, now, zoneNamed) == r.startTime + k * (r.interval.count * 3600)
  {
    var g := GridOf(r, zoneNamed);
    HourlyIncreasing(g);
    NextAt(r, lastRunOn, now, zoneNamed, k);
  }

  /** Without zone, every hour from 2010-12-02 08:00: at 2011-01-01 06:00 the next
      run is 2011-01-01 07:00, whatever the last run. */
  lemma UtcHourlyFromEightAm(start: int, now: int, lastRunOn: Option<int>)
    requires start == 1291276800 && now == 1293861600
    ensures NextIntervalTime(RunAt(start, Every(Hourly, 1), None), lastRunOn, now, ZoneNamed) == 1293865200
  {
    HourlyAt(RunAt(start, Every(Hourly, 1), None), lastRunOn, now, ZoneNamed, 719);
  }

  /** Without zone, every 5 hours from 2010-12-02 08:00: at 2011-01-01 06:00 the next
      run is 2011-01-01 08:00, whatever the last run. */
  lemma UtcFiveHourlyFromEightAm(start: int, now: int, lastRunOn: Option<int>)
    requires start == 1291276800 && now == 1293861600
    ensures NextIntervalTime(RunAt(start, Every(Hourly, 5), None), lastRunOn, now, ZoneNamed) == 1293868800
  {
    HourlyAt(RunAt(start, Every(Hourly, 5), None), lastRunOn, now, ZoneNamed, 144);
  }

  /** Without zone, every 5 hours from 2010-12-02 05:00: at 2011-01-01 06:00 the next
      run is 2011-01-01 10:00, whatever the last run. */
  lemma UtcFiveHourlyFromFiveAm(start: int, now: int, lastRunOn: Option<int>)
    requires start == 1291266000 && now == 1293861600
    ensures NextIntervalTime(RunAt(start, Every(Hourly, 5), None), lastRunOn, now, ZoneNamed) == 1293876000
  {
    HourlyAt(RunAt(start, Every(Hourly, 5), None), lastRunOn, now, ZoneNamed, 145);
  }

  /** A start time still ahead, 2011-01-25 05:00, is the next run at
      2011-01-01 06:00, daily or hourly. */
  lemma FutureStartAtNewYear(start: int, now: int, lastRunOn: Option<int>)
    requires start == 1295931600 && now == 1293861600
    ensures NextIntervalTime(RunAt(start, Every(Daily, 1), None), lastRunOn, now, ZoneNamed) == start
    ensures NextIntervalTime(RunAt(start, Every(Hourly, 1), None), lastRunOn, now, ZoneNamed) == start
  {
  }

  // ---- hourly in US Central, 2012 ----------------------------------------

  /** The Central-time reading of instant `t`, whose offset is `off`. */
  lemma CentralReadsAs(t: int, off: int, d: Date, hour: int, minute: int)
    requires CentralOffset(t) == off
    requires ValidDate(d) && 0 <= hour < 24 && 0 <= minute < 60
    requires t + off == DaysFromCivil(d) * 86400 + hour * 3600 + minute * 60
    ensures var local := ToLocal(ZoneNamed(CentralName), t);
            DateOf(local) == d && HourOf(local) == hour && MinuteOf(local) == minute
  {
    var local := ToLocal(ZoneNamed(CentralName), t);
    assert local == t + off;
    ReadsAs(local, d, hour, minute);
  }

  /** Hourly from 2012-03-10 01:35 UTC in Central time: at 3:00 CST
      (09:00 UTC) the next run is `t`, 3:35 CST on 2012-03-10 (09:35
      UTC). */
  lemma CentralHourlyStandardTime(start: int, now: int, t: int, lastRunOn: Option<int>)
    requires start == 1331343300 && now == 1331370000 && t == 1331372100
    ensures NextIntervalTime(RunAt(start, Every(Hourly, 1), Some(CentralName)), lastRunOn, now, ZoneNamed) == t
    ensures CentralOffset(t) == -21600
    ensures var local := ToLocal(ZoneNamed(CentralName), t);
            DateOf(local) == Date(2012, 3, 10) && HourOf(local) == 3 && MinuteOf(local) == 35
  {
    HourlyAt(RunAt(start, Every(Hourly, 1), Some(CentralName)), lastRunOn, now, ZoneNamed, 8);
    MarchTenth(t, Date(2012, 3, 10));
  }

  /** 09:35 UTC on 2012-03-10 reads 3:35 CST. */
  lemma MarchTenth(t: int, d: Date)
    requires t == 1331372100 && d == Date(2012, 3, 10)
    ensures var local := ToLocal(ZoneNamed(CentralName), t);
            DateOf(local) == d && HourOf(local) == 3 && MinuteOf(local) == 35
  {
    CentralReadsAs(t, -21600, d, 3, 35);
  }

  /** Hourly from 2012-03-11 01:35 UTC in Central time: at 3:00 CDT, just
      after the change to daylight time (08:00 UTC), the next run is `t`,
      3:35 CDT on 2012-03-11 (08:35 UTC). */
  lemma CentralHourlyIntoDaylightTime(start: int, now: int, t: int, lastRunOn: Option<int>)
    requires start == 1331429700 && now == 1331452800 && t == 1331454900
    ensures NextIntervalTime(RunAt(start, Every(Hourly, 1), Some(CentralName)), lastRunOn, now, ZoneNamed) == t
    ensures CentralOffset(t) == -18000
    ensures var local := ToLocal(ZoneNamed(CentralName), t);
            DateOf(local) == Date(2012, 3, 11) && HourOf(local) == 3 && MinuteOf(local) == 35
  {
    HourlyAt(RunAt(start, Every(Hourly, 1), Some(CentralName)), lastRunOn, now, ZoneNamed, 7);
    MarchEleventh(t, Date(2012, 3, 11));
  }

  /** 08:35 UTC on 2012-03-11 reads 3:35 CDT. */
  lemma MarchEleventh(t: int, d: Date)
    requires t == 1331454900 && d == Date(2012, 3, 11)
    ensures var local := ToLocal(ZoneNamed(CentralName), t);
            DateOf(local) == d && HourOf(local) == 3 && MinuteOf(local) == 35
  {
    CentralReadsAs(t, -18000, d, 3, 35);
  }

  // ---- monthly, without zone ----------------------------------------------

  /** The months `k` steps of `count` months span: just `k * count`, named
      so that the product is known to be a `nat` without the verifier
      proving it again at every use. */
  function MonthSteps(k: nat, count: Count): nat {
    k * count
  }

  /** The `k`-th point of a monthly schedule without zone that starts at
      second `s` of date `d` is second `s` of `d` moved `k * N` months. */
  lemma UtcMonthlyPoint(r: RunAt, k: nat, d: Date, s: DayTime)
    requires r.interval.Every? && r.interval.unit == Monthly && r.tz.None?
    requires ValidDate(d) && r.startTime == DaysFromCivil(d) * 86400 + s
    ensures k * r.interval.count >= 0
    ensures var t := Candidate(GridOf(r, ZoneNamed), k);
            var next := AddMonths(d, k * r.interval.count);
            && t == DaysFromCivil(next) * 86400 + s
            && DateOf(t) == next && TimeOfDay(t) == s
  {
    var g := GridOf(r, ZoneNamed);
    DayAndTimeRoundTrip(d, s, r.startTime);
    UtcIsIdentity(r.startTime);
    UtcIsIdentity(WallReading(g, k));
    UtcIsIdentity(Candidate(g, k));
    MonthlyPointKeepsAnchor(g, k, DateOf(g.anchor));
    DayAndTime(Candidate(g, k));
  }

  /** The point before the `k`-th of a monthly schedule without zone is
      not after `now` when its date and time are not. */
  lemma UtcMonthlyEarlier(r: RunAt, now: int, k: nat, d: Date, s: DayTime, prev: Date)
    requires r.interval.Every? && r.interval.unit == Monthly && r.tz.None?
    requires ValidDate(d) && r.startTime == DaysFromCivil(d) * 86400 + s
    requires k > 1 && AddMonths(d, MonthSteps(k - 1, r.interval.count)) == prev
    requires DaysFromCivil(prev) * 86400 + s <= now
    ensures Candidate(GridOf(r, ZoneNamed), k - 1) <= now
  {
    UtcMonthlyPoint(r, k - 1, d, s);
  }

  /** A monthly schedule without zone fires at its `k`-th point when that
      is after `now` and the one before is not. */
  lemma UtcMonthly(r: RunAt, lastRunOn: Option<int>, now: int, k: nat, d: Date, s: DayTime, next: Date, prev: Date)
    requires r.interval.Every? && r.interval.unit == Monthly && r.tz.None? && r.startTime <= now
    requires ValidDate(d) && r.startTime == DaysFromCivil(d) * 86400 + s
    requires k >= 1 && AddMonths(d, MonthSteps(k, r.interval.count)) == next && DaysFromCivil(next) * 86400 + s > now
    requires k == 1 || (AddMonths(d, MonthSteps(k - 1, r.interval.count)) == prev && DaysFromCivil(prev) * 86400 + s <= now)
    ensures var t := NextIntervalTime(r, lastRunOn, now, ZoneNamed);
            && t == DaysFromCivil(next) * 86400 + s
            && DateOf(t) == next && TimeOfDay(t) == s
  {
    MonthlyIncreasing(GridOf(r, ZoneNamed));
    if k > 1 {
      UtcMonthlyEarlier(r, now, k, d, s, prev);
    }
    UtcMonthlyPoint(r, k, d, s);
    NextAt(r, lastRunOn, now, ZoneNamed, k);
  }

  /** The dates of a monthly schedule from 2012-01-01. */
  lemma FirstOfJanuary(d: Date, next: Date)
    requires d == Date(2012, 1, 1) && next == Date(2012, 2, 1)
    ensures ValidDate(d) && DaysFromCivil(d) == 15340
    ensures AddMonths(d, 1) == next && DaysFromCivil(next) == 15371
  {
  }

  /** Monthly from 2012-01-01 08:30 (`d` at second 30600): five minutes
      after the start the next run is 2012-02-01 08:30. */
  lemma MonthlyFromFirstOfMonth(start: int, lastRunOn: Option<int>, d: Date, next: Date)
    requires start == 1325406600 && d == Date(2012, 1, 1) && next == Date(2012, 2, 1)
    ensures var t := NextIntervalTime(RunAt(start, Every(Monthly, 1), None), lastRunOn, start + 300, ZoneNamed);
            t == 1328085000 && DateOf(t) == next
  {
    FirstOfJanuary(d, next);
    UtcMonthly(RunAt(start, Every(Monthly, 1), None), lastRunOn, start + 300, 1, d, 30600, next, d);
  }

  /** A monthly schedule without zone that starts at second `s` of date
      `d` (day number `n`) runs first at its start, of date `d`. */
  lemma UtcMonthlyBeforeStart(r: RunAt, lastRunOn: Option<int>, now: int, d: Date, n: int, s: DayTime)
    requires r.interval.Every? && r.interval.unit == Monthly && r.tz.None? && now < r.startTime
    requires ValidDate(d) && DaysFromCivil(d) == n && r.startTime == n * 86400 + s
    ensures var t := NextIntervalTime(r, lastRunOn, now, ZoneNamed);
            t == r.startTime && DateOf(t) == d
  {
    DayAndTimeRoundTrip(d, s, r.startTime);
  }

  /** Monthly from 2012-01-01 08:30: five minutes before the start, the
      start is next, on 2012-01-01. */
  lemma MonthlyFromFirstOfMonthBeforeStart(start: int, lastRunOn: Option<int>, d: Date)
    requires start == 1325406600 && d == Date(2012, 1, 1)
    ensures var t := NextIntervalTime(RunAt(start, Every(Monthly, 1), None), lastRunOn, start - 300, ZoneNamed);
            t == start && DateOf(t) == d
  {
    FirstOfJanuary(d, Date(2012, 2, 1));
    UtcMonthlyBeforeStart(RunAt(start, Every(Monthly, 1), None), lastRunOn, start - 300, d, 15340, 30600);
  }

  /** The dates of a monthly schedule from 2005-01-01 in January 2013. */
  lemma FirstOfJanuaryLongAgo(d: Date, next: Date, prev: Date)
    requires d == Date(2005, 1, 1) && next == Date(2013, 2, 1) && prev == Date(2013, 1, 1)
    ensures ValidDate(d) && DaysFromCivil(d) == 12784
    ensures AddMonths(d, 97) == next && DaysFromCivil(next) == 15737
    ensures AddMonths(d, 96) == prev && DaysFromCivil(prev) == 15706
  {
  }

  /** Monthly from 2005-01-01 08:30: at 2013-01-01 08:31 the next run is `t`,
      2013-02-01 08:30. */
  lemma MonthlyFromFirstOfMonthLongAgo(start: int, now: int, t: int, lastRunOn: Option<int>, d: Date, next: Date, prev: Date)
    requires start == 1104568200 && now == 1357029060 && t == 1359707400
    requires d == Date(2005, 1, 1) && next == Date(2013, 2, 1) && prev == Date(2013, 1, 1)
    ensures NextIntervalTime(RunAt(start, Every(Monthly, 1), None), lastRunOn, now, ZoneNamed) == t
    ensures DateOf(t) == next
  {
    FirstOfJanuaryLongAgo(d, next, prev);
    UtcMonthly(RunAt(start, Every(Monthly, 1), None), lastRunOn, now, 97, d, 30600, next, prev);
  }

  /** The dates of a monthly schedule from 2012-01-31. */
  lemma EndOfJanuary(d: Date, next: Date)
    requires d == Date(2012, 1, 31) && next == Date(2012, 2, 29)
    ensures ValidDate(d) && DaysFromCivil(d) == 15370
    ensures AddMonths(d, 1) == next && DaysFromCivil(next) == 15399
  {
  }

  /** Monthly from 2012-01-31 08:30: five minutes before the start, the
      start is next, on 2012-01-31. */
  lemma MonthlyFromEndOfMonthBeforeStart(start: int, lastRunOn: Option<int>, d: Date)
    requires start == 1327998600 && d == Date(2012, 1, 31)
    ensures var t := NextIntervalTime(RunAt(start, Every(Monthly, 1), None), lastRunOn, start - 300, ZoneNamed);
            t == start && DateOf(t) == d
  {
    EndOfJanuary(d, Date(2012, 2, 29));
    UtcMonthlyBeforeStart(RunAt(start, Every(Monthly, 1), None), lastRunOn, start - 300, d, 15370, 30600);
  }

  /** Monthly from 2012-01-31 08:30: five minutes after the start the next
      run is on the last day of February, 2012-02-29 08:30. */
  lemma MonthlyFromEndOfMonth(start: int, lastRunOn: Option<int>, d: Date, next: Date)
    requires start == 1327998600 && d == Date(2012, 1, 31) && next == Date(2012, 2, 29)
    ensures var t := NextIntervalTime(RunAt(start, Every(Monthly, 1), None), lastRunOn, start + 300, ZoneNamed);
            t == 1330504200 && DateOf(t) == next
  {
    EndOfJanuary(d, next);
    UtcMonthly(RunAt(start, Every(Monthly, 1), None), lastRunOn, start + 300, 1, d, 30600, next, d);
  }

  /** The dates of a monthly schedule from 2005-01-31 in early 2013. */
  lemma EndOfJanuaryLongAgo(d: Date, next: Date, prev: Date)
    requires d == Date(2005, 1, 31) && next == Date(2013, 2, 28) && prev == Date(2013, 1, 31)
    ensures ValidDate(d) && DaysFromCivil(d) == 12814
    ensures AddMonths(d, 97) == next && DaysFromCivil(next) == 15764
    ensures AddMonths(d, 96) == prev && DaysFromCivil(prev) == 15736
  {
  }

  /** Monthly from 2005-01-31 08:30: at 2013-01-31 08:31 the next run is `t`,
      2013-02-28 08:30. */
  lemma MonthlyFromEndOfMonthLongAgo(start: int, now: int, t: int, lastRunOn: Option<int>, d: Date, next: Date, prev: Date)
    requires start == 1107160200 && now == 1359621060 && t == 1362040200
    requires d == Date(2005, 1, 31) && next == Date(2013, 2, 28) && prev == Date(2013, 1, 31)
    ensures NextIntervalTime(RunAt(start, Every(Monthly, 1), None), lastRunOn, now, ZoneNamed) == t
    ensures DateOf(t) == next
  {
    EndOfJanuaryLongAgo(d, next, prev);
    UtcMonthly(RunAt(start, Every(Monthly, 1), None), lastRunOn, now, 97, d, 30600, next, prev);
  }

  /** The dates of a monthly schedule from 2012-01-30. */
  lemma ThirtiethOfJanuary(d: Date, next: Date)
    requires d == Date(2012, 1, 30) && next == Date(2012, 2, 29)
    ensures ValidDate(d) && DaysFromCivil(d) == 15369
    ensures AddMonths(d, 1) == next && DaysFromCivil(next) == 15399
  {
  }

  /** Monthly from 2012-01-30 08:30: five minutes before the start, the
      start is next, on 2012-01-30. */
  lemma MonthlyFromThirtiethBeforeStart(start: int, lastRunOn: Option<int>, d: Date)
    requires start == 1327912200 && d == Date(2012, 1, 30)
    ensures var t := NextIntervalTime(RunAt(start, Every(Monthly, 1), None), lastRunOn, start - 300, ZoneNamed);
            t == start && DateOf(t) == d
  {
    ThirtiethOfJanuary(d, Date(2012, 2, 29));
    UtcMonthlyBeforeStart(RunAt(start, Every(Monthly, 1), None), lastRunOn, start - 300, d, 15369, 30600);
  }

  /** Monthly from 2012-01-30 08:30: five minutes after the start the next
      run is 2012-02-29 08:30, February having no 30th. */
  lemma MonthlyFromThirtieth(start: int, lastRunOn: Option<int>, d: Date, next: Date)
    requires start == 1327912200 && d == Date(2012, 1, 30) && next == Date(2012, 2, 29)
    ensures var t := NextIntervalTime(RunAt(start, Every(Monthly, 1), None), lastRunOn, start + 300, ZoneNamed);
            t == 1330504200 && DateOf(t) == next
  {
    ThirtiethOfJanuary(d, next);
    UtcMonthly(RunAt(start, Every(Monthly, 1), None), lastRunOn, start + 300, 1, d, 30600, next, d);
  }

  /** The dates of a two-monthly schedule from 2012-01-01. */
  lemma FirstOfJanuaryTwoMonths(d: Date, next: Date)
    requires d == Date(2012, 1, 1) && next == Date(2012, 3, 1)
    ensures ValidDate(d) && DaysFromCivil(d) == 15340
    ensures AddMonths(d, 2) == next && DaysFromCivil(next) == 15400
  {
  }

  /** Every two months from 2012-01-01 08:30: five minutes after the start
      the next run is 2012-03-01 08:30. */
  lemma TwoMonthlyFromFirstOfMonth(start: int, lastRunOn: Option<int>, d: Date, next: Date)
    requires start == 1325406600 && d == Date(2012, 1, 1) && next == Date(2012, 3, 1)
    ensures var t := NextIntervalTime(RunAt(start, Every(Monthly, 2), None), lastRunOn, start + 300, ZoneNamed);
            t == 1330590600 && DateOf(t) == next
  {
    FirstOfJanuaryTwoMonths(d, next);
    UtcMonthly(RunAt(start, Every(Monthly, 2), None), lastRunOn, start + 300, 1, d, 30600, next, d);
  }

  /** The dates of a two-monthly schedule from 2012-01-31. */
  lemma EndOfJanuaryTwoMonths(d: Date, next: Date)
    requires d == Date(2012, 1, 31) && next == Date(2012, 3, 31)
    ensures ValidDate(d) && DaysFromCivil(d) == 15370
    ensures AddMonths(d, 2) == next && DaysFromCivil(next) == 15430
  {
  }

  /** Every two months from 2012-01-31 08:30: five minutes after the start
      the next run is 2012-03-31 08:30, the day being kept although
      February has no 31st. */
  lemma TwoMonthlyFromEndOfMonth(start: int, lastRunOn: Option<int>, d: Date, next: Date)
    requires start == 1327998600 && d == Date(2012, 1, 31) && next == Date(2012, 3, 31)
    ensures var t := NextIntervalTime(RunAt(start, Every(Monthly, 2), None), lastRunOn, start + 300, ZoneNamed);
            t == 1333182600 && DateOf(t) == next
  {
    EndOfJanuaryTwoMonths(d, next);
    UtcMonthly(RunAt(start, Every(Monthly, 2), None), lastRunOn, start + 300, 1, d, 30600, next, d);
  }

  // ---- daily in US Eastern and Alaska, 2010 ---------------------------------

  /** The offsets of each zone of these scenarios differ by less than a day. */
  lemma ScenarioZonesWithinDay()
    ensures OffsetsWithinDay(Zone(CentralOffset))
    ensures OffsetsWithinDay(Zone(EasternOffset))
    ensures OffsetsWithinDay(Zone(AlaskaOffset))
  {
  }

  /** A daily schedule in zone `z` fires at `p`, the `k`-th wall-clock
      step from its start resolved to an instant, when `p` is after `now`
      and the step before, `q`, is not. */
  lemma ZonedDaily(r: RunAt, lastRunOn: Option<int>, now: int, k: nat, z: Zone, p: int, q: int)
    requires r.interval.Every? && r.interval.unit == Daily && r.startTime <= now
    requires r.tz.Some? && z == ZoneNamed(r.tz.value) && OffsetsWithinDay(z)
    requires k >= 1 && p > now
    requires p == ToUtc(z, ToLocal(z, r.startTime) + k * (r.interval.count * 86400))
    requires k == 1 || (q <= now && q == ToUtc(z, ToLocal(z, r.startTime) + (k - 1) * (r.interval.count * 86400)))
    ensures NextIntervalTime(r, lastRunOn, now, ZoneNamed) == p
  {
    DailyIncreasing(GridOf(r, ZoneNamed));
    DailyPoint(r, k, z);
    if k > 1 {
      DailyEarlier(r, now, k, z, q);
    }
    NextAt(r, lastRunOn, now, ZoneNamed, k);
  }

  /** The point before the `k`-th of a daily schedule in zone `z` is not
      after `now` when the instant it resolves to, `q`, is not. */
  lemma DailyEarlier(r: RunAt, now: int, k: nat, z: Zone, q: int)
    requires r.interval.Every? && r.interval.unit == Daily
    requires r.tz.Some? && z == ZoneNamed(r.tz.value)
    requires k > 1 && q <= now && q == ToUtc(z, ToLocal(z, r.startTime) + (k - 1) * (r.interval.count * 86400))
    ensures Candidate(GridOf(r, ZoneNamed), k - 1) <= now
  {
    DailyPoint(r, k - 1, z);
  }

  /** The `k`-th point of a daily schedule in zone `z`. */
  lemma DailyPoint(r: RunAt, k: nat, z: Zone)
    requires r.interval.Every? && r.interval.unit == Daily
    requires r.tz.Some? && z == ZoneNamed(r.tz.value)
    ensures Candidate(GridOf(r, ZoneNamed), k) == ToUtc(z, ToLocal(z, r.startTime) + k * (r.interval.count * 86400))
  {
  }

  /** The hour of instant `t` on the wall clocks of the zone called `name`,
      which read second `hour * 3600 + rest` of day `day`. */
  lemma ZoneHour(name: string, t: int, off: int, day: int, hour: int, rest: int)
    requires ZoneNamed(name).offset(t) == off && 0 <= hour < 24 && 0 <= rest < 3600
    requires t + off == day * 86400 + hour * 3600 + rest
    ensures HourOf(ToLocal(ZoneNamed(name), t)) == hour
  {
    var local := ToLocal(ZoneNamed(name), t);
    assert local == t + off;
    DivUnique(local, 86400, day, hour * 3600 + rest);
    DivUnique(hour * 3600 + rest, 3600, hour, rest);
  }

  /** Daily in Eastern time from 1 AM EST on 2010-03-10 (06:00 UTC): ten
      minutes later the next run is `t`, 1 AM EST the day after. */
  lemma EasternDailyFromStandardTime(start: int, now: int, t: int, lastRunOn: Option<int>)
    requires start == 1268200800 && now == start + 600 && t == 1268287200
    ensures NextIntervalTime(RunAt(start, Every(Daily, 1), Some(EasternName)), lastRunOn, now, ZoneNamed) == t
    ensures HourOf(ToLocal(ZoneNamed(EasternName), start)) == 1
    ensures HourOf(ToLocal(ZoneNamed(EasternName), t)) == 1
  {
    ScenarioZonesWithinDay();
    ZonedDaily(RunAt(start, Every(Daily, 1), Some(EasternName)), lastRunOn, now, 1, Zone(EasternOffset), t, 0);
    ZoneHour(EasternName, start, -18000, 14678, 1, 0);
    ZoneHour(EasternName, t, -18000, 14679, 1, 0);
  }

  /** The same schedule at 2010-03-15 05:10 UTC, after the change to
      daylight time: the next run is `t`, 1 AM EDT on 2010-03-16 (05:00
      UTC). */
  lemma EasternDailyIntoDaylightTime(start: int, now: int, t: int, lastRunOn: Option<int>)
    requires start == 1268200800 && now == 1268629800 && t == 1268715600
    ensures NextIntervalTime(RunAt(start, Every(Daily, 1), Some(EasternName)), lastRunOn, now, ZoneNamed) == t
    ensures HourOf(ToLocal(ZoneNamed(EasternName), t)) == 1
  {
    ScenarioZonesWithinDay();
    ZonedDaily(RunAt(start, Every(Daily, 1), Some(EasternName)), lastRunOn, now, 6, Zone(EasternOffset), t, 1268629200);
    ZoneHour(EasternName, t, -14400, 14684, 1, 0);
  }

  /** Daily in Eastern time from 1 AM EDT on 2010-10-06 (05:00 UTC): ten
      minutes later the next run is `t`, 1 AM EDT the day after. */
  lemma EasternDailyFromDaylightTime(start: int, now: int, t: int, lastRunOn: Option<int>)
    requires start == 1286341200 && now == start + 600 && t == 1286427600
    ensures NextIntervalTime(RunAt(start, Every(Daily, 1), Some(EasternName)), lastRunOn, now, ZoneNamed) == t
    ensures HourOf(ToLocal(ZoneNamed(EasternName), start)) == 1
    ensures HourOf(ToLocal(ZoneNamed(EasternName), t)) == 1
  {
    ScenarioZonesWithinDay();
    ZonedDaily(RunAt(start, Every(Daily, 1), Some(EasternName)), lastRunOn, now, 1, Zone(EasternOffset), t, 0);
    ZoneHour(EasternName, start, -14400, 14888, 1, 0);
    ZoneHour(EasternName, t, -14400, 14889, 1, 0);
  }

  /** The same schedule at 2010-11-07 06:10 UTC, after the change back to
      standard time: the repeated hour 1 AM on 2010-11-07 resolved to its
      daylight-time instant (05:00 UTC), which has passed, so the next run
      is `t`, 1 AM EST on 2010-11-08 (06:00 UTC). */
  lemma EasternDailyIntoStandardTime(start: int, now: int, t: int, lastRunOn: Option<int>)
    requires start == 1286341200 && now == 1289110200 && t == 1289196000
    ensures NextIntervalTime(RunAt(start, Every(Daily, 1), Some(EasternName)), lastRunOn, now, ZoneNamed) == t
    ensures HourOf(ToLocal(ZoneNamed(EasternName), t)) == 1
  {
    ScenarioZonesWithinDay();
    ZonedDaily(RunAt(start, Every(Daily, 1), Some(EasternName)), lastRunOn, now, 33, Zone(EasternOffset), t, 1289106000);
    ZoneHour(EasternName, t, -18000, 14921, 1, 0);
  }

  /** 1 AM on 2010-11-07 is read twice in US Eastern, at 05:00 UTC (EDT)
      and at 06:00 UTC (EST), when the offset steps at 06:00 UTC; it resolves
      to the daylight-time instant, the one the schedule above has passed. */
  lemma EasternRepeatedHour(wall: int, t1: int, t2: int)
    requires wall == 1289091600 && t1 == 1289106000 && t2 == 1289109600
    ensures ToLocal(Zone(EasternOffset), t1) == wall && ToLocal(Zone(EasternOffset), t2) == wall
    ensures ToUtc(Zone(EasternOffset), wall) == t1
  {
    var z := Zone(EasternOffset);
    assert StepsAt(z, wall, t2) by {
      forall u | wall - MaxOffset <= u <= wall + MaxOffset
        ensures z.offset(u) == if u < t2 then z.offset(wall - MaxOffset) else z.offset(wall + MaxOffset)
      {
      }
    }
    RepeatedReading(z, wall, t2, t1, t2);
  }

  /** Daily without zone from 1 AM EST on 2010-03-10 (06:00 UTC): the
      start reads 6 AM UTC and 1 AM EST, and so does the same time a day
      later. */
  lemma UtcDailyStartHours(start: int)
    requires start == 1268200800
    ensures HourOf(ToLocal(ZoneNamed(UtcName), start)) == 6 && HourOf(ToLocal(ZoneNamed(EasternName), start)) == 1
    ensures var t := start + 86400;
            HourOf(ToLocal(ZoneNamed(UtcName), t)) == 6 && HourOf(ToLocal(ZoneNamed(EasternName), t)) == 1
  {
    ZoneHour(UtcName, start, 0, 14678, 6, 0);
    ZoneHour(EasternName, start, -18000, 14678, 1, 0);
    ZoneHour(UtcName, start + 86400, 0, 14679, 6, 0);
    ZoneHour(EasternName, start + 86400, -18000, 14679, 1, 0);
  }

  /** 06:00 UTC on 2010-03-15 reads 2 AM EDT. */
  lemma MarchFifteenthHours(t: int)
    requires t == 1268632800
    ensures HourOf(ToLocal(ZoneNamed(UtcName), t)) == 6 && HourOf(ToLocal(ZoneNamed(EasternName), t)) == 2
  {
    ZoneHour(UtcName, t, 0, 14683, 6, 0);
    ZoneHour(EasternName, t, -14400, 14683, 2, 0);
  }

  /** The same schedule ten minutes after its start: the next run is `t`,
      6 AM UTC and 1 AM EST the day after. */
  lemma UtcDailyFromEasternStandardTime(start: int, now: int, t: int, lastRunOn: Option<int>)
    requires start == 1268200800 && now == start + 600 && t == 1268287200
    ensures NextIntervalTime(RunAt(start, Every(Daily, 1), None), lastRunOn, now, ZoneNamed) == t
    ensures HourOf(ToLocal(ZoneNamed(UtcName), t)) == 6 && HourOf(ToLocal(ZoneNamed(EasternName), t)) == 1
  {
    UtcDailyStartHours(t - 86400);
    UtcDaily(RunAt(start, Every(Daily, 1), None), lastRunOn, now, 1);
  }

  /** The same schedule at 2010-03-15 05:10 UTC: without a zone the run
      stays at 6 AM UTC; the next run is `t`, on 2010-03-15, which after the
      change to daylight time reads 2 AM EDT (`MarchFifteenthHours`). */
  lemma UtcDailyAcrossEasternDaylightTime(start: int, now: int, t: int, lastRunOn: Option<int>)
    requires start == 1268200800 && now == 1268629800 && t == 1268632800
    ensures NextIntervalTime(RunAt(start, Every(Daily, 1), None), lastRunOn, now, ZoneNamed) == t
  {
    UtcDaily(RunAt(start, Every(Daily, 1), None), lastRunOn, now, 5);
  }

  /** Every three days in Alaska time from 1 AM AKDT on 2010-10-06 (09:00
      UTC): ten minutes later the next run is `t`, 1 AM AKDT and 5 AM EDT
      on 2010-10-09. */
  lemma AlaskaEveryThreeDays(start: int, now: int, t: int, lastRunOn: Option<int>)
    requires start == 1286355600 && now == start + 600 && t == 1286614800
    ensures NextIntervalTime(RunAt(start, Every(Daily, 3), Some(AlaskaName)), lastRunOn, now, ZoneNamed) == t
    ensures HourOf(ToLocal(ZoneNamed(AlaskaName), start)) == 1 && HourOf(ToLocal(ZoneNamed(EasternName), start)) == 5
    ensures HourOf(ToLocal(ZoneNamed(AlaskaName), t)) == 1 && HourOf(ToLocal(ZoneNamed(EasternName), t)) == 5
  {
    ScenarioZonesWithinDay();
    ZonedDaily(RunAt(start, Every(Daily, 3), Some(AlaskaName)), lastRunOn, now, 1, Zone(AlaskaOffset), t, 0);
    ZoneHour(AlaskaName, start, -28800, 14888, 1, 0);
    ZoneHour(EasternName, start, -14400, 14888, 5, 0);
    ZoneHour(AlaskaName, t, -28800, 14891, 1, 0);
    ZoneHour(EasternName, t, -14400, 14891, 5, 0);
  }

  /** The same schedule at 2010-11-07 06:10 UTC, after both zones changed
      back to standard time: the next run is `t`, 1 AM AKST and 5 AM EST
      on 2010-11-08. */
  lemma AlaskaEveryThreeDaysIntoStandardTime(start: int, now: int, t: int, lastRunOn: Option<int>)
    requires start == 1286355600 && now == 1289110200 && t == 1289210400
    ensures NextIntervalTime(RunAt(start, Every(Daily, 3), Some(AlaskaName)), lastRunOn, now, ZoneNamed) == t
    ensures HourOf(ToLocal(ZoneNamed(AlaskaName), t)) == 1 && HourOf(ToLocal(ZoneNamed(EasternName), t)) == 5
  {
    ScenarioZonesWithinDay();
    ZonedDaily(RunAt(start, Every(Daily, 3), Some(AlaskaName)), lastRunOn, now, 11, Zone(AlaskaOffset), t, 1288947600);
    ZoneHour(AlaskaName, t, -32400, 14921, 1, 0);
    ZoneHour(EasternName, t, -18000, 14921, 5, 0);
  }

  // ---- validity ------------------------------------------------------------

  /** A schedule created with a valid daily `run_at` (2010-07-08 04:10 UTC,
      `start`) whose `run_at` is then replaced, in turn, by nil, by one
      without start time, without interval, without unit, without value,
      by the valid daily one and by a valid one-shot one: only the last two
      are valid. */
  method ValidityExamples(start: int) returns (verdicts: seq<bool>)
    requires start == 1278562200
    ensures verdicts == [false, false, false, false, false, true, true]
  {
    var daily := RawInterval(Some("daily"), Some("1"));
    var schedule := new Schedule(Some(RawRunAt(Some(start), Some(daily), None)));
    verdicts := [];
    schedule.SetRunAt(None);
    verdicts := verdicts + [schedule.HasValidRunAt()];
    schedule.SetRunAt(Some(RawRunAt(None, Some(daily), None)));
    verdicts := verdicts + [schedule.HasValidRunAt()];
    schedule.SetRunAt(Some(RawRunAt(Some(start), None, None)));
    verdicts := verdicts + [schedule.HasValidRunAt()];
    schedule.SetRunAt(Some(RawRunAt(Some(start), Some(RawInterval(None, Some("1"))), None)));
    verdicts := verdicts + [schedule.HasValidRunAt()];
    schedule.SetRunAt(Some(RawRunAt(Some(start), Some(RawInterval(Some("daily"), None)), None)));
    verdicts := verdicts + [schedule.HasValidRunAt()];
    schedule.SetRunAt(Some(RawRunAt(Some(start), Some(daily), None)));
    verdicts := verdicts + [schedule.HasValidRunAt()];
    schedule.SetRunAt(Some(RawRunAt(Some(start), Some(RawInterval(Some("once"), None)), None)));
    verdicts := verdicts + [schedule.HasValidRunAt()];
  }
  /** Stores `r` on the schedule as a raw `run_at` whose unit and value are
      the strings `unit` and `value`, and asks for the next time at `now`. */
  method StoreAndAsk(schedule: Schedule, r: RunAt, unit: string, value: string, now: int)
    returns (next: Result<int, ValidationError>)
    requires r.interval.Every? && unit == UnitName(r.interval.unit) && value == FormatDecimal(r.interval.count)
    modifies schedule
    ensures schedule.lastRunOn == old(schedule.lastRunOn)
    ensures schedule.runAt == Some(RawRunAt(Some(r.startTime), Some(RawInterval(Some(unit), Some(value))), r.tz))
    ensures next == Success(NextIntervalTime(r, schedule.lastRunOn, now, ZoneNamed))
  {
    schedule.SetRunAt(Some(RawRunAt(Some(r.startTime), Some(RawInterval(Some(unit), Some(value))), r.tz)));
    ValidateToRaw(r);
    next := schedule.NextIntervalTime(now, ZoneNamed);
  }

  /** A schedule record that last ran at 05:40 on 2011-01-01, 20 minutes
      before `now`, is given an hourly `run_at` from 2010-12-02 08:00 UTC:
      its next time is 07:00, on the grid of the start and not an hour
      after the last run. */
  method HourlyWithLastRun(start: int, now: int) returns (next: Result<int, ValidationError>)
    requires start == 1291276800 && now == 1293861600
    ensures next == Success(1293865200)
  {
    var schedule := new Schedule(None);
    var lastRun := Some(now - 1200);
    schedule.SetLastRunOn(lastRun);
    next := StoreAndAsk(schedule, RunAt(start, Every(Hourly, 1), None), "hourly", "1", now);
    UtcHourlyFromEightAm(start, now, lastRun);
  }
  /** The same record given a daily `run_at` from 2010-12-02 05:00 UTC: its
      next time is 05:00 the next day. */
  method DailyWithLastRun(start: int, now: int) returns (next: Result<int, ValidationError>)
    requires start == 1291266000 && now == 1293861600
    ensures next == Success(1293944400)
  {
    var schedule := new Schedule(None);
    var lastRun := Some(now - 1200);
    schedule.SetLastRunOn(lastRun);
    next := StoreAndAsk(schedule, RunAt(start, Every(Daily, 1), None), "daily", "1", now);
    UtcDailyFromFiveAm(start, now, lastRun);
  }

  // ---- monthly points are counted from the start --------------------------

  /** The model counts the points of a monthly schedule from its start, not
      from the last point: two steps from 2012-01-31 land on 2012-03-31,
      whereas one step and another from the clamped 2012-02-29 would land on
      2012-03-29. No example schedule tells the two rules apart. */
  lemma MonthsDoNotAccumulate(d: Date, feb: Date, mar: Date)
    requires d == Date(2012, 1, 31) && feb == Date(2012, 2, 29) && mar == Date(2012, 3, 31)
    ensures AddMonths(d, 1) == feb && AddMonths(d, 2) == mar
    ensures AddMonths(feb, 1) == Date(2012, 3, 29) != mar
  {
  }
}
