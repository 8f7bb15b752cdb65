/** The `run_at` record of a schedule and its validity check.

    A stored `run_at` is a loosely typed hash: `start_time`, an `interval`
    hash with `unit` and `value` (both strings, as stored), and an optional
    `tz` naming the zone. Every key may be missing, and the whole record may
    be nil. Validation turns it into a `RunAt`, in which a repeating interval
    always carries a positive count and a one-shot interval carries none. */
module RunAts {
  import opened Wrappers

  datatype RawInterval = RawInterval(unit: Option<string>, value: Option<string>)

  /** `start_time` is taken as already parsed into seconds since the epoch. */
  datatype RawRunAt = RawRunAt(startTime: Option<int>, interval: Option<RawInterval>, tz: Option<string>)

  datatype Unit = Hourly | Daily | Monthly

  type Count = n: int | n >= 1 witness 1

  datatype Interval = Once | Every(unit: Unit, count: Count)

  datatype RunAt = RunAt(startTime: int, interval: Interval, tz: Option<string>)

  datatype ValidationError =
    | MissingRunAt
    | MissingStartTime
    | MissingInterval
    | MissingUnit
    | UnknownUnit(unit: string)
    | MissingValue
    | InvalidValue(value: string)

  function UnitName(u: Unit): string {
    match u
    case Hourly => "hourly"
    case Daily => "daily"
    case Monthly => "monthly"
  }

  function IntervalName(i: Interval): string {
    match i
    case Once => "once"
    case Every(u, _) => UnitName(u)
  }

  /** The unit names a stored interval may carry. */
  predicate IsUnitName(s: string) {
    s == "once" || s == "hourly" || s == "daily" || s == "monthly"
  }

  function UnitNamed(s: string): (u: Unit)
    requires IsUnitName(s) && s != "once"
    ensures UnitName(u) == s
  {
    if s == "hourly" then Hourly else if s == "daily" then Daily else Monthly
  }

  predicate IsDigit(c: char) {
    '0' <= c <= '9'
  }

  /** The number a non-empty string of decimal digits spells; `None` for the
      empty string or any other character. */
  function ParseDecimal(s: string): (r: Option<nat>)
    ensures r.Some? <==> |s| > 0 && forall i :: 0 <= i < |s| ==> IsDigit(s[i])
    decreases |s|
  {
    if |s| == 0 || !IsDigit(s[|s| - 1]) then None
    else
      var d := (s[|s| - 1] as int) - ('0' as int);
      if |s| == 1 then Some(d)
      else match ParseDecimal(s[..|s| - 1])
        case None => None
        case Some(n) => Some(10 * n + d)
  }

  /** The decimal spelling of `n`, without leading zeros. */
  function FormatDecimal(n: nat): (s: string)
    ensures |s| > 0
    decreases n
  {
    var digit := ((n % 10) + '0' as int) as char;
    if n < 10 then [digit] else FormatDecimal(n / 10) + [digit]
  }

  lemma {:induction false} ParseFormatDecimal(n: nat)
    ensures ParseDecimal(FormatDecimal(n)) == Some(n)
    decreases n
  {
    var s := FormatDecimal(n);
    var digit := ((n % 10) + '0' as int) as char;
    if n >= 10 {
      ParseFormatDecimal(n / 10);
      assert s[..|s| - 1] == FormatDecimal(n / 10);
      assert s[|s| - 1] == digit;
    }
  }

  /** The check behind the schedule's `valid?`: the record, its start time,
      its interval and the interval's unit must be present; the unit must be
      a known one; a repeating unit needs a value that is a positive decimal
      count, while "once" needs none. The first problem found is reported. */
  function Validate(raw: Option<RawRunAt>): (r: Result<RunAt, ValidationError>)
    ensures raw.None? ==> r == Failure(MissingRunAt)
    ensures raw.Some? && raw.value.startTime.None? ==> r == Failure(MissingStartTime)
    ensures raw.Some? && raw.value.startTime.Some? && raw.value.interval.None? ==> r == Failure(MissingInterval)
    ensures raw.Some? && raw.value.startTime.Some? && raw.value.interval.Some? && raw.value.interval.value.unit.None?
      ==> r == Failure(MissingUnit)
    ensures r.Success? ==>
      && raw.Some? && raw.value.startTime == Some(r.value.startTime) && raw.value.tz == r.value.tz
      && raw.value.interval.Some? && raw.value.interval.value.unit == Some(IntervalName(r.value.interval))
      && (r.value.interval.Every? ==> raw.value.interval.value.value.Some?
                                      && ParseDecimal(raw.value.interval.value.value.value) == Some(r.value.interval.count))
    ensures raw.Some? && raw.value.startTime.Some? && raw.value.interval.Some?
      && raw.value.interval.value.unit.Some? && IsUnitName(raw.value.interval.value.unit.value)
      && raw.value.interval.value.unit.value != "once" && raw.value.interval.value.value.None?
      ==> r == Failure(MissingValue)
    ensures r.Failure? && r.error == MissingValue ==>
      raw.Some? && raw.value.startTime.Some? && raw.value.interval.Some? && raw.value.interval.value.unit.Some?
      && IsUnitName(raw.value.interval.value.unit.value)
      && raw.value.interval.value.unit.value != "once" && raw.value.interval.value.value.None?
    ensures raw.Some? && raw.value.startTime.Some? && raw.value.interval.Some?
      && raw.value.interval.value.unit.Some? && !IsUnitName(raw.value.interval.value.unit.value)
      ==> r == Failure(UnknownUnit(raw.value.interval.value.unit.value))
    ensures r.Failure? && r.error.UnknownUnit? ==>
      raw.Some? && raw.value.startTime.Some? && raw.value.interval.Some?
      && raw.value.interval.value.unit == Some(r.error.unit) && !IsUnitName(r.error.unit)
    ensures raw.Some? && raw.value.startTime.Some? && raw.value.interval.Some?
      && raw.value.interval.value.unit.Some? && IsUnitName(raw.value.interval.value.unit.value)
      && raw.value.interval.value.unit.value != "once" && raw.value.interval.value.value.Some?
      && (ParseDecimal(raw.value.interval.value.value.value).None? || ParseDecimal(raw.value.interval.value.value.value) == Some(0))
      ==> r == Failure(InvalidValue(raw.value.interval.value.value.value))
    ensures r.Failure? && r.error.InvalidValue? ==>
      raw.Some? && raw.value.startTime.Some? && raw.value.interval.Some?
      && raw.value.interval.value.unit.Some? && IsUnitName(raw.value.interval.value.unit.value)
      && raw.value.interval.value.unit.value != "once" && raw.value.interval.value.value == Some(r.error.value)
      && (ParseDecimal(r.error.value).None? || ParseDecimal(r.error.value) == Some(0))
  {
    match raw
    case None => Failure(MissingRunAt)
    case Some(ra) =>
      match (ra.startTime, ra.interval)
      case (None, _) => Failure(MissingStartTime)
      case (Some(_), None) => Failure(MissingInterval)
      case (Some(start), Some(iv)) =>
        match iv.unit
        case None => Failure(MissingUnit)
        case Some(name) =>
          if !IsUnitName(name) then Failure(UnknownUnit(name))
          else if name == "once" then Success(RunAt(start, Once, ra.tz))
          else match iv.value
            case None => Failure(MissingValue)
            case Some(text) =>
              match ParseDecimal(text)
              case None => Failure(InvalidValue(text))
              case Some(n) =>
                if n == 0 then Failure(InvalidValue(text))
                else Success(RunAt(start, Every(UnitNamed(name), n), ra.tz))
  }

  predicate IsValid(raw: Option<RawRunAt>) {
    Validate(raw).Success?
  }

  /** The rules a stored record must meet, field by field: everything is
      present, the unit is a known one, and a repeating unit carries a
      positive decimal count. */
  predicate WellFormed(raw: Option<RawRunAt>) {
    && raw.Some? && raw.value.startTime.Some? && raw.value.interval.Some?
    && var iv := raw.value.interval.value;
    && iv.unit.Some? && IsUnitName(iv.unit.value)
    && (iv.unit.value != "once" ==>
          iv.value.Some? && ParseDecimal(iv.value.value).Some? && ParseDecimal(iv.value.value).value >= 1)
  }

  /** The validator accepts exactly the well-formed records. */
  lemma ValidIffWellFormed(raw: Option<RawRunAt>)
    ensures IsValid(raw) <==> WellFormed(raw)
  {
  }

  /** The `run_at` record a validated value is stored as. */
  function ToRaw(r: RunAt): RawRunAt {
    var value := match r.interval
      case Once => None
      case Every(_, n) => Some(FormatDecimal(n));
    RawRunAt(Some(r.startTime), Some(RawInterval(Some(IntervalName(r.interval)), value)), r.tz)
  }

  /** Storing a validated record and validating it again gives it back. */
  lemma ValidateToRaw(r: RunAt)
    ensures Validate(Some(ToRaw(r))) == Success(r)
  {
    match r.interval
    case Once =>
    case Every(u, n) =>
      ParseFormatDecimal(n);
  }
}
