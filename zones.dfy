/** Time zones as abstract UTC-offset functions. A zone says, for every
    instant (UTC seconds since the epoch), how many seconds its wall clock is
    ahead of UTC. No zone rules are built in: a daylight-saving change is
    whatever step the offset function takes. */
module Zones {

  /** Real zones lie between UTC-12 and UTC+14; every offset here is bounded
      by 14 hours either way. */
  const MaxOffset: int := 14 * 3600

  type UtcOffset = o: int | -MaxOffset <= o <= MaxOffset

  datatype Zone = Zone(offset: int -> UtcOffset)

  /** The zone used when a schedule names none. */
  const Utc: Zone := Zone(_ => 0)

  /** Wall-clock reading (seconds since the local epoch) of instant `t`. */
  function ToLocal(z: Zone, t: int): (wall: int)
    ensures t - MaxOffset <= wall <= t + MaxOffset
  {
    t + z.offset(t)
  }

  /** The instant shown as wall-clock reading `wall`. The offset is resolved
      in two passes: first at the reading taken as if it were UTC, then at the
      instant that first guess gives. */
  function ToUtc(z: Zone, wall: int): (t: int)
    ensures wall - MaxOffset <= t <= wall + MaxOffset
  {
    wall - z.offset(wall - z.offset(wall))
  }

  /** The reading `wall` is shown by the zone at the instant it resolves to
      (it does not fall in a daylight-saving gap). */
  predicate WallClockExists(z: Zone, wall: int) {
    ToLocal(z, ToUtc(z, wall)) == wall
  }

  /** Some instant shows the reading `wall`. */
  ghost predicate Shown(z: Zone, wall: int) {
    exists t :: ToLocal(z, t) == wall
  }

  /** Over the hours around `wall` the offset changes at most once, at
      instant `c`: before `c` it is the offset at the start of the window,
      from `c` on the offset at its end. */
  ghost predicate StepsAt(z: Zone, wall: int, c: int) {
    forall u :: wall - MaxOffset <= u <= wall + MaxOffset ==>
      z.offset(u) == if u < c then z.offset(wall - MaxOffset) else z.offset(wall + MaxOffset)
  }

  /** The offset changes at most once within 14 hours of `wall`. */
  ghost predicate OneChangeNear(z: Zone, wall: int) {
    exists c :: StepsAt(z, wall, c)
  }

  /** Where the offset is steady over the hours around a reading, the reading
      exists and resolves with that offset, and the resolution inverts the
      wall-clock reading. */
  lemma SteadyOffsetResolves(z: Zone, wall: int)
    requires forall t :: wall - MaxOffset <= t <= wall + MaxOffset ==> z.offset(t) == z.offset(wall)
    ensures ToUtc(z, wall) == wall - z.offset(wall)
    ensures WallClockExists(z, wall)
  {
    var g := wall - z.offset(wall);
    assert z.offset(g) == z.offset(wall);
    var t := wall - z.offset(g);
    assert z.offset(t) == z.offset(wall);
  }

  /** A reading that some instant shows, near at most one offset change,
      resolves to an instant that shows it. */
  lemma ShownResolves(z: Zone, wall: int)
    requires Shown(z, wall) && OneChangeNear(z, wall)
    ensures WallClockExists(z, wall)
  {
    var c :| StepsAt(z, wall, c);
    var t :| ToLocal(z, t) == wall;
    var before, after := z.offset(wall - MaxOffset), z.offset(wall + MaxOffset);
    if before == after {
      SteadyOffsetResolves(z, wall);
    } else {
      var p := wall - z.offset(wall);
      var q := wall - z.offset(p);
      assert z.offset(t) == if t < c then before else after;
      assert z.offset(wall - before) == if wall - before < c then before else after;
      assert z.offset(wall - after) == if wall - after < c then before else after;
      assert z.offset(q) == z.offset(p);
    }
  }

  /** A reading shown by two instants (the hour repeated when clocks go
      back) resolves to the earlier one when the reading, taken as UTC, is
      before the change, and to the later one otherwise: the earlier in zones
      west of Greenwich, the later in zones east of it. */
  lemma RepeatedReading(z: Zone, wall: int, c: int, t1: int, t2: int)
    requires StepsAt(z, wall, c)
    requires ToLocal(z, t1) == wall && ToLocal(z, t2) == wall && t1 < t2
    ensures ToUtc(z, wall) == if wall < c then t1 else t2
    ensures z.offset(t1) < 0 && z.offset(t2) < 0 ==> ToUtc(z, wall) == t1
    ensures z.offset(t1) > 0 && z.offset(t2) > 0 ==> ToUtc(z, wall) == t2
  {
    var before, after := z.offset(wall - MaxOffset), z.offset(wall + MaxOffset);
    assert z.offset(t1) == if t1 < c then before else after;
    assert z.offset(t2) == if t2 < c then before else after;
    assert t1 < c <= t2;
    assert z.offset(wall) == if wall < c then before else after;
  }

  /** A reading no instant shows (the hour skipped when clocks go forward)
      resolves to an instant that reads the skipped span earlier when the
      reading, taken as UTC, is before the change, and that span later
      otherwise: earlier in zones west of Greenwich, later east of it. */
  lemma SkippedReading(z: Zone, wall: int, c: int)
    requires StepsAt(z, wall, c) && !Shown(z, wall)
    ensures var before, after := z.offset(wall - MaxOffset), z.offset(wall + MaxOffset);
            && before < after
            && ToLocal(z, ToUtc(z, wall)) == (if wall < c then wall - (after - before) else wall + (after - before))
            && (after < 0 ==> ToLocal(z, ToUtc(z, wall)) == wall - (after - before))
            && (before > 0 ==> ToLocal(z, ToUtc(z, wall)) == wall + (after - before))
  {
    var before, after := z.offset(wall - MaxOffset), z.offset(wall + MaxOffset);
    assert ToLocal(z, wall - before) != wall;
    assert ToLocal(z, wall - after) != wall;
    assert z.offset(wall - before) == if wall - before < c then before else after;
    assert z.offset(wall - after) == if wall - after < c then before else after;
    assert z.offset(wall) == if wall < c then before else after;
  }

  /** In UTC every reading exists and is its own instant. */
  lemma UtcIsIdentity(t: int)
    ensures ToLocal(Utc, t) == t && ToUtc(Utc, t) == t
    ensures WallClockExists(Utc, t)
  {
  }
}
