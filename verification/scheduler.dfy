/**
  The hour alignment that starts the background fetch loop (main.py, lines 60-64).

  Wall-clock time is a naive local `datetime`, modelled as the number of
  microseconds since 0001-01-01T00:00, the first instant `datetime` can
  represent. Days are 24 hours long on this clock (no time zone, no DST), and
  the origin is midnight, so the hour boundaries (minute, second and
  microsecond all zero) are exactly the multiples of one hour.
 */
module Scheduler {
  import opened Values

  const MicrosPerSecond: int := 1_000_000
  const SecondsPerHour: int := 3600
  const MicrosPerHour: int := 3_600_000_000
  const MicrosPerDay: int := 86_400_000_000

  /** One microsecond past `datetime.max` (9999-12-31T23:59:59.999999):
      3 652 059 whole days after the origin. */
  const DatetimeEnd: int := 3_652_059 * MicrosPerDay

  /** A value a `datetime` can hold. */
  type Instant = t: int | 0 <= t < DatetimeEnd

  /** Minute, second and microsecond are all zero. */
  predicate IsHourBoundary(t: int) {
    t % MicrosPerHour == 0
  }

  /** `now.replace(minute=0, second=0, microsecond=0)`: the start of the hour `now` lies in. */
  function TruncateToHour(now: Instant): (r: Instant)
    ensures IsHourBoundary(r)
    ensures r <= now < r + MicrosPerHour
  {
    now - now % MicrosPerHour
  }

  /** The target boundary and the delay (in microseconds) until it. */
  datatype Alignment = Alignment(nextHour: Instant, delay: int)

  /** Lines 60-64 of main.py. Adding one hour past `datetime.max` raises
      `OverflowError`, which is `None` here; it happens only during the last
      hour of 9999-12-31. The `else` branch of the guard is unreachable,
      because truncation never moves a time later. */
  function InitialAlignment(now: Instant): (r: Option<Alignment>)
    ensures r.None? <==> now >= DatetimeEnd - MicrosPerHour
    ensures r.Some? ==> IsHourBoundary(r.value.nextHour)
    ensures r.Some? ==> r.value.nextHour == now + r.value.delay
    ensures r.Some? ==> 0 < r.value.delay <= MicrosPerHour
    ensures r.Some? ==> (r.value.delay == MicrosPerHour <==> IsHourBoundary(now))
    ensures r.Some? ==> forall b :: now < b < r.value.nextHour ==> !IsHourBoundary(b)
  {
    var truncated := TruncateToHour(now);
    if now >= truncated then
      var next := truncated + MicrosPerHour;
      if next < DatetimeEnd then Some(Alignment(next, next - now)) else None
    else
      assert false;
      Some(Alignment(truncated, truncated - now))
  }

  /** The target is the start of the current hour plus one hour. */
  lemma NextHourIsTruncationPlusOneHour(now: Instant)
    requires InitialAlignment(now).Some?
    ensures InitialAlignment(now).value.nextHour == TruncateToHour(now) + MicrosPerHour
  {
  }

  /** The target is the earliest hour boundary strictly after `now`. */
  lemma NextHourIsLeastBoundaryAfter(now: Instant, b: int)
    requires InitialAlignment(now).Some?
    requires IsHourBoundary(b) && b > now
    ensures InitialAlignment(now).value.nextHour <= b
  {
  }

  /** A time `k` hours and `r` microseconds into a day, in any hour but the
      last, waits `1 h - r` for the start of hour `k + 1` of the same day. */
  lemma DelayWithinDay(day: nat, k: nat, r: nat)
    requires day <= 3_652_058 && k < 23 && r < MicrosPerHour
    ensures InitialAlignment(day * MicrosPerDay + k * MicrosPerHour + r)
      == Some(Alignment(day * MicrosPerDay + (k + 1) * MicrosPerHour, MicrosPerHour - r))
  {
    var m := day * 24 + k;
    var now := day * MicrosPerDay + k * MicrosPerHour + r;
    assert now == m * MicrosPerHour + r;
    assert now % MicrosPerHour == r;
    assert TruncateToHour(now) == m * MicrosPerHour;
    assert day * MicrosPerDay + 24 * MicrosPerHour <= DatetimeEnd;
  }

  /** In the last hour of a day the target is midnight of the next day. */
  lemma DelayAcrossMidnight(day: nat, r: nat)
    requires day < 3_652_058 && r < MicrosPerHour
    ensures InitialAlignment(day * MicrosPerDay + 23 * MicrosPerHour + r)
      == Some(Alignment((day + 1) * MicrosPerDay, MicrosPerHour - r))
  {
    var m := day * 24 + 23;
    var now := day * MicrosPerDay + 23 * MicrosPerHour + r;
    assert now == m * MicrosPerHour + r;
    assert now % MicrosPerHour == r;
    assert TruncateToHour(now) == m * MicrosPerHour;
    assert (day + 1) * MicrosPerDay <= DatetimeEnd - MicrosPerDay;
  }

  /** In the last hour of 9999-12-31 there is no next hour: adding it overflows. */
  lemma LastHourOverflows(r: nat)
    requires r < MicrosPerHour
    ensures InitialAlignment(3_652_058 * MicrosPerDay + 23 * MicrosPerHour + r).None?
  {
  }

  /** At 14:23:10 the delay is 36 min 50 s; at exactly 15:00:00 it is a full
      hour, not zero. This holds on every day, 9999-12-31 included. */
  lemma DelayExamples(day: nat)
    requires day <= 3_652_058
    ensures var now := day * MicrosPerDay + (14 * 3600 + 23 * 60 + 10) * MicrosPerSecond;
      InitialAlignment(now) == Some(Alignment(day * MicrosPerDay + 15 * MicrosPerHour, 2210 * MicrosPerSecond))
    ensures var now := day * MicrosPerDay + 15 * MicrosPerHour;
      InitialAlignment(now) == Some(Alignment(day * MicrosPerDay + 16 * MicrosPerHour, 3600 * MicrosPerSecond))
  {
    DelayWithinDay(day, 14, (23 * 60 + 10) * MicrosPerSecond);
    DelayWithinDay(day, 15, 0);
  }
}
