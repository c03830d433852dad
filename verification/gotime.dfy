/**
  Prometheus timestamps and the part of Go's time package that turns one into a
  calendar day.

  A Prometheus `model.Time` is a signed 64-bit count of milliseconds since the
  Unix epoch.  Converting it to a Go `time.Time` divides by 1000 with Go's
  truncating `/` and `%`, and `time.Unix` then normalises a negative nanosecond
  part into [0, 1e9) by borrowing a second.  The calendar day of an instant is
  taken in a zone with a fixed offset from UTC.
 */
module GoTime {
  import opened Calendar

  const MinInt64: int := -0x8000_0000_0000_0000
  const MaxInt64: int := 0x7fff_ffff_ffff_ffff

  /** Milliseconds since 1970-01-01T00:00:00Z, as a signed 64-bit integer. */
  type Time = t: int | MinInt64 <= t <= MaxInt64

  const MillisPerSecond: int := 1000
  const NanosPerMilli: int := 1_000_000
  const NanosPerSecond: int := 1_000_000_000
  const SecondsPerDay: int := 86400

  /** Go's integer `/`, which truncates toward zero. */
  function GoQuo(a: int, b: int): int
    requires b > 0
  {
    if a >= 0 then a / b else -((-a) / b)
  }

  /** Go's integer `%`, whose result has the sign of the dividend. */
  function GoRem(a: int, b: int): int
    requires b > 0
  {
    a - b * GoQuo(a, b)
  }

  /** A Go `time.Time` reduced to what fixes the instant: whole seconds since the epoch
      and a nanosecond part. */
  datatype Instant = Instant(sec: int, nsec: int)

  /** `time.Unix(sec, nsec)`: a nanosecond part outside [0, 1e9) is carried into the seconds.
      The result denotes the same instant, with its nanosecond part normalised. */
  function Unix(sec: int, nsec: int): (i: Instant)
    ensures 0 <= i.nsec < NanosPerSecond
    ensures i.sec * NanosPerSecond + i.nsec == sec * NanosPerSecond + nsec
  {
    if nsec < 0 || nsec >= NanosPerSecond then
      var n := GoQuo(nsec, NanosPerSecond);
      var s := sec + n;
      var ns := nsec - n * NanosPerSecond;
      GoRemBounds(nsec, NanosPerSecond);
      if ns < 0 then Instant(s - 1, ns + NanosPerSecond) else Instant(s, ns)
    else
      Instant(sec, nsec)
  }

  /** Go's remainder is smaller than the divisor in magnitude. */
  lemma GoRemBounds(a: int, b: int)
    requires b > 0
    ensures -b < a - b * GoQuo(a, b) < b
  {
    if a >= 0 {
      assert a == b * (a / b) + a % b;
    } else {
      assert -a == b * ((-a) / b) + (-a) % b;
    }
  }

  /** `model.Time.Time()`: the instant `t` milliseconds after the epoch.  The result is the
      unique normalised representation of that instant: whole seconds rounded toward
      minus infinity and a nanosecond part in [0, 1e9) made of whole milliseconds. */
  function ToInstant(t: Time): (i: Instant)
    ensures 0 <= i.nsec < NanosPerSecond
    ensures i.nsec % NanosPerMilli == 0
    ensures i.sec * MillisPerSecond + i.nsec / NanosPerMilli == t
  {
    Unix(GoQuo(t, MillisPerSecond), GoRem(t, MillisPerSecond) * NanosPerMilli)
  }

  /** The seconds of `ToInstant(t)` are the floor of `t / 1000`, even for times before the epoch. */
  lemma ToInstantFloors(t: Time)
    ensures ToInstant(t).sec == t / MillisPerSecond
    ensures ToInstant(t).nsec == (t % MillisPerSecond) * NanosPerMilli
  {
    var i := ToInstant(t);
    assert t == MillisPerSecond * (t / MillisPerSecond) + t % MillisPerSecond;
    assert 0 <= i.nsec / NanosPerMilli < MillisPerSecond;
  }

  /** A zone with a fixed offset from UTC, in seconds east of Greenwich. */
  datatype Zone = Zone(offset: int)

  /** Days since 1970-01-01 of the local calendar day holding the instant `t`. */
  function LocalDay(t: Time, zone: Zone): int {
    (ToInstant(t).sec + zone.offset) / SecondsPerDay
  }

  /** `LocalDay` is the day whose local midnight-to-midnight window contains `t`,
      whatever the time of day. */
  lemma LocalDayWindow(t: Time, zone: Zone, day: int)
    ensures LocalDay(t, zone) == day <==>
            day * SecondsPerDay * MillisPerSecond <= t + zone.offset * MillisPerSecond
                                                 < (day + 1) * SecondsPerDay * MillisPerSecond
  {
    ToInstantFloors(t);
    var s := ToInstant(t).sec + zone.offset;
    var ms := t + zone.offset * MillisPerSecond;
    assert ms / MillisPerSecond == s;
    assert s == SecondsPerDay * (s / SecondsPerDay) + s % SecondsPerDay;
    assert ms == MillisPerSecond * s + ms % MillisPerSecond;
    assert 0 <= ms % MillisPerSecond < MillisPerSecond;
  }

  /** The local calendar date of `t`, as `t.In(zone)` would report it. */
  function LocalDate(t: Time, zone: Zone): (d: Date)
    ensures IsValid(d)
    ensures DaysFromCivil(d) == LocalDay(t, zone)
  {
    CivilFromDays(LocalDay(t, zone))
  }

  /** Two instants get the same local date exactly when they fall on the same local day. */
  lemma SameDateIffSameDay(t1: Time, t2: Time, zone: Zone)
    ensures LocalDate(t1, zone) == LocalDate(t2, zone) <==> LocalDay(t1, zone) == LocalDay(t2, zone)
  {
  }
}
