/** `System.DateTime` as its tick count (100-nanosecond units since 0001-01-01 00:00:00). */
module Clock {

  const TicksPerMillisecond: int := 10_000
  const TicksPerSecond: int := 10_000_000
  const TicksPerDay: int := 864_000_000_000
  const MaxTicks: int := 3_155_378_975_999_999_999

  type DateTime = t: int | 0 <= t <= MaxTicks

  /** `DateTime.Parse("01.01.0001 00:00:00")`, the value an unset date deserialises to. */
  const ZeroDate: DateTime := 0

  /** `DateTime.Parse("03.11.1971 00:00:00")`, read day-first: 3 November 1971, midnight. */
  const ProjectDefaultStart: DateTime := 621_935_712_000_000_000

  /** `DateTime.Parse("03.11.1971 23:59:59")`. */
  const ProjectDefaultEnd: DateTime := 621_936_575_990_000_000

  /** `DateTime.Millisecond`: the millisecond-of-second component. */
  function Millisecond(d: DateTime): (ms: int)
    ensures 0 <= ms < 1000
  {
    (d / TicksPerMillisecond) % 1000
  }

  /** Two instants a whole number of seconds apart have the same millisecond component,
      so comparing only `Millisecond` cannot tell them apart. */
  lemma MillisecondIgnoresWholeSeconds(d: DateTime, seconds: nat)
    requires d + seconds * TicksPerSecond <= MaxTicks
    ensures Millisecond(d + seconds * TicksPerSecond) == Millisecond(d)
  {
    var q := d / TicksPerMillisecond;
    var r := d % TicksPerMillisecond;
    assert d == q * TicksPerMillisecond + r;
    assert seconds * TicksPerSecond == (seconds * 1000) * TicksPerMillisecond;
    assert d + seconds * TicksPerSecond == (q + seconds * 1000) * TicksPerMillisecond + r;
    assert (d + seconds * TicksPerSecond) / TicksPerMillisecond == q + seconds * 1000;
    assert (q + seconds * 1000) % 1000 == q % 1000;
  }

  /** Both project sentinels fall on a whole second, and a day apart less one second. */
  lemma ProjectDefaultsOnWholeSeconds()
    ensures Millisecond(ProjectDefaultStart) == 0 && Millisecond(ProjectDefaultEnd) == 0
    ensures ProjectDefaultStart % TicksPerDay == 0
    ensures ProjectDefaultEnd == ProjectDefaultStart + 86_399 * TicksPerSecond
    ensures ZeroDate < ProjectDefaultStart < ProjectDefaultEnd
  {
  }
}
