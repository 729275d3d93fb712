/**
 * Local wall-clock time in the bot's fixed timezone (US/Eastern).
 *
 * The calendar is abstracted to a day index: a date-time is a day number plus
 * hour, minute, second and microsecond fields, and every valid date-time
 * corresponds to exactly one count of microseconds since local midnight of
 * day 0.  Timezone offsets and daylight-saving changes are not modelled.
 */
module WallClock {

  const MicrosPerSecond: int := 1_000_000
  const MicrosPerMinute: int := 60_000_000
  const MicrosPerHour: int := 3_600_000_000
  const MicrosPerDay: int := 86_400_000_000

  datatype DateTime = DateTime(day: int, hour: int, minute: int, second: int, microsecond: int)
  {
    /** The field ranges of a Python `datetime`. */
    predicate Valid()
    {
      && 0 <= hour < 24
      && 0 <= minute < 60
      && 0 <= second < 60
      && 0 <= microsecond < 1_000_000
    }
  }

  /** Microseconds since local midnight of day 0 (negative before it). */
  function ToMicros(t: DateTime): int
  {
    t.day * MicrosPerDay + t.hour * MicrosPerHour + t.minute * MicrosPerMinute
      + t.second * MicrosPerSecond + t.microsecond
  }

  /** `ToMicros(t)` lies inside hour `t.hour` of day `t.day`. */
  lemma TimeOfDayBounds(t: DateTime)
    requires t.Valid()
    ensures t.day * MicrosPerDay + t.hour * MicrosPerHour <= ToMicros(t)
    ensures ToMicros(t) < t.day * MicrosPerDay + (t.hour + 1) * MicrosPerHour
  {
  }

  /** The date-time denoted by a microsecond count. */
  function FromMicros(u: int): (t: DateTime)
    ensures t.Valid()
    ensures ToMicros(t) == u
  {
    var rest := u % MicrosPerDay;
    var inHour := rest % MicrosPerHour;
    var inMinute := inHour % MicrosPerMinute;
    DateTime(u / MicrosPerDay, rest / MicrosPerHour, inHour / MicrosPerMinute,
             inMinute / MicrosPerSecond, inMinute % MicrosPerSecond)
  }

  /** Two valid date-times with the same microsecond count are the same date-time. */
  lemma ToMicrosInjective(a: DateTime, b: DateTime)
    requires a.Valid() && b.Valid()
    requires ToMicros(a) == ToMicros(b)
    ensures a == b
  {
    TimeOfDayBounds(a);
    TimeOfDayBounds(b);
    assert a.day == b.day;
    assert a.hour == b.hour;
    assert a.minute == b.minute;
  }

  /** `t` moved forward (or back) by `n` microseconds. */
  function AddMicros(t: DateTime, n: int): (r: DateTime)
    ensures r.Valid()
    ensures ToMicros(r) == ToMicros(t) + n
  {
    FromMicros(ToMicros(t) + n)
  }

  /**
   * A `relativedelta(days=+n, hour=h, minute=0, second=0, microsecond=0)`
   * applied to `t`: the absolute fields replace those of `t`, then `n` days
   * are added.
   */
  function ReplaceTimeAddDays(t: DateTime, n: int, h: int): DateTime
  {
    DateTime(t.day + n, h, 0, 0, 0)
  }

  /** Any microsecond count inside hour `h` of day `d` denotes a time on day `d` at hour `h`. */
  lemma FieldsWithinHour(u: int, d: int, h: int)
    requires 0 <= h < 24
    requires d * MicrosPerDay + h * MicrosPerHour <= u < d * MicrosPerDay + (h + 1) * MicrosPerHour
    ensures FromMicros(u).day == d
    ensures FromMicros(u).hour == h
  {
  }
}
