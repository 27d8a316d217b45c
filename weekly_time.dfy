/**
 * The weekly timestamp of scheduleLib/__init__.py: a moment of the repeating
 * week as `weekday * 100000 + hour * 3600 + minute * 60 + second`, Monday being
 * weekday 0. The clock reading it is computed from is an input here.
 */
module WeeklyTime {

  /** The weekday's weight; larger than the 86400 seconds of a day, so days never overlap. */
  const DayWeight := 100000

  /** The largest timestamp of a week: Sunday 23:59:59. */
  const LastTimestamp := 6 * DayWeight + 86399

  /** The fields of a clock reading used by the source (`datetime` in UTC). */
  datatype ClockReading = ClockReading(weekday: int, hour: int, minute: int, second: int)
  {
    /** The ranges `datetime` guarantees. */
    predicate Valid()
    {
      0 <= weekday <= 6 && 0 <= hour <= 23 && 0 <= minute <= 59 && 0 <= second <= 59
    }
  }

  function SecondOfDay(c: ClockReading): int
  {
    c.hour * 3600 + c.minute * 60 + c.second
  }

  /** The weekly timestamp of a clock reading. */
  function Timestamp(c: ClockReading): (t: int)
    ensures c.Valid() ==> 0 <= t <= LastTimestamp
  {
    c.weekday * DayWeight + SecondOfDay(c)
  }

  /** Reads a timestamp back as a clock reading. */
  function ClockOf(t: int): ClockReading
  {
    var s := t % DayWeight;
    ClockReading(t / DayWeight, s / 3600, s % 3600 / 60, s % 60)
  }

  /** The clock reading is recovered from its timestamp, so no information is lost. */
  lemma ClockOfTimestamp(c: ClockReading)
    requires c.Valid()
    ensures ClockOf(Timestamp(c)) == c
  {
    var t := Timestamp(c);
    var s := SecondOfDay(c);
    assert 0 <= s < DayWeight;
    assert t / DayWeight == c.weekday && t % DayWeight == s;
    assert s / 3600 == c.hour && s % 3600 == c.minute * 60 + c.second;
    assert (c.minute * 60 + c.second) / 60 == c.minute;
    assert (c.minute * 60 + c.second) % 60 == c.second;
  }

  /** Two valid readings share a timestamp only when they are the same reading. */
  lemma TimestampInjective(a: ClockReading, b: ClockReading)
    requires a.Valid() && b.Valid()
    ensures Timestamp(a) == Timestamp(b) <==> a == b
  {
    if Timestamp(a) == Timestamp(b) {
      ClockOfTimestamp(a);
      ClockOfTimestamp(b);
    }
  }

  /** Chronological order within a week: by weekday, then hour, minute and second. */
  predicate Earlier(a: ClockReading, b: ClockReading)
  {
    || a.weekday < b.weekday
    || (a.weekday == b.weekday && a.hour < b.hour)
    || (a.weekday == b.weekday && a.hour == b.hour && a.minute < b.minute)
    || (a.weekday == b.weekday && a.hour == b.hour && a.minute == b.minute && a.second < b.second)
  }

  /** Comparing timestamps numerically is comparing the readings chronologically. */
  lemma TimestampOrder(a: ClockReading, b: ClockReading)
    requires a.Valid() && b.Valid()
    ensures Timestamp(a) < Timestamp(b) <==> Earlier(a, b)
  {
  }
}
