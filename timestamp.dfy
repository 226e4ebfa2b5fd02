/**
 * The cycle label: `strftime('%Y-%m-%d-%H:%M')` of the wall-clock time,
 * given here as a broken-down date and time.
 */
module Timestamp {

  /** A calendar date and time of day, to the minute. */
  datatype DateTime = DateTime(year: int, month: int, day: int, hour: int, minute: int)

  /**
   * The fields `datetime` admits, with the year bound of Python 2's
   * `strftime`, which refuses years before 1900.
   */
  predicate Valid(d: DateTime) {
    && 1900 <= d.year <= 9999
    && 1 <= d.month <= 12
    && 1 <= d.day <= 31
    && 0 <= d.hour < 24
    && 0 <= d.minute < 60
  }

  function Pow10(n: nat): nat {
    if n == 0 then 1 else 10 * Pow10(n - 1)
  }

  predicate IsDigit(c: char) {
    '0' <= c <= '9'
  }

  /** The number a string of decimal digits spells. */
  function Value(s: string): int {
    if s == [] then 0 else 10 * Value(s[..|s| - 1]) + (s[|s| - 1] as int - '0' as int)
  }

  /** `n` in decimal, zero-padded to `width` digits (`%02d`, `%04d`); reading it back gives `n`. */
  function Digits(n: nat, width: nat): (s: string)
    requires n < Pow10(width)
    ensures |s| == width && Value(s) == n
    ensures forall i :: 0 <= i < |s| ==> IsDigit(s[i])
  {
    if width == 0 then ""
    else
      var high := Digits(n / 10, width - 1);
      var s := high + [('0' as int + n % 10) as char];
      assert s[..|s| - 1] == high;
      s
  }

  /** The year, month, day and hour part of the label: `%Y-%m-%d-%H`. */
  function HourLabel(d: DateTime): (h: string)
    requires Valid(d)
    ensures |h| == 13 && h[4] == '-' && h[7] == '-' && h[10] == '-'
  {
    Digits(d.year, 4) + "-" + Digits(d.month, 2) + "-" + Digits(d.day, 2) + "-" + Digits(d.hour, 2)
  }

  /** `timestamp()`: the label `%Y-%m-%d-%H:%M` of a time. */
  function Format(d: DateTime): (ts: string)
    requires Valid(d)
    ensures |ts| == 16
  {
    HourLabel(d) + ":" + Digits(d.minute, 2)
  }

  /** Where each field sits in an hour label: its digits can be read back. */
  lemma HourFields(d: DateTime)
    requires Valid(d)
    ensures var h := HourLabel(d);
      && |h| == 13 && h[4] == '-' && h[7] == '-' && h[10] == '-'
      && Value(h[0..4]) == d.year && Value(h[5..7]) == d.month
      && Value(h[8..10]) == d.day && Value(h[11..13]) == d.hour
  {
    var h := HourLabel(d);
    assert h[0..4] == Digits(d.year, 4);
    assert h[5..7] == Digits(d.month, 2);
    assert h[8..10] == Digits(d.day, 2);
    assert h[11..13] == Digits(d.hour, 2);
  }

  /** Two times have the same hour label exactly when they fall in the same hour of the same day. */
  lemma SameHourLabel(d1: DateTime, d2: DateTime)
    requires Valid(d1) && Valid(d2)
    ensures HourLabel(d1) == HourLabel(d2) <==>
      d1.year == d2.year && d1.month == d2.month && d1.day == d2.day && d1.hour == d2.hour
  {
    HourFields(d1);
    HourFields(d2);
  }

  /** The label ends with `:MM`; dropping those three characters leaves the hour label. */
  lemma FormatHour(d: DateTime)
    requires Valid(d)
    ensures Format(d)[..13] == HourLabel(d) && Format(d)[13] == ':'
    ensures Value(Format(d)[14..]) == d.minute
  {
    HourFields(d);
    assert Format(d)[14..] == Digits(d.minute, 2);
  }

  /** Distinct times (to the minute) get distinct labels. */
  lemma FormatInjective(d1: DateTime, d2: DateTime)
    requires Valid(d1) && Valid(d2) && Format(d1) == Format(d2)
    ensures d1 == d2
  {
    FormatHour(d1);
    FormatHour(d2);
    SameHourLabel(d1, d2);
  }
}
