/** The days of the current week, Monday first. Dates are day numbers: day 0 is
    1970-01-01, a Thursday, and day `d + 1` is the day after day `d`; "today" is a parameter. */
module WeekDays {

  /** `Date.prototype.getDay()`: 0 for Sunday, 1 for Monday, ..., 6 for Saturday. */
  function Weekday(day: int): (w: int)
    ensures 0 <= w < 7
  {
    (day + 4) % 7
  }

  datatype DayKey = DayMon | DayTue | DayWed | DayThu | DayFri | DaySat | DaySun

  /** The week's translation keys, Monday first. */
  const DAY_KEYS: seq<DayKey> := [DayMon, DayTue, DayWed, DayThu, DayFri, DaySat, DaySun]

  /** The key naming a weekday. */
  function KeyOf(weekday: int): DayKey
    requires 0 <= weekday < 7
  {
    match weekday
    case 0 => DaySun
    case 1 => DayMon
    case 2 => DayTue
    case 3 => DayWed
    case 4 => DayThu
    case 5 => DayFri
    case _ => DaySat
  }

  datatype WeekDay = WeekDay(day: int, dayKey: DayKey)

  /** The Monday of `today`'s week: Sunday counts as the last day of the week before. */
  function WeekStart(today: int): int {
    var dayOfWeek := Weekday(today);
    today - dayOfWeek + (if dayOfWeek == 0 then -6 else 1)
  }

  /** Adding whole weeks keeps the weekday. */
  lemma WeekdayShift(day: int, n: int)
    requires 0 <= n < 7
    ensures Weekday(day + n) == (Weekday(day) + n) % 7
  {
    var q := (day + 4) / 7;
    assert day + 4 == 7 * q + Weekday(day);
    assert day + n + 4 == 7 * q + (Weekday(day) + n);
  }

  /** The week starts on a Monday and holds today: today is at most six days after it. */
  lemma WeekStartProperties(today: int)
    ensures Weekday(WeekStart(today)) == 1
    ensures WeekStart(today) <= today <= WeekStart(today) + 6
  {
    var w := Weekday(today);
    var start := WeekStart(today);
    var n := if w == 0 then 6 else w - 1;
    assert today == start + n;
    var q := (start + 4) / 7;
    var r := Weekday(start);
    assert start + 4 == 7 * q + r;
    WeekdayShift(start, n);
    assert (r + n) % 7 == w;
  }

  /** Every day of the week has the same week start: the week listed is the one that
      contains today, whichever of its days today is. */
  lemma SameWeek(today: int, i: int)
    requires 0 <= i < 7
    ensures WeekStart(WeekStart(today) + i) == WeekStart(today)
  {
    var start := WeekStart(today);
    WeekStartProperties(today);
    WeekdayShift(start, i);
  }

  /** `getWeekDays`: seven entries from the week's Monday, with the keys in order. */
  method GetWeekDays(today: int) returns (weekDays: seq<WeekDay>)
    ensures |weekDays| == 7
    ensures forall i :: 0 <= i < 7 ==> weekDays[i] == WeekDay(WeekStart(today) + i, DAY_KEYS[i])
  {
    var dayOfWeek := Weekday(today);
    var startOfWeek := today - dayOfWeek + (if dayOfWeek == 0 then -6 else 1);
    weekDays := [];
    for i := 0 to 7
      invariant |weekDays| == i
      invariant forall k :: 0 <= k < i ==> weekDays[k] == WeekDay(startOfWeek + k, DAY_KEYS[k])
    {
      weekDays := weekDays + [WeekDay(startOfWeek + i, DAY_KEYS[i])];
    }
  }

  /** The entries are consecutive days, and each key names its day's actual weekday. */
  lemma WeekEntries(today: int, i: int)
    requires 0 <= i < 7
    ensures KeyOf(Weekday(WeekStart(today) + i)) == DAY_KEYS[i]
    ensures WeekStart(today) <= today <= WeekStart(today) + 6
  {
    WeekStartProperties(today);
    WeekdayShift(WeekStart(today), i);
  }
}
