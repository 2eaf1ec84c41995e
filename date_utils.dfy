/** The date helpers of lib/utils.ts. An `Instant` is a JavaScript `Date`'s
    millisecond count read on the host's local clock (a fixed offset from UTC,
    with no daylight-saving changes), so local midnight is a multiple of a day. */
module DateUtils {
  import opened Common
  import ClockText

  type Instant = int

  const MS_PER_MINUTE: int := 60000
  const MS_PER_DAY: int := 86400000
  const MINUTES_PER_DAY: int := 1440

  /** `addMinutes(date, minutes)`: a new date `minutes * 60000` ms later. */
  function AddMinutes(d: Instant, minutes: int): Instant {
    d + minutes * MS_PER_MINUTE
  }

  /** `setHours(0, 0, 0, 0)`: local midnight of the day holding `d`. */
  function StartOfDay(d: Instant): (r: Instant)
    ensures r <= d < r + MS_PER_DAY
    ensures r % MS_PER_DAY == 0
  {
    d - d % MS_PER_DAY
  }

  /** `getDay()`: 0 is Sunday. Day 0 of the epoch, 1 January 1970, was a Thursday. */
  function GetDayOfWeek(d: Instant): (r: int)
    ensures 0 <= r < 7
  {
    (d / MS_PER_DAY + 4) % 7
  }

  /** `getDateAtTime(date, "HH:mm")`: `date` with hours and minutes taken from
      the text and seconds and milliseconds zeroed; an Invalid Date (None) when
      either field is NaN. Hours and minutes out of range roll over, as
      `setHours` does. */
  function GetDateAtTime(d: Instant, time: string): Option<Instant> {
    match ClockText.ParseClock(time)
    case None => None
    case Some((h, m)) => Some(StartOfDay(d) + (60 * h + m) * MS_PER_MINUTE)
  }

  /** Minutes elapsed since local midnight (`getHours() * 60 + getMinutes()`). */
  function MinuteOfDay(d: Instant): (r: int)
    ensures 0 <= r < MINUTES_PER_DAY
  {
    (d - StartOfDay(d)) / MS_PER_MINUTE
  }

  /** Adding minutes composes, and adding none changes nothing. */
  lemma AddMinutesLaws(d: Instant, a: int, b: int)
    ensures AddMinutes(AddMinutes(d, a), b) == AddMinutes(d, a + b)
    ensures AddMinutes(d, 0) == d
    ensures AddMinutes(AddMinutes(d, a), -a) == d
    ensures a <= b <==> AddMinutes(d, a) <= AddMinutes(d, b)
  {
  }

  /** Dividing `q` days and `r` milliseconds, `r` within a day, by a day
      gives back `q` and `r`. */
  lemma DivDay(q: int, r: int)
    requires 0 <= r < MS_PER_DAY
    ensures (q * MS_PER_DAY + r) / MS_PER_DAY == q
    ensures (q * MS_PER_DAY + r) % MS_PER_DAY == r
  {
  }

  /** Any instant of local day `n` after 1 January 1970 (a Thursday) has
      weekday `(n + 4) mod 7`: day 3, 4 January 1970, is a Sunday (0), and
      every seventh day after or before it is a Sunday too. */
  lemma WeekdayOfDay(n: int, t: int)
    requires 0 <= t < MS_PER_DAY
    ensures GetDayOfWeek(n * MS_PER_DAY + t) == (n + 4) % 7
    ensures (n - 3) % 7 == 0 <==> GetDayOfWeek(n * MS_PER_DAY + t) == 0
  {
    DivDay(n, t);
  }

  /** An instant `k` minutes after midnight, for `k` within the day, lies on
      that same day and has minute-of-day `k`, with no seconds. */
  lemma WithinDay(day: Instant, k: int)
    requires day % MS_PER_DAY == 0
    requires 0 <= k < MINUTES_PER_DAY
    ensures StartOfDay(day + k * MS_PER_MINUTE) == day
    ensures MinuteOfDay(day + k * MS_PER_MINUTE) == k
    ensures (day + k * MS_PER_MINUTE) % MS_PER_MINUTE == 0
  {
    var q := day / MS_PER_DAY;
    assert day == q * MS_PER_DAY;
    DivDay(q, k * MS_PER_MINUTE);
    assert StartOfDay(day + k * MS_PER_MINUTE) == day;
    WholeMinutes(q * MINUTES_PER_DAY + k);
  }

  /** A whole number of minutes is a multiple of a minute. */
  lemma WholeMinutes(n: int)
    ensures (n * MS_PER_MINUTE) % MS_PER_MINUTE == 0
  {
  }

  /** `getDateAtTime` keeps the calendar day, its minute-of-day is `60*HH + mm`
      of the text, and its seconds and milliseconds are zero. */
  lemma DateAtTimeKeepsDay(d: Instant, time: string)
    requires ClockText.ParseClock(time).Some?
    requires 60 * ClockText.ParseClock(time).value.0 + ClockText.ParseClock(time).value.1 < MINUTES_PER_DAY
    ensures GetDateAtTime(d, time).Some?
    ensures StartOfDay(GetDateAtTime(d, time).value) == StartOfDay(d)
    ensures MinuteOfDay(GetDateAtTime(d, time).value) == ClockText.TimeToMinutes(time).value
    ensures GetDateAtTime(d, time).value % MS_PER_MINUTE == 0
  {
    var (h, m) := ClockText.ParseClock(time).value;
    WithinDay(StartOfDay(d), 60 * h + m);
  }

  /** The day after is the next weekday, Saturday wrapping to Sunday. */
  lemma NextDayOfWeek(d: Instant)
    ensures GetDayOfWeek(AddMinutes(d, MINUTES_PER_DAY)) == (GetDayOfWeek(d) + 1) % 7
  {
    assert AddMinutes(d, MINUTES_PER_DAY) == d + MS_PER_DAY;
    assert (d + MS_PER_DAY) / MS_PER_DAY == d / MS_PER_DAY + 1;
  }
}
