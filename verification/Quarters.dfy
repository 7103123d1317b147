/** UTC 15-minute quarters in epoch milliseconds, the time key of every series. */
module Quarters {

  const MINUTE_MS: int := 60_000
  const QUARTER_MS: int := 15 * MINUTE_MS
  const HOUR_MS: int := 60 * MINUTE_MS
  const DAY_MS: int := 24 * HOUR_MS
  const WEEK_MS: int := 7 * DAY_MS

  /** The days of history and of forecast around a series start. */
  const FLOOR_HISTORY_DAYS: int := 30
  const FORECAST_DAYS: int := 3

  /** Values by quarter start. */
  type QuarterMap = map<int, real>

  predicate Aligned(ms: int) {
    ms % QUARTER_MS == 0
  }

  /** The quarter that contains ms. */
  function Floor(ms: int): (q: int)
    ensures Aligned(q) && q <= ms < q + QUARTER_MS
  {
    ms - ms % QUARTER_MS
  }

  /** The quarter that contains q + ms. */
  function Offset(q: int, ms: int): int {
    Floor(q + ms)
  }

  /** The start of the UTC day of q. */
  function UtcDayStart(q: int): (d: int)
    ensures d % DAY_MS == 0 && d <= q < d + DAY_MS
  {
    q / DAY_MS * DAY_MS
  }

  /** The UTC hour of day. */
  function UtcHour(q: int): (h: nat)
    ensures h < 24
  {
    q % DAY_MS / HOUR_MS
  }

  /** The weekday of the UTC day, from 0 on Sunday; day 0 is a Thursday. */
  function UtcWeekday(q: int): (d: nat)
    ensures d < 7
  {
    (q / DAY_MS + 4) % 7
  }
}
