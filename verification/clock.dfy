/**
 * Instants and the minute rounding used by the date range.
 *
 * An instant is a JavaScript time value: a whole number of milliseconds since
 * the Unix epoch. The rounding helpers truncDate and ceilDate live in
 * vue/src/util/fmt/date.ts, which is not part of this model; here they are
 * taken to be the floor and the ceiling to a multiple of one minute.
 */
module Clock {

  const Second: int := 1000
  const Minute: int := 60 * Second
  const Day: int := 24 * 60 * Minute

  /** truncDate(t, minute): the start of the minute that contains t. */
  function TruncMinute(t: int): (r: int)
    ensures r <= t < r + Minute
    ensures r % Minute == 0
  {
    t - t % Minute
  }

  /** ceilDate(t, minute): the first whole minute at or after t. */
  function CeilMinute(t: int): (r: int)
    ensures r - Minute < t <= r
    ensures r % Minute == 0
  {
    if t % Minute == 0 then t else t - t % Minute + Minute
  }

  /** The rounded clock reading of updateNow: up when roundUp is set, down otherwise. */
  function RoundNow(now: int, roundUp: bool): (r: int)
    ensures r % Minute == 0
    ensures if roundUp then now <= r < now + Minute else now - Minute < r <= now
  {
    if roundUp then CeilMinute(now) else TruncMinute(now)
  }

  /** Rounding a later clock reading never gives an earlier minute. */
  lemma RoundNowMonotone(t1: int, t2: int, roundUp: bool)
    requires t1 <= t2
    ensures RoundNow(t1, roundUp) <= RoundNow(t2, roundUp)
  {
  }

}
