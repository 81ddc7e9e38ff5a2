/**
 * The route-query encoding of a date range: `time_dur` (the length in
 * seconds) and, for a historical range, `time_gte` (the start).
 *
 * `time_dur` is the JavaScript number `duration / second`, kept here as a
 * `real`; reading it back goes through `parseInt`, which for such a number
 * keeps the integer part (truncation toward zero). `time_gte` is carried as
 * the instant itself: formatUTC and parseUTC live in vue/src/util/fmt/date.ts,
 * which is not part of this model, and are taken to be inverse to each other.
 */
module QueryParams {
  import opened Wrappers
  import opened Clock
  import opened TimeWindow

  /** The two query parameters; None stands for an absent key. */
  datatype Query = Query(timeGte: Option<int>, timeDur: Option<real>)

  const EmptyQuery: Query := Query(None, None)

  /** queryParams(): nothing for an invalid range, no start in now-mode. */
  function Encode(w: Window): (q: Query)
    ensures q == EmptyQuery <==> !IsValid(w)
    ensures q.timeDur.Some? <==> IsValid(w)
    ensures IsValid(w) ==> (q.timeGte.None? <==> w.isNow)
    ensures q.timeGte.Some? ==> q.timeGte == Gte(w)
    ensures q.timeDur.Some? ==> q.timeDur.value * 1000.0 == w.duration as real
  {
    if !IsValid(w) then EmptyQuery
    else
      var dur := w.duration as real / Second as real;
      if w.isNow then Query(None, Some(dur)) else Query(Gte(w), Some(dur))
  }

  /** parseInt applied to a number: its integer part, rounded toward zero. */
  function ParseInt(x: real): (r: int)
    ensures x >= 0.0 ==> r as real <= x < r as real + 1.0
    ensures x < 0.0 ==> r as real - 1.0 < x <= r as real
  {
    if x >= 0.0 then x.Floor else -((-x).Floor)
  }

  /**
   * parseQueryParams(params): a missing or zero `time_dur` changes nothing;
   * otherwise the length is set, then the start is applied when present and
   * now-mode is forced when it is not.
   */
  function Decode(w: Window, q: Query, now: int): (r: Window)
    ensures q.timeDur.None? || q.timeDur == Some(0.0) ==> r == w
    ensures q.timeDur.Some? && q.timeDur != Some(0.0) ==>
      && r.duration == ParseInt(q.timeDur.value) * Second
      && r.roundUp == w.roundUp
      && r.lt.Some?
      && (q.timeGte.Some? ==> !r.isNow && r.lt.value - r.duration == q.timeGte.value)
      && (q.timeGte.None? ==>
            && r.isNow && RoundNow(now, w.roundUp) <= r.lt.value
            && (w.lt.Some? ==> w.lt.value <= r.lt.value)
            && (r.lt == w.lt || r.lt == Some(RoundNow(now, w.roundUp))))
  {
    if q.timeDur.None? || q.timeDur.value == 0.0 then w
    else
      var w1 := w.(duration := ParseInt(q.timeDur.value) * Second);
      if q.timeGte.Some? then ChangeGTE(w1, q.timeGte.value)
      else UpdateNow(w1, true, now).0
  }

  /** The whole seconds of a length, rounded toward zero. */
  function WholeSeconds(d: int): (r: int)
    ensures r % Second == 0
    ensures d >= 0 ==> 0 <= r <= d < r + Second
    ensures d < 0 ==> r - Second < d <= r <= 0
  {
    if d >= 0 then d - d % Second else -((-d) - (-d) % Second)
  }

  /** Writing a length to `time_dur` and reading it back keeps its whole seconds. */
  lemma DurationThroughQuery(d: int)
    ensures ParseInt(d as real / Second as real) * Second == WholeSeconds(d)
  {
  }

  /** A length of whole seconds survives the query unchanged. */
  lemma DurationRoundTrip(w0: Window, w: Window, now: int)
    requires IsValid(w) && w.duration % Second == 0
    ensures Decode(w0, Encode(w), now).duration == w.duration
  {
  }

  /** A historical range of whole seconds is restored exactly from its query. */
  lemma HistoricalRoundTrip(w0: Window, w: Window, now: int)
    requires IsValid(w) && !w.isNow && w.duration % Second == 0
    ensures Decode(w0, Encode(w), now) == w.(roundUp := w0.roundUp)
  {
    DurationRoundTrip(w0, w, now);
  }

  /** A now-mode range comes back in now-mode, ending at or after the rounded clock. */
  lemma LiveRoundTrip(w0: Window, w: Window, now: int)
    requires IsValid(w) && w.isNow && w.duration % Second == 0
    ensures var r := Decode(w0, Encode(w), now);
      r.isNow && r.duration == w.duration && r.lt.Some? && RoundNow(now, w0.roundUp) <= r.lt.value
  {
  }

  /** After reset the query is empty, and reading an empty query changes nothing. */
  lemma ResetClearsQuery(w: Window, now: int)
    ensures Encode(Reset(w)) == EmptyQuery
    ensures Decode(w, EmptyQuery, now) == w
  {
  }

  /** A length under one second does not survive: the decoded range is invalid. */
  lemma SubSecondDurationLost(w0: Window, w: Window, now: int)
    requires IsValid(w) && -Second < w.duration < Second
    ensures !IsValid(Decode(w0, Encode(w), now))
  {
  }

}
