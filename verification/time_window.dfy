/**
 * The state of the date-range composable as a value, the quantities computed
 * from it, and one specification function per mutator.
 *
 * The composable keeps four refs: the end instant `lt` (possibly unset), the
 * window length `duration` in milliseconds, the "follow the current time"
 * flag `isNow` and the `roundUp` flag. The start of the window is not stored:
 * it is `lt - duration`. Every read of the wall clock is an explicit `now`
 * parameter.
 */
module TimeWindow {
  import opened Wrappers
  import opened Clock

  datatype Window = Window(lt: Option<int>, duration: int, isNow: bool, roundUp: bool)

  /** The state a freshly created date range starts in. */
  const Initial: Window := Window(None, 0, false, false)

  /**
   * A Date is always truthy and a number is truthy when non-zero: the range is
   * valid exactly when it has an end and the span back to its start is not empty.
   */
  function IsValid(w: Window): (r: bool)
    ensures r <==> w.lt.Some? && w.lt.value - w.duration != w.lt.value
  {
    w.lt.Some? && w.duration != 0
  }

  /** The start instant, defined only for a valid range. */
  function Gte(w: Window): (r: Option<int>)
    ensures r.Some? <==> IsValid(w)
    ensures r.Some? ==> r.value + w.duration == w.lt.value && r.value != w.lt.value
  {
    if IsValid(w) then Some(w.lt.value - w.duration) else None
  }

  /** Whether "previous period" is offered: the start is less than 30 days ago. */
  function HasPrevPeriod(w: Window, now: int): (r: bool)
    ensures r ==> IsValid(w) && now - 30 * Day < w.lt.value - w.duration
    ensures IsValid(w) && now < Gte(w).value ==> r
  {
    IsValid(w) && now - Gte(w).value < 30 * Day
  }

  /** Whether "next period" is offered: a historical range ending more than 15 minutes ago. */
  function HasNextPeriod(w: Window, now: int): (r: bool)
    ensures r ==> IsValid(w) && !w.isNow && w.lt.value < now
  {
    IsValid(w) && !w.isNow && now - w.lt.value > 15 * Minute
  }

  //------------------------------------------------------------------------------
  // Mutators, each as the new state it produces.

  /** resetNowTimer: leave now-mode (the timer itself is not modelled). */
  function LeaveNow(w: Window): (r: Window)
    ensures !r.isNow && r.lt == w.lt && r.duration == w.duration && r.roundUp == w.roundUp
  {
    w.(isNow := false)
  }

  /** updateNow(force): returns the new state and whether `lt` was replaced. */
  function UpdateNow(w: Window, force: bool, now: int): (r: (Window, bool))
    ensures !force && !w.isNow ==> r == (w, false)
    ensures force || w.isNow ==>
      && r.0.isNow && r.0.duration == w.duration && r.0.roundUp == w.roundUp
      && r.0.lt.Some? && RoundNow(now, w.roundUp) <= r.0.lt.value
      && (w.lt.Some? ==> w.lt.value <= r.0.lt.value)
      && (r.0.lt == w.lt || r.0.lt == Some(RoundNow(now, w.roundUp)))
    ensures r.1 <==> r.0.lt != w.lt
  {
    if !force && !w.isNow then (w, false)
    else
      var nowVal := RoundNow(now, w.roundUp);
      if w.lt.Some? && nowVal <= w.lt.value then (w.(isNow := true), false)
      else (w.(isNow := true, lt := Some(nowVal)), true)
  }

  /** reset: no end, no length, not following the clock. */
  function Reset(w: Window): (r: Window)
    ensures !IsValid(r) && Gte(r).None?
    ensures r.lt.None? && r.duration == 0 && !r.isNow && r.roundUp == w.roundUp
  {
    Window(None, 0, false, w.roundUp)
  }

  /** change(gte, lt): the window becomes exactly [gteVal, ltVal). */
  function Change(w: Window, gteVal: int, ltVal: int): (r: Window)
    ensures r.lt == Some(ltVal) && !r.isNow && r.roundUp == w.roundUp
    ensures IsValid(r) <==> gteVal != ltVal
    ensures gteVal != ltVal ==> Gte(r) == Some(gteVal)
  {
    LeaveNow(w).(lt := Some(ltVal), duration := ltVal - gteVal)
  }

  /** changeLT(dt): move the end, keep the length. */
  function ChangeLT(w: Window, dt: int): (r: Window)
    ensures r.lt == Some(dt) && r.duration == w.duration && !r.isNow && r.roundUp == w.roundUp
    ensures IsValid(r) <==> w.duration != 0
  {
    LeaveNow(w).(lt := Some(dt))
  }

  /** changeGTE(dt): move the start, keep the length. */
  function ChangeGTE(w: Window, dt: int): (r: Window)
    ensures r.duration == w.duration && !r.isNow && r.roundUp == w.roundUp
    ensures r.lt == Some(dt + w.duration)
    ensures w.duration != 0 ==> Gte(r) == Some(dt)
  {
    ChangeLT(w, dt + w.duration)
  }

  /**
   * prevPeriod: the window one length earlier. The source dereferences `lt`
   * with a non-null assertion, so the range must have an end.
   */
  function PrevPeriod(w: Window): (r: Window)
    requires w.lt.Some?
    ensures r.duration == w.duration && !r.isNow && r.roundUp == w.roundUp
    ensures r.lt == Some(w.lt.value - w.duration)
    ensures IsValid(w) ==> r.lt == Gte(w) && Gte(r) == Some(Gte(w).value - w.duration)
  {
    LeaveNow(w).(lt := Some(w.lt.value - w.duration))
  }

  /**
   * nextPeriod: the window one length later, but never ending after `now`.
   * With `lt` unset the addition gives an invalid Date, the comparison fails
   * and the end becomes `now`.
   */
  function NextPeriod(w: Window, now: int): (r: Window)
    ensures r.duration == w.duration && !r.isNow && r.roundUp == w.roundUp
    ensures r.lt.Some? && r.lt.value <= now
    ensures w.lt.Some? && w.lt.value + w.duration <= now ==> r.lt == Some(w.lt.value + w.duration)
    ensures !(w.lt.Some? && w.lt.value + w.duration <= now) ==> r.lt == Some(now)
  {
    var ltVal := if w.lt.Some? && w.lt.value + w.duration <= now then w.lt.value + w.duration else now;
    ChangeLT(w, ltVal)
  }

  /**
   * changeDuration(ms): a historical range keeps its start when the new end
   * stays before `now`; otherwise the range switches to now-mode. With the
   * start undefined (duration 0) the source compares an invalid Date, which
   * fails, so that case also switches to now-mode. The source reads the clock
   * twice: `now` for the comparison and `nowAgain` inside updateNow.
   */
  function ChangeDuration(w: Window, ms: int, now: int, nowAgain: int): (r: Window)
    ensures r.duration == ms && r.roundUp == w.roundUp
    ensures KeepsStart(w, ms, now) ==>
      !r.isNow && r.lt == Some(Gte(w).value + ms) && r.lt.value < now
    ensures !KeepsStart(w, ms, now) ==>
      r.isNow && r.lt.Some? && RoundNow(nowAgain, w.roundUp) <= r.lt.value
      && (w.lt.Some? ==> w.lt.value <= r.lt.value)
      && (r.lt == w.lt || r.lt == Some(RoundNow(nowAgain, w.roundUp)))
  {
    if KeepsStart(w, ms, now) then w.(duration := ms, lt := Some(Gte(w).value + ms))
    else UpdateNow(w.(duration := ms), true, nowAgain).0
  }

  /** The branch condition of changeDuration that keeps the start in place. */
  predicate KeepsStart(w: Window, ms: int, now: int)
  {
    w.lt.Some? && !w.isNow && Gte(w).Some? && Gte(w).value + ms < now
  }

  /** Half a length as an integer number of milliseconds, rounded toward zero. */
  function Half(d: int): (r: int)
    ensures d >= 0 ==> 0 <= r && r + r <= d < r + r + 2
    ensures d < 0 ==> r <= 0 && d <= r + r && r + r - 2 < d
  {
    if d >= 0 then d / 2 else -((-d) / 2)
  }

  /**
   * changeAround(dt, ms): a window centred on `dt` (with a new length when
   * `ms` is non-zero), its end clipped to the current minute rounded up.
   */
  function ChangeAround(w: Window, dt: int, ms: int, now: int): (r: Window)
    ensures r.duration == (if ms != 0 then ms else w.duration)
    ensures !r.isNow && r.roundUp == w.roundUp
    ensures r.lt.Some? && r.lt.value <= CeilMinute(now)
    ensures dt + Half(r.duration) <= CeilMinute(now) ==> r.lt.value == dt + Half(r.duration)
    ensures dt + Half(r.duration) > CeilMinute(now) ==> r.lt == Some(CeilMinute(now))
  {
    var w1 := if ms != 0 then w.(duration := ms) else w;
    var ltVal := dt + Half(w1.duration);
    var nowVal := CeilMinute(now);
    ChangeLT(w1, if ltVal <= nowVal then ltVal else nowVal)
  }

  //------------------------------------------------------------------------------
  // Properties that relate several operations.

  /** A range never starts out valid. */
  lemma InitialIsInvalid()
    ensures !IsValid(Initial) && Gte(Initial).None? && !Initial.isNow
  {
  }

  /** Going back one period and then forward one returns to the same window. */
  lemma PrevThenNext(w: Window, now: int)
    requires w.lt.Some? && w.lt.value <= now
    ensures NextPeriod(PrevPeriod(w), now) == LeaveNow(w)
  {
  }

  /** Going forward one whole period and then back one returns to the same window. */
  lemma NextThenPrev(w: Window, now: int)
    requires w.lt.Some? && w.lt.value + w.duration <= now
    ensures PrevPeriod(NextPeriod(w, now)) == LeaveNow(w)
  {
  }

  /** When offered, "next period" moves a positive-length window forward, never past now. */
  lemma NextPeriodAdvances(w: Window, now: int)
    requires HasNextPeriod(w, now) && w.duration > 0
    ensures w.lt.value < NextPeriod(w, now).lt.value <= now
  {
  }

  /** When offered, "previous period" ends the new window less than 30 days before now. */
  lemma PrevPeriodStaysRecent(w: Window, now: int)
    requires HasPrevPeriod(w, now)
    ensures now - PrevPeriod(w).lt.value < 30 * Day
  {
  }

  /**
   * Stepping back from a window that ends by `now`, when the window is longer
   * than 15 minutes, always makes "next period" available.
   */
  lemma PrevPeriodOffersNext(w: Window, now: int)
    requires IsValid(w) && w.lt.value <= now && w.duration > 15 * Minute
    ensures HasNextPeriod(PrevPeriod(w), now)
  {
  }

  /** A second update at the same instant changes nothing and reports no change. */
  lemma UpdateNowIdempotent(w: Window, force: bool, now: int)
    ensures var w1 := UpdateNow(w, force, now).0;
      UpdateNow(w1, false, now) == (w1, false)
  {
  }

  /** changeDuration preserves the start whenever it does not switch to now-mode. */
  lemma ChangeDurationKeepsStart(w: Window, ms: int, now: int, nowAgain: int)
    requires KeepsStart(w, ms, now) && ms != 0
    ensures Gte(ChangeDuration(w, ms, now, nowAgain)) == Gte(w)
  {
  }

  /** changeAround with a non-negative length puts `dt` inside the window unless clipped. */
  lemma ChangeAroundContains(w: Window, dt: int, ms: int, now: int)
    requires var d := if ms != 0 then ms else w.duration; d > 0 && dt + Half(d) <= CeilMinute(now)
    ensures var r := ChangeAround(w, dt, ms, now);
      Gte(r).Some? && Gte(r).value <= dt <= r.lt.value
  {
  }

  //------------------------------------------------------------------------------
  // Repeated updates: the timer and reload() both call updateNow() unforced.

  /** The state after one unforced updateNow per clock reading, in order. */
  function Reloads(w: Window, clocks: seq<int>): (r: Window)
    ensures r.duration == w.duration && r.roundUp == w.roundUp && r.isNow == w.isNow
    decreases |clocks|
  {
    if clocks == [] then w else Reloads(UpdateNow(w, false, clocks[0]).0, clocks[1..])
  }

  /** A historical range is never moved by timer ticks or reloads. */
  lemma {:induction false} ReloadsKeepHistorical(w: Window, clocks: seq<int>)
    requires !w.isNow
    ensures Reloads(w, clocks) == w
    decreases |clocks|
  {
    if clocks != [] {
      ReloadsKeepHistorical(UpdateNow(w, false, clocks[0]).0, clocks[1..]);
    }
  }

  /**
   * In now-mode the end never moves backwards and ends at the latest of the
   * old end and every rounded clock reading.
   */
  lemma {:induction false} ReloadsFollowClock(w: Window, clocks: seq<int>)
    requires w.isNow && w.lt.Some?
    ensures var r := Reloads(w, clocks);
      && r.lt.Some? && w.lt.value <= r.lt.value
      && (forall i :: 0 <= i < |clocks| ==> RoundNow(clocks[i], w.roundUp) <= r.lt.value)
      && (r.lt == w.lt || exists i :: 0 <= i < |clocks| && r.lt.value == RoundNow(clocks[i], w.roundUp))
    decreases |clocks|
  {
    if clocks != [] {
      var w1 := UpdateNow(w, false, clocks[0]).0;
      ReloadsFollowClock(w1, clocks[1..]);
      var r := Reloads(w, clocks);
      assert r == Reloads(w1, clocks[1..]);
      forall i | 0 <= i < |clocks|
        ensures RoundNow(clocks[i], w.roundUp) <= r.lt.value
      {
        if i > 0 {
          assert clocks[i] == clocks[1..][i - 1];
        }
      }
      if r.lt != w.lt && r.lt != w1.lt {
        var j :| 0 <= j < |clocks[1..]| && r.lt.value == RoundNow(clocks[1..][j], w.roundUp);
        assert clocks[1..][j] == clocks[j + 1];
      }
    }
  }

  /** With a clock that never goes back, the end follows the latest rounded reading. */
  lemma {:induction false} ReloadsWithSteadyClock(w: Window, clocks: seq<int>)
    requires w.isNow && w.lt.Some? && |clocks| > 0
    requires forall i, j :: 0 <= i < j < |clocks| ==> clocks[i] <= clocks[j]
    ensures var last := RoundNow(clocks[|clocks| - 1], w.roundUp);
      Reloads(w, clocks).lt == Some(if w.lt.value < last then last else w.lt.value)
  {
    ReloadsFollowClock(w, clocks);
    var last := RoundNow(clocks[|clocks| - 1], w.roundUp);
    forall i | 0 <= i < |clocks|
      ensures RoundNow(clocks[i], w.roundUp) <= last
    {
      RoundNowMonotone(clocks[i], clocks[|clocks| - 1], w.roundUp);
    }
  }

}
