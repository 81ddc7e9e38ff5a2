/**
 * The date-range composable as an object whose refs are updated in place.
 *
 * Each mutator changes the four fields step by step, as the composable does,
 * and is proved to produce exactly the state that the matching function of
 * module TimeWindow (or QueryParams) describes; the properties of those
 * functions are proved there.
 */
module UseDateRange {
  import opened Wrappers
  import opened Clock
  import opened TimeWindow
  import opened QueryParams

  class DateRange {
    var roundUp: bool
    var lt: Option<int>
    var isNow: bool
    var duration: int

    /** The four refs as one value. */
    function Model(): Window
      reads this
    {
      Window(lt, duration, isNow, roundUp)
    }

    /** useDateRange(): no end, no length, not following the clock. */
    constructor ()
      ensures Model() == Initial
    {
      roundUp := false;
      lt := None;
      isNow := false;
      duration := 0;
    }

    function IsValid(): (r: bool)
      reads this
      ensures r <==> lt.Some? && duration != 0
    {
      TimeWindow.IsValid(Model())
    }

    function Gte(): (r: Option<int>)
      reads this
      ensures r.Some? <==> IsValid()
      ensures r.Some? ==> r.value + duration == lt.value
    {
      TimeWindow.Gte(Model())
    }

    function HasPrevPeriod(now: int): (r: bool)
      reads this
      ensures r ==> IsValid() && now - 30 * Day < lt.value - duration
    {
      TimeWindow.HasPrevPeriod(Model(), now)
    }

    function HasNextPeriod(now: int): (r: bool)
      reads this
      ensures r ==> IsValid() && !isNow && lt.value < now
    {
      TimeWindow.HasNextPeriod(Model(), now)
    }

    function QueryParams(): (q: Query)
      reads this
      ensures q == EmptyQuery <==> !IsValid()
      ensures IsValid() ==> q.timeDur.Some? && (q.timeGte.None? <==> isNow)
      ensures q.timeGte.Some? ==> q.timeGte == Gte()
    {
      Encode(Model())
    }

    method UpdateNow(force: bool, now: int) returns (changed: bool)
      modifies this
      ensures (Model(), changed) == TimeWindow.UpdateNow(old(Model()), force, now)
    {
      if !force && !isNow {
        return false;
      }
      isNow := true;
      var nowVal := if roundUp then CeilMinute(now) else TruncMinute(now);
      if lt.Some? && nowVal <= lt.value {
        return false;
      }
      lt := Some(nowVal);
      return true;
    }

    method ResetNowTimer()
      modifies this
      ensures Model() == LeaveNow(old(Model()))
    {
      isNow := false;
    }

    method Reset()
      modifies this
      ensures Model() == TimeWindow.Reset(old(Model()))
    {
      ResetNowTimer();
      lt := None;
      duration := 0;
    }

    method Change(gteVal: int, ltVal: int)
      modifies this
      ensures Model() == TimeWindow.Change(old(Model()), gteVal, ltVal)
    {
      var durVal := ltVal - gteVal;
      lt := Some(ltVal);
      duration := durVal;
      ResetNowTimer();
    }

    method ChangeDuration(ms: int, now: int, nowAgain: int)
      modifies this
      ensures Model() == TimeWindow.ChangeDuration(old(Model()), ms, now, nowAgain)
    {
      if lt.Some? && !isNow {
        var gteVal := Gte();
        if gteVal.Some? && gteVal.value + ms < now {
          duration := ms;
          lt := Some(gteVal.value + ms);
          return;
        }
      }
      duration := ms;
      var _ := UpdateNow(true, nowAgain);
    }

    method ChangeAround(dt: int, ms: int, now: int)
      modifies this
      ensures Model() == TimeWindow.ChangeAround(old(Model()), dt, ms, now)
    {
      if ms != 0 {
        duration := ms;
      }
      var t := dt + Half(duration);
      var nowVal := CeilMinute(now);
      t := if t <= nowVal then t else nowVal;
      ChangeLT(t);
    }

    method ChangeGTE(dt: int)
      modifies this
      ensures Model() == TimeWindow.ChangeGTE(old(Model()), dt)
    {
      ChangeLT(dt + duration);
    }

    method ChangeLT(dt: int)
      modifies this
      ensures Model() == TimeWindow.ChangeLT(old(Model()), dt)
    {
      ResetNowTimer();
      lt := Some(dt);
    }

    method PrevPeriod()
      requires lt.Some?
      modifies this
      ensures Model() == TimeWindow.PrevPeriod(old(Model()))
    {
      ResetNowTimer();
      lt := Some(lt.value - duration);
    }

    method NextPeriod(now: int)
      modifies this
      ensures Model() == TimeWindow.NextPeriod(old(Model()), now)
    {
      var ok := lt.Some? && lt.value + duration <= now;
      var ltVal := if ok then lt.value + duration else now;
      ChangeLT(ltVal);
    }

    method ParseQueryParams(params: Query, now: int)
      modifies this
      ensures Model() == Decode(old(Model()), params, now)
    {
      var dur := params.timeDur;
      var gteVal := params.timeGte;
      if dur.None? || dur.value == 0.0 {
        return;
      }
      duration := ParseInt(dur.value) * Second;
      if gteVal.Some? {
        ChangeGTE(gteVal.value);
      } else {
        var _ := UpdateNow(true, now);
      }
    }
  }

}
