# Date range of the Uptrace UI, in Dafny

This project models the time-window state machine that the Uptrace web UI
uses for every chart and list: the `useDateRange` composable in
`vue/src/use/date-range.ts`. It is a verified model of that file.

The composable holds four refs:

- `lt`: the end instant. It may be unset.
- `duration`: the window length in milliseconds.
- `isNow`: whether the window follows the current time.
- `roundUp`: whether "now" is rounded up to the minute rather than down.

Everything else is derived from these refs: the validity flag, the start
`gte = lt - duration`, the "previous/next period" guards and the route-query
encoding. The mutators move the window in exact ways. The model has four parts:

- `Clock`: instants as whole milliseconds, the constants `second`, `minute`
  and `day`, and the minute rounding that `updateNow` and `changeAround` use.
- `TimeWindow`: the four refs as a value `Window`, the derived quantities,
  one function per mutator giving the new state, and lemmas that relate the
  mutators to each other.
- `QueryParams`: `queryParams` and `parseQueryParams` as `Encode` and
  `Decode`, with round-trip lemmas.
- `UseDateRange`: the composable as a class `DateRange`. Its fields are the
  four refs. Its methods update them in place, step by step as the source
  does. Each method is proved to leave exactly the state that the matching
  `TimeWindow` or `QueryParams` function describes.

Every read of the wall clock (`new Date()`) is an explicit `now` parameter;
`changeDuration`, which reads the clock twice, takes two.
The rounding helpers `truncDate` and `ceilDate` come from
`vue/src/util/fmt/date.ts`, which is not part of this model. Here they are
taken to be the floor and the ceiling to a multiple of one minute
(60000 ms). `formatUTC` and `parseUTC` are also not part of this model. The
query therefore carries `time_gte` as the instant itself, which assumes that
the two are inverse to each other.

The server side of the repository also has a statistics handler,
`pkg/tracing/system_handler.go`. Its grouping, bucketing and quantile merging
exist only as ClickHouse SQL text that the database executes. Its remaining
Go helpers (`FillHoles`, `TableGroupPeriod`, `isEventSystem`) are not part of
this model. The model therefore covers the date range, whose logic lies
entirely in its own file, and not that aggregation pipeline.

JavaScript behaviour that the model keeps:

- A `Date` is always truthy. A number is truthy when it is non-zero. So a
  range is valid exactly when `lt` is set and `duration` is non-zero, and a
  negative duration counts as valid.
- `updateNow` compares the rounded clock with `lt`. When `lt` is unset, the
  comparison with `undefined` is false, so `lt` is set.
- `changeDuration` reads `gte`. When the duration is 0, `gte` is undefined
  and date-fns produces an invalid Date. The comparison then fails and the
  range switches to now-mode.
- `nextPeriod` with `lt` unset sets `lt` to `now`, for the same reason.
- `time_dur` is the number `duration / second`, which may be fractional.
  The model keeps it as a `real`. `parseInt` first prints the number as
  text; for the values a date range produces (zero, or at least 0.001 in size)
  that keeps the integer part, rounding toward zero.

## Model

| member | source | states |
|---|---|---|
| `Clock.TruncMinute` | vue/src/use/date-range.ts:76 | `truncDate(now, minute)` is the whole minute at or below `t`, less than a minute earlier |
| `Clock.CeilMinute` | vue/src/use/date-range.ts:146 | `ceilDate(now, minute)` is the whole minute at or above `t`, less than a minute later |
| `Clock.RoundNow` | vue/src/use/date-range.ts:76 | the rounded clock of `updateNow` is a whole minute: at or above `now` when `roundUp`, at or below it otherwise |
| `Clock.RoundNowMonotone` | vue/src/use/date-range.ts:76 | a later clock reading never rounds to an earlier minute |
| `TimeWindow.IsValid` | vue/src/use/date-range.ts:32-34 | the range is valid exactly when `lt` is set and the span back to the start is not empty (`duration` non-zero) |
| `TimeWindow.Gte` | vue/src/use/date-range.ts:32-42 | `gte` is defined exactly when the range is valid, i.e. `lt` set and `duration` non-zero; it is then `lt - duration` and differs from `lt` |
| `TimeWindow.HasPrevPeriod` | vue/src/use/date-range.ts:164-170 | "previous period" is offered only for a valid range whose start is less than 30 days before `now`, and always for a valid range starting after `now` |
| `TimeWindow.HasNextPeriod` | vue/src/use/date-range.ts:177-183 | "next period" is offered only for a valid historical range whose end lies before `now` |
| `TimeWindow.LeaveNow` | vue/src/use/date-range.ts:91-97 | `resetNowTimer` clears `isNow` and changes nothing else |
| `TimeWindow.UpdateNow` | vue/src/use/date-range.ts:70-89 | unforced and not in now-mode: no change, result false; otherwise now-mode is set and `lt` becomes the later of the old `lt` and the rounded clock (the rounded clock when `lt` was unset), so it never moves back; length and `roundUp` are kept; the result is true iff `lt` changed |
| `TimeWindow.Reset` | vue/src/use/date-range.ts:109-113 | after `reset` the range is invalid with no start, `lt` unset, `duration == 0`, `isNow` false, `roundUp` kept |
| `TimeWindow.Change` | vue/src/use/date-range.ts:115-120 | after `change(g, l)`: `lt == l`, not in now-mode, valid iff `g != l`, and then `gte == g` |
| `TimeWindow.ChangeLT` | vue/src/use/date-range.ts:157-160 | `changeLT(dt)` sets only `lt` and clears `isNow`; the length is kept |
| `TimeWindow.ChangeGTE` | vue/src/use/date-range.ts:153-155 | `changeGTE(dt)` keeps the length, clears `isNow`, sets `lt` to `dt + duration`, and so for a non-zero length makes `gte == dt` |
| `TimeWindow.PrevPeriod` | vue/src/use/date-range.ts:172-175 | `prevPeriod` keeps the length, clears `isNow`, and moves `lt` back by one length; for a valid range the new end is the old start and the start moves back by one length |
| `TimeWindow.NextPeriod` | vue/src/use/date-range.ts:185-189 | `nextPeriod` keeps the length, clears `isNow`, never puts `lt` after `now`, and sets `lt` to `lt + duration` when that is not after `now`, to `now` otherwise |
| `TimeWindow.ChangeDuration` | vue/src/use/date-range.ts:122-135 | `changeDuration(ms)` always sets the length to `ms`; a historical range whose new end stays before `now` keeps its start and stays historical; otherwise now-mode is forced and `lt` becomes the later of the old `lt` and the second clock reading rounded (the rounded reading when `lt` was unset) |
| `TimeWindow.Half` | vue/src/use/date-range.ts:145 | half a length in whole milliseconds, rounded toward zero |
| `TimeWindow.ChangeAround` | vue/src/use/date-range.ts:137-149 | `changeAround(dt, ms)` takes `ms` as the new length when non-zero, clears `isNow`, ends the window half a length after `dt`, or at the current minute rounded up when that is earlier |
| `TimeWindow.InitialIsInvalid` | vue/src/use/date-range.ts:24-34 | a new date range is invalid, has no start and is not in now-mode |
| `TimeWindow.PrevThenNext` | vue/src/use/date-range.ts:172-189 | one step back then one step forward restores a window that ends by `now` |
| `TimeWindow.NextThenPrev` | vue/src/use/date-range.ts:172-189 | one full step forward then one step back restores the window |
| `TimeWindow.NextPeriodAdvances` | vue/src/use/date-range.ts:177-189 | when "next period" is offered, it moves a positive-length window strictly forward and never past `now` |
| `TimeWindow.PrevPeriodStaysRecent` | vue/src/use/date-range.ts:164-175 | when "previous period" is offered, the new window ends less than 30 days before `now` |
| `TimeWindow.PrevPeriodOffersNext` | vue/src/use/date-range.ts:172-183 | stepping back from a window longer than 15 minutes that ends by `now` always makes "next period" available |
| `TimeWindow.UpdateNowIdempotent` | vue/src/use/date-range.ts:70-89 | a second `updateNow()` at the same instant changes nothing and returns false |
| `TimeWindow.ChangeDurationKeepsStart` | vue/src/use/date-range.ts:122-131 | when `changeDuration` stays historical, the start `gte` is unchanged |
| `TimeWindow.ChangeAroundContains` | vue/src/use/date-range.ts:137-149 | for a positive length, unless clipped at the current minute, `dt` lies inside the new window `[gte, lt]` |
| `TimeWindow.Reloads` | vue/src/use/date-range.ts:99-102 | repeated `reload()` calls (unforced `updateNow`) keep the length, `roundUp` and the now-mode flag |
| `TimeWindow.ReloadsKeepHistorical` | vue/src/use/date-range.ts:70-73 | a historical range is never moved by timer ticks or reloads |
| `TimeWindow.ReloadsFollowClock` | vue/src/use/date-range.ts:70-89 | in now-mode, after any sequence of reloads, `lt` has not moved back, is at or after every rounded reading, and is the old end or one of those readings |
| `TimeWindow.ReloadsWithSteadyClock` | vue/src/use/date-range.ts:70-89 | with a clock that never goes back, `lt` ends at the later of the old end and the last rounded reading |
| `QueryParams.Encode` | vue/src/use/date-range.ts:193-207 | the query is empty exactly when the range is invalid, always carries `time_dur` when valid, omits `time_gte` exactly in now-mode, carries the start as `time_gte`, and `time_dur` is the length in seconds |
| `QueryParams.ParseInt` | vue/src/use/date-range.ts:216 | `parseInt` of a number is its integer part, rounded toward zero |
| `QueryParams.Decode` | vue/src/use/date-range.ts:209-223 | a missing or zero `time_dur` changes nothing; otherwise the length becomes the whole seconds given; with `time_gte` the range becomes historical starting there; without it now-mode is forced and `lt` becomes the later of the old `lt` and the rounded clock, never moving back |
| `QueryParams.WholeSeconds` | vue/src/use/date-range.ts:199-216 | a length cut to whole seconds toward zero is a multiple of a second, within one second of the length and of the same sign |
| `QueryParams.DurationThroughQuery` | vue/src/use/date-range.ts:199-216 | writing a length to `time_dur` and reading it back yields its whole seconds |
| `QueryParams.DurationRoundTrip` | vue/src/use/date-range.ts:193-223 | a valid length of whole seconds survives the query exactly, whatever the state that reads it |
| `QueryParams.HistoricalRoundTrip` | vue/src/use/date-range.ts:193-223 | a valid historical range of whole seconds is restored exactly from its query, except for the reader's own `roundUp` |
| `QueryParams.LiveRoundTrip` | vue/src/use/date-range.ts:193-223 | a now-mode range comes back in now-mode with the same length, ending at or after the rounded clock |
| `QueryParams.ResetClearsQuery` | vue/src/use/date-range.ts:193-214 | after `reset` the query is empty, and reading an empty query changes nothing |
| `QueryParams.SubSecondDurationLost` | vue/src/use/date-range.ts:199-216 | a length under one second does not survive the query: the range read back is invalid |
| `UseDateRange.DateRange.constructor` | vue/src/use/date-range.ts:23-27 | a new date range starts with `lt` unset, length 0 and both flags false |
| `UseDateRange.DateRange.IsValid` | vue/src/use/date-range.ts:32-34 | the computed `isValid` of the current refs: `lt` set and `duration` non-zero |
| `UseDateRange.DateRange.Gte` | vue/src/use/date-range.ts:36-42 | the computed `gte` of the current refs: defined exactly when valid, and then `lt - duration` |
| `UseDateRange.DateRange.HasPrevPeriod` | vue/src/use/date-range.ts:164-170 | the computed `hasPrevPeriod`: offered only when valid and the start is less than 30 days before `now` |
| `UseDateRange.DateRange.HasNextPeriod` | vue/src/use/date-range.ts:177-183 | the computed `hasNextPeriod`: offered only for a valid historical range ending before `now` |
| `UseDateRange.DateRange.QueryParams` | vue/src/use/date-range.ts:193-207 | `queryParams()` of the current refs: empty exactly when invalid, `time_dur` always present when valid, `time_gte` absent exactly in now-mode and otherwise the start |
| `UseDateRange.DateRange.UpdateNow` | vue/src/use/date-range.ts:70-89 | updates the refs in place to exactly `TimeWindow.UpdateNow` and returns its flag |
| `UseDateRange.DateRange.ResetNowTimer` | vue/src/use/date-range.ts:91-97 | clears `isNow` in place, as `TimeWindow.LeaveNow` |
| `UseDateRange.DateRange.Reset` | vue/src/use/date-range.ts:109-113 | updates the refs in place to exactly `TimeWindow.Reset` |
| `UseDateRange.DateRange.Change` | vue/src/use/date-range.ts:115-120 | updates the refs in place to exactly `TimeWindow.Change` |
| `UseDateRange.DateRange.ChangeDuration` | vue/src/use/date-range.ts:122-135 | updates the refs in place to exactly `TimeWindow.ChangeDuration`, calling `UpdateNow` with the second clock reading on the now-mode path |
| `UseDateRange.DateRange.ChangeAround` | vue/src/use/date-range.ts:137-149 | updates the refs in place to exactly `TimeWindow.ChangeAround` |
| `UseDateRange.DateRange.ChangeGTE` | vue/src/use/date-range.ts:153-155 | updates the refs in place to exactly `TimeWindow.ChangeGTE` |
| `UseDateRange.DateRange.ChangeLT` | vue/src/use/date-range.ts:157-160 | updates the refs in place to exactly `TimeWindow.ChangeLT` |
| `UseDateRange.DateRange.PrevPeriod` | vue/src/use/date-range.ts:172-175 | updates the refs in place to exactly `TimeWindow.PrevPeriod` |
| `UseDateRange.DateRange.NextPeriod` | vue/src/use/date-range.ts:185-189 | updates the refs in place to exactly `TimeWindow.NextPeriod` |
| `UseDateRange.DateRange.ParseQueryParams` | vue/src/use/date-range.ts:209-223 | updates the refs in place to exactly `QueryParams.Decode` |

## Left out

- TimeWindow.PrevPeriod and UseDateRange.DateRange.PrevPeriod require `lt` to be set, following the source's non-null assertion `lt.value!`. With `lt` unset the source would store an invalid Date, which an `Option<int>` cannot hold.
- QueryParams.Decode and UseDateRange.DateRange.ParseQueryParams take `time_dur` as a number and `time_gte` as an already parsed instant. Raw URL strings are not modelled: `parseInt` on arbitrary text, `formatUTC`/`parseUTC`, and numbers large enough for JavaScript to print them with an exponent.
- QueryParams.ParseInt: JavaScript's `parseInt` reads the printed form of a number, so a number of size below 1e-6 (printed with an exponent, `5e-7`) or of 1e21 and above parses differently from its integer part. `Encode` never produces such a `time_dur` for lengths under 1e24 ms, but `Decode` accepts any number and the model takes the integer part.
- QueryParams.Decode: when `time_dur` comes from the URL it is a string, and the string `"0"` is truthy; the source then sets the length to 0 and goes on to apply `time_gte` or force now-mode, whereas the model's zero number changes nothing.
- TimeWindow.HasPrevPeriod and TimeWindow.HasNextPeriod are evaluated at the `now` given. In the source they are Vue `computed` values and `new Date()` is not reactive, so the clock reading is the one taken when `lt`, `duration` or `isNow` last changed; the model does not capture that caching, and lemmas that use one `now` for both a guard and the following step assume the two readings agree.
- TimeWindow.Half: `duration / 2` is a JavaScript number, and date-fns turns the sum into whole milliseconds. The model rounds the half toward zero. For non-negative lengths this agrees with every reading; for odd negative lengths some date-fns versions round the sum instead, which can differ by one millisecond.
- Timer scheduling (`updateNowTimer`, `setTimeout`, `clearTimeout`) is not modelled. `resetNowTimer` is modelled only as clearing `isNow`. Timer ticks and `reload()` appear only as the sequence of unforced `updateNow` calls in `TimeWindow.Reloads`.
- `forceReload`, `reloadNow` and `forceReloadParams` are side-effect triggers for data fetching and are not modelled.
- `syncQuery` and `useRouteQuery` are router plumbing and are not modelled. Only the two functions they connect, `queryParams` and `parseQueryParams`, are.
- `datePicker` and `timePicker` depend on local-timezone conversion and `Date` string parsing, so they are not modelled.
- `axiosParams` and `lokiParams` depend on `toISOString`, on `forceReloadParams`, and (for Loki) on floating-point multiplication by 1e6, so they are not modelled.
- `changeAround` with a string argument (`new Date(dt)` parsing) is not modelled. Only the instant form is.
- Instants are unbounded integers. The JavaScript `Date` range limit of ±8.64e15 ms and the 2^53 limit of exact numbers are not modelled.
- `truncDate` and `ceilDate` are assumed to be floor and ceiling to a whole minute, also for instants before the epoch. `vue/src/util/fmt/date.ts` is not part of this model.
- `pkg/tracing/system_handler.go` is not modelled. Its aggregation is ClickHouse SQL text run by the database, its rates and percentages are floating-point, and the Go helpers it calls (`FillHoles`, `TableGroupPeriod`, `isEventSystem`, `DecodeSystemFilter`) are not part of this model.
