/** Requests, bucket keys and durations.  An instant is a number of
    nanoseconds since the Unix epoch, with no location and no monotonic
    reading.  In the code, `UTC()` fixes the location and `Truncate` drops
    the monotonic reading, so comparing two keys with `==` compares their
    times as instants; here two keys are equal exactly when their four
    fields are. */
module RouteKeys {

  type Instant = int

  const MILLISECOND: int := 1_000_000
  const MINUTE: int := 60_000_000_000

  /** The range of Go's `time.Duration`, a signed 64-bit count of nanoseconds. */
  const MIN_DURATION: int := -0x8000_0000_0000_0000
  const MAX_DURATION: int := 0x7fff_ffff_ffff_ffff

  datatype RequestInfo = RequestInfo(
    httpMethod: string, route: string, statusCode: int, start: Instant, end: Instant)

  /** The bucket a request is counted in. */
  datatype RouteKey = RouteKey(httpMethod: string, route: string, statusCode: int, time: Instant)

  /** `t.Truncate(time.Minute)`: `t` rounded down to a whole minute. */
  function TruncateToMinute(t: Instant): (r: Instant)
    ensures r % MINUTE == 0
    ensures r <= t < r + MINUTE
  {
    t - t % MINUTE
  }

  /** The minute boundary at or below an instant is the only one within a
      minute of it, so `TruncateToMinute` is determined by its contract. */
  lemma MinuteBoundaryUnique(t: Instant, b: Instant)
    requires b % MINUTE == 0 && b <= t < b + MINUTE
    ensures TruncateToMinute(t) == b
  {
  }

  /** Two instants lie in the same minute when they have the same number of
      whole minutes since the epoch (rounded toward minus infinity). */
  predicate SameMinute(t: Instant, u: Instant) {
    t / MINUTE == u / MINUTE
  }

  /** The key `NotifyRequest` builds for a request. */
  function KeyOf(req: RequestInfo): (k: RouteKey)
    ensures k.httpMethod == req.httpMethod && k.route == req.route && k.statusCode == req.statusCode
    ensures k.time % MINUTE == 0 && k.time <= req.start < k.time + MINUTE
  {
    RouteKey(req.httpMethod, req.route, req.statusCode, TruncateToMinute(req.start))
  }

  /** Requests share a bucket exactly when method, route and status agree
      and their starts fall in the same minute. */
  lemma KeyOfEqualIff(a: RequestInfo, b: RequestInfo)
    ensures KeyOf(a) == KeyOf(b) <==>
      a.httpMethod == b.httpMethod && a.route == b.route && a.statusCode == b.statusCode
      && SameMinute(a.start, b.start)
  {
  }

  /** `end.Sub(start)`: the difference in nanoseconds, saturated to the
      range of `time.Duration`. */
  function Sub(end: Instant, start: Instant): (d: int)
    ensures MIN_DURATION <= d <= MAX_DURATION
    ensures MIN_DURATION <= end - start <= MAX_DURATION ==> d == end - start
    ensures end - start > MAX_DURATION ==> d == MAX_DURATION
    ensures end - start < MIN_DURATION ==> d == MIN_DURATION
    ensures (d < 0 <==> end < start) && (d == 0 <==> end == start)
  {
    var diff := end - start;
    if diff < MIN_DURATION then MIN_DURATION
    else if diff > MAX_DURATION then MAX_DURATION
    else diff
  }

  /** The sample a request contributes: its duration in milliseconds, with
      exact arithmetic in place of the floating-point division. */
  function DurationMillis(req: RequestInfo): (ms: real)
    ensures ms * MILLISECOND as real == Sub(req.end, req.start) as real
    ensures ms < 0.0 <==> req.end < req.start
    ensures MIN_DURATION as real / MILLISECOND as real <= ms <= MAX_DURATION as real / MILLISECOND as real
  {
    Sub(req.end, req.start) as real / MILLISECOND as real
  }
}
