# Route statistics aggregator, modelled in Dafny

This project models the route-statistics part of the gobrake notifier
(`routes.go`). Each completed HTTP request is counted in a bucket. A bucket
is keyed by method, route template, status code and start minute. Each
bucket keeps a count, a sum and a sum of squares of the request durations in
milliseconds, plus a t-digest (a quantile sketch). Buckets live in a map
that is created lazily together with a flush timer. When the timer fires,
`flush` detaches the map and `send` ships it to the collector in a single
PUT request.

The model is sequential. Every operation is one atomic step.

- `Errors` holds `Option`, `Result` and the error values. `Foreign` is an
  error made by a library and passed on unchanged. `Unauthorized` and
  `UnexpectedStatus` are the errors `send` makes itself. Library and
  transport failures are given as error codes and can only become `Foreign`
  errors, so `Unauthorized` never comes from outside the core.
- `TDigest` is the digest library's contract. A digest is the list of
  samples it has accepted plus a "compressed" flag. A `Library` value says
  which calls of `New`, `Add`, `Compress` and `AsBytes` fail, and which
  bytes `AsBytes` returns.
- `RouteKeys` holds requests and keys, minute truncation, and the duration
  of a request.
- `RouteStatistic` holds the value of a `routeStat` (`StatValue`), the pure
  step `AddSample`, and the class `RouteStat`. `RouteStat.Add` is proved
  against `AddSample`.
- `Reporter` holds the digest loop of `send` as a function over an
  arbitrary visiting order (`DigestPass`), the loop itself as the method
  `Send`, and the status classification.
- `Aggregation` holds the value of the store (`StoreState`), the pure steps
  `InitState`, `FlushState` and `NotifyState`, and the class `RouteStats`.
  Its methods are proved against those steps, and the lemmas about many
  requests are stated over them.

Modelling choices that differ from the code's own types:

- Time is an integer count of nanoseconds since the Unix epoch.
  `Truncate(time.Minute)` rounds down to a multiple of 60 s. Go measures
  that multiple from its zero time, which lies a whole number of minutes
  before the Unix epoch, so the two agree. In Go, `UTC()` sets the location
  and `Truncate` strips the monotonic clock reading. Together they make `==`
  on `routeKey` compare the times as instants. The model's instants carry
  neither a location nor a monotonic reading, so `==` on keys is that same
  comparison.
- Sums are `real`: exact arithmetic in place of `float64`.
- `End.Sub(Start)` saturates to the signed 64-bit range, as Go's
  `Time.Sub` does.
- Go does not specify the iteration order of a map. `Send` picks every next
  key arbitrarily, and all properties of the loop hold for every order.
- A statistic whose digest could not be created stays in the map with a nil
  digest. `send` then calls `Compress` on that nil pointer. The model
  reports this as the outcome `NilDigestPanic`
  (`FailedConstructionLeavesNilDigest` shows the state that leads there).
  `tdigest.New` is always called with the constant compression 20, so
  whether this can happen depends on the library.

## Model

| member | source | states |
|---|---|---|
| `RouteKeys.TruncateToMinute` | routes.go:176 | The key time is a minute boundary: a multiple of a minute with `r <= t < r + 1min`. |
| `RouteKeys.MinuteBoundaryUnique` | routes.go:176 | Truncation gives the only minute boundary within one minute below `t`. |
| `RouteKeys.KeyOf` | routes.go:172-177 | The key copies method, route and status, and its time is the start rounded down to a minute. |
| `RouteKeys.KeyOfEqualIff` | routes.go:172-177 | Two requests get equal keys exactly when method, route and status agree and their starts fall in the same minute. Starts in different minutes never share a key. |
| `RouteKeys.Sub` | routes.go:188 | The duration is `end - start` whenever that fits in 64 bits. Above the range it is exactly the largest duration, below it exactly the smallest. Its sign always matches. |
| `RouteKeys.DurationMillis` | routes.go:188 | The sample is the duration in milliseconds: multiplied by a millisecond it gives back the duration. It is negative exactly when the request ends before it starts, and bounded by the 64-bit range over a millisecond. |
| `RouteStatistic.AddSample` | routes.go:40-53 | One `Add` never touches the serialised bytes, never loses an existing digest, grows the count by 0 or 1, and returns only errors made by the digest library. |
| `RouteStatistic.AddConstructionFailure` | routes.go:40-45 | With no digest and a failing `New`, `Add` returns that error and leaves the statistic unchanged. This is the only case where the count does not grow. |
| `RouteStatistic.AddUpdatesTotals` | routes.go:46-52 | Otherwise `Add` raises count by 1, sum by `ms` and sumsq by `ms*ms`. It keeps a digest and returns exactly the digest's own `Add` error, so the totals are updated even when that call fails. |
| `RouteStatistic.AddSamplesTotals` | routes.go:49-52 | Once a digest exists or can be made, after N adds the count has grown by N. The sum and sum of squares have grown by the sum and sum of squares of the samples, whatever the digest rejected. |
| `RouteStatistic.AddSamplesWithoutDigest` | routes.go:40-45 | If the digest can never be created, no sequence of adds changes the statistic. |
| `RouteStatistic.RouteStat.constructor` | routes.go:183 | A new statistic is zeroed and has no digest. |
| `RouteStatistic.RouteStat.Add` | routes.go:40-53 | The method leaves the object and its result exactly as `AddSample` says. |
| `Reporter.ClassifyStatus` | routes.go:158-168 | A 2xx status gives nil. 401 gives the unauthorized error. Every other status gives the unexpected-status error carrying that status. |
| `Reporter.DigestPass` | routes.go:108-124 | Finishing digests in a given order keeps the set of keys. |
| `Reporter.DigestPassUntouched` | routes.go:108-124 | The loop changes only the statistics it visits. |
| `Reporter.DigestPassSucceedsIff` | routes.go:108-118 | For every visiting order, the loop gets through exactly when every statistic has a digest that compresses and serialises. |
| `Reporter.DigestPassPayload` | routes.go:114-123 | When the loop gets through, the payload has one record per key, in visiting order. Each record holds the statistic with its compressed digest and serialised bytes. Every statistic is updated the same way. |
| `Reporter.DigestPassFailure` | routes.go:108-117 | When the loop stops, it stops at the first failing statistic in visiting order, with that statistic's failure. |
| `Reporter.DigestPassStops` | routes.go:110-117 | After the first failure no further statistic is visited or changed. |
| `Reporter.EntryStepKeepsTotals` | routes.go:109-118 | A loop turn (`EntryStep`) keeps count, sum and sumsq. It reports the nil digest exactly when the statistic has no digest. When it succeeds, the statistic holds a compressed digest and that digest's serialised bytes. |
| `Reporter.Outcome` | routes.go:108-168 | `send` returns nil exactly when all digests are finished and the answer is 2xx. It returns the unauthorized error exactly when all digests are finished and the answer is 401. It panics on a nil digest and on nothing else. Any other non-2xx answer gives the unexpected-status error with that status. A library error, from the digest loop or from the exchange, is returned as it is, and only such errors are foreign. |
| `Reporter.FinishDigest` | routes.go:109-118 | One loop turn changes the statistic and reports a failure exactly as `EntryStep` says. |
| `Reporter.Visit` | routes.go:108-124 | One loop turn extends the digest pass by the visited key and appends that key's record. |
| `Reporter.Send` | routes.go:106-169 | `order` lists every key once. The loop visits its prefix up to the first failure and stops there. The statistics end as `DigestPass` says for that order. A payload exists only when no digest failed, so no request is built after a failure. The result is the digest failure or the classified exchange. |
| `Aggregation.InitState` | routes.go:80-85 | `init` keeps an existing window with all its statistics. It opens an empty window only when map and timer are both absent. It keeps map and timer both present or both absent, and leaves a window open. |
| `Aggregation.InitIdempotent` | routes.go:80-85 | A second `init` changes nothing. |
| `Aggregation.FlushState` | routes.go:87-94 | `flush` hands on exactly the live map, or an empty map when there is none. It leaves neither map nor timer. |
| `Aggregation.NotifyState` | routes.go:171-192 | After a request the window holds the old keys plus the request's key. Every other key's statistic is unchanged. The request's statistic, and the returned error, are what adding its duration to the old (or a zeroed) statistic gives. Map and timer stay both present. |
| `Aggregation.FlushThenNotify` | routes.go:87-94 | The first request after a flush finds an empty window. The window then holds only that request's freshly zeroed and updated statistic. |
| `Aggregation.NotifyAll` | routes.go:171-195 | Any sequence of requests keeps map and timer both present or both absent. |
| `Aggregation.NotifyAllStat` | routes.go:179-192 | After any sequence of requests, each key's statistic is its old one with exactly the durations of that key's requests added in order. Distinct keys never merge. |
| `Aggregation.NotifyAllKeys` | routes.go:179-186 | The window holds its old keys plus the keys of the requests, and no others. |
| `Aggregation.SameBucketTotals` | routes.go:179-192 | When the key's statistic already has a digest or one can be created, N requests with that key in one window raise its count by N, and its sums by the sum and sum of squares of their durations. |
| `Aggregation.UsersScenario` | routes.go:171-195 | Three GET "/users" 200 requests of 10, 20 and 30 ms in one minute give count 3, sum 60 and sumsq 1400. |
| `Aggregation.FailedConstructionLeavesNilDigest` | routes.go:40-45 | When digest creation fails, the first request after a flush leaves a zeroed statistic without a digest. Sending that window hits the nil digest. |
| `Aggregation.RouteStats.constructor` | routes.go:72-78 | A new store has neither map nor timer. |
| `Aggregation.RouteStats.Init` | routes.go:80-85 | The method changes the store exactly as `InitState` says. |
| `Aggregation.RouteStats.Flush` | routes.go:87-100 | The store is left with no window and no timer, holding no statistic. The sealed window is exactly the one that was live. The result is what `send` returns on it. |
| `Aggregation.RouteStats.Resolve` | routes.go:179-186 | The method finds the statistic for the key, or inserts a fresh zeroed one when the key is absent. It leaves every other entry alone. |
| `Aggregation.AddTo` | routes.go:190-192 | Adding the sample changes only the statistic under its key. |
| `Aggregation.RouteStats.NotifyRequest` | routes.go:171-195 | The method changes the store and returns the error exactly as `NotifyState` says. Every statistic it adds is fresh, so statistics detached by an earlier flush are never reached again. |

## Left out

- Locking (`sync.Mutex` on the store and on each statistic) and the race between producers and the timer goroutine: every operation is one atomic step.
- `time.AfterFunc` and the 15-second `flushPeriod`: the timer is a flag, and `Flush` is an operation anyone may call.
- The t-digest's internals: the digest is its list of accepted samples, and which calls fail is a parameter. The model assumes a failing `Add` or `Compress` leaves the digest as it was.
- The `float64` division of the duration by `time.Millisecond`, and all floating-point rounding: durations are exact reals.
- Go's monotonic clock reading, which `Sub` prefers when both times carry one: instants are single numbers.
- JSON encoding, the `buffers` pool, `http.NewRequest`, the headers, `HTTPClient.Do`, reading the body and `logger.Printf`: together they are the `Exchange` parameter, a library error or a response status. The unexpected-status error carries the status code, not the status text.
- Building `apiURL` with `fmt.Sprintf`, and the `opt` options: the constructor takes no options.
- `Count` is an unbounded integer, so 64-bit overflow is not modelled.
- `Aggregation.NotifyState` requires map and timer to be both present or both absent. Every reachable store is in that state (`RouteStats.Valid`). With a timer but no map, `init` does nothing and the insertion panics on the nil map. With a map but no timer, `init` also does nothing and requests pile up in a window that no timer will flush.
- `Reporter.Send` requires distinct keys to map to distinct statistics. Every map the store hands to `send` has that property, because the store inserts a new statistic for each new key.
