/** The per-bucket accumulator `routeStat`: a count, a running sum and sum
    of squares of the samples (durations in milliseconds), the serialised
    digest filled in at send time, and a digest created on first use. */
module RouteStatistic {
  import opened Errors
  import opened TDigest

  /** The value of a `routeStat` at one moment. */
  datatype StatValue = StatValue(
    count: int, sum: real, sumsq: real, tdigest: Bytes, td: Option<Digest>)

  /** A freshly inserted `&routeStat{}`. */
  const ZERO: StatValue := StatValue(0, 0.0, 0.0, [], None)

  /** `routeStat.Add(ms)`: the new value of the statistic and the error it
      returns.  A missing digest is created first; if that fails nothing else
      happens.  Otherwise the scalar aggregates are updated before the digest
      sees the sample, so they stay updated when the digest rejects it. */
  function AddSample(lib: Library, s: StatValue, ms: real): (r: (StatValue, Option<Error>))
    ensures r.0.tdigest == s.tdigest
    ensures s.td.Some? ==> r.0.td.Some?
    ensures r.0.count == s.count || r.0.count == s.count + 1
    ensures r.1.Some? ==> r.1.value.Foreign?
  {
    var created := if s.td.Some? then Ok(s.td.value) else New(lib);
    match created
    case Err(e) => (s, Some(e))
    case Ok(d) =>
      var (d', err) := TDigest.Add(lib, d, ms);
      (StatValue(s.count + 1, s.sum + ms, s.sumsq + ms * ms, s.tdigest, Some(d')), err)
  }

  /** If there is no digest yet and creating one fails, `Add` returns that error
      and leaves the statistic as it was; that is the only way it leaves the
      count unchanged. */
  lemma AddConstructionFailure(lib: Library, s: StatValue, ms: real)
    ensures AddSample(lib, s, ms).0.count == s.count <==> s.td.None? && New(lib).Err?
    ensures s.td.None? && New(lib).Err? ==> AddSample(lib, s, ms) == (s, Some(New(lib).error))
  {
  }

  /** Otherwise `Add` counts the sample once, adds it to the sum and its square
      to the sum of squares, leaves a digest in place, and returns exactly the
      error of the digest's own `Add`. */
  lemma AddUpdatesTotals(lib: Library, s: StatValue, ms: real)
    requires s.td.Some? || New(lib).Ok?
    ensures var (r, err) := AddSample(lib, s, ms);
      && r.count == s.count + 1 && r.sum == s.sum + ms && r.sumsq == s.sumsq + ms * ms
      && r.tdigest == s.tdigest && r.td.Some?
      && var d := if s.td.Some? then s.td.value else New(lib).value;
         r.td == Some(TDigest.Add(lib, d, ms).0) && err == TDigest.Add(lib, d, ms).1
  {
  }

  /** Reference definitions of the totals of a list of samples. */
  function Sum(xs: seq<real>): real {
    if xs == [] then 0.0 else xs[0] + Sum(xs[1..])
  }

  function SumSq(xs: seq<real>): real {
    if xs == [] then 0.0 else xs[0] * xs[0] + SumSq(xs[1..])
  }

  /** The statistic after `Add` has been called with each sample in turn,
      whatever errors those calls returned. */
  function AddSamples(lib: Library, s: StatValue, xs: seq<real>): StatValue
    decreases |xs|
  {
    if xs == [] then s else AddSamples(lib, AddSample(lib, s, xs[0]).0, xs[1..])
  }

  /** Once a digest exists or can be created, the count is the number of
      samples added and the sums are their sum and sum of squares, even when
      the digest rejected some of them. */
  lemma {:induction false} AddSamplesTotals(lib: Library, s: StatValue, xs: seq<real>)
    requires s.td.Some? || New(lib).Ok?
    ensures var r := AddSamples(lib, s, xs);
      && r.count == s.count + |xs|
      && r.sum == s.sum + Sum(xs)
      && r.sumsq == s.sumsq + SumSq(xs)
      && r.tdigest == s.tdigest
      && (r.td.Some? <==> s.td.Some? || xs != [])
    decreases |xs|
  {
    if xs != [] {
      var s1 := AddSample(lib, s, xs[0]).0;
      AddUpdatesTotals(lib, s, xs[0]);
      AddSamplesTotals(lib, s1, xs[1..]);
    }
  }

  /** When the digest cannot be created, no number of calls changes the
      statistic. */
  lemma {:induction false} AddSamplesWithoutDigest(lib: Library, s: StatValue, xs: seq<real>)
    requires s.td.None? && New(lib).Err?
    ensures AddSamples(lib, s, xs) == s
    decreases |xs|
  {
    if xs != [] {
      AddConstructionFailure(lib, s, xs[0]);
      AddSamplesWithoutDigest(lib, s, xs[1..]);
    }
  }

  /** A `routeStat` object.  The mutex is left out: each method is one
      atomic step. */
  class RouteStat {
    var count: int
    var sum: real
    var sumsq: real
    var tdigest: Bytes
    var td: Option<Digest>

    /** `&routeStat{}`. */
    constructor ()
      ensures Value() == ZERO
    {
      count, sum, sumsq, tdigest, td := 0, 0.0, 0.0, [], None;
    }

    function Value(): StatValue
      reads this
    {
      StatValue(count, sum, sumsq, tdigest, td)
    }

    method Add(lib: Library, ms: real) returns (err: Option<Error>)
      modifies this
      ensures (Value(), err) == AddSample(lib, old(Value()), ms)
    {
      if td.None? {
        var created := New(lib);
        if created.Err? {
          return Some(created.error);
        }
        td := Some(created.value);
      }
      count := count + 1;
      sum := sum + ms;
      sumsq := sumsq + ms * ms;
      var (d, e) := TDigest.Add(lib, td.value, ms);
      td := Some(d);
      err := e;
    }
  }

  /** Distinct keys hold distinct statistics. */
  ghost predicate Injective<K>(m: map<K, RouteStat>) {
    forall k1, k2 :: k1 in m && k2 in m && k1 != k2 ==> m[k1] != m[k2]
  }

  /** The values of the statistics a map refers to. */
  ghost function ValuesOf<K>(m: map<K, RouteStat>): (r: map<K, StatValue>)
    reads m.Values
    ensures r.Keys == m.Keys
    ensures forall k :: k in m ==> r[k] == m[k].Value()
  {
    map k | k in m :: m[k].Value()
  }
}
