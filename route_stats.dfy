/** The aggregation store `routeStats`: a window of statistics (a map that
    exists only while a window is open) and the flush timer, armed exactly
    while the window exists.  Locking is left out: `init`, `flush` and
    `NotifyRequest` are each one atomic step, and the timer is a flag. */
module Aggregation {
  import opened Errors
  import opened TDigest
  import opened RouteKeys
  import opened RouteStatistic
  import opened Reporter

  /** The value of the store: the live window, if any, and whether the flush
      timer is armed. */
  datatype StoreState = StoreState(m: Option<map<RouteKey, StatValue>>, armed: bool)

  const EMPTY: StoreState := StoreState(None, false)

  /** The window and the timer are both present or both absent. */
  predicate Consistent(s: StoreState) {
    s.m.Some? <==> s.armed
  }

  /** The statistic a key has in a state; a key without one reads as a
      zeroed statistic. */
  function StatOf(s: StoreState, k: RouteKey): StatValue {
    if s.m.Some? && k in s.m.value then s.m.value[k] else ZERO
  }

  function LiveKeys(s: StoreState): set<RouteKey> {
    if s.m.Some? then s.m.value.Keys else {}
  }

  /** `routeStats.init`: open an empty window and arm the timer when neither
      exists. */
  function InitState(s: StoreState): (r: StoreState)
    ensures Consistent(s) ==> Consistent(r) && r.m.Some?
    ensures s.m.Some? || s.armed ==> r == s
    ensures s.m.None? && !s.armed ==> r.m == Some(map[])
  {
    if s.m.None? && !s.armed then StoreState(Some(map[]), true) else s
  }

  /** A second `init` changes nothing. */
  lemma InitIdempotent(s: StoreState)
    ensures InitState(InitState(s)) == InitState(s)
  {
  }

  /** `routeStats.flush`, up to the hand-off: the store is left with no
      window and no timer, and the window that was live is handed on (a
      missing window iterates like an empty map). */
  function FlushState(s: StoreState): (r: (StoreState, map<RouteKey, StatValue>))
    ensures Consistent(r.0) && r.0.m.None? && !r.0.armed
    ensures s.m.Some? ==> r.1 == s.m.value
    ensures s.m.None? ==> r.1 == map[]
  {
    (EMPTY, if s.m.Some? then s.m.value else map[])
  }

  /** `routeStats.NotifyRequest`: open a window if needed, insert a zeroed
      statistic for the request's key if it has none, and add the request's
      duration to that statistic. */
  function NotifyState(lib: Library, s: StoreState, req: RequestInfo): (r: (StoreState, Option<Error>))
    requires Consistent(s)
    ensures Consistent(r.0) && r.0.m.Some?
    ensures r.0.m.value.Keys == LiveKeys(s) + {KeyOf(req)}
    ensures forall k :: k in r.0.m.value && k != KeyOf(req) ==> r.0.m.value[k] == s.m.value[k]
    ensures (r.0.m.value[KeyOf(req)], r.1) == AddSample(lib, StatOf(s, KeyOf(req)), DurationMillis(req))
  {
    var w := InitState(s);
    var key := KeyOf(req);
    var stat := if key in w.m.value then w.m.value[key] else ZERO;
    var (stat', err) := AddSample(lib, stat, DurationMillis(req));
    (StoreState(Some(w.m.value[key := stat']), w.armed), err)
  }

  /** After a flush the next request finds an empty window: the only
      statistic in it is the one for its own key, freshly zeroed. */
  lemma FlushThenNotify(lib: Library, s: StoreState, req: RequestInfo)
    ensures var (r, err) := NotifyState(lib, FlushState(s).0, req);
      && r.m.value.Keys == {KeyOf(req)}
      && (r.m.value[KeyOf(req)], err) == AddSample(lib, ZERO, DurationMillis(req))
  {
  }

  /** The store after a sequence of requests, one `NotifyRequest` each. */
  function NotifyAll(lib: Library, s: StoreState, reqs: seq<RequestInfo>): (r: StoreState)
    requires Consistent(s)
    ensures Consistent(r)
    decreases |reqs|
  {
    if reqs == [] then s else NotifyAll(lib, NotifyState(lib, s, reqs[0]).0, reqs[1..])
  }

  /** The durations of the requests that fall in bucket `k`, in order. */
  function Matching(reqs: seq<RequestInfo>, k: RouteKey): seq<real> {
    if reqs == [] then []
    else (if KeyOf(reqs[0]) == k then [DurationMillis(reqs[0])] else []) + Matching(reqs[1..], k)
  }

  /** The keys of a sequence of requests. */
  function KeysOf(reqs: seq<RequestInfo>): set<RouteKey> {
    if reqs == [] then {} else {KeyOf(reqs[0])} + KeysOf(reqs[1..])
  }

  /** Every bucket's statistic sees exactly the requests with its key: a
      sequence of requests leaves each key's statistic as if just that key's
      durations had been added to it in order.  Distinct keys never merge,
      and a key no request mentions is untouched. */
  lemma {:induction false} NotifyAllStat(lib: Library, s: StoreState, reqs: seq<RequestInfo>, k: RouteKey)
    requires Consistent(s)
    ensures StatOf(NotifyAll(lib, s, reqs), k) == AddSamples(lib, StatOf(s, k), Matching(reqs, k))
    decreases |reqs|
  {
    if reqs != [] {
      var s1 := NotifyState(lib, s, reqs[0]).0;
      NotifyAllStat(lib, s1, reqs[1..], k);
      if KeyOf(reqs[0]) == k {
        assert StatOf(s1, k) == AddSample(lib, StatOf(s, k), DurationMillis(reqs[0])).0;
        assert Matching(reqs, k) == [DurationMillis(reqs[0])] + Matching(reqs[1..], k);
      } else {
        assert StatOf(s1, k) == StatOf(s, k);
        assert Matching(reqs, k) == Matching(reqs[1..], k);
      }
    }
  }

  /** The window after a sequence of requests holds the keys it held before
      and the keys of the requests, and no others. */
  lemma {:induction false} NotifyAllKeys(lib: Library, s: StoreState, reqs: seq<RequestInfo>)
    requires Consistent(s)
    ensures LiveKeys(NotifyAll(lib, s, reqs)) == LiveKeys(s) + KeysOf(reqs)
    ensures reqs != [] ==> NotifyAll(lib, s, reqs).m.Some?
    decreases |reqs|
  {
    if reqs != [] {
      var s1 := NotifyState(lib, s, reqs[0]).0;
      NotifyAllKeys(lib, s1, reqs[1..]);
      if reqs[1..] == [] {
        assert NotifyAll(lib, s1, reqs[1..]) == s1;
      }
    }
  }

  /** With a digest library whose constructor succeeds, N requests with the
      same key in one window give that key's statistic a count of N, the sum
      of their durations and the sum of their squares. */
  lemma SameBucketTotals(lib: Library, s: StoreState, reqs: seq<RequestInfo>, k: RouteKey)
    requires Consistent(s) && (StatOf(s, k).td.Some? || New(lib).Ok?)
    requires forall i :: 0 <= i < |reqs| ==> KeyOf(reqs[i]) == k
    ensures var r := StatOf(NotifyAll(lib, s, reqs), k);
      && r.count == StatOf(s, k).count + |reqs|
      && r.sum == StatOf(s, k).sum + Sum(Matching(reqs, k))
      && r.sumsq == StatOf(s, k).sumsq + SumSq(Matching(reqs, k))
  {
    NotifyAllStat(lib, s, reqs, k);
    AllMatch(reqs, k);
    AddSamplesTotals(lib, StatOf(s, k), Matching(reqs, k));
  }

  lemma {:induction false} AllMatch(reqs: seq<RequestInfo>, k: RouteKey)
    requires forall i :: 0 <= i < |reqs| ==> KeyOf(reqs[i]) == k
    ensures |Matching(reqs, k)| == |reqs|
    decreases |reqs|
  {
    if reqs != [] {
      assert forall i :: 0 <= i < |reqs[1..]| ==> KeyOf(reqs[1..][i]) == k by {
        forall i | 0 <= i < |reqs[1..]| ensures KeyOf(reqs[1..][i]) == k {
          assert reqs[1..][i] == reqs[i + 1];
        }
      }
      AllMatch(reqs[1..], k);
    }
  }

  /** Three GET requests for "/users" answered 200 within one minute, taking
      10, 20 and 30 ms, leave a statistic with count 3, sum 60 and sum of
      squares 1400. */
  lemma UsersScenario(lib: Library, t0: Instant)
    requires New(lib).Ok? && t0 % MINUTE == 0
    ensures var reqs := [
        RequestInfo("GET", "/users", 200, t0, t0 + 10 * MILLISECOND),
        RequestInfo("GET", "/users", 200, t0 + 1, t0 + 1 + 20 * MILLISECOND),
        RequestInfo("GET", "/users", 200, t0 + 2, t0 + 2 + 30 * MILLISECOND)];
      var r := StatOf(NotifyAll(lib, EMPTY, reqs), RouteKey("GET", "/users", 200, t0));
      r.count == 3 && r.sum == 60.0 && r.sumsq == 1400.0
  {
    var reqs := [
      RequestInfo("GET", "/users", 200, t0, t0 + 10 * MILLISECOND),
      RequestInfo("GET", "/users", 200, t0 + 1, t0 + 1 + 20 * MILLISECOND),
      RequestInfo("GET", "/users", 200, t0 + 2, t0 + 2 + 30 * MILLISECOND)];
    var k := RouteKey("GET", "/users", 200, t0);
    forall i | 0 <= i < 3 ensures KeyOf(reqs[i]) == k {
      MinuteBoundaryUnique(reqs[i].start, t0);
    }
    SameBucketTotals(lib, EMPTY, reqs, k);
    assert DurationMillis(reqs[0]) == 10.0;
    assert DurationMillis(reqs[1]) == 20.0;
    assert DurationMillis(reqs[2]) == 30.0;
    assert Matching(reqs[2..], k) == [30.0] by {
      assert reqs[2..][1..] == [];
    }
    assert Matching(reqs[1..], k) == [20.0, 30.0] by {
      assert reqs[1..][1..] == reqs[2..];
    }
    assert Matching(reqs, k) == [10.0, 20.0, 30.0];
    assert Sum([10.0, 20.0, 30.0]) == 60.0 by {
      assert [10.0, 20.0, 30.0][1..] == [20.0, 30.0];
      assert [20.0, 30.0][1..] == [30.0];
    }
    assert SumSq([10.0, 20.0, 30.0]) == 1400.0 by {
      assert [10.0, 20.0, 30.0][1..] == [20.0, 30.0];
      assert [20.0, 30.0][1..] == [30.0];
    }
  }

  /** A statistic whose digest could not be created stays in the window with
      no digest; sending that window then calls `Compress` through a nil
      pointer. */
  lemma FailedConstructionLeavesNilDigest(lib: Library, s: StoreState, req: RequestInfo)
    requires New(lib).Err?
    ensures var r := NotifyState(lib, FlushState(s).0, req).0;
      && r.m.value == map[KeyOf(req) := ZERO]
      && DigestPass(lib, [KeyOf(req)], r.m.value).failure == Some(NilDigest)
  {
  }

  /** A `routeStats` object. */
  class RouteStats {
    var m: Option<map<RouteKey, RouteStat>>
    var flushTimer: bool

    /** The statistics reachable from the live window. */
    ghost function Stats(): set<RouteStat>
      reads this
    {
      if m.Some? then m.value.Values else {}
    }

    ghost predicate Valid()
      reads this
    {
      && (m.Some? <==> flushTimer)
      && (m.Some? ==> Injective(m.value))
    }

    ghost function State(): StoreState
      reads this, Stats()
    {
      StoreState(if m.Some? then Some(ValuesOf(m.value)) else None, flushTimer)
    }

    /** `newRouteStats`: no window and no timer yet. */
    constructor ()
      ensures Valid() && State() == EMPTY && Stats() == {}
    {
      m := None;
      flushTimer := false;
    }

    method Init()
      requires Valid()
      modifies this
      ensures Valid()
      ensures State() == InitState(old(State()))
      ensures Stats() == old(Stats())
    {
      if m.None? && !flushTimer {
        m := Some(map[]);
        flushTimer := true;
        assert ValuesOf(m.value) == map[];
      }
    }

    /** `routeStats.flush`: detach the window, clear both fields, and send
      the detached window.  The result is what `flush` logs.  No statistic
      stays reachable from the store. */
    method Flush(lib: Library, ex: Exchange)
      returns (result: SendResult, ghost sealed: map<RouteKey, StatValue>, ghost order: seq<RouteKey>)
      requires Valid()
      modifies this, Stats()
      ensures Valid() && Stats() == {}
      ensures (State(), sealed) == FlushState(old(State()))
      ensures Distinct(order) && forall k :: k in order <==> k in sealed
      ensures result == Outcome(DigestPass(lib, order, sealed).failure, ex)
    {
      ghost var s0 := State();
      var detached := if m.Some? then m.value else map[];
      sealed := ValuesOf(detached);
      assert FlushState(s0) == (EMPTY, sealed);
      m := None;
      flushTimer := false;
      assert State() == EMPTY;
      assert ValuesOf(detached) == sealed;
      var payload;
      result, payload, order := Send(lib, detached, ex);
      assert State() == EMPTY;
    }

    /** The part of `NotifyRequest` under the store lock, once `init` has
      run: find the statistic for `key`, inserting a zeroed one when the
      window has none. */
    method Resolve(key: RouteKey) returns (stat: RouteStat)
      requires Valid() && m.Some?
      modifies this
      ensures Valid() && m.Some? && key in m.value && m.value[key] == stat
      ensures State() == StoreState(Some(old(State()).m.value[key := StatOf(old(State()), key)]), true)
      ensures old(Stats()) <= Stats() && Stats() <= old(Stats()) + {stat}
      ensures stat !in old(Stats()) ==> fresh(stat)
    {
      var live := m.value;
      ghost var w := ValuesOf(live);
      if key in live {
        stat := live[key];
        assert w[key := StatOf(State(), key)] == w;
      } else {
        stat := new RouteStat();
        ValuesInsert(live, key, stat);
        live := live[key := stat];
        m := Some(live);
        assert ValuesOf(live) == w[key := ZERO];
      }
    }

    /** `routeStats.NotifyRequest(req)`.  A statistic is created only for a
      key the window lacks; the statistics of other keys are untouched. */
    method NotifyRequest(lib: Library, req: RequestInfo) returns (err: Option<Error>)
      requires Valid()
      modifies this, Stats()
      ensures Valid()
      ensures (State(), err) == NotifyState(lib, old(State()), req)
      ensures old(Stats()) <= Stats()
      ensures forall st :: st in Stats() - old(Stats()) ==> fresh(st)
    {
      ghost var s0 := State();
      var key := KeyOf(req);
      Init();
      var stat := Resolve(key);
      ghost var prior := State().m.value;
      var ms := DurationMillis(req);
      // `stat` is the map's entry for `key`; the sample goes in through the
      // map so that `AddTo` can show every other entry keeps its value.
      err := AddTo(lib, m.value, key, ms);
      NotifyComposes(lib, s0, req, prior, ValuesOf(m.value), err);
    }
  }

  /** The three steps of `NotifyRequest` (open the window, resolve the
      statistic, add the sample) together make one `NotifyState` step. */
  lemma NotifyComposes(lib: Library, s0: StoreState, req: RequestInfo,
                       prior: map<RouteKey, StatValue>, final: map<RouteKey, StatValue>, err: Option<Error>)
    requires Consistent(s0)
    requires prior == InitState(s0).m.value[KeyOf(req) := StatOf(InitState(s0), KeyOf(req))]
    requires KeyOf(req) in final
    requires (final[KeyOf(req)], err) == AddSample(lib, prior[KeyOf(req)], DurationMillis(req))
    requires final == prior[KeyOf(req) := final[KeyOf(req)]]
    ensures (StoreState(Some(final), true), err) == NotifyState(lib, s0, req)
  {
    var key := KeyOf(req);
    var w := InitState(s0).m.value;
    var stat := if key in w then w[key] else ZERO;
    assert stat == StatOf(InitState(s0), key) == StatOf(s0, key);
    assert final == w[key := final[key]];
    assert NotifyState(lib, s0, req) == (StoreState(Some(w[key := final[key]]), true), err);
  }

  /** Inserting a statistic under a new key adds just it to the values. */
  lemma ValuesInsert(live: map<RouteKey, RouteStat>, key: RouteKey, stat: RouteStat)
    requires key !in live
    ensures live[key := stat].Values == live.Values + {stat}
  {
    var live' := live[key := stat];
    forall v | v in live'.Values ensures v in live.Values || v == stat {
      var j :| j in live' && live'[j] == v;
      if j != key {
        assert live[j] == v;
      }
    }
    forall v | v in live.Values ensures v in live'.Values {
      var j :| j in live && live[j] == v;
      assert live'[j] == v;
    }
    assert live'[key] == stat;
  }

  /** The part of `NotifyRequest` under the statistic's own lock: add the
      sample to the statistic under `key`, leaving the others alone. */
  method AddTo(lib: Library, live: map<RouteKey, RouteStat>, key: RouteKey, ms: real)
    returns (err: Option<Error>)
    requires Injective(live) && key in live
    modifies live[key]
    ensures (ValuesOf(live)[key], err) == AddSample(lib, old(ValuesOf(live))[key], ms)
    ensures ValuesOf(live) == old(ValuesOf(live))[key := ValuesOf(live)[key]]
  {
    var stat := live[key];
    ghost var before := ValuesOf(live);
    err := stat.Add(lib, ms);
    forall j | j in live
      ensures ValuesOf(live)[j] == before[key := stat.Value()][j]
    {
      if j != key {
        assert live[j] != stat;
      }
    }
  }
}
