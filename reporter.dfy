/** `routeStats.send`: finish every statistic's digest, then ship all of them
    in one request and read the response status.  JSON encoding, building
    the request and the HTTP exchange happen outside the core; their outcome
    is an `Exchange` value. */
module Reporter {
  import opened Errors
  import opened TDigest
  import opened RouteKeys
  import opened RouteStatistic

  /** One element of the payload: a key with its statistic. */
  datatype RouteKeyStat = RouteKeyStat(key: RouteKey, stat: StatValue)

  /** Why the digest pass stopped: a library error (identified by its code),
      or a statistic that has no digest (its creation failed), on which
      `Compress` is called through a nil pointer. */
  datatype Failure = DigestFailed(code: nat) | NilDigest

  /** How the part of `send` outside the core ends: an error from encoding,
      building the request, the client or reading the body (a library error,
      identified by its code), or a response with its status code. */
  datatype Exchange = TransportFailed(code: nat) | Responded(status: int)

  /** What `send` ends in: nil, an error, or the nil-pointer call. */
  datatype SendResult = Delivered | Failed(error: Error) | NilDigestPanic

  /** The response-status decision at the end of `send`. */
  function ClassifyStatus(status: int): (r: Option<Error>)
    ensures r.None? <==> 200 <= status < 300
    ensures r == Some(Unauthorized) <==> status == 401
    ensures r.Some? && status != 401 ==> r == Some(UnexpectedStatus(status))
  {
    if 200 <= status < 300 then None
    else if status == 401 then Some(Unauthorized)
    else Some(UnexpectedStatus(status))
  }

  /** The loop body of `send` for one statistic: compress the digest, then
      serialise it into the statistic's `TDigest` bytes. */
  function EntryStep(lib: Library, v: StatValue): (StatValue, Option<Failure>) {
    match v.td
    case None => (v, Some(NilDigest))
    case Some(d) =>
      match Compress(lib, d)
      case Err(e) => (v, Some(DigestFailed(e.code)))
      case Ok(d1) =>
        match AsBytes(lib, d1)
        case Err(e) => (v.(td := Some(d1)), Some(DigestFailed(e.code)))
        case Ok(b) => (v.(td := Some(d1), tdigest := b), None)
  }

  /** A loop turn keeps the statistic's count, sum and sum of squares; it
      reports the nil digest exactly for a statistic without a digest; and
      when it succeeds the statistic holds a compressed digest and that
      digest's serialised bytes. */
  lemma EntryStepKeepsTotals(lib: Library, v: StatValue)
    ensures var (r, f) := EntryStep(lib, v);
      && r.count == v.count && r.sum == v.sum && r.sumsq == v.sumsq
      && (f == Some(NilDigest) <==> v.td.None?)
      && (f.None? ==> r.td.Some? && r.td.value.compressed && r.tdigest == lib.encode(r.td.value))
  {
  }

  /** What the loop has done after visiting the keys of `order`: the values of
      the statistics, the payload built so far, and the failure that stopped
      it, if any. */
  datatype PassResult = PassResult(
    stats: map<RouteKey, StatValue>, routes: seq<RouteKeyStat>, failure: Option<Failure>)

  /** The digest loop of `send`, visiting keys in the order `order` and
      stopping at the first failure.  Go's map iteration order is not
      specified, so everything proved below holds for every order. */
  function DigestPass(lib: Library, order: seq<RouteKey>, stats: map<RouteKey, StatValue>): (p: PassResult)
    requires forall k :: k in order ==> k in stats
    ensures p.stats.Keys == stats.Keys
    decreases |order|
  {
    if order == [] then PassResult(stats, [], None)
    else
      var p := DigestPass(lib, order[..|order| - 1], stats);
      if p.failure.Some? then p else Advance(lib, p, order[|order| - 1])
  }

  /** One turn of the loop on key `k`: finish its statistic, append its
      record and note the failure, if any. */
  function Advance(lib: Library, p: PassResult, k: RouteKey): (r: PassResult)
    requires k in p.stats
    ensures r.stats.Keys == p.stats.Keys
  {
    var (v, f) := EntryStep(lib, p.stats[k]);
    PassResult(p.stats[k := v], p.routes + [RouteKeyStat(k, v)], f)
  }

  /** The loop changes only the statistics it visits. */
  lemma {:induction false} DigestPassUntouched(lib: Library, order: seq<RouteKey>, stats: map<RouteKey, StatValue>, k: RouteKey)
    requires forall k :: k in order ==> k in stats
    requires k in stats && k !in order
    ensures DigestPass(lib, order, stats).stats[k] == stats[k]
    decreases |order|
  {
    if order != [] {
      var init := order[..|order| - 1];
      assert forall j :: j in init ==> j in order;
      DigestPassUntouched(lib, init, stats, k);
    }
  }

  predicate Distinct(order: seq<RouteKey>) {
    forall i, j :: 0 <= i < j < |order| ==> order[i] != order[j]
  }

  /** The loop gets through every key exactly when every statistic has a
      digest that compresses and serialises. */
  lemma {:induction false} DigestPassSucceedsIff(lib: Library, order: seq<RouteKey>, stats: map<RouteKey, StatValue>)
    requires forall k :: k in order ==> k in stats
    requires Distinct(order)
    ensures DigestPass(lib, order, stats).failure.None? <==>
      forall i :: 0 <= i < |order| ==> EntryStep(lib, stats[order[i]]).1.None?
    decreases |order|
  {
    if order != [] {
      var init := order[..|order| - 1];
      var k := order[|order| - 1];
      assert k !in init;
      assert forall j :: j in init ==> j in order;
      forall i | 0 <= i < |init| ensures init[i] == order[i] { }
      DigestPassSucceedsIff(lib, init, stats);
      DigestPassUntouched(lib, init, stats, k);
      var p := DigestPass(lib, init, stats);
      if p.failure.None? {
        assert DigestPass(lib, order, stats).failure == EntryStep(lib, stats[k]).1;
      }
    }
  }

  /** When the loop gets through, the payload has one record per key, in
      visiting order, each holding the statistic with its compressed digest
      and serialised bytes, and every visited statistic has been updated. */
  lemma {:induction false} DigestPassPayload(lib: Library, order: seq<RouteKey>, stats: map<RouteKey, StatValue>)
    requires forall k :: k in order ==> k in stats
    requires Distinct(order)
    requires DigestPass(lib, order, stats).failure.None?
    ensures var p := DigestPass(lib, order, stats);
      && |p.routes| == |order|
      && (forall i :: 0 <= i < |order| ==>
            p.routes[i] == RouteKeyStat(order[i], EntryStep(lib, stats[order[i]]).0))
      && (forall k :: k in order ==> p.stats[k] == EntryStep(lib, stats[k]).0)
    decreases |order|
  {
    if order != [] {
      var init := order[..|order| - 1];
      var k := order[|order| - 1];
      assert k !in init;
      assert forall j :: j in init ==> j in order;
      forall i | 0 <= i < |init| ensures init[i] == order[i] { }
      var p := DigestPass(lib, init, stats);
      assert p.failure.None?;
      DigestPassPayload(lib, init, stats);
      DigestPassUntouched(lib, init, stats, k);
    }
  }

  /** When the loop stops early, it stops at the first visited key whose
      statistic fails (the one at index `i`), with that statistic's failure. */
  lemma {:induction false} DigestPassFailure(lib: Library, order: seq<RouteKey>, stats: map<RouteKey, StatValue>)
    returns (i: nat)
    requires forall k :: k in order ==> k in stats
    requires Distinct(order)
    requires DigestPass(lib, order, stats).failure.Some?
    ensures i < |order|
    ensures EntryStep(lib, stats[order[i]]).1 == DigestPass(lib, order, stats).failure
    ensures forall j :: 0 <= j < i ==> EntryStep(lib, stats[order[j]]).1.None?
    decreases |order|
  {
    var init := order[..|order| - 1];
    var k := order[|order| - 1];
    assert forall j :: j in init ==> j in order;
    var p := DigestPass(lib, init, stats);
    if p.failure.Some? {
      i := DigestPassFailure(lib, init, stats);
      assert init[i] == order[i];
      forall j | 0 <= j < i ensures EntryStep(lib, stats[order[j]]).1.None? {
        assert init[j] == order[j];
      }
    } else {
      assert k !in init;
      DigestPassSucceedsIff(lib, init, stats);
      DigestPassUntouched(lib, init, stats, k);
      i := |order| - 1;
      forall j | 0 <= j < i ensures EntryStep(lib, stats[order[j]]).1.None? {
        assert init[j] == order[j];
      }
    }
  }

  /** Nothing after the first failure is visited: once the pass over the
      first `n` keys has failed, the pass over the whole order is that one. */
  lemma {:induction false} DigestPassStops(lib: Library, order: seq<RouteKey>, n: nat, stats: map<RouteKey, StatValue>)
    requires forall k :: k in order ==> k in stats
    requires n <= |order|
    requires DigestPass(lib, order[..n], stats).failure.Some?
    ensures DigestPass(lib, order, stats) == DigestPass(lib, order[..n], stats)
    decreases |order|
  {
    if n < |order| {
      var init := order[..|order| - 1];
      assert init[..n] == order[..n];
      assert forall k :: k in init ==> k in order;
      DigestPassStops(lib, init, n, stats);
    } else {
      assert order[..n] == order;
    }
  }

  /** What `send` returns, given how the digest loop ended and how the
      exchange with the collector went.  A digest failure ends `send` before
      any request exists.  `send` succeeds exactly when every digest is
      finished and the collector answers 2xx; the unauthorized error arises
      from a 401 answer and from nothing else; any other answer carries its
      status; and errors made outside the core are passed on as they are. */
  function Outcome(failure: Option<Failure>, ex: Exchange): (r: SendResult)
    ensures r == Delivered <==> failure.None? && ex.Responded? && 200 <= ex.status < 300
    ensures r == Failed(Unauthorized) <==> failure.None? && ex == Responded(401)
    ensures r == NilDigestPanic <==> failure == Some(NilDigest)
    ensures failure.None? && ex.Responded? && !(200 <= ex.status < 300) && ex.status != 401 ==>
      r == Failed(UnexpectedStatus(ex.status))
    ensures r.Failed? && r.error.Foreign? <==>
      (failure.Some? && failure.value.DigestFailed?) || (failure.None? && ex.TransportFailed?)
    ensures failure.Some? && failure.value.DigestFailed? ==> r == Failed(Foreign(failure.value.code))
    ensures failure.None? && ex.TransportFailed? ==> r == Failed(Foreign(ex.code))
  {
    match failure
    case Some(NilDigest) => NilDigestPanic
    case Some(DigestFailed(c)) => Failed(Foreign(c))
    case None =>
      match ex
      case TransportFailed(c) => Failed(Foreign(c))
      case Responded(status) =>
        match ClassifyStatus(status)
        case None => Delivered
        case Some(e) => Failed(e)
  }

  /** An enumeration of a finite set of keys. */
  ghost function Enumerate(s: set<RouteKey>): (r: seq<RouteKey>)
    ensures Distinct(r)
    ensures forall k :: k in r <==> k in s
    decreases s
  {
    if s == {} then []
    else
      var k :| k in s;
      var rest := Enumerate(s - {k});
      assert forall i :: 0 <= i < |rest| ==> rest[i] != k;
      [k] + rest
  }

  /** Appending the keys still to visit to those visited gives an
      enumeration of all of them. */
  lemma ExtendEnumeration(order: seq<RouteKey>, k: RouteKey, rest: seq<RouteKey>, remaining: set<RouteKey>)
    requires Distinct(order) && k in remaining
    requires forall j :: j in remaining ==> j !in order
    requires Distinct(rest) && forall j :: j in rest <==> j in remaining - {k}
    ensures Distinct(order + [k] + rest)
    ensures forall j :: j in order + [k] + rest <==> j in order || j in remaining
  {
    var all := order + [k] + rest;
    forall i, j | 0 <= i < j < |all| ensures all[i] != all[j] {
      if j < |order| {
      } else if j == |order| {
        assert all[i] in order;
      } else if i < |order| {
        assert all[j] in rest;
        assert all[i] in order;
      } else if i == |order| {
        assert all[j] in rest;
      } else {
        assert all[i] == rest[i - |order| - 1] && all[j] == rest[j - |order| - 1];
      }
    }
  }

  /** The loop body of `send` for the statistic `v`. */
  method FinishDigest(lib: Library, v: RouteStat) returns (failure: Option<Failure>)
    modifies v
    ensures (v.Value(), failure) == EntryStep(lib, old(v.Value()))
  {
    if v.td.None? {
      return Some(NilDigest);
    }
    var compressed := Compress(lib, v.td.value);
    if compressed.Err? {
      return Some(DigestFailed(compressed.error.code));
    }
    v.td := Some(compressed.value);
    var bytes := AsBytes(lib, compressed.value);
    if bytes.Err? {
      return Some(DigestFailed(bytes.error.code));
    }
    v.tdigest := bytes.value;
    failure := None;
  }

  lemma DistinctSnoc(order: seq<RouteKey>, k: RouteKey)
    requires Distinct(order) && k !in order
    ensures Distinct(order + [k])
  {
  }

  /** One turn of the loop of `send`, on the statistic under key `k`: the
      digest pass extended by `k` describes the new state. */
  method Visit(lib: Library, m: map<RouteKey, RouteStat>, k: RouteKey,
               ghost order: seq<RouteKey>, ghost start: map<RouteKey, StatValue>, routes: seq<RouteKeyStat>)
    returns (failure: Option<Failure>, routes': seq<RouteKeyStat>)
    requires Injective(m) && k in m && k !in order
    requires start.Keys == m.Keys && forall j :: j in order ==> j in m
    requires DigestPass(lib, order, start) == PassResult(ValuesOf(m), routes, None)
    modifies m[k]
    ensures DigestPass(lib, order + [k], start) == PassResult(ValuesOf(m), routes', failure)
  {
    var v := m[k];
    ghost var before := ValuesOf(m);
    ghost var p := DigestPass(lib, order, start);
    failure := FinishDigest(lib, v);
    forall j | j in m
      ensures ValuesOf(m)[j] == before[k := v.Value()][j]
    {
      if j != k {
        assert m[j] != v;
      }
    }
    assert ValuesOf(m) == before[k := v.Value()];
    routes' := routes + [RouteKeyStat(k, v.Value())];
    ghost var visited := order + [k];
    assert visited[..|visited| - 1] == order;
    assert (v.Value(), failure) == EntryStep(lib, p.stats[k]);
  }

  /** `routeStats.send(m)`.  The loop visits the keys in an unspecified order
      (`order`); the statistics end up as `DigestPass` says, the payload is
      built only when every digest is finished, and the result follows from
      the digest loop and the exchange. */
  method Send(lib: Library, m: map<RouteKey, RouteStat>, ex: Exchange)
    returns (result: SendResult, payload: Option<seq<RouteKeyStat>>, ghost order: seq<RouteKey>)
    requires Injective(m)
    modifies m.Values
    ensures Distinct(order) && forall k :: k in order <==> k in m
    ensures var p := DigestPass(lib, order, old(ValuesOf(m)));
      && ValuesOf(m) == p.stats
      && payload == (if p.failure.None? then Some(p.routes) else None)
      && result == Outcome(p.failure, ex)
  {
    ghost var start := ValuesOf(m);
    var remaining := m.Keys;
    var routes: seq<RouteKeyStat> := [];
    order := [];
    while remaining != {}
      invariant remaining <= m.Keys
      invariant Distinct(order)
      invariant forall k :: k in m <==> k in order || k in remaining
      invariant forall k :: k in remaining ==> k !in order
      invariant DigestPass(lib, order, start) == PassResult(ValuesOf(m), routes, None)
      decreases remaining
    {
      var k :| k in remaining;
      var failure;
      failure, routes := Visit(lib, m, k, order, start, routes);
      if failure.Some? {
        ghost var rest := Enumerate(remaining - {k});
        ExtendEnumeration(order, k, rest, remaining);
        ghost var all := order + [k] + rest;
        assert all[..|order| + 1] == order + [k];
        DigestPassStops(lib, all, |order| + 1, start);
        result, payload, order := Outcome(failure, ex), None, order + [k] + rest;
        return;
      }
      DistinctSnoc(order, k);
      order := order + [k];
      remaining := remaining - {k};
    }
    payload := Some(routes);
    result := Outcome(None, ex);
  }
}
