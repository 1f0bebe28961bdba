/**
 * The load balancer of internal/balancer/balancer.go: a fixed pool of
 * backends, a persistent rotation cursor and an algorithm tag, with the
 * selector, the request dispatcher and one tick of the health checker.
 */
module Balancer {
  import opened Wrappers
  import opened Backends
  import Selection
  import opened Dashboard

  /** What the caller of ServeHTTP receives: a 503, or the response of the chosen backend. */
  datatype Response = ServiceUnavailable | Forwarded(backend: string)

  /** The verdicts of one round of probes. */
  function Verdicts(probes: seq<Probe>): (v: seq<bool>)
    ensures |v| == |probes|
    ensures forall i :: 0 <= i < |probes| ==> v[i] == IsHealthy(probes[i])
  {
    seq(|probes|, i requires 0 <= i < |probes| => IsHealthy(probes[i]))
  }

  /**
   * The dispatch part of ServeHTTP: take a connection on `be`, record the
   * request, forward it (not modelled) and release the connection, so the
   * backend ends as it started.
   */
  method Forward(be: Backend, stats: Stats)
    requires be.Valid()
    modifies be, stats
    ensures be.alive == old(be.alive) && be.connections == old(be.connections)
    ensures stats.totalRequests == old(stats.totalRequests) + 1
    ensures stats.backendRequests == Bump(old(stats.backendRequests), be.url)
    ensures stats.backendStatus == old(stats.backendStatus)
    ensures old(stats.Valid()) ==> stats.Valid()
  {
    be.IncrementConnections();
    stats.RecordRequest(be.url);
    // The reverse proxy forwards the request here; its effects are not modelled.
    be.DecrementConnections();
  }

  class LoadBalancer {
    const backends: seq<Backend>
    /** The rotation cursor: only ever incremented (the uint64 wrap-around is not modelled). */
    var current: nat
    const algorithm: string

    /** The liveness and load of every backend, in pool order. */
    ghost function Slots(): (pool: seq<Selection.Slot>)
      reads backends
      ensures |pool| == |backends|
      ensures forall i :: 0 <= i < |backends| ==>
        pool[i] == Selection.Slot(backends[i].alive, backends[i].connections)
    {
      seq(|backends|, i reads backends requires 0 <= i < |backends| =>
        Selection.Slot(backends[i].alive, backends[i].connections))
    }

    /** The addresses of the pool, in pool order. */
    function Urls(): (urls: seq<string>)
      ensures |urls| == |backends|
      ensures forall i :: 0 <= i < |backends| ==> urls[i] == backends[i].url
    {
      seq(|backends|, i requires 0 <= i < |backends| => backends[i].url)
    }

    /** No connection counter of the pool is negative. */
    ghost predicate Valid()
      reads backends
    {
      forall i :: 0 <= i < |backends| ==> backends[i].Valid()
    }

    /** NewLoadBalancer: the cursor starts at zero; a pool of valid backends makes a valid balancer. */
    constructor (algorithm: string, backends: seq<Backend>)
      requires forall i :: 0 <= i < |backends| ==> backends[i].Valid()
      ensures this.algorithm == algorithm && this.backends == backends
      ensures current == 0
      ensures Valid()
    {
      this.algorithm := algorithm;
      this.backends := backends;
      current := 0;
    }

    /**
     * roundRobin: advance the cursor and probe the post-increment slot, at
     * most once per backend, stopping at the first alive one.
     */
    method RoundRobin() returns (idx: Option<nat>)
      modifies this
      ensures Selection.Pick(idx, current) == Selection.RoundRobin(Selection.Flags(Slots()), old(current))
    {
      ghost var flags := Selection.Flags(Slots());
      var n := |backends|;
      if n == 0 {
        return None;
      }
      var i := 0;
      while i < n
        invariant 0 <= i <= n
        invariant current == old(current) + i
        invariant Selection.Scan(flags, old(current), 0) == Selection.Scan(flags, current, i)
      {
        current := current + 1;
        var k := current % n;
        var alive := backends[k].IsAlive();
        if alive {
          return Some(k);
        }
        i := i + 1;
      }
      return None;
    }

    /**
     * leastConnections: scan the pool once, skipping dead backends, and keep
     * the first one seen with a strictly smaller count.
     */
    method LeastConnections() returns (idx: Option<nat>)
      requires Valid()
      ensures Selection.LeastLoaded(Slots(), idx)
    {
      var selected: Option<nat> := None;
      var minConnections := -1;
      var i := 0;
      while i < |backends|
        invariant 0 <= i <= |backends|
        invariant selected.None? <==> forall j :: 0 <= j < i ==> !backends[j].alive
        invariant selected.None? ==> minConnections == -1
        invariant selected.Some? ==>
          && selected.value < i
          && backends[selected.value].alive
          && minConnections == backends[selected.value].connections >= 0
          && (forall j :: 0 <= j < i && backends[j].alive ==> minConnections <= backends[j].connections)
          && (forall j :: 0 <= j < selected.value && backends[j].alive ==> minConnections < backends[j].connections)
      {
        var be := backends[i];
        var alive := be.IsAlive();
        if alive {
          var c := be.GetConnections();
          if minConnections == -1 || c < minConnections {
            minConnections := c;
            selected := Some(i);
          }
        }
        i := i + 1;
      }
      idx := selected;
    }

    /** NextBackend: least-connections for the tag "least-conn", round-robin for every other tag. */
    method NextBackend() returns (be: Backend?, ghost idx: Option<nat>)
      requires Valid()
      modifies this
      ensures Selection.Selects(Slots(), algorithm, old(current), idx, current)
      ensures idx.Some? ==> idx.value < |backends| && be == backends[idx.value]
      ensures idx.None? ==> be == null
    {
      var pick: Option<nat>;
      if algorithm == Selection.LeastConnTag {
        pick := LeastConnections();
      } else {
        pick := RoundRobin();
      }
      Selection.SelectsAlive(Slots(), algorithm, old(current), pick, current);
      be := if pick.Some? then backends[pick.value] else null;
      idx := pick;
    }

    /**
     * ServeHTTP: select; on none answer 503 and touch nothing; otherwise
     * take a connection, record the request, forward (not modelled) and
     * release the connection on the way out.
     */
    method ServeHTTP(stats: Stats) returns (response: Response, ghost idx: Option<nat>)
      requires Valid()
      modifies this, backends, stats
      ensures Selection.Selects(old(Slots()), algorithm, old(current), idx, current)
      ensures Slots() == old(Slots())
      ensures Valid()
      ensures idx.None? ==>
        && response == ServiceUnavailable
        && stats.totalRequests == old(stats.totalRequests)
        && stats.backendRequests == old(stats.backendRequests)
        && stats.backendStatus == old(stats.backendStatus)
      ensures idx.Some? ==>
        && idx.value < |backends|
        && response == Forwarded(backends[idx.value].url)
        && stats.totalRequests == old(stats.totalRequests) + 1
        && stats.backendRequests == Bump(old(stats.backendRequests), backends[idx.value].url)
        && stats.backendStatus == old(stats.backendStatus)
      ensures old(stats.Valid()) ==> stats.Valid()
    {
      var be;
      be, idx := NextBackend();
      if be == null {
        return ServiceUnavailable, idx;
      }
      Forward(be, stats);
      assert forall i :: 0 <= i < |backends| ==>
        backends[i].alive == old(backends[i].alive) && backends[i].connections == old(backends[i].connections);
      response := Forwarded(be.url);
    }

    /**
     * One tick of HealthCheck: probe every backend in pool order, set its
     * liveness to the verdict and push the verdict into the stats.
     * `probes[i]` is the outcome of probing `backends[i]`.
     */
    method HealthCheckTick(probes: seq<Probe>, stats: Stats)
      requires |probes| == |backends|
      modifies backends, stats
      ensures forall i :: 0 <= i < |backends| && Holds(i) ==> backends[i].alive == IsHealthy(probes[i])
      ensures forall i :: 0 <= i < |backends| ==> backends[i].connections == old(backends[i].connections)
      ensures stats.backendStatus == ApplyStatuses(old(stats.backendStatus), Urls(), Verdicts(probes))
      ensures forall i :: 0 <= i < |backends| && LastUpdate(Urls(), i) ==>
        backends[i].url in stats.backendStatus && stats.backendStatus[backends[i].url] == IsHealthy(probes[i])
      ensures stats.totalRequests == old(stats.totalRequests)
      ensures stats.backendRequests == old(stats.backendRequests)
      ensures old(Valid()) ==> Valid()
    {
      var n := |backends|;
      ghost var urls, verdicts := Urls(), Verdicts(probes);
      ghost var m0 := stats.backendStatus;
      var i := 0;
      while i < n
        invariant 0 <= i <= n
        invariant forall j :: 0 <= j < i && LastBefore(j, i) ==> backends[j].alive == IsHealthy(probes[j])
        invariant forall j :: 0 <= j < n ==> backends[j].connections == old(backends[j].connections)
        invariant stats.backendStatus == ApplyStatuses(m0, urls[..i], verdicts[..i])
        invariant stats.totalRequests == old(stats.totalRequests)
        invariant stats.backendRequests == old(stats.backendRequests)
      {
        var be := backends[i];
        var alive := IsHealthy(probes[i]);
        be.SetAlive(alive);
        stats.UpdateBackendStatus(be.url, alive);
        forall j | 0 <= j < i + 1 && LastBefore(j, i + 1) ensures backends[j].alive == IsHealthy(probes[j]) {
          if j < i {
            assert backends[i] != backends[j] && LastBefore(j, i);
          }
        }
        ApplyStatusesStep(m0, urls, verdicts, i);
        i := i + 1;
      }
      assert urls[..n] == urls && verdicts[..n] == verdicts;
      LastUpdateWins(m0, urls, verdicts);
    }

    /** No entry of the pool from j + 1 up to i holds the object of entry j. */
    ghost predicate LastBefore(j: nat, i: nat)
      requires j < i <= |backends|
    {
      forall k :: j < k < i ==> backends[k] != backends[j]
    }

    /** Backend i is the last entry of the pool that holds its object. */
    ghost predicate Holds(i: nat)
      requires i < |backends|
    {
      LastBefore(i, |backends|)
    }
  }
}
