/**
 * One upstream server of the load balancer: its address, a liveness flag
 * and an in-flight connection counter (internal/backend/backend.go).
 *
 * Every method is one atomic step: the read/write mutex of the source only
 * serves to make it so.
 */
module Backends {

  /** The count left after one release: one less, but never below zero. */
  function Released(c: int): (r: int)
    ensures r >= 0
    ensures c >= 1 ==> r == c - 1
    ensures c <= 0 ==> r == 0
  {
    var d := c - 1;
    if d < 0 then 0 else d
  }

  class Backend {
    /** URL.String() of the parsed address; fixed at construction. */
    const url: string
    var alive: bool
    var connections: int

    /** The counter is never observed negative. */
    ghost predicate Valid()
      reads this
    {
      connections >= 0
    }

    constructor (url: string)
      ensures this.url == url
      ensures alive && connections == 0
      ensures Valid()
    {
      this.url := url;
      alive := true;
      connections := 0;
    }

    method SetAlive(v: bool)
      modifies this
      ensures alive == v
      ensures connections == old(connections)
    {
      alive := v;
    }

    method IsAlive() returns (r: bool)
      ensures r == alive
    {
      r := alive;
    }

    method IncrementConnections()
      modifies this
      ensures connections == old(connections) + 1
      ensures alive == old(alive)
      ensures old(Valid()) ==> Valid()
    {
      connections := connections + 1;
    }

    /** Decrement, then clamp at zero (a defence against a double release). */
    method DecrementConnections()
      modifies this
      ensures connections == Released(old(connections))
      ensures alive == old(alive)
      ensures Valid()
    {
      connections := connections - 1;
      if connections < 0 {
        connections := 0;
      }
    }

    method GetConnections() returns (c: int)
      ensures c == connections
    {
      c := connections;
    }
  }

  /**
   * NewBackend: `parses` stands for whether url.Parse accepted `urlStr`;
   * a rejected address yields no backend (nil).
   */
  method NewBackend(urlStr: string, parses: bool) returns (b: Backend?)
    ensures b == null <==> !parses
    ensures b != null ==> fresh(b) && b.url == urlStr && b.alive && b.connections == 0 && b.Valid()
  {
    if !parses {
      return null;
    }
    b := new Backend(urlStr);
  }

  /** The outcome of one health probe (the HTTP GET with a 5 second timeout). */
  datatype Probe = TransportError | Response(status: int)

  /**
   * The verdict of IsHealthy: a transport error is unhealthy; a response is
   * healthy iff its status is of class 2xx, 3xx or 4xx, so 1xx and 5xx are not.
   */
  function IsHealthy(p: Probe): (healthy: bool)
    ensures p.TransportError? ==> !healthy
    ensures p.Response? ==> (healthy <==> 2 <= p.status / 100 <= 4)
  {
    match p
    case TransportError => false
    case Response(status) => status >= 200 && status < 500
  }

  /** The hundreds digit of a (non-negative) status code: 2 for 2xx, and so on. */
  function StatusClass(status: nat): nat {
    status / 100
  }

  /** The healthy band is exactly the 2xx, 3xx and 4xx classes: 1xx and 5xx are rejected. */
  lemma HealthyIffClass(status: nat)
    ensures IsHealthy(Response(status)) <==> 2 <= StatusClass(status) <= 4
  {
  }

  // ---- The counter as a value: sequences of acquire/release steps ----

  datatype Step = Acquire | Release

  /** The count after applying `steps` to `c` one at a time. */
  function Run(c: int, steps: seq<Step>): int
    decreases |steps|
  {
    if steps == [] then c
    else
      var c' := if steps[0] == Acquire then c + 1 else Released(c);
      Run(c', steps[1..])
  }

  function Count(steps: seq<Step>, s: Step): nat
    decreases |steps|
  {
    if steps == [] then 0 else (if steps[0] == s then 1 else 0) + Count(steps[1..], s)
  }

  /**
   * Starting from `c`, no prefix of `steps` releases more than `c` plus the
   * acquires before it: no release ever meets a zero count.
   */
  ghost predicate NoUnderflow(c: int, steps: seq<Step>) {
    forall k :: 0 <= k <= |steps| ==> Count(steps[..k], Release) <= c + Count(steps[..k], Acquire)
  }

  /**
   * With no release unmatched, the count is the start plus the acquires
   * minus the releases: from zero, the number of unmatched increments.
   */
  lemma {:induction false} RunCountsUnmatched(c: int, steps: seq<Step>)
    requires c >= 0
    requires NoUnderflow(c, steps)
    ensures Run(c, steps) == c + Count(steps, Acquire) - Count(steps, Release)
    decreases |steps|
  {
    if steps != [] {
      assert steps[..1] == [steps[0]];
      assert Count([steps[0]][1..], Release) == 0 && Count([steps[0]][1..], Acquire) == 0;
      var c' := if steps[0] == Acquire then c + 1 else c - 1;
      assert Released(c) == c - 1 || steps[0] == Acquire;
      forall k | 0 <= k <= |steps[1..]|
        ensures Count(steps[1..][..k], Release) <= c' + Count(steps[1..][..k], Acquire)
      {
        assert steps[..k + 1][1..] == steps[1..][..k];
      }
      assert steps[..|steps|] == steps;
      RunCountsUnmatched(c', steps[1..]);
    }
  }

  /** From a non-negative count, no sequence of steps drives the count negative. */
  lemma {:induction false} RunNonNegative(c: int, steps: seq<Step>)
    requires c >= 0
    ensures Run(c, steps) >= 0
    decreases |steps|
  {
    if steps != [] {
      var c' := if steps[0] == Acquire then c + 1 else Released(c);
      RunNonNegative(c', steps[1..]);
    }
  }

  function Repeat(s: Step, k: nat): (r: seq<Step>)
    ensures |r| == k
    ensures forall i :: 0 <= i < k ==> r[i] == s
  {
    if k == 0 then [] else [s] + Repeat(s, k - 1)
  }

  lemma {:induction false} RunConcat(c: int, a: seq<Step>, b: seq<Step>)
    ensures Run(c, a + b) == Run(Run(c, a), b)
    decreases |a|
  {
    if a != [] {
      var c' := if a[0] == Acquire then c + 1 else Released(c);
      assert (a + b)[1..] == a[1..] + b;
      RunConcat(c', a[1..], b);
    } else {
      assert a + b == b;
    }
  }

  lemma {:induction false} RunAcquires(c: int, k: nat)
    ensures Run(c, Repeat(Acquire, k)) == c + k
    decreases k
  {
    if k > 0 {
      assert Repeat(Acquire, k)[1..] == Repeat(Acquire, k - 1);
      RunAcquires(c + 1, k - 1);
    }
  }

  lemma {:induction false} RunReleases(c: int, k: nat)
    requires c >= k
    ensures Run(c, Repeat(Release, k)) == c - k
    decreases k
  {
    if k > 0 {
      assert Repeat(Release, k)[1..] == Repeat(Release, k - 1);
      RunReleases(c - 1, k - 1);
    }
  }

  /**
   * k increments followed by k decrements return a non-negative count to
   * where it started; from zero, a surplus of decrements leaves it at zero.
   */
  lemma PairedStepsRestore(c: int, k: nat, extra: nat)
    requires c >= 0
    ensures Run(c, Repeat(Acquire, k) + Repeat(Release, k)) == c
    ensures Run(0, Repeat(Acquire, k) + Repeat(Release, k + extra)) == 0
  {
    RunConcat(c, Repeat(Acquire, k), Repeat(Release, k));
    RunAcquires(c, k);
    RunReleases(c + k, k);
    RunConcat(0, Repeat(Acquire, k), Repeat(Release, k + extra));
    RunAcquires(0, k);
    assert Repeat(Release, k + extra) == Repeat(Release, k) + Repeat(Release, extra);
    RunConcat(k, Repeat(Release, k), Repeat(Release, extra));
    RunReleases(k, k);
    ReleasesAtZero(extra);
  }

  /** Decrements at zero leave the count at zero. */
  lemma {:induction false} ReleasesAtZero(k: nat)
    ensures Run(0, Repeat(Release, k)) == 0
    decreases k
  {
    if k > 0 {
      assert Repeat(Release, k)[1..] == Repeat(Release, k - 1);
      ReleasesAtZero(k - 1);
    }
  }
}
