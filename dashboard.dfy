/**
 * The stats aggregator of internal/dashboard/dashboard.go: a total request
 * counter, per-address request counters and per-address liveness. The
 * process-wide `stats` value of the source is an explicit Stats object here.
 */
module Dashboard {

  /** The request count recorded for `a`, an absent key reading as zero. */
  function Requests(m: map<string, int>, a: string): int {
    if a in m then m[a] else 0
  }

  /** The request counters after one more request to `a`. */
  function Bump(m: map<string, int>, a: string): (m': map<string, int>)
    ensures m'.Keys == m.Keys + {a}
    ensures m'[a] == Requests(m, a) + 1
    ensures forall k :: k in m && k != a ==> m'[k] == m[k]
  {
    m[a := Requests(m, a) + 1]
  }

  /** The sum of all counters. */
  ghost function Sum(m: map<string, int>): int
    decreases |m|
  {
    if m == map[] then 0
    else
      var k :| k in m;
      m[k] + Sum(m - {k})
  }

  /** Any key can be taken out first. */
  lemma {:induction false} SumRemove(m: map<string, int>, k: string)
    requires k in m
    ensures Sum(m) == m[k] + Sum(m - {k})
    decreases |m|
  {
    var k' :| k' in m && Sum(m) == m[k'] + Sum(m - {k'});
    if k' != k {
      assert k in m - {k'};
      SumRemove(m - {k'}, k);
      assert k' in m - {k};
      SumRemove(m - {k}, k');
      assert (m - {k'}) - {k} == (m - {k}) - {k'};
    }
  }

  /** One more request to any address adds exactly one to the sum of the counters. */
  lemma BumpAddsOne(m: map<string, int>, a: string)
    ensures Sum(Bump(m, a)) == Sum(m) + 1
  {
    var m' := Bump(m, a);
    SumRemove(m', a);
    if a in m {
      SumRemove(m, a);
      assert m' - {a} == m - {a};
    } else {
      assert m' - {a} == m;
    }
  }

  /** The liveness map after the status updates `urls[i] := verdicts[i]`, applied in order. */
  function ApplyStatuses(m: map<string, bool>, urls: seq<string>, verdicts: seq<bool>): map<string, bool>
    requires |urls| == |verdicts|
    decreases |urls|
  {
    if urls == [] then m
    else
      var n := |urls| - 1;
      ApplyStatuses(m, urls[..n], verdicts[..n])[urls[n] := verdicts[n]]
  }

  /** Applying one more update of the batch. */
  lemma ApplyStatusesStep(m: map<string, bool>, urls: seq<string>, verdicts: seq<bool>, i: nat)
    requires |urls| == |verdicts| && i < |urls|
    ensures ApplyStatuses(m, urls[..i + 1], verdicts[..i + 1])
         == ApplyStatuses(m, urls[..i], verdicts[..i])[urls[i] := verdicts[i]]
  {
    assert urls[..i + 1][..i] == urls[..i];
    assert verdicts[..i + 1][..i] == verdicts[..i];
  }

  /** No later update in `urls` targets the same address as update i. */
  ghost predicate LastUpdate(urls: seq<string>, i: nat)
    requires i < |urls|
  {
    forall j :: i < j < |urls| ==> urls[j] != urls[i]
  }

  /**
   * After a batch of status updates, every updated address holds the value
   * of the last update to it, and every other address is unchanged.
   */
  lemma {:induction false} ApplyStatusesSpec(m: map<string, bool>, urls: seq<string>, verdicts: seq<bool>)
    requires |urls| == |verdicts|
    ensures var r := ApplyStatuses(m, urls, verdicts);
      && r.Keys == m.Keys + (set u | u in urls)
      && (forall i :: 0 <= i < |urls| && LastUpdate(urls, i) ==> r[urls[i]] == verdicts[i])
      && (forall k :: k in m && k !in urls ==> r[k] == m[k])
    decreases |urls|
  {
    if urls != [] {
      var n := |urls| - 1;
      ApplyStatusesSpec(m, urls[..n], verdicts[..n]);
      assert urls == urls[..n] + [urls[n]];
      forall i | 0 <= i < n && LastUpdate(urls, i)
        ensures LastUpdate(urls[..n], i)
      {
      }
    }
  }

  /** Every address of a batch ends with the verdict of its last update. */
  lemma LastUpdateWins(m: map<string, bool>, urls: seq<string>, verdicts: seq<bool>)
    requires |urls| == |verdicts|
    ensures forall i :: 0 <= i < |urls| && LastUpdate(urls, i) ==>
      urls[i] in ApplyStatuses(m, urls, verdicts) && ApplyStatuses(m, urls, verdicts)[urls[i]] == verdicts[i]
  {
    ApplyStatusesSpec(m, urls, verdicts);
  }

  /** Setting a status twice to the same value is the same as setting it once. */
  lemma StatusUpdateIdempotent(m: map<string, bool>, a: string, v: bool)
    ensures m[a := v][a := v] == m[a := v]
  {
  }

  /** A copy of the stats at one moment (uptime is not modelled). */
  datatype Snapshot = Snapshot(
    totalRequests: int,
    backendRequests: map<string, int>,
    backendStatus: map<string, bool>)

  class Stats {
    var totalRequests: int
    var backendRequests: map<string, int>
    var backendStatus: map<string, bool>

    /** The total equals the sum of the per-address counters. */
    ghost predicate Valid()
      reads this
    {
      totalRequests == Sum(backendRequests)
    }

    /** The initial value: no requests, no statuses. */
    constructor ()
      ensures totalRequests == 0 && backendRequests == map[] && backendStatus == map[]
      ensures Valid()
    {
      totalRequests := 0;
      backendRequests := map[];
      backendStatus := map[];
    }

    method RecordRequest(a: string)
      modifies this
      ensures totalRequests == old(totalRequests) + 1
      ensures backendRequests == Bump(old(backendRequests), a)
      ensures backendStatus == old(backendStatus)
      ensures old(Valid()) ==> Valid()
    {
      totalRequests := totalRequests + 1;
      BumpAddsOne(backendRequests, a);
      backendRequests := backendRequests[a := Requests(backendRequests, a) + 1];
    }

    method UpdateBackendStatus(a: string, v: bool)
      modifies this
      ensures backendStatus == old(backendStatus)[a := v]
      ensures totalRequests == old(totalRequests) && backendRequests == old(backendRequests)
      ensures old(Valid()) ==> Valid()
    {
      backendStatus := backendStatus[a := v];
    }

    /** A snapshot whose maps are built entry by entry, as fresh copies. */
    method GetStats() returns (s: Snapshot)
      ensures s.totalRequests == totalRequests
      ensures s.backendRequests == backendRequests
      ensures s.backendStatus == backendStatus
    {
      var requests: map<string, int> := map[];
      var pending := backendRequests.Keys;
      while pending != {}
        invariant pending <= backendRequests.Keys
        invariant requests.Keys == backendRequests.Keys - pending
        invariant forall k :: k in requests ==> requests[k] == backendRequests[k]
        decreases pending
      {
        var k :| k in pending;
        requests := requests[k := backendRequests[k]];
        pending := pending - {k};
      }
      var status: map<string, bool> := map[];
      pending := backendStatus.Keys;
      while pending != {}
        invariant pending <= backendStatus.Keys
        invariant status.Keys == backendStatus.Keys - pending
        invariant forall k :: k in status ==> status[k] == backendStatus[k]
        decreases pending
      {
        var k :| k in pending;
        status := status[k := backendStatus[k]];
        pending := pending - {k};
      }
      s := Snapshot(totalRequests, requests, status);
    }
  }

  /**
   * A snapshot taken before further updates keeps the values it was taken
   * with: later RecordRequest and UpdateBackendStatus calls do not reach it.
   */
  method SnapshotIsolated(stats: Stats, a: string, v: bool) returns (snap: Snapshot)
    modifies stats
    ensures snap == Snapshot(old(stats.totalRequests), old(stats.backendRequests), old(stats.backendStatus))
    ensures stats.totalRequests == old(stats.totalRequests) + 1
    ensures stats.backendRequests == Bump(old(stats.backendRequests), a)
    ensures stats.backendStatus == old(stats.backendStatus)[a := v]
  {
    snap := stats.GetStats();
    stats.RecordRequest(a);
    stats.UpdateBackendStatus(a, v);
  }

  /** Two requests to X and one to Y, from the initial value, give {X: 2, Y: 1} and a total of 3. */
  lemma TwoAndOne(x: string, y: string)
    requires x != y
    ensures Bump(Bump(Bump(map[], x), x), y) == map[x := 2, y := 1]
    ensures Sum(Bump(Bump(Bump(map[], x), x), y)) == 3
  {
    var m0: map<string, int> := map[];
    BumpAddsOne(m0, x);
    BumpAddsOne(Bump(m0, x), x);
    BumpAddsOne(Bump(Bump(m0, x), x), y);
  }
}
