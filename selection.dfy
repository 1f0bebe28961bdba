/**
 * The two selection algorithms of internal/balancer/balancer.go, stated on a
 * snapshot of the pool: the alive flags and connection counts in pool order.
 * The LoadBalancer methods are proved against these definitions.
 */
module Selection {
  import opened Wrappers

  /** What one round-robin call yields: the chosen index, if any, and the cursor after it. */
  datatype Pick = Pick(index: Option<nat>, cursor: nat)

  /**
   * The round-robin scan after `probes` unsuccessful probes: every probe
   * first advances the cursor and then looks at the post-increment value
   * modulo the pool size; at most |alive| probes are made.
   */
  function Scan(alive: seq<bool>, cursor: nat, probes: nat): (p: Pick)
    requires |alive| > 0 && probes <= |alive|
    ensures cursor <= p.cursor <= cursor + |alive| - probes
    ensures p.index.None? ==> p.cursor == cursor + |alive| - probes
    ensures p.index.Some? ==> p.cursor > cursor && p.index.value == p.cursor % |alive| && alive[p.index.value]
    decreases |alive| - probes
  {
    if probes == |alive| then Pick(None, cursor)
    else
      var next := cursor + 1;
      if alive[next % |alive|] then Pick(Some(next % |alive|), next)
      else Scan(alive, next, probes + 1)
  }

  /** One call of roundRobin from cursor value `cursor`. */
  function RoundRobin(alive: seq<bool>, cursor: nat): (p: Pick)
    ensures cursor <= p.cursor <= cursor + |alive|
    ensures p.index.None? ==> p.cursor == cursor + |alive|
    ensures p.index.Some? ==> p.index.value < |alive| && alive[p.index.value]
  {
    if |alive| == 0 then Pick(None, cursor) else Scan(alive, cursor, 0)
  }

  // ---- Arithmetic on the rotation ----

  /** The index looked at by the k-th probe of a scan that started at `start`. */
  function Probed(start: nat, k: nat, n: nat): (i: nat)
    requires n > 0
    ensures i < n
  {
    (start + k) % n
  }

  lemma {:induction false} MulAtLeast(n: nat, k: nat)
    requires k >= 1
    ensures n * k >= n
    decreases k
  {
    if k > 1 {
      MulAtLeast(n, k - 1);
      assert n * k == n * (k - 1) + n;
    }
  }

  /** Quotient and remainder are unique. */
  lemma DivModUnique(x: nat, n: nat, q: nat, r: nat)
    requires n > 0 && r < n && x == n * q + r
    ensures x % n == r && x / n == q
  {
    var q', r' := x / n, x % n;
    assert x == n * q' + r';
    if q < q' {
      MulAtLeast(n, q' - q);
    } else if q' < q {
      MulAtLeast(n, q - q');
    }
  }

  /** From a cursor with remainder r, offset j (at most n) lands on r + j, wrapped once at n. */
  lemma OffsetIndex(cursor: nat, n: nat, j: nat)
    requires n > 0 && j <= n
    ensures var r := cursor % n;
      Probed(cursor, j, n) == if r + j < n then r + j else r + j - n
  {
    var q, r := cursor / n, cursor % n;
    assert cursor == n * q + r;
    if r + j < n {
      DivModUnique(cursor + j, n, q, r + j);
    } else {
      assert cursor + j == n * (q + 1) + (r + j - n);
      DivModUnique(cursor + j, n, q + 1, r + j - n);
    }
  }

  /** Offsets 1..n from any cursor land on pairwise distinct indices. */
  lemma OffsetsDistinct(cursor: nat, n: nat, a: nat, b: nat)
    requires n > 0 && 1 <= a < b <= n
    ensures Probed(cursor, a, n) != Probed(cursor, b, n)
  {
    OffsetIndex(cursor, n, a);
    OffsetIndex(cursor, n, b);
  }

  /** Every index is reached by some offset among 1..n. */
  lemma OffsetReaches(cursor: nat, n: nat, i: nat) returns (j: nat)
    requires n > 0 && i < n
    ensures 1 <= j <= n && Probed(cursor, j, n) == i
  {
    var r := cursor % n;
    j := if r < i then i - r else i + n - r;
    OffsetIndex(cursor, n, j);
  }

  /** A full turn of n offsets comes back to the same index. */
  lemma OffsetFullTurn(cursor: nat, n: nat, j: nat)
    requires n > 0
    ensures Probed(cursor, j + n, n) == Probed(cursor, j, n)
  {
    var q, r := (cursor + j) / n, (cursor + j) % n;
    assert cursor + j == n * q + r;
    assert cursor + j + n == n * (q + 1) + r;
    DivModUnique(cursor + j + n, n, q + 1, r);
  }

  // ---- Round-robin: what a single call yields ----

  /** The facts the scan accumulates when it stops at offset j from the cursor it started at. */
  ghost predicate FoundAt(alive: seq<bool>, start: nat, p: Pick, j: nat)
    requires |alive| > 0
  {
    && 1 <= j <= |alive|
    && p.cursor == start + j
    && p.index == Some(Probed(start, j, |alive|))
    && alive[Probed(start, j, |alive|)]
    && (forall k :: 1 <= k < j ==> !alive[Probed(start, k, |alive|)])
  }

  lemma {:induction false} ScanSpec(alive: seq<bool>, start: nat, probes: nat)
    requires |alive| > 0 && probes <= |alive|
    requires forall k :: 1 <= k <= probes ==> !alive[Probed(start, k, |alive|)]
    ensures var p := Scan(alive, start + probes, probes);
      && (p.index.None? ==> p.cursor == start + |alive|)
      && (p.index.None? ==> forall k :: 1 <= k <= |alive| ==> !alive[Probed(start, k, |alive|)])
      && (p.index.Some? ==> exists j :: probes < j && FoundAt(alive, start, p, j))
    decreases |alive| - probes
  {
    var p := Scan(alive, start + probes, probes);
    if probes < |alive| {
      var next := start + probes + 1;
      if alive[next % |alive|] {
        assert FoundAt(alive, start, p, probes + 1);
      } else {
        ScanSpec(alive, start, probes + 1);
      }
    }
  }

  /**
   * A round-robin call returns the first alive index at offsets 1, 2, ...
   * from the cursor, and advances the cursor by exactly that offset; it
   * returns none iff no backend is alive, and then the cursor has moved by
   * the pool size (by zero for an empty pool).
   */
  lemma RoundRobinSpec(alive: seq<bool>, cursor: nat)
    ensures var p := RoundRobin(alive, cursor);
      && (p.index.None? <==> forall i :: 0 <= i < |alive| ==> !alive[i])
      && (p.index.None? ==> p.cursor == cursor + |alive|)
      && (p.index.Some? ==> p.index.value < |alive| && alive[p.index.value])
      && (p.index.Some? ==> exists j :: FoundAt(alive, cursor, p, j))
  {
    var n := |alive|;
    var p := RoundRobin(alive, cursor);
    if n > 0 {
      ScanSpec(alive, cursor, 0);
      if p.index.None? {
        forall i | 0 <= i < n ensures !alive[i] {
          var j := OffsetReaches(cursor, n, i);
        }
      }
    }
  }

  /** Round-robin never returns a dead backend. */
  lemma RoundRobinNeverDead(alive: seq<bool>, cursor: nat)
    ensures var p := RoundRobin(alive, cursor);
      p.index.Some? ==> p.index.value < |alive| && alive[p.index.value]
  {
    RoundRobinSpec(alive, cursor);
  }

  ghost predicate AllAlive(alive: seq<bool>) {
    forall i :: 0 <= i < |alive| ==> alive[i]
  }

  /** In an all-alive pool a call moves the cursor by one and picks the post-increment slot. */
  lemma RoundRobinAllAlive(alive: seq<bool>, cursor: nat)
    requires |alive| > 0 && AllAlive(alive)
    ensures RoundRobin(alive, cursor) == Pick(Some((cursor + 1) % |alive|), cursor + 1)
  {
  }

  // ---- Round-robin: consecutive calls ----

  /** The indices chosen by `k` consecutive calls from `cursor`. */
  function Rounds(alive: seq<bool>, cursor: nat, k: nat): seq<Option<nat>>
    decreases k
  {
    if k == 0 then []
    else
      var p := RoundRobin(alive, cursor);
      [p.index] + Rounds(alive, p.cursor, k - 1)
  }

  lemma {:induction false} RoundsAllAlive(alive: seq<bool>, cursor: nat, k: nat)
    requires |alive| > 0 && AllAlive(alive)
    ensures |Rounds(alive, cursor, k)| == k
    ensures forall m :: 0 <= m < k ==> Rounds(alive, cursor, k)[m] == Some(Probed(cursor, m + 1, |alive|))
    decreases k
  {
    if k > 0 {
      RoundRobinAllAlive(alive, cursor);
      RoundsAllAlive(alive, cursor + 1, k - 1);
    }
  }

  /**
   * Fairness: on an all-alive pool of size N, N consecutive calls return
   * every backend exactly once, and call N+1 repeats the first.
   */
  lemma RoundRobinFair(alive: seq<bool>, cursor: nat)
    requires |alive| > 0 && AllAlive(alive)
    ensures var r := Rounds(alive, cursor, |alive| + 1);
      && |r| == |alive| + 1
      && (forall m :: 0 <= m < |alive| ==> r[m].Some? && r[m].value < |alive|)
      && (forall a, b :: 0 <= a < b < |alive| ==> r[a] != r[b])
      && (forall i :: 0 <= i < |alive| ==> Some(i) in r[..|alive|])
      && r[|alive|] == r[0]
  {
    var n := |alive|;
    var r := Rounds(alive, cursor, n + 1);
    RoundsAllAlive(alive, cursor, n + 1);
    forall a, b | 0 <= a < b < n ensures r[a] != r[b] {
      OffsetsDistinct(cursor, n, a + 1, b + 1);
    }
    forall i | 0 <= i < n ensures Some(i) in r[..n] {
      var j := OffsetReaches(cursor, n, i);
      assert r[..n][j - 1] == Some(i);
    }
    OffsetFullTurn(cursor, n, 1);
  }

  /** The two-backend scenario: a fresh balancer over [A, B] serves B, A, B, A. */
  lemma TwoBackendsAlternate()
    ensures Rounds([true, true], 0, 4) == [Some(1), Some(0), Some(1), Some(0)]
  {
    RoundsAllAlive([true, true], 0, 4);
  }

  /**
   * The three-backend scenario: a fresh balancer over [A, B, C] serves B, C,
   * A and then B again, so the first two picks differ.
   */
  lemma ThreeBackendsRotate()
    ensures Rounds([true, true, true], 0, 4) == [Some(1), Some(2), Some(0), Some(1)]
  {
    RoundsAllAlive([true, true, true], 0, 4);
  }

  /** Over a fully dead pool every call returns none, call after call. */
  lemma {:induction false} RoundsAllDead(alive: seq<bool>, cursor: nat, k: nat)
    requires forall i :: 0 <= i < |alive| ==> !alive[i]
    ensures Rounds(alive, cursor, k) == seq(k, _ => None)
    decreases k
  {
    if k > 0 {
      RoundRobinSpec(alive, cursor);
      RoundsAllDead(alive, RoundRobin(alive, cursor).cursor, k - 1);
    }
  }

  // ---- Least connections ----

  /** One entry of a pool snapshot. */
  datatype Slot = Slot(alive: bool, connections: int)

  /**
   * The least-connections choice: `r` is none iff no slot is alive; else an
   * alive slot whose count is at most every alive slot's, and strictly below
   * every earlier alive slot's (the lowest index wins ties).
   */
  ghost predicate LeastLoaded(pool: seq<Slot>, r: Option<nat>) {
    && (r.None? <==> forall j :: 0 <= j < |pool| ==> !pool[j].alive)
    && (r.Some? ==>
         && r.value < |pool|
         && pool[r.value].alive
         && (forall j :: 0 <= j < |pool| && pool[j].alive ==> pool[r.value].connections <= pool[j].connections)
         && (forall j :: 0 <= j < r.value && pool[j].alive ==> pool[r.value].connections < pool[j].connections))
  }

  /** The least-connections choice is unique: the tie-break makes it deterministic. */
  lemma LeastLoadedUnique(pool: seq<Slot>, r1: Option<nat>, r2: Option<nat>)
    requires LeastLoaded(pool, r1) && LeastLoaded(pool, r2)
    ensures r1 == r2
  {
    if r1.Some? && r2.Some? {
      var a, b := r1.value, r2.value;
    }
  }

  /** Two alive backends holding 2 and 0 connections: the idle second one is the choice. */
  lemma LeastLoadedPicksIdle(r: Option<nat>)
    ensures LeastLoaded([Slot(true, 2), Slot(true, 0)], r) <==> r == Some(1)
  {
    var pool := [Slot(true, 2), Slot(true, 0)];
    if LeastLoaded(pool, r) {
      assert pool[0].alive && pool[1].alive;
      assert r.Some? && r.value < 2;
      assert pool[r.value].connections <= pool[1].connections;
    }
  }

  /** The alive flags of a snapshot, in pool order. */
  function Flags(pool: seq<Slot>): (flags: seq<bool>)
    ensures |flags| == |pool|
    ensures forall i :: 0 <= i < |pool| ==> flags[i] == pool[i].alive
  {
    seq(|pool|, i requires 0 <= i < |pool| => pool[i].alive)
  }

  /** The algorithm tag that selects least-connections; every other tag means round-robin. */
  const LeastConnTag := "least-conn"

  /**
   * What NextBackend does to a pool snapshot under `algorithm`: choose `idx`
   * and move the cursor from `cursor` to `cursor'`.
   */
  ghost predicate Selects(pool: seq<Slot>, algorithm: string, cursor: nat, idx: Option<nat>, cursor': nat) {
    if algorithm == LeastConnTag then LeastLoaded(pool, idx) && cursor' == cursor
    else Pick(idx, cursor') == RoundRobin(Flags(pool), cursor)
  }

  /**
   * Whatever the algorithm, the selection is an alive backend of the pool,
   * and it is none iff no backend is alive.
   */
  lemma SelectsAlive(pool: seq<Slot>, algorithm: string, cursor: nat, idx: Option<nat>, cursor': nat)
    requires Selects(pool, algorithm, cursor, idx, cursor')
    ensures idx.None? <==> forall j :: 0 <= j < |pool| ==> !pool[j].alive
    ensures idx.Some? ==> idx.value < |pool| && pool[idx.value].alive
  {
    if algorithm != LeastConnTag {
      RoundRobinSpec(Flags(pool), cursor);
    }
  }
}
