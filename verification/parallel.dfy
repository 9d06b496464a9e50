/** The multi-threaded blocked kernel. Row bands (row tiles) are dealt to T
    workers round-robin: worker tid takes band origins tid*bs, tid*bs + bs*T,
    tid*bs + 2*bs*T, ... below n and runs the blocked j/k/ii/jj/kk loop nest on
    each. The workers are modelled as running one after another, in any order;
    that their row sets are pairwise disjoint is what makes the order, and the
    interleaving of real threads, irrelevant. */
module Parallel {
  import opened Arith
  import opened RowMajor
  import opened Products
  import opened Tiling
  import opened Blocked

  /** The worker that owns row r: r lies in row band r / bs, and bands are
      dealt round-robin to the T workers. */
  function Owner(r: int, bs: nat, T: nat): (t: nat)
    requires r >= 0 && bs > 0 && T > 0
    ensures t < T
  {
    (r / bs) % T
  }

  /** The row-band origins worker tid's loop `for (i = tid*bs; i < n; i += bs*T)`
      visits. */
  function WorkerOrigins(tid: nat, bs: nat, T: nat, n: nat): set<int> {
    set m: nat | m < n && tid * bs + m * (bs * T) < n :: tid * bs + m * (bs * T)
  }

  /** x in [q*d, q*d + d) lies in block q of width d. */
  lemma DivOfRange(x: int, d: int, q: int)
    requires d > 0 && q * d <= x < q * d + d
    ensures x / d == q && x % d == x - q * d
  {
    DivModUnique(x, d, q, x - q * d);
  }

  /** The k-th origin of worker tid starts band tid + k*T. */
  lemma StrideForm(tid: int, k: int, bs: int, T: int)
    ensures tid * bs + k * (bs * T) == (tid + k * T) * bs
  {
    assert k * (bs * T) == (k * T) * bs;
  }

  /** Every origin worker tid's loop visits is a band origin below n that
      tid owns. */
  lemma WorkerOriginOwned(tid: nat, bs: nat, T: nat, n: nat, o: int)
    requires bs > 0 && T > 0 && tid < T
    requires o in WorkerOrigins(tid, bs, T, n)
    ensures IsOrigin(o, bs, n) && Owner(o, bs, T) == tid
  {
    var k: nat :| k < n && o == tid * bs + k * (bs * T);
    var q := tid + k * T;
    StrideForm(tid, k, bs, T);
    assert o == q * bs;
    DivOfRange(o, bs, q);
    DivOfRange(q, T, k);
  }

  /** Every band origin below n that tid owns is visited by tid's loop. */
  lemma OwnedOriginVisited(tid: nat, bs: nat, T: nat, n: nat, o: int)
    requires bs > 0 && T > 0 && tid < T
    requires IsOrigin(o, bs, n) && Owner(o, bs, T) == tid
    ensures o in WorkerOrigins(tid, bs, T, n)
  {
    var q := o / bs;
    var k := q / T;
    assert q == k * T + tid;
    assert o == q * bs;
    assert 0 <= k <= q by {
      MulNoShrink(k, T);
    }
    assert q <= o by {
      MulNoShrink(q, bs);
    }
    StrideForm(tid, k, bs, T);
    var k': nat := k;
    assert k' < n && o == tid * bs + k' * (bs * T);
  }

  /** Worker tid's origins are exactly the band origins below n whose band it
      owns. */
  lemma WorkerOriginsByOwner(tid: nat, bs: nat, T: nat, n: nat, o: int)
    requires bs > 0 && T > 0 && tid < T
    ensures o in WorkerOrigins(tid, bs, T, n) <==> IsOrigin(o, bs, n) && Owner(o, bs, T) == tid
  {
    if o in WorkerOrigins(tid, bs, T, n) {
      WorkerOriginOwned(tid, bs, T, n, o);
    }
    if IsOrigin(o, bs, n) && Owner(o, bs, T) == tid {
      OwnedOriginVisited(tid, bs, T, n, o);
    }
  }

  /** The row-band partition: the origin sets of two different workers are
      disjoint, together they cover every band origin below n, and a worker
      whose first origin tid*bs is already past the matrix gets none. */
  lemma RowBandPartition(bs: nat, T: nat, n: nat)
    requires bs > 0 && T > 0
    ensures forall t1, t2 :: 0 <= t1 < T && 0 <= t2 < T && t1 != t2 ==>
      WorkerOrigins(t1, bs, T, n) !! WorkerOrigins(t2, bs, T, n)
    ensures forall o :: IsOrigin(o, bs, n) ==>
      exists t :: 0 <= t < T && o in WorkerOrigins(t, bs, T, n)
    ensures forall t :: 0 <= t < T && t * bs >= n ==> WorkerOrigins(t, bs, T, n) == {}
  {
    forall t1, t2 | 0 <= t1 < T && 0 <= t2 < T && t1 != t2
      ensures WorkerOrigins(t1, bs, T, n) !! WorkerOrigins(t2, bs, T, n)
    {
      forall o | o in WorkerOrigins(t1, bs, T, n)
        ensures o !in WorkerOrigins(t2, bs, T, n)
      {
        WorkerOriginsByOwner(t1, bs, T, n, o);
        WorkerOriginsByOwner(t2, bs, T, n, o);
      }
    }
    forall o | IsOrigin(o, bs, n)
      ensures exists t :: 0 <= t < T && o in WorkerOrigins(t, bs, T, n)
    {
      WorkerOriginsByOwner(Owner(o, bs, T), bs, T, n, o);
    }
    forall t | 0 <= t < T && t * bs >= n
      ensures WorkerOrigins(t, bs, T, n) == {}
    {
      forall o | o in WorkerOrigins(t, bs, T, n)
        ensures false
      {
        WorkerOriginsByOwner(t, bs, T, n, o);
        OwnerBelowStart(o, bs, T, t);
      }
    }
  }

  /** No row before worker tid's first band belongs to tid. */
  lemma OwnerBelowStart(r: int, bs: nat, T: nat, tid: nat)
    requires bs > 0 && T > 0 && tid < T && 0 <= r < tid * bs
    ensures Owner(r, bs, T) != tid
  {
    var q := r / bs;
    assert q < tid;
    DivOfRange(q, T, 0);
  }

  /** Measured from a band origin i, row r lies (r - i) / bs bands further. */
  lemma BandOfRow(r: int, i: int, bs: nat)
    requires bs > 0 && 0 <= i <= r && i % bs == 0
    ensures r / bs == i / bs + (r - i) / bs
  {
    var q, d := i / bs, (r - i) / bs;
    assert i == q * bs;
    assert r == (q + d) * bs + (r - i) % bs by {
      assert (q + d) * bs == q * bs + d * bs;
    }
    DivOfRange(r, bs, q + d);
  }

  /** Within one stride of bs*T rows, an offset x is fewer than T bands in,
      and in band 0 exactly when x < bs. */
  lemma StrideBands(x: int, bs: nat, T: nat)
    requires bs > 0 && 0 <= x < bs * T
    ensures 0 <= x / bs < T
    ensures x / bs == 0 <==> x < bs
  {
    var d := x / bs;
    assert d * bs <= x;
    if d >= T {
      assert false;
    }
    if x < bs {
      DivOfRange(x, bs, 0);
    }
  }

  /** Bands dealt round-robin: d < T bands after one of tid's, the band is
      tid's again only when d is 0. */
  lemma RoundRobin(q: int, d: int, T: nat, tid: nat)
    requires T > 0 && q >= 0 && q % T == tid && 0 <= d < T
    ensures (q + d) % T == tid <==> d == 0
  {
    var k := q / T;
    assert q == k * T + tid;
    if tid + d < T {
      DivOfRange(q + d, T, k);
    } else {
      assert q + d == (k + 1) * T + (tid + d - T);
      DivOfRange(q + d, T, k + 1);
    }
  }

  /** One step of a worker's stride: from one of its origins i, the rows up to
      the next origin i + bs*T are its own exactly in the first band. */
  lemma StrideStep(r: int, i: int, bs: nat, T: nat, tid: nat)
    requires bs > 0 && T > 0 && tid < T
    requires i >= 0 && i % bs == 0 && Owner(i, bs, T) == tid
    requires i <= r < i + bs * T
    ensures Owner(r, bs, T) == tid <==> r < i + bs
  {
    BandOfRow(r, i, bs);
    StrideBands(r - i, bs, T);
    RoundRobin(i / bs, (r - i) / bs, T, tid);
  }

  /** The origin that follows i in a worker's stride is again one of its own. */
  lemma StrideNext(i: int, bs: nat, T: nat, tid: nat)
    requires bs > 0 && T > 0 && tid < T
    requires i >= 0 && i % bs == 0 && Owner(i, bs, T) == tid
    ensures (i + bs * T) % bs == 0 && Owner(i + bs * T, bs, T) == tid
  {
    var q := i / bs;
    var k := q / T;
    assert q == k * T + tid;
    assert i + bs * T == (q + T) * bs;
    DivOfRange(i + bs * T, bs, q + T);
    assert q + T == (k + 1) * T + tid;
    DivOfRange(q + T, T, k + 1);
  }

  /** One iteration of a worker's stride loop: the band at origin i, one of
      the worker's own, is computed, so every row the worker owns below the
      next origin i + bs*T now holds its entries of A·B. */
  method WorkerBand(A: seq<int>, B: seq<int>, C: seq<int>, Cur: seq<int>, n: nat, bs: nat, T: nat, tid: nat, i: int)
    returns (C': seq<int>)
    requires IsMatrix(A, n) && IsMatrix(B, n) && IsMatrix(C, n) && IsMatrix(Cur, n)
    requires bs > 0 && T > 0 && tid < T
    requires 0 <= i < n && i % bs == 0 && Owner(i, bs, T) == tid
    requires forall r, c :: 0 <= r < n && 0 <= c < n ==>
      At(Cur, n, r, c) == At(C, n, r, c) + (if Owner(r, bs, T) == tid && r < i then Entry(A, B, n, r, c) else 0)
    ensures IsMatrix(C', n)
    ensures forall r, c :: 0 <= r < n && 0 <= c < n ==>
      At(C', n, r, c) == At(C, n, r, c) + (if Owner(r, bs, T) == tid && r < i + bs * T then Entry(A, B, n, r, c) else 0)
  {
    C' := RowBand(A, B, Cur, n, bs, i);
    forall r, c | 0 <= r < n && 0 <= c < n
      ensures At(C', n, r, c) == At(C, n, r, c)
        + (if Owner(r, bs, T) == tid && r < i + bs * T then Entry(A, B, n, r, c) else 0)
    {
      BandRows(r, i, n, bs, T, tid);
    }
  }

  /** Row r is the worker's and below the next origin i + bs*T exactly when it
      was the worker's and below i, or lies in the band at i. */
  lemma BandRows(r: int, i: int, n: nat, bs: nat, T: nat, tid: nat)
    requires bs > 0 && T > 0 && tid < T
    requires 0 <= i < n && i % bs == 0 && Owner(i, bs, T) == tid
    requires 0 <= r < n
    ensures (Owner(r, bs, T) == tid && r < i + bs * T) <==> ((Owner(r, bs, T) == tid && r < i) || InTile(r, i, bs, n))
  {
    if i <= r < i + bs * T {
      StrideStep(r, i, bs, T, tid);
    }
  }

  /** The worker lambda for one tid: it adds their entries of A·B to exactly
      the rows it owns and leaves every other row alone; a worker with no band
      below n changes nothing. */
  method Worker(A: seq<int>, B: seq<int>, C: seq<int>, n: nat, bs: nat, T: nat, tid: nat)
    returns (C': seq<int>)
    requires IsMatrix(A, n) && IsMatrix(B, n) && IsMatrix(C, n)
    requires bs > 0 && T > 0 && tid < T
    ensures IsMatrix(C', n)
    ensures forall r, c :: 0 <= r < n && 0 <= c < n ==>
      At(C', n, r, c) == At(C, n, r, c) + (if Owner(r, bs, T) == tid then Entry(A, B, n, r, c) else 0)
    ensures tid * bs >= n ==> C' == C
  {
    C' := C;
    var i := tid * bs;
    DivOfRange(i, bs, tid);
    DivOfRange(tid, T, 0);
    forall r | 0 <= r < i {
      OwnerBelowStart(r, bs, T, tid);
    }
    while i < n
      invariant i >= 0 && i % bs == 0 && Owner(i, bs, T) == tid
      invariant IsMatrix(C', n)
      invariant forall r, c :: 0 <= r < n && 0 <= c < n ==>
        At(C', n, r, c) == At(C, n, r, c) + (if Owner(r, bs, T) == tid && r < i then Entry(A, B, n, r, c) else 0)
      decreases n - i
    {
      StrideNext(i, bs, T, tid);
      C' := WorkerBand(A, B, C, C', n, bs, T, tid, i);
      i := i + bs * T;
    }
    if tid * bs >= n {
      forall r | 0 <= r < n {
        OwnerBelowStart(r, bs, T, tid);
      }
      SameCells(C', C, n);
    }
  }

  /** A run order for the workers: every tid in [0, T) exactly once. */
  predicate IsSchedule(s: seq<nat>, T: nat) {
    && (forall p :: 0 <= p < |s| ==> s[p] < T)
    && (forall t :: 0 <= t < T ==> t in s)
    && (forall p, q :: 0 <= p < q < |s| ==> s[p] != s[q])
  }

  /** All workers, run one after another in the order `schedule`. Whatever the
      order, each row gains its entries of A·B exactly once, so the result is
      C + A·B, the same as the single-threaded blocked kernel's. With no
      workers at all (T == 0) nothing is computed. */
  method RunWorkers(A: seq<int>, B: seq<int>, C: seq<int>, n: nat, bs: nat, T: nat, schedule: seq<nat>)
    returns (C': seq<int>)
    requires IsMatrix(A, n) && IsMatrix(B, n) && IsMatrix(C, n)
    requires bs > 0 && IsSchedule(schedule, T)
    ensures IsMatrix(C', n)
    ensures T > 0 ==> forall r, c :: 0 <= r < n && 0 <= c < n ==>
      At(C', n, r, c) == At(C, n, r, c) + Entry(A, B, n, r, c)
    ensures T > 0 ==> C' == Plus(C, Product(A, B, n), n)
    ensures T == 0 ==> C' == C
  {
    C' := C;
    var p := 0;
    while p < |schedule|
      invariant 0 <= p <= |schedule|
      invariant IsMatrix(C', n)
      invariant forall r, c :: 0 <= r < n && 0 <= c < n ==>
        At(C', n, r, c) == At(C, n, r, c) + (if T > 0 && Owner(r, bs, T) in schedule[..p] then Entry(A, B, n, r, c) else 0)
    {
      assert schedule[..p + 1] == schedule[..p] + [schedule[p]];
      C' := Worker(A, B, C', n, bs, T, schedule[p]);
      p := p + 1;
    }
    assert schedule[..p] == schedule;
    if T > 0 {
      SameCells(C', Plus(C, Product(A, B, n), n), n);
    } else {
      SameCells(C', C, n);
    }
  }

  /** parallelBlockedMultiply: one worker per tid in [0, num_threads), joined
      before C is read. With at least one worker C' is C + A·B, and A·B when C
      starts at zero. */
  method ParallelBlockedMultiply(A: seq<int>, B: seq<int>, C: seq<int>, n: nat, bs: nat, numThreads: nat)
    returns (C': seq<int>)
    requires IsMatrix(A, n) && IsMatrix(B, n) && IsMatrix(C, n)
    requires bs > 0
    ensures IsMatrix(C', n)
    ensures numThreads > 0 ==> C' == Plus(C, Product(A, B, n), n)
    ensures numThreads > 0 && C == Zero(n) ==> C' == Product(A, B, n)
    ensures numThreads == 0 ==> C' == C
  {
    var spawnOrder: seq<nat> := seq(numThreads, t => t);
    forall t | 0 <= t < numThreads
      ensures t in spawnOrder
    {
      assert spawnOrder[t] == t;
    }
    C' := RunWorkers(A, B, C, n, bs, numThreads, spawnOrder);
    if numThreads > 0 && C == Zero(n) {
      PlusZero(Product(A, B, n), n);
    }
  }
}
