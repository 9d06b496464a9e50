/** One-dimensional tiling of the index range [0, n) into tiles of edge bs,
    the last one clipped at n with `std::min`. The blocked kernels tile each
    of the three loop dimensions this way. */
module Tiling {
  import opened Arith

  /** std::min on ints. */
  function Min(a: int, b: int): int {
    if a <= b then a else b
  }

  /** End (exclusive) of the tile that starts at `origin`: min(origin + bs, n).
      A tile that starts inside the matrix is non-empty, never longer than bs,
      and never runs past n. */
  function TileEnd(origin: int, bs: nat, n: int): (e: int)
    ensures e <= n && e <= origin + bs
    ensures e == n || e == origin + bs
    ensures origin < n && 0 < bs ==> origin < e
  {
    Min(origin + bs, n)
  }

  /** x is one of the indices the tile starting at `origin` runs over. */
  predicate InTile(x: int, origin: int, bs: nat, n: int) {
    origin <= x < TileEnd(origin, bs, n)
  }

  /** The tile origins `for (o = 0; o < n; o += bs)` visits: the multiples of
      bs below n. */
  predicate IsOrigin(o: int, bs: nat, n: int)
    requires bs > 0
  {
    0 <= o < n && o % bs == 0
  }

  /** The origin of the tile holding x. */
  function TileOrigin(x: nat, bs: nat): nat
    requires bs > 0
  {
    (x / bs) * bs
  }

  /** Clipped tiles partition [0, n): every index lies in the tile of exactly
      one visited origin, even when bs does not divide n, and a tile only holds
      indices of [0, n). Applied to each of ii, jj and kk, this is why the six
      blocked loops visit every triple of [0, n)³ exactly once. */
  lemma TilesPartition(x: int, bs: nat, n: int)
    requires bs > 0 && 0 <= x < n
    ensures IsOrigin(TileOrigin(x, bs), bs, n) && InTile(x, TileOrigin(x, bs), bs, n)
    ensures forall o :: IsOrigin(o, bs, n) && InTile(x, o, bs, n) ==> o == TileOrigin(x, bs)
  {
    var q := x / bs;
    assert x == q * bs + x % bs;
    assert (q * bs) % bs == 0 && (q * bs) / bs == q by {
      DivModUnique(q * bs, bs, q, 0);
    }
    forall o | IsOrigin(o, bs, n) && InTile(x, o, bs, n)
      ensures o == TileOrigin(x, bs)
    {
      var p := o / bs;
      assert o == p * bs;
      assert x - o < bs;
      DivModUnique(x, bs, p, x - o);
    }
  }
}
