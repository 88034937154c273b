/** The nearest-neighbour Ising energy of a square `n` by `n` lattice with
    standard periodic boundaries (coupling 1, no external field), laid out in
    the buffer by `Lattice.FlatIndex`. Each cell contributes the bonds to its
    next column and its next row, so every bond of the torus is counted once. */
module Energy {

  import opened Boundary
  import opened Lattice

  /** The buffer position of the cell one column further on, wrapping. */
  function NextCol(k: int, n: int): (r: int)
    requires n >= 1 && 0 <= k < n * n
    ensures 0 <= r < n * n
  {
    SquareCell(k, n);
    FlatIndexSquare(WrapIndex(k / n + 1, n), k % n, n);
    FlatIndex(WrapIndex(k / n + 1, n), k % n, n)
  }

  /** The buffer position of the cell one row further on, wrapping. */
  function NextRow(k: int, n: int): (r: int)
    requires n >= 1 && 0 <= k < n * n
    ensures 0 <= r < n * n
  {
    SquareCell(k, n);
    FlatIndexSquare(k / n, WrapIndex(k % n + 1, n), n);
    FlatIndex(k / n, WrapIndex(k % n + 1, n), n)
  }

  /** The interaction of cell `k` with its next column and next row. */
  function Bond(s: seq<int>, n: int, k: int): int
    requires n >= 1 && |s| == n * n && 0 <= k < n * n
  {
    s[k] * (s[NextCol(k, n)] + s[NextRow(k, n)])
  }

  /** The bonds of the first `k` cells. */
  function BondSum(s: seq<int>, n: int, k: int): int
    requires n >= 1 && |s| == n * n && 0 <= k <= n * n
  {
    if k == 0 then 0 else BondSum(s, n, k - 1) + Bond(s, n, k - 1)
  }

  /** The total energy: minus the sum of all bonds. */
  function Hamiltonian(s: seq<int>, n: int): int
    requires n >= 0 && |s| == n * n
  {
    if n == 0 then 0 else -BondSum(s, n, n * n)
  }

  /** Stepping one place forward or back, the periodic wrap of an in-range
      coordinate only ever wraps at the edges. */
  lemma WrapNeighbours(x: int, n: int)
    requires 0 <= x < n
    ensures WrapIndex(x + 1, n) == if x + 1 == n then 0 else x + 1
    ensures WrapIndex(x - 1, n) == if x == 0 then n - 1 else x - 1
  {
    if x + 1 == n { WrapEdges(n); } else { ReflectIndexVersusWrap(x + 1, n); }
    if x == 0 { WrapEdges(n); } else { ReflectIndexVersusWrap(x - 1, n); }
  }

  /** Cell `k` is the previous column of cell `p` exactly when `p` is the
      next column of `k`; likewise for rows. */
  lemma PreviousNeighbours(k: int, c: int, r: int, n: int)
    requires n >= 1 && 0 <= k < n * n && 0 <= c < n && 0 <= r < n
    ensures NextCol(k, n) == FlatIndex(c, r, n) <==> k == FlatIndex(WrapIndex(c - 1, n), r, n)
    ensures NextRow(k, n) == FlatIndex(c, r, n) <==> k == FlatIndex(c, WrapIndex(r - 1, n), n)
  {
    SquareCell(k, n);
    var kc, kr := k / n, k % n;
    WrapNeighbours(kc, n);
    WrapNeighbours(kr, n);
    WrapNeighbours(c, n);
    WrapNeighbours(r, n);
    FlatIndexSquare(c, r, n);
    FlatIndexSquare(WrapIndex(kc + 1, n), kr, n);
    FlatIndexSquare(kc, WrapIndex(kr + 1, n), n);
    FlatIndexSquare(WrapIndex(c - 1, n), r, n);
    FlatIndexSquare(c, WrapIndex(r - 1, n), n);
  }

  /** Where the bonds of two buffers differ only at three distinct cells,
      the bond sums differ by those three differences. */
  lemma {:induction false} BondSumChange(s: seq<int>, t: seq<int>, n: int, k: int, p: int, l: int, u: int)
    requires n >= 1 && |s| == n * n && |t| == n * n && 0 <= k <= n * n
    requires 0 <= p < n * n && 0 <= l < n * n && 0 <= u < n * n
    requires p != l && p != u && l != u
    requires forall j :: 0 <= j < n * n && j != p && j != l && j != u ==> Bond(t, n, j) == Bond(s, n, j)
    ensures BondSum(t, n, k) - BondSum(s, n, k) ==
      (if p < k then Bond(t, n, p) - Bond(s, n, p) else 0) +
      (if l < k then Bond(t, n, l) - Bond(s, n, l) else 0) +
      (if u < k then Bond(t, n, u) - Bond(s, n, u) else 0)
  {
    if k > 0 {
      BondSumChange(s, t, n, k - 1, p, l, u);
    }
  }

  /** The five cells around (c, r) on a square torus at least two cells
      wide: the cell, its next and previous column and row. The cell is the
      next column of its previous column and of no other cell, and likewise
      for rows. */
  lemma FlipNeighbourhood(c: int, r: int, n: int)
    requires n >= 2 && 0 <= c < n && 0 <= r < n
    ensures var p := FlatIndex(c, r, n);
      var right, left := FlatIndex(WrapIndex(c + 1, n), r, n), FlatIndex(WrapIndex(c - 1, n), r, n);
      var up, down := FlatIndex(c, WrapIndex(r - 1, n), n), FlatIndex(c, WrapIndex(r + 1, n), n);
      && 0 <= p < n * n && 0 <= right < n * n && 0 <= left < n * n && 0 <= up < n * n && 0 <= down < n * n
      && NextCol(p, n) == right && NextRow(p, n) == down
      && NextCol(left, n) == p && NextRow(up, n) == p
      && NextRow(left, n) != p && NextCol(up, n) != p
      && right != p && down != p && left != p && up != p && left != up
      && (forall j :: 0 <= j < n * n && j != left ==> NextCol(j, n) != p)
      && (forall j :: 0 <= j < n * n && j != up ==> NextRow(j, n) != p)
  {
    var p := FlatIndex(c, r, n);
    WrapNeighbours(c, n);
    WrapNeighbours(r, n);
    FlatIndexSquare(c, r, n);
    var left, up := FlatIndex(WrapIndex(c - 1, n), r, n), FlatIndex(c, WrapIndex(r - 1, n), n);
    FlatIndexSquare(WrapIndex(c + 1, n), r, n);
    FlatIndexSquare(WrapIndex(c - 1, n), r, n);
    FlatIndexSquare(c, WrapIndex(r - 1, n), n);
    FlatIndexSquare(c, WrapIndex(r + 1, n), n);
    PreviousNeighbours(left, c, r, n);
    PreviousNeighbours(up, c, r, n);
    PreviousNeighbours(p, c, r, n);
    forall j | 0 <= j < n * n
      ensures j != left ==> NextCol(j, n) != p
      ensures j != up ==> NextRow(j, n) != p
    {
      PreviousNeighbours(j, c, r, n);
    }
  }

  /** Flipping one spin of a lattice at least two cells wide changes the
      energy by twice that spin times the sum of its four neighbours: the
      energy difference the Metropolis step computes. */
  lemma FlipChangesHamiltonian(s: seq<int>, n: int, c: int, r: int)
    requires n >= 2 && |s| == n * n && 0 <= c < n && 0 <= r < n
    ensures var p := FlatIndex(c, r, n);
      0 <= p < n * n &&
      0 <= FlatIndex(WrapIndex(c + 1, n), r, n) < n * n &&
      0 <= FlatIndex(WrapIndex(c - 1, n), r, n) < n * n &&
      0 <= FlatIndex(c, WrapIndex(r - 1, n), n) < n * n &&
      0 <= FlatIndex(c, WrapIndex(r + 1, n), n) < n * n &&
      Hamiltonian(s[p := -s[p]], n) == Hamiltonian(s, n) + 2 * s[p] *
        (s[FlatIndex(WrapIndex(c + 1, n), r, n)] + s[FlatIndex(WrapIndex(c - 1, n), r, n)] +
         s[FlatIndex(c, WrapIndex(r - 1, n), n)] + s[FlatIndex(c, WrapIndex(r + 1, n), n)])
  {
    FlipNeighbourhood(c, r, n);
    var p := FlatIndex(c, r, n);
    var right, left := FlatIndex(WrapIndex(c + 1, n), r, n), FlatIndex(WrapIndex(c - 1, n), r, n);
    var up, down := FlatIndex(c, WrapIndex(r - 1, n), n), FlatIndex(c, WrapIndex(r + 1, n), n);
    var t := s[p := -s[p]];
    forall j | 0 <= j < n * n && j != p && j != left && j != up
      ensures Bond(t, n, j) == Bond(s, n, j)
    {
      assert NextCol(j, n) != p && NextRow(j, n) != p;
    }
    BondSumChange(s, t, n, n * n, p, left, up);
    var sp, sr, sl, su, sd := s[p], s[right], s[left], s[up], s[down];
    var ld, ur := s[NextRow(left, n)], s[NextCol(up, n)];
    assert Bond(t, n, p) == -sp * (sr + sd) && Bond(s, n, p) == sp * (sr + sd);
    assert Bond(t, n, left) == sl * (-sp + ld) && Bond(s, n, left) == sl * (sp + ld);
    assert Bond(t, n, up) == su * (ur - sp) && Bond(s, n, up) == su * (ur + sp);
    FlipArith(sp, sr, sl, su, sd, ld, ur);
  }

  /** The algebra of the flip: the three changed bonds add up to minus twice
      the spin times its neighbour sum. */
  lemma FlipArith(sp: int, sr: int, sl: int, su: int, sd: int, ld: int, ur: int)
    ensures (-sp * (sr + sd) - sp * (sr + sd)) + (sl * (-sp + ld) - sl * (sp + ld)) + (su * (ur - sp) - su * (ur + sp))
      == -(2 * sp * (sr + sl + su + sd))
  {
    assert sp * (sr + sd) == sp * sr + sp * sd;
    assert sl * (-sp + ld) - sl * (sp + ld) == -2 * (sl * sp);
    assert su * (ur - sp) - su * (ur + sp) == -2 * (su * sp);
    assert sp * (sr + sl + su + sd) == sp * sr + sp * sl + sp * su + sp * sd;
  }

  /** The all-up lattice has energy `-2 * n * n`: two aligned bonds per cell. */
  lemma {:induction false} BondSumAllUp(n: int, k: int)
    requires n >= 1 && 0 <= k <= n * n
    ensures BondSum(seq(n * n, _ => 1), n, k) == 2 * k
  {
    if k > 0 {
      BondSumAllUp(n, k - 1);
    }
  }

  lemma HamiltonianAllUp(n: int)
    requires n >= 0
    ensures Hamiltonian(seq(n * n, _ => 1), n) == -2 * (n * n)
  {
    if n > 0 {
      BondSumAllUp(n, n * n);
    }
  }

  /** Each bond of a lattice of spins lies in [-2, 2], so the energy lies in
      [-2 * n * n, 2 * n * n]. */
  lemma {:induction false} BondSumBounds(s: seq<int>, n: int, k: int)
    requires n >= 1 && |s| == n * n && 0 <= k <= n * n && AllSpins(s)
    ensures -2 * k <= BondSum(s, n, k) <= 2 * k
  {
    if k > 0 {
      BondSumBounds(s, n, k - 1);
      var a, b, c := s[k - 1], s[NextCol(k - 1, n)], s[NextRow(k - 1, n)];
      assert a == 1 || a == -1;
      assert b == 1 || b == -1;
      assert c == 1 || c == -1;
    }
  }

  lemma HamiltonianBounds(s: seq<int>, n: int)
    requires n >= 0 && |s| == n * n && AllSpins(s)
    ensures -2 * (n * n) <= Hamiltonian(s, n) <= 2 * (n * n)
  {
    if n > 0 {
      BondSumBounds(s, n, n * n);
    }
  }
}
