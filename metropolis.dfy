/** The single-spin-flip Metropolis update of src/model.rs as a function on
    values. The random draws of `step` become inputs: the proposed site
    `(col, row)` and `metropolisAccepts`, the outcome of the comparison of a
    uniform draw with `exp(-beta * dE)`, which is consulted only when the
    energy difference is positive. */
module Metropolis {

  import Arith
  import opened Boundary
  import opened Lattice
  import opened Energy

  /** The lattice's buffer with its two cached totals. */
  datatype State = State(cells: seq<int>, energy: int, magnetisation: int)

  /** The outcome of one call of `step`: where it proposed a flip and whether
      the Metropolis test would pass. */
  datatype Draw = Draw(col: int, row: int, metropolisAccepts: bool)

  /** The buffer position spin and set_spin use for coordinates (i, j):
      both coordinates wrapped, then laid out with stride `cols` as written,
      or with stride `rows` when corrected. */
  function CellIndex(cols: int, rows: int, rule: Rule, i: int, j: int): (k: int)
    requires cols >= 1 && rows >= 1 && Defined(rule, i, cols) && Defined(rule, j, rows)
    ensures k >= 0
  {
    var col, row := Reflect(rule, i, cols), Reflect(rule, j, rows);
    Arith.MulMonotone(0, col, cols);
    Arith.MulMonotone(0, col, rows);
    match rule
    case AsWritten => FlatIndex(col, row, cols)
    case Corrected => ColumnMajorIndex(col, row, rows)
  }

  /** A lookup at (i, j) on a `cols` by `rows` buffer of length `len` neither
      divides by zero nor indexes past the buffer. */
  predicate Addressable(cols: int, rows: int, rule: Rule, len: int, i: int, j: int) {
    && cols >= 1 && rows >= 1
    && Defined(rule, i, cols) && Defined(rule, j, rows)
    && CellIndex(cols, rows, rule, i, j) < len
  }

  /** The spin at (i, j). */
  function SpinAt(cells: seq<int>, cols: int, rows: int, rule: Rule, i: int, j: int): int
    requires Addressable(cols, rows, rule, |cells|, i, j)
  {
    cells[CellIndex(cols, rows, rule, i, j)]
  }

  /** The shapes on which `step` runs, whatever site it draws. As written:
      both sides at least 2 (reflect_index divides by `boundary - 1`), and no
      wider than tall (otherwise the flat index overruns the buffer).
      Corrected: both sides at least 2, so that the four neighbours of a
      cell are other cells. */
  predicate StepDomain(rule: Rule, cols: int, rows: int) {
    match rule
    case AsWritten => 2 <= cols <= rows
    case Corrected => 2 <= cols && 2 <= rows
  }

  /** A site `step` can draw. */
  predicate Site(cols: int, rows: int, col: int, row: int) {
    0 <= col < cols && 0 <= row < rows
  }

  /** The chosen site and its four neighbours can all be looked up, and the
      chosen site is stored at its plain flat index. */
  lemma NeighboursAddressable(cols: int, rows: int, rule: Rule, col: int, row: int)
    requires StepDomain(rule, cols, rows) && Site(cols, rows, col, row)
    ensures Addressable(cols, rows, rule, cols * rows, col, row)
    ensures Addressable(cols, rows, rule, cols * rows, col + 1, row)
    ensures Addressable(cols, rows, rule, cols * rows, col - 1, row)
    ensures Addressable(cols, rows, rule, cols * rows, col, row - 1)
    ensures Addressable(cols, rows, rule, cols * rows, col, row + 1)
    ensures CellIndex(cols, rows, rule, col, row) ==
      match rule
      case AsWritten => FlatIndex(col, row, cols)
      case Corrected => ColumnMajorIndex(col, row, rows)
  {
    if rule == AsWritten {
      FlatIndexInBounds(col, row, cols, rows);
      FlatIndexInBounds(Reflect(rule, col + 1, cols), row, cols, rows);
      FlatIndexInBounds(Reflect(rule, col - 1, cols), row, cols, rows);
      FlatIndexInBounds(col, Reflect(rule, row - 1, rows), cols, rows);
      FlatIndexInBounds(col, Reflect(rule, row + 1, rows), cols, rows);
    } else {
      ColumnMajorIndexBijective(col, row, cols, rows);
      ColumnMajorIndexBijective(Reflect(rule, col + 1, cols), row, cols, rows);
      ColumnMajorIndexBijective(Reflect(rule, col - 1, cols), row, cols, rows);
      ColumnMajorIndexBijective(col, Reflect(rule, row - 1, rows), cols, rows);
      ColumnMajorIndexBijective(col, Reflect(rule, row + 1, rows), cols, rows);
    }
  }

  /** The energy difference `step` computes for flipping the spin at
      (col, row): twice the spin times the sum of its four neighbours. */
  function EnergyDiff(cells: seq<int>, cols: int, rows: int, rule: Rule, col: int, row: int): (d: int)
    requires StepDomain(rule, cols, rows) && Site(cols, rows, col, row) && |cells| == cols * rows
    ensures AllSpins(cells) ==> d in {-8, -4, 0, 4, 8}
  {
    NeighboursAddressable(cols, rows, rule, col, row);
    var s := SpinAt(cells, cols, rows, rule, col, row);
    var a, b := SpinAt(cells, cols, rows, rule, col + 1, row), SpinAt(cells, cols, rows, rule, col - 1, row);
    var c, e := SpinAt(cells, cols, rows, rule, col, row - 1), SpinAt(cells, cols, rows, rule, col, row + 1);
    assert AllSpins(cells) ==> 2 * s * (a + b + c + e) in {-8, -4, 0, 4, 8} by {
      if AllSpins(cells) {
        SpinProductValues(s, a, b, c, e);
      }
    }
    2 * s * (a + b + c + e)
  }

  /** Twice a spin times the sum of four spins is one of the five energy
      differences a single flip can cause. */
  lemma SpinProductValues(s: int, a: int, b: int, c: int, e: int)
    requires s == 1 || s == -1
    requires (a == 1 || a == -1) && (b == 1 || b == -1) && (c == 1 || c == -1) && (e == 1 || e == -1)
    ensures 2 * s * (a + b + c + e) in {-8, -4, 0, 4, 8}
  {
    var t := a + b + c + e;
    assert t in {-4, -2, 0, 2, 4};
    if s == 1 {
      assert 2 * s * t == 2 * t;
    } else {
      assert 2 * s * t == -2 * t;
    }
  }

  /** The acceptance rule: a flip that does not raise the energy is always
      taken; any other flip only when the Metropolis test passes. */
  predicate Accepts(energyDiff: int, metropolisAccepts: bool) {
    energyDiff <= 0 || metropolisAccepts
  }

  /** One call of `step` with the given draws. */
  function StepSpec(st: State, cols: int, rows: int, rule: Rule, col: int, row: int, metropolisAccepts: bool): (r: State)
    requires StepDomain(rule, cols, rows) && Site(cols, rows, col, row) && |st.cells| == cols * rows
    ensures |r.cells| == |st.cells|
  {
    NeighboursAddressable(cols, rows, rule, col, row);
    var spin := SpinAt(st.cells, cols, rows, rule, col, row);
    var energyDiff := EnergyDiff(st.cells, cols, rows, rule, col, row);
    if Accepts(energyDiff, metropolisAccepts) then
      State(st.cells[CellIndex(cols, rows, rule, col, row) := -spin],
            st.energy + energyDiff,
            st.magnetisation - 2 * spin)
    else
      st
  }

  /** The invariant the lattice keeps: the buffer has `cols * rows` cells,
      every one a spin, and the cached magnetisation is their total. On a
      square lattice with periodic wrapping the cached energy is moreover the
      nearest-neighbour energy of the buffer. */
  ghost predicate Inv(st: State, cols: int, rows: int, rule: Rule) {
    && cols >= 0 && rows >= 0
    && |st.cells| == cols * rows
    && AllSpins(st.cells)
    && st.magnetisation == Sum(st.cells)
    && (rule == Corrected && cols == rows ==> st.energy == Hamiltonian(st.cells, cols))
  }

  /** The state `new` builds: every spin up, energy `-2 * N`, magnetisation
      `N`, for `N = cols * rows`. */
  function Initial(cols: nat, rows: nat): (st: State)
    ensures |st.cells| == cols * rows
  {
    var size := cols * rows;
    State(seq(size, _ => 1), -2 * size, size)
  }

  /** The initial state satisfies the invariant: the closed-form totals are
      the totals of the all-up buffer. */
  lemma InitialInv(cols: nat, rows: nat, rule: Rule)
    ensures Inv(Initial(cols, rows), cols, rows, rule)
    ensures forall k :: 0 <= k < cols * rows ==> Initial(cols, rows).cells[k] == 1
  {
    SumAllUp(cols * rows);
    if rule == Corrected && cols == rows {
      HamiltonianAllUp(cols);
    }
  }

  /** On a square periodic lattice the energy difference `step` computes is
      exactly the change of the nearest-neighbour energy caused by the flip. */
  lemma EnergyDiffIsHamiltonianChange(cells: seq<int>, n: int, col: int, row: int)
    requires StepDomain(Corrected, n, n) && Site(n, n, col, row) && |cells| == n * n
    ensures var p := FlatIndex(col, row, n);
      0 <= p < |cells| &&
      Hamiltonian(cells[p := -cells[p]], n) == Hamiltonian(cells, n) + EnergyDiff(cells, n, n, Corrected, col, row)
  {
    NeighboursAddressable(n, n, Corrected, col, row);
    FlipChangesHamiltonian(cells, n, col, row);
  }

  /** With the periodic wrap a lookup does not change when a coordinate is
      shifted by a whole period, in either direction and either dimension.
      (`Boundary.ReflectIndexNotPeriodic` shows that the wrap as written
      lacks this.) */
  lemma SpinAtPeriodic(cells: seq<int>, cols: int, rows: int, i: int, j: int)
    requires cols >= 1 && rows >= 1 && |cells| == cols * rows
    requires Addressable(cols, rows, Corrected, |cells|, i, j)
    ensures Addressable(cols, rows, Corrected, |cells|, i + cols, j)
    ensures Addressable(cols, rows, Corrected, |cells|, i - cols, j)
    ensures Addressable(cols, rows, Corrected, |cells|, i, j + rows)
    ensures Addressable(cols, rows, Corrected, |cells|, i, j - rows)
    ensures SpinAt(cells, cols, rows, Corrected, i + cols, j) == SpinAt(cells, cols, rows, Corrected, i, j)
    ensures SpinAt(cells, cols, rows, Corrected, i - cols, j) == SpinAt(cells, cols, rows, Corrected, i, j)
    ensures SpinAt(cells, cols, rows, Corrected, i, j + rows) == SpinAt(cells, cols, rows, Corrected, i, j)
    ensures SpinAt(cells, cols, rows, Corrected, i, j - rows) == SpinAt(cells, cols, rows, Corrected, i, j)
  {
    WrapIndexPeriodic(i, cols);
    WrapIndexPeriodic(j, rows);
  }

  /** Cell by cell: a step changes no cell but the chosen one, which it
      negates exactly when the flip is accepted. */
  lemma StepChangesOnlyChosenCell(st: State, cols: int, rows: int, rule: Rule, col: int, row: int, metropolisAccepts: bool)
    requires StepDomain(rule, cols, rows) && Site(cols, rows, col, row) && |st.cells| == cols * rows
    requires AllSpins(st.cells)
    ensures var r := StepSpec(st, cols, rows, rule, col, row, metropolisAccepts);
      var p := CellIndex(cols, rows, rule, col, row);
      && 0 <= p < |st.cells|
      && (forall q :: 0 <= q < |st.cells| && q != p ==> r.cells[q] == st.cells[q])
      && (r.cells[p] == -st.cells[p] <==> Accepts(EnergyDiff(st.cells, cols, rows, rule, col, row), metropolisAccepts))
      && (r.cells[p] == st.cells[p] <==> !Accepts(EnergyDiff(st.cells, cols, rows, rule, col, row), metropolisAccepts))
  {
    NeighboursAddressable(cols, rows, rule, col, row);
    var p := CellIndex(cols, rows, rule, col, row);
    assert st.cells[p] == 1 || st.cells[p] == -1;
  }

  /** Totals on acceptance and rejection: an accepted flip moves the energy by
      exactly the energy difference and the magnetisation by minus twice the
      old spin; a rejected one changes nothing at all. */
  lemma StepTotals(st: State, cols: int, rows: int, rule: Rule, col: int, row: int, metropolisAccepts: bool)
    requires StepDomain(rule, cols, rows) && Site(cols, rows, col, row) && |st.cells| == cols * rows
    ensures var r := StepSpec(st, cols, rows, rule, col, row, metropolisAccepts);
      var p := CellIndex(cols, rows, rule, col, row);
      var d := EnergyDiff(st.cells, cols, rows, rule, col, row);
      && 0 <= p < |st.cells|
      && (Accepts(d, metropolisAccepts) ==>
            r.energy == st.energy + d && r.magnetisation == st.magnetisation - 2 * st.cells[p])
      && (!Accepts(d, metropolisAccepts) ==> r == st)
  {
    NeighboursAddressable(cols, rows, rule, col, row);
  }

  /** A flip that does not raise the energy is taken whatever the random
      test says. */
  lemma DownhillFlipAlwaysAccepted(st: State, cols: int, rows: int, rule: Rule, col: int, row: int)
    requires StepDomain(rule, cols, rows) && Site(cols, rows, col, row) && |st.cells| == cols * rows
    requires EnergyDiff(st.cells, cols, rows, rule, col, row) <= 0
    ensures var p := CellIndex(cols, rows, rule, col, row);
      && 0 <= p < |st.cells|
      && StepSpec(st, cols, rows, rule, col, row, false) == StepSpec(st, cols, rows, rule, col, row, true)
      && StepSpec(st, cols, rows, rule, col, row, false).cells == st.cells[p := -st.cells[p]]
  {
    NeighboursAddressable(cols, rows, rule, col, row);
  }

  /** Every step keeps the invariant: cells stay spins, the cached
      magnetisation stays the total of the buffer, and on a square periodic
      lattice the cached energy stays the nearest-neighbour energy. */
  lemma StepPreservesInv(st: State, cols: int, rows: int, rule: Rule, col: int, row: int, metropolisAccepts: bool)
    requires StepDomain(rule, cols, rows) && Site(cols, rows, col, row)
    requires Inv(st, cols, rows, rule)
    ensures Inv(StepSpec(st, cols, rows, rule, col, row, metropolisAccepts), cols, rows, rule)
  {
    NeighboursAddressable(cols, rows, rule, col, row);
    var p := CellIndex(cols, rows, rule, col, row);
    var r := StepSpec(st, cols, rows, rule, col, row, metropolisAccepts);
    if r != st {
      assert r.cells == st.cells[p := -st.cells[p]];
      SumUpdate(st.cells, p, -st.cells[p]);
      if rule == Corrected && cols == rows {
        EnergyDiffIsHamiltonianChange(st.cells, cols, col, row);
      }
    }
  }

  /** Every draw of a sequence names a site of the grid. */
  predicate DrawsInRange(cols: int, rows: int, draws: seq<Draw>) {
    forall k :: 0 <= k < |draws| ==> Site(cols, rows, draws[k].col, draws[k].row)
  }

  /** Repeated calls of `step`, one per draw. */
  function Run(st: State, cols: int, rows: int, rule: Rule, draws: seq<Draw>): (r: State)
    requires StepDomain(rule, cols, rows) && |st.cells| == cols * rows && DrawsInRange(cols, rows, draws)
    ensures |r.cells| == |st.cells|
    decreases |draws|
  {
    if draws == [] then st
    else
      var d := draws[0];
      Run(StepSpec(st, cols, rows, rule, d.col, d.row, d.metropolisAccepts), cols, rows, rule, draws[1..])
  }

  /** The invariant holds after any sequence of steps: the cached totals
      never drift from the buffer, and the magnetisation stays within
      [-N, N]. */
  lemma {:induction false} RunPreservesInv(st: State, cols: int, rows: int, rule: Rule, draws: seq<Draw>)
    requires StepDomain(rule, cols, rows) && DrawsInRange(cols, rows, draws)
    requires Inv(st, cols, rows, rule)
    ensures Inv(Run(st, cols, rows, rule, draws), cols, rows, rule)
    ensures -(cols * rows) <= Run(st, cols, rows, rule, draws).magnetisation <= cols * rows
    decreases |draws|
  {
    if draws == [] {
      SumOfSpinsBounds(st.cells);
    } else {
      var d := draws[0];
      assert Site(cols, rows, d.col, d.row);
      var next := StepSpec(st, cols, rows, rule, d.col, d.row, d.metropolisAccepts);
      StepPreservesInv(st, cols, rows, rule, d.col, d.row, d.metropolisAccepts);
      assert DrawsInRange(cols, rows, draws[1..]) by {
        forall k | 0 <= k < |draws| - 1 ensures Site(cols, rows, draws[1..][k].col, draws[1..][k].row) {
          assert draws[1..][k] == draws[k + 1];
        }
      }
      RunPreservesInv(next, cols, rows, rule, draws[1..]);
      assert Run(st, cols, rows, rule, draws) == Run(next, cols, rows, rule, draws[1..]);
    }
  }

  /** The zero-temperature limit: when the Metropolis test never passes, the
      all-up lattice `new` builds never changes, since every flip from it
      costs energy 8. */
  lemma {:induction false} AlignedLatticeFrozenWithoutThermalFlips(cols: nat, rows: nat, rule: Rule, draws: seq<Draw>)
    requires StepDomain(rule, cols, rows) && DrawsInRange(cols, rows, draws)
    requires forall k :: 0 <= k < |draws| ==> !draws[k].metropolisAccepts
    ensures Run(Initial(cols, rows), cols, rows, rule, draws) == Initial(cols, rows)
    decreases |draws|
  {
    if draws != [] {
      var d := draws[0];
      NeighboursAddressable(cols, rows, rule, d.col, d.row);
      assert EnergyDiff(Initial(cols, rows).cells, cols, rows, rule, d.col, d.row) == 8;
      AlignedLatticeFrozenWithoutThermalFlips(cols, rows, rule, draws[1..]);
    }
  }

  /** As written, the right-hand neighbour `step` reads for a spin in the
      last column is column 1; the other three are the periodic ones. */
  lemma AsWrittenUpperEdgeNeighbours(cells: seq<int>, n: int, row: int)
    requires n >= 3 && |cells| == n * n && 0 <= row < n - 1
    ensures var p := FlatIndex(n - 1, row, n);
      && 0 <= p < n * n && 0 <= FlatIndex(1, row, n) < n * n && 0 <= FlatIndex(n - 2, row, n) < n * n
      && 0 <= FlatIndex(n - 1, WrapIndex(row - 1, n), n) < n * n
      && 0 <= FlatIndex(n - 1, WrapIndex(row + 1, n), n) < n * n
      && EnergyDiff(cells, n, n, AsWritten, n - 1, row)
         == 2 * cells[p] * (cells[FlatIndex(1, row, n)] + cells[FlatIndex(n - 2, row, n)]
                            + cells[FlatIndex(n - 1, WrapIndex(row - 1, n), n)] + cells[FlatIndex(n - 1, WrapIndex(row + 1, n), n)])
  {
    NeighboursAddressable(n, n, AsWritten, n - 1, row);
    ReflectIndexEdges(n);
    ReflectIndexVersusWrap(row - 1, n);
    ReflectIndexVersusWrap(row + 1, n);
    ReflectIndexVersusWrap(n - 2, n);
    FlatIndexInBounds(1, row, n, n);
  }

  /** With the upper wrap as written, the energy difference `step` charges
      for a flip in the last column differs from the change of the torus
      energy: reflect_index makes column 1, not column 0, the right-hand
      neighbour of column `n - 1`. (Rows below the last one, where the row
      neighbours of both wraps agree.) */
  lemma AsWrittenEnergyDiffAtUpperEdge(cells: seq<int>, n: int, row: int)
    requires n >= 3 && |cells| == n * n && 0 <= row < n - 1
    ensures var p, first, second := FlatIndex(n - 1, row, n), FlatIndex(0, row, n), FlatIndex(1, row, n);
      && 0 <= p < n * n && 0 <= first < n * n && 0 <= second < n * n
      && EnergyDiff(cells, n, n, AsWritten, n - 1, row)
         == Hamiltonian(cells[p := -cells[p]], n) - Hamiltonian(cells, n) + 2 * cells[p] * (cells[second] - cells[first])
  {
    AsWrittenUpperEdgeNeighbours(cells, n, row);
    FlipChangesHamiltonian(cells, n, n - 1, row);
    WrapEdges(n);
    Arith.DivModUnique(n - 2, n, 0, n - 2);
    var p := FlatIndex(n - 1, row, n);
    var sp, wrong, right, left := cells[p], cells[FlatIndex(1, row, n)], cells[FlatIndex(0, row, n)], cells[FlatIndex(n - 2, row, n)];
    var up, down := cells[FlatIndex(n - 1, WrapIndex(row - 1, n), n)], cells[FlatIndex(n - 1, WrapIndex(row + 1, n), n)];
    assert Hamiltonian(cells[p := -cells[p]], n) - Hamiltonian(cells, n) == 2 * sp * (right + left + up + down);
    assert 2 * sp * (wrong + left + up + down) - 2 * sp * (right + left + up + down) == 2 * sp * (wrong - right);
  }

  /** So the cached energy drifts away from the torus energy: on any lattice
      at least 3 wide whose only down spin is cell (0, 0), an accepted flip of
      (n - 1, 0) is charged 4 more than the energy actually changes. */
  lemma AsWrittenEnergyDrifts(n: int)
    requires n >= 3
    ensures var cells := seq(n * n, k => if k == 0 then -1 else 1);
      var st := State(cells, Hamiltonian(cells, n), Sum(cells));
      var r := StepSpec(st, n, n, AsWritten, n - 1, 0, true);
      && Inv(st, n, n, Corrected)
      && r.energy == Hamiltonian(r.cells, n) + 4
  {
    var cells := seq(n * n, k => if k == 0 then -1 else 1);
    var st := State(cells, Hamiltonian(cells, n), Sum(cells));
    AsWrittenEnergyDiffAtUpperEdge(cells, n, 0);
    FlatIndexSquare(n - 1, 0, n);
    FlatIndexSquare(1, 0, n);
    NeighboursAddressable(n, n, AsWritten, n - 1, 0);
    var p := FlatIndex(n - 1, 0, n);
    assert p != 0 && cells[p] == 1 && cells[FlatIndex(0, 0, n)] == -1 && cells[FlatIndex(1, 0, n)] == 1;
  }
}
