# Ising lattice simulator — a Dafny model

This project models the `Ising` simulator of `src/model.rs`. It simulates the
2D Ising model by single-spin-flip Metropolis updates on a periodic grid of
`cols × rows` spins. The spins (+1 or −1) live in a flat buffer that is updated
in place. Two integer totals are cached beside the buffer and moved along with
every accepted flip: `energy` and `magnetisation`.

Modules, one concept each:

- `Arith` (arith.dfy): facts about Euclidean division that the index arithmetic
  needs.
- `Boundary` (boundary.dfy): `reflect_index` as written (`ReflectIndex`), and
  standard periodic wrapping (`WrapIndex`).
- `Lattice` (lattice.dfy): the flat index `col * cols + row` and a
  column-major index with stride `rows`. It also holds the sums over the buffer:
  the magnetisation and the absolute magnetisation.
- `Energy` (energy.dfy): the nearest-neighbour energy of a square periodic
  lattice (coupling 1, no field). Its main lemma says that flipping one spin
  changes this energy by `2·s·(sum of the four neighbours)`.
- `Metropolis` (metropolis.dfy): one call of `step` as a function on values
  (`StepSpec`), with `new`'s initial state and repeated steps (`Run`). The
  lattice invariant and the lemmas about steps are here.
- `Model` (model.dfy): the class `Ising`. It holds an `array<int>` buffer and
  the two cached fields. `SetSpin` and `Step` update them in place, and `Step`
  is proved to equal `StepSpec`.

`step` draws randomly in the source. Here those draws are inputs:

- the proposed site `(col, row)`;
- `metropolisAccepts`, the outcome of the test `uniform < exp(-beta·ΔE)`.

The source consults that test only when `ΔE > 0`. So `Step` is a deterministic
transition.

Both reflect_index and the flat index have defects (see Findings). So the class
takes a `Rule`:

- `AsWritten` reproduces `src/model.rs` exactly.
- `Corrected` uses periodic wrapping and the stride `rows`.

The object invariant (`Metropolis.Inv`) holds under both rules:

- every cell is ±1;
- the cached magnetisation is the sum of the buffer.

The cached energy is proved equal to the nearest-neighbour energy under
`Corrected` on square lattices. On a 2×2 lattice `AsWritten` computes the same
positions as `Corrected`, since reflect_index wraps correctly when the boundary
is 2 and the two strides coincide on a square grid. So there is no drift there.
On every square lattice with n ≥ 3, the cached energy under `AsWritten`
provably drifts away from the true energy (`Metropolis.AsWrittenEnergyDrifts`).

## Model

| member | source | states |
|---|---|---|
| `Boundary.ReflectIndex` | src/model.rs:100-109 | Defined wherever the source neither divides by zero nor is given an empty dimension (boundary ≥ 1). In-range indices are returned unchanged. Negative ones land in [1, boundary]. Ones past the edge land in [0, boundary − 2]. |
| `Boundary.ReflectIndexResidue` | src/model.rs:100-109 | Below zero, the result is congruent to the index modulo `boundary`, and equals `boundary` (off the grid) exactly for multiples of `boundary`. Above the grid it is congruent only modulo `boundary − 1`. |
| `Boundary.ReflectIndexEdges` | src/model.rs:104-106 | −1 maps to `b − 1`. `b` maps to 1 when `b ≥ 3` and to 0 when `b = 2`. |
| `Boundary.WrapIndex` | src/model.rs:100-109 | The standard wrap: the unique representative in [0, boundary) of the index's residue class. |
| `Boundary.WrapEdges` | src/model.rs:100-109 | The standard wrap sends −1 to `b − 1` and `b` to 0. |
| `Boundary.ReflectIndexVersusWrap` | src/model.rs:100-109 | reflect_index agrees with the standard wrap on [−1, b). At `b` it agrees exactly when `b = 2`. |
| `Boundary.WrapIndexPeriodic` | src/model.rs:104-106 | The standard wrap is unchanged by a shift of ±b. |
| `Boundary.ReflectIndexNotPeriodic` | src/model.rs:104-106 | For every `b ≥ 3`, reflect_index sends `0 + b` and `0` to different columns, which the standard wrap does not. |
| `Boundary.Reflect` | src/model.rs:27-28 | Under either rule, in-range coordinates are unchanged, and every coordinate in [−1, b] lands in [0, b) when b ≥ 2. |
| `Lattice.FlatIndexInBounds` | src/model.rs:30 | With 1 ≤ cols ≤ rows, every in-range pair lands inside the buffer of `cols·rows` cells. |
| `Lattice.FlatIndexSquare` | src/model.rs:30 | On a square grid, division and remainder by `n` recover the pair from its index (injective). |
| `Lattice.SquareCell` | src/model.rs:30 | On a square grid, every buffer position is the index of an in-range pair (surjective). |
| `Lattice.FlatIndexAliasesWhenTall` | src/model.rs:30 | On a 2-column, 3-row grid, (0, 2) and (1, 0) share position 2. |
| `Lattice.FlatIndexOverrunsWhenWide` | src/model.rs:30 | On a 3-column, 2-row grid, (2, 1) lands at position 7 of a 6-cell buffer. |
| `Lattice.ColumnMajorIndexBijective` | src/model.rs:30 | Stride `rows` puts every in-range pair of any grid in bounds, and the pair is recovered from its index. |
| `Lattice.ColumnMajorIndexOnto` | src/model.rs:30 | Stride `rows` reaches every position of the buffer. |
| `Lattice.SumUpdate` | src/model.rs:56-59 | Writing `v` at one position changes the buffer's sum by `v − old`. This is the cached-magnetisation update rule. |
| `Lattice.SumOfSpinsBounds` | src/model.rs:71-73 | A buffer of spins sums to a value in [−N, N] with the parity of N. |
| `Lattice.SumAllUp` | src/model.rs:20-22 | The all-up buffer of N cells sums to N. |
| `Lattice.AbsSumOfSpins` | src/model.rs:88-97 | The absolute values of a buffer of spins sum to N, so the absolute magnetisation per cell is always 1. |
| `Energy.FlipChangesHamiltonian` | src/model.rs:48-53 | On an n×n torus with n ≥ 2, flipping spin s changes the nearest-neighbour energy by exactly 2·s·(sum of its four periodic neighbours). |
| `Energy.HamiltonianAllUp` | src/model.rs:21 | The all-up n×n lattice has energy −2·n·n. |
| `Energy.HamiltonianBounds` | src/model.rs:58 | A lattice of spins has energy in [−2N, 2N]. |
| `Metropolis.CellIndex` | src/model.rs:26-38 | The position spin/set_spin read and write is never negative. |
| `Metropolis.NeighboursAddressable` | src/model.rs:43-53 | On the step domain, the drawn site and its four neighbours can all be looked up without a panic. The site itself sits at its plain layout index. |
| `Metropolis.EnergyDiff` | src/model.rs:48-53 | When every cell is a spin, ΔE is one of −8, −4, 0, 4, 8. |
| `Metropolis.SpinProductValues` | src/model.rs:48-53 | Twice a spin times the sum of four spins is one of −8, −4, 0, 4, 8. |
| `Metropolis.StepSpec` | src/model.rs:40-61 | One step keeps the buffer length (`size()` never changes). |
| `Metropolis.Initial` | src/model.rs:13-24 | `new` builds a buffer of `cols·rows` cells. |
| `Metropolis.InitialInv` | src/model.rs:13-24 | Every cell starts at +1, and the closed-form totals −2N and N satisfy the invariant. Under `Corrected` on a square lattice, −2N is the true energy. |
| `Metropolis.EnergyDiffIsHamiltonianChange` | src/model.rs:48-58 | On a square `Corrected` lattice, the ΔE that `step` computes is exactly the change in nearest-neighbour energy caused by the flip. |
| `Metropolis.SpinAtPeriodic` | src/model.rs:26-31 | Under `Corrected`, spin(i, j) = spin(i ± cols, j) = spin(i, j ± rows). |
| `Metropolis.StepChangesOnlyChosenCell` | src/model.rs:55-57 | A step leaves every cell but the chosen one as it was. It negates the chosen one if and only if the flip is accepted, and leaves it alone if and only if it is rejected. |
| `Metropolis.StepTotals` | src/model.rs:55-60 | On acceptance, energy rises by exactly ΔE and magnetisation falls by exactly 2·s. On rejection the whole state is unchanged. |
| `Metropolis.DownhillFlipAlwaysAccepted` | src/model.rs:55 | A flip with ΔE ≤ 0 is taken whatever the random test says. |
| `Metropolis.StepPreservesInv` | src/model.rs:55-60 | Every step keeps the invariant: cells stay ±1 and magnetisation equals the sum of the buffer. Under `Corrected` on a square lattice, energy also equals the nearest-neighbour energy. |
| `Metropolis.Run` | src/main.rs:14-16 | Repeated steps keep the buffer length. |
| `Metropolis.RunPreservesInv` | src/main.rs:14-16 | After any sequence of steps the invariant still holds, and magnetisation stays in [−N, N]. |
| `Metropolis.AlignedLatticeFrozenWithoutThermalFlips` | src/model.rs:55 | Zero-temperature limit: if the random test never passes, the all-up lattice never changes, because every flip from it costs 8. |
| `Metropolis.AsWrittenUpperEdgeNeighbours` | src/model.rs:48-53 | As written, for a spin in the last column and any row but the last, `step` takes column 1 as the right-hand neighbour. Its left, up and down neighbours are the periodic ones. |
| `Metropolis.AsWrittenEnergyDiffAtUpperEdge` | src/model.rs:104-106 | As written, for a flip in the last column and any row but the last (n ≥ 3), ΔE exceeds the true energy change by 2·s·(spin in column 1 − spin in column 0). |
| `Metropolis.AsWrittenEnergyDrifts` | src/model.rs:58 | As written, on any n ≥ 3 lattice whose only down spin is (0, 0), flipping (n − 1, 0) is charged 4 more than the true energy changes. |
| `Model.Ising.constructor` | src/model.rs:13-24 | `new` gives `cols·rows` cells, all +1, energy −2·cols·rows and magnetisation cols·rows, and the object invariant holds. |
| `Model.Ising.Spin` | src/model.rs:26-31 | `spin` reads the cell the wrapped coordinates name. On a valid lattice it is ±1. |
| `Model.Ising.SetSpin` | src/model.rs:33-38 | `set_spin` changes exactly the addressed cell to `value`, leaves every other cell unchanged, and a following `Spin(i, j)` returns `value`. |
| `Model.Ising.Step` | src/model.rs:40-61 | `step` runs on any buffer of `cols·rows` cells, including one that `set_spin` has left inconsistent with the cached totals. Its new buffer and totals are `StepSpec` of the old ones, and it keeps the object invariant whenever that held before. |
| `Model.Ising.Size` | src/model.rs:63-65 | `size()` is `cols·rows` on a valid lattice. |
| `Model.Ising.Energy` | src/model.rs:67-69 | Under `Corrected` on a square lattice, `energy()` is the buffer's nearest-neighbour energy and lies in [−2N, 2N]. |
| `Model.Ising.Magnetisation` | src/model.rs:71-73 | On a valid lattice, `magnetisation()` is the sum of the buffer and lies in [−N, N]. |

## Findings

| source | as written | input that shows it | evidently intended | confidence | as-written member | corrected member |
|---|---|---|---|---|---|---|
| src/model.rs:104-106 | The upper wrap is `index % (boundary - 1)`. | Boundary 3, index 3 gives column 1, not 0. On a 3×3 lattice whose only down spin is (0, 0), an accepted flip of (2, 0) is charged ΔE = 8, but the torus energy rises by 4. The cached energy then no longer equals the lattice energy. | `index % boundary`, periodic like the lower wrap | high; not executed | `Metropolis.AsWrittenEnergyDrifts` | `Metropolis.StepPreservesInv` |
| src/model.rs:30 | The flat index is `col * cols + row`: stride `cols`, although a column holds `rows` cells. | 2 columns × 3 rows: (0, 2) and (1, 0) both map to position 2. 3 columns × 2 rows: (2, 1) maps to position 7 of a 6-cell buffer, so `step` can panic. | `col * rows + row` | high; not executed | `Lattice.FlatIndexAliasesWhenTall` | `Lattice.ColumnMajorIndexBijective` |

Under `Rule.Corrected`, the class and `Metropolis` use both corrections:

- `Boundary.WrapIndex` for the wrap;
- `Lattice.ColumnMajorIndex` for the layout.

With that rule, `StepPreservesInv` proves that the cached energy stays the
torus energy. Under `Rule.AsWritten` they keep the source's formulas.

## Left out

- The random source is not modelled: `thread_rng`, `gen_range` and
  `gen::<f64>` become the inputs of `Step`. The source draws the uniform
  number only when ΔE > 0; the model does not capture how that affects the
  random stream.
- Temperature is not modelled: `beta = 1/temperature` and the `exp(-beta·ΔE)`
  comparison are floating point. Only their outcome, `metropolisAccepts`, is
  kept, and the constructor takes no temperature.
- `susceptibility` and `absolute_magnetisation` are not modelled, because they
  are floating-point averages. The integer fact behind the second one is
  `Lattice.AbsSumOfSpins`.
- Fixed-width integers are modelled as unbounded integers:
  - `i8` cells and `SetSpin`'s `value`;
  - `i32` energy and magnetisation;
  - `u16` sizes and indices.

  The constructor requires `cols·rows ≤ 65535`, which is where the source's
  16-bit size product does not overflow. Under `Corrected` on square lattices
  the energy stays in [−2N, 2N] and the magnetisation in [−N, N], so neither
  overflows `i32`. The unbounded drift of energy under `AsWritten`, and `i32`
  overflow after very many steps, are not modelled. Neither is 16-bit
  wrap-around of `col * cols + row` in an unchecked build.
- `Model.Ising.Spin` and `Model.Ising.SetSpin` require exactly what keeps the
  source from panicking: a nonzero remainder divisor, and a buffer position
  inside the buffer. On a 0-wide grid the source computes `index % -1`, but
  every position is out of bounds there anyway. The negation overflow of
  `-i32::MIN` is not modelled.
- `Model.Ising.Step` requires 2 ≤ cols ≤ rows under `AsWritten`. That is the
  exact shape on which the source never panics. A side of length 1 makes
  reflect_index take a remainder by zero, and a grid wider than tall overruns
  the buffer.
- `Model.Ising.SetSpin` does not keep the object invariant, because the source's
  `set_spin` is public but does not update the cached totals. The invariant
  holds for lattices built by `new` and advanced by `step`. `Step` still runs
  after `SetSpin`, as in the source, but then only its `StepSpec` transition
  is promised.
- The energy invariant is stated only under `Corrected` on square lattices.
  Non-square lattices under `Corrected` keep the spin and magnetisation
  invariant, but their nearest-neighbour energy is not defined here.
- src/main.rs is not modelled. It contains argument parsing with clap, the
  fixed 5×5 driver and printing. Its loop of `step` calls is represented only
  by `Metropolis.Run`.
