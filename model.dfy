/** The `Ising` simulator of src/model.rs: a flat buffer of spins updated in
    place, with the energy and magnetisation cached in two fields and moved
    along with every accepted flip.

    `rule` selects how coordinates reach the buffer: `AsWritten` is
    src/model.rs exactly, `Corrected` the periodic torus with stride `rows`
    (see `Boundary.Rule`). The inverse temperature is
    not kept: its only use is the floating-point Metropolis test, whose
    outcome `Step` receives as `metropolisAccepts`. */
module Model {

  import opened Boundary
  import opened Lattice
  import opened Energy
  import opened Metropolis

  class Ising {
    const cols: nat
    const rows: nat
    const rule: Rule
    /** One spin per cell, at the position `Metropolis.CellIndex` gives. */
    const data: array<int>
    var energy: int
    var magnetisation: int

    /** The buffer and the cached totals as a value. */
    ghost function Snapshot(): State
      reads this, data
    {
      State(data[..], energy, magnetisation)
    }

    /** The object invariant kept by `new` and by every `Step`: see
        `Metropolis.Inv`. `SetSpin` alone does not keep it, because it does
        not touch the cached totals. */
    ghost predicate Valid()
      reads this, data
    {
      data.Length == cols * rows && Inv(Snapshot(), cols, rows, rule)
    }

    /** `new`: every spin up, energy `-2 * N`, magnetisation `N`. The size is
        a 16-bit product in the source, hence the bound on it. */
    constructor (cols: nat, rows: nat, rule: Rule)
      requires cols * rows <= 0xFFFF
      ensures Valid() && fresh(data)
      ensures this.cols == cols && this.rows == rows && this.rule == rule
      ensures Snapshot() == Initial(cols, rows)
      ensures data.Length == cols * rows && forall k :: 0 <= k < data.Length ==> data[k] == 1
      ensures energy == -2 * (cols * rows) && magnetisation == cols * rows
    {
      var size := cols * rows;
      this.cols, this.rows, this.rule := cols, rows, rule;
      data := new int[size](_ => 1);
      energy := -2 * size;
      magnetisation := size;
      new;
      assert data[..] == Initial(cols, rows).cells;
      InitialInv(cols, rows, rule);
    }

    /** `spin`: the cell the wrapped coordinates (i, j) name. */
    function Spin(i: int, j: int): (s: int)
      reads this, data
      requires Addressable(cols, rows, rule, data.Length, i, j)
      ensures s == SpinAt(data[..], cols, rows, rule, i, j)
      ensures Valid() ==> s == 1 || s == -1
    {
      data[CellIndex(cols, rows, rule, i, j)]
    }

    /** `set_spin`: writes `value` into the one cell that (i, j) names and
        leaves every other cell and both cached totals alone. */
    method SetSpin(i: int, j: int, value: int)
      requires Addressable(cols, rows, rule, data.Length, i, j)
      modifies data
      ensures data[..] == old(data[..])[CellIndex(cols, rows, rule, i, j) := value]
      ensures Spin(i, j) == value
    {
      data[CellIndex(cols, rows, rule, i, j)] := value;
    }

    /** `step`, with the draws as inputs: propose flipping (col, row), accept
        when the energy does not rise or the Metropolis test passes, and on
        acceptance flip the cell and move both cached totals. Like the source,
        it runs on any buffer of the right size, including one `SetSpin` has
        left out of step with the cached totals; it keeps the object
        invariant whenever that held before. */
    method Step(col: int, row: int, metropolisAccepts: bool)
      requires data.Length == cols * rows
      requires StepDomain(rule, cols, rows) && Site(cols, rows, col, row)
      modifies this, data
      ensures old(Valid()) ==> Valid()
      ensures Snapshot() == StepSpec(old(Snapshot()), cols, rows, rule, col, row, metropolisAccepts)
    {
      ghost var before := Snapshot();
      ghost var wasValid := Valid();
      NeighboursAddressable(cols, rows, rule, col, row);
      var spin := Spin(col, row);
      var energyDiff := 2 * spin * (Spin(col + 1, row) + Spin(col - 1, row) + Spin(col, row - 1) + Spin(col, row + 1));
      if energyDiff <= 0 || metropolisAccepts {
        SetSpin(col, row, -spin);
        energy := energy + energyDiff;
        magnetisation := magnetisation - 2 * spin;
      }
      if wasValid {
        StepPreservesInv(before, cols, rows, rule, col, row, metropolisAccepts);
      }
    }

    /** `size`: the number of cells. */
    function Size(): (n: nat)
      reads this
      ensures Valid() ==> n == cols * rows
    {
      data.Length
    }

    /** `energy`: the cached total, which on a square periodic lattice is the
        nearest-neighbour energy of the buffer and so lies in [-2N, 2N]. */
    function Energy(): (e: int)
      reads this, data
      ensures Valid() && rule == Corrected && cols == rows ==>
        e == Hamiltonian(data[..], cols) && -2 * Size() <= e <= 2 * Size()
    {
      assert Valid() && rule == Corrected && cols == rows ==> -2 * Size() <= energy <= 2 * Size() by {
        if Valid() && rule == Corrected && cols == rows {
          HamiltonianBounds(data[..], cols);
        }
      }
      energy
    }

    /** `magnetisation`: the cached total, which is the sum of the buffer and
        so lies in [-N, N]. */
    function Magnetisation(): (m: int)
      reads this, data
      ensures Valid() ==> m == Sum(data[..]) && -(Size() as int) <= m <= Size()
    {
      assert Valid() ==> -(Size() as int) <= magnetisation <= Size() by {
        if Valid() {
          SumOfSpinsBounds(data[..]);
        }
      }
      magnetisation
    }
  }
}
