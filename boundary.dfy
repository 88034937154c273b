/** Coordinate wrapping at the lattice edge.

    `ReflectIndex` is the formula of `reflect_index` in src/model.rs, kept
    exactly: its upper wrap reduces modulo `boundary - 1`, not `boundary`.
    `WrapIndex` is standard periodic (toroidal) wrapping, defined beside it so
    that the two can be compared and so that a lattice can be built on either. */
module Boundary {

  import Arith

  /** How a lattice turns coordinates into a buffer position. `AsWritten`
      is src/model.rs: reflect_index and the stride `cols`. `Corrected` wraps
      periodically (`WrapIndex`) and strides by `rows`
      (`Lattice.ColumnMajorIndex`); see `Metropolis.CellIndex`. */
  datatype Rule = AsWritten | Corrected

  /** True where reflect_index neither divides by zero nor is asked about an
      empty dimension. */
  predicate ReflectDefined(index: int, boundary: int) {
    boundary >= 1 && (index > boundary - 1 ==> boundary >= 2)
  }

  /** reflect_index: below zero it counts back from `boundary`, above
      `boundary - 1` it reduces modulo `boundary - 1`. */
  function ReflectIndex(index: int, boundary: int): (r: int)
    requires ReflectDefined(index, boundary)
    ensures 0 <= index < boundary ==> r == index
    ensures index < 0 ==> 1 <= r <= boundary
    ensures index >= boundary ==> 0 <= r <= boundary - 2
  {
    if index < 0 then boundary - (-index % boundary)
    else if index > boundary - 1 then index % (boundary - 1)
    else index
  }

  /** What reflect_index computes, as residues: below zero it is congruent to
      `index` modulo `boundary`, and yields `boundary` itself (one past the
      grid) exactly for the multiples of `boundary`; above the grid it is
      congruent to `index` modulo `boundary - 1` only. */
  lemma ReflectIndexResidue(index: int, boundary: int)
    requires ReflectDefined(index, boundary)
    ensures index < 0 ==> (ReflectIndex(index, boundary) - index) % boundary == 0
    ensures index < 0 ==> (ReflectIndex(index, boundary) == boundary <==> index % boundary == 0)
    ensures index >= boundary ==> (index - ReflectIndex(index, boundary)) % (boundary - 1) == 0
  {
    var r := ReflectIndex(index, boundary);
    if index < 0 {
      var m := -index;
      assert m == boundary * (m / boundary) + m % boundary;
      Arith.DivModUnique(r - index, boundary, 1 + m / boundary, 0);
      if m % boundary == 0 {
        Arith.DivModUnique(index, boundary, -(m / boundary), 0);
      } else {
        Arith.DivModUnique(index, boundary, -(m / boundary) - 1, boundary - m % boundary);
      }
    } else if index >= boundary {
      var b1 := boundary - 1;
      assert index == b1 * (index / b1) + index % b1;
      Arith.DivModUnique(index - r, b1, index / b1, 0);
    }
  }

  /** Standard periodic wrap: the representative of `index` in [0, boundary). */
  function WrapIndex(index: int, boundary: int): (r: int)
    requires boundary >= 1
    ensures 0 <= r < boundary
    ensures (index - r) % boundary == 0
  {
    assert index == boundary * (index / boundary) + index % boundary;
    Arith.DivModUnique(index - index % boundary, boundary, index / boundary, 0);
    index % boundary
  }

  /** Where `Reflect` is defined for the given rule. */
  predicate Defined(rule: Rule, index: int, boundary: int) {
    match rule
    case AsWritten => ReflectDefined(index, boundary)
    case Corrected => boundary >= 1
  }

  /** The wrap a lattice applies, chosen by its rule. Every coordinate the
      Metropolis step asks about, from -1 to `boundary`, lands inside the grid
      under either rule. */
  function Reflect(rule: Rule, index: int, boundary: int): (r: int)
    requires Defined(rule, index, boundary)
    ensures 0 <= index < boundary ==> r == index
    ensures boundary >= 2 && -1 <= index <= boundary ==> 0 <= r < boundary
  {
    match rule
    case AsWritten => ReflectIndex(index, boundary)
    case Corrected => WrapIndex(index, boundary)
  }

  /** The two out-of-range coordinates the Metropolis step uses: -1 goes to
      `b - 1`; `b` goes to 1 when `b >= 3` but to 0 when `b == 2`. */
  lemma ReflectIndexEdges(b: int)
    requires b >= 2
    ensures ReflectIndex(-1, b) == b - 1
    ensures ReflectIndex(b, b) == if b == 2 then 0 else 1
  {
    if b > 2 {
      assert b == (b - 1) * 1 + 1;
    }
  }

  /** reflect_index agrees with the periodic wrap on [-1, b) and disagrees at
      `b` exactly when `b >= 3`. */
  lemma ReflectIndexVersusWrap(i: int, b: int)
    requires b >= 2 && -1 <= i <= b
    ensures i < b ==> ReflectIndex(i, b) == WrapIndex(i, b)
    ensures i == b ==> (ReflectIndex(i, b) == WrapIndex(i, b) <==> b == 2)
  {
    ReflectIndexEdges(b);
    WrapEdges(b);
    if 0 <= i < b {
      Arith.DivModUnique(i, b, 0, i);
    }
  }

  /** The periodic wrap of the step's out-of-range coordinates. */
  lemma WrapEdges(b: int)
    requires b >= 1
    ensures WrapIndex(-1, b) == b - 1
    ensures WrapIndex(b, b) == 0
  {
    Arith.DivModUnique(-1, b, -1, b - 1);
    Arith.DivModUnique(b, b, 1, 0);
  }

  /** Periodicity of the standard wrap: shifting by one period changes nothing. */
  lemma WrapIndexPeriodic(i: int, b: int)
    requires b >= 1
    ensures WrapIndex(i + b, b) == WrapIndex(i, b)
    ensures WrapIndex(i - b, b) == WrapIndex(i, b)
  {
    assert i == b * (i / b) + i % b;
    Arith.DivModUnique(i + b, b, i / b + 1, i % b);
    Arith.DivModUnique(i - b, b, i / b - 1, i % b);
  }

  /** reflect_index is not periodic: for every `b >= 3` the coordinates 0 and
      `b` name different columns. */
  lemma ReflectIndexNotPeriodic(b: int)
    requires b >= 3
    ensures ReflectIndex(0 + b, b) != ReflectIndex(0, b)
    ensures WrapIndex(0 + b, b) == WrapIndex(0, b)
  {
    ReflectIndexEdges(b);
    WrapIndexPeriodic(0, b);
  }
}
