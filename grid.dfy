/**
 * The implicit topology of the substrate: 4096 cells laid out row by row on a
 * 64x64 grid, with the four axis-aligned neighbours of get_cell_neighbors.
 */
module Grid {

  const Width: nat := 64
  const CellCount: nat := 4096

  function X(i: nat): nat { i % Width }
  function Y(i: nat): nat { i / Width }

  function Abs(v: int): nat { if v < 0 then -v else v }

  /** Hops between two cells when moving only along rows and columns. */
  function Manhattan(a: nat, b: nat): nat {
    Abs(X(a) - X(b)) + Abs(Y(a) - Y(b))
  }

  /**
   * get_cell_neighbors: no neighbours for an index outside the store,
   * otherwise left, right, top and bottom, in that order, where they exist.
   */
  function Neighbors(idx: nat): seq<nat> {
    if idx >= CellCount then []
    else
      (if X(idx) > 0 then [idx - 1] else []) +
      (if X(idx) < Width - 1 then [idx + 1] else []) +
      (if Y(idx) > 0 then [idx - Width] else []) +
      (if Y(idx) < Width - 1 then [idx + Width] else [])
  }

  /** How many of the four sides of the grid a cell touches. */
  function BorderSides(idx: nat): nat {
    (if X(idx) == 0 then 1 else 0) + (if X(idx) == Width - 1 then 1 else 0) +
    (if Y(idx) == 0 then 1 else 0) + (if Y(idx) == Width - 1 then 1 else 0)
  }

  predicate IsCorner(idx: nat) { idx < CellCount && BorderSides(idx) == 2 }
  predicate IsEdge(idx: nat) { idx < CellCount && BorderSides(idx) == 1 }
  predicate IsInterior(idx: nat) { idx < CellCount && BorderSides(idx) == 0 }

  /** Count 0 outside the store; 2 at a corner, 3 on an edge, 4 inside. */
  lemma NeighborCount(idx: nat)
    ensures idx >= CellCount ==> |Neighbors(idx)| == 0
    ensures idx < CellCount ==> IsCorner(idx) || IsEdge(idx) || IsInterior(idx)
    ensures IsCorner(idx) ==> |Neighbors(idx)| == 2
    ensures IsEdge(idx) ==> |Neighbors(idx)| == 3
    ensures IsInterior(idx) ==> |Neighbors(idx)| == 4
  {
  }

  /** Each neighbour lies in the store and is idx±1 in the same row or idx±64. */
  lemma NeighborShape(idx: nat)
    ensures forall m :: m in Neighbors(idx) ==>
      m < CellCount &&
      ((Y(m) == Y(idx) && (m + 1 == idx || m == idx + 1)) || m + Width == idx || m == idx + Width)
  {
  }

  /** Every listed neighbour is a cell of the store. */
  lemma NeighborsInside(idx: nat)
    ensures forall i :: 0 <= i < |Neighbors(idx)| ==> Neighbors(idx)[i] < CellCount
  {
  }

  /** Two cells of the store one hop apart. */
  predicate Adjacent(a: nat, b: nat) {
    a < CellCount && b < CellCount && Manhattan(a, b) == 1
  }

  /** The neighbour relation is exactly "one hop apart inside the store". */
  lemma NeighborsIff(a: nat, b: nat)
    ensures b in Neighbors(a) <==> Adjacent(a, b)
  {
    if a < CellCount && b < CellCount && Manhattan(a, b) == 1 {
      if X(a) == X(b) {
        if Y(b) == Y(a) + 1 {
          assert b == a + Width;
        } else {
          assert b + Width == a;
        }
      } else {
        if X(b) == X(a) + 1 {
          assert b == a + 1;
        } else {
          assert b + 1 == a;
        }
      }
    }
  }

  lemma NeighborsExactly(a: nat)
    ensures forall b :: b in Neighbors(a) <==> Adjacent(a, b)
  {
    forall b {
      NeighborsIff(a, b);
    }
  }

  /** Every listed neighbour is in the store and one hop away. */
  lemma NeighborsAdjacent(a: nat)
    ensures forall i :: 0 <= i < |Neighbors(a)| ==> Neighbors(a)[i] < CellCount && Adjacent(a, Neighbors(a)[i])
  {
    forall i | 0 <= i < |Neighbors(a)|
      ensures Neighbors(a)[i] < CellCount && Adjacent(a, Neighbors(a)[i])
    {
      NeighborsIff(a, Neighbors(a)[i]);
    }
  }

  /** One hop changes the distance from any fixed cell by exactly one. */
  lemma NeighborDistance(o: nat, c: nat, m: nat)
    requires Adjacent(c, m)
    ensures Manhattan(o, m) == Manhattan(o, c) + 1 || Manhattan(o, m) + 1 == Manhattan(o, c)
  {
  }

  /** Where a cell sits is determined by its column and row. */
  lemma Position(c: nat, x: nat, y: nat)
    requires x < Width && c == y * Width + x
    ensures X(c) == x && Y(c) == y
  {
  }

  /** A neighbour of `c` one hop closer to `o`; it exists whenever c != o. */
  function StepToward(o: nat, c: nat): (p: nat)
    requires o < CellCount && c < CellCount && c != o
    ensures Adjacent(c, p) && Adjacent(p, c)
    ensures Manhattan(o, p) + 1 == Manhattan(o, c)
  {
    if X(c) > X(o) then
      Position(c - 1, X(c) - 1, Y(c));
      c - 1
    else if X(c) < X(o) then
      Position(c + 1, X(c) + 1, Y(c));
      c + 1
    else if Y(c) > Y(o) then
      Position(c - Width, X(c), Y(c) - 1);
      c - Width
    else
      Position(c + Width, X(c), Y(c) + 1);
      c + Width
  }
}
