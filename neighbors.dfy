/** Enumeration of the in-bounds cells around one cell (getNeighbors). */
module Neighbors {

  /** A cell position: row x, column y. */
  datatype Coord = Coord(x: int, y: int)

  predicate InBounds(x: int, y: int, xmax: int, ymax: int)
  {
    0 <= x < xmax && 0 <= y < ymax
  }

  /**
   * Reference definition: c is one of the at most eight cells touching
   * (x, y), diagonals included, and both cells lie inside the grid.
   * There is no wrap-around at the edges.
   */
  predicate IsNeighbor(x: int, y: int, c: Coord, xmax: int, ymax: int)
  {
    InBounds(x, y, xmax, ymax) && InBounds(c.x, c.y, xmax, ymax) &&
    c != Coord(x, y) && x - 1 <= c.x <= x + 1 && y - 1 <= c.y <= y + 1
  }

  /** The test the enumeration applies to each candidate (x2, y2) of the 3x3 block. */
  predicate Admits(x: int, y: int, x2: int, y2: int, xmax: int, ymax: int)
  {
    -1 < x <= xmax - 1 && -1 < y <= ymax - 1 && (x != x2 || y != y2) &&
    0 <= x2 <= xmax - 1 && 0 <= y2 <= ymax - 1
  }

  /** The admitted candidates (x2, y2) with y - 1 <= y2 < yEnd, in the order the inner loop visits them. */
  function RowScan(x: int, y: int, xmax: int, ymax: int, x2: int, yEnd: int): seq<Coord>
    decreases yEnd - (y - 1)
  {
    if yEnd <= y - 1 then []
    else
      RowScan(x, y, xmax, ymax, x2, yEnd - 1) +
      (if Admits(x, y, x2, yEnd - 1, xmax, ymax) then [Coord(x2, yEnd - 1)] else [])
  }

  /** The admitted candidates of the rows x - 1 <= x2 < xEnd, in the order the outer loop visits them. */
  function Scan(x: int, y: int, xmax: int, ymax: int, xEnd: int): seq<Coord>
    decreases xEnd - (x - 1)
  {
    if xEnd <= x - 1 then []
    else Scan(x, y, xmax, ymax, xEnd - 1) + RowScan(x, y, xmax, ymax, xEnd - 1, y + 2)
  }

  /** The list getNeighbors returns: the whole 3x3 block scanned row by row. */
  function NeighborList(x: int, y: int, xmax: int, ymax: int): seq<Coord>
  {
    Scan(x, y, xmax, ymax, x + 2)
  }

  predicate Distinct(s: seq<Coord>)
  {
    forall i, j :: 0 <= i < j < |s| ==> s[i] != s[j]
  }

  lemma DistinctConcat(a: seq<Coord>, b: seq<Coord>)
    requires Distinct(a) && Distinct(b)
    requires forall c :: c in a ==> c !in b
    ensures Distinct(a + b)
  {
    forall i, j | 0 <= i < j < |a + b| ensures (a + b)[i] != (a + b)[j] {
      if j >= |a| && i < |a| {
        assert (a + b)[i] in a && (a + b)[j] in b;
      }
    }
  }

  lemma {:induction false} RowScanMembers(x: int, y: int, xmax: int, ymax: int, x2: int, yEnd: int)
    ensures forall c :: c in RowScan(x, y, xmax, ymax, x2, yEnd) <==>
      c.x == x2 && y - 1 <= c.y < yEnd && Admits(x, y, c.x, c.y, xmax, ymax)
    ensures Distinct(RowScan(x, y, xmax, ymax, x2, yEnd))
    decreases yEnd - (y - 1)
  {
    if yEnd > y - 1 {
      RowScanMembers(x, y, xmax, ymax, x2, yEnd - 1);
      var front := RowScan(x, y, xmax, ymax, x2, yEnd - 1);
      var last := if Admits(x, y, x2, yEnd - 1, xmax, ymax) then [Coord(x2, yEnd - 1)] else [];
      DistinctConcat(front, last);
    }
  }

  lemma {:induction false} ScanMembers(x: int, y: int, xmax: int, ymax: int, xEnd: int)
    ensures forall c :: c in Scan(x, y, xmax, ymax, xEnd) <==>
      x - 1 <= c.x < xEnd && y - 1 <= c.y < y + 2 && Admits(x, y, c.x, c.y, xmax, ymax)
    ensures Distinct(Scan(x, y, xmax, ymax, xEnd))
    decreases xEnd - (x - 1)
  {
    if xEnd > x - 1 {
      ScanMembers(x, y, xmax, ymax, xEnd - 1);
      RowScanMembers(x, y, xmax, ymax, xEnd - 1, y + 2);
      DistinctConcat(Scan(x, y, xmax, ymax, xEnd - 1), RowScan(x, y, xmax, ymax, xEnd - 1, y + 2));
    }
  }

  /** One pass of the inner loop admits at most three cells, and at most two in the centre row. */
  lemma RowScanLength(x: int, y: int, xmax: int, ymax: int, x2: int)
    ensures |RowScan(x, y, xmax, ymax, x2, y + 2)| <= if x2 == x then 2 else 3
  {
    assert RowScan(x, y, xmax, ymax, x2, y - 1) == [];
    assert |RowScan(x, y, xmax, ymax, x2, y)| <= 1;
    assert |RowScan(x, y, xmax, ymax, x2, y + 1)| <= if x2 == x then 1 else 2;
  }

  /**
   * The list holds exactly the neighbours of (x, y), each once, so at most
   * eight; it is empty when (x, y) itself lies outside the grid.
   */
  lemma NeighborListSpec(x: int, y: int, xmax: int, ymax: int)
    ensures forall c :: c in NeighborList(x, y, xmax, ymax) <==> IsNeighbor(x, y, c, xmax, ymax)
    ensures Distinct(NeighborList(x, y, xmax, ymax))
    ensures |NeighborList(x, y, xmax, ymax)| <= 8
    ensures !InBounds(x, y, xmax, ymax) ==> NeighborList(x, y, xmax, ymax) == []
  {
    ScanMembers(x, y, xmax, ymax, x + 2);
    assert Scan(x, y, xmax, ymax, x - 1) == [];
    assert Scan(x, y, xmax, ymax, x) == RowScan(x, y, xmax, ymax, x - 1, y + 2);
    assert Scan(x, y, xmax, ymax, x + 1) == Scan(x, y, xmax, ymax, x) + RowScan(x, y, xmax, ymax, x, y + 2);
    RowScanLength(x, y, xmax, ymax, x - 1);
    RowScanLength(x, y, xmax, ymax, x);
    RowScanLength(x, y, xmax, ymax, x + 1);
    var n := NeighborList(x, y, xmax, ymax);
    if n != [] {
      assert n[0] in n;
      assert IsNeighbor(x, y, n[0], xmax, ymax);
    }
  }

  /** Neighbourhood is symmetric: b is listed around a exactly when a is listed around b. */
  lemma NeighborSymmetric(a: Coord, b: Coord, xmax: int, ymax: int)
    ensures b in NeighborList(a.x, a.y, xmax, ymax) <==> a in NeighborList(b.x, b.y, xmax, ymax)
  {
    NeighborListSpec(a.x, a.y, xmax, ymax);
    NeighborListSpec(b.x, b.y, xmax, ymax);
  }

  /** getNeighbors: scans the 3x3 block around (x, y) and collects the admitted cells. */
  method GetNeighbors(x: int, y: int, xmax: int, ymax: int) returns (neighbors: seq<Coord>)
    ensures neighbors == NeighborList(x, y, xmax, ymax)
    ensures forall c :: c in neighbors <==> IsNeighbor(x, y, c, xmax, ymax)
    ensures Distinct(neighbors) && |neighbors| <= 8
    ensures !InBounds(x, y, xmax, ymax) ==> neighbors == []
  {
    neighbors := [];
    for x2 := x - 1 to x + 2
      invariant neighbors == Scan(x, y, xmax, ymax, x2)
    {
      for y2 := y - 1 to y + 2
        invariant neighbors == Scan(x, y, xmax, ymax, x2) + RowScan(x, y, xmax, ymax, x2, y2)
      {
        if Admits(x, y, x2, y2, xmax, ymax) {
          neighbors := neighbors + [Coord(x2, y2)];
        }
      }
    }
    NeighborListSpec(x, y, xmax, ymax);
  }
}
