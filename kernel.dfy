/** One generation of the automaton on a grid or a worker's slice (getNextGraph). */
module Kernel {
  import opened Grids
  import opened Neighbors

  /** 1 when (i, j) lies inside g and holds a live cell, 0 otherwise. */
  function Cell(g: Grid, i: int, j: int): int
  {
    if 0 <= i < |g| && 0 <= j < |g[i]| && g[i][j] == 1 then 1 else 0
  }

  /** Reference count of the live cells among the eight cells touching (i, j). */
  function LiveAround(g: Grid, i: int, j: int): int
  {
    Cell(g, i - 1, j - 1) + Cell(g, i - 1, j) + Cell(g, i - 1, j + 1) +
    Cell(g, i, j - 1) + Cell(g, i, j + 1) +
    Cell(g, i + 1, j - 1) + Cell(g, i + 1, j) + Cell(g, i + 1, j + 1)
  }

  /**
   * The next value of a cell holding v with n live neighbours. For a live cell
   * (1) and a dead cell (0) these are the four rules of the game: a live cell
   * survives with two or three live neighbours, a dead one comes alive with
   * exactly three, every other cell is dead next. A count of two keeps whatever
   * the cell held.
   */
  function NextCell(v: int, n: int): (r: int)
    ensures v == 1 ==> (r == 1 <==> 2 <= n <= 3) && (r == 0 <==> n < 2 || n > 3)
    ensures v == 0 ==> (r == 1 <==> n == 3) && (r == 0 <==> n != 3)
    ensures n == 2 ==> r == v
    ensures n != 2 ==> r == 0 || r == 1
  {
    if n < 2 || n > 3 then 0 else if n == 3 then 1 else v
  }

  /** Reference next generation: every cell updated from the unchanged grid g. */
  function NextGraph(g: Grid): Grid
  {
    seq(|g|, i requires 0 <= i < |g| =>
      seq(|g[i]|, j requires 0 <= j < |g[i]| => NextCell(g[i][j], LiveAround(g, i, j))))
  }

  /** One cell of the reference next generation. */
  lemma NextGraphAt(g: Grid, i: int, j: int)
    requires 0 <= i < |g| && 0 <= j < |g[i]|
    ensures |NextGraph(g)| == |g| && |NextGraph(g)[i]| == |g[i]|
    ensures NextGraph(g)[i][j] == NextCell(g[i][j], LiveAround(g, i, j))
  {
  }

  /** The reference next generation has the shape of g, every cell given by NextCell. */
  lemma NextGraphShape(g: Grid, cols: int)
    requires IsRect(g, cols)
    ensures |NextGraph(g)| == |g| && IsRect(NextGraph(g), cols)
    ensures forall i, j :: 0 <= i < |g| && 0 <= j < cols ==>
      NextGraph(g)[i][j] == NextCell(g[i][j], LiveAround(g, i, j))
  {
  }

  /** The number of live cells of g at the positions cs. */
  function CountLive(g: Grid, cs: seq<Coord>): nat
  {
    if cs == [] then 0
    else CountLive(g, cs[..|cs| - 1]) + Cell(g, cs[|cs| - 1].x, cs[|cs| - 1].y)
  }

  lemma {:induction false} CountLiveConcat(g: Grid, a: seq<Coord>, b: seq<Coord>)
    ensures CountLive(g, a + b) == CountLive(g, a) + CountLive(g, b)
    decreases |b|
  {
    if b == [] {
      assert a + b == a;
    } else {
      assert (a + b)[..|a + b| - 1] == a + b[..|b| - 1];
      assert (a + b)[|a + b| - 1] == b[|b| - 1];
      CountLiveConcat(g, a, b[..|b| - 1]);
      assert CountLive(g, a + b) == CountLive(g, a + b[..|b| - 1]) + Cell(g, b[|b| - 1].x, b[|b| - 1].y);
    }
  }

  /** Extending one row of the scan by one candidate adds that candidate's cell when it is admitted. */
  lemma RowScanStep(g: Grid, i: int, j: int, xmax: int, ymax: int, x2: int, y2: int)
    requires y2 >= j - 1
    ensures CountLive(g, RowScan(i, j, xmax, ymax, x2, y2 + 1)) ==
      CountLive(g, RowScan(i, j, xmax, ymax, x2, y2)) +
      (if Admits(i, j, x2, y2, xmax, ymax) then Cell(g, x2, y2) else 0)
  {
    var piece := if Admits(i, j, x2, y2, xmax, ymax) then [Coord(x2, y2)] else [];
    CountLiveConcat(g, RowScan(i, j, xmax, ymax, x2, y2), piece);
    if piece != [] {
      assert piece[..0] == [];
    }
  }

  /** Around an in-bounds cell, the admitted candidates are exactly the in-bounds cells other than the centre. */
  lemma AdmittedCell(g: Grid, cols: int, i: int, j: int, x2: int, y2: int)
    requires IsRect(g, cols) && InBounds(i, j, |g|, cols)
    ensures (if Admits(i, j, x2, y2, |g|, cols) then Cell(g, x2, y2) else 0) ==
      (if x2 == i && y2 == j then 0 else Cell(g, x2, y2))
  {
  }

  /** Live cells counted over one row of the scan around (i, j): the row's three cells, minus the centre. */
  lemma RowScanLive(g: Grid, cols: int, i: int, j: int, x2: int)
    requires IsRect(g, cols) && InBounds(i, j, |g|, cols)
    ensures CountLive(g, RowScan(i, j, |g|, cols, x2, j + 2)) ==
      Cell(g, x2, j - 1) + (if x2 == i then 0 else Cell(g, x2, j)) + Cell(g, x2, j + 1)
  {
    assert RowScan(i, j, |g|, cols, x2, j - 1) == [];
    RowScanStep(g, i, j, |g|, cols, x2, j - 1);
    RowScanStep(g, i, j, |g|, cols, x2, j);
    RowScanStep(g, i, j, |g|, cols, x2, j + 1);
    AdmittedCell(g, cols, i, j, x2, j - 1);
    AdmittedCell(g, cols, i, j, x2, j);
    AdmittedCell(g, cols, i, j, x2, j + 1);
  }

  /** Extending the scan by one row adds that row's count. */
  lemma ScanStep(g: Grid, i: int, j: int, xmax: int, ymax: int, xEnd: int)
    requires xEnd >= i - 1
    ensures CountLive(g, Scan(i, j, xmax, ymax, xEnd + 1)) ==
      CountLive(g, Scan(i, j, xmax, ymax, xEnd)) + CountLive(g, RowScan(i, j, xmax, ymax, xEnd, j + 2))
  {
    CountLiveConcat(g, Scan(i, j, xmax, ymax, xEnd), RowScan(i, j, xmax, ymax, xEnd, j + 2));
  }

  /** Counting the live cells of the listed neighbours gives the reference count. */
  lemma NeighborListLive(g: Grid, cols: int, i: int, j: int)
    requires IsRect(g, cols) && InBounds(i, j, |g|, cols)
    ensures CountLive(g, NeighborList(i, j, |g|, cols)) == LiveAround(g, i, j)
  {
    NeighborListRows(g, cols, i, j);
    RowScanLive(g, cols, i, j, i - 1);
    RowScanLive(g, cols, i, j, i);
    RowScanLive(g, cols, i, j, i + 1);
  }

  /** The scan around (i, j) is its three rows, one after the other. */
  lemma NeighborListRows(g: Grid, cols: int, i: int, j: int)
    ensures CountLive(g, NeighborList(i, j, |g|, cols)) ==
      CountLive(g, RowScan(i, j, |g|, cols, i - 1, j + 2)) + CountLive(g, RowScan(i, j, |g|, cols, i, j + 2)) + CountLive(g, RowScan(i, j, |g|, cols, i + 1, j + 2))
  {
    assert Scan(i, j, |g|, cols, i - 1) == [];
    ScanStep(g, i, j, |g|, cols, i - 1);
    ScanStep(g, i, j, |g|, cols, i);
    ScanStep(g, i, j, |g|, cols, i + 1);
  }

  /**
   * The neighbour count of getNextGraph: the live cells of graph among the
   * listed neighbours of (row, column), which is the reference count.
   */
  method CountLiveNeighbors(graph: Grid, row: int, column: int) returns (liveNeighbors: int)
    requires |graph| > 0 && IsRect(graph, |graph[0]|)
    requires InBounds(row, column, |graph|, |graph[0]|)
    ensures liveNeighbors == LiveAround(graph, row, column)
    ensures 0 <= liveNeighbors <= 8
  {
    liveNeighbors := 0;
    var neighbors := GetNeighbors(row, column, |graph|, |graph[0]|);
    for k := 0 to |neighbors|
      invariant liveNeighbors == CountLive(graph, neighbors[..k])
    {
      var c := neighbors[k];
      assert c in neighbors;
      assert neighbors[..k + 1][..k] == neighbors[..k];
      if graph[c.x][c.y] == 1 {
        liveNeighbors := liveNeighbors + 1;
      }
    }
    assert neighbors[..|neighbors|] == neighbors;
    NeighborListLive(graph, |graph[0]|, row, column);
  }

  /**
   * getNextGraph: starts from a copy of graph and rewrites it cell by cell,
   * counting each cell's live neighbours in the unmodified graph. The result
   * has the input's shape and holds, in every cell, the rule applied to the
   * reference count.
   */
  method GetNextGraph(graph: Grid) returns (nextRows: Grid)
    requires |graph| > 0 && IsRect(graph, |graph[0]|)
    ensures |nextRows| == |graph| && IsRect(nextRows, |graph[0]|)
    ensures forall i, j :: 0 <= i < |graph| && 0 <= j < |graph[0]| ==>
      nextRows[i][j] == NextCell(graph[i][j], LiveAround(graph, i, j))
    ensures nextRows == NextGraph(graph)
  {
    var rowCount := |graph|;
    var columnCount := |graph[0]|;
    ghost var next := NextGraph(graph);
    nextRows := graph;
    for row := 0 to rowCount
      invariant |nextRows| == rowCount && IsRect(nextRows, columnCount)
      invariant forall i :: 0 <= i < row ==> nextRows[i] == next[i]
      invariant forall i :: row <= i < rowCount ==> nextRows[i] == graph[i]
    {
      for column := 0 to columnCount
        invariant |nextRows| == rowCount && IsRect(nextRows, columnCount)
        invariant forall i :: 0 <= i < row ==> nextRows[i] == next[i]
        invariant forall i :: row < i < rowCount ==> nextRows[i] == graph[i]
        invariant forall j :: 0 <= j < column ==> nextRows[row][j] == next[row][j]
        invariant forall j :: column <= j < columnCount ==> nextRows[row][j] == graph[row][j]
      {
        var liveNeighbors := CountLiveNeighbors(graph, row, column);
        if liveNeighbors < 2 || liveNeighbors > 3 {
          nextRows := nextRows[row := nextRows[row][column := 0]];
        } else if liveNeighbors == 3 {
          nextRows := nextRows[row := nextRows[row][column := 1]];
        }
      }
      assert nextRows[row] == next[row];
    }
    assert nextRows == next;
    NextGraphShape(graph, columnCount);
  }

  /** A cell in the rows x - 1 .. x + 1 reads the same in the slice [lo, hi) of g as in g itself. */
  lemma CellOfSlice(g: Grid, lo: int, hi: int, x: int, x2: int, y2: int)
    requires 0 <= lo <= x < hi <= |g|
    requires lo == 0 || lo < x
    requires hi == |g| || x + 1 < hi
    requires x - 1 <= x2 <= x + 1
    ensures Cell(g[lo..hi], x2 - lo, y2) == Cell(g, x2, y2)
  {
    if lo <= x2 < hi {
      assert g[lo..hi][x2 - lo] == g[x2];
    }
  }

  /** The neighbour count of a row of the slice whose adjacent rows are in the slice or outside g. */
  lemma LiveAroundOfSlice(g: Grid, lo: int, hi: int, x: int, y: int)
    requires 0 <= lo <= x < hi <= |g|
    requires lo == 0 || lo < x
    requires hi == |g| || x + 1 < hi
    ensures LiveAround(g[lo..hi], x - lo, y) == LiveAround(g, x, y)
  {
    CellOfSlice(g, lo, hi, x, x - 1, y - 1);
    CellOfSlice(g, lo, hi, x, x - 1, y);
    CellOfSlice(g, lo, hi, x, x - 1, y + 1);
    CellOfSlice(g, lo, hi, x, x, y - 1);
    CellOfSlice(g, lo, hi, x, x, y + 1);
    CellOfSlice(g, lo, hi, x, x + 1, y - 1);
    CellOfSlice(g, lo, hi, x, x + 1, y);
    CellOfSlice(g, lo, hi, x, x + 1, y + 1);
  }

  /** A row of the slice whose adjacent rows are in the slice or outside g steps as it does in g. */
  lemma NextRowOfSlice(g: Grid, lo: int, hi: int, x: int)
    requires 0 <= lo <= x < hi <= |g|
    requires lo == 0 || lo < x
    requires hi == |g| || x + 1 < hi
    ensures |NextGraph(g[lo..hi])| == hi - lo
    ensures NextGraph(g[lo..hi])[x - lo] == NextGraph(g)[x]
  {
    var part := g[lo..hi];
    assert part[x - lo] == g[x];
    var left := NextGraph(part)[x - lo];
    var right := NextGraph(g)[x];
    assert |left| == |g[x]| == |right|;
    forall y | 0 <= y < |g[x]| ensures left[y] == right[y] {
      NextCellOfSlice(g, lo, hi, x, y);
    }
  }

  /** One cell of such a row steps in the slice as it does in g. */
  lemma NextCellOfSlice(g: Grid, lo: int, hi: int, x: int, y: int)
    requires 0 <= lo <= x < hi <= |g|
    requires lo == 0 || lo < x
    requires hi == |g| || x + 1 < hi
    requires 0 <= y < |g[x]|
    ensures NextGraph(g[lo..hi])[x - lo][y] == NextGraph(g)[x][y]
  {
    var part := g[lo..hi];
    assert part[x - lo] == g[x];
    LiveAroundOfSlice(g, lo, hi, x, y);
    SameNeighborhood(part, x - lo, g, x, y);
  }

  /** Cells with the same value and the same neighbour count step to the same value. */
  lemma SameNeighborhood(p: Grid, i: int, g: Grid, x: int, y: int)
    requires 0 <= i < |p| && 0 <= x < |g| && p[i] == g[x] && 0 <= y < |g[x]|
    requires LiveAround(p, i, y) == LiveAround(g, x, y)
    ensures NextGraph(p)[i][y] == NextGraph(g)[x][y]
  {
    NextGraphAt(p, i, y);
    NextGraphAt(g, x, y);
  }

  /**
   * Stepping the slice [lo, hi) of g and keeping its rows [s, e) gives rows
   * [s, e) of stepping g, provided the slice holds the row above s unless it
   * starts at row 0, and the row below e unless it ends at the bottom of g.
   */
  lemma StepOfSlice(g: Grid, lo: int, hi: int, s: int, e: int)
    requires 0 <= lo <= s <= e <= hi <= |g|
    requires lo == 0 || lo < s
    requires hi == |g| || e < hi
    ensures NextGraph(g[lo..hi])[s - lo .. e - lo] == NextGraph(g)[s..e]
  {
    var stepped := NextGraph(g[lo..hi]);
    var next := NextGraph(g);
    forall x | s <= x < e ensures stepped[x - lo] == next[x] {
      NextRowOfSlice(g, lo, hi, x);
    }
    ShiftedSlices(stepped, next, lo, s, e);
  }

  /** Two sequences that agree row for row, one shifted by lo, agree on the corresponding slices. */
  lemma ShiftedSlices(a: Grid, b: Grid, lo: int, s: int, e: int)
    requires 0 <= lo <= s <= e <= |b| && e - lo <= |a|
    requires forall x :: s <= x < e ==> a[x - lo] == b[x]
    ensures a[s - lo .. e - lo] == b[s..e]
  {
    forall k | 0 <= k < e - s ensures a[s - lo .. e - lo][k] == b[s..e][k] {
      assert a[s - lo .. e - lo][k] == a[(s + k) - lo];
    }
  }
}
