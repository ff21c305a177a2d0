/**
 * One generation computed by size ranks (playGame), with the scatter to and
 * the gather from the ranks read as a loop over the ranks in rank order, and
 * the driver that repeats it (main).
 */
module Game {
  import opened Grids
  import opened Kernel
  import opened Partitioner

  /** Every rank's rows are non-empty, rectangular and longer than its halo rows. */
  predicate Steppable(partitions: seq<Grid>, size: nat)
  {
    |partitions| == size &&
    forall i :: 0 <= i < size ==>
      |partitions[i]| > 0 && IsRect(partitions[i], |partitions[i][0]|) &&
      HaloAbove(i) + HaloBelow(size, i) <= |partitions[i]|
  }

  /** nextGraph[i] is the next generation of rank i's rows with its halo rows trimmed off. */
  predicate RankResults(partitions: seq<Grid>, size: nat, nextGraph: seq<Grid>)
    requires Steppable(partitions, size)
  {
    |nextGraph| == size &&
    forall i :: 0 <= i < size ==>
      nextGraph[i] == NextGraph(partitions[i])[HaloAbove(i) .. |partitions[i]| - HaloBelow(size, i)]
  }

  /**
   * What every rank does between the scatter and the gather: step the rows it
   * was sent, then trim its halo rows off the result.
   */
  method StepRanks(partitions: seq<Grid>, size: nat) returns (nextGraph: seq<Grid>)
    requires Steppable(partitions, size)
    ensures RankResults(partitions, size, nextGraph)
  {
    nextGraph := [];
    for rank := 0 to size
      invariant |nextGraph| == rank
      invariant forall i :: 0 <= i < rank ==>
        nextGraph[i] == NextGraph(partitions[i])[HaloAbove(i) .. |partitions[i]| - HaloBelow(size, i)]
    {
      var stepped := GetNextGraph(partitions[rank]);
      var trimmed := Trim(rank, size, stepped);
      nextGraph := nextGraph + [trimmed];
    }
  }

  /** The rows sent to a rank are a non-empty, rectangular stretch of the grid, longer than its halo. */
  lemma SliceFitsRank(graph: Grid, cols: int, part: Grid, lo: int, hi: int, halo: nat)
    requires IsRect(graph, cols) && IsSlice(part, graph, lo, hi) && lo < hi && halo <= hi - lo
    ensures |part| > 0 && IsRect(part, |part[0]|) && halo <= |part|
  {
    assert part[0] == graph[lo];
  }

  /** Rank i of size ranks is sent rows [SliceLo, SliceHi) of graph, as the partition loop does. */
  predicate SentSlices(graph: Grid, size: nat, partitions: seq<Grid>)
    requires size >= 1
  {
    |partitions| == size &&
    forall i :: 0 <= i < size ==>
      IsSlice(partitions[i], graph, SliceLo(|graph| / size, i), SliceHi(size, |graph| / size, i))
  }

  /** The slices of the partition loop can each be stepped and trimmed by their rank. */
  lemma SentSlicesSteppable(graph: Grid, size: nat, partitions: seq<Grid>)
    requires 1 <= size <= |graph| && IsRect(graph, |graph[0]|)
    requires SentSlices(graph, size, partitions)
    ensures Steppable(partitions, size)
  {
    var d := |graph| / size;
    forall i | 0 <= i < size
      ensures |partitions[i]| > 0 && IsRect(partitions[i], |partitions[i][0]|)
      ensures HaloAbove(i) + HaloBelow(size, i) <= |partitions[i]|
    {
      SliceBounds(|graph|, size, i);
      SliceFitsRank(graph, |graph[0]|, partitions[i], SliceLo(d, i), SliceHi(size, d, i), HaloAbove(i) + HaloBelow(size, i));
    }
  }

  /**
   * Gathering the trimmed rank results of the partition loop's slices gives
   * one generation of the first size * (rowCount / size) rows of the grid,
   * which is the whole grid when size divides rowCount.
   */
  lemma GatherSentSlices(graph: Grid, size: nat, partitions: seq<Grid>, nextGraph: seq<Grid>)
    requires 1 <= size <= |graph| && IsRect(graph, |graph[0]|)
    requires SentSlices(graph, size, partitions) && Steppable(partitions, size)
    requires RankResults(partitions, size, nextGraph)
    ensures |Concat(nextGraph)| == size * (|graph| / size)
    ensures Concat(nextGraph) == NextGraph(graph[..size * (|graph| / size)])
    ensures |graph| % size == 0 ==> Concat(nextGraph) == NextGraph(graph)
  {
    var d := |graph| / size;
    SliceBounds(|graph|, size, 0);
    var kept := graph[..size * d];
    var next := NextGraph(kept);
    forall i | 0 <= i < size ensures IsSlice(nextGraph[i], next, i * d, (i + 1) * d) {
      SentRankStep(graph, size, i, partitions[i], nextGraph[i]);
    }
    ConcatTiles(next, nextGraph, seq(size + 1, k => k * d));
    assert next[..size * d] == next;
    OwnedRowsExact(|graph|, size);
    if |graph| % size == 0 {
      assert kept == graph;
    }
  }

  /** Rank i's trimmed result is rows [i*d, (i+1)*d) of one generation of the kept rows. */
  lemma SentRankStep(graph: Grid, size: nat, i: nat, part: Grid, result: Grid)
    requires 1 <= size <= |graph| && i < size
    requires IsSlice(part, graph, SliceLo(|graph| / size, i), SliceHi(size, |graph| / size, i))
    requires HaloAbove(i) + HaloBelow(size, i) <= |part|
    requires result == NextGraph(part)[HaloAbove(i) .. |part| - HaloBelow(size, i)]
    ensures var d := |graph| / size;
      IsSlice(result, NextGraph(graph[..size * d]), i * d, (i + 1) * d)
  {
    var d := |graph| / size;
    SliceEnds(|graph|, size, i);
    var kept := graph[..size * d];
    var lo, hi := SliceLo(d, i), SliceHi(size, d, i);
    SliceOfPrefix(graph, size * d, lo, hi);
    TrimmedStep(kept, part, lo, hi, i * d, (i + 1) * d, HaloAbove(i), HaloBelow(size, i), result);
  }

  /**
   * A slice [lo, hi) of g that reaches top rows above [a, b) (none only at
   * row 0) and bottom rows below it (none only at the end of g), stepped and
   * trimmed by top and bottom, is rows [a, b) of one generation of g.
   */
  lemma TrimmedStep(g: Grid, part: Grid, lo: int, hi: int, a: int, b: int, top: int, bottom: int, result: Grid)
    requires 0 <= lo <= a <= b <= hi <= |g| && lo + top == a && b + bottom == hi
    requires lo == 0 || lo < a
    requires hi == |g| || b < hi
    requires part == g[lo..hi] && result == NextGraph(part)[top .. |part| - bottom]
    ensures IsSlice(result, NextGraph(g), a, b)
  {
    StepOfSlice(g, lo, hi, a, b);
  }

  /** Rows [lo, hi) of the first n rows of g are rows [lo, hi) of g. */
  lemma SliceOfPrefix(g: Grid, n: int, lo: int, hi: int)
    requires 0 <= lo <= hi <= n <= |g|
    ensures |g[..n]| == n && g[..n][lo..hi] == g[lo..hi]
  {
  }

  /**
   * playGame as written. The last rank's slice ends at size * (rowCount / size),
   * so the result is exactly one generation of the grid cut down to its first
   * size * (rowCount / size) rows: the rowCount % size remainder rows are
   * dropped. When size divides rowCount the result is one generation of the
   * whole grid, however many ranks share the work.
   */
  method PlayGame(graph: Grid, size: nat) returns (newGraph: Grid)
    requires 1 <= size <= |graph| && IsRect(graph, |graph[0]|)
    ensures |newGraph| == size * (|graph| / size)
    ensures newGraph == NextGraph(graph[..size * (|graph| / size)])
    ensures |graph| % size == 0 ==> newGraph == NextGraph(graph)
  {
    var partitions := Partition(graph, size);
    SentSlicesSteppable(graph, size, partitions);
    var nextGraph := StepRanks(partitions, size);
    newGraph := Reassemble(nextGraph);
    GatherSentSlices(graph, size, partitions, nextGraph);
  }

  /** Three rows, the last one live. */
  function ThreeRows(): Grid
  {
    [[0, 0, 0], [0, 0, 0], [1, 1, 1]]
  }

  /** In the first two rows of ThreeRows, the centre of row 1 has no live neighbour and stays dead. */
  lemma TruncatedCentreDies(g: Grid)
    requires g == ThreeRows()
    ensures |NextGraph(g[..2])| == 2 && NextGraph(g[..2])[1][1] == 0
  {
    var top := g[..2];
    assert |top| == 2 && top[0] == g[0] && top[1] == g[1];
    assert |g[0]| == |g[1]| == 3;
    assert g[0][0] == g[0][1] == g[0][2] == 0;
    assert g[1][0] == g[1][2] == 0;
    assert Cell(top, 0, 0) + Cell(top, 0, 1) + Cell(top, 0, 2) == 0;
    assert Cell(top, 1, 0) + Cell(top, 1, 2) == 0;
    assert Cell(top, 2, 0) + Cell(top, 2, 1) + Cell(top, 2, 2) == 0;
    NextGraphAt(top, 1, 1);
  }

  /** In ThreeRows, the centre of row 1 has three live neighbours and comes alive. */
  lemma CentreComesAlive(g: Grid)
    requires g == ThreeRows()
    ensures |NextGraph(g)| == 3 && NextGraph(g)[1][1] == 1
  {
    assert |g| == 3 && |g[0]| == |g[1]| == |g[2]| == 3;
    assert g[0][0] == g[0][1] == g[0][2] == 0;
    assert g[1][0] == g[1][2] == 0;
    assert g[2][0] == g[2][1] == g[2][2] == 1;
    assert Cell(g, 0, 0) + Cell(g, 0, 1) + Cell(g, 0, 2) == 0;
    assert Cell(g, 1, 0) + Cell(g, 1, 2) == 0;
    assert Cell(g, 2, 0) + Cell(g, 2, 1) + Cell(g, 2, 2) == 3;
    NextGraphAt(g, 1, 1);
  }

  /**
   * Three rows on two ranks: each rank owns 3 / 2 = 1 row, so PlayGame
   * returns one generation of the first two rows only: two rows, where row 1
   * is computed without the live row below it and stays dead. One generation
   * of the grid has three rows and a live centre in row 1.
   */
  lemma RemainderRowsDropped(g: Grid)
    requires g == ThreeRows()
    ensures |g| % 2 != 0 && 2 * (|g| / 2) == 2
    ensures |NextGraph(g[..2])| == 2 < |NextGraph(g)|
    ensures NextGraph(g[..2])[1][1] == 0 && NextGraph(g)[1][1] == 1
  {
    TruncatedCentreDies(g);
    CentreComesAlive(g);
  }

  /**
   * playGame with the last rank owning the remainder rows: one generation of
   * the whole grid for every number of ranks from 1 to rowCount.
   */
  method PlayGameAbsorbing(graph: Grid, size: nat) returns (newGraph: Grid)
    requires 1 <= size <= |graph| && IsRect(graph, |graph[0]|)
    ensures newGraph == NextGraph(graph)
  {
    var partitions := PartitionAbsorbing(graph, size);
    AbsorbingSlicesSteppable(graph, size, partitions);
    var nextGraph := StepRanks(partitions, size);
    newGraph := Reassemble(nextGraph);
    GatherAbsorbingSlices(graph, size, partitions, nextGraph);
  }

  /** Rank i of size ranks is sent rows [SliceLo, SliceHiAbsorbing) of graph. */
  predicate AbsorbingSlices(graph: Grid, size: nat, partitions: seq<Grid>)
    requires size >= 1
  {
    |partitions| == size &&
    forall i :: 0 <= i < size ==>
      IsSlice(partitions[i], graph, SliceLo(|graph| / size, i), SliceHiAbsorbing(|graph|, size, |graph| / size, i))
  }

  /** The absorbing slices can each be stepped and trimmed by their rank. */
  lemma AbsorbingSlicesSteppable(graph: Grid, size: nat, partitions: seq<Grid>)
    requires 1 <= size <= |graph| && IsRect(graph, |graph[0]|)
    requires AbsorbingSlices(graph, size, partitions)
    ensures Steppable(partitions, size)
  {
    var d := |graph| / size;
    forall i | 0 <= i < size
      ensures |partitions[i]| > 0 && IsRect(partitions[i], |partitions[i][0]|)
      ensures HaloAbove(i) + HaloBelow(size, i) <= |partitions[i]|
    {
      SliceBounds(|graph|, size, i);
      SliceFitsRank(graph, |graph[0]|, partitions[i], SliceLo(d, i), SliceHiAbsorbing(|graph|, size, d, i), HaloAbove(i) + HaloBelow(size, i));
    }
  }

  /** Gathering the trimmed rank results of the absorbing slices gives one generation of the whole grid. */
  lemma GatherAbsorbingSlices(graph: Grid, size: nat, partitions: seq<Grid>, nextGraph: seq<Grid>)
    requires 1 <= size <= |graph| && IsRect(graph, |graph[0]|)
    requires AbsorbingSlices(graph, size, partitions) && Steppable(partitions, size)
    requires RankResults(partitions, size, nextGraph)
    ensures Concat(nextGraph) == NextGraph(graph)
  {
    var d := |graph| / size;
    var next := NextGraph(graph);
    var cuts := seq(size + 1, k => if k < size then k * d else |graph|);
    forall i | 0 <= i < size ensures IsSlice(nextGraph[i], next, cuts[i], cuts[i + 1]) {
      AbsorbingRankStep(graph, size, i, partitions[i], nextGraph[i]);
    }
    SliceBounds(|graph|, size, 0);
    ConcatTiles(next, nextGraph, cuts);
    assert next[..|graph|] == next;
  }

  /**
   * Rank i's trimmed result is rows [i*d, (i+1)*d) of one generation of the
   * grid, or rows [i*d, rowCount) for the last rank.
   */
  lemma AbsorbingRankStep(graph: Grid, size: nat, i: nat, part: Grid, result: Grid)
    requires 1 <= size <= |graph| && i < size
    requires IsSlice(part, graph, SliceLo(|graph| / size, i), SliceHiAbsorbing(|graph|, size, |graph| / size, i))
    requires HaloAbove(i) + HaloBelow(size, i) <= |part|
    requires result == NextGraph(part)[HaloAbove(i) .. |part| - HaloBelow(size, i)]
    ensures var d := |graph| / size;
      IsSlice(result, NextGraph(graph), i * d, if i + 1 < size then (i + 1) * d else |graph|)
  {
    var d := |graph| / size;
    SliceBounds(|graph|, size, i);
    var lo, hi := SliceLo(d, i), SliceHiAbsorbing(|graph|, size, d, i);
    StepOfSlice(graph, lo, hi, i * d, if i + 1 < size then (i + 1) * d else |graph|);
  }

  /** The grid after n generations. */
  function Generations(g: Grid, n: nat): Grid
  {
    if n == 0 then g else NextGraph(Generations(g, n - 1))
  }

  /** Generations keep the number of rows and the number of columns. */
  lemma {:induction false} GenerationsShape(g: Grid, cols: int, n: nat)
    requires IsRect(g, cols)
    ensures |Generations(g, n)| == |g| && IsRect(Generations(g, n), cols)
  {
    if n > 0 {
      GenerationsShape(g, cols, n - 1);
    }
  }

  /**
   * The driver loop of main: playGame once, then steps - 1 more times on its
   * own output. The first call drops the remainder rows; afterwards the row
   * count is a multiple of size and every call is one exact generation.
   * Every rank is taken to get past the image step of playGame, which in
   * the source only rank 0 does.
   */
  method Run(graph: Grid, size: nat, steps: nat) returns (g: Grid)
    requires 1 <= size <= |graph| && IsRect(graph, |graph[0]|) && steps >= 1
    ensures g == Generations(graph[..size * (|graph| / size)], steps)
    ensures |graph| % size == 0 ==> g == Generations(graph, steps)
  {
    ghost var kept := graph[..size * (|graph| / size)];
    g := PlayGame(graph, size);
    KeptRows(graph, size);
    for s := 1 to steps
      invariant g == Generations(kept, s)
    {
      GenerationFits(kept, |graph[0]|, size, s);
      g := PlayGame(g, size);
    }
  }

  /** The driver loop of main over the corrected playGame: steps generations of the whole grid. */
  method RunAbsorbing(graph: Grid, size: nat, steps: nat) returns (g: Grid)
    requires 1 <= size <= |graph| && IsRect(graph, |graph[0]|) && steps >= 1
    ensures g == Generations(graph, steps)
  {
    g := PlayGameAbsorbing(graph, size);
    for s := 1 to steps
      invariant g == Generations(graph, s)
    {
      GenerationsShape(graph, |graph[0]|, s);
      assert IsRect(g, |g[0]|);
      g := PlayGameAbsorbing(g, size);
    }
  }

  /** The rows playGame keeps: a multiple of size, at least size of them, as wide as the grid. */
  lemma KeptRows(graph: Grid, size: nat)
    requires 1 <= size <= |graph| && IsRect(graph, |graph[0]|)
    ensures var kept := graph[..size * (|graph| / size)];
      size <= |kept| && |kept| % size == 0 && IsRect(kept, |graph[0]|)
    ensures |graph| % size == 0 ==> graph[..size * (|graph| / size)] == graph
  {
    var d := |graph| / size;
    SliceBounds(|graph|, size, 0);
    MulDivExact(size, d);
    assert |graph[..size * d]| == size * d;
    OwnedRowsExact(|graph|, size);
  }

  /**
   * Every later generation of the kept rows is a valid input of playGame on
   * which it drops nothing.
   */
  lemma GenerationFits(kept: Grid, cols: int, size: nat, s: nat)
    requires 1 <= size <= |kept| && |kept| % size == 0 && IsRect(kept, cols)
    ensures var g := Generations(kept, s);
      1 <= size <= |g| && IsRect(g, |g[0]|) && g[..size * (|g| / size)] == g
  {
    GenerationsShape(kept, cols, s);
    var g := Generations(kept, s);
    OwnedRowsExact(|g|, size);
  }
}
