/**
 * Splitting a grid's rows among size ranks with one halo row on each side
 * that has a neighbouring partition, trimming the halo rows off each rank's
 * result, and joining the results in rank order (the partition loop, the
 * trim chain and the gather of playGame).
 */
module Partitioner {
  import opened Grids

  /** Halo rows borrowed above rank i's owned rows: one for every rank but the first. */
  function HaloAbove(i: nat): nat
  {
    if i > 0 then 1 else 0
  }

  /** Halo rows borrowed below rank i's owned rows: one for every rank but the last. */
  function HaloBelow(size: nat, i: nat): nat
  {
    if i + 1 < size then 1 else 0
  }

  /** First row sent to rank i when every rank owns d rows. */
  function SliceLo(d: nat, i: nat): int
  {
    i * d - HaloAbove(i)
  }

  /** One past the last row sent to rank i when every rank owns d rows. */
  function SliceHi(size: nat, d: nat, i: nat): int
  {
    (i + 1) * d + HaloBelow(size, i)
  }

  /** With d = rowCount / size, the multiples of d that bound the owned ranges lie in [0, rowCount]. */
  lemma DivisionBounds(rowCount: nat, size: nat, i: nat)
    requires 1 <= size <= rowCount && i < size
    ensures 1 <= rowCount / size
    ensures 0 <= i * (rowCount / size) < (i + 1) * (rowCount / size) <= size * (rowCount / size) <= rowCount
  {
    var d := rowCount / size;
    assert size * d <= rowCount;
    assert 1 <= d;
    assert (i + 1) * d <= size * d by {
      MulMonotone(i + 1, size, d);
    }
  }

  lemma MulMonotone(a: nat, b: nat, d: nat)
    requires a <= b
    ensures a * d <= b * d
  {
  }

  /** size * d rows split among size ranks give exactly d rows each, with nothing left over. */
  lemma MulDivExact(size: nat, d: nat)
    requires size >= 1
    ensures (size * d) / size == d && (size * d) % size == 0
  {
    var q, r := (size * d) / size, (size * d) % size;
    assert size * d == size * q + r && 0 <= r < size;
    assert size * (d - q) == r;
    MulAtLeast(size, d - q);
    MulAtMost(size, d - q);
  }

  /** A positive multiple of size is at least size. */
  lemma {:induction false} MulAtLeast(size: nat, t: int)
    ensures t >= 1 ==> size * t >= size
    decreases if t > 0 then t else 0
  {
    if t >= 2 {
      MulAtLeast(size, t - 1);
      assert size * t == size * (t - 1) + size;
    }
  }

  /** A negative multiple of size is at most the negation of size. */
  lemma {:induction false} MulAtMost(size: nat, t: int)
    ensures t <= -1 ==> size * t + size <= 0
    decreases if t < 0 then -t else 0
  {
    if t <= -2 {
      MulAtMost(size, t + 1);
      assert size * t == size * (t + 1) - size;
    }
  }

  /** The rows the ranks own, size * (rowCount / size), are all of them exactly when size divides rowCount. */
  lemma OwnedRowsExact(rowCount: nat, size: nat)
    requires size >= 1
    ensures rowCount % size == 0 <==> size * (rowCount / size) == rowCount
  {
    assert rowCount == size * (rowCount / size) + rowCount % size;
  }

  /**
   * Every slice holds the rank's owned rows [i*d, (i+1)*d) and lies within
   * [0, size*d), so within the grid; with one rank the slice is the whole grid.
   */
  lemma SliceBounds(rowCount: nat, size: nat, i: nat)
    requires 1 <= size <= rowCount && i < size
    ensures var d := rowCount / size;
      0 <= SliceLo(d, i) <= i * d < (i + 1) * d <= SliceHi(size, d, i) <= size * d <= rowCount
    ensures size == 1 ==> SliceLo(rowCount / size, i) == 0 && SliceHi(size, rowCount / size, i) == rowCount
  {
    var d := rowCount / size;
    DivisionBounds(rowCount, size, i);
    if i + 1 < size {
      DivisionBounds(rowCount, size, i + 1);
    }
  }

  /**
   * Rank i's slice reaches exactly its halo rows beyond its owned rows
   * [i*d, (i+1)*d): a row above unless i is the first rank, a row below
   * unless it is the last, whose slice ends at size * d.
   */
  lemma SliceEnds(rowCount: nat, size: nat, i: nat)
    requires 1 <= size <= rowCount && i < size
    ensures var d := rowCount / size;
      var lo, hi := SliceLo(d, i), SliceHi(size, d, i);
      0 <= lo <= i * d <= (i + 1) * d <= hi <= size * d <= rowCount &&
      lo + HaloAbove(i) == i * d && (i + 1) * d + HaloBelow(size, i) == hi &&
      (lo == 0 || lo < i * d) && (hi == size * d || (i + 1) * d < hi)
  {
    SliceBounds(rowCount, size, i);
  }

  /**
   * One pass of the partition loop of playGame: the if/elif chain appends
   * rank i's slice [i*d - HaloAbove(i), (i+1)*d + HaloBelow(size, i)) to
   * partitions, with d = rowCount / size, start = i*d and end = (i+1)*d.
   */
  method SendSlice(graph: Grid, size: nat, i: nat, start: int, end: int, partitions: seq<Grid>)
    returns (sent: seq<Grid>)
    requires 1 <= size <= |graph| && i < size
    requires start == i * (|graph| / size) && end == (i + 1) * (|graph| / size)
    ensures |sent| == |partitions| + 1 && sent[..|partitions|] == partitions
    ensures IsSlice(sent[|partitions|], graph, SliceLo(|graph| / size, i), SliceHi(size, |graph| / size, i))
  {
    SliceEnds(|graph|, size, i);
    sent := partitions;
    if size == 1 {
      sent := sent + [graph[start..end]];
    } else if i == 0 && size > 1 {
      sent := sent + [graph[start..end + 1]];
    } else if i == 1 && size == 2 {
      sent := sent + [graph[start - 1..end]];
    } else if size > 2 {
      if i != size - 1 {
        sent := sent + [graph[start - 1..end + 1]];
      } else {
        sent := sent + [graph[start - 1..end]];
      }
    }
  }

  /**
   * The partition loop of playGame: rank i receives rows
   * [i*d - HaloAbove(i), (i+1)*d + HaloBelow(size, i)) with d = rowCount / size;
   * a single rank receives the whole grid.
   */
  method Partition(graph: Grid, size: nat) returns (partitions: seq<Grid>)
    requires 1 <= size <= |graph|
    ensures |partitions| == size
    ensures forall i :: 0 <= i < size ==>
      IsSlice(partitions[i], graph, SliceLo(|graph| / size, i), SliceHi(size, |graph| / size, i))
    ensures size == 1 ==> partitions == [graph]
  {
    var rowCount := |graph|;
    var division := rowCount / size;
    var start := 0;
    var end := division;
    partitions := [];
    for i := 0 to size
      invariant start == i * division && end == (i + 1) * division
      invariant |partitions| == i
      invariant forall k :: 0 <= k < i ==>
        IsSlice(partitions[k], graph, SliceLo(division, k), SliceHi(size, division, k))
    {
      ghost var before := partitions;
      partitions := SendSlice(graph, size, i, start, end, partitions);
      assert forall k :: 0 <= k < i ==> partitions[k] == before[k];
      assert end + division == (i + 2) * division;
      start := start + division;
      end := end + division;
    }
    if size == 1 {
      SliceBounds(rowCount, size, 0);
      assert graph[0..rowCount] == graph;
    }
  }

  /**
   * Corrected slice end: the last rank's slice runs to the last row of the
   * grid, so it also owns the rowCount % size rows the division leaves over.
   */
  function SliceHiAbsorbing(rowCount: nat, size: nat, d: nat, i: nat): int
  {
    if i + 1 < size then (i + 1) * d + 1 else rowCount
  }

  /** SendSlice with the last rank's slice ending at rowCount instead of end. */
  method SendSliceAbsorbing(graph: Grid, size: nat, i: nat, start: int, end: int, partitions: seq<Grid>)
    returns (sent: seq<Grid>)
    requires 1 <= size <= |graph| && i < size
    requires start == i * (|graph| / size) && end == (i + 1) * (|graph| / size)
    ensures |sent| == |partitions| + 1 && sent[..|partitions|] == partitions
    ensures IsSlice(sent[|partitions|], graph, SliceLo(|graph| / size, i),
      SliceHiAbsorbing(|graph|, size, |graph| / size, i))
  {
    var rowCount := |graph|;
    SliceEnds(rowCount, size, i);
    sent := partitions;
    if size == 1 {
      sent := sent + [graph[start..rowCount]];
    } else if i == 0 && size > 1 {
      sent := sent + [graph[start..end + 1]];
    } else if i == 1 && size == 2 {
      sent := sent + [graph[start - 1..rowCount]];
    } else if size > 2 {
      if i != size - 1 {
        sent := sent + [graph[start - 1..end + 1]];
      } else {
        sent := sent + [graph[start - 1..rowCount]];
      }
    }
  }

  /**
   * The partition loop with the last rank's slice ending at rowCount
   * instead of size * (rowCount / size).
   */
  method PartitionAbsorbing(graph: Grid, size: nat) returns (partitions: seq<Grid>)
    requires 1 <= size <= |graph|
    ensures |partitions| == size
    ensures forall i :: 0 <= i < size ==>
      IsSlice(partitions[i], graph, SliceLo(|graph| / size, i), SliceHiAbsorbing(|graph|, size, |graph| / size, i))
  {
    var rowCount := |graph|;
    var division := rowCount / size;
    var start := 0;
    var end := division;
    partitions := [];
    for i := 0 to size
      invariant start == i * division && end == (i + 1) * division
      invariant |partitions| == i
      invariant forall k :: 0 <= k < i ==>
        IsSlice(partitions[k], graph, SliceLo(division, k), SliceHiAbsorbing(rowCount, size, division, k))
    {
      ghost var before := partitions;
      partitions := SendSliceAbsorbing(graph, size, i, start, end, partitions);
      assert forall k :: 0 <= k < i ==> partitions[k] == before[k];
      assert end + division == (i + 2) * division;
      start := start + division;
      end := end + division;
    }
  }

  /** numpy.delete(arr, k, 0): arr without its row k. */
  function Delete(arr: Grid, k: nat): (r: Grid)
    requires k < |arr|
    ensures |r| == |arr| - 1
    ensures forall m :: 0 <= m < |r| ==> r[m] == if m < k then arr[m] else arr[m + 1]
  {
    arr[..k] + arr[k + 1..]
  }

  /**
   * The trim chain of playGame: rank removes as many rows from the front and
   * from the back of its result as it was sent halo rows above and below.
   */
  method Trim(rank: nat, size: nat, partitions: Grid) returns (trimmed: Grid)
    requires rank < size
    requires HaloAbove(rank) + HaloBelow(size, rank) <= |partitions|
    ensures |trimmed| == |partitions| - HaloAbove(rank) - HaloBelow(size, rank)
    ensures trimmed == partitions[HaloAbove(rank) .. |partitions| - HaloBelow(size, rank)]
  {
    trimmed := partitions;
    if rank == 0 && size > 1 {
      trimmed := Delete(trimmed, |trimmed| - 1);
    } else if rank == 1 && size == 2 {
      trimmed := Delete(trimmed, 0);
    } else if rank != size - 1 && size > 2 {
      trimmed := Delete(trimmed, 0);
      trimmed := Delete(trimmed, |trimmed| - 1);
    } else if rank == size - 1 && size > 2 {
      trimmed := Delete(trimmed, 0);
    }
  }

  /**
   * Trimming what rank i was sent leaves exactly its owned rows
   * [i*d, (i+1)*d): d rows, which is all rowCount rows when there is one rank.
   */
  lemma TrimLeavesOwned(graph: Grid, size: nat, i: nat, part: Grid)
    requires 1 <= size <= |graph| && i < size
    requires IsSlice(part, graph, SliceLo(|graph| / size, i), SliceHi(size, |graph| / size, i))
    ensures HaloAbove(i) + HaloBelow(size, i) <= |part|
    ensures var d := |graph| / size;
      part[HaloAbove(i) .. |part| - HaloBelow(size, i)] == graph[i * d .. (i + 1) * d]
    ensures size == 1 ==> part[HaloAbove(i) .. |part| - HaloBelow(size, i)] == graph
  {
    var d := |graph| / size;
    SliceBounds(|graph|, size, i);
    var lo := SliceLo(d, i);
    var kept := part[HaloAbove(i) .. |part| - HaloBelow(size, i)];
    assert lo + HaloAbove(i) == i * d;
    assert |kept| == (i + 1) * d - i * d;
    forall k | 0 <= k < |kept| ensures kept[k] == graph[i * d + k] {
      assert kept[k] == part[HaloAbove(i) + k];
    }
    assert kept == graph[i * d .. (i + 1) * d];
    if size == 1 {
      assert graph[0..|graph|] == graph;
    }
  }

  /** The rank results joined in rank order. */
  function Concat(parts: seq<Grid>): Grid
  {
    if parts == [] then [] else Concat(parts[..|parts| - 1]) + parts[|parts| - 1]
  }

  /**
   * Reassembly in playGame: every row of every rank's result is appended to
   * newGraph, rank by rank.
   */
  method Reassemble(nextGraph: seq<Grid>) returns (newGraph: Grid)
    ensures newGraph == Concat(nextGraph)
  {
    newGraph := [];
    for k := 0 to |nextGraph|
      invariant newGraph == Concat(nextGraph[..k])
    {
      var rows := nextGraph[k];
      for m := 0 to |rows|
        invariant newGraph == Concat(nextGraph[..k]) + rows[..m]
      {
        newGraph := newGraph + [rows[m]];
      }
      assert nextGraph[..k + 1][..k] == nextGraph[..k];
      assert rows[..|rows|] == rows;
    }
    assert nextGraph[..|nextGraph|] == nextGraph;
  }

  /**
   * Tiling: pieces that are consecutive row ranges [cuts[k], cuts[k+1]) of g,
   * the first starting at row 0, join to the rows of g before the last cut;
   * the ranges leave no gap and do not overlap.
   */
  lemma {:induction false} ConcatTiles(g: Grid, parts: seq<Grid>, cuts: seq<int>)
    requires |cuts| == |parts| + 1 && cuts[0] == 0
    requires forall k :: 0 <= k < |parts| ==> IsSlice(parts[k], g, cuts[k], cuts[k + 1])
    ensures 0 <= cuts[|parts|] <= |g|
    ensures Concat(parts) == g[..cuts[|parts|]]
    decreases |parts|
  {
    var n := |parts|;
    if n > 0 {
      ConcatTiles(g, parts[..n - 1], cuts[..n]);
      assert parts[n - 1] == g[cuts[n - 1]..cuts[n]];
      assert g[..cuts[n - 1]] + g[cuts[n - 1]..cuts[n]] == g[..cuts[n]];
    }
  }
}
