/**
 * The list comprehension `[flat[i:i + rows] for i in range(0, len(flat), cols)]` that both
 * matrix decoders use to turn the flat unpacked tuple into rows. The chunks START every
 * `cols` items but are `rows` items LONG, so they overlap or leave gaps unless
 * `rows == cols`; the model keeps that behaviour.
 */
module Reshape {
  import opened Seqs
  import opened Bytes

  /** The comprehension itself, for a positive step `cols` (a zero step is a ValueError). */
  function Chunks<T>(flat: seq<T>, rows: nat, cols: nat): (r: seq<seq<T>>)
    requires cols > 0
    ensures |flat| == 0 <==> r == []
    decreases |flat|
  {
    if |flat| == 0 then []
    else [flat[..Min(rows, |flat|)]] + Chunks(flat[Min(cols, |flat|)..], rows, cols)
  }

  /** There are ceil(n / cols) chunks: the last one starts before the end, the next would not. */
  lemma {:induction false} ChunkCount<T>(flat: seq<T>, rows: nat, cols: nat)
    requires cols > 0
    ensures var r := Chunks(flat, rows, cols);
      (|r| - 1) * cols < |flat| <= |r| * cols
    decreases |flat|
  {
    var r := Chunks(flat, rows, cols);
    var n := |flat|;
    if n == 0 {
    } else if n <= cols {
      assert r == [flat[..Min(rows, n)]];
    } else {
      var rest := Chunks(flat[cols..], rows, cols);
      ChunkCount(flat[cols..], rows, cols);
      var a := |rest|;
      assert |r| == a + 1;
      ShiftByStep(a + 1, cols);
    }
  }

  /** Chunk k is `flat[k * cols : k * cols + rows]`, clipped at the end as Python slices are. */
  lemma {:induction false} ChunkAt<T>(flat: seq<T>, rows: nat, cols: nat, k: nat)
    requires cols > 0 && k < |Chunks(flat, rows, cols)|
    ensures k * cols < |flat|
    ensures Chunks(flat, rows, cols)[k] == flat[k * cols .. Min(k * cols + rows, |flat|)]
    decreases |flat|
  {
    if k > 0 {
      ChunksStep(flat, rows, cols, k);
      ChunkAt(flat[cols..], rows, cols, k - 1);
      ShiftByStep(k, cols);
      ChunkShift(flat, rows, cols, (k - 1) * cols, k * cols);
    }
  }

  /** Past the first chunk, chunk k of a list is chunk k - 1 of the list without its first step. */
  lemma ChunksStep<T>(flat: seq<T>, rows: nat, cols: nat, k: nat)
    requires cols > 0 && 0 < k < |Chunks(flat, rows, cols)|
    ensures cols < |flat|
    ensures k - 1 < |Chunks(flat[cols..], rows, cols)|
    ensures Chunks(flat, rows, cols)[k] == Chunks(flat[cols..], rows, cols)[k - 1]
  {
  }

  /** The clipped slice of the list without its first `cols` items, `cols` items further on. */
  lemma ChunkShift<T>(flat: seq<T>, rows: nat, cols: nat, m: nat, start: nat)
    requires cols < |flat| && m < |flat| - cols && start == m + cols
    ensures flat[cols..][m .. Min(m + rows, |flat| - cols)] == flat[start .. Min(start + rows, |flat|)]
  {
    DropThenSlice(flat, cols, m, Min(m + rows, |flat| - cols));
  }

  /** Slicing after dropping `d` items is slicing the original `d` further on. */
  lemma DropThenSlice<T>(flat: seq<T>, d: nat, i: nat, j: nat)
    requires d <= |flat| && i <= j <= |flat| - d
    ensures flat[d..][i..j] == flat[d + i .. d + j]
  {
  }

  lemma ShiftByStep(k: int, cols: int)
    ensures k * cols == (k - 1) * cols + cols
  {
  }

  /** With `rows == cols` the chunks tile the list: joining them gives it back. */
  lemma {:induction false} FlattenSquareChunks<T>(flat: seq<T>, cols: nat)
    requires cols > 0
    ensures Flatten(Chunks(flat, cols, cols)) == flat
    decreases |flat|
  {
    var n := |flat|;
    if n > 0 {
      var r := Chunks(flat, cols, cols);
      FlattenSquareChunks(flat[Min(cols, n)..], cols);
      assert r[1..] == Chunks(flat[Min(cols, n)..], cols, cols);
      assert flat == flat[..Min(cols, n)] + flat[Min(cols, n)..];
    }
  }

  /** The rows of a grid whose rows all have `cols` items, flattened and chunked back, are the grid. */
  lemma {:induction false} ChunksOfFlatten<T>(grid: seq<seq<T>>, cols: nat)
    requires cols > 0
    requires forall i :: 0 <= i < |grid| ==> |grid[i]| == cols
    ensures Chunks(Flatten(grid), cols, cols) == grid
  {
    if grid != [] {
      var flat := Flatten(grid);
      assert flat == grid[0] + Flatten(grid[1..]);
      assert flat[..cols] == grid[0];
      assert flat[cols..] == Flatten(grid[1..]);
      ChunksOfFlatten(grid[1..], cols);
    }
  }

  /** Rows 3, columns 2: the chunks of 1..6 overlap, each starting two items after the last. */
  lemma OverlappingChunksExample()
    ensures Chunks([1, 2, 3, 4, 5, 6], 3, 2) == [[1, 2, 3], [3, 4, 5], [5, 6]]
  {
    var a: seq<int> := [5, 6];
    assert a[..2] == a && a[2..] == [];
    assert Chunks(a, 3, 2) == [a];
    var b: seq<int> := [3, 4, 5, 6];
    assert b[..3] == [3, 4, 5] && b[2..] == a;
    assert Chunks(b, 3, 2) == [[3, 4, 5], [5, 6]];
    var c: seq<int> := [1, 2, 3, 4, 5, 6];
    assert c[..3] == [1, 2, 3] && c[2..] == b;
  }

  /** Rows 1, columns 2: every other item is dropped. */
  lemma GappedChunksExample()
    ensures Chunks([1, 2, 3, 4], 1, 2) == [[1], [3]]
  {
    var a: seq<int> := [3, 4];
    assert a[..1] == [3] && a[2..] == [];
    assert Chunks(a, 1, 2) == [[3]];
    var b: seq<int> := [1, 2, 3, 4];
    assert b[..1] == [1] && b[2..] == a;
  }
}
