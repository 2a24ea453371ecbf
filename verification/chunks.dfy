/**
 * File chunks and the arithmetic that lays a file out over the registered
 * workers.
 *
 * A file of `fileSize` bytes is cut into one contiguous range per worker:
 * with `n` workers and `c = fileSize / n`, range `i` starts at `i * c`,
 * every range but the last has size `c`, and the last one runs to the end
 * of the file.
 */
module Chunks {
  import opened Wrappers
  import opened Registry

  /** The source only ever writes 'pending' and 'completed' into a chunk. */
  datatype ChunkStatus = Pending | Completed

  datatype Chunk = Chunk(
    workerId: WorkerId,
    port: Option<int>,
    filepath: string,
    start: int,
    size: int,
    status: ChunkStatus)

  /** One past the last byte of a chunk. */
  function End(c: Chunk): int {
    c.start + c.size
  }

  /** Start offset of range `i` of `n`. */
  function RangeStart(fileSize: nat, n: nat, i: nat): (start: int)
    requires 1 <= n
    ensures 0 <= start
    ensures i < n ==> start <= fileSize
  {
    var c := fileSize / n;
    if i < n then MulLeq(i, n, c); i * c else i * c
  }

  /** Size of range `i` of `n`: the quotient, except the last range takes what is left. */
  function RangeSize(fileSize: nat, n: nat, i: nat): (size: int)
    requires 1 <= n
    ensures i < n ==> 0 <= size && RangeStart(fileSize, n, i) + size <= fileSize
    ensures i == n - 1 ==> RangeStart(fileSize, n, i) + size == fileSize
  {
    var c := fileSize / n;
    if i < n - 1 then
      assert RangeStart(fileSize, n, i) + c == (i + 1) * c;
      MulLeq(i + 1, n, c);
      assert n * c <= fileSize;
      c
    else fileSize - RangeStart(fileSize, n, i)
  }

  lemma MulLeq(a: nat, b: nat, c: nat)
    requires a <= b
    ensures a * c <= b * c
  {
  }

  /** One pending chunk per registered worker, in registry order. */
  function Layout(ws: Workers, filepath: string, fileSize: nat): (cs: seq<Chunk>)
    requires 1 <= |ws|
    ensures |cs| == |ws|
    ensures forall i :: 0 <= i < |cs| ==>
      && cs[i].workerId == ws[i].id
      && cs[i].port == ws[i].info.port
      && cs[i].filepath == filepath
      && cs[i].status == Pending
  {
    seq(|ws|, i requires 0 <= i < |ws| =>
      Chunk(ws[i].id, ws[i].info.port, filepath,
            RangeStart(fileSize, |ws|, i), RangeSize(fileSize, |ws|, i), Pending))
  }

  /** Each chunk ends where the next one starts. */
  ghost predicate Contiguous(cs: seq<Chunk>) {
    forall i :: 0 <= i < |cs| - 1 ==> End(cs[i]) == cs[i + 1].start
  }

  ghost predicate NonNegativeSizes(cs: seq<Chunk>) {
    forall i :: 0 <= i < |cs| ==> 0 <= cs[i].size
  }

  /** The chunks cover `[0, fileSize)` end to end, without gaps or overlaps. */
  ghost predicate Tiles(cs: seq<Chunk>, fileSize: int) {
    && 1 <= |cs|
    && cs[0].start == 0
    && Contiguous(cs)
    && NonNegativeSizes(cs)
    && End(cs[|cs| - 1]) == fileSize
  }

  function SumSizes(cs: seq<Chunk>): int {
    if |cs| == 0 then 0 else cs[0].size + SumSizes(cs[1..])
  }

  /** Contiguous chunks add up to the distance from the first start to the last end. */
  lemma {:induction false} SumOfContiguous(cs: seq<Chunk>)
    requires 1 <= |cs| && Contiguous(cs)
    ensures SumSizes(cs) == End(cs[|cs| - 1]) - cs[0].start
  {
    if |cs| > 1 {
      assert Contiguous(cs[1..]) by {
        forall i | 0 <= i < |cs[1..]| - 1
          ensures End(cs[1..][i]) == cs[1..][i + 1].start
        {
          assert End(cs[i + 1]) == cs[i + 2].start;
        }
      }
      SumOfContiguous(cs[1..]);
    }
  }

  /** Contiguous chunks of non-negative size never overlap: an earlier one ends before a later one starts. */
  lemma {:induction false} ContiguousDisjoint(cs: seq<Chunk>, i: int, j: int)
    requires Contiguous(cs) && NonNegativeSizes(cs)
    requires 0 <= i < j < |cs|
    ensures End(cs[i]) <= cs[j].start
    decreases j - i
  {
    if i + 1 < j {
      ContiguousDisjoint(cs, i + 1, j);
    }
  }

  /** Every offset of the covered span lies inside some chunk. */
  lemma {:induction false} ContiguousCovers(cs: seq<Chunk>, x: int)
    requires 1 <= |cs| && Contiguous(cs) && NonNegativeSizes(cs)
    requires cs[0].start <= x < End(cs[|cs| - 1])
    ensures exists i :: 0 <= i < |cs| && cs[i].start <= x < End(cs[i])
  {
    if x >= End(cs[0]) {
      var tail := cs[1..];
      assert Contiguous(tail) by {
        forall i | 0 <= i < |tail| - 1
          ensures End(tail[i]) == tail[i + 1].start
        {
          assert End(cs[i + 1]) == cs[i + 2].start;
        }
      }
      ContiguousCovers(tail, x);
      var k :| 0 <= k < |tail| && tail[k].start <= x < End(tail[k]);
      assert cs[k + 1] == tail[k];
    } else {
      assert cs[0].start <= x < End(cs[0]);
    }
  }

  /**
   * A tiling partitions the file: each byte offset in `[0, fileSize)` lies in
   * exactly one chunk.
   */
  lemma TilesPartition(cs: seq<Chunk>, fileSize: int, x: int)
    requires Tiles(cs, fileSize)
    requires 0 <= x < fileSize
    ensures exists i :: 0 <= i < |cs| && cs[i].start <= x < End(cs[i])
    ensures forall i, j ::
              (0 <= i < |cs| && 0 <= j < |cs| && cs[i].start <= x < End(cs[i])
               && cs[j].start <= x < End(cs[j])) ==> i == j
  {
    ContiguousCovers(cs, x);
    forall i, j | 0 <= i < |cs| && 0 <= j < |cs| && cs[i].start <= x < End(cs[i])
                  && cs[j].start <= x < End(cs[j])
      ensures i == j
    {
      if i < j {
        ContiguousDisjoint(cs, i, j);
      } else if j < i {
        ContiguousDisjoint(cs, j, i);
      }
    }
  }

  /** Two chunk lists describe the same byte ranges of the same files. */
  ghost predicate SameRanges(a: seq<Chunk>, b: seq<Chunk>) {
    && |a| == |b|
    && forall i :: 0 <= i < |a| ==>
         a[i].filepath == b[i].filepath && a[i].start == b[i].start && a[i].size == b[i].size
  }

  /** Tiling depends only on the ranges, not on owners or statuses. */
  lemma SameRangesTile(a: seq<Chunk>, b: seq<Chunk>, fileSize: int)
    requires SameRanges(a, b) && Tiles(a, fileSize)
    ensures Tiles(b, fileSize)
  {
    assert forall i :: 0 <= i < |a| ==> End(a[i]) == End(b[i]);
  }

  /** Division facts behind the layout: the last range gets the quotient plus the remainder. */
  lemma LastRangeSize(fileSize: nat, n: nat)
    requires 1 <= n
    ensures RangeSize(fileSize, n, n - 1) == fileSize / n + fileSize % n
    ensures 0 <= fileSize % n < n
  {
    var c := fileSize / n;
    assert fileSize == n * c + fileSize % n;
    assert (n - 1) * c == n * c - c;
  }

  lemma RangeStep(fileSize: nat, n: nat, i: nat)
    requires 1 <= n && i < n - 1
    ensures RangeStart(fileSize, n, i) + RangeSize(fileSize, n, i) == RangeStart(fileSize, n, i + 1)
  {
    var c := fileSize / n;
    assert (i + 1) * c == i * c + c;
  }

  /**
   * The layout arithmetic: with `n` workers and `c = fileSize / n`, chunk `i`
   * starts at `i * c`, all chunks but the last have size `c`, the last has
   * size `c` plus the remainder, and together they tile the file.
   */
  lemma LayoutTiles(ws: Workers, filepath: string, fileSize: nat)
    requires 1 <= |ws|
    ensures var cs := Layout(ws, filepath, fileSize);
            var n := |ws|;
            var c := fileSize / n;
            && (forall i :: 0 <= i < n ==> cs[i].start == i * c)
            && (forall i :: 0 <= i < n - 1 ==> cs[i].size == c)
            && cs[n - 1].size == c + fileSize % n
            && fileSize % n < n
            && Tiles(cs, fileSize)
            && SumSizes(cs) == fileSize
  {
    var cs := Layout(ws, filepath, fileSize);
    LayoutSizes(ws, filepath, fileSize);
    LayoutContiguous(ws, filepath, fileSize);
    SumOfContiguous(cs);
  }

  lemma LayoutSizes(ws: Workers, filepath: string, fileSize: nat)
    requires 1 <= |ws|
    ensures var cs := Layout(ws, filepath, fileSize);
            var n := |ws|;
            && cs[n - 1].size == fileSize / n + fileSize % n
            && fileSize % n < n
            && NonNegativeSizes(cs)
            && End(cs[n - 1]) == fileSize
  {
    LastRangeSize(fileSize, |ws|);
  }

  lemma LayoutContiguous(ws: Workers, filepath: string, fileSize: nat)
    requires 1 <= |ws|
    ensures Contiguous(Layout(ws, filepath, fileSize))
  {
    var cs := Layout(ws, filepath, fileSize);
    forall i | 0 <= i < |cs| - 1
      ensures End(cs[i]) == cs[i + 1].start
    {
      RangeStep(fileSize, |ws|, i);
    }
  }
}
