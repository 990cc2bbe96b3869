/**
 * Row partition of sobel_convolution. Worker `rank` of `workers` gets the
 * half-open row range [rank * h, rank * h + h) with h = rows / workers; the
 * `rows mod workers` rows after the last band belong to nobody.
 */
module Bands {
  import opened Word

  /** A half-open row range [first, last). */
  datatype Band = Band(first: nat, last: nat)

  predicate InBand(b: Band, i: int) {
    b.first <= i < b.last
  }

  /** Band height: rows / workers, truncated. */
  function Height(workers: nat, rows: nat): nat
    requires workers > 0
  {
    rows / workers
  }

  /** The rows covered by some band: [0, workers * h). */
  function Covered(workers: nat, rows: nat): nat
    requires workers > 0
  {
    workers * Height(workers, rows)
  }

  /** Worker `rank`'s band; it never leaves the covered rows, hence the grid. */
  function BandOf(rank: nat, workers: nat, rows: nat): (b: Band)
    requires rank < workers
    ensures b.first <= b.last <= Covered(workers, rows) <= rows
    ensures b.last - b.first == rows / workers
  {
    var h := Height(workers, rows);
    MulLeft(rank + 1, workers, h);
    Band(rank * h, rank * h + h)
  }

  /** Bands of distinct workers do not overlap: the lower rank's band ends first. */
  lemma {:induction false} BandsDisjoint(r1: nat, r2: nat, workers: nat, rows: nat)
    requires r1 < r2 < workers
    ensures BandOf(r1, workers, rows).last <= BandOf(r2, workers, rows).first
  {
    MulLeft(r1 + 1, r2, Height(workers, rows));
  }

  /** Every covered row lies in the band of worker i / h. */
  lemma {:induction false} RowOwner(i: nat, workers: nat, rows: nat)
    requires workers > 0 && i < Covered(workers, rows)
    ensures Height(workers, rows) > 0
    ensures i / Height(workers, rows) < workers
    ensures InBand(BandOf(i / Height(workers, rows), workers, rows), i)
  {
    var h := Height(workers, rows);
    var k := i / h;
    assert k * h <= i < k * h + h;
    if k >= workers {
      MulLeft(workers, k, h);
    }
  }

  /** The worker whose band holds covered row i. */
  function Owner(i: nat, workers: nat, rows: nat): (k: nat)
    requires workers > 0 && i < Covered(workers, rows)
    ensures k < workers && InBand(BandOf(k, workers, rows), i)
  {
    RowOwner(i, workers, rows);
    i / Height(workers, rows)
  }

  /** Only one worker's band holds a given row. */
  lemma {:induction false} OwnerUnique(i: nat, rank: nat, workers: nat, rows: nat)
    requires rank < workers && InBand(BandOf(rank, workers, rows), i)
    ensures i < Covered(workers, rows) && Owner(i, workers, rows) == rank
  {
    var k := Owner(i, workers, rows);
    if k < rank {
      BandsDisjoint(k, rank, workers, rows);
    } else if rank < k {
      BandsDisjoint(rank, k, workers, rows);
    }
  }

  /** A row past the covered range is in no band: the remainder rows are dropped. */
  lemma RemainderUncovered(i: nat, rank: nat, workers: nat, rows: nat)
    requires rank < workers && Covered(workers, rows) <= i
    ensures !InBand(BandOf(rank, workers, rows), i)
  {
  }

  /** When workers divides rows the bands reach the last row. */
  lemma {:induction false} EvenSplitCoversAll(workers: nat, rows: nat)
    requires workers > 0 && rows % workers == 0
    ensures Covered(workers, rows) == rows
  {
  }

  /**
   * Band-relative border: the band's first and last rows and the image's
   * first and last columns. The 3x3 mask is not applied there.
   */
  predicate IsBorder(b: Band, cols: nat, i: int, j: int) {
    i == b.first || i == b.last - 1 || j == 0 || j == cols - 1
  }

  /** Every neighbour of a non-border pixel of a band is inside the grid. */
  lemma InteriorNeighboursInGrid(b: Band, rows: nat, cols: nat, i: int, j: int)
    requires b.last <= rows && InBand(b, i) && 0 <= j < cols
    requires !IsBorder(b, cols, i, j)
    ensures 0 <= i - 1 && i + 1 < rows && 0 <= j - 1 && j + 1 < cols
  {
  }
}
