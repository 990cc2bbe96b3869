/**
 * The per-pixel arithmetic of sobel_convolution: the two masks as they are
 * stored (unsigned, so -1 and -2 are 2^32 - 1 and 2^32 - 2), the
 * accumulation loop, the squared magnitude and the threshold at 200.
 *
 * The accumulation loop resets valX and valY at the start of every mask
 * row, so only the last mask row, applied to the image row below the pixel,
 * survives. The closed forms InteriorX and InteriorY state that outcome.
 */
module Convolution {
  import opened Word
  import opened Pixels
  import opened Bands

  /** -1 and -2 stored in an `unsigned int`. */
  const NEG1: u32 := 0xFFFF_FFFF
  const NEG2: u32 := 0xFFFF_FFFE

  /** The horizontal mask GX, indexed [1 + x][1 + y]. */
  const GX: seq<seq<u32>> := [[1, 0, NEG1], [2, 0, NEG2], [1, 0, NEG1]]

  /** The vertical mask GY, indexed [1 + x][1 + y]. */
  const GY: seq<seq<u32>> := [[1, 2, 1], [0, 0, 0], [NEG1, NEG2, NEG1]]

  /** The smallest wrapped sum of squares whose square root exceeds 200: 201 * 201. */
  const EDGE_MIN: int := 40401

  /**
   * The accumulator after the inner loop has taken the first `n` products of
   * the first channels `lumas` (columns j-1, j, j+1) with mask row `m`,
   * starting from 0.
   */
  function RowDot(lumas: seq<u32>, m: seq<u32>, n: nat): u32
    requires |lumas| == 3 && |m| == 3 && n <= 3
  {
    if n == 0 then 0 else Add(RowDot(lumas, m, n - 1), Mul(lumas[n - 1], m[n - 1]))
  }

  /** First channels of row r at columns j-1, j, j+1. */
  function Lumas(g: array2<Pixel>, r: int, j: int): (l: seq<u32>)
    reads g
    requires 0 <= r < g.Length0 && 1 <= j < g.Length1 - 1
    ensures |l| == 3
  {
    [g[r, j - 1].p1, g[r, j].p1, g[r, j + 1].p1]
  }

  /** valX of a non-border pixel whose lower neighbours are l, c, r. */
  function InteriorX(l: u32, c: u32, r: u32): u32 {
    Wrap(l - r)
  }

  /** valY of a non-border pixel whose lower neighbours are l, c, r. */
  function InteriorY(l: u32, c: u32, r: u32): u32 {
    Wrap(-(l + 2 * c + r))
  }

  lemma MulByNegative(a: u32, k: int)
    requires 1 <= k <= 2
    ensures Mul(a, MOD - k) == Wrap(-k * (a as int))
  {
    var ai: int := a;
    if k == 1 {
      assert ai * (MOD - 1) == -ai + ai * MOD;
    } else {
      assert ai * (MOD - 2) == -2 * ai + ai * MOD;
    }
    WrapShift(-k * ai, ai);
  }

  /** The bottom row of GX applied to l, c, r gives l - r modulo 2^32. */
  lemma {:induction false} BottomRowX(l: u32, c: u32, r: u32)
    ensures RowDot([l, c, r], GX[2], 3) == InteriorX(l, c, r)
  {
    var li: int, ri: int := l, r;
    var m := GX[2];
    assert m == [1, 0, MOD - 1];
    assert RowDot([l, c, r], m, 2) == l by {
      assert RowDot([l, c, r], m, 1) == Mul(l, 1) == l;
    }
    MulByNegative(r, 1);
    WrapAdd(-ri, li);
  }

  /** The bottom row of GY applied to l, c, r gives -(l + 2c + r) modulo 2^32. */
  lemma {:induction false} BottomRowY(l: u32, c: u32, r: u32)
    ensures RowDot([l, c, r], GY[2], 3) == InteriorY(l, c, r)
  {
    var li: int, ci: int, ri: int := l, c, r;
    var m := GY[2];
    assert m == [MOD - 1, MOD - 2, MOD - 1];
    MulByNegative(l, 1);
    MulByNegative(c, 2);
    MulByNegative(r, 1);
    assert RowDot([l, c, r], m, 1) == Wrap(-li);
    WrapAdd(-2 * ci, Wrap(-li));
    WrapAdd(-li, -2 * ci);
    assert RowDot([l, c, r], m, 2) == Wrap(-li - 2 * ci);
    WrapAdd(-ri, Wrap(-li - 2 * ci));
    WrapAdd(-li - 2 * ci, -ri);
  }

  /**
   * The accumulation loop for a pixel whose 3x3 neighbourhood lies in the
   * grid: every neighbour is read, but only the row below determines the
   * result.
   */
  method Accumulate(g: array2<Pixel>, i: int, j: int) returns (valX: u32, valY: u32)
    requires 1 <= i < g.Length0 - 1 && 1 <= j < g.Length1 - 1
    ensures valX == InteriorX(g[i + 1, j - 1].p1, g[i + 1, j].p1, g[i + 1, j + 1].p1)
    ensures valY == InteriorY(g[i + 1, j - 1].p1, g[i + 1, j].p1, g[i + 1, j + 1].p1)
  {
    valX, valY := 0, 0;
    var x := -1;
    while x <= 1
      invariant -1 <= x <= 2
      invariant x > -1 ==> valX == RowDot(Lumas(g, i + x - 1, j), GX[x], 3)
      invariant x > -1 ==> valY == RowDot(Lumas(g, i + x - 1, j), GY[x], 3)
    {
      ghost var lumas, mx, my := Lumas(g, i + x, j), GX[1 + x], GY[1 + x];
      valX := 0;
      valY := 0;
      var y := -1;
      while y <= 1
        invariant -1 <= y <= 2
        invariant valX == RowDot(lumas, mx, y + 1)
        invariant valY == RowDot(lumas, my, y + 1)
      {
        assert g[i + x, j + y].p1 == lumas[y + 1];
        valX := Add(valX, Mul(g[i + x, j + y].p1, GX[1 + x][1 + y]));
        valY := Add(valY, Mul(g[i + x, j + y].p1, GY[1 + x][1 + y]));
        y := y + 1;
      }
      x := x + 1;
    }
    BottomRowX(g[i + 1, j - 1].p1, g[i + 1, j].p1, g[i + 1, j + 1].p1);
    BottomRowY(g[i + 1, j - 1].p1, g[i + 1, j].p1, g[i + 1, j + 1].p1);
  }

  /** (valX * valX) + (valY * valY), every operation wrapping at 2^32. */
  function SquaredMagnitude(valX: u32, valY: u32): u32 {
    Add(Mul(valX, valX), Mul(valY, valY))
  }

  /** The binarized output level for a squared magnitude s. */
  function Threshold(s: u32): (v: u32)
    ensures v == 0 || v == 255
  {
    if s >= EDGE_MIN then 255 else 0
  }

  /** m is the integer part of the square root of s. */
  predicate IsFloorSqrt(m: nat, s: int) {
    m * m <= s < (m + 1) * (m + 1)
  }

  /**
   * The integer threshold agrees with the program's test: the truncated
   * square root of s exceeds 200 exactly when Threshold yields 255.
   */
  lemma {:induction false} ThresholdIsSqrtTest(s: u32, m: nat)
    requires IsFloorSqrt(m, s)
    ensures Threshold(s) == 255 <==> m > 200
    ensures Threshold(s) == 0 <==> m <= 200
  {
    if m > 200 {
      MulLeft(201, m, 201);
      MulLeft(201, m, m);
    } else {
      MulLeft(m + 1, 201, m + 1);
      MulLeft(m + 1, 201, 201);
    }
  }

  /** The output level of pixel (i, j) of band b: 0 on the border, else the thresholded gradient. */
  function EdgeValue(g: array2<Pixel>, b: Band, i: int, j: int): (v: u32)
    reads g
    requires InBand(b, i) && b.last <= g.Length0 && 0 <= j < g.Length1
    ensures v == 0 || v == 255
    ensures IsBorder(b, g.Length1, i, j) ==> v == 0
  {
    if IsBorder(b, g.Length1, i, j) then
      Threshold(SquaredMagnitude(0, 0))
    else
      var l, c, r := g[i + 1, j - 1].p1, g[i + 1, j].p1, g[i + 1, j + 1].p1;
      Threshold(SquaredMagnitude(InteriorX(l, c, r), InteriorY(l, c, r)))
  }

  /** The pixel setPixels(val1, val1, val1) writes into the output grid. */
  function EdgePixel(g: array2<Pixel>, b: Band, i: int, j: int): Pixel
    reads g
    requires InBand(b, i) && b.last <= g.Length0 && 0 <= j < g.Length1
  {
    var v := EdgeValue(g, b, i, j);
    Pixel(v, v, v)
  }

  /** A flat neighbourhood has no horizontal gradient, but a vertical one of -4 times its level. */
  lemma FlatGradient(v: u32)
    ensures InteriorX(v, v, v) == 0
    ensures InteriorY(v, v, v) == Wrap(-4 * v)
  {
  }

  /**
   * Because only the row below is used, a uniform image of byte level v is
   * not black inside: its interior pixels are edges exactly when v >= 51.
   */
  lemma {:induction false} UniformGrayIsEdge(v: u32)
    requires v < 256
    ensures Threshold(SquaredMagnitude(InteriorX(v, v, v), InteriorY(v, v, v))) == if v >= 51 then 255 else 0
  {
    FlatGradient(v);
    var sq := 16 * (v * v);
    SquareBounds(v);
    assert SquaredMagnitude(0, InteriorY(v, v, v)) == sq by {
      FlatSquare(v);
    }
  }

  /** 16 v^2 of a byte level fits in a word and crosses 40401 between 50 and 51. */
  lemma SquareBounds(v: nat)
    requires v < 256
    ensures 16 * (v * v) < MOD
    ensures 16 * (v * v) >= EDGE_MIN <==> v >= 51
  {
    if v >= 51 {
      MulLeft(51, v, 51);
      MulLeft(51, v, v);
    } else {
      MulLeft(v, 50, 50);
      MulLeft(v, 50, v);
    }
    MulLeft(v, 255, 255);
    MulLeft(v, 255, v);
  }

  /** The wrapped square of -4v is 16 v^2 for a byte level v. */
  lemma FlatSquare(v: u32)
    requires v < 256
    ensures Mul(Wrap(-4 * (v as int)), Wrap(-4 * (v as int))) == Wrap(16 * (v * v))
  {
    var vi: int := v;
    if v > 0 {
      var y := MOD - 4 * vi;
      assert Wrap(-4 * vi) == y;
      assert y * y == 16 * (vi * vi) + (MOD - 8 * vi) * MOD;
      WrapShift(16 * (vi * vi), MOD - 8 * vi);
    }
  }

  /**
   * Band-relative borders leave a seam: with two or more workers the first
   * row of every band after the first is black, although the same row is
   * an interior row when one worker covers the whole grid.
   */
  lemma SeamRowIsBlack(g: array2<Pixel>, rank: nat, workers: nat, j: nat)
    requires 1 <= rank < workers && Height(workers, g.Length0) >= 1 && j < g.Length1
    ensures var b := BandOf(rank, workers, g.Length0);
      EdgeValue(g, b, b.first, j) == 0 &&
      (0 < j < g.Length1 - 1 && b.first < g.Length0 - 1 ==> !IsBorder(BandOf(0, 1, g.Length0), g.Length1, b.first, j))
  {
    var b := BandOf(rank, workers, g.Length0);
    assert IsBorder(b, g.Length1, b.first, j);
    assert b.first >= 1 by {
      MulLeft(1, rank, Height(workers, g.Length0));
    }
    assert BandOf(0, 1, g.Length0) == Band(0, g.Length0);
  }
}
