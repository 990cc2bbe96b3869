/**
 * The two pixel grids the program keeps in globals (PixelVal and
 * OutputVal) and the passes over them: the in-place grayscale reduction,
 * the banded Sobel convolution, and the sequence of unpack, reduce,
 * convolve and pack that the driver performs between reading and writing
 * the files.
 */
module EdgeDetector {
  import opened Word
  import opened Pixels
  import opened Grayscale
  import opened Bands
  import opened Convolution
  import opened Layout

  /** g holds the grayscale reduction of the pixels encoded in `bytes`. */
  ghost predicate GrayOf(bytes: seq<u8>, g: array2<Pixel>)
    reads g
  {
    |bytes| == 3 * g.Length0 * g.Length1 &&
    (OffsetsInRange(g.Length0, g.Length1);
     forall i: nat, j: nat | i < g.Length0 && j < g.Length1 ::
       g[i, j] == GrayPixel(PixelAt(bytes, g.Length1, i, j)))
  }

  /**
   * The grayscale payload repeats, for every pixel, the first (red) byte
   * of that pixel in the input payload three times.
   */
  lemma {:induction false} GrayPayloadRepeatsRed(bytes: seq<u8>, g: array2<Pixel>, out: seq<u8>, i: nat, j: nat, c: nat)
    requires GrayOf(bytes, g) && Packed(g, out)
    requires i < g.Length0 && j < g.Length1 && c < 3
    ensures Offset(g.Length1, i, j) + 3 <= |bytes| == |out|
    ensures out[Offset(g.Length1, i, j) + c] == bytes[Offset(g.Length1, i, j)]
  {
    OffsetsInRange(g.Length0, g.Length1);
    var p := PixelAt(bytes, g.Length1, i, j);
    assert g[i, j] == GrayPixel(p);
    assert out[Offset(g.Length1, i, j) + c] == ToByte(Channel(g[i, j], c));
    GrayOfByte(p);
  }

  class Image {
    /** The input grid, reduced to grayscale in place. */
    const pixelVal: array2<Pixel>
    /** The edge map, written band by band. */
    const outputVal: array2<Pixel>

    /** Both grids have the same dimensions and are distinct. */
    ghost predicate Valid() {
      pixelVal.Length0 == outputVal.Length0 &&
      pixelVal.Length1 == outputVal.Length1 &&
      pixelVal != outputVal
    }

    function Rows(): nat {
      pixelVal.Length0
    }

    function Cols(): nat {
      pixelVal.Length1
    }

    /** Allocates both grids; their pixels are not initialised. */
    constructor (rows: nat, cols: nat)
      ensures Valid() && Rows() == rows && Cols() == cols
      ensures fresh(pixelVal) && fresh(outputVal)
    {
      pixelVal := new Pixel[rows, cols];
      outputVal := new Pixel[rows, cols];
    }

    /**
     * convert_grayscale: every pixel becomes three copies of the reduction
     * of its first channel; the other channels are ignored.
     */
    method ConvertGrayscale()
      requires Valid()
      modifies pixelVal
      ensures forall i, j | 0 <= i < Rows() && 0 <= j < Cols() ::
        pixelVal[i, j] == GrayPixel(old(pixelVal[i, j]))
    {
      for i := 0 to pixelVal.Length0
        invariant forall i', j' | 0 <= i' < Rows() && 0 <= j' < Cols() ::
          pixelVal[i', j'] == if i' < i then GrayPixel(old(pixelVal[i', j'])) else old(pixelVal[i', j'])
      {
        for j := 0 to pixelVal.Length1
          invariant forall i', j' | 0 <= i' < Rows() && 0 <= j' < Cols() ::
            pixelVal[i', j'] ==
              if i' < i || (i' == i && j' < j) then GrayPixel(old(pixelVal[i', j'])) else old(pixelVal[i', j'])
        {
          var p1 := pixelVal[i, j].p1;
          var val1 := Add(Add(p1, p1), p1) / 3;
          var val2 := val1;
          var val3 := val1;
          pixelVal[i, j] := Pixel(val1, val2, val3);
        }
      }
    }

    /**
     * The grayscale phase of the driver: each of the `workers` threads of
     * the parallel region runs the whole of convert_grayscale. The passes
     * are run one after another; the result is that of a single pass.
     */
    method ConvertGrayscaleTeam(workers: nat)
      requires Valid() && workers >= 1
      modifies pixelVal
      ensures forall i, j | 0 <= i < Rows() && 0 <= j < Cols() ::
        pixelVal[i, j] == GrayPixel(old(pixelVal[i, j]))
    {
      for k := 0 to workers
        invariant forall i, j | 0 <= i < Rows() && 0 <= j < Cols() ::
          pixelVal[i, j] == if k == 0 then old(pixelVal[i, j]) else GrayPixel(old(pixelVal[i, j]))
      {
        ConvertGrayscale();
        forall i, j | 0 <= i < Rows() && 0 <= j < Cols()
          ensures pixelVal[i, j] == GrayPixel(old(pixelVal[i, j]))
        {
          GrayIdempotent(old(pixelVal[i, j]));
        }
      }
    }

    /**
     * sobel_convolution for worker `rank` of `workers`: writes the edge
     * value of every pixel of the worker's band into outputVal and nothing
     * else; pixelVal is only read.
     */
    method SobelConvolution(rank: nat, workers: nat)
      requires Valid() && rank < workers
      modifies outputVal
      ensures forall i, j | 0 <= i < Rows() && 0 <= j < Cols() ::
        outputVal[i, j] ==
          var b := BandOf(rank, workers, Rows());
          if InBand(b, i) then EdgePixel(pixelVal, b, i, j) else old(outputVal[i, j])
    {
      var b := BandOf(rank, workers, pixelVal.Length0);
      var myFirst, myLast := b.first, b.last;
      for i := myFirst to myLast
        invariant forall i', j' | 0 <= i' < Rows() && 0 <= j' < Cols() ::
          outputVal[i', j'] == if myFirst <= i' < i then EdgePixel(pixelVal, b, i', j') else old(outputVal[i', j'])
      {
        for j := 0 to pixelVal.Length1
          invariant forall i', j' | 0 <= i' < Rows() && 0 <= j' < Cols() ::
            outputVal[i', j'] ==
              if myFirst <= i' < i || (i' == i && j' < j) then EdgePixel(pixelVal, b, i', j') else old(outputVal[i', j'])
        {
          var valX: u32, valY: u32;
          if i == myFirst || i == myLast - 1 || j == 0 || j == pixelVal.Length1 - 1 {
            valX, valY := 0, 0;
          } else {
            valX, valY := Accumulate(pixelVal, i, j);
          }
          var val1 := Threshold(SquaredMagnitude(valX, valY));
          outputVal[i, j] := Pixel(val1, val1, val1);
        }
      }
    }

    /**
     * The convolution phase of the driver: every worker of the parallel
     * region convolves its own band. The bands are disjoint, so running
     * them one after another gives every covered row the edge values of its
     * owner's band and leaves the remainder rows as they were.
     */
    method SobelTeam(workers: nat)
      requires Valid() && workers >= 1
      modifies outputVal
      ensures forall i, j | 0 <= i < Rows() && 0 <= j < Cols() ::
        outputVal[i, j] ==
          if i < Covered(workers, Rows())
          then EdgePixel(pixelVal, BandOf(Owner(i, workers, Rows()), workers, Rows()), i, j)
          else old(outputVal[i, j])
    {
      var h := Height(workers, Rows());
      for rank := 0 to workers
        invariant rank * h <= Covered(workers, Rows())
        invariant forall i, j | 0 <= i < Rows() && 0 <= j < Cols() ::
          outputVal[i, j] ==
            if i < rank * h
            then EdgePixel(pixelVal, BandOf(Owner(i, workers, Rows()), workers, Rows()), i, j)
            else old(outputVal[i, j])
      {
        MulLeft(rank + 1, workers, h);
        assert (rank + 1) * h == rank * h + h;
        SobelConvolution(rank, workers);
        forall i, j | 0 <= i < Rows() && 0 <= j < Cols()
          ensures outputVal[i, j] ==
            if i < rank * h + h
            then EdgePixel(pixelVal, BandOf(Owner(i, workers, Rows()), workers, Rows()), i, j)
            else old(outputVal[i, j])
        {
          if rank * h <= i < rank * h + h {
            OwnerUnique(i, rank, workers, Rows());
          }
        }
      }
    }

    /**
     * What the driver does between reading the input payload and writing
     * the two output files: unpack, reduce, convolve, pack the edge map
     * back into charImage and the grayscale grid into greyImage.
     */
    method Run(charImage: array<u8>, greyImage: array<u8>, workers: nat)
      requires Valid() && workers >= 1
      requires charImage.Length == 3 * Rows() * Cols() && greyImage.Length == charImage.Length
      requires charImage != greyImage
      modifies pixelVal, outputVal, charImage, greyImage
      ensures GrayOf(old(charImage[..]), pixelVal)
      ensures forall i, j | 0 <= i < Rows() && 0 <= j < Cols() ::
        outputVal[i, j] ==
          if i < Covered(workers, Rows())
          then EdgePixel(pixelVal, BandOf(Owner(i, workers, Rows()), workers, Rows()), i, j)
          else old(outputVal[i, j])
      ensures Packed(outputVal, charImage[..])
      ensures Packed(pixelVal, greyImage[..])
    {
      Layout.Unpack(charImage, pixelVal);
      ConvertGrayscaleTeam(workers);
      SobelTeam(workers);
      Pack(outputVal, charImage);
      Pack(pixelVal, greyImage);
    }
  }
}
