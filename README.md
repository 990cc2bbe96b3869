# Sobel edge detection — a verified model of the numeric core

The program reads a binary PPM image, reduces it to grayscale in place,
applies the two 3x3 Sobel masks band by band (one band of rows per OpenMP
thread), thresholds the gradient magnitude at 200 into a black-and-white
edge map, and writes both grids back out as byte payloads. This project
models that core in Dafny, all of it in `sobel.cpp`:

- `word.dfy` (`Word`): `unsigned int` as `u32` with explicit wrap-around
  modulo 2^32, and bytes as `u8`.
- `pixel.dfy` (`Pixels`): the `Pixel` record of three channels. The program's
  `Pixel` objects live by value in the grid rows and are only replaced as a
  whole through `setPixels`, so the model makes `Pixel` a datatype. The
  getters are its fields and `Channel`. `ToByte` is the `(unsigned char)` cast.
- `grayscale.dfy` (`Grayscale`): the per-pixel reduction of `convert_grayscale`.
- `bands.dfy` (`Bands`): the row partition `[rank*(R/P), rank*(R/P) + R/P)`
  and the band-relative border test.
- `convolution.dfy` (`Convolution`): the masks as stored, the accumulation
  loop, the wrapped squared magnitude and the threshold.
- `layout.dfy` (`Layout`): the unpack and pack loops of `main` between the
  interleaved RGB payload and the grid.
- `image.dfy` (`EdgeDetector`): the class `Image` owning the two grids
  `pixelVal` and `outputVal`. It has `convert_grayscale`, `sobel_convolution`,
  the two parallel regions of `main` and the whole sequence from unpack to pack.

## Where the code and its comments differ

The model follows the code.

- `convert_grayscale` is documented as averaging the three channels. It
  computes `(P1 + P1 + P1) / 3` in 32-bit arithmetic, so green and blue are
  ignored. For byte input the result is just the red channel
  (`GrayOfByte`, `GrayIsNotTheAverage`).
- The accumulation loop resets `valX` and `valY` at the top of every mask
  row. Only the row below the pixel survives:
  `valX = P[i+1][j-1] - P[i+1][j+1]` and
  `valY = -(P[i+1][j-1] + 2 P[i+1][j] + P[i+1][j+1])`, both modulo 2^32
  (`Accumulate`). As a consequence a uniform image of byte level 51 or more
  comes out as edges in its interior (`UniformGrayIsEdge`).
- The masks and accumulators are unsigned, so `-1` and `-2` are 2^32 - 1
  and 2^32 - 2, and the squares and their sum wrap as well.
- The border is relative to the band. Each band blanks its own first and
  last rows, so interior band boundaries become black seams that a single
  worker would not produce (`SeamRowIsBlack`).
- With `R mod P != 0` the last `R mod P` rows belong to no band and keep the
  uninitialised contents of `OutputVal` (`RemainderUncovered`, `SobelTeam`).

## Model

| member | source | states |
|---|---|---|
| `Word.Wrap` | sobel.cpp:59-62 | an `unsigned int` result differs from the exact value by a multiple of 2^32 and equals it when it is in range |
| `Pixels.ToByte` | sobel.cpp:249-251 | the `unsigned char` cast keeps the value modulo 256 and leaves bytes 0..255 unchanged |
| `Grayscale.Gray` | sobel.cpp:140 | the reduced first channel never exceeds (2^32-1)/3, and it equals the input exactly when the input is at most (2^32-1)/3 |
| `Grayscale.GrayIgnoresGreenBlue` | sobel.cpp:140-143 | two pixels with the same first channel reduce to the same pixel: green and blue never matter |
| `Grayscale.GrayOfByte` | sobel.cpp:140-143 | a pixel whose first channel is a byte reduces to three copies of that channel |
| `Grayscale.GrayIdempotent` | sobel.cpp:140-143 | reducing an already reduced pixel changes nothing |
| `Grayscale.GrayIsNotTheAverage` | sobel.cpp:131-140 | the pixel (0, 255, 255) reduces to 0, not to the documented average 170 |
| `Bands.BandOf` | sobel.cpp:70-75 | worker `rank < P` gets a band of height R/P that lies inside the rows covered by all bands, hence inside the grid |
| `Bands.BandsDisjoint` | sobel.cpp:74-75 | bands of distinct workers do not overlap: the lower rank's band ends where or before the higher one starts |
| `Bands.RowOwner` | sobel.cpp:70-75 | every row below P*(R/P) lies in the band of worker row / (R/P), which is a valid rank |
| `Bands.Owner` | sobel.cpp:74-75 | the owner of a covered row is a valid rank whose band contains the row |
| `Bands.OwnerUnique` | sobel.cpp:74-75 | a row in worker `rank`'s band is covered and its owner is `rank`, no other worker |
| `Bands.RemainderUncovered` | sobel.cpp:70-91 | a row at or past P*(R/P) is in no worker's band: the remainder rows are never written |
| `Bands.EvenSplitCoversAll` | sobel.cpp:70-75 | when P divides R the bands cover every row |
| `Bands.InteriorNeighboursInGrid` | sobel.cpp:94-105 | every neighbour (i±1, j±1) of a non-border pixel of a band lies inside the grid |
| `Convolution.BottomRowX` | sobel.cpp:78-80 | the last row of GX (1, 0, 2^32-1) applied to l, c, r with wrapping sums gives l - r modulo 2^32 |
| `Convolution.BottomRowY` | sobel.cpp:83-85 | the last row of GY (2^32-1, 2^32-2, 2^32-1) applied to l, c, r gives -(l + 2c + r) modulo 2^32 |
| `Convolution.Accumulate` | sobel.cpp:100-107 | the inner loop step is `RowDot` (one wrapped product added per mask column); after the x/y loops over the whole 3x3 neighbourhood, valX and valY are the closed forms over the row below the pixel only |
| `Convolution.Threshold` | sobel.cpp:113-118 | the binarized level is always 0 or 255 |
| `Convolution.ThresholdIsSqrtTest` | sobel.cpp:111-118 | for any m that is the integer square root of s, the level is 255 exactly when m > 200 and 0 exactly when m <= 200 |
| `Convolution.EdgeValue` | sobel.cpp:94-118 | the output level of a band pixel is 0 or 255, and 0 on every border pixel (`Bands.IsBorder`, line 95); elsewhere it thresholds `SquaredMagnitude` (line 111) of the closed forms; `EdgePixel` repeats it in all three channels (line 121) |
| `Convolution.FlatGradient` | sobel.cpp:100-107 | three equal lower neighbours v give valX = 0 and valY = -4v modulo 2^32 |
| `Convolution.UniformGrayIsEdge` | sobel.cpp:100-118 | an interior pixel of a uniform image of byte level v is marked 255 exactly when v >= 51, and 0 otherwise |
| `Convolution.SeamRowIsBlack` | sobel.cpp:91-121 | with two or more workers the first row of every band but the first is black, while with one worker the same row is an interior row |
| `Layout.OffsetsInRange` | sobel.cpp:206-217 | the three bytes at T = 3(i*C + j) of every pixel of an R x C grid lie inside the 3RC-byte payload |
| `Layout.ByteOwner` | sobel.cpp:243-254 | every payload offset t is byte t mod 3 of pixel (t/3/C, t/3 mod C), a pixel of the grid |
| `Layout.OffsetInjective` | sobel.cpp:243-254 | two pixels of the grid with the same offset are the same pixel |
| `Layout.Unpack` | sobel.cpp:206-217 | afterwards every pixel (i, j) holds the three bytes at offsets T, T+1, T+2 of the payload |
| `Layout.Pack` | sobel.cpp:243-254 | afterwards byte T + c holds channel c of pixel (i, j) cast to `unsigned char`, for every pixel and channel |
| `Layout.PackAfterUnpack` | sobel.cpp:206-254 | packing a grid unpacked from a payload, with no change in between, gives back the same payload |
| `EdgeDetector.GrayPayloadRepeatsRed` | sobel.cpp:256-268 | the grayscale payload written from a reduced byte image holds, at all three bytes of each pixel, that pixel's input red byte |
| `EdgeDetector.Image.constructor` | sobel.cpp:201-208 | both grids are new, distinct and of the requested dimensions |
| `EdgeDetector.Image.ConvertGrayscale` | sobel.cpp:133-146 | every pixel of the grid is replaced by `GrayPixel` of its old value, three copies of `Gray` of the first channel (lines 141-143), and nothing else changes |
| `EdgeDetector.Image.ConvertGrayscaleTeam` | sobel.cpp:230-233 | P >= 1 complete reduction passes leave the same grid as a single pass |
| `EdgeDetector.Image.SobelConvolution` | sobel.cpp:58-124 | every pixel of worker `rank`'s band gets its edge pixel computed from the grayscale grid; every other output pixel and the whole grayscale grid are unchanged |
| `EdgeDetector.Image.SobelTeam` | sobel.cpp:236-239 | after all P workers every row below P*(R/P) holds the edge pixels of its owner's band and the remainder rows are untouched |
| `EdgeDetector.Image.Run` | sobel.cpp:206-268 | the grayscale grid is the reduction of the input payload, the edge grid is as SobelTeam states, and the two output payloads are their packings |

## Left out

- OpenMP: the parallel regions and `parallel for` are run sequentially,
  worker after worker, with `rank` and `P` as explicit parameters. The model
  assumes nested parallelism is off (the default), so each `parallel for`
  inside a region runs on a team of one. Then every thread of the grayscale
  region runs the whole pass, and every thread of the convolution region runs
  its own band. The concurrent interleaving of the grayscale passes is not
  modelled; the model runs the passes in sequence (`ConvertGrayscaleTeam`).
  For channels no larger than (2^32-1)/3, which includes every byte 0..255,
  the reduction is the identity, so every thread writes the same pixel and
  any interleaving gives the sequential result. For larger channels, the
  three separate reads of the first channel at sobel.cpp:140 can mix an
  original and an already reduced value. The result is then neither
  reduction, and the model does not capture this. The race on the shared
  `valX`/`valY`/`val1` that nested parallelism would cause is not modelled.
- Floating point: `sqrt` and the conversion of its result to `unsigned int`
  are replaced by the exact integer test `s >= 40401`.
  `ThresholdIsSqrtTest` relates it to the integer square root.
- Stream I/O, the prompts, error messages and the PPM (P6) header read and
  write are not modelled. Because of the header read order, the program
  stores the image width in `TotRows`; the model only sees the grid
  dimensions it is given.
- Timing with `omp_get_wtime` and the `printf` are not modelled.
- Heap allocation and `delete` are not modelled. The constructor allocates
  both grids with unspecified pixels, standing for the uninitialised `Pixel`
  objects.
- The fixed 5000 x 5000 buffer is not modelled. The payloads are required to
  be exactly 3 * rows * cols bytes long.
- The `char` payload is taken as bytes 0..255. Sign extension of a signed
  `char` in `(unsigned int)charImage[T]` is not modelled.
- The unused `local_col` is not modelled.
