/**
 * The byte payload and the pixel grid. Pixel (i, j) of a grid with `cols`
 * columns occupies the three bytes starting at T = 3 * (i * cols + j),
 * red, green, blue. Unpacking widens each byte to an `unsigned int`
 * channel; packing casts each channel back to `unsigned char`.
 */
module Layout {
  import opened Word
  import opened Pixels

  /** The cursor T at pixel (i, j). */
  function Offset(cols: nat, i: nat, j: nat): nat {
    3 * (i * cols + j)
  }

  /** The three bytes of every pixel lie inside a payload of 3 * rows * cols bytes. */
  lemma {:induction false} OffsetsInRange(rows: nat, cols: nat)
    ensures forall i: nat, j: nat | i < rows && j < cols :: Offset(cols, i, j) + 3 <= 3 * rows * cols
  {
    forall i: nat, j: nat | i < rows && j < cols
      ensures Offset(cols, i, j) + 3 <= 3 * rows * cols
    {
      MulLeft(i + 1, rows, cols);
    }
  }

  /** Row-major numbering is invertible: (i * cols + j) splits back into i and j. */
  lemma {:induction false} RowMajorSplit(cols: nat, i: nat, j: nat)
    requires j < cols
    ensures (i * cols + j) / cols == i && (i * cols + j) % cols == j
  {
    var n := i * cols + j;
    var q, r := n / cols, n % cols;
    assert (q - i) * cols == j - r;
    if q > i {
      MulLeft(1, q - i, cols);
    } else if q < i {
      MulLeft(1, i - q, cols);
    }
  }

  /** Every byte of the payload belongs to exactly the pixel and channel its offset names. */
  lemma {:induction false} ByteOwner(rows: nat, cols: nat, t: nat)
    requires t < 3 * rows * cols
    ensures cols > 0 && t / 3 / cols < rows && t / 3 % cols < cols
    ensures t == Offset(cols, t / 3 / cols, t / 3 % cols) + t % 3
  {
    var n := t / 3;
    assert n < rows * cols;
    var i, j := n / cols, n % cols;
    assert n == i * cols + j;
    if i >= rows {
      MulLeft(rows, i, cols);
    }
  }

  /** The pixel read from the three bytes at its offset. */
  function PixelAt(bytes: seq<u8>, cols: nat, i: nat, j: nat): Pixel
    requires Offset(cols, i, j) + 3 <= |bytes|
  {
    var t := Offset(cols, i, j);
    Pixel(bytes[t], bytes[t + 1], bytes[t + 2])
  }

  /** g holds, pixel by pixel, what the payload `bytes` encodes. */
  ghost predicate Unpacked(bytes: seq<u8>, g: array2<Pixel>)
    reads g
  {
    |bytes| == 3 * g.Length0 * g.Length1 &&
    (OffsetsInRange(g.Length0, g.Length1);
     forall i: nat, j: nat | i < g.Length0 && j < g.Length1 :: g[i, j] == PixelAt(bytes, g.Length1, i, j))
  }

  /** `out` holds, at the three offsets of every pixel of g, its channels cast to bytes. */
  ghost predicate Packed(g: array2<Pixel>, out: seq<u8>)
    reads g
  {
    |out| == 3 * g.Length0 * g.Length1 &&
    (OffsetsInRange(g.Length0, g.Length1);
     forall i: nat, j: nat, c: nat | i < g.Length0 && j < g.Length1 && c < 3 ::
       out[Offset(g.Length1, i, j) + c] == ToByte(Channel(g[i, j], c)))
  }

  /** Distinct pixels have distinct offsets. */
  lemma {:induction false} OffsetInjective(cols: nat, i: nat, j: nat, i': nat, j': nat)
    requires j < cols && j' < cols && Offset(cols, i, j) == Offset(cols, i', j')
    ensures i == i' && j == j'
  {
    RowMajorSplit(cols, i, j);
    RowMajorSplit(cols, i', j');
  }

  /**
   * The unpacking loop: for every row and column, read three bytes at the
   * cursor T into the pixel and advance T by three.
   */
  method Unpack(charImage: array<u8>, g: array2<Pixel>)
    requires charImage.Length == 3 * g.Length0 * g.Length1
    modifies g
    ensures Unpacked(charImage[..], g)
  {
    OffsetsInRange(g.Length0, g.Length1);
    var T := 0;
    for i := 0 to g.Length0
      invariant T == 3 * (i * g.Length1)
      invariant forall i': nat, j': nat | i' < i && j' < g.Length1 ::
        g[i', j'] == PixelAt(charImage[..], g.Length1, i', j')
    {
      for j := 0 to g.Length1
        invariant T == Offset(g.Length1, i, j)
        invariant forall i': nat, j': nat | i' < i && j' < g.Length1 ::
          g[i', j'] == PixelAt(charImage[..], g.Length1, i', j')
        invariant forall j': nat | j' < j :: g[i, j'] == PixelAt(charImage[..], g.Length1, i, j')
      {
        g[i, j] := Pixel(charImage[T], charImage[T + 1], charImage[T + 2]);
        T := T + 3;
      }
    }
  }

  /**
   * The packing loop: for every row and column, write the three channels,
   * each cast to `unsigned char`, at the cursor T and advance T by three.
   */
  method Pack(g: array2<Pixel>, charImage: array<u8>)
    requires charImage.Length == 3 * g.Length0 * g.Length1
    modifies charImage
    ensures Packed(g, charImage[..])
  {
    OffsetsInRange(g.Length0, g.Length1);
    var T := 0;
    for i := 0 to g.Length0
      invariant T == 3 * (i * g.Length1) <= charImage.Length
      invariant forall i': nat, j': nat, c: nat | i' < g.Length0 && j' < g.Length1 && c < 3 && Offset(g.Length1, i', j') < T ::
        charImage[Offset(g.Length1, i', j') + c] == ToByte(Channel(g[i', j'], c))
    {
      for j := 0 to g.Length1
        invariant T == Offset(g.Length1, i, j) <= charImage.Length
        invariant forall i': nat, j': nat, c: nat | i' < g.Length0 && j' < g.Length1 && c < 3 && Offset(g.Length1, i', j') < T ::
          charImage[Offset(g.Length1, i', j') + c] == ToByte(Channel(g[i', j'], c))
      {
        var p := g[i, j];
        charImage[T] := ToByte(p.p1);
        charImage[T + 1] := ToByte(p.p2);
        charImage[T + 2] := ToByte(p.p3);
        T := T + 3;
        forall i': nat, j': nat | i' < g.Length0 && j' < g.Length1 && Offset(g.Length1, i', j') == T - 3
          ensures i' == i && j' == j
        {
          OffsetInjective(g.Length1, i, j, i', j');
        }
      }
      MulLeft(i + 1, g.Length0, g.Length1);
    }
    assert T == charImage.Length;
  }

  /**
   * Packing a grid that was unpacked from `bytes`, with no change in
   * between, reproduces `bytes` exactly.
   */
  lemma {:induction false} PackAfterUnpack(bytes: seq<u8>, g: array2<Pixel>, out: seq<u8>)
    requires Unpacked(bytes, g)
    requires Packed(g, out)
    ensures out == bytes
  {
    forall t: nat | t < |out|
      ensures out[t] == bytes[t]
    {
      ByteOwner(g.Length0, g.Length1, t);
      var i, j, c := t / 3 / g.Length1, t / 3 % g.Length1, t % 3;
      assert out[Offset(g.Length1, i, j) + c] == ToByte(Channel(g[i, j], c));
    }
  }
}
