/** The two image representations: Android's `Bitmap` (packed pixels) and
    OpenCV's `Mat` (interleaved 8-bit channels, row-major, no padding). */
module Images {
  import opened Pixels

  /** An `ARGB_8888` bitmap; `pixels` is what `getPixels` returns, row by row (for
      the array a codec writes, see `Codec.MatToBitmap`). */
  datatype Bitmap = Bitmap(width: int, height: int, pixels: seq<Pixel>) {
    /** Android never creates a bitmap with a dimension below one. */
    predicate Valid() {
      width >= 1 && height >= 1 && |pixels| == width * height
    }
  }

  /** A `CV_8UC<channels>` matrix. */
  datatype Mat = Mat(rows: nat, cols: nat, channels: nat, data: seq<Byte>) {
    predicate Valid() {
      |data| == rows * cols * channels
    }

    predicate Empty() {
      rows == 0 || cols == 0
    }

    /** `rows * cols`: the number of pixels. */
    function Count(): nat { rows * cols }

    /** Channel `c` of the pixel with row-major index `q`. */
    function At(q: nat, c: nat): Byte
      requires Valid() && q < Count() && c < channels
    {
      ChunkInBounds(q, Count(), channels, c);
      data[q * channels + c]
    }

    /** Channel `c` of the pixel in row `i`, column `j`: what `mat.get(i, j)[c]` reads. */
    function Cell(i: nat, j: nat, c: nat): Byte
      requires Valid() && i < rows && j < cols && c < channels
    {
      CellInBounds(i, j, rows, cols);
      At(i * cols + j, c)
    }
  }

  /** Cell `(i, j, c)` of a matrix is element `(i * cols + j) * channels + c` of its buffer. */
  lemma CellIsData(m: Mat, i: nat, j: nat, c: nat)
    requires m.Valid() && i < m.rows && j < m.cols && c < m.channels
    ensures (i * m.cols + j) * m.channels + c < |m.data|
    ensures m.Cell(i, j, c) == m.data[(i * m.cols + j) * m.channels + c]
  {
    CellInBounds(i, j, m.rows, m.cols);
    ChunkInBounds(i * m.cols + j, m.Count(), m.channels, c);
  }

  /** An axis-aligned rectangle `Rect(x, y, width, height)`, as OpenCV and
      `createBitmap` take it. */
  datatype Rect = Rect(x: int, y: int, width: int, height: int)

  /** A valid matrix of the given shape. */
  predicate Shaped(m: Mat, rows: int, cols: int, channels: nat) {
    m.Valid() && m.rows == rows && m.cols == cols && m.channels == channels
  }

  /** Element `c` of chunk `q` of `n` chunks of `size` elements lies inside the buffer. */
  lemma ChunkInBounds(q: nat, n: nat, size: nat, c: nat)
    requires q < n && c < size
    ensures q * size + c < n * size
  {
    assert q * size + size == (q + 1) * size;
    assert (q + 1) * size <= n * size;
  }

  /** Row-major index `i * cols + j` of a cell of a `rows` by `cols` grid lies inside it. */
  lemma CellInBounds(i: nat, j: nat, rows: nat, cols: nat)
    requires i < rows && j < cols
    ensures i * cols + j < rows * cols
  {
    ChunkInBounds(i, rows, cols, j);
  }
}
