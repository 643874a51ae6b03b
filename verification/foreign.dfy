/** The OpenCV and Android calls whose code is not part of this model. They are
    passed in as function values; `Lawful` is all that is assumed about them:
    the shapes and channel counts of their results. */
module Foreign {
  import opened Pixels
  import opened Images

  datatype Platform = Platform(
    /** `org.opencv.android.Utils.bitmapToMat`: an RGBA matrix of the bitmap's size. */
    bitmapToMat: Bitmap -> Mat,
    /** `org.opencv.android.Utils.matToBitmap`: the pixels written into the target bitmap. */
    matToPixels: Mat -> seq<Pixel>,
    /** `Imgproc.cvtColor(src, dst, COLOR_RGB2HSV)`: hue in [0,179] by the 8-bit convention. */
    rgbToHsv: Mat -> Mat,
    /** `Imgproc.cvtColor(src, dst, COLOR_RGB2RGBA)`. */
    rgbToRgba: Mat -> Mat,
    /** `Imgproc.cvtColor(src, dst, COLOR_RGBA2GRAY)`. */
    rgbaToGray: Mat -> Mat,
    /** `Imgproc.cvtColor(src, dst, COLOR_GRAY2RGBA)`. */
    grayToRgba: Mat -> Mat,
    /** `Imgproc.Canny(src, dst, threshold1, threshold2)`. */
    canny: (Mat, real, real) -> Mat,
    /** `Core.mean(mat).val[0]`: the mean of the first channel. */
    meanHue: Mat -> real,
    /** How `Core.inRange` turns a `Scalar` bound into an 8-bit bound. */
    boundToByte: real -> int,
    /** `Bitmap.createScaledBitmap(src, width, height, true)`: the filtered pixels. */
    scale: (Bitmap, int, int) -> seq<Pixel>,
    /** One pixel handed to `setPixels` of a bitmap from `Bitmap.createBitmap`, as
        `getPixels` reads it back: such a bitmap stores premultiplied colour. */
    readBack: Pixel -> Pixel
  )

  predicate ColourChannels(m: Mat) {
    m.channels == 3 || m.channels == 4
  }

  /** What the model assumes of the foreign calls: each keeps the image's rows and
      columns and yields the channel count its conversion code names; `inRange`
      keeps a bound that already is an 8-bit integer; premultiplied storage keeps
      a pixel's alpha, reads a fully transparent pixel back as `0` and an opaque
      one unchanged. Nothing else is assumed about pixel values. */
  ghost predicate Lawful(p: Platform) {
    && (forall b: Bitmap {:trigger p.bitmapToMat(b)} :: b.Valid() ==> Shaped(p.bitmapToMat(b), b.height, b.width, 4))
    && (forall m: Mat {:trigger p.matToPixels(m)} :: m.Valid() && (m.channels == 1 || ColourChannels(m)) ==>
          |p.matToPixels(m)| == m.Count())
    && (forall m: Mat {:trigger p.rgbToHsv(m)} :: m.Valid() && ColourChannels(m) ==> Shaped(p.rgbToHsv(m), m.rows, m.cols, 3))
    && (forall m: Mat {:trigger p.rgbToRgba(m)} :: m.Valid() && ColourChannels(m) ==> Shaped(p.rgbToRgba(m), m.rows, m.cols, 4))
    && (forall m: Mat {:trigger p.rgbaToGray(m)} :: m.Valid() && ColourChannels(m) ==> Shaped(p.rgbaToGray(m), m.rows, m.cols, 1))
    && (forall m: Mat {:trigger p.grayToRgba(m)} :: m.Valid() && m.channels == 1 ==> Shaped(p.grayToRgba(m), m.rows, m.cols, 4))
    && (forall m: Mat, t1: real, t2: real {:trigger p.canny(m, t1, t2)} :: m.Valid() && m.channels == 1 ==>
          Shaped(p.canny(m, t1, t2), m.rows, m.cols, 1))
    && (forall r: real {:trigger p.boundToByte(r)} :: 0.0 <= r <= 255.0 && r.Floor as real == r ==> p.boundToByte(r) == r.Floor)
    && (forall b: Bitmap, w: int, h: int {:trigger p.scale(b, w, h)} :: b.Valid() && w >= 1 && h >= 1 ==> |p.scale(b, w, h)| == w * h)
    && (forall px: Pixel {:trigger p.readBack(px)} ::
          && Alpha(p.readBack(px)) == Alpha(px)
          && (Alpha(px) == 0 ==> p.readBack(px) == 0)
          && (Alpha(px) == Opaque ==> p.readBack(px) == px))
  }

  /** A platform whose calls behave as `Lawful` says. */
  type LawfulPlatform = p: Platform | Lawful(p) witness Blank()

  /** `n` zero bytes. */
  function Zeros(n: nat): (z: seq<Byte>)
    ensures |z| == n && forall k :: 0 <= k < n ==> z[k] == 0
  {
    seq(n, _ => 0)
  }

  /** An all-zero matrix of the given shape. */
  function BlankMat(rows: nat, cols: nat, channels: nat): (m: Mat)
    ensures Shaped(m, rows, cols, channels)
  {
    Mat(rows, cols, channels, Zeros(rows * cols * channels))
  }

  /** `n` transparent black pixels. */
  function BlankPixels(n: nat): (px: seq<Pixel>)
    ensures |px| == n
  {
    seq(n, _ => 0)
  }

  /** Blank images of the right shapes: shows that `Lawful` can be met. */
  function Blank(): (p: Platform)
    ensures Lawful(p)
  {
    Platform(
      (b: Bitmap) => if b.Valid() then BlankMat(b.height, b.width, 4) else BlankMat(0, 0, 4),
      (m: Mat) => BlankPixels(m.rows * m.cols),
      (m: Mat) => BlankMat(m.rows, m.cols, 3),
      (m: Mat) => BlankMat(m.rows, m.cols, 4),
      (m: Mat) => BlankMat(m.rows, m.cols, 1),
      (m: Mat) => BlankMat(m.rows, m.cols, 4),
      (m: Mat, t1: real, t2: real) => BlankMat(m.rows, m.cols, 1),
      (m: Mat) => 0.0,
      (r: real) => r.Floor,
      (b: Bitmap, w: int, h: int) => if w >= 1 && h >= 1 then BlankPixels(w * h) else [],
      (px: Pixel) => if Alpha(px) == 0 then 0 else px)
  }

  /** What a bitmap from `Bitmap.createBitmap` holds after `setPixels(written, ...)`,
      as `getPixels` returns it: every alpha is kept, fully transparent pixels lose
      their colour, opaque ones are stored exactly. */
  function Stored(p: LawfulPlatform, written: seq<Pixel>): (px: seq<Pixel>)
    ensures |px| == |written|
    ensures forall q :: 0 <= q < |written| ==>
      && Alpha(px[q]) == Alpha(written[q])
      && (Alpha(written[q]) == 0 ==> px[q] == 0)
      && (Alpha(written[q]) == Opaque ==> px[q] == written[q])
  {
    seq(|written|, q requires 0 <= q < |written| => p.readBack(written[q]))
  }
}
