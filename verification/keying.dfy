/** `removeBackground`: key out the pixels whose hue lies near a reference hue by
    zeroing their alpha. The HSV conversion, the mean and the RGBA conversion are
    foreign; the window, the mask test, the region and the alpha loop are modelled. */
module Keying {
  import opened Pixels
  import opened Images
  import opened Results
  import opened Foreign
  import Codec
  import Resize

  /** The top of OpenCV's 8-bit hue scale. */
  const HueCeiling: real := 179.0
  /** The fixed saturation and value gate `[50, 255]`. */
  const GateLow: int := 50
  const GateHigh: int := 255
  /** The hue tolerance of the variants that sample the top-left pixel. */
  const FixedTolerance: int := 30

  datatype HueWindow = HueWindow(lower: real, upper: real)

  /** `(hue - tolerance).coerceAtLeast(0.0)` and `(hue + tolerance).coerceAtMost(179.0)`
      (ExtractionApp: `Math.max(hue - 30, 0)` and `Math.min(hue + 30, 179)`). */
  function Window(hue: real, tolerance: int): (w: HueWindow)
    // the lower bound is the smallest value that is at least 0 and at least hue - tolerance
    ensures w.lower >= 0.0 && w.lower >= hue - tolerance as real
    ensures w.lower == 0.0 || w.lower == hue - tolerance as real
    // the upper bound is the largest value that is at most 179 and at most hue + tolerance
    ensures w.upper <= HueCeiling && w.upper <= hue + tolerance as real
    ensures w.upper == HueCeiling || w.upper == hue + tolerance as real
  {
    var lo := hue - tolerance as real;
    var hi := hue + tolerance as real;
    HueWindow(if lo < 0.0 then 0.0 else lo, if hi > HueCeiling then HueCeiling else hi)
  }

  /** For a hue on the 0..179 scale and a non-negative tolerance the window is a
      non-empty interval inside the scale. */
  lemma WindowInsideScale(hue: real, tolerance: int)
    requires 0.0 <= hue <= HueCeiling && tolerance >= 0
    ensures 0.0 <= Window(hue, tolerance).lower <= Window(hue, tolerance).upper <= HueCeiling
  {
  }

  /** Clamping never changes which hues of the 0..179 scale the window admits: those
      within `tolerance` of the reference hue. */
  lemma WindowMembership(hue: real, tolerance: int, x: real)
    requires 0.0 <= x <= HueCeiling
    ensures (Window(hue, tolerance).lower <= x <= Window(hue, tolerance).upper)
            <==> hue - tolerance as real <= x <= hue + tolerance as real
  {
  }

  /** Whether pixel `q` of an HSV matrix is background for integer hue bounds `lo`, `hi`. */
  predicate Background(hsv: Mat, q: nat, lo: int, hi: int)
    requires Shaped(hsv, hsv.rows, hsv.cols, 3) && q < hsv.Count()
  {
    && lo <= hsv.At(q, 0) as int <= hi
    && GateLow <= hsv.At(q, 1) as int <= GateHigh
    && GateLow <= hsv.At(q, 2) as int <= GateHigh
  }

  /** `Core.inRange(hsv, Scalar(lo, 50, 50), Scalar(hi, 255, 255), mask)` once the
      hue bounds have been converted to the matrix's 8-bit depth. */
  function InRange(hsv: Mat, lo: int, hi: int): (mask: Mat)
    requires Shaped(hsv, hsv.rows, hsv.cols, 3)
    ensures Shaped(mask, hsv.rows, hsv.cols, 1)
    ensures forall q :: 0 <= q < hsv.Count() ==>
              && (mask.At(q, 0) == 0 || mask.At(q, 0) == 255)
              && (mask.At(q, 0) == 255 <==> Background(hsv, q, lo, hi))
  {
    Mat(hsv.rows, hsv.cols, 1,
        seq(hsv.Count(), q requires 0 <= q < hsv.Count() => if Background(hsv, q, lo, hi) then 255 else 0))
  }

  /** Byte `k` of the RGBA buffer after the alpha loop. */
  function ClearedByte(rgba: Mat, mask: Mat, k: nat): Byte
    requires Shaped(rgba, rgba.rows, rgba.cols, 4) && Shaped(mask, rgba.rows, rgba.cols, 1)
    requires k < |rgba.data|
  {
    if k % 4 == 3 && mask.data[k / 4] == 255 then 0 else rgba.data[k]
  }

  /** The RGBA matrix once every pixel whose mask entry is 255 has had its alpha set to 0. */
  function ClearMaskedAlpha(rgba: Mat, mask: Mat): (r: Mat)
    requires Shaped(rgba, rgba.rows, rgba.cols, 4) && Shaped(mask, rgba.rows, rgba.cols, 1)
    ensures Shaped(r, rgba.rows, rgba.cols, 4)
    // masked pixels become transparent; nothing else changes
    ensures forall q, c :: 0 <= q < rgba.Count() && 0 <= c < 4 ==>
              r.At(q, c) == if c == 3 && mask.At(q, 0) == 255 then 0 else rgba.At(q, c)
  {
    var r := Mat(rgba.rows, rgba.cols, 4,
                 seq(|rgba.data|, k requires 0 <= k < |rgba.data| => ClearedByte(rgba, mask, k)));
    assert forall q, c :: 0 <= q < rgba.Count() && 0 <= c < 4 ==>
             r.At(q, c) == if c == 3 && mask.At(q, 0) == 255 then 0 else rgba.At(q, c)
    by {
      forall q, c | 0 <= q < rgba.Count() && 0 <= c < 4
        ensures r.At(q, c) == if c == 3 && mask.At(q, 0) == 255 then 0 else rgba.At(q, c)
      {
        ChunkInBounds(q, rgba.Count(), 4, c);
        assert (q * 4 + c) / 4 == q && (q * 4 + c) % 4 == c;
        assert r.At(q, c) == ClearedByte(rgba, mask, q * 4 + c);
      }
    }
    r
  }

  /** The source's nested loop over rows `i` and columns `j`: where `mask.get(i, j)[0]`
      is 255, only element 3 of `resultMat.get(i, j)` is rewritten, to 0. */
  method ApplyTransparency(rgba: Mat, mask: Mat) returns (result: Mat)
    requires Shaped(rgba, rgba.rows, rgba.cols, 4) && Shaped(mask, rgba.rows, rgba.cols, 1)
    ensures result == ClearMaskedAlpha(rgba, mask)
  {
    var data := rgba.data;
    var i := 0;
    var p := 0;  // row-major index of pixel (i, j)
    while i < mask.rows
      invariant 0 <= i <= mask.rows
      invariant p == i * mask.cols
      invariant |data| == |rgba.data|
      invariant forall k :: 0 <= k < |data| ==>
                  data[k] == if k / 4 < p then ClearedByte(rgba, mask, k) else rgba.data[k]
    {
      var j := 0;
      while j < mask.cols
        invariant 0 <= j <= mask.cols
        invariant p == i * mask.cols + j
        invariant |data| == |rgba.data|
        invariant forall k :: 0 <= k < |data| ==>
                    data[k] == if k / 4 < p then ClearedByte(rgba, mask, k) else rgba.data[k]
      {
        CellInBounds(i, j, mask.rows, mask.cols);
        ChunkInBounds(p, mask.Count(), 4, 3);
        if mask.data[p] == 255 {
          data := data[4 * p + 3 := 0];
        }
        j := j + 1;
        p := p + 1;
      }
      i := i + 1;
    }
    result := Mat(rgba.rows, rgba.cols, 4, data);
    assert forall k :: 0 <= k < |data| ==> k / 4 < p;
  }

  /** `Rect(0, 0, (width * 0.1).toInt(), (height * 0.1).toInt())`. The `Double`
      product of an integer with 0.1 truncates to the integer tenth. */
  function TopLeftRect(cols: nat, rows: nat): (r: Rect)
    // anchored at the origin and inside the image
    ensures r.x == 0 && r.y == 0
    ensures 0 <= r.width <= cols && 0 <= r.height <= rows
    // a tenth of each side, rounded down
    ensures 10 * r.width <= cols < 10 * (r.width + 1)
    ensures 10 * r.height <= rows < 10 * (r.height + 1)
  {
    Rect(0, 0, cols / 10, rows / 10)
  }

  /** The row-major index, in the parent, of the pixel that element `k` of a
      `w`-column corner comes from: row `q / w`, column `q % w`, `q = k / channels`. */
  function CornerSource(m: Mat, w: nat, k: nat): int
    requires m.channels >= 1 && w >= 1
  {
    var q := k / m.channels;
    (q / w) * m.cols + q % w
  }

  /** Pixel `q` of an `h`-by-`w` corner, counted row-major, lies inside a
      `rows`-by-`cols` parent. */
  lemma CornerBound(q: nat, w: nat, h: nat, rows: nat, cols: nat)
    requires 1 <= w <= cols && h <= rows && q < h * w
    ensures 0 <= (q / w) * cols + q % w < rows * cols
  {
    Resize.DivBelow(q, w, h);
    CellInBounds(q / w, q % w, rows, cols);
  }

  /** Element `k` of the `h`-by-`w` top-left corner lies in the parent matrix. */
  lemma CornerIndex(m: Mat, w: nat, h: nat, k: nat)
    requires m.Valid() && m.channels >= 1 && 1 <= w <= m.cols && h <= m.rows
    requires k < h * w * m.channels
    ensures 0 <= CornerSource(m, w, k) < m.Count()
  {
    Resize.DivBelow(k, m.channels, h * w);
    CornerBound(k / m.channels, w, h, m.rows, m.cols);
  }

  /** Element `k` of the top-left `h`-by-`w` sub-matrix. */
  function CornerByte(m: Mat, w: nat, h: nat, k: nat): Byte
    requires m.Valid() && m.channels >= 1 && 1 <= w <= m.cols && h <= m.rows
    requires k < h * w * m.channels
  {
    CornerIndex(m, w, h, k);
    m.At(CornerSource(m, w, k), k % m.channels)
  }

  /** `Mat(mat, Rect(0, 0, w, h))`: the top-left `h`-by-`w` sub-matrix. */
  function TopLeftCorner(m: Mat, w: nat, h: nat): (s: Mat)
    requires m.Valid() && m.channels >= 1 && w <= m.cols && h <= m.rows
    ensures Shaped(s, h, w, m.channels)
    // cell (i, j) of the corner is cell (i, j) of the parent
    ensures forall i, j, c :: 0 <= i < h && 0 <= j < w && 0 <= c < m.channels ==>
              s.Cell(i, j, c) == m.Cell(i, j, c)
  {
    if w == 0 then Mat(h, 0, m.channels, [])
    else
      var n := h * w * m.channels;
      var s := Mat(h, w, m.channels, seq(n, k requires 0 <= k < n => CornerByte(m, w, h, k)));
      CornerCells(m, w, h, s);
      s
  }

  lemma NatProduct(a: nat, b: nat)
    ensures 0 <= a * b
  {
  }

  /** Euclidean division of `a * d + r` by `d`, for `0 <= r < d`, gives back `a` and `r`. */
  lemma QuotientOf(a: nat, d: nat, r: nat)
    requires r < d
    ensures (a * d + r) / d == a && (a * d + r) % d == r
  {
    var n := a * d + r;
    var q := n / d;
    assert q * d + n % d == n;
    assert (q - a) * d == r - n % d;
    if q > a {
      Resize.MulMonotonic(1, q - a, d);
    } else if q < a {
      Resize.MulMonotonic(1, a - q, d);
    }
  }

  /** Element `(i * w + j) * channels + c` of the corner is channel `c` of the parent's
      cell `(i, j)`. */
  lemma CornerSourceOfCell(m: Mat, w: nat, h: nat, i: nat, j: nat, c: nat)
    requires m.Valid() && m.channels >= 1 && 1 <= w <= m.cols && h <= m.rows
    requires i < h && j < w && c < m.channels
    ensures 0 <= (i * w + j) * m.channels + c < h * w * m.channels
    ensures CornerSource(m, w, (i * w + j) * m.channels + c) == i * m.cols + j
    ensures ((i * w + j) * m.channels + c) % m.channels == c
  {
    var q := i * w + j;
    NatProduct(q, m.channels);
    CellInBounds(i, j, h, w);
    ChunkInBounds(q, h * w, m.channels, c);
    QuotientOf(q, m.channels, c);
    QuotientOf(i, w, j);
  }

  lemma CornerCells(m: Mat, w: nat, h: nat, s: Mat)
    requires m.Valid() && m.channels >= 1 && 1 <= w <= m.cols && h <= m.rows
    requires s == Mat(h, w, m.channels,
                      seq(h * w * m.channels, k requires 0 <= k < h * w * m.channels => CornerByte(m, w, h, k)))
    ensures forall i, j, c :: 0 <= i < h && 0 <= j < w && 0 <= c < m.channels ==>
              s.Cell(i, j, c) == m.Cell(i, j, c)
  {
    assert Shaped(s, h, w, m.channels);
    forall i, j, c | 0 <= i < h && 0 <= j < w && 0 <= c < m.channels
      ensures s.Cell(i, j, c) == m.Cell(i, j, c)
    {
      CornerCell(m, w, h, s, i, j, c);
    }
  }

  lemma CornerCell(m: Mat, w: nat, h: nat, s: Mat, i: nat, j: nat, c: nat)
    requires m.Valid() && m.channels >= 1 && 1 <= w <= m.cols && h <= m.rows
    requires Shaped(s, h, w, m.channels)
    requires forall k :: 0 <= k < |s.data| ==> s.data[k] == CornerByte(m, w, h, k)
    requires i < h && j < w && c < m.channels
    ensures s.Cell(i, j, c) == m.Cell(i, j, c)
  {
    var k := (i * w + j) * m.channels + c;
    assert k < |s.data| && s.Cell(i, j, c) == s.data[k] by { CellIsData(s, i, j, c); }
    assert s.data[k] == m.Cell(i, j, c) by {
      CornerByteOfCell(m, w, h, i, j, c);
      assert s.data[k] == CornerByte(m, w, h, k);
    }
  }

  /** The corner byte at cell `(i, j, c)`'s position is the parent's cell `(i, j, c)`. */
  lemma CornerByteOfCell(m: Mat, w: nat, h: nat, i: nat, j: nat, c: nat)
    requires m.Valid() && m.channels >= 1 && 1 <= w <= m.cols && h <= m.rows
    requires i < h && j < w && c < m.channels
    ensures (i * w + j) * m.channels + c < h * w * m.channels
    ensures CornerByte(m, w, h, (i * w + j) * m.channels + c) == m.Cell(i, j, c)
  {
    var k := (i * w + j) * m.channels + c;
    var src := i * m.cols + j;
    assert 0 <= k < h * w * m.channels by { CornerSourceOfCell(m, w, h, i, j, c); }
    assert CornerSource(m, w, k) == src && k % m.channels == c by {
      CornerSourceOfCell(m, w, h, i, j, c);
    }
    assert CornerByte(m, w, h, k) == m.At(src, c) by { CornerByteIs(m, w, h, k); }
    assert m.At(src, c) == m.Cell(i, j, c);
  }

  lemma CornerByteIs(m: Mat, w: nat, h: nat, k: nat)
    requires m.Valid() && m.channels >= 1 && 1 <= w <= m.cols && h <= m.rows
    requires k < h * w * m.channels
    ensures 0 <= CornerSource(m, w, k) < m.Count()
    ensures CornerByte(m, w, h, k) == m.At(CornerSource(m, w, k), k % m.channels)
  {
    CornerIndex(m, w, h, k);
  }

  /** `Mat(mat, rect)` for the `TopLeftRect` of `m`: its top-left tenth, which is
      empty when a side is shorter than ten. */
  function TopLeftTenth(m: Mat): (roi: Mat)
    requires m.Valid() && m.channels >= 1
    ensures Shaped(roi, m.rows / 10, m.cols / 10, m.channels)
    ensures roi.Empty() <==> m.rows < 10 || m.cols < 10
    ensures roi == TopLeftCorner(m, TopLeftRect(m.cols, m.rows).width, TopLeftRect(m.cols, m.rows).height)
    // it holds the parent's top-left cells
    ensures forall i, j, c :: 0 <= i < roi.rows && 0 <= j < roi.cols && 0 <= c < m.channels ==>
              roi.Cell(i, j, c) == m.Cell(i, j, c)
  {
    var rect := TopLeftRect(m.cols, m.rows);
    TopLeftCorner(m, rect.width, rect.height)
  }

  /** Where the reference hue comes from. */
  datatype HueSource =
      /** `hsvMat.get(0, 0)[0]`: the hue of the first pixel. */
    | TopLeftPixel
      /** `getDominantColorFromTopLeft`: the mean hue of the top-left tenth. */
    | TopLeftRegion
      /** `getDominantColor(referenceBitmap)`: the mean hue of a separate image. */
    | ReferenceImage(image: Bitmap)

  predicate Usable(source: HueSource) {
    source.ReferenceImage? ==> source.image.Valid()
  }

  /** The hue of the first pixel of an HSV matrix, as the `Double` `get` returns. */
  function FirstHue(hsv: Mat): real
    requires Shaped(hsv, hsv.rows, hsv.cols, 3) && hsv.rows >= 1 && hsv.cols >= 1
  {
    hsv.Cell(0, 0, 0) as int as real
  }

  /** `getDominantColorFromTopLeft(image)`: the mean hue of the top-left tenth of
      the image. An image narrower or lower than ten pixels gives an empty region,
      which `cvtColor` rejects. */
  function RegionHue(p: LawfulPlatform, image: Bitmap): (r: Result<real>)
    requires image.Valid()
    ensures r.Err? <==> image.width < 10 || image.height < 10
    ensures r.Err? ==> r.error == EmptyMatrix
    ensures r.Ok? ==> r.value == p.meanHue(p.rgbToHsv(TopLeftTenth(p.bitmapToMat(image))))
  {
    var roi := TopLeftTenth(p.bitmapToMat(image));
    if roi.Empty() then Err(EmptyMatrix) else Ok(p.meanHue(p.rgbToHsv(roi)))
  }

  /** `getDominantColor(image)`: the mean hue of the whole reference image. */
  function ImageHue(p: LawfulPlatform, image: Bitmap): real
    requires image.Valid()
  {
    p.meanHue(p.rgbToHsv(p.bitmapToMat(image)))
  }

  /** The reference hue each strategy yields for an input whose HSV matrix is `hsv`. */
  function ReferenceHue(p: LawfulPlatform, input: Bitmap, hsv: Mat, source: HueSource): (r: Result<real>)
    requires input.Valid() && Usable(source)
    requires Shaped(hsv, input.height, input.width, 3)
    ensures source.TopLeftPixel? ==> r == Ok(FirstHue(hsv))
    ensures source.ReferenceImage? ==> r == Ok(ImageHue(p, source.image))
    ensures source.TopLeftRegion? ==> r == RegionHue(p, input)
    ensures r.Err? <==> source.TopLeftRegion? && (input.width < 10 || input.height < 10)
  {
    match source
    case TopLeftPixel => Ok(FirstHue(hsv))
    case ReferenceImage(image) => Ok(ImageHue(p, image))
    case TopLeftRegion => RegionHue(p, input)
  }

  /** Which bitmap/matrix conversion a variant's `removeBackground` calls. */
  datatype Conversion =
      /** The hand-written `bitmapToMat` / `matToBitmap` (KotlinTestApp, ExtractionKotlinApp). */
    | HandWritten
      /** `org.opencv.android.Utils` (VisuBee, ExtractionApp). */
    | OpenCvUtils

  function ToMat(p: LawfulPlatform, conversion: Conversion, b: Bitmap): (m: Mat)
    requires b.Valid()
    ensures Shaped(m, b.height, b.width, 4)
  {
    match conversion
    case HandWritten => Codec.BitmapToMat(b)
    case OpenCvUtils => p.bitmapToMat(b)
  }

  /** The pixels of the bitmap a variant's `matToBitmap` returns; a 4-channel matrix
      never fails. The hand-written codec hands its packed array to `setPixels` of a
      fresh bitmap, which stores it premultiplied. */
  function ToPixels(p: LawfulPlatform, conversion: Conversion, m: Mat): (px: seq<Pixel>)
    requires Shaped(m, m.rows, m.cols, 4)
    ensures |px| == m.Count()
  {
    match conversion
    case HandWritten => Stored(p, Codec.MatToBitmap(m).value.pixels)
    case OpenCvUtils => p.matToPixels(m)
  }

  /** The mask of `hsv` for hue bounds `lo`, `hi` applied to `rgba`: alpha cleared on
      exactly the background pixels, every other byte kept. */
  function Key(hsv: Mat, rgba: Mat, lo: int, hi: int): (keyed: Mat)
    requires Shaped(hsv, hsv.rows, hsv.cols, 3) && Shaped(rgba, hsv.rows, hsv.cols, 4)
    ensures Shaped(keyed, hsv.rows, hsv.cols, 4)
    ensures forall q, c :: 0 <= q < hsv.Count() && 0 <= c < 4 ==>
              keyed.At(q, c) == if c == 3 && Background(hsv, q, lo, hi) then 0 else rgba.At(q, c)
  {
    ClearMaskedAlpha(rgba, InRange(hsv, lo, hi))
  }

  /** `cvtColor(srcMat, hsvMat, COLOR_RGB2HSV)` of the converted input. */
  function InputHsv(p: LawfulPlatform, conversion: Conversion, input: Bitmap): (hsv: Mat)
    requires input.Valid()
    ensures Shaped(hsv, input.height, input.width, 3)
  {
    p.rgbToHsv(ToMat(p, conversion, input))
  }

  /** `cvtColor(srcMat, resultMat, COLOR_RGB2RGBA)` of the converted input. */
  function InputRgba(p: LawfulPlatform, conversion: Conversion, input: Bitmap): (rgba: Mat)
    requires input.Valid()
    ensures Shaped(rgba, input.height, input.width, 4)
  {
    p.rgbToRgba(ToMat(p, conversion, input))
  }

  /** The integer hue bounds `inRange` receives: the window around the reference
      hue, each end converted by the `Scalar` to the matrix's 8-bit depth. */
  function HueBounds(p: LawfulPlatform, conversion: Conversion, input: Bitmap, source: HueSource, tolerance: int)
    : (r: Result<(int, int)>)
    requires input.Valid() && Usable(source)
    ensures r.Err? <==> source.TopLeftRegion? && (input.width < 10 || input.height < 10)
    ensures r.Err? ==> r.error == EmptyMatrix
    ensures r.Ok? ==>
              var w := Window(ReferenceHue(p, input, InputHsv(p, conversion, input), source).value, tolerance);
              r.value == (p.boundToByte(w.lower), p.boundToByte(w.upper))
  {
    var hue :- ReferenceHue(p, input, InputHsv(p, conversion, input), source);
    var w := Window(hue, tolerance);
    Ok((p.boundToByte(w.lower), p.boundToByte(w.upper)))
  }

  /** The RGBA matrix of the input with the background's alpha cleared, before it is
      turned back into a bitmap. */
  function KeyedMat(p: LawfulPlatform, conversion: Conversion, input: Bitmap, source: HueSource, tolerance: int)
    : (r: Result<Mat>)
    requires input.Valid() && Usable(source)
    ensures r.Ok? ==> Shaped(r.value, input.height, input.width, 4)
    ensures r.Err? <==> source.TopLeftRegion? && (input.width < 10 || input.height < 10)
    ensures r.Err? ==> r.error == EmptyMatrix
    // alpha is cleared on exactly the background pixels; every other byte is the RGBA conversion's
    ensures r.Ok? ==>
              var (lo, hi) := HueBounds(p, conversion, input, source, tolerance).value;
              forall q, c :: 0 <= q < r.value.Count() && 0 <= c < 4 ==>
                r.value.At(q, c)
                == if c == 3 && Background(InputHsv(p, conversion, input), q, lo, hi) then 0
                   else InputRgba(p, conversion, input).At(q, c)
  {
    var bounds :- HueBounds(p, conversion, input, source, tolerance);
    Ok(Key(InputHsv(p, conversion, input), InputRgba(p, conversion, input), bounds.0, bounds.1))
  }

  /** `removeBackground`, all variants: a bitmap of the input's own size. */
  function RemoveBackground(p: LawfulPlatform, conversion: Conversion, input: Bitmap, source: HueSource, tolerance: int)
    : (r: Result<Bitmap>)
    requires input.Valid() && Usable(source)
    ensures r.Ok? ==> r.value.Valid() && r.value.width == input.width && r.value.height == input.height
    ensures r.Err? <==> source.TopLeftRegion? && (input.width < 10 || input.height < 10)
    ensures r.Err? ==> r.error == EmptyMatrix
    // the output pixels are the variant's conversion of the keyed matrix
    ensures r.Ok? ==> KeyedMat(p, conversion, input, source, tolerance).Ok?
                      && r.value.pixels == ToPixels(p, conversion, KeyedMat(p, conversion, input, source, tolerance).value)
  {
    var keyed :- KeyedMat(p, conversion, input, source, tolerance);
    Ok(Bitmap(input.width, input.height, ToPixels(p, conversion, keyed)))
  }

  /** VisuBee: the reference image when there is one, the top-left region otherwise. */
  function VisuBeeRemoveBackground(p: LawfulPlatform, input: Bitmap, reference: Option<Bitmap>, tolerance: int)
    : (r: Result<Bitmap>)
    requires input.Valid() && (reference.Some? ==> reference.value.Valid())
    ensures r.Ok? ==> r.value.Valid() && r.value.width == input.width && r.value.height == input.height
    ensures r.Err? <==> reference.None? && (input.width < 10 || input.height < 10)
    ensures r.Err? ==> r.error == EmptyMatrix
    // `Utils.matToBitmap` of the keyed matrix, keyed by the reference image's hue ...
    ensures r.Ok? && reference.Some? ==>
              r.value.pixels == p.matToPixels(KeyedMat(p, OpenCvUtils, input, ReferenceImage(reference.value), tolerance).value)
    // ... or by the top-left region's
    ensures r.Ok? && reference.None? ==>
              r.value.pixels == p.matToPixels(KeyedMat(p, OpenCvUtils, input, TopLeftRegion, tolerance).value)
  {
    var source := if reference.Some? then ReferenceImage(reference.value) else TopLeftRegion;
    RemoveBackground(p, OpenCvUtils, input, source, tolerance)
  }

  /** KotlinTestApp, ExtractionKotlinApp and ExtractionApp: the first pixel's hue, ±30. */
  function FixedRemoveBackground(p: LawfulPlatform, conversion: Conversion, input: Bitmap): (r: Bitmap)
    requires input.Valid()
    ensures r.Valid() && r.width == input.width && r.height == input.height
    // the conversion of the matrix keyed by the first pixel's hue
    ensures KeyedMat(p, conversion, input, TopLeftPixel, FixedTolerance).Ok?
            && r.pixels == ToPixels(p, conversion, KeyedMat(p, conversion, input, TopLeftPixel, FixedTolerance).value)
  {
    RemoveBackground(p, conversion, input, TopLeftPixel, FixedTolerance).value
  }

  /** An integral hue and tolerance give integral bounds, which reach the mask unchanged:
      `max(hue - tolerance, 0)` and `min(hue + tolerance, 179)`. */
  lemma IntegralWindowBounds(p: LawfulPlatform, hue: int, tolerance: int)
    requires 0 <= hue <= 255 && tolerance >= 0
    ensures p.boundToByte(Window(hue as real, tolerance).lower)
            == if hue - tolerance < 0 then 0 else hue - tolerance
    ensures p.boundToByte(Window(hue as real, tolerance).upper)
            == if hue + tolerance > 179 then 179 else hue + tolerance
  {
    var w := Window(hue as real, tolerance);
    assert w.lower == (if hue - tolerance < 0 then 0 else hue - tolerance) as real;
    assert w.upper == (if hue + tolerance > 179 then 179 else hue + tolerance) as real;
  }

  /** The hue bounds of the fixed variants: the first pixel's hue, ±30, clamped to 0..179. */
  lemma FirstPixelBounds(p: LawfulPlatform, conversion: Conversion, input: Bitmap)
    requires input.Valid()
    ensures
      var h0 := InputHsv(p, conversion, input).Cell(0, 0, 0) as int;
      HueBounds(p, conversion, input, TopLeftPixel, FixedTolerance)
      == Ok((if h0 - 30 < 0 then 0 else h0 - 30, if h0 + 30 > 179 then 179 else h0 + 30))
  {
    var hsv := InputHsv(p, conversion, input);
    var h0 := hsv.Cell(0, 0, 0) as int;
    assert ReferenceHue(p, input, hsv, TopLeftPixel) == Ok(h0 as real);
    var w := Window(h0 as real, FixedTolerance);
    assert HueBounds(p, conversion, input, TopLeftPixel, FixedTolerance)
           == Ok((p.boundToByte(w.lower), p.boundToByte(w.upper)));
    IntegralWindowBounds(p, h0, FixedTolerance);
  }

  /** With those bounds, a pixel is background exactly when its hue is within 30 of
      `h0` and at most 179, and its saturation and value are at least 50. */
  lemma NearHueBackground(hsv: Mat, q: nat, h0: int)
    requires Shaped(hsv, hsv.rows, hsv.cols, 3) && q < hsv.Count()
    ensures Background(hsv, q, if h0 - 30 < 0 then 0 else h0 - 30, if h0 + 30 > 179 then 179 else h0 + 30)
            <==> (&& h0 - 30 <= hsv.At(q, 0) as int <= h0 + 30
                  && hsv.At(q, 0) as int <= 179
                  && 50 <= hsv.At(q, 1) as int
                  && 50 <= hsv.At(q, 2) as int)
  {
  }

  /** The fixed variants key a pixel out exactly when its hue is within 30 of the
      first pixel's hue and on the 0..179 scale, and its saturation and value are
      at least 50. */
  lemma FirstPixelKeying(p: LawfulPlatform, conversion: Conversion, input: Bitmap)
    requires input.Valid()
    ensures
      var hsv := InputHsv(p, conversion, input);
      var h0 := hsv.Cell(0, 0, 0) as int;
      var keyed := KeyedMat(p, conversion, input, TopLeftPixel, FixedTolerance).value;
      forall q :: 0 <= q < hsv.Count() ==>
        keyed.At(q, 3) == if && h0 - 30 <= hsv.At(q, 0) as int <= h0 + 30
                             && hsv.At(q, 0) as int <= 179
                             && 50 <= hsv.At(q, 1) as int
                             && 50 <= hsv.At(q, 2) as int
                          then 0 else InputRgba(p, conversion, input).At(q, 3)
  {
    var hsv := InputHsv(p, conversion, input);
    FirstPixelBounds(p, conversion, input);
    forall q | 0 <= q < hsv.Count() {
      NearHueBackground(hsv, q, hsv.Cell(0, 0, 0) as int);
    }
  }

  /** With the hand-written codec the output bitmap carries the keyed matrix's
      alpha: a keyed-out pixel reads back as `0`, and a pixel that stays opaque
      packs the keyed matrix's colour. */
  lemma HandWrittenOutput(p: LawfulPlatform, input: Bitmap, source: HueSource, tolerance: int)
    requires input.Valid() && Usable(source)
    requires RemoveBackground(p, HandWritten, input, source, tolerance).Ok?
    ensures
      var out := RemoveBackground(p, HandWritten, input, source, tolerance).value;
      var keyed := KeyedMat(p, HandWritten, input, source, tolerance).value;
      forall q :: 0 <= q < |out.pixels| ==>
        && Alpha(out.pixels[q]) == keyed.At(q, 3)
        && (keyed.At(q, 3) == 0 ==> out.pixels[q] == 0)
        && (keyed.At(q, 3) == Opaque ==>
              && Red(out.pixels[q]) == keyed.At(q, 0) && Green(out.pixels[q]) == keyed.At(q, 1)
              && Blue(out.pixels[q]) == keyed.At(q, 2))
  {
    var keyed := KeyedMat(p, HandWritten, input, source, tolerance).value;
    assert RemoveBackground(p, HandWritten, input, source, tolerance).value.pixels
           == Stored(p, Codec.MatToBitmap(keyed).value.pixels);
    Codec.MatToBitmapRgba(keyed);
  }

  /** KotlinTestApp and ExtractionKotlinApp: in the output bitmap a pixel is
      transparent black exactly when it is near the first pixel's hue and saturated
      and bright enough; otherwise it keeps the RGBA conversion's alpha, and where
      that alpha is opaque, the RGBA conversion's colour. */
  lemma HandWrittenFixedOutput(p: LawfulPlatform, input: Bitmap)
    requires input.Valid()
    ensures
      var out := FixedRemoveBackground(p, HandWritten, input);
      var hsv := InputHsv(p, HandWritten, input);
      var rgba := InputRgba(p, HandWritten, input);
      var h0 := hsv.Cell(0, 0, 0) as int;
      forall q :: 0 <= q < |out.pixels| ==>
        var near := && h0 - 30 <= hsv.At(q, 0) as int <= h0 + 30
                    && hsv.At(q, 0) as int <= 179
                    && 50 <= hsv.At(q, 1) as int
                    && 50 <= hsv.At(q, 2) as int;
        && Alpha(out.pixels[q]) == (if near then 0 else rgba.At(q, 3))
        && (near ==> out.pixels[q] == 0)
        && (!near && rgba.At(q, 3) == Opaque ==>
              && Red(out.pixels[q]) == rgba.At(q, 0) && Green(out.pixels[q]) == rgba.At(q, 1)
              && Blue(out.pixels[q]) == rgba.At(q, 2))
  {
    HandWrittenOutput(p, input, TopLeftPixel, FixedTolerance);
    FirstPixelKeying(p, HandWritten, input);
  }
}
