/** `resizeBitmap` (aspect-preserving scaling to a named bound) and VisuBee's
    `adaptiveResizeBitmap` (integer pre-downscale of large inputs). */
module Resize {
  import opened Images
  import opened Results
  import opened Sizes
  import opened Foreign

  function Min(a: int, b: int): int { if a <= b then a else b }

  /** The quotient of `a` by `d` rounded down: the largest `q` with `q * d <= a`. */
  lemma FloorDiv(a: int, d: int)
    requires d >= 1
    ensures (a / d) * d <= a < (a / d + 1) * d
  {
  }

  lemma MulMonotonic(x: int, y: int, d: int)
    requires 0 <= d && x <= y
    ensures x * d <= y * d
  {
  }

  /** `a <= k * d` bounds the rounded-down quotient by `k`. */
  lemma DivAtMost(a: int, d: int, k: int)
    requires d >= 1 && a <= k * d
    ensures a / d <= k
  {
    FloorDiv(a, d);
    if a / d > k {
      MulMonotonic(k + 1, a / d, d);
    }
  }

  /** `a < n * d` keeps the rounded-down quotient below `n`. */
  lemma DivBelow(a: int, d: int, n: int)
    requires d >= 1 && a < n * d
    ensures a / d < n
  {
    FloorDiv(a, d);
    if a / d >= n {
      MulMonotonic(n, a / d, d);
    }
  }

  /** `k * d <= a` bounds the rounded-down quotient from below by `k`. */
  lemma DivAtLeast(a: int, d: int, k: int)
    requires d >= 1 && k * d <= a
    ensures k <= a / d
  {
    FloorDiv(a, d);
    if a / d < k {
      MulMonotonic(a / d + 1, k, d);
    }
  }

  /** The side `resizeBitmap` derives from the ratio: `bound * short / long`
      rounded down, where `short <= long`. */
  function ScaledSide(bound: int, short: int, long: int): (q: int)
    requires bound >= 1 && 1 <= short <= long
    ensures q * long <= bound * short < (q + 1) * long
    ensures 0 <= q <= bound
    ensures q == 0 <==> bound * short < long
  {
    var a := bound * short;
    MulMonotonic(short, long, bound);
    assert a <= bound * long;
    QuotientFacts(a, long, bound);
    a / long
  }

  /** A quotient of `0 <= a <= bound * d` by `d`, rounded down. */
  lemma QuotientFacts(a: int, d: int, bound: int)
    requires d >= 1 && 0 <= a <= bound * d
    ensures (a / d) * d <= a < (a / d + 1) * d
    ensures 0 <= a / d <= bound
    ensures a / d == 0 <==> a < d
  {
    var q := a / d;
    assert q * d <= a < (q + 1) * d by { FloorDiv(a, d); }
    assert q <= bound by { DivAtMost(a, d, bound); }
    assert a >= d ==> q >= 1 by {
      if a >= d { DivAtLeast(a, d, 1); }
    }
    assert a < d ==> q == 0 by {
      if a < d { DivBelow(a, d, 1); }
    }
  }

  /** The dimensions `resizeBitmap` asks for. The source compares the `Float` aspect
      ratio `width / height` with 1 and truncates `bound / ratio` or `bound * ratio`;
      on exact rationals that is integer division of `bound * h` by `w` (or of
      `bound * w` by `h`). */
  function ResizeTarget(w: int, h: int, size: ImageSize): (dims: (int, int))
    requires w >= 1 && h >= 1
    // landscape: full width, height the aspect-preserving value rounded down
    ensures w > h ==> dims.0 == Width(size)
    ensures w > h ==> dims.1 * w <= Width(size) * h < (dims.1 + 1) * w
    // portrait or square: full height, width the aspect-preserving value rounded down
    ensures w <= h ==> dims.1 == Height(size)
    ensures w <= h ==> dims.0 * h <= Height(size) * w < (dims.0 + 1) * h
    // neither dimension exceeds its bound
    ensures 0 <= dims.0 <= Width(size) && 0 <= dims.1 <= Height(size)
    // a side rounds down to zero exactly when the image is more than `bound` times longer than it
    ensures w > h ==> (dims.1 == 0 <==> Width(size) * h < w)
    ensures w <= h ==> (dims.0 == 0 <==> Height(size) * w < h)
  {
    SizesArePositiveSquares(size);
    if w > h then (Width(size), ScaledSide(Width(size), h, w))
    else (ScaledSide(Height(size), w, h), Height(size))
  }

  /** `resizeBitmap(bitmap, targetSize)`: `createScaledBitmap` rejects a zero dimension. */
  function ResizeBitmap(p: LawfulPlatform, b: Bitmap, size: ImageSize): (r: Result<Bitmap>)
    requires b.Valid()
    ensures r.Ok? <==> ResizeTarget(b.width, b.height, size).0 >= 1 && ResizeTarget(b.width, b.height, size).1 >= 1
    ensures r.Ok? ==> r.value.Valid()
    ensures r.Ok? ==> (r.value.width, r.value.height) == ResizeTarget(b.width, b.height, size)
    ensures r.Err? ==> r.error == InvalidDimensions(ResizeTarget(b.width, b.height, size).0,
                                                    ResizeTarget(b.width, b.height, size).1)
  {
    var (tw, th) := ResizeTarget(b.width, b.height, size);
    if tw >= 1 && th >= 1 then Ok(Bitmap(tw, th, p.scale(b, tw, th)))
    else Err(InvalidDimensions(tw, th))
  }

  /** Resizing fails exactly when the image is more than `bound` times wider than
      high (or higher than wide): then the short side rounds down to zero. */
  lemma ResizeFailsOnlyOnExtremeAspect(p: LawfulPlatform, b: Bitmap, size: ImageSize)
    requires b.Valid()
    ensures ResizeBitmap(p, b, size).Err? <==>
              if b.width > b.height then Width(size) * b.height < b.width
              else Height(size) * b.width < b.height
  {
  }

  /** One dimension of a resized bitmap equals its bound and the other stays within its own. */
  lemma ResizeFitsBound(p: LawfulPlatform, b: Bitmap, size: ImageSize)
    requires b.Valid()
    requires ResizeBitmap(p, b, size).Ok?
    ensures var r := ResizeBitmap(p, b, size).value;
            && 1 <= r.width <= Width(size) && 1 <= r.height <= Height(size)
            && (r.width == Width(size) || r.height == Height(size))
  {
  }

  /** `maxFactor.coerceAtMost((w / tw).coerceAtMost(h / th))`. */
  function ScaleFactor(w: int, h: int, size: ImageSize, maxFactor: int): (sf: int)
    requires w >= 1 && h >= 1
    ensures sf <= maxFactor
    // the target fits sf times into each side ...
    ensures sf * Width(size) <= w && sf * Height(size) <= h
    // ... and sf is the largest such factor not above maxFactor
    ensures sf == maxFactor || (sf + 1) * Width(size) > w || (sf + 1) * Height(size) > h
  {
    SizesArePositiveSquares(size);
    var tw, th := Width(size), Height(size);
    var qw, qh := w / tw, h / th;
    FloorDiv(w, tw);
    FloorDiv(h, th);
    var f := Min(maxFactor, Min(qw, qh));
    MulMonotonic(f, qw, tw);
    MulMonotonic(f, qh, th);
    assert f == maxFactor || (f + 1) * tw > w || (f + 1) * th > h by {
      if f != maxFactor && f == qw {
        assert (f + 1) * tw > w;
      } else if f != maxFactor {
        assert (f + 1) * th > h;
      }
    }
    f
  }

  /** Dividing a side by a factor that fits the target into it that many times
      leaves at least the target. */
  lemma DownscaledSideKeepsTarget(side: int, target: int, sf: int)
    requires sf >= 1 && target >= 1 && sf * target <= side
    ensures target <= side / sf <= side
  {
    assert target * sf == sf * target;
    DivAtLeast(side, sf, target);
    MulMonotonic(1, sf, side);
    DivAtMost(side, sf, side);
  }

  /** `adaptiveResizeBitmap(bitmap, targetSize, maxFactor)`. */
  function AdaptiveResize(p: LawfulPlatform, b: Bitmap, size: ImageSize, maxFactor: int): (r: Bitmap)
    requires b.Valid()
    ensures r.Valid()
    // no downscale: the very same bitmap
    ensures ScaleFactor(b.width, b.height, size, maxFactor) <= 1 ==> r == b
    // downscale by the integer factor, never below the target size nor above the source
    ensures var sf := ScaleFactor(b.width, b.height, size, maxFactor);
            sf > 1 ==>
              && r.width == b.width / sf && r.height == b.height / sf
              && Width(size) <= r.width <= b.width && Height(size) <= r.height <= b.height
  {
    var sf := ScaleFactor(b.width, b.height, size, maxFactor);
    if sf > 1 then
      var nw, nh := b.width / sf, b.height / sf;
      SizesArePositiveSquares(size);
      DownscaledSideKeepsTarget(b.width, Width(size), sf);
      DownscaledSideKeepsTarget(b.height, Height(size), sf);
      Bitmap(nw, nh, p.scale(b, nw, nh))
    else
      b
  }

  /** The scale factor never exceeds `maxFactor`; at the call site that is 10. */
  lemma ScaleFactorAtMostTen(w: int, h: int, size: ImageSize)
    requires w >= 1 && h >= 1
    ensures 0 <= ScaleFactor(w, h, size, 10) <= 10
  {
    SizesArePositiveSquares(size);
  }
}
