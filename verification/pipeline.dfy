/** `processImage` of each application: an edge image and a transparent image from
    one input bitmap. Edge detection itself (`Canny`) is foreign; what is modelled is
    which image each stage consumes, the conversions between them and the sizes of
    the two results. */
module Pipeline {
  import opened Images
  import opened Results
  import opened Sizes
  import opened Foreign
  import Codec
  import Resize
  import Keying

  /** `Pair(null, null)` when no image is selected; otherwise both results. */
  datatype Outcome = NoInput | Processed(edge: Bitmap, transparent: Bitmap)

  /** Whether every image an outcome carries is a valid bitmap. */
  predicate ValidOutcome(o: Outcome) {
    o.Processed? ==> o.edge.Valid() && o.transparent.Valid()
  }

  /** The grey Canny edge matrix of an RGBA matrix. */
  function EdgeMat(p: LawfulPlatform, rgba: Mat, t1: real, t2: real): (edges: Mat)
    requires Shaped(rgba, rgba.rows, rgba.cols, 4)
    ensures Shaped(edges, rgba.rows, rgba.cols, 1)
  {
    p.canny(p.rgbaToGray(rgba), t1, t2)
  }

  /** The edge image of the Kotlin variants: hand-written `bitmapToMat`, grey, Canny,
      back to RGBA, hand-written `matToBitmap`. ExtractionKotlinApp converts back to
      RGBA only `if (imgMat.channels() == 1)`; the others always do. The packed
      array goes through `setPixels` of a fresh, premultiplied bitmap. */
  function KotlinEdge(p: LawfulPlatform, source: Bitmap, t1: real, t2: real, guarded: bool): (edge: Bitmap)
    requires source.Valid()
    ensures edge.Valid() && edge.width == source.width && edge.height == source.height
  {
    var edges := EdgeMat(p, Codec.BitmapToMat(source), t1, t2);
    var rgba := if !guarded || edges.channels == 1 then p.grayToRgba(edges) else edges;
    Codec.MatToBitmapRgba(rgba);
    Bitmap(source.width, source.height, Stored(p, Codec.MatToBitmap(rgba).value.pixels))
  }

  /** Canny always yields one channel, so ExtractionKotlinApp's guard always holds
      and its edge image is the one the unguarded variants compute. */
  lemma GuardAlwaysTaken(p: LawfulPlatform, source: Bitmap, t1: real, t2: real)
    requires source.Valid()
    ensures KotlinEdge(p, source, t1, t2, true) == KotlinEdge(p, source, t1, t2, false)
  {
  }

  /** VisuBee's transparent stage: key the downscaled image (the `if`/`else` on the
      background bitmap passes the same arguments either way), then resize it. */
  function VisuBeeTransparent(p: LawfulPlatform, resized: Bitmap, background: Option<Bitmap>,
                              tolerance: int, size: ImageSize)
    : (r: Result<Bitmap>)
    requires resized.Valid()
    requires background.Some? ==> background.value.Valid()
    ensures r.Ok? ==> r.value.Valid()
    ensures r.Ok? ==> (r.value.width, r.value.height) == Resize.ResizeTarget(resized.width, resized.height, size)
    ensures r.Err? ==>
              || (background.None? && (resized.width < 10 || resized.height < 10) && r.error == EmptyMatrix)
              || r.error.InvalidDimensions?
    // it fails exactly when the top-left region is empty or the resize has a zero side
    ensures var target := Resize.ResizeTarget(resized.width, resized.height, size);
            r.Err? <==> (background.None? && (resized.width < 10 || resized.height < 10))
                        || target.0 < 1 || target.1 < 1
    // the keyed downscaled image, brought to the selected size; a keying error passes through
    ensures var keyed := Keying.VisuBeeRemoveBackground(p, resized, background, tolerance);
            && (keyed.Err? ==> r == Err(keyed.error))
            && (keyed.Ok? ==> r == Resize.ResizeBitmap(p, keyed.value, size))
  {
    var transparent :-
      if background.Some? then Keying.VisuBeeRemoveBackground(p, resized, background, tolerance)
      else Keying.VisuBeeRemoveBackground(p, resized, None, tolerance);
    Resize.ResizeBitmap(p, transparent, size)
  }

  /** VisuBee's `processImage`. */
  function VisuBeeProcess(p: LawfulPlatform, input: Option<Bitmap>, background: Option<Bitmap>,
                          t1: real, t2: real, tolerance: int, brightness: int, size: ImageSize)
    : (r: Result<Outcome>)
    requires input.Some? ==> input.value.Valid()
    requires background.Some? ==> background.value.Valid()
    ensures input.None? ==> r == Ok(NoInput)
    ensures r.Ok? ==> ValidOutcome(r.value)
    ensures input.Some? && r.Err? ==>
              var resized := Resize.AdaptiveResize(p, input.value, size, 10);
              || (background.None? && (resized.width < 10 || resized.height < 10) && r.error == EmptyMatrix)
              || r.error.InvalidDimensions?
    // it fails exactly when the top-left region is empty or the final resize has a zero side
    ensures input.Some? ==>
              var resized := Resize.AdaptiveResize(p, input.value, size, 10);
              var target := Resize.ResizeTarget(resized.width, resized.height, size);
              r.Err? <==> (background.None? && (resized.width < 10 || resized.height < 10))
                          || target.0 < 1 || target.1 < 1
    // the edge image comes from the downscaled input, the transparent one is its keyed resize
    ensures r.Ok? && input.Some? ==>
              var resized := Resize.AdaptiveResize(p, input.value, size, 10);
              && r.value.Processed?
              && r.value.edge == KotlinEdge(p, resized, t1, t2, false)
              && VisuBeeTransparent(p, resized, background, tolerance, size).Ok?
              && r.value.transparent == VisuBeeTransparent(p, resized, background, tolerance, size).value
    ensures r.Ok? && input.Some? ==>
              var resized := Resize.AdaptiveResize(p, input.value, size, 10);
              && r.value.Processed?
              // the edge image keeps the downscaled size ...
              && r.value.edge.width == resized.width && r.value.edge.height == resized.height
              // ... the transparent one is brought to the selected size
              && (r.value.transparent.width, r.value.transparent.height)
                 == Resize.ResizeTarget(resized.width, resized.height, size)
  {
    match input
    case None => Ok(NoInput)
    case Some(bitmap) =>
      var resized := Resize.AdaptiveResize(p, bitmap, size, 10);
      var transparent := VisuBeeTransparent(p, resized, background, tolerance, size);
      if transparent.Err? then Err(transparent.error)
      else Ok(Processed(KotlinEdge(p, resized, t1, t2, false), transparent.value))
  }

  /** `brightness` reaches `processImage` but no stage reads it. */
  lemma BrightnessIgnored(p: LawfulPlatform, input: Option<Bitmap>, background: Option<Bitmap>,
                          t1: real, t2: real, tolerance: int, b1: int, b2: int, size: ImageSize)
    requires input.Some? ==> input.value.Valid()
    requires background.Some? ==> background.value.Valid()
    ensures VisuBeeProcess(p, input, background, t1, t2, tolerance, b1, size)
            == VisuBeeProcess(p, input, background, t1, t2, tolerance, b2, size)
  {
  }

  /** With a reference image, VisuBee fails only when the final resize does. */
  lemma VisuBeeWithReference(p: LawfulPlatform, input: Bitmap, background: Bitmap,
                             t1: real, t2: real, tolerance: int, brightness: int, size: ImageSize)
    requires input.Valid() && background.Valid()
    ensures
      var resized := Resize.AdaptiveResize(p, input, size, 10);
      VisuBeeProcess(p, Some(input), Some(background), t1, t2, tolerance, brightness, size).Ok?
      <==> Resize.ResizeTarget(resized.width, resized.height, size).0 >= 1
           && Resize.ResizeTarget(resized.width, resized.height, size).1 >= 1
  {
    var resized := Resize.AdaptiveResize(p, input, size, 10);
    var transparent := Keying.VisuBeeRemoveBackground(p, resized, Some(background), tolerance);
    assert transparent.Ok?;
    assert transparent.value.width == resized.width && transparent.value.height == resized.height;
    assert VisuBeeTransparent(p, resized, Some(background), tolerance, size)
           == Resize.ResizeBitmap(p, transparent.value, size);
  }

  /** The transparent image of VisuBee fits the selected size, one side exactly. */
  lemma VisuBeeTransparentFits(p: LawfulPlatform, input: Bitmap, background: Option<Bitmap>,
                               t1: real, t2: real, tolerance: int, brightness: int, size: ImageSize)
    requires input.Valid()
    requires background.Some? ==> background.value.Valid()
    requires VisuBeeProcess(p, Some(input), background, t1, t2, tolerance, brightness, size).Ok?
    ensures
      var t := VisuBeeProcess(p, Some(input), background, t1, t2, tolerance, brightness, size).value.transparent;
      && 1 <= t.width <= Width(size) && 1 <= t.height <= Height(size)
      && (t.width == Width(size) || t.height == Height(size))
  {
    var resized := Resize.AdaptiveResize(p, input, size, 10);
    var transparent := Keying.VisuBeeRemoveBackground(p, resized, background, tolerance).value;
    Resize.ResizeFitsBound(p, transparent, size);
  }

  /** `processImage` of KotlinTestApp and ExtractionKotlinApp, for a size the app's
      `ImageSize` enum offers: the edge image comes from the resized input, the
      transparent one is the resize of the keyed ORIGINAL input. */
  function KotlinProcess(p: LawfulPlatform, app: App, input: Option<Bitmap>, t1: real, t2: real, size: ImageSize)
    : (r: Result<Outcome>)
    requires app == KotlinTestApp || app == ExtractionKotlinApp
    requires size in Entries(app)
    requires input.Some? ==> input.value.Valid()
    ensures input.None? ==> r == Ok(NoInput)
    ensures r.Ok? ==> ValidOutcome(r.value)
    // the only failure: the first resize meets an extreme aspect ratio
    ensures input.Some? ==>
              (r.Err? <==> Resize.ResizeBitmap(p, input.value, size).Err?)
    ensures input.Some? && r.Err? ==> r.error == Resize.ResizeBitmap(p, input.value, size).error
    // both images have the resized input's size
    ensures r.Ok? && input.Some? ==>
              && r.value.Processed?
              && (r.value.edge.width, r.value.edge.height)
                 == Resize.ResizeTarget(input.value.width, input.value.height, size)
              && (r.value.transparent.width, r.value.transparent.height)
                 == Resize.ResizeTarget(input.value.width, input.value.height, size)
  {
    match input
    case None => Ok(NoInput)
    case Some(bitmap) =>
      var resized :- Resize.ResizeBitmap(p, bitmap, size);
      var edge := KotlinEdge(p, resized, t1, t2, app == ExtractionKotlinApp);
      var keyed := Keying.FixedRemoveBackground(p, Keying.HandWritten, bitmap);
      var transparent := Resize.ResizeBitmap(p, keyed, size);
      assert transparent.Ok?;
      Ok(Processed(edge, transparent.value))
  }

  /** KotlinTestApp and ExtractionKotlinApp compute the same images. */
  lemma KotlinVariantsAgree(p: LawfulPlatform, input: Option<Bitmap>, t1: real, t2: real, size: ImageSize)
    requires size in Entries(ExtractionKotlinApp)
    requires input.Some? ==> input.value.Valid()
    ensures KotlinProcess(p, ExtractionKotlinApp, input, t1, t2, size)
            == KotlinProcess(p, KotlinTestApp, input, t1, t2, size)
  {
    FourEntryTable();
    if input.Some? {
      var resized := Resize.ResizeBitmap(p, input.value, size);
      if resized.Ok? {
        GuardAlwaysTaken(p, resized.value, t1, t2);
      }
    }
  }

  /** The transparent image of the Kotlin variants is the keyed original, scaled:
      its transparency comes from the full-resolution input, not the resized one. */
  lemma KotlinTransparentFromOriginal(p: LawfulPlatform, app: App, input: Bitmap, t1: real, t2: real,
                                      size: ImageSize)
    requires app == KotlinTestApp || app == ExtractionKotlinApp
    requires size in Entries(app)
    requires input.Valid()
    requires KotlinProcess(p, app, Some(input), t1, t2, size).Ok?
    ensures
      var keyed := Keying.FixedRemoveBackground(p, Keying.HandWritten, input);
      Resize.ResizeBitmap(p, keyed, size).Ok?
      && KotlinProcess(p, app, Some(input), t1, t2, size).value.transparent
         == Resize.ResizeBitmap(p, keyed, size).value
  {
  }

  /** ExtractionApp's `processImage`: no resize; `Utils` conversions; the seek bars'
      integer thresholds. */
  function ExtractionAppProcess(p: LawfulPlatform, input: Option<Bitmap>, t1: int, t2: int): (r: Outcome)
    requires input.Some? ==> input.value.Valid()
    ensures input.None? <==> r.NoInput?
    ensures ValidOutcome(r)
    // both images have the input's own size
    ensures r.Processed? ==>
              && r.edge.width == input.value.width && r.edge.height == input.value.height
              && r.transparent.width == input.value.width && r.transparent.height == input.value.height
    // the edge image is `Utils.matToBitmap` of Canny on the grey input; the transparent one is
    // the first-pixel keying through `Utils`
    ensures r.Processed? ==>
              && r.edge.pixels == p.matToPixels(EdgeMat(p, p.bitmapToMat(input.value), t1 as real, t2 as real))
              && r.transparent == Keying.FixedRemoveBackground(p, Keying.OpenCvUtils, input.value)
  {
    match input
    case None => NoInput
    case Some(bitmap) =>
      var edges := EdgeMat(p, p.bitmapToMat(bitmap), t1 as real, t2 as real);
      var edge := Bitmap(bitmap.width, bitmap.height, p.matToPixels(edges));
      Processed(edge, Keying.FixedRemoveBackground(p, Keying.OpenCvUtils, bitmap))
  }

  /** ExtractionApp's transparent image is `Utils.matToBitmap` of the keyed matrix, whose
      colour bytes are the RGBA conversion's and whose alpha is 0 exactly on the pixels
      within 30 of the first pixel's hue, on the 0..179 scale, with saturation and value
      at least 50. */
  lemma ExtractionAppTransparent(p: LawfulPlatform, input: Bitmap, t1: int, t2: int)
    requires input.Valid()
    ensures
      var out := ExtractionAppProcess(p, Some(input), t1, t2).transparent;
      var hsv := Keying.InputHsv(p, Keying.OpenCvUtils, input);
      var rgba := Keying.InputRgba(p, Keying.OpenCvUtils, input);
      var h0 := hsv.Cell(0, 0, 0) as int;
      var keyed := Keying.KeyedMat(p, Keying.OpenCvUtils, input, Keying.TopLeftPixel, Keying.FixedTolerance);
      && keyed.Ok? && Shaped(keyed.value, input.height, input.width, 4)
      && out.pixels == p.matToPixels(keyed.value)
      && (forall q, c :: 0 <= q < hsv.Count() && 0 <= c < 3 ==> keyed.value.At(q, c) == rgba.At(q, c))
      && (forall q :: 0 <= q < hsv.Count() ==>
            keyed.value.At(q, 3) == if && h0 - 30 <= hsv.At(q, 0) as int <= h0 + 30
                                       && hsv.At(q, 0) as int <= 179
                                       && 50 <= hsv.At(q, 1) as int
                                       && 50 <= hsv.At(q, 2) as int
                                    then 0 else rgba.At(q, 3))
  {
    Keying.FirstPixelKeying(p, Keying.OpenCvUtils, input);
  }
}
