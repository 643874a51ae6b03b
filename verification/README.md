# Extraction-app image pipeline, in Dafny

The repository holds four near-copies of one small Android image pipeline:
VisuBee, KotlinTestApp, ExtractionKotlinApp and ExtractionApp. Each takes a picked
photo and produces two images:

- an **edge image**: grey, Canny, back to RGBA;
- a **transparent image**: the background is keyed out by hue, and alpha is set to 0
  where a pixel's hue lies near a reference hue.

The Kotlin variants scale the results to a named `ImageSize`. VisuBee also lets the
user drag out a selection rectangle and names the saved files after the input image.

This project is one model of all four variants, with the variant as a parameter
(`Sizes.App`, `Keying.Conversion`, `Keying.HueSource`). The OpenCV and Android calls
are function values of a `Foreign.Platform` record. The model assumes of them only
the shapes and channel counts of their results, and one fact about storage
(`Foreign.Lawful`). A bitmap from `Bitmap.createBitmap` stores premultiplied colour.
So after `setPixels` it keeps each alpha, a fully transparent pixel reads back as 0,
and an opaque pixel reads back exactly. Everything those calls are wrapped in is
modelled as the code writes it:

- the bit-level codec between packed ARGB pixels and byte buffers;
- the size arithmetic;
- the hue window;
- the saturation/value gate;
- the alpha loop;
- the three reference-hue strategies;
- the `processImage` dataflow of each variant;
- the overlay's touch state machine and rectangle clamping;
- the file naming.

Modules, one per component:

| file | module | models |
|---|---|---|
| results.dfy | `Results` | `Option`, `Result` and the source's exceptions as error values |
| pixels.dfy | `Pixels` | packed `ARGB_8888` pixels (`bv32`) and their bytes |
| images.dfy | `Images` | `Bitmap`, `Mat` (interleaved `CV_8UC<n>`), `Rect` |
| codec.dfy | `Codec` | the hand-written `bitmapToMat` / `matToBitmap` |
| sizes.dfy | `Sizes` | the variants and their `ImageSize` tables |
| foreign.dfy | `Foreign` | the OpenCV/Android calls as parameters |
| resize.dfy | `Resize` | `resizeBitmap` and VisuBee's `adaptiveResizeBitmap` |
| keying.dfy | `Keying` | `removeBackground` of every variant |
| pipeline.dfy | `Pipeline` | `processImage` of every variant |
| overlay.dfy | `Overlay` | `SelectionOverlayView` |
| naming.dfy | `Naming` | VisuBee's file naming and save guard; the gallery display name |

Two error paths of the code are kept as errors:

- **Top-left region.** The region is a tenth of each side, rounded down. An image
  narrower or lower than ten pixels therefore gives an empty region, and the HSV
  conversion rejects it (`Results.EmptyMatrix`).
- **Resize failures.** `resizeBitmap` can ask `createScaledBitmap` for a zero side
  when the aspect ratio is extreme (one side more than the bound times the other).
  `createScaledBitmap` then throws, and the model returns `Results.InvalidDimensions`.
  `adaptiveResizeBitmap` never does this: it divides only by a factor that leaves
  both sides at least the target size.

## Model

| member | source | states |
|---|---|---|
| Pixels.PackOfChannels | VisuBee/app/src/main/java/com/example/visubee/utils/ImageProcessingUtils.kt:51 | splitting a pixel into A, R, G, B and shifting them back together gives the same pixel |
| Pixels.ChannelsOfPack | VisuBee/app/src/main/java/com/example/visubee/utils/ImageProcessingUtils.kt:20-23 | each channel read from a packed pixel is the byte packed into its bit position |
| Codec.Decode | VisuBee/app/src/main/java/com/example/visubee/utils/ImageProcessingUtils.kt:17-24 | the buffer has 4 bytes per pixel; bytes 4i..4i+3 are bits 16-23, 8-15, 0-7 and 24-31 (R, G, B, A) of pixel i |
| Codec.BitmapToMat | VisuBee/app/src/main/java/com/example/visubee/utils/ImageProcessingUtils.kt:12-26 | a height-by-width 4-channel matrix holding the decoded buffer |
| Codec.Encode | VisuBee/app/src/main/java/com/example/visubee/utils/ImageProcessingUtils.kt:39-55 | succeeds exactly for 1, 3 or 4 channels, with one pixel per matrix pixel; any other count fails with the unsupported-channels error |
| Codec.MatToBitmap | KotlinTestApp/app/src/main/java/com/example/kotlintestapp/utils/ImageProcessingUtils.kt:30-59 | a cols-by-rows pixel array, the one handed to `setPixels`, exactly when the channel count is 1, 3 or 4, with one pixel per matrix pixel; otherwise the unsupported-channels error |
| Codec.DecodeThenEncode | VisuBee/app/src/main/java/com/example/visubee/utils/ImageProcessingUtils.kt:18-52 | decoding pixels and encoding the 4-channel buffer again gives every packed pixel back |
| Codec.EncodeThenDecode | KotlinTestApp/app/src/main/java/com/example/kotlintestapp/utils/ImageProcessingUtils.kt:19-53 | encoding a 4-channel buffer and decoding the pixels again gives every byte back |
| Codec.BitmapRoundTrip | ExtractionKotlinApp/app/src/main/java/com/example/extractionkotlinapp/ImageProcessingScreen.kt:261-308 | matToBitmap of bitmapToMat of a bitmap is that bitmap |
| Codec.EncodeGray | VisuBee/app/src/main/java/com/example/visubee/utils/ImageProcessingUtils.kt:39-43 | a 1-channel buffer encodes to alpha 255 and R = G = B = the byte |
| Codec.EncodeRgb | ExtractionKotlinApp/app/src/main/java/com/example/extractionkotlinapp/ImageProcessingScreen.kt:277-285 | a 3-channel buffer keeps R, G, B and gets alpha 255 |
| Codec.EncodeRgba | KotlinTestApp/app/src/main/java/com/example/kotlintestapp/utils/ImageProcessingUtils.kt:45-53 | a 4-channel buffer keeps R, G, B, and its fourth byte becomes alpha |
| Codec.MatToBitmapRgba | VisuBee/app/src/main/java/com/example/visubee/utils/ImageProcessingUtils.kt:44-52 | a 4-channel matrix converts, and pixel q of the array handed to `setPixels` packs channels 0..3 of matrix pixel q as red, green, blue, alpha |
| Foreign.Stored | KotlinTestApp/app/src/main/java/com/example/kotlintestapp/utils/ImageProcessingUtils.kt:58 | what a fresh `ARGB_8888` bitmap reads back after `setPixels`: one pixel per pixel written, each alpha kept, a fully transparent pixel as 0, an opaque pixel exactly |
| Sizes.FiveEntryTable | VisuBee/app/src/main/java/com/example/visubee/data/ImageSize.kt:3-9 | exactly five sizes in order: XS 75, S 150, M 300, L 600, XL 1200, each as (width, height) |
| Sizes.FourEntryTable | ExtractionKotlinApp/app/src/main/java/com/example/extractionkotlinapp/ImageProcessingScreen.kt:34-39 | this variant has only S, M, L, XL (no XS), the same entries as VisuBee's table minus its first |
| Sizes.SizesArePositiveSquares | VisuBee/app/src/main/java/com/example/visubee/data/ImageSize.kt:4-8 | every size has width == height and a side of at least 75, so the adaptive resize's divisions are defined |
| Sizes.SizesDouble | VisuBee/app/src/main/java/com/example/visubee/data/ImageSize.kt:4-8 | in declaration order each size is exactly twice the one before it, in every variant's table |
| Sizes.NamesDistinct | VisuBee/app/src/main/java/com/example/visubee/ui/ProcessingFragment.kt:101 | the size names the spinner lists identify their sizes: equal names iff equal sizes |
| Resize.ScaledSide | VisuBee/app/src/main/java/com/example/visubee/utils/ImageProcessingUtils.kt:65-67 | the truncated side is the largest q with q * long <= bound * short, lies in 0..bound, and is 0 iff bound * short < long |
| Resize.ResizeTarget | VisuBee/app/src/main/java/com/example/visubee/utils/ImageProcessingUtils.kt:62-68 | landscape: width = bound, height = trunc(bound * h / w); otherwise height = bound, width = trunc(bound * w / h); neither exceeds its bound |
| Resize.ResizeBitmap | VisuBee/app/src/main/java/com/example/visubee/utils/ImageProcessingUtils.kt:61-71 | a valid bitmap of exactly the target dimensions when both are at least 1; otherwise the invalid-dimensions error carrying them |
| Resize.ResizeFailsOnlyOnExtremeAspect | ExtractionKotlinApp/app/src/main/java/com/example/extractionkotlinapp/ImageProcessingScreen.kt:375-384 | resizing fails exactly when the long side exceeds bound times the short side |
| Resize.ResizeFitsBound | KotlinTestApp/app/src/main/java/com/example/kotlintestapp/utils/ImageProcessingUtils.kt:62-71 | a resized bitmap has one side equal to its bound and the other within its own bound |
| Resize.ScaleFactor | VisuBee/app/src/main/java/com/example/visubee/data/ProcessingRepository.kt:62-64 | at most maxFactor; the target fits that many times into each side; it is the largest such factor up to maxFactor |
| Resize.DownscaledSideKeepsTarget | VisuBee/app/src/main/java/com/example/visubee/data/ProcessingRepository.kt:68-69 | a side divided by a factor that fits the target that many times stays at least the target and at most the side |
| Resize.AdaptiveResize | VisuBee/app/src/main/java/com/example/visubee/data/ProcessingRepository.kt:57-74 | factor at most 1: the very same bitmap; otherwise (w div sf, h div sf), never below the target and never above the source |
| Resize.ScaleFactorAtMostTen | VisuBee/app/src/main/java/com/example/visubee/data/ProcessingRepository.kt:30 | at the call site, with maxFactor 10, the factor lies in 0..10 |
| Keying.Window | VisuBee/app/src/main/java/com/example/visubee/utils/ImageProcessingUtils.kt:96-97 | lower is the least value at or above both 0 and hue - tolerance; upper is the greatest at or below both 179 and hue + tolerance |
| Keying.WindowInsideScale | VisuBee/app/src/main/java/com/example/visubee/utils/ImageProcessingUtils.kt:96-97 | for a hue in 0..179 and tolerance >= 0: 0 <= lower <= upper <= 179 |
| Keying.WindowMembership | VisuBee/app/src/main/java/com/example/visubee/utils/ImageProcessingUtils.kt:96-104 | on the 0..179 scale the clamped window admits exactly the hues within tolerance of the reference |
| Keying.InRange | VisuBee/app/src/main/java/com/example/visubee/utils/ImageProcessingUtils.kt:99-104 | a 1-channel mask of the image's size, 255 exactly where hue is within the bounds and S, V in 50..255, 0 elsewhere |
| Keying.ClearMaskedAlpha | VisuBee/app/src/main/java/com/example/visubee/utils/ImageProcessingUtils.kt:110-119 | same shape; a masked pixel's alpha becomes 0; every other byte is unchanged |
| Keying.ApplyTransparency | VisuBee/app/src/main/java/com/example/visubee/utils/ImageProcessingUtils.kt:111-119 | the nested row/column loop computes exactly the masked-alpha matrix |
| Keying.TopLeftRect | VisuBee/app/src/main/java/com/example/visubee/utils/ImageProcessingUtils.kt:151-154 | anchored at the origin, inside the image, each side a tenth of the image's, rounded down |
| Keying.TopLeftCorner | VisuBee/app/src/main/java/com/example/visubee/utils/ImageProcessingUtils.kt:154 | the sub-matrix has the rectangle's rows and columns and the parent's channels, and its cell (i, j, c) is the parent's cell (i, j, c) |
| Keying.TopLeftTenth | VisuBee/app/src/main/java/com/example/visubee/utils/ImageProcessingUtils.kt:148-154 | the region is rows/10 by cols/10, is empty exactly when a side is shorter than ten, and holds the parent's top-left cells |
| Keying.RegionHue | VisuBee/app/src/main/java/com/example/visubee/utils/ImageProcessingUtils.kt:144-164 | fails, with the empty-matrix error, exactly when the image is narrower or lower than ten; otherwise the mean hue of the top-left tenth |
| Keying.ReferenceHue | VisuBee/app/src/main/java/com/example/visubee/utils/ImageProcessingUtils.kt:90-94 | top-left pixel: its hue; reference image: that image's mean hue; otherwise the top-left region's; only the region strategy can fail |
| Keying.Key | VisuBee/app/src/main/java/com/example/visubee/utils/ImageProcessingUtils.kt:102-119 | alpha cleared on exactly the background pixels of the HSV matrix; every other byte kept |
| Keying.InputHsv | VisuBee/app/src/main/java/com/example/visubee/utils/ImageProcessingUtils.kt:86-87 | the input's HSV matrix has its size and 3 channels |
| Keying.InputRgba | VisuBee/app/src/main/java/com/example/visubee/utils/ImageProcessingUtils.kt:107-108 | the input's RGBA matrix has its size and 4 channels |
| Keying.HueBounds | VisuBee/app/src/main/java/com/example/visubee/utils/ImageProcessingUtils.kt:89-100 | the bounds given to inRange are the window around the reference hue; they fail exactly when the region strategy meets a small image |
| Keying.KeyedMat | VisuBee/app/src/main/java/com/example/visubee/utils/ImageProcessingUtils.kt:82-119 | the input's RGBA matrix with alpha 0 on exactly the background pixels; every other byte is the RGBA conversion's; same error condition as the bounds |
| Keying.RemoveBackground | VisuBee/app/src/main/java/com/example/visubee/utils/ImageProcessingUtils.kt:77-126 | a valid bitmap of the input's size whose pixels are the variant's matrix-to-bitmap conversion of the keyed matrix; fails, with the empty-matrix error, exactly for the region strategy on an image narrower or lower than ten |
| Keying.VisuBeeRemoveBackground | VisuBee/app/src/main/java/com/example/visubee/utils/ImageProcessingUtils.kt:77-126 | same size as the input; its pixels are `Utils.matToBitmap` of the matrix keyed by the reference image's hue, or by the top-left region's when there is none; fails exactly when there is no reference image and the input is smaller than ten on a side |
| Keying.FixedRemoveBackground | KotlinTestApp/app/src/main/java/com/example/kotlintestapp/utils/ImageProcessingUtils.kt:74-112 | the fixed variants never fail, keep the source's size, and output the conversion of the matrix keyed by the first pixel's hue |
| Keying.IntegralWindowBounds | ExtractionApp/app/src/main/java/com/example/extractionapp/MainActivity.java:158-161 | for an integral hue the bounds reaching the mask are max(hue - tol, 0) and min(hue + tol, 179) |
| Keying.FirstPixelBounds | KotlinTestApp/app/src/main/java/com/example/kotlintestapp/utils/ImageProcessingUtils.kt:83-86 | the fixed variants' bounds are pixel (0,0)'s hue ± 30, clamped to 0..179 |
| Keying.NearHueBackground | ExtractionApp/app/src/main/java/com/example/extractionapp/MainActivity.java:165 | with those bounds a pixel is background iff its hue is within 30 of h0 and at most 179, and S, V >= 50 |
| Keying.FirstPixelKeying | ExtractionKotlinApp/app/src/main/java/com/example/extractionkotlinapp/ImageProcessingScreen.kt:320-343 | the keyed matrix's alpha is 0 exactly on pixels near the first pixel's hue with S, V >= 50, otherwise the RGBA conversion's alpha |
| Keying.HandWrittenOutput | KotlinTestApp/app/src/main/java/com/example/kotlintestapp/utils/ImageProcessingUtils.kt:107-109 | with the hand-written codec, output pixel q has the keyed matrix's alpha; it is 0 (transparent black) where that alpha is 0, and carries the keyed colour where it is 255 |
| Keying.HandWrittenFixedOutput | ExtractionKotlinApp/app/src/main/java/com/example/extractionkotlinapp/ImageProcessingScreen.kt:312-350 | alpha is 0 exactly on the near-hue, saturated, bright pixels, which read back as transparent black; elsewhere alpha is the RGBA conversion's, and so is the colour where that alpha is 255 |
| Pipeline.EdgeMat | VisuBee/app/src/main/java/com/example/visubee/data/ProcessingRepository.kt:36-37 | grey then Canny keep the image's size and give one channel |
| Pipeline.KotlinEdge | KotlinTestApp/app/src/main/java/com/example/kotlintestapp/data/ProcessingRepository.kt:32-40 | the edge image is a valid bitmap of the source's size |
| Pipeline.GuardAlwaysTaken | ExtractionKotlinApp/app/src/main/java/com/example/extractionkotlinapp/ImageProcessingScreen.kt:248-250 | the one-channel guard always holds after Canny, so the guarded edge image equals the unguarded one |
| Pipeline.VisuBeeTransparent | VisuBee/app/src/main/java/com/example/visubee/data/ProcessingRepository.kt:44-51 | the resize, to the selected size, of the background removal of the downscaled image (with or without a reference); a keying error passes through; it fails exactly when, with no reference, the downscaled image is under 10 pixels on a side, or when the resize has a zero side |
| Pipeline.VisuBeeProcess | VisuBee/app/src/main/java/com/example/visubee/data/ProcessingRepository.kt:18-54 | no input: no images. Otherwise the edge image is the edge pipeline on the downscaled input and keeps its size, and the transparent image is its keyed resize. It fails exactly when there is no reference and the downscaled image is smaller than ten on a side, or when the final resize target has a zero side |
| Pipeline.BrightnessIgnored | VisuBee/app/src/main/java/com/example/visubee/data/ProcessingRepository.kt:24-53 | the outcome does not depend on brightness |
| Pipeline.VisuBeeWithReference | VisuBee/app/src/main/java/com/example/visubee/data/ProcessingRepository.kt:44-45 | with a reference image, processing succeeds exactly when the final resize target has both sides at least 1 |
| Pipeline.VisuBeeTransparentFits | VisuBee/app/src/main/java/com/example/visubee/data/ProcessingRepository.kt:50-51 | VisuBee's transparent image fits the selected size, one side exactly |
| Pipeline.KotlinProcess | KotlinTestApp/app/src/main/java/com/example/kotlintestapp/data/ProcessingRepository.kt:22-45 | no input: no images; fails exactly when the first resize does, with its error; both images have the resized input's size |
| Pipeline.KotlinVariantsAgree | ExtractionKotlinApp/app/src/main/java/com/example/extractionkotlinapp/ImageProcessingScreen.kt:229-257 | for every size ExtractionKotlinApp offers, its processImage computes the same images as KotlinTestApp's |
| Pipeline.KotlinTransparentFromOriginal | KotlinTestApp/app/src/main/java/com/example/kotlintestapp/data/ProcessingRepository.kt:42 | the transparent image is the resize of the keyed original input, not of the resized one |
| Pipeline.ExtractionAppProcess | ExtractionApp/app/src/main/java/com/example/extractionapp/MainActivity.java:122-145 | no input: nothing. Otherwise both images keep the input's size (no resize); the edge image is `Utils.matToBitmap` of Canny on the grey input; the transparent image is the first-pixel keying through `Utils` |
| Pipeline.ExtractionAppTransparent | ExtractionApp/app/src/main/java/com/example/extractionapp/MainActivity.java:149-187 | ExtractionApp's transparent image is `Utils.matToBitmap` of a matrix that keeps the RGBA colour bytes and has alpha 0 exactly on pixels within 30 of the first pixel's hue (at most 179) with saturation and value at least 50 |
| Overlay.OnTouchEvent | VisuBee/app/src/main/java/com/example/visubee/ui/SelectionOverlayView.kt:22-43 | always consumed. Down: start = end = touch point, dragging. Move: only the end changes. Up: only dragging clears. Other actions change nothing |
| Overlay.ReplayMoves | VisuBee/app/src/main/java/com/example/visubee/ui/SelectionOverlayView.kt:32-36 | a run of moves keeps the start and drag flag and leaves the end at the last move |
| Overlay.ToInt | VisuBee/app/src/main/java/com/example/visubee/ui/SelectionOverlayView.kt:59-62 | Float.toInt: toward zero, saturating at the Int range |
| Overlay.Clamp | VisuBee/app/src/main/java/com/example/visubee/ui/SelectionOverlayView.kt:59-60 | the result is in lo..hi, the value itself when inside, the nearer end otherwise |
| Overlay.CoerceIn | VisuBee/app/src/main/java/com/example/visubee/ui/SelectionOverlayView.kt:61-62 | fails, with the empty-range error, exactly when lo > hi; otherwise the clamped value |
| Overlay.Crop | VisuBee/app/src/main/java/com/example/visubee/ui/SelectionOverlayView.kt:64 | a bitmap of the rectangle's size whose pixel (i, j) is the source's pixel (y + i, x + j) |
| Overlay.SelectionRect | VisuBee/app/src/main/java/com/example/visubee/ui/SelectionOverlayView.kt:52-63 | none for a degenerate drag; fails exactly when the scaled press lands on the right or bottom edge; otherwise a rectangle inside the bitmap at the scaled press point, sides clamped to 1..room |
| Overlay.SelectedRegion | VisuBee/app/src/main/java/com/example/visubee/ui/SelectionOverlayView.kt:52-65 | null iff degenerate; the region holds exactly the pixels of the selected rectangle |
| Overlay.TapSelectsNothing | VisuBee/app/src/main/java/com/example/visubee/ui/SelectionOverlayView.kt:53 | a press and release without a move selects nothing |
| Overlay.ReversedDragIsOnePixel | VisuBee/app/src/main/java/com/example/visubee/ui/SelectionOverlayView.kt:61-62 | a leftward (upward) drag gives a rectangle one pixel wide (high) |
| Overlay.PressOnRightEdgeFails | VisuBee/app/src/main/java/com/example/visubee/ui/SelectionOverlayView.kt:59-62 | a press at the right edge of a 100-wide view over a 100-wide bitmap, dragged inwards, makes the width clamp throw |
| Overlay.SafeSelectionRect | VisuBee/app/src/main/java/com/example/visubee/ui/SelectionOverlayView.kt:59-62 | with the corner clamped to the last column and row, every dragged rectangle lies inside the bitmap and never fails |
| Overlay.SafeSelectionAgrees | VisuBee/app/src/main/java/com/example/visubee/ui/SelectionOverlayView.kt:59-62 | wherever the original succeeds, the corrected rectangle is the same |
| Overlay.SafeSelectedRegion | VisuBee/app/src/main/java/com/example/visubee/ui/SelectionOverlayView.kt:52-65 | the corrected region: null iff degenerate, otherwise the pixels of a rectangle inside the bitmap |
| Naming.Trim | VisuBee/app/src/main/java/com/example/visubee/ui/ProcessingFragment.kt:365 | the trimmed text starts and ends with a non-whitespace character; an all-blank text trims to empty |
| Naming.TrimPadded | VisuBee/app/src/main/java/com/example/visubee/ui/ProcessingFragment.kt:365 | trimming removes exactly the whitespace around a trimmed core |
| Naming.TrimIdempotent | VisuBee/app/src/main/java/com/example/visubee/ui/ProcessingFragment.kt:365 | trimming twice is trimming once |
| Naming.StripTrailingSlashes | VisuBee/app/src/main/java/com/example/visubee/ui/ProcessingFragment.kt:390 | a prefix of the path that does not end in '/'; only '/' characters are dropped |
| Naming.LastSegment | VisuBee/app/src/main/java/com/example/visubee/ui/ProcessingFragment.kt:390 | a suffix of the path without '/', preceded by a '/' unless it is the whole path |
| Naming.BeforeLastDot | VisuBee/app/src/main/java/com/example/visubee/ui/ProcessingFragment.kt:250 | the whole string when it has no '.'; otherwise the prefix before a '.' that has no '.' after it |
| Naming.FileStem | VisuBee/app/src/main/java/com/example/visubee/ui/ProcessingFragment.kt:389-391 | stem.ext, with no '.' in ext, loses exactly ".ext", however many dots the stem holds |
| Naming.StemOfPath | VisuBee/app/src/main/java/com/example/visubee/ui/ProcessingFragment.kt:389-391 | dir/stem.ext yields stem, whatever the directory |
| Naming.StemOfFileName | VisuBee/app/src/main/java/com/example/visubee/ui/ProcessingFragment.kt:389-391 | a bare stem.ext yields stem |
| Naming.DotlessOfPath | VisuBee/app/src/main/java/com/example/visubee/ui/ProcessingFragment.kt:389-391 | dir/name with a dot-less name yields the whole name |
| Naming.PlainName | VisuBee/app/src/main/java/com/example/visubee/ui/ProcessingFragment.kt:389-391 | a name with neither '/' nor '.' is its own base name |
| Naming.PrefillOfSegment | VisuBee/app/src/main/java/com/example/visubee/ui/ProcessingFragment.kt:249-253 | the prefill is the segment before its last '.', a dot-less segment whole, or default_filename, then "_" and the size |
| Naming.SavedNamesPair | VisuBee/app/src/main/java/com/example/visubee/ui/ProcessingFragment.kt:368-369 | both names are base + "_" + size followed by "_edge.png" or "_transparent.png", and they differ |
| Naming.SavedNameOfPath | VisuBee/app/src/main/java/com/example/visubee/ui/ProcessingFragment.kt:364-369 | a field holding dir/stem.ext saves the edge image as stem_SIZE_edge.png |
| Naming.SavedNameOfFile | VisuBee/app/src/main/java/com/example/visubee/ui/ProcessingFragment.kt:364-369 | a field holding stem.ext saves the edge image as stem_SIZE_edge.png |
| Naming.UpdatedPrefillRepeatsSize | VisuBee/app/src/main/java/com/example/visubee/ui/ProcessingFragment.kt:250-368 | saving an unedited updated prefill of stem.ext names the edge image stem_SIZE_SIZE_edge.png |
| Naming.InitialPrefillSavedName | VisuBee/app/src/main/java/com/example/visubee/ui/ProcessingFragment.kt:232-236 | saving the unedited first prefill names the edge image SEGMENT_SIZE_edge_SIZE_edge.png |
| Naming.SaveImage | VisuBee/app/src/main/java/com/example/visubee/ui/ProcessingFragment.kt:332-362 | false without a save location; otherwise whatever the write reports |
| Naming.SaveProcessedImages | VisuBee/app/src/main/java/com/example/visubee/ui/ProcessingFragment.kt:364-387 | nothing is saved unless both images exist; both saves are attempted, edge first, under the derived names; success needs both; no location means no success |
| Naming.GalleryNamesDistinct | KotlinTestApp/app/src/main/java/com/example/kotlintestapp/data/ProcessingRepository.kt:49 | the display name fileName-SIZE.png differs between sizes and starts with the file name |

## Left out

- The OpenCV and Android calls are parameters, constrained only in shape (storage
  also in alpha, as above). These are
  `Utils.bitmapToMat`/`matToBitmap`, `cvtColor` (RGB→HSV, RGB→RGBA, RGBA→GRAY,
  GRAY→RGBA), `Canny`, `Core.mean`, `createScaledBitmap` and the premultiplied
  storage behind `setPixels`/`getPixels`. Nothing is claimed about which RGB colours
  get keyed out, nor about edge pixels.
- Keying.HandWrittenOutput: the colour a partly transparent pixel reads back with is
  not stated. Premultiplied storage rounds it, and that rounding is left to the
  platform; only its alpha, and the colour of opaque pixels, are promised.
- Keying.HandWrittenFixedOutput: as for `Keying.HandWrittenOutput`, the colour is
  promised only where the output alpha is 255.
- Foreign.Stored: how premultiplication rounds the colour of a pixel whose alpha lies
  strictly between 0 and 255 is not modelled.
- Keying.HueBounds: a fractional mean hue reaches `inRange` through an unspecified
  conversion. Only integral bounds are assumed to pass unchanged.
- Keying.RegionHue: the mean hue of the region is the abstract `meanHue` of its HSV
  conversion, not a computed average.
- Resize.ResizeTarget: the aspect ratio is an exact rational, not a `Float`, so
  `Float` rounding may differ by one pixel at exact-integer boundaries.
- Keying.TopLeftRect: `(side * 0.1).toInt()` is taken to be the integer tenth. The
  `Double` product can round differently for very large sides.
- Overlay.ToInt: the view coordinates and scale factors are exact reals, not
  `Float`s. NaN and infinities are not modelled.
- Overlay.SelectionRect: the view is assumed to have a positive width and height.
  A zero-sized view makes the `Float` scale infinite, and that is not modelled.
- Naming.SaveImage: the storage-framework write (DocumentFile, `openOutputStream`,
  PNG compression) is a parameter, and so is its exception path.
- Writing to MediaStore in `saveBitmapToGallery` is left out; only its display name
  is modelled.
- The user interface is left out: Fragments, Activities, Compose screens, toasts and
  the view wiring. So are ViewModels, LiveData, coroutines and the DataStore and
  SharedPreferences settings. These are callers and storage of the modelled code.
- The `Uri` parsing that produces `lastPathSegment` is left out. The segment is an
  input to the prefill.
- KotlinTestApp's `data/ImageSize.kt` is not part of this model. Its settings screen
  offers XS to XL, so its table is taken to be VisuBee's.
- ExtractionApp's `inputBitmap.copy(ARGB_8888, true)` is the identity. Every bitmap
  here already is `ARGB_8888`.
- VisuBee's `getDominantColor` and `getDominantColorFromTopLeft` take a tolerance
  they never read. The model does not pass it.
- Whitespace in `trim()` is Kotlin's `isWhitespace` set of characters. Nothing of
  Unicode beyond that set is modelled.

## Findings

| source | as written | input that shows it | evidently intended | confidence | as-written member | corrected member |
|---|---|---|---|---|---|---|
| VisuBee/app/src/main/java/com/example/visubee/ui/SelectionOverlayView.kt:59-62 | the press point is clamped to 0..bitmap width, and the width then to 1..(bitmap width − x); that range is empty when x equals the bitmap width, so `coerceIn` throws (likewise for y and the height) | a 100×100 bitmap in a 100×100 view; press at (100, 0), move to (50, 50); `getSelectedRegion` throws instead of returning a region | clamp the press point to the last column and row, so the region always has at least one pixel inside the bitmap | low: needs a press on the view's right or bottom edge, or a `Float` scale that rounds up to it; not executed | Overlay.PressOnRightEdgeFails | Overlay.SafeSelectionAgrees |
