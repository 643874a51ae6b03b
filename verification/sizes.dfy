/** The app variants and the `ImageSize` enum of named square output bounds. */
module Sizes {

  /** The four near-copies of the pipeline. */
  datatype App = VisuBee | KotlinTestApp | ExtractionKotlinApp | ExtractionApp

  /** `enum class ImageSize(val width: Int, val height: Int)`. */
  datatype ImageSize = XS | S | M | L | XL

  function Width(s: ImageSize): int {
    match s
    case XS => 75
    case S => 150
    case M => 300
    case L => 600
    case XL => 1200
  }

  function Height(s: ImageSize): int {
    match s
    case XS => 75
    case S => 150
    case M => 300
    case L => 600
    case XL => 1200
  }

  /** The enum constant's `name`, used in file names. */
  function Name(s: ImageSize): string {
    match s
    case XS => "XS"
    case S => "S"
    case M => "M"
    case L => "L"
    case XL => "XL"
  }

  /** `ImageSize.values()` of each variant, in declaration order. ExtractionKotlinApp
      declares no `XS`; ExtractionApp has no enum (its processing never resizes). */
  function Entries(app: App): seq<ImageSize> {
    match app
    case VisuBee => [XS, S, M, L, XL]
    case KotlinTestApp => [XS, S, M, L, XL]
    case ExtractionKotlinApp => [S, M, L, XL]
    case ExtractionApp => []
  }

  /** VisuBee's table: exactly XS(75,75), S(150,150), M(300,300), L(600,600), XL(1200,1200). */
  lemma FiveEntryTable()
    ensures |Entries(VisuBee)| == 5
    ensures forall i :: 0 <= i < 5 ==>
              (Width(Entries(VisuBee)[i]), Height(Entries(VisuBee)[i]))
                == [(75, 75), (150, 150), (300, 300), (600, 600), (1200, 1200)][i]
  {
  }

  /** ExtractionKotlinApp's table: S, M, L, XL only, with the same dimensions. */
  lemma FourEntryTable()
    ensures Entries(ExtractionKotlinApp) == [S, M, L, XL]
    ensures XS !in Entries(ExtractionKotlinApp)
    ensures Entries(ExtractionKotlinApp) == Entries(VisuBee)[1..]
  {
  }

  /** Every size is a square with a positive side, so dividing by it is defined. */
  lemma SizesArePositiveSquares(s: ImageSize)
    ensures Width(s) == Height(s)
    ensures Width(s) >= 75
  {
  }

  /** In declaration order each size is twice the one before it. */
  lemma SizesDouble(app: App)
    ensures forall i :: 0 < i < |Entries(app)| ==>
              Width(Entries(app)[i]) == 2 * Width(Entries(app)[i - 1])
  {
  }

  /** Different sizes have different names. */
  lemma NamesDistinct(s: ImageSize, t: ImageSize)
    ensures Name(s) == Name(t) <==> s == t
  {
  }
}
