/** Android's packed `ARGB_8888` pixel: one 32-bit `Int` holding alpha in
    bits 24-31, red in 16-23, green in 8-15 and blue in 0-7. */
module Pixels {

  /** One unsigned 8-bit matrix element. Kotlin stores it as a signed
      `Byte` and reads it back with `toInt() and 0xFF`; the bits are the same. */
  type Byte = bv8

  /** A packed ARGB pixel; Kotlin's signed `Int` seen as its 32 bits. */
  type Pixel = bv32

  const Opaque: Byte := 0xFF

  function Alpha(p: Pixel): Byte { ((p >> 24) & 0xFF) as Byte }
  function Red(p: Pixel): Byte   { ((p >> 16) & 0xFF) as Byte }
  function Green(p: Pixel): Byte { ((p >> 8) & 0xFF) as Byte }
  function Blue(p: Pixel): Byte  { (p & 0xFF) as Byte }

  /** `(a shl 24) or (r shl 16) or (g shl 8) or b`. */
  function Pack(a: Byte, r: Byte, g: Byte, b: Byte): Pixel {
    ((a as Pixel) << 24) | ((r as Pixel) << 16) | ((g as Pixel) << 8) | (b as Pixel)
  }

  /** Splitting a packed pixel and packing the four bytes again gives the pixel back. */
  lemma PackOfChannels(p: Pixel)
    ensures Pack(Alpha(p), Red(p), Green(p), Blue(p)) == p
  {
  }

  /** Each channel of a packed pixel is the byte that was packed into its place. */
  lemma ChannelsOfPack(a: Byte, r: Byte, g: Byte, b: Byte)
    ensures Alpha(Pack(a, r, g, b)) == a
    ensures Red(Pack(a, r, g, b)) == r
    ensures Green(Pack(a, r, g, b)) == g
    ensures Blue(Pack(a, r, g, b)) == b
  {
  }
}
