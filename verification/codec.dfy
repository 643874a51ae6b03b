/** The hand-written `bitmapToMat` / `matToBitmap` pair: between packed
    ARGB pixels and an R, G, B, A byte buffer. */
module Codec {
  import opened Pixels
  import opened Images
  import opened Results

  /** The four bytes `bitmapToMat` writes for one pixel, in R, G, B, A order. */
  function Unpack(p: Pixel): seq<Byte> {
    [Red(p), Green(p), Blue(p), Alpha(p)]
  }

  /** The byte buffer `bitmapToMat` fills: pixel `i` becomes bytes `4i` to `4i+3`. */
  function Decode(px: seq<Pixel>): (bytes: seq<Byte>)
    ensures |bytes| == 4 * |px|
    ensures forall i :: 0 <= i < |px| ==>
              && bytes[4 * i] == Red(px[i])
              && bytes[4 * i + 1] == Green(px[i])
              && bytes[4 * i + 2] == Blue(px[i])
              && bytes[4 * i + 3] == Alpha(px[i])
  {
    if px == [] then []
    else
      var rest := Decode(px[1..]);
      assert forall i :: 1 <= i < |px| ==> px[i] == px[1..][i - 1];
      Unpack(px[0]) + rest
  }

  /** Pixel `i` as `matToBitmap` assembles it from a buffer of `channels`-byte pixels. */
  function EncodePixel(data: seq<Byte>, channels: nat, i: nat): Pixel
    requires channels == 1 || channels == 3 || channels == 4
    requires i * channels + channels <= |data|
  {
    if channels == 1 then
      Pack(Opaque, data[i], data[i], data[i])
    else
      var a := if channels == 4 then data[i * channels + 3] else Opaque;
      Pack(a, data[i * channels], data[i * channels + 1], data[i * channels + 2])
  }

  /** The pixel array `matToBitmap` builds from `count` pixels of `channels` bytes each. */
  function Encode(data: seq<Byte>, count: nat, channels: nat): (r: Result<seq<Pixel>>)
    requires |data| == count * channels
    ensures r.Ok? <==> channels == 1 || channels == 3 || channels == 4
    ensures r.Ok? ==> |r.value| == count
    ensures r.Err? ==> r.error == UnsupportedChannels(channels)
  {
    if channels == 1 || channels == 3 || channels == 4 then
      Ok(seq(count, i requires 0 <= i < count =>
               ChunkInBounds(i, count, channels, channels - 1);
               EncodePixel(data, channels, i)))
    else
      Err(UnsupportedChannels(channels))
  }

  /** `bitmapToMat(bitmap, Mat(height, width, CV_8UC4))`. */
  function BitmapToMat(b: Bitmap): (m: Mat)
    requires b.Valid()
    ensures Shaped(m, b.height, b.width, 4)
    ensures m.data == Decode(b.pixels)
  {
    var data := Decode(b.pixels);
    assert |data| == b.height * b.width * 4 by { FourBytesEach(b.width, b.height, |b.pixels|); }
    Mat(b.height, b.width, 4, data)
  }

  /** `w * h` pixels of four bytes each fill an `h`-by-`w` RGBA matrix. */
  lemma FourBytesEach(w: int, h: int, n: int)
    requires n == w * h
    ensures 4 * n == h * w * 4
  {
  }

  /** `matToBitmap(mat, bitmap)` for a bitmap of the matrix's own size: `pixels` is
      the packed array handed to `setPixels`; `Foreign.Stored` says what the
      bitmap then holds. */
  function MatToBitmap(m: Mat): (r: Result<Bitmap>)
    requires m.Valid()
    ensures r.Ok? <==> m.channels == 1 || m.channels == 3 || m.channels == 4
    ensures r.Ok? ==> r.value.width == m.cols && r.value.height == m.rows
    ensures r.Ok? ==> |r.value.pixels| == m.Count()
    ensures r.Err? ==> r.error == UnsupportedChannels(m.channels)
  {
    var px :- Encode(m.data, m.Count(), m.channels);
    Ok(Bitmap(m.cols, m.rows, px))
  }

  /** Decoding and encoding again reproduces every packed pixel exactly. */
  lemma {:induction false} DecodeThenEncode(px: seq<Pixel>)
    ensures Encode(Decode(px), |px|, 4) == Ok(px)
  {
    var bytes := Decode(px);
    var r := Encode(bytes, |px|, 4);
    forall i | 0 <= i < |px|
      ensures r.value[i] == px[i]
    {
      assert r.value[i] == EncodePixel(bytes, 4, i);
      assert i * 4 == 4 * i;
      PackOfChannels(px[i]);
    }
    assert r.value == px;
  }

  /** Encoding a 4-channel buffer and decoding the pixels again reproduces every byte. */
  lemma {:induction false} EncodeThenDecode(data: seq<Byte>, count: nat)
    requires |data| == count * 4
    ensures Encode(data, count, 4).Ok?
    ensures Decode(Encode(data, count, 4).value) == data
  {
    var px := Encode(data, count, 4).value;
    var back := Decode(px);
    forall k | 0 <= k < |data|
      ensures back[k] == data[k]
    {
      var i, c := k / 4, k % 4;
      assert k == 4 * i + c && i < count;
      assert i * 4 == 4 * i;
      assert px[i] == Pack(data[4 * i + 3], data[4 * i], data[4 * i + 1], data[4 * i + 2]) by {
        assert px[i] == EncodePixel(data, 4, i);
      }
      ChannelsOfPack(data[4 * i + 3], data[4 * i], data[4 * i + 1], data[4 * i + 2]);
      if c == 0 {
        assert back[4 * i] == Red(px[i]);
      } else if c == 1 {
        assert back[4 * i + 1] == Green(px[i]);
      } else if c == 2 {
        assert back[4 * i + 2] == Blue(px[i]);
      } else {
        assert back[4 * i + 3] == Alpha(px[i]);
      }
    }
  }

  /** At bitmap level: `matToBitmap(bitmapToMat(b))` is `b`. */
  lemma BitmapRoundTrip(b: Bitmap)
    requires b.Valid()
    ensures MatToBitmap(BitmapToMat(b)) == Ok(b)
  {
    DecodeThenEncode(b.pixels);
  }

  /** A 1-channel buffer encodes to opaque grey: alpha 255 and R = G = B = the byte. */
  lemma EncodeGray(data: seq<Byte>)
    ensures Encode(data, |data|, 1).Ok?
    ensures forall i :: 0 <= i < |data| ==>
              var p := Encode(data, |data|, 1).value[i];
              Alpha(p) == Opaque && Red(p) == data[i] && Green(p) == data[i] && Blue(p) == data[i]
  {
    forall i | 0 <= i < |data| {
      ChannelsOfPack(Opaque, data[i], data[i], data[i]);
    }
  }

  /** A 3-channel buffer keeps R, G, B and gets alpha forced to 255. */
  lemma EncodeRgb(data: seq<Byte>, count: nat)
    requires |data| == count * 3
    ensures Encode(data, count, 3).Ok?
    ensures forall i :: 0 <= i < count ==>
              var p := Encode(data, count, 3).value[i];
              && Alpha(p) == Opaque
              && Red(p) == data[3 * i] && Green(p) == data[3 * i + 1] && Blue(p) == data[3 * i + 2]
  {
    forall i | 0 <= i < count {
      ChannelsOfPack(Opaque, data[3 * i], data[3 * i + 1], data[3 * i + 2]);
    }
  }

  /** A 4-channel buffer keeps all four bytes, the fourth becoming alpha. */
  lemma EncodeRgba(data: seq<Byte>, count: nat)
    requires |data| == count * 4
    ensures Encode(data, count, 4).Ok?
    ensures forall i :: 0 <= i < count ==>
              var p := Encode(data, count, 4).value[i];
              && Red(p) == data[4 * i] && Green(p) == data[4 * i + 1]
              && Blue(p) == data[4 * i + 2] && Alpha(p) == data[4 * i + 3]
  {
    forall i | 0 <= i < count {
      ChannelsOfPack(data[4 * i + 3], data[4 * i], data[4 * i + 1], data[4 * i + 2]);
    }
  }

  /** `matToBitmap` of a 4-channel matrix: pixel `q` packs channels 0..3 of matrix
      pixel `q` as red, green, blue and alpha. */
  lemma MatToBitmapRgba(m: Mat)
    requires m.Valid() && m.channels == 4
    ensures MatToBitmap(m).Ok?
    ensures forall q :: 0 <= q < m.Count() ==>
              var px := MatToBitmap(m).value.pixels[q];
              && Red(px) == m.At(q, 0) && Green(px) == m.At(q, 1)
              && Blue(px) == m.At(q, 2) && Alpha(px) == m.At(q, 3)
  {
    EncodeRgba(m.data, m.Count());
    forall q | 0 <= q < m.Count()
      ensures q * 4 == 4 * q
    {
    }
  }
}
