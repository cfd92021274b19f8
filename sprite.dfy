/**
 * Pixel packing of the sprite converter (homebrew/tools/sprite.py): RGBA
 * pixels, as PIL hands them out, become 16-bit ARGB1555 or 32-bit
 * ARGB8888 words written little-endian, one after another.
 *
 * Channels are bytes; the packing expressions work on Python integers,
 * which for channels below 256 agree with the same operations on bv32.
 */
module Sprite {
  import opened Wrappers
  import opened Arith

  /** One RGBA pixel. */
  datatype Pixel = Pixel(r: bv8, g: bv8, b: bv8, a: bv8)

  /** The exception raised for a depth other than 8, 16 or 32. */
  datatype SpriteError = UnsupportedDepth(depth: int)

  /** The depth-16 expression: `(b >> 3) & 0x1F | (g << 2) & 0x3E0 | (r << 7) & 0x7C00 | (a << 8) & 0x8000`. */
  function Pack16(p: Pixel): bv32 {
    ((p.b as bv32 >> 3) & (0x1F << 0)) | ((p.g as bv32 << 2) & (0x1F << 5)) |
    ((p.r as bv32 << 7) & (0x1F << 10)) | ((p.a as bv32 << 8) & 0x8000)
  }

  /** The depth-32 expression: `b | g << 8 | r << 16 | a << 24`, each channel masked to a byte. */
  function Pack32(p: Pixel): bv32 {
    ((p.b as bv32 & 0xFF) << 0) | ((p.g as bv32 & 0xFF) << 8) |
    ((p.r as bv32 & 0xFF) << 16) | ((p.a as bv32 & 0xFF) << 24)
  }

  /** ARGB1555 by its fields: blue, green and red in bits 0-4, 5-9 and 10-14, bit 15 for a >= 128. */
  function Argb1555(p: Pixel): bv32 {
    (p.b >> 3) as bv32 | ((p.g >> 3) as bv32 << 5) | ((p.r >> 3) as bv32 << 10) |
    (if p.a >= 128 then 0x8000 else 0)
  }

  /** The depth-16 expression is the ARGB1555 layout, so it fits the 16 bits `struct.pack("<H")` accepts. */
  lemma Pack16IsArgb1555(p: Pixel)
    ensures Pack16(p) == Argb1555(p)
    ensures Pack16(p) < 0x10000
  {
  }

  /** Each depth-16 field holds the top five bits of its channel; bit 15 is set exactly when a >= 128. */
  lemma Pack16Fields(p: Pixel)
    ensures Pack16(p) & 0x1F == (p.b >> 3) as bv32
    ensures (Pack16(p) >> 5) & 0x1F == (p.g >> 3) as bv32
    ensures (Pack16(p) >> 10) & 0x1F == (p.r >> 3) as bv32
    ensures Pack16(p) & 0x8000 != 0 <==> p.a >= 128
  {
    Pack16IsArgb1555(p);
  }

  /** The pixel a depth-16 word stands for: each 5-bit field widened, the alpha bit as 0 or 0xFF. */
  function Unpack16(w: bv32): Pixel {
    Pixel((((w >> 10) & 0x1F) << 3) as bv8, (((w >> 5) & 0x1F) << 3) as bv8, ((w & 0x1F) << 3) as bv8,
      if w & 0x8000 != 0 then 0xFF else 0)
  }

  /** Every 16-bit word is the packing of the pixel it stands for. */
  lemma Pack16Onto(w: bv32)
    requires w < 0x10000
    ensures Pack16(Unpack16(w)) == w
  {
  }

  /** Packing to 16 bits keeps exactly the top five bits of each colour channel and the top bit of alpha. */
  lemma Pack16RoundTrip(p: Pixel)
    ensures Unpack16(Pack16(p)) == Pixel(p.r & 0xF8, p.g & 0xF8, p.b & 0xF8, if p.a >= 128 then 0xFF else 0)
  {
  }

  function Unpack32(w: bv32): Pixel {
    Pixel(((w >> 16) & 0xFF) as bv8, ((w >> 8) & 0xFF) as bv8, (w & 0xFF) as bv8, ((w >> 24) & 0xFF) as bv8)
  }

  /** Each byte of the depth-32 word recovers its channel exactly, and every word is some pixel's packing. */
  lemma Pack32RoundTrip(p: Pixel, w: bv32)
    ensures Unpack32(Pack32(p)) == p
    ensures Pack32(Unpack32(w)) == w
  {
  }

  /** `struct.pack("<H", w)`. */
  function Le16(w: bv32): (r: seq<bv8>)
    ensures |r| == 2
  {
    [(w & 0xFF) as bv8, ((w >> 8) & 0xFF) as bv8]
  }

  /** `struct.pack("<I", w)`. */
  function Le32(w: bv32): (r: seq<bv8>)
    ensures |r| == 4
  {
    [(w & 0xFF) as bv8, ((w >> 8) & 0xFF) as bv8, ((w >> 16) & 0xFF) as bv8, ((w >> 24) & 0xFF) as bv8]
  }

  /** `struct.unpack("<H", bs)` */
  function Le16Value(bs: seq<bv8>): bv32
    requires |bs| == 2
  {
    bs[0] as bv32 | (bs[1] as bv32 << 8)
  }

  /** `struct.unpack("<I", bs)` */
  function Le32Value(bs: seq<bv8>): bv32
    requires |bs| == 4
  {
    bs[0] as bv32 | (bs[1] as bv32 << 8) | (bs[2] as bv32 << 16) | (bs[3] as bv32 << 24)
  }

  lemma Le16RoundTrip(w: bv32)
    requires w < 0x10000
    ensures Le16Value(Le16(w)) == w
  {
  }

  lemma Le32RoundTrip(w: bv32)
    ensures Le32Value(Le32(w)) == w
  {
  }

  predicate SupportedDepth(depth: int) {
    depth == 8 || depth == 16 || depth == 32
  }

  function BytesPerPixel(depth: int): nat
    requires SupportedDepth(depth)
  {
    depth / 8
  }

  /**
   * The bytes one pixel contributes at a depth. Depth 8 applies `gray`,
   * which stands for the floating-point grey weighting of the source.
   */
  function PixelBytes(p: Pixel, depth: int, gray: Pixel -> bv8): (r: seq<bv8>)
    requires SupportedDepth(depth)
    ensures |r| == BytesPerPixel(depth)
  {
    if depth == 8 then [gray(p)]
    else if depth == 16 then Le16(Pack16(p))
    else Le32(Pack32(p))
  }

  /** `b"".join(parts)` */
  function Join(parts: seq<seq<bv8>>): seq<bv8> {
    if |parts| == 0 then [] else Join(parts[..|parts| - 1]) + parts[|parts| - 1]
  }

  /** Pieces of one length n join into n bytes per piece, piece k at bytes k*n .. k*n + n. */
  lemma {:induction false} JoinUniform(parts: seq<seq<bv8>>, n: nat)
    requires forall k :: 0 <= k < |parts| ==> |parts[k]| == n
    ensures |Join(parts)| == |parts| * n
    ensures forall k :: 0 <= k < |parts| ==> k * n + n <= |Join(parts)| && Join(parts)[k * n..k * n + n] == parts[k]
  {
    if |parts| > 0 {
      var m := |parts| - 1;
      var front := parts[..m];
      JoinUniform(front, n);
      var j := Join(parts);
      assert j == Join(front) + parts[m];
      assert |j| == m * n + n == |parts| * n;
      forall k | 0 <= k < |parts|
        ensures k * n + n <= |j| && j[k * n..k * n + n] == parts[k]
      {
        if k < m {
          MulSucc(k, n);
          MulMono(k + 1, m, n);
          assert j[k * n..k * n + n] == Join(front)[k * n..k * n + n];
        } else {
          assert j[k * n..k * n + n] == parts[m];
        }
      }
    }
  }

  /** The output `main` writes for the pixels: their bytes in order, or the exception for an unsupported depth. */
  function Encoded(pixels: seq<Pixel>, depth: int, gray: Pixel -> bv8): Result<seq<bv8>, SpriteError> {
    if SupportedDepth(depth) then Ok(Join(seq(|pixels|, k requires 0 <= k < |pixels| => PixelBytes(pixels[k], depth, gray))))
    else Err(UnsupportedDepth(depth))
  }

  /**
   * The output has 1, 2 or 4 bytes per pixel at depth 8, 16 or 32, and
   * pixel k's little-endian word sits at bytes k*n .. k*n + n.
   */
  lemma EncodedLayout(pixels: seq<Pixel>, depth: int, gray: Pixel -> bv8, k: int)
    requires SupportedDepth(depth) && 0 <= k < |pixels|
    ensures Encoded(pixels, depth, gray).Ok?
    ensures |Encoded(pixels, depth, gray).value| == |pixels| * BytesPerPixel(depth)
    ensures var n := BytesPerPixel(depth);
      k * n + n <= |Encoded(pixels, depth, gray).value|
      && Encoded(pixels, depth, gray).value[k * n..k * n + n] == PixelBytes(pixels[k], depth, gray)
  {
    var parts := seq(|pixels|, i requires 0 <= i < |pixels| => PixelBytes(pixels[i], depth, gray));
    JoinUniform(parts, BytesPerPixel(depth));
  }

  /** At depth 32 every pixel reads back exactly from its four output bytes. */
  lemma Depth32Decodes(pixels: seq<Pixel>, gray: Pixel -> bv8, k: int)
    requires 0 <= k < |pixels|
    ensures 4 * k + 4 <= |Encoded(pixels, 32, gray).value|
    ensures Unpack32(Le32Value(Encoded(pixels, 32, gray).value[4 * k..4 * k + 4])) == pixels[k]
  {
    EncodedLayout(pixels, 32, gray, k);
    assert k * 4 == 4 * k;
    Le32RoundTrip(Pack32(pixels[k]));
    Pack32RoundTrip(pixels[k], 0);
  }

  /** At depth 16 every pixel's packed word reads back from its two output bytes. */
  lemma Depth16Decodes(pixels: seq<Pixel>, gray: Pixel -> bv8, k: int)
    requires 0 <= k < |pixels|
    ensures 2 * k + 2 <= |Encoded(pixels, 16, gray).value|
    ensures Le16Value(Encoded(pixels, 16, gray).value[2 * k..2 * k + 2]) == Pack16(pixels[k])
  {
    EncodedLayout(pixels, 16, gray, k);
    assert k * 2 == 2 * k;
    Pack16IsArgb1555(pixels[k]);
    Le16RoundTrip(Pack16(pixels[k]));
  }

  /** The conversion loop of `main`: one packed piece per pixel into `outdata`, then joined. */
  method Convert(pixels: seq<Pixel>, depth: int, gray: Pixel -> bv8) returns (r: Result<seq<bv8>, SpriteError>)
    ensures r == Encoded(pixels, depth, gray)
    ensures r.Err? <==> !SupportedDepth(depth)
    ensures r.Err? ==> r.error == UnsupportedDepth(depth)
    ensures r.Ok? ==> |r.value| == |pixels| * BytesPerPixel(depth)
  {
    if !SupportedDepth(depth) {
      return Err(UnsupportedDepth(depth));
    }
    var outdata: seq<seq<bv8>> := [];
    for i := 0 to |pixels|
      invariant outdata == seq(i, k requires 0 <= k < i => PixelBytes(pixels[k], depth, gray))
    {
      var p := pixels[i];
      var piece: seq<bv8>;
      if depth == 8 {
        piece := [gray(p)];
      } else if depth == 16 {
        piece := Le16(Pack16(p));
      } else {
        piece := Le32(Pack32(p));
      }
      outdata := outdata + [piece];
    }
    JoinUniform(outdata, BytesPerPixel(depth));
    r := Ok(Join(outdata));
  }
}
