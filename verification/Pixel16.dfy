/** Pixels of 16 bits per channel: what reading them in full means, and writing them (lodepng.c:3096-3136, 3379-3413). */
module Pixel16 {
  import opened Bits
  import opened Canonical
  import opened Scanlines
  import opened ColorTrees
  import opened ColorModes
  import opened ColorSamples
  import opened PixelWriting

  /** The samples of the pixel in full, in the order of the PNG specification. */
  lemma Color16IsSamples(data: seq<Byte>, i: nat, mode: ColorMode)
    requires Sixteen(mode) && i * mode.Bpp() + mode.Bpp() <= 8 * |data|
    ensures
      var c := PixelColor16(data, i, mode);
      && c.r == Channel(data, i, mode, 0)
      && (mode.colortype in {0, 4} ==> c.g == c.r && c.b == c.r)
      && (mode.colortype in {2, 6} ==> c.g == Channel(data, i, mode, 1) && c.b == Channel(data, i, mode, 2))
      && (mode.colortype == 4 ==> c.a == Channel(data, i, mode, 1)) && (mode.colortype == 6 ==> c.a == Channel(data, i, mode, 3))
  {
    hide Channel, PixelColor16;
    LargeSample(data, i, mode, 0);
    if mode.colortype != 0 { LargeSample(data, i, mode, 1); }
    if mode.colortype == 2 || mode.colortype == 6 { LargeSample(data, i, mode, 2); }
    if mode.colortype == 6 { LargeSample(data, i, mode, 3); }
    InWords(data, i, mode);
  }

  lemma InWords(data: seq<Byte>, i: nat, mode: ColorMode)
    requires Sixteen(mode) && i * mode.Bpp() + mode.Bpp() <= 8 * |data|
    ensures
      var c, n := PixelColor16(data, i, mode), Channels(mode.colortype);
      && 2 * (i * n + n) <= |data|
      && c.r == WordAt(data, 2 * (i * n))
      && (mode.colortype in {0, 4} ==> c.g == c.r && c.b == c.r)
      && (mode.colortype in {2, 6} ==> c.g == WordAt(data, 2 * (i * n + 1)) && c.b == WordAt(data, 2 * (i * n + 2)))
      && (mode.colortype == 4 ==> c.a == WordAt(data, 2 * (i * n + 1))) && (mode.colortype == 6 ==> c.a == WordAt(data, 2 * (i * n + 3)))
  {
    hide WordAt, IsKey16;
  }

  lemma Slice16(data: seq<Byte>, i: nat, mode: ColorMode, bytes: nat)
    requires Sixteen(mode) && 8 * bytes == mode.Bpp() && i * mode.Bpp() + mode.Bpp() <= 8 * |data|
    ensures i * bytes + bytes <= |data| && PixelColor16(data, i, mode) == PixelColor16(data[i * bytes..i * bytes + bytes], 0, mode)
  {
    SliceFits(i, bytes, mode.Bpp());
    if mode.colortype == 0 { assert bytes == 2 && i * bytes == 2 * i; }
    else if mode.colortype == 2 { assert bytes == 6 && i * bytes == 6 * i; }
    else if mode.colortype == 4 { assert bytes == 4 && i * bytes == 4 * i; }
    else { assert bytes == 8 && i * bytes == 8 * i; }
  }

  lemma OtherPixels16(before: seq<Byte>, now: seq<Byte>, i: nat, bytes: nat, mode: ColorMode, j: nat)
    requires Sixteen(mode) && 8 * bytes == mode.Bpp() && OnlyPixel(before, now, i, bytes) && j != i
    requires j * mode.Bpp() + mode.Bpp() <= 8 * |now|
    ensures PixelColor16(now, j, mode) == PixelColor16(before, j, mode)
  {
    hide PixelColor16;
    Slice16(now, j, mode, bytes);
    Slice16(before, j, mode, bytes);
    forall k | j * bytes <= k < j * bytes + bytes ensures now[k] == before[k] { Apart(i, j, bytes, k); }
    assert now[j * bytes..j * bytes + bytes] == before[j * bytes..j * bytes + bytes];
  }

  /** rgba16ToPixel. */
  method Rgba16ToPixel(out: array<Byte>, i: nat, mode: ColorMode, c: Rgba16)
    requires Sixteen(mode) && i * mode.Bpp() + mode.Bpp() <= 8 * out.Length
    modifies out
    ensures OnlyPixel(old(out[..]), out[..], i, mode.Bpp() / 8)
    ensures PixelColor16(out[..], i, mode) == Kept16(mode, c)
  {
    hide PixelColor16, Kept16, OnlyPixel;
    SliceFits(i, mode.Bpp() / 8, mode.Bpp());
    var r0: Byte, r1: Byte, g0: Byte, g1: Byte := c.r / 256 % 256, c.r % 256, c.g / 256 % 256, c.g % 256;
    var b0: Byte, b1: Byte, a0: Byte, a1: Byte := c.b / 256 % 256, c.b % 256, c.a / 256 % 256, c.a % 256;
    var s: seq<Byte> :=
      if mode.colortype == 0 then [r0, r1]
      else if mode.colortype == 2 then [r0, r1, g0, g1, b0, b1]
      else if mode.colortype == 4 then [r0, r1, a0, a1]
      else [r0, r1, g0, g1, b0, b1, a0, a1];
    StorePixel(out, i, s);
    Slice16(out[..], i, mode, |s|);
    WordsRead(mode, c, s);
  }

  lemma WordsRead(mode: ColorMode, c: Rgba16, s: seq<Byte>)
    requires Sixteen(mode) && 8 * |s| == mode.Bpp() && WordAt(s, 0) == c.r
    requires mode.colortype == 2 ==> WordAt(s, 2) == c.g && WordAt(s, 4) == c.b
    requires mode.colortype == 4 ==> WordAt(s, 2) == c.a
    requires mode.colortype == 6 ==> WordAt(s, 2) == c.g && WordAt(s, 4) == c.b && WordAt(s, 6) == c.a
    ensures PixelColor16(s, 0, mode) == Kept16(mode, c)
  {
  }
}
