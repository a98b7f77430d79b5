/**
 * From the pixels of a raw image to a PNG's compressed scanlines and back: choice of a color type, conversion, filtering,
 * compression, and what the decoder reads (lodepng.c:4585-4626, 5567-5625).
 */
module PngPixels {
  import opened Bits
  import opened Canonical
  import opened Memory
  import opened PixelBits
  import opened FilterCosts
  import opened ImageFilter
  import opened Scanlines
  import opened Streams
  import opened ColorTrees
  import opened ColorModes
  import opened ColorSamples
  import opened ColorKeys
  import opened Profiles
  import opened ColorChoice
  import opened Palettes
  import opened PixelWriting
  import opened Pixel16
  import opened Conversion
  import opened PngImage

  // ---- Pixels are their bits ----

  lemma SameByte(a: seq<Byte>, b: seq<Byte>, n: nat, k: nat)
    requires n <= 8 * |a| && n <= 8 * |b| && BitsOf(a)[..n] == BitsOf(b)[..n] && 8 * k + 8 <= n
    ensures a[k] == b[k]
  {
    hide BitsOf;
    ByteSample(a, k);
    ByteSample(b, k);
    assert BitsOf(a)[..n][8 * k..8 * k + 8] == BitsOf(a)[8 * k..8 * k + 8];
    assert BitsOf(b)[..n][8 * k..8 * k + 8] == BitsOf(b)[8 * k..8 * k + 8];
  }

  /** Images that agree on the bits of a pixel agree on its color. */
  lemma SamePixel(a: seq<Byte>, b: seq<Byte>, n: nat, i: nat, mode: ColorMode)
    requires mode.Valid() && n <= 8 * |a| && n <= 8 * |b| && BitsOf(a)[..n] == BitsOf(b)[..n] && i * mode.Bpp() + mode.Bpp() <= n
    ensures PixelColor(a, i, mode) == PixelColor(b, i, mode)
    ensures mode.bitdepth == 16 ==> PixelColor16(a, i, mode) == PixelColor16(b, i, mode)
  {
    hide PixelColor, PixelColor16, BitsOf;
    if mode.Bpp() <= 8 {
      SmallPixel(a, b, n, i, mode);
    } else {
      var bytes := mode.Bpp() / 8;
      SlicePixel(a, i, mode, bytes);
      SlicePixel(b, i, mode, bytes);
      SameBytes(a, b, n, i, mode.Bpp(), bytes);
      if mode.bitdepth == 16 {
        Slice16(a, i, mode, bytes);
        Slice16(b, i, mode, bytes);
      }
    }
  }

  lemma SameBytes(a: seq<Byte>, b: seq<Byte>, n: nat, i: nat, bpp: nat, bytes: nat)
    requires n <= 8 * |a| && n <= 8 * |b| && BitsOf(a)[..n] == BitsOf(b)[..n] && i * bpp + bpp <= n && bpp == 8 * bytes
    ensures i * bytes + bytes <= |a| && i * bytes + bytes <= |b| && a[i * bytes..i * bytes + bytes] == b[i * bytes..i * bytes + bytes]
  {
    hide BitsOf;
    SliceFits(i, bytes, bpp);
    var start := i * bytes;
    assert 8 * start + 8 * bytes == i * bpp + bpp;
    forall k | start <= k < start + bytes ensures a[k] == b[k] { SameByte(a, b, n, k); }
  }

  lemma SmallPixel(a: seq<Byte>, b: seq<Byte>, n: nat, i: nat, mode: ColorMode)
    requires mode.Valid() && mode.Bpp() <= 8 && n <= 8 * |a| && n <= 8 * |b| && BitsOf(a)[..n] == BitsOf(b)[..n]
    requires i * mode.Bpp() + mode.Bpp() <= n
    ensures PixelColor(a, i, mode) == PixelColor(b, i, mode)
  {
    hide BitsOf, CodeValue, SmallColor;
    SmallDepths(mode);
    var at := i * mode.bitdepth;
    if mode.bitdepth == 8 {
      SameByte(a, b, n, i);
    } else {
      assert BitsOf(a)[..n][at..at + mode.bitdepth] == BitsOf(a)[at..at + mode.bitdepth];
      assert BitsOf(b)[..n][at..at + mode.bitdepth] == BitsOf(b)[at..at + mode.bitdepth];
    }
  }

  // ---- The pipeline ----

  function InfoOf(mode: ColorMode, interlace_method: nat): PngInfo { PngInfo(mode.colortype, mode.bitdepth, interlace_method) }

  /** What the settings must be for an image of w times h pixels in a mode to be written and read again: its errors in their order. */
  function SettingsError(mode: ColorMode, w: nat, h: nat, interlace_method: nat, settings: FilterSettings, zlibsettings: CompressSettings): nat {
    var info := InfoOf(mode, interlace_method);
    if zlibsettings.btype > 2 then 61
    else if interlace_method > 1 then 71
    else if StrategyFor(info, settings) == UnknownStrategy then 88
    else if DeflateError(zlibsettings, StreamSize(w, h, mode.Bpp(), interlace_method)) != 0 then
      DeflateError(zlibsettings, StreamSize(w, h, mode.Bpp(), interlace_method))
    else if StrategyFor(info, settings) == Predefined && !PredefinedLegal(settings.predefined_filters, w, h, interlace_method) then 36
    else 0
  }

  lemma SameAsDecoded(raw: seq<Byte>, result: seq<Byte>, mode_out: ColorMode, data: seq<Byte>, mode_in: ColorMode, count: nat, n: nat)
    requires mode_out.Valid() && mode_in.Valid() && n == RowAt(count, mode_out.Bpp())
    requires n <= 8 * |raw| && n <= 8 * |result| && BitsOf(raw)[..n] == BitsOf(result)[..n]
    ensures SameColors(raw, mode_out, data, mode_in, count) <==> SameColors(result, mode_out, data, mode_in, count)
    ensures mode_out.bitdepth == 16 == mode_in.bitdepth ==>
      (SameColors16(raw, mode_out, data, mode_in, count) <==> SameColors16(result, mode_out, data, mode_in, count))
  {
    hide PixelColor, PixelColor16, BitsOf;
    forall i: nat | i < count
      ensures SameColor(raw, mode_out, data, mode_in, i) <==> SameColor(result, mode_out, data, mode_in, i)
      ensures mode_out.bitdepth == 16 == mode_in.bitdepth ==>
        (SameColor16(raw, mode_out, data, mode_in, i) <==> SameColor16(result, mode_out, data, mode_in, i))
    {
      PixelInside(i, count, mode_out.Bpp());
      SamePixel(raw, result, n, i, mode_out);
    }
  }

  /**
   * An image of any size and mode: a color type is chosen, the pixels are converted to it, filtered and compressed; decompressed
   * and unfiltered, every pixel reads as its color in the original exactly if a palette was chosen or the image is one for which
   * the other modes lose nothing.
   */
  method EncodeDecodePixels(data: seq<Byte>, w: nat, h: nat, mode_in: ColorMode, interlace_method: nat, settings: FilterSettings,
                            zlibsettings: CompressSettings, ignore_adler32: bool)
    returns (error: nat, palette_ok: bool, mode_out: ColorMode, result: array<Byte>)
    requires w > 0 && h > 0 && mode_in.Valid() && HasPixels(data, w * h, mode_in.Bpp())
    requires settings.strategy == Predefined ==> h <= |settings.predefined_filters|
    ensures mode_out.Valid() && error == SettingsError(mode_out, w, h, interlace_method, settings, zlibsettings)
    ensures error == 0 && mode_out.bitdepth <= 8 ==>
      (SameColors(result[..], mode_out, data, mode_in, w * h) <==> palette_ok || Kept(Colors(data, w * h, mode_in), mode_in.Bpp()))
    ensures error == 0 && mode_out.bitdepth == 16 ==>
      mode_in.bitdepth == 16 && (SameColors16(result[..], mode_out, data, mode_in, w * h) <==> KeptInFull(Colors16(data, w * h, mode_in)))
  {
    hide HasPixels, SameColors, SameColors16, Kept, KeptInFull, PaletteChosen, TrulySixteenBits, BitsOf, StreamSize, DeflateError,
         PredefinedLegal;
    var raw;
    palette_ok, mode_out, raw := AutoConvert(data, w * h, mode_in);
    result := raw;
    var info := InfoOf(mode_out, interlace_method);
    if zlibsettings.btype > 2 { error := 61; return; }
    if interlace_method > 1 { error := 71; return; }
    if StrategyFor(info, settings) == UnknownStrategy { error := 88; return; }
    error := DeflateError(zlibsettings, StreamSize(w, h, BitsPerPixel(info), interlace_method));
    if error != 0 { return; }
    error, result := ImageRoundTrip(raw, w, h, info, settings, zlibsettings, ignore_adler32);
    if error == 0 { SameAsDecoded(raw[..], result[..], mode_out, data, mode_in, w * h, RowAt(RowAt(h, w), mode_out.Bpp())); }
  }
}
