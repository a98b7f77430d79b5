/** Pixels through filtering and zlib and back: the core of encoding and of decodeGeneric (lodepng.c:4585-4626, 5418-5503). */
module PngImage {
  import opened Bits
  import opened Memory
  import opened PixelBits
  import opened Filters
  import opened FilterCosts
  import opened ImageFilter
  import opened Interlace
  import opened Adam7
  import opened Scanlines
  import opened Streams
  import opened Zlib

  /** The size of the scanlines as the decoder predicts it before it decompresses. */
  method PredictSize(w: nat, h: nat, bpp: nat, interlace_method: nat) returns (predict: nat)
    requires w > 0 && h > 0
    ensures predict == StreamSize(w, h, bpp, interlace_method)
  {
    hide RawSizeIdat, RowAt, LineBytes, FilterStart;
    if interlace_method == 0 {
      predict := RawSizeIdat(w, h, bpp) + h;
      SizeOfPass(w, h, bpp);
    } else {
      predict := RawSizeIdat((w + 7) / 8, (h + 7) / 8, bpp) + (h + 7) / 8;
      if w > 4 { predict := predict + RawSizeIdat((w + 3) / 8, (h + 7) / 8, bpp) + (h + 7) / 8; }
      predict := predict + RawSizeIdat((w + 3) / 4, (h + 3) / 8, bpp) + (h + 3) / 8;
      if w > 2 { predict := predict + RawSizeIdat((w + 1) / 4, (h + 3) / 4, bpp) + (h + 3) / 4; }
      predict := predict + RawSizeIdat((w + 1) / 2, (h + 1) / 4, bpp) + (h + 1) / 4;
      if w > 1 { predict := predict + RawSizeIdat((w + 0) / 2, (h + 1) / 2, bpp) + (h + 1) / 2; }
      predict := predict + RawSizeIdat(w, h / 2, bpp) + h / 2;
      PredictionIsExact(w, h, bpp);
    }
  }

  /** There is at least one filter type byte. */
  lemma StreamNotEmpty(w: nat, h: nat, bpp: nat, interlace_method: nat)
    requires w > 0 && h > 0
    ensures StreamSize(w, h, bpp, interlace_method) > 0
  {
    hide RawSizeIdat, RowAt, LineBytes, FilterStart;
    if interlace_method == 0 {
      SizeOfPass(w, h, bpp);
    } else {
      PredictionIsExact(w, h, bpp);
    }
  }

  /** Error 91: the decompressed size is not the predicted one. */
  function SizeError(size: nat, predict: nat): nat { if size != predict then 91 else 0 }

  /**
   * An image of any size, color type, interlace method, filter strategy and compression settings: filtered, compressed,
   * decompressed, checked against the predicted size and unfiltered, it is the image again, unless a predefined filter
   * type is above 4, which is error 36. Error 91, a wrong size, does not occur.
   */
  method ImageRoundTrip(image: array<Byte>, w: nat, h: nat, info: PngInfo, settings: FilterSettings, zlibsettings: CompressSettings,
                        ignore_adler32: bool)
    returns (error: nat, result: array<Byte>)
    requires w > 0 && h > 0 && CheckColorValidity(info.colortype, info.bitdepth) == 0
    requires RowAt(RowAt(h, w), BitsPerPixel(info)) <= 8 * image.Length
    requires StrategyFor(info, settings) != UnknownStrategy
    requires StrategyFor(info, settings) == Predefined ==> h <= |settings.predefined_filters|
    requires DeflateError(zlibsettings, StreamSize(w, h, BitsPerPixel(info), info.interlace_method)) == 0
    ensures error == 0 || error == 36
    ensures error == 0 <==>
      (StrategyFor(info, settings) == Predefined ==> PredefinedLegal(settings.predefined_filters, w, h, info.interlace_method))
    ensures error == 0 ==>
      var n := RowAt(RowAt(h, w), BitsPerPixel(info));
      n <= 8 * result.Length && BitsOf(result[..])[..n] == BitsOf(image[..])[..n]
  {
    hide BitsOf, RowAt, InForce, StreamSize, AllZero, CheckColorValidity, BitsPerPixel, PixelDepth, AllLegal, Encoded, Decoded,
         TypesUsed, DeflateError, PredefinedLegal;
    ValidColorDepth(info);
    var bpp := BitsPerPixel(info);
    var scanlines;
    ghost var p, q, types;
    error, scanlines, p, types := PreProcessScanlines(image, w, h, info, settings);
    StreamNotEmpty(w, h, bpp, info.interlace_method);
    var decompressed;
    error, decompressed := ZlibRoundTrip(scanlines[..], zlibsettings, ignore_adler32);
    result := new Byte[(w * h * bpp + 7) / 8](_ => 0);
    RawSize(w, h, bpp);
    ZeroMemory(result[..]);
    var predict := PredictSize(w, h, bpp, info.interlace_method);
    error := SizeError(|decompressed|, predict);
    if error == 0 {
      var inp := new Byte[|decompressed|](i requires 0 <= i < |decompressed| => decompressed[i]);
      assert inp[..] == scanlines[..];
      UsedTypes(types, w, h, info.interlace_method, StrategyFor(info, settings), settings.predefined_filters);
      ghost var encoded := scanlines[..];
      error, q := PostProcessScanlines(result, inp, w, h, info);
      EncodeDecode(BitsOf(image[..]), BitsOf(result[..]), encoded, error == 0, p, q, types, w, h, bpp, info.interlace_method);
      if StrategyFor(info, settings) == Predefined {
        LegalIfPredefined(types, settings.predefined_filters, w, h, info.interlace_method);
      }
    }
  }
}
