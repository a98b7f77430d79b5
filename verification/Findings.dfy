/** Inputs for which lodepng.c fails; the exact conditions are in the contracts of the methods called here. */
module Findings {
  import opened Bits
  import opened Lz77
  import opened Inflate
  import opened Compressor
  import opened Streams
  import opened FilterCosts
  import opened ImageFilter
  import opened Scanlines
  import opened Memory

  // ---- Deflate ----

  /** Without LZ77 the second dynamic block is written behind the end of its buffer (lodepng.c:1768-1771). */
  method SecondBlockOutOfBounds(lz: Settings) returns (error: nat)
    ensures error == OUT_OF_BOUNDS
  {
    var data: seq<Byte> := Copies(0, 65536);
    ghost var blocks, bp;
    var out;
    error, out, blocks, bp := DeflateStream(data, CompressSettings(2, false, lz));
  }

  lemma OutOfBoundsExactly(settings: CompressSettings, insize: nat)
    ensures DeflateError(settings, insize) == OUT_OF_BOUNDS <==> settings.btype == 2 && !settings.use_lz77 && insize > 65535
  {
  }

  /** What stored mode writes for empty input is an empty stream, which the decompressor refuses (lodepng.c:1636-1638, 1245). */
  method StoredNothing(use_lz77: bool, lz: Settings) returns (error: nat)
    ensures error == 52
  {
    ghost var blocks, bp;
    var out;
    error, out, blocks, bp := DeflateStream([], CompressSettings(0, use_lz77, lz));
    var decoder := new Inflator(out);
    error := decoder.InflateStream();
  }

  // ---- Scanlines ----

  /** One gray pixel with the predefined filter type 5 is written and then refused (lodepng.c:5267-5276, 3946). */
  method PredefinedFive() returns (error: nat)
    ensures error == 36
  {
    hide RowAt;
    var image := new Byte[1](_ => 0);
    var info, settings := PngInfo(0, 8, 0), FilterSettings(Predefined, false, [5]);
    var result;
    ghost var types;
    OnePixel();
    FiveIsIllegal();
    error, result, types := ScanlineRoundTrip(image, 1, 1, info, settings);
  }

  lemma OnePixel()
    ensures RowAt(RowAt(1, 1), 8) == 8
  {
  }

  lemma FiveIsIllegal()
    ensures !LegalPrefix([5], 1)
  {
    var five: seq<Byte> := [5];
    assert five[..1][0] == 5;
  }
}
