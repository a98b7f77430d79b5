/** Images for which the automatic choice of a color type or a conversion loses a pixel; the conditions are in the contracts. */
module ColorFindings {
  import opened Bits
  import opened PrefixCode
  import opened ColorTrees
  import opened ColorKeys
  import opened ColorModes
  import opened Profiles
  import opened ColorChoice
  import opened Palettes
  import opened Conversion

  /** No image of the mode has pixel k of the other image's color. */
  lemma NothingShows(mode: ColorMode, c: Rgba)
    requires mode.Valid() && mode.bitdepth <= 8 && !CanShow(mode, c)
    ensures forall out: seq<Byte>, i: nat :: i * mode.Bpp() + mode.Bpp() <= 8 * |out| ==> PixelColor(out, i, mode) != c
  {
    hide CanShow, PixelColor;
    forall out: seq<Byte>, i: nat | i * mode.Bpp() + mode.Bpp() <= 8 * |out| ensures PixelColor(out, i, mode) != c {
      OnlyShown(out, i, mode);
    }
  }

  // ---- A key that an opaque pixel has ----

  const TrueColor: ColorMode := ColorMode(6, 8, [], false, 0, 0, 0)

  /** Sixteen opaque pixels and a transparent one, which has the color of the first. */
  function Seventeen(): (s: seq<Rgba>)
    ensures |s| == 17 && s[16] == Rgba(0, 0, 1, 0) && forall k :: 0 <= k < 16 ==> s[k] == Rgba(k, 0, 1, 255)
  {
    seq(16, k requires 0 <= k < 16 => Rgba(k, 0, 1, 255)) + [Rgba(0, 0, 1, 0)]
  }

  function Bytes(s: seq<Rgba>): (data: seq<Byte>)
    ensures |data| == 4 * |s|
  {
    if s == [] then [] else Bytes(s[..|s| - 1]) + [s[|s| - 1].r, s[|s| - 1].g, s[|s| - 1].b, s[|s| - 1].a]
  }

  lemma {:induction false} BytesShow(s: seq<Rgba>, n: nat)
    requires n <= |s|
    ensures HasPixels(Bytes(s), n, 32) && Colors(Bytes(s), n, TrueColor) == s[..n]
  {
    if n > 0 {
      BytesShow(s, n - 1);
      PixelOfBytes(s, n - 1);
    }
  }

  lemma {:induction false} PixelOfBytes(s: seq<Rgba>, k: nat)
    requires k < |s|
    ensures k * 32 + 32 <= 8 * |Bytes(s)| && PixelColor(Bytes(s), k, TrueColor) == s[k]
  {
    if k < |s| - 1 {
      PixelOfBytes(s[..|s| - 1], k);
      var front, data := Bytes(s[..|s| - 1]), Bytes(s);
      assert forall j :: 0 <= j < |front| ==> data[j] == front[j];
    }
  }

  lemma FirstIsLost(bpp: nat)
    ensures !Kept(Seventeen(), bpp)
  {
    hide Seventeen;
    var s := Seventeen();
    assert FirstClear(s, 16) && SameRgb(s[0], s[16]);
    forall f: nat ensures FirstClear(s, f) ==> f == 16 { if FirstClear(s, f) { ClearOnce(s, f, 16); } }
    forall k: nat ensures !Partly(s, k) {}
    assert !NeedsAlpha(s);
  }

  lemma ManyColors(bpp: nat)
    ensures !PaletteChosen(Seventeen(), bpp)
  {
    hide Seventeen;
    var s := Seventeen();
    assert forall i, j :: 0 <= i < j < |s| ==> s[i] != s[j];
    SetOfColors(s);
  }

  /**
   * An image with 8-bit alpha channel gets a mode that cannot show one of its pixels: the opaque pixel is compared with
   * the key before there is one (lodepng.c:3617-3636).
   */
  method OpaqueBecomesKey() returns (mode_out: ColorMode, data: seq<Byte>)
    ensures mode_out.Valid() && mode_out.bitdepth <= 8 && HasPixels(data, 17, 32)
    ensures exists k :: 0 <= k < 17 && !CanShow(mode_out, Colors(data, 17, TrueColor)[k])
  {
    hide Seventeen, Kept, PaletteChosen, CanShow, Chosen, Suits, Bytes;
    data := Bytes(Seventeen());
    BytesShow(Seventeen(), 17);
    assert Seventeen()[..17] == Seventeen();
    FirstIsLost(32);
    ManyColors(32);
    var palette_ok;
    palette_ok, mode_out := AutoChooseColor(data, 17, TrueColor);
  }

  // ---- Grey levels in a palette ----

  const GreyPalette: ColorMode := ColorMode(3, 1, [Rgba(100, 100, 100, 255), Rgba(200, 200, 200, 255)], false, 0, 0, 0)

  lemma GreyPixel(data: seq<Byte>)
    requires |data| == 1
    ensures HasPixels(data, 1, 1) && |Colors(data, 1, GreyPalette)| == 1
    ensures Colors(data, 1, GreyPalette)[0] in {Rgba(100, 100, 100, 255), Rgba(200, 200, 200, 255)}
  {
    hide PixelValue;
    ColorAt(data, 1, GreyPalette, 0);
  }

  lemma GreyIsLost(s: seq<Rgba>)
    requires |s| == 1 && s[0] in {Rgba(100, 100, 100, 255), Rgba(200, 200, 200, 255)}
    ensures !Kept(s, 1) && !PaletteChosen(s, 1)
  {
    GreyChosen(s);
    SetOfColors(s);
  }

  /**
   * One pixel of a grey palette image of one bit gets a one-bit grey mode, in which there is only black and white: no
   * more bits are asked for than the input has (lodepng.c:3599-3605).
   */
  method GreyPaletteLost(data: seq<Byte>) returns (mode_out: ColorMode)
    requires |data| == 1
    ensures mode_out.Valid() && mode_out.colortype == 0 && mode_out.bitdepth == 1
    ensures HasPixels(data, 1, 1) && !CanShow(mode_out, Colors(data, 1, GreyPalette)[0])
  {
    hide Kept, PaletteChosen, CanShow, Suits, PixelColor;
    GreyPixel(data);
    var s := Colors(data, 1, GreyPalette);
    GreyIsLost(s);
    var palette_ok;
    palette_ok, mode_out := AutoChooseColor(data, 1, GreyPalette);
    GreyChosen(s);
  }

  lemma GreyChosen(s: seq<Rgba>)
    requires |s| == 1 && s[0] in {Rgba(100, 100, 100, 255), Rgba(200, 200, 200, 255)}
    ensures !UsesAlpha(s) && !Colorful(s) && ScanBits(s, 1) == 1
  {
    forall f: nat ensures !FirstClear(s, f) {}
    forall k: nat ensures !Partly(s, k) {}
    assert s[..0] == [] && ScanBits([], 1) == 1;
  }

  // ---- A color that the palette lacks ----

  const RedGreenBlue: ColorMode := ColorMode(2, 8, [], false, 0, 0, 0)

  const BlackOnly: ColorMode := ColorMode(3, 8, [Rgba(0, 0, 0, 255)], false, 0, 0, 0)

  lemma RedPixel()
    ensures HasPixels([255, 0, 0], 1, 24) && PixelColor([255, 0, 0], 0, RedGreenBlue) == Rgba(255, 0, 0, 255)
    ensures BlackOnly.Valid() && !CanShow(BlackOnly, Rgba(255, 0, 0, 255))
  {
  }

  /**
   * A red pixel converted to a palette of black: error 82 is dropped, nothing is reported, and whatever the memory held, the
   * pixel is not red (lodepng.c:3054-3060, 3464-3466, 3475).
   */
  method MissingColor(out: array<Byte>)
    requires out.Length == 1
    modifies out
    ensures !SameColors(out[..], BlackOnly, [255, 0, 0], RedGreenBlue, 1)
  {
    hide PixelColor, CanShow;
    RedPixel();
    Convert(out, [255, 0, 0], BlackOnly, RedGreenBlue, 1);
    NothingShows(BlackOnly, Rgba(255, 0, 0, 255));
    assert PixelColor(out[..], 0, BlackOnly) != Rgba(255, 0, 0, 255);
    assert !SameColor(out[..], BlackOnly, [255, 0, 0], RedGreenBlue, 0);
  }
}
