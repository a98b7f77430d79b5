/** What a pixel is in terms of its samples: one number per channel, in the order of the PNG specification (section 7.2; lodepng.c:3138-3241). */
module ColorSamples {
  import opened Bits
  import opened Canonical
  import opened WordBits
  import opened PixelBits
  import opened Scanlines
  import opened ColorTrees
  import opened ColorModes

  /** Channel ch of pixel i: the number in its bits, most significant first. */
  function Channel(data: seq<Byte>, i: nat, mode: ColorMode, ch: nat): nat
    requires mode.Valid() && i * mode.Bpp() + mode.Bpp() <= 8 * |data| && ch < Channels(mode.colortype)
  {
    ChannelInside(mode, ch);
    var at := i * mode.Bpp() + ch * mode.bitdepth;
    CodeValue(BitsOf(data)[at..at + mode.bitdepth])
  }

  lemma ChannelInside(mode: ColorMode, ch: nat)
    requires ch < Channels(mode.colortype)
    ensures ch * mode.bitdepth + mode.bitdepth <= mode.Bpp()
  {
    TimesPlusOne(ch, mode.bitdepth);
    MulMonotone(ch + 1, Channels(mode.colortype), mode.bitdepth);
  }

  /** The byte for a channel value: scaled to 255, and of 16 bits the upper eight. */
  predicate Shade(v: nat, bits: nat, c: Byte) {
    if bits == 16 then c == v / 256 else c * (Pow2(bits) - 1) == 255 * v
  }

  // ---- Samples of whole bytes ----

  lemma ByteSample(data: seq<Byte>, k: nat)
    requires k < |data|
    ensures CodeValue(BitsOf(data)[8 * k..8 * k + 8]) == data[k]
  {
    hide CodeValue, CodeBits, BitsOf;
    PartOfByte(data, k, 0, 8);
    ByteBound(data[k]);
    CodeValueOfCodeBits(data[k], 8);
    assert CodeBits(data[k], 8)[0..8] == CodeBits(data[k], 8);
  }

  lemma WordSample(data: seq<Byte>, k: nat)
    requires k + 1 < |data|
    ensures CodeValue(BitsOf(data)[8 * k..8 * k + 16]) == 256 * data[k] as int + data[k + 1]
  {
    hide CodeValue, BitsOf;
    ByteSample(data, k);
    ByteSample(data, k + 1);
    var s := BitsOf(data);
    assert s[8 * k..8 * k + 16] == s[8 * k..8 * k + 8] + s[8 * k + 8..8 * k + 16];
    CodeValueConcat(s[8 * k..8 * k + 8], s[8 * k + 8..8 * k + 16]);
    EightBits();
  }

  lemma SmallSample(data: seq<Byte>, i: nat, mode: ColorMode)
    requires mode.Valid() && mode.Bpp() <= 8 && i * mode.Bpp() + mode.Bpp() <= 8 * |data|
    ensures mode.Bpp() == mode.bitdepth && (Partial(mode.bitdepth) || mode.bitdepth == 8)
    ensures Channels(mode.colortype) == 1 && Channel(data, i, mode, 0) == PixelValue(data, i, mode.bitdepth)
  {
    hide CodeValue;
    SmallDepths(mode);
    if mode.bitdepth == 8 { ByteSample(data, i); }
  }

  /** Channel ch of pixel i is in byte c * i + ch, or in two bytes from 2 * (c * i + ch) on, for c channels. */
  lemma LargeSample(data: seq<Byte>, i: nat, mode: ColorMode, ch: nat)
    requires mode.Valid() && (mode.bitdepth == 8 || mode.bitdepth == 16)
    requires i * mode.Bpp() + mode.Bpp() <= 8 * |data| && ch < Channels(mode.colortype)
    ensures
      var at := i * Channels(mode.colortype) + ch;
      if mode.bitdepth == 8 then at < |data| && Channel(data, i, mode, ch) == data[at]
      else 2 * at + 1 < |data| && Channel(data, i, mode, ch) == 256 * data[2 * at] as int + data[2 * at + 1]
  {
    hide CodeValue, BitsOf, Channel, Channels;
    var n := Channels(mode.colortype);
    var at := i * n + ch;
    PlaceOf(i, n, mode.bitdepth, ch);
    ChannelIs(data, i, mode, ch, at * mode.bitdepth);
    if mode.bitdepth == 8 { ByteSample(data, at); } else { WordSample(data, 2 * at); }
  }

  lemma PlaceOf(i: nat, n: nat, bits: nat, ch: nat)
    ensures i * (n * bits) + ch * bits == (i * n + ch) * bits
  {
    assert i * (n * bits) == (i * n) * bits;
  }

  lemma ChannelIs(data: seq<Byte>, i: nat, mode: ColorMode, ch: nat, at: nat)
    requires mode.Valid() && i * mode.Bpp() + mode.Bpp() <= 8 * |data| && ch < Channels(mode.colortype)
    requires at == i * mode.Bpp() + ch * mode.bitdepth
    ensures at + mode.bitdepth <= 8 * |data| && Channel(data, i, mode, ch) == CodeValue(BitsOf(data)[at..at + mode.bitdepth])
  {
    ChannelInside(mode, ch);
  }

  lemma SmallShade(v: nat, bits: nat)
    requires (Partial(bits) || bits == 8) && v < Pow2(bits)
    ensures Shade(v, bits, GreyLevel(v, bits))
  {
    hide Pow2;
    TwoLevels(bits);
    EightBits();
    if bits != 8 { ScaledExactly(v, bits); }
  }

  lemma ScaledExactly(v: nat, bits: nat)
    requires Partial(bits) && v < Pow2(bits) && Pow2(bits) >= 2
    ensures Scaled(v, Pow2(bits) - 1) * (Pow2(bits) - 1) == 255 * v
  {
    assert Pow2(1) == 2 && Pow2(2) == 4 && Pow2(4) == 16;
    hide Pow2;
    DivUnique(v * 255, Pow2(bits) - 1, if bits == 1 then 255 * v else if bits == 2 then 85 * v else 17 * v, 0);
  }

  lemma HighByte(high: Byte, low: Byte)
    ensures Shade(256 * high as int + low, 16, high)
  {
  }

  lemma WholeByte(v: Byte)
    ensures Shade(v, 8, v)
  {
    EightBits();
  }

  // ---- Colors ----

  /** A grey pixel: one sample, transparent if it is the key. */
  lemma GreyIsSample(data: seq<Byte>, i: nat, mode: ColorMode)
    requires mode.Valid() && i * mode.Bpp() + mode.Bpp() <= 8 * |data| && mode.colortype == 0
    ensures
      var c, v := PixelColor(data, i, mode), Channel(data, i, mode, 0);
      Shade(v, mode.bitdepth, c.r) && c.g == c.r && c.b == c.r && c.a == if mode.key_defined && v == mode.key_r then 0 else 255
  {
    hide Channel, PixelValue, GreyLevel, Shade;
    if mode.Bpp() <= 8 {
      SmallSample(data, i, mode);
      SmallShade(PixelValue(data, i, mode.bitdepth), mode.bitdepth);
    } else {
      LargeSample(data, i, mode, 0);
      HighByte(data[2 * i], data[2 * i + 1]);
    }
  }

  /** A palette pixel: one sample, the index of its color; black beyond the palette. */
  lemma PaletteIsSample(data: seq<Byte>, i: nat, mode: ColorMode)
    requires mode.Valid() && i * mode.Bpp() + mode.Bpp() <= 8 * |data| && mode.colortype == 3
    ensures
      var v := Channel(data, i, mode, 0);
      PixelColor(data, i, mode) == if v < |mode.palette| then mode.palette[v] else Rgba(0, 0, 0, 255)
  {
    hide Channel, PixelValue, GreyLevel;
    SmallSample(data, i, mode);
  }

  /** A true color pixel: red, green, blue; transparent if they are the key. */
  lemma RgbIsSamples(data: seq<Byte>, i: nat, mode: ColorMode)
    requires mode.Valid() && i * mode.Bpp() + mode.Bpp() <= 8 * |data| && mode.colortype == 2
    ensures
      var c, red, green, blue := PixelColor(data, i, mode), Channel(data, i, mode, 0), Channel(data, i, mode, 1), Channel(data, i, mode, 2);
      && Shade(red, mode.bitdepth, c.r) && Shade(green, mode.bitdepth, c.g) && Shade(blue, mode.bitdepth, c.b)
      && c.a == if mode.key_defined && red == mode.key_r && green == mode.key_g && blue == mode.key_b then 0 else 255
  {
    hide Channel, PixelValue, SmallColor, Shade;
    LargeSample(data, i, mode, 0);
    LargeSample(data, i, mode, 1);
    LargeSample(data, i, mode, 2);
    LargeShades(data, mode, i, 0);
    LargeShades(data, mode, i, 1);
    LargeShades(data, mode, i, 2);
  }

  lemma LargeShades(data: seq<Byte>, mode: ColorMode, i: nat, ch: nat)
    requires mode.Valid() && (mode.bitdepth == 8 || mode.bitdepth == 16)
    requires i * mode.Bpp() + mode.Bpp() <= 8 * |data| && ch < Channels(mode.colortype)
    ensures
      var at := i * Channels(mode.colortype) + ch;
      && (if mode.bitdepth == 8 then at else 2 * at) < |data|
      && Shade(Channel(data, i, mode, ch), mode.bitdepth, data[if mode.bitdepth == 8 then at else 2 * at])
  {
    hide Channel, Shade;
    LargeSample(data, i, mode, ch);
    var at := i * Channels(mode.colortype) + ch;
    if mode.bitdepth == 8 { WholeByte(data[at]); } else { HighByte(data[2 * at], data[2 * at + 1]); }
  }

  /** Grey with alpha: the grey sample, then alpha. */
  lemma GreyAlphaIsSamples(data: seq<Byte>, i: nat, mode: ColorMode)
    requires mode.Valid() && i * mode.Bpp() + mode.Bpp() <= 8 * |data| && mode.colortype == 4
    ensures
      var c := PixelColor(data, i, mode);
      && Shade(Channel(data, i, mode, 0), mode.bitdepth, c.r) && c.g == c.r && c.b == c.r
      && Shade(Channel(data, i, mode, 1), mode.bitdepth, c.a)
  {
    hide Channel, PixelValue, SmallColor, Shade;
    LargeShades(data, mode, i, 0);
    LargeShades(data, mode, i, 1);
  }

  /** True color with alpha: red, green, blue, alpha. */
  lemma RgbaIsSamples(data: seq<Byte>, i: nat, mode: ColorMode)
    requires mode.Valid() && i * mode.Bpp() + mode.Bpp() <= 8 * |data| && mode.colortype == 6
    ensures
      var c := PixelColor(data, i, mode);
      && Shade(Channel(data, i, mode, 0), mode.bitdepth, c.r) && Shade(Channel(data, i, mode, 1), mode.bitdepth, c.g)
      && Shade(Channel(data, i, mode, 2), mode.bitdepth, c.b) && Shade(Channel(data, i, mode, 3), mode.bitdepth, c.a)
  {
    hide Channel, PixelValue, SmallColor, Shade;
    LargeShades(data, mode, i, 0);
    LargeShades(data, mode, i, 1);
    LargeShades(data, mode, i, 2);
    LargeShades(data, mode, i, 3);
  }
}
