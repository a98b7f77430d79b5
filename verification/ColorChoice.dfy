/** The automatic choice of a color type, and exactly when the mode chosen can show every pixel (lodepng.c:3676-3738). */
module ColorChoice {
  import opened Bits
  import opened Canonical
  import opened PrefixCode
  import opened PixelBits
  import opened Scanlines
  import opened ColorTrees
  import opened ColorKeys
  import opened ColorModes
  import opened Profiles

  /** A palette of at most 2^bitdepth colors, in which every pixel's color is. */
  ghost predicate Suits(mode_out: ColorMode, data: seq<Byte>, numpixels: nat, mode_in: ColorMode)
    requires mode_in.Valid()
  {
    && mode_out.Valid() && mode_out.colortype == 3 && |mode_out.palette| <= Pow2(mode_out.bitdepth)
    && DistinctColors(mode_out.palette) && Scanned(data, numpixels, mode_in, mode_out.palette)
  }

  function PaletteBits(n: nat): nat { if n <= 2 then 1 else if n <= 4 then 2 else if n <= 16 then 4 else 8 }

  lemma PaletteFits(palette: seq<Rgba>)
    requires |palette| <= 256
    ensures |palette| <= Pow2(PaletteBits(|palette|)) && ColorMode(3, PaletteBits(|palette|), palette, false, 0, 0, 0).Valid()
  {
    assert Pow2(1) == 2 && Pow2(2) == 4 && Pow2(4) == 16 && Pow2(8) == 256;
  }

  // ---- What a mode can show ----

  /** Some value of a mode of at most eight bits per channel has the color. */
  ghost predicate CanShow(mode: ColorMode, c: Rgba)
    requires mode.Valid() && mode.bitdepth <= 8
  {
    if mode.Bpp() <= 8 then ColorOfMode(mode, c)
    else if mode.colortype == 2 then
      c.a == if mode.key_defined && c.r == mode.key_r && c.g == mode.key_g && c.b == mode.key_b then 0 else 255
    else mode.colortype == 4 ==> Grey(c)
  }

  /** No image of the mode has any other color. */
  lemma OnlyShown(out: seq<Byte>, i: nat, mode: ColorMode)
    requires mode.Valid() && mode.bitdepth <= 8 && i * mode.Bpp() + mode.Bpp() <= 8 * |out|
    ensures CanShow(mode, PixelColor(out, i, mode))
  {
    if mode.Bpp() <= 8 { PixelOfMode(out, i, mode); }
  }

  ghost predicate ShowsAll(mode: ColorMode, s: seq<Rgba>)
    requires mode.Valid() && mode.bitdepth <= 8
  {
    forall k :: 0 <= k < |s| ==> CanShow(mode, s[k])
  }

  predicate Depth(bits: nat) { bits in {1, 2, 4, 8} }

  function StepOf(bits: nat): nat
    requires Depth(bits)
  {
    if bits == 1 then 255 else if bits == 2 then 85 else if bits == 4 then 17 else 1
  }

  lemma DepthPowers()
    ensures Pow2(1) == 2 && Pow2(2) == 4 && Pow2(4) == 16 && Pow2(8) == 256
  {
  }

  lemma LevelIs(v: nat, bits: nat)
    requires Depth(bits) && v < Pow2(bits)
    ensures GreyLevel(v, bits) == v * StepOf(bits)
  {
    DepthPowers();
    hide Pow2;
    if bits != 8 { DivUnique(v * 255, Pow2(bits) - 1, v * StepOf(bits), 0); }
  }

  lemma FewBits(r: Byte)
    ensures ValueRequiredBits(r) <= 1 <==> r % 255 == 0
    ensures ValueRequiredBits(r) <= 2 <==> r % 85 == 0
    ensures ValueRequiredBits(r) <= 4 <==> r % 17 == 0
  {
  }

  lemma StepSplit(q: nat, n: nat, k: nat)
    ensures q * (n * k + 1) == k * q * n + q
  {
  }

  lemma LowPart(r: nat, n: nat, step: nat, k: nat)
    requires step == n * k + 1 && r < n * step
    ensures r % n * step == r <==> r % step == 0
  {
    if r % step == 0 {
      var q := r / step;
      assert r == q * step;
      CancelMulStrict(q, n, step);
      StepSplit(q, n, k);
      DivUnique(r, n, k * q, q);
    }
    if r % n * step == r { DivUnique(r, step, r % n, 0); }
  }

  /** The grey levels of a depth are those that getValueRequiredBits finds to fit, and their low bits are the value. */
  lemma Levels(r: Byte, bits: nat)
    requires Depth(bits)
    ensures r % Pow2(bits) < Pow2(bits)
    ensures ValueRequiredBits(r) <= bits <==> GreyLevel(r % Pow2(bits), bits) == r
  {
    hide ValueRequiredBits, GreyLevel;
    DepthPowers();
    hide Pow2;
    LevelIs(r % Pow2(bits), bits);
    if bits == 8 {
      AtMostEight();
    } else {
      FewBits(r);
      LowPart(r, Pow2(bits), StepOf(bits), if bits == 1 then 127 else if bits == 2 then 21 else 1);
    }
  }

  lemma LevelValue(v: nat, bits: nat)
    requires Depth(bits) && v < Pow2(bits)
    ensures GreyLevel(v, bits) % Pow2(bits) == v
  {
    hide GreyLevel;
    DepthPowers();
    LevelIs(v, bits);
    if bits == 1 { DivUnique(255 * v, 2, 127 * v, v); }
    else if bits == 2 { DivUnique(85 * v, 4, 21 * v, v); }
    else if bits == 4 { DivUnique(17 * v, 16, v, v); }
  }

  lemma GreyShown(mode: ColorMode, c: Rgba)
    requires mode.Valid() && mode.colortype == 0 && Depth(mode.bitdepth) && Grey(c)
    ensures
      CanShow(mode, c) <==>
        && ValueRequiredBits(c.r) <= mode.bitdepth
        && c.a == if mode.key_defined && c.r % Pow2(mode.bitdepth) == mode.key_r then 0 else 255
  {
    hide ValueRequiredBits, GreyLevel, Pow2;
    Levels(c.r, mode.bitdepth);
    var w := c.r % Pow2(mode.bitdepth);
    if CanShow(mode, c) {
      var v: nat :| v < Pow2(mode.bitdepth) && c == SmallColor(mode, v);
      LevelValue(v, mode.bitdepth);
    }
    if ValueRequiredBits(c.r) <= mode.bitdepth { assert SmallColor(mode, w).r == c.r; }
  }

  // ---- The choice ----

  /** The mode if no palette is chosen; the mask converts the 16-bit key. */
  function OtherMode(prof: Profile, alpha: bool, bits: nat): ColorMode {
    var key, mask := prof.key && !alpha, Pow2(bits);
    ColorMode(if alpha then (if prof.colored then 6 else 4) else if prof.colored then 2 else 0, bits, [], key,
              if key then prof.key_r % mask else 0, if key then prof.key_g % mask else 0, if key then prof.key_b % mask else 0)
  }

  /** With a key, no opaque pixel before the first transparent one has its color. */
  ghost predicate NoEarlierKey(mode: ColorMode, s: seq<Color<int>>, max: Peak := 255) {
    mode.key_defined ==> forall f: nat, k: nat :: FirstClear(s, f, max) && k < f ==> !SameRgb(s[k], s[f])
  }

  /** All grey levels of the image are levels of the depth chosen. */
  ghost predicate GreysFit(mode: ColorMode, s: seq<Rgba>) {
    mode.colortype == 0 ==> forall k :: 0 <= k < |s| ==> ValueRequiredBits(s[k].r) <= mode.bitdepth
  }

  lemma KeyByte(prof: Profile, color: Color<int>, bits: nat)
    requires KeyDoubled(prof, color) && Depth(bits) && 0 <= color.r < 256 && 0 <= color.g < 256 && 0 <= color.b < 256
    ensures prof.key_r % Pow2(bits) == color.r % Pow2(bits)
    ensures bits == 8 ==> prof.key_r % Pow2(bits) == color.r && prof.key_g % Pow2(bits) == color.g && prof.key_b % Pow2(bits) == color.b
  {
    DepthPowers();
    hide Pow2;
    OneByte(color.r);
    OneByte(color.g);
    OneByte(color.b);
  }

  lemma OneByte(v: Byte)
    ensures 257 * (v as int) % 256 == v && 257 * (v as int) % 16 == v % 16 && 257 * (v as int) % 4 == v % 4 && 257 * (v as int) % 2 == v % 2
  {
    DivUnique(257 * (v as int), 256, v, v);
    DivUnique(257 * (v as int), 16, 16 * (v as int) + v / 16, v % 16);
    DivUnique(257 * (v as int), 4, 64 * (v as int) + v / 4, v % 4);
    DivUnique(257 * (v as int), 2, 128 * (v as int) + v / 2, v % 2);
  }

  lemma KeyMatters(mode: ColorMode, s: seq<Color<int>>, flags: KeyFlags, max: Peak := 255)
    requires Flagged(s, flags, max) && !flags.alpha && mode.key_defined == flags.key
    ensures NoEarlierKey(mode, s, max) <==> forall k :: 0 <= k < |s| ==> s[k].a == if flags.key && SameRgb(s[k], flags.color) then 0 else max
  {
    if flags.key {
      var f: nat :| FirstClear(s, f, max) && SameRgb(s[f], flags.color);
      KeyExactly(s, flags, f, max);
      forall g: nat ensures FirstClear(s, g, max) ==> g == f { if FirstClear(s, g, max) { ClearOnce(s, f, g, max); } }
    } else {
      NoKeyOpaque(s, flags, max);
    }
  }

  /** A key is the color of a pixel. */
  lemma KeyOccurs(s: seq<Color<int>>, flags: KeyFlags, max: Peak := 255) returns (f: nat)
    requires Flagged(s, flags, max) && flags.key
    ensures f < |s| && SameRgb(s[f], flags.color)
  {
    f :| FirstClear(s, f, max) && SameRgb(s[f], flags.color);
  }

  /** The flags of the profile belong to the pixels s. */
  ghost predicate OfPixels(prof: Profile, s: seq<Rgba>, flags: KeyFlags) {
    && Flagged(s, flags) && flags.key == prof.key && flags.alpha == prof.alpha && KeyDoubled(prof, flags.color)
    && (prof.colored <==> Colorful(s)) && Depth(prof.bits) && (prof.colored || prof.alpha ==> prof.bits == 8)
  }

  /** An alpha channel shows everything. */
  lemma AlphaShows(prof: Profile, s: seq<Rgba>)
    requires prof.colored <==> Colorful(s)
    ensures var mode := OtherMode(prof, true, 8); mode.Valid() && ShowsAll(mode, s) && NoEarlierKey(mode, s) && GreysFit(mode, s)
  {
  }

  lemma ColorsShow(prof: Profile, s: seq<Rgba>, flags: KeyFlags)
    requires OfPixels(prof, s, flags) && prof.colored && !prof.alpha
    ensures var mode := OtherMode(prof, false, 8); mode.Valid() && GreysFit(mode, s) && (ShowsAll(mode, s) <==> NoEarlierKey(mode, s))
  {
    hide Flagged, NoEarlierKey;
    var mode := OtherMode(prof, false, 8);
    if flags.key {
      var f := KeyOccurs(s, flags);
      KeyByte(prof, flags.color, 8);
    }
    KeyMatters(mode, s, flags);
  }

  lemma GreysShow(prof: Profile, s: seq<Rgba>, flags: KeyFlags)
    requires OfPixels(prof, s, flags) && !prof.colored && !prof.alpha
    ensures
      var mode := OtherMode(prof, false, prof.bits);
      mode.Valid() && (ShowsAll(mode, s) <==> NoEarlierKey(mode, s) && GreysFit(mode, s))
  {
    hide Flagged, NoEarlierKey, CanShow, ValueRequiredBits, Pow2, Colorful, KeyDoubled;
    var mode := OtherMode(prof, false, prof.bits);
    NotColorful(s);
    if flags.key {
      var f := KeyOccurs(s, flags);
      KeyByte(prof, flags.color, prof.bits);
    }
    KeyMatters(mode, s, flags);
    forall k | 0 <= k < |s|
      ensures CanShow(mode, s[k]) <==>
        && ValueRequiredBits(s[k].r) <= prof.bits
        && s[k].a == if flags.key && s[k].r % Pow2(prof.bits) == flags.color.r % Pow2(prof.bits) then 0 else 255
    {
      GreyShown(mode, s[k]);
    }
    if GreysFit(mode, s) && flags.key {
      KeyFits(mode, s, flags);
      forall k | 0 <= k < |s|
        ensures s[k].r % Pow2(prof.bits) == flags.color.r % Pow2(prof.bits) <==> SameRgb(s[k], flags.color)
      {
        Levels(s[k].r, prof.bits);
        Levels(flags.color.r, prof.bits);
      }
    }
  }

  lemma NotColorful(s: seq<Color<int>>)
    requires !Colorful(s)
    ensures forall k :: 0 <= k < |s| ==> Grey(s[k])
  {
  }

  /** The key is the color of a pixel, so it is a level too. */
  lemma KeyFits(mode: ColorMode, s: seq<Rgba>, flags: KeyFlags)
    requires Flagged(s, flags) && flags.key && GreysFit(mode, s) && mode.colortype == 0 && forall k :: 0 <= k < |s| ==> Grey(s[k])
    ensures 0 <= flags.color.r < 256 && ValueRequiredBits(flags.color.r) <= mode.bitdepth && Grey(flags.color)
  {
    hide ValueRequiredBits;
    var f: nat :| FirstClear(s, f) && SameRgb(s[f], flags.color);
  }

  /** The levels of an image of few bits fit its own depth; only palettes may hold others. */
  lemma OwnLevelsFit(data: seq<Byte>, n: nat, mode_in: ColorMode)
    requires mode_in.Valid() && HasPixels(data, n, mode_in.Bpp())
    requires mode_in.colortype != 3 || mode_in.bitdepth == 8
    ensures
      var s := Colors(data, n, mode_in);
      forall k :: 0 <= k < n ==> ValueRequiredBits(s[k].r) <= ScanBits(s, mode_in.Bpp())
  {
    hide ValueRequiredBits, PixelColor, SmallColor, ScanBits;
    var s := Colors(data, n, mode_in);
    AtMostEight();
    ScanBitsFit(s, mode_in.Bpp());
    if mode_in.Bpp() <= ScanBits(s, mode_in.Bpp()) < 8 {
      SmallDepths(mode_in);
      forall k | 0 <= k < n ensures ValueRequiredBits(s[k].r) <= mode_in.Bpp() {
        ColorAt(data, n, mode_in, k);
        PixelOfMode(data, k, mode_in);
        var v: nat :| v < Pow2(mode_in.bitdepth) && PixelColor(data, k, mode_in) == SmallColor(mode_in, v);
        OwnLevel(mode_in, v);
      }
    }
  }

  lemma AtMostEight()
    ensures forall r: Byte :: ValueRequiredBits(r) <= 8
  {
  }

  lemma OwnLevel(mode: ColorMode, v: nat)
    requires mode.Valid() && mode.colortype == 0 && mode.Bpp() <= 8 && v < Pow2(mode.bitdepth)
    ensures ValueRequiredBits(SmallColor(mode, v).r) <= mode.bitdepth
  {
    hide ValueRequiredBits, GreyLevel, Pow2;
    LevelValue(v, mode.bitdepth);
    Levels(GreyLevel(v, mode.bitdepth), mode.bitdepth);
  }

  lemma PaletteShows(mode_out: ColorMode, data: seq<Byte>, n: nat, mode_in: ColorMode)
    requires mode_in.Valid() && HasPixels(data, n, mode_in.Bpp()) && mode_out.Valid() && mode_out.colortype == 3
    requires mode_out == mode_in || Suits(mode_out, data, n, mode_in)
    ensures ShowsAll(mode_out, Colors(data, n, mode_in))
  {
    hide PixelColor, SmallColor;
    var s := Colors(data, n, mode_in);
    forall k | 0 <= k < n ensures CanShow(mode_out, s[k]) {
      ColorAt(data, n, mode_in, k);
      if mode_out == mode_in {
        OnlyShown(data, k, mode_in);
      } else {
        assert PixelIn(data, k, mode_in, mode_out.palette);
        var v: nat :| v < |mode_out.palette| && mode_out.palette[v] == s[k];
        PaletteEntry(mode_out, v);
      }
    }
  }

  lemma PaletteEntry(mode: ColorMode, v: nat)
    requires mode.Valid() && mode.colortype == 3 && v < |mode.palette| <= Pow2(mode.bitdepth)
    ensures CanShow(mode, mode.palette[v])
  {
    assert SmallColor(mode, v) == mode.palette[v];
  }

  lemma NewPaletteSuits(prof: Profile, data: seq<Byte>, n: nat, mode_in: ColorMode)
    requires mode_in.Valid() && HasPixels(data, n, mode_in.Bpp()) && ProfileOf(prof, data, n, mode_in) && prof.numcolors <= 256
    ensures Suits(ColorMode(3, PaletteBits(prof.numcolors), prof.palette, false, 0, 0, 0), data, n, mode_in)
  {
    hide Scanned, DistinctColors, Flagged, ScanBits, Colorful;
    PaletteFits(prof.palette);
  }

  ghost predicate HasClear(s: seq<Color<int>>, max: Peak := 255) { exists f: nat :: FirstClear(s, f, max) }

  /** An alpha channel is chosen; also for a few pixels, in place of a key. */
  ghost predicate UsesAlpha(s: seq<Color<int>>, max: Peak := 255) { NeedsAlpha(s, max) || (|s| <= 16 && HasClear(s, max)) }

  /** No opaque pixel before the first transparent one has its color. */
  ghost predicate NoneBefore(s: seq<Color<int>>, max: Peak := 255) {
    forall f: nat, k: nat :: FirstClear(s, f, max) && k < f ==> !SameRgb(s[k], s[f])
  }

  /** All pixels have levels of the depth that the scan arrives at. */
  ghost predicate LevelsFit(s: seq<Rgba>, bpp: nat) {
    forall k :: 0 <= k < |s| ==> ValueRequiredBits(s[k].r) <= ScanBits(s, bpp)
  }

  /** What must be true of an image of bpp bits per pixel for the choice of a mode without palette to lose nothing. */
  ghost predicate Kept(s: seq<Rgba>, bpp: nat) {
    UsesAlpha(s) || (NoneBefore(s) && (Colorful(s) || LevelsFit(s, bpp)))
  }

  /** The mode chosen if it is not a palette. */
  ghost predicate Chosen(mode: ColorMode, s: seq<Rgba>, bpp: nat) {
    && mode.colortype == (if UsesAlpha(s) then (if Colorful(s) then 6 else 4) else if Colorful(s) then 2 else 0)
    && mode.bitdepth == (if UsesAlpha(s) || Colorful(s) then 8 else ScanBits(s, bpp))
    && (mode.key_defined <==> HasClear(s) && !UsesAlpha(s))
  }

  lemma OtherModeShows(prof: Profile, alpha: bool, bits: nat, data: seq<Byte>, n: nat, mode_in: ColorMode)
    requires mode_in.Valid() && HasPixels(data, n, mode_in.Bpp()) && ProfileOf(prof, data, n, mode_in)
    requires alpha == (prof.alpha || (prof.key && n <= 16)) && bits == if prof.key && n <= 16 then 8 else prof.bits
    ensures
      var mode, s := OtherMode(prof, alpha, bits), Colors(data, n, mode_in);
      && mode.Valid() && mode.bitdepth <= 8 && Chosen(mode, s, mode_in.Bpp())
      && (ShowsAll(mode, s) <==> Kept(s, mode_in.Bpp()))
  {
    hide Scanned, DistinctColors, Flagged, ScanBits, Colorful, ShowsAll, HasPixels, ValueRequiredBits, NeedsAlpha, HasClear;
    var s := Colors(data, n, mode_in);
    var color: Color<int> :| Flagged(s, KeyFlags(prof.key, prof.alpha, color)) && KeyDoubled(prof, color);
    var flags := KeyFlags(prof.key, prof.alpha, color);
    FlagsMean(s, flags);
    assert OfPixels(prof, s, flags);
    if alpha {
      AlphaShows(prof, s);
    } else if prof.colored {
      ColorsShow(prof, s, flags);
    } else {
      GreysShow(prof, s, flags);
    }
  }

  lemma FlagsMean(s: seq<Color<int>>, flags: KeyFlags, max: Peak := 255)
    requires Flagged(s, flags, max)
    ensures (flags.alpha <==> NeedsAlpha(s, max)) && (flags.key <==> HasClear(s, max)) && (HasClear(s, max) || NoneBefore(s, max))
  {
    hide NeedsAlpha;
  }

  /** Other images than palettes of few bits have no levels that do not fit. */
  lemma UsuallyFit(data: seq<Byte>, n: nat, mode_in: ColorMode)
    requires mode_in.Valid() && HasPixels(data, n, mode_in.Bpp()) && (mode_in.colortype != 3 || mode_in.bitdepth == 8)
    ensures LevelsFit(Colors(data, n, mode_in), mode_in.Bpp())
  {
    hide ScanBits, ValueRequiredBits;
    OwnLevelsFit(data, n, mode_in);
  }

  // ---- Sixteen bits ----

  /** The mode chosen for an image that is truly 16-bit. */
  ghost predicate Chosen16(mode: ColorMode, s: seq<Rgba16>) {
    && mode.colortype == (if UsesAlpha(s, 65535) then (if Colorful(s) then 6 else 4) else if Colorful(s) then 2 else 0)
    && mode.bitdepth == 16 && mode.palette == [] && (mode.key_defined <==> HasClear(s, 65535) && !UsesAlpha(s, 65535))
  }

  /** The mode keeps every pixel. */
  ghost predicate KeepsAll16(mode: ColorMode, s: seq<Rgba16>)
    requires Sixteen(mode)
  {
    forall k :: 0 <= k < |s| ==> Kept16(mode, s[k]) == s[k]
  }

  /** When the choice loses nothing of an image that is truly 16-bit. */
  ghost predicate KeptInFull(s: seq<Rgba16>) { UsesAlpha(s, 65535) || NoneBefore(s, 65535) }

  lemma SixteenKeeps(prof: Profile, alpha: bool, data: seq<Byte>, n: nat, mode_in: ColorMode)
    requires Sixteen(mode_in) && HasPixels(data, n, mode_in.Bpp()) && ProfileOf16(prof, data, n, mode_in)
    requires alpha == (prof.alpha || (prof.key && n <= 16))
    ensures
      var mode, s := OtherMode(prof, alpha, 16), Colors16(data, n, mode_in);
      Sixteen(mode) && Chosen16(mode, s) && (KeepsAll16(mode, s) <==> KeptInFull(s))
  {
    hide Flagged, Colorful, NeedsAlpha, HasClear, PixelColor16, HasPixels, Pow2, KeepsAll16;
    var mode, s := OtherMode(prof, alpha, 16), Colors16(data, n, mode_in);
    var flags := KeyFlags(prof.key, prof.alpha, Rgba(prof.key_r, prof.key_g, prof.key_b, 0));
    FlagsMean(s, flags, 65535);
    if !prof.colored { NotColorful(s); }
    if alpha { AllKept(mode, s); } else { KeyKeeps(mode, prof, s, flags); }
  }

  lemma AllKept(mode: ColorMode, s: seq<Rgba16>)
    requires Sixteen(mode) && (mode.colortype == 6 || (mode.colortype == 4 && forall k :: 0 <= k < |s| ==> Grey(s[k])))
    ensures KeepsAll16(mode, s)
  {
  }

  lemma KeyKeeps(mode: ColorMode, prof: Profile, s: seq<Rgba16>, flags: KeyFlags)
    requires Flagged(s, flags, 65535) && !flags.alpha && flags == KeyFlags(prof.key, prof.alpha, Rgba(prof.key_r, prof.key_g, prof.key_b, 0))
    requires mode == OtherMode(prof, false, 16) && (prof.colored || forall k :: 0 <= k < |s| ==> Grey(s[k]))
    ensures Sixteen(mode) && (KeepsAll16(mode, s) <==> NoEarlierKey(mode, s, 65535))
  {
    hide Flagged, NoEarlierKey, Pow2;
    SixteenPower();
    if flags.key { var f := KeyOccurs(s, flags, 65535); }
    KeyMatters(mode, s, flags, 65535);
  }

  lemma SixteenPower()
    ensures Pow2(16) == 65536
  {
    hide Pow2;
    Pow2Small();
    Pow2Add(8, 8);
  }

  // ---- The choice of a palette ----

  /** A palette is chosen: for up to 256 colors, fewer than half as many as pixels, unless grey levels take no more bits. */
  ghost predicate PaletteChosen(s: seq<Rgba>, bpp: nat) {
    && Different(s) <= 256 && 2 * Different(s) < |s|
    && (Colorful(s) || UsesAlpha(s) || ScanBits(s, bpp) > PaletteBits(Different(s)))
  }

  lemma PaletteDecision(prof: Profile, alpha: bool, data: seq<Byte>, n: nat, mode_in: ColorMode)
    requires mode_in.Valid() && HasPixels(data, n, mode_in.Bpp()) && ProfileOf(prof, data, n, mode_in)
    requires alpha == (prof.alpha || (prof.key && n <= 16))
    ensures PaletteChosen(Colors(data, n, mode_in), mode_in.Bpp()) <==>
      prof.numcolors <= 256 && prof.numcolors * 2 < n && (prof.colored || alpha || prof.bits > PaletteBits(prof.numcolors))
    ensures prof.numcolors <= 256 ==> |prof.palette| == prof.numcolors
  {
    hide Scanned, DistinctColors, Flagged, ScanBits, Colorful, HasPixels, NeedsAlpha, HasClear, NoneBefore, Different, KeyDoubled, PaletteBits;
    var s := Colors(data, n, mode_in);
    var color: Color<int> :| Flagged(s, KeyFlags(prof.key, prof.alpha, color)) && KeyDoubled(prof, color);
    FlagsMean(s, KeyFlags(prof.key, prof.alpha, color));
  }

  /**
   * lodepng_auto_choose_color. A palette shows every pixel. Any other mode does so exactly if it has an alpha channel, or no
   * opaque pixel before the first transparent one has its color and, for fewer than 16 bits, all grey levels fit.
   */
  method AutoChooseColor(data: seq<Byte>, numpixels: nat, mode_in: ColorMode) returns (palette_ok: bool, mode_out: ColorMode)
    requires mode_in.Valid() && HasPixels(data, numpixels, mode_in.Bpp())
    ensures mode_out.Valid()
    ensures mode_out.bitdepth == 16 <==> mode_in.bitdepth == 16 && TrulySixteenBits(data, numpixels * Channels(mode_in.colortype))
    ensures palette_ok ==> mode_out.colortype == 3 && (mode_out == mode_in || Suits(mode_out, data, numpixels, mode_in))
    ensures palette_ok <==> mode_out.bitdepth <= 8 && PaletteChosen(Colors(data, numpixels, mode_in), mode_in.Bpp())
    ensures palette_ok ==> ShowsAll(mode_out, Colors(data, numpixels, mode_in))
    ensures !palette_ok && mode_out.bitdepth <= 8 ==>
      var s := Colors(data, numpixels, mode_in);
      Chosen(mode_out, s, mode_in.Bpp()) && (ShowsAll(mode_out, s) <==> Kept(s, mode_in.Bpp()))
    ensures mode_out.bitdepth == 16 ==>
      var s := Colors16(data, numpixels, mode_in);
      Chosen16(mode_out, s) && (KeepsAll16(mode_out, s) <==> KeptInFull(s))
  {
    hide Scanned, DistinctColors, HasPixels, ShowsAll, OtherMode, Suits, ScanBits, Flagged, Colorful, Chosen, Kept, PaletteChosen, TrulySixteenBits, ColorsCounted,
         Known, Chosen16, KeepsAll16, KeptInFull;
    var prof := GetColorProfile(data, numpixels, mode_in);
    mode_out := mode_in;
    var alpha, bits := prof.alpha, prof.bits;
    if prof.key && numpixels <= 16 {
      alpha := true;
      if bits < 8 { bits := 8; }
    }
    var grey_ok := !prof.colored && !alpha;
    var n := prof.numcolors;
    var palettebits := PaletteBits(n);
    if bits != 16 { PaletteDecision(prof, alpha, data, numpixels, mode_in); }
    palette_ok := n <= 256 && n * 2 < numpixels && bits <= 8;
    if numpixels < n * 2 { palette_ok := false; }
    if grey_ok && bits <= palettebits { palette_ok := false; }
    if palette_ok {
      PaletteFits(prof.palette);
      mode_out := ColorMode(3, palettebits, prof.palette, false, 0, 0, 0);
      NewPaletteSuits(prof, data, numpixels, mode_in);
      if mode_in.colortype == 3 && |mode_in.palette| >= |mode_out.palette| && mode_in.bitdepth == mode_out.bitdepth {
        mode_out := mode_in;
      }
      PaletteShows(mode_out, data, numpixels, mode_in);
    } else if bits <= 8 {
      mode_out := OtherMode(prof, alpha, bits);
      OtherModeShows(prof, alpha, bits, data, numpixels, mode_in);
    } else {
      mode_out := OtherMode(prof, alpha, bits);
      SixteenKeeps(prof, alpha, data, numpixels, mode_in);
    }
  }
}
