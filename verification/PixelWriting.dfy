/** Writing one pixel of any color type, and that reading it gives its color back (lodepng.c:2938-2947, 3023-3136, 3379-3413). */
module PixelWriting {
  import opened Bits
  import opened Canonical
  import opened PrefixCode
  import opened PixelBits
  import opened Scanlines
  import opened ColorTrees
  import opened ColorKeys
  import opened ColorModes
  import opened Profiles
  import opened ColorChoice
  import opened Palettes

  // ---- What writing a color makes of it ----

  /** A byte as a channel of the depth: its high bits, or itself twice. */
  function Cut(v: Byte, bits: nat): (w: nat)
    requires bits in {1, 2, 4, 8, 16}
  {
    if bits == 16 then 257 * (v as int) else HighBits(v, Pow2(8 - bits))
  }

  function HighBits(v: nat, p: nat): nat
    requires p > 0
  {
    v / p
  }

  /** The color is the key of the mode. */
  predicate IsKey(mode: ColorMode, c: Rgba)
    requires mode.Valid()
  {
    && mode.key_defined && Cut(c.r, mode.bitdepth) == mode.key_r
    && (mode.colortype == 2 ==> Cut(c.g, mode.bitdepth) == mode.key_g && Cut(c.b, mode.bitdepth) == mode.key_b)
  }

  /** The byte back from its high bits. */
  function Level(v: Byte, bits: nat): Byte
    requires bits in {1, 2, 4, 8, 16}
  {
    if bits >= 8 then v else CutBelow(v, bits); GreyLevel(Cut(v, bits), bits)
  }

  lemma CutBelow(v: Byte, bits: nat)
    requires bits in {1, 2, 4, 8}
    ensures Cut(v, bits) < Pow2(bits)
  {
    assert Pow2(1) == 2 && Pow2(2) == 4 && Pow2(4) == 16 && Pow2(8) == 256 && Pow2(7) == 128 && Pow2(6) == 64 && Pow2(0) == 1;
  }

  /** What a pixel reads as after this color was written to it: grey types take red for grey, types without alpha have a key at most. */
  function Kept8(mode: ColorMode, c: Rgba): Rgba
    requires mode.Valid() && mode.colortype != 3
  {
    var alpha: Byte := if mode.colortype == 4 || mode.colortype == 6 then c.a else if IsKey(mode, c) then 0 else 255;
    if mode.colortype == 0 || mode.colortype == 4 then
      var grey := Level(c.r, mode.bitdepth);
      Rgba(grey, grey, grey, alpha)
    else Rgba(c.r, c.g, c.b, alpha)
  }

  /** The color comes back unchanged exactly if the mode can show it. */
  lemma KeptExactly(mode: ColorMode, c: Rgba)
    requires mode.Valid() && mode.colortype != 3 && mode.bitdepth <= 8
    ensures Kept8(mode, c) == c <==> CanShow(mode, c)
  {
    hide GreyLevel, ValueRequiredBits, Pow2;
    if mode.colortype == 0 {
      GreyKept(mode, c);
    } else {
      WholeByteCut(c.r);
      WholeByteCut(c.g);
      WholeByteCut(c.b);
    }
  }

  lemma WholeByteCut(v: Byte)
    ensures Cut(v, 8) == v
  {
  }

  lemma LevelCut(v: nat, bits: nat)
    requires Depth(bits) && v < Pow2(bits)
    ensures Cut(GreyLevel(v, bits), bits) == v
  {
    assert Pow2(1) == 2 && Pow2(2) == 4 && Pow2(4) == 16 && Pow2(8) == 256 && Pow2(7) == 128 && Pow2(6) == 64 && Pow2(0) == 1;
    hide Pow2, GreyLevel;
    LevelIs(v, bits);
    if bits == 1 { DivUnique(255 * v, 128, v, 127 * v); }
    else if bits == 2 { DivUnique(85 * v, 64, v, 21 * v); }
    else if bits == 4 { DivUnique(17 * v, 16, v, v); }
  }

  lemma LevelIsGrey(v: Byte, bits: nat)
    requires Depth(bits)
    ensures Cut(v, bits) < Pow2(bits) && Level(v, bits) == GreyLevel(Cut(v, bits), bits)
  {
    CutBelow(v, bits);
    if bits == 8 { WholeByteCut(v); }
  }

  /** A grey pixel of up to eight bits reads as the grey level of its value. */
  lemma GreyIs(mode: ColorMode, c: Rgba)
    requires mode.Valid() && mode.colortype == 0 && mode.bitdepth <= 8
    ensures Cut(c.r, mode.bitdepth) < Pow2(mode.bitdepth) && Kept8(mode, c) == SmallColor(mode, Cut(c.r, mode.bitdepth))
  {
    hide GreyLevel, Pow2, Level, Cut;
    LevelIsGrey(c.r, mode.bitdepth);
  }

  lemma GreyKept(mode: ColorMode, c: Rgba)
    requires mode.Valid() && mode.colortype == 0 && mode.bitdepth <= 8
    ensures Kept8(mode, c) == c <==> CanShow(mode, c)
  {
    hide GreyLevel, Pow2, Level, Cut, Kept8;
    GreyIs(mode, c);
    if CanShow(mode, c) {
      var v: nat :| v < Pow2(mode.bitdepth) && c == SmallColor(mode, v);
      LevelCut(v, mode.bitdepth);
    }
  }

  // ---- Pixels of more than eight bits ----

  ghost predicate ReadsAs(out: seq<Byte>, i: nat, mode: ColorMode, c: Rgba)
    requires mode.Valid()
  {
    i * mode.Bpp() + mode.Bpp() <= 8 * |out| && PixelColor(out, i, mode) == c
  }

  /** A pixel of more than eight bits is what its own bytes are. */
  lemma SlicePixel(data: seq<Byte>, i: nat, mode: ColorMode, bytes: nat)
    requires mode.Valid() && mode.Bpp() > 8 && 8 * bytes == mode.Bpp() && i * mode.Bpp() + mode.Bpp() <= 8 * |data|
    ensures i * bytes + bytes <= |data| && PixelColor(data, i, mode) == PixelColor(data[i * bytes..i * bytes + bytes], 0, mode)
  {
    hide PixelColor;
    SliceFits(i, bytes, mode.Bpp());
    var start := i * bytes;
    if mode.colortype == 0 { GreySlice(data, i, mode, start, bytes); }
    else if mode.colortype == 2 { RgbSlice(data, i, mode, start, bytes); }
    else if mode.colortype == 4 { GreyAlphaSlice(data, i, mode, start, bytes); }
    else { RgbaSlice(data, i, mode, start, bytes); }
  }

  lemma GreySlice(data: seq<Byte>, i: nat, mode: ColorMode, start: nat, bytes: nat)
    requires mode.Valid() && mode.Bpp() > 8 && 8 * bytes == mode.Bpp() && start == i * bytes && start + bytes <= |data| && mode.colortype == 0
    ensures i * mode.Bpp() + mode.Bpp() <= 8 * |data| && PixelColor(data, i, mode) == PixelColor(data[start..start + bytes], 0, mode)
  {
    hide PixelValue, SmallColor;
    SliceFits(i, bytes, mode.Bpp());
    assert bytes == 2 && start == 2 * i;
  }

  lemma RgbSlice(data: seq<Byte>, i: nat, mode: ColorMode, start: nat, bytes: nat)
    requires mode.Valid() && mode.Bpp() > 8 && 8 * bytes == mode.Bpp() && start == i * bytes && start + bytes <= |data| && mode.colortype == 2
    ensures i * mode.Bpp() + mode.Bpp() <= 8 * |data| && PixelColor(data, i, mode) == PixelColor(data[start..start + bytes], 0, mode)
  {
    hide PixelValue, SmallColor;
    SliceFits(i, bytes, mode.Bpp());
    if mode.bitdepth == 8 { assert bytes == 3 && start == 3 * i; } else { assert bytes == 6 && start == 6 * i; }
  }

  lemma GreyAlphaSlice(data: seq<Byte>, i: nat, mode: ColorMode, start: nat, bytes: nat)
    requires mode.Valid() && mode.Bpp() > 8 && 8 * bytes == mode.Bpp() && start == i * bytes && start + bytes <= |data| && mode.colortype == 4
    ensures i * mode.Bpp() + mode.Bpp() <= 8 * |data| && PixelColor(data, i, mode) == PixelColor(data[start..start + bytes], 0, mode)
  {
    hide PixelValue, SmallColor;
    SliceFits(i, bytes, mode.Bpp());
    if mode.bitdepth == 8 { assert bytes == 2 && start == 2 * i; } else { assert bytes == 4 && start == 4 * i; }
  }

  lemma RgbaSlice(data: seq<Byte>, i: nat, mode: ColorMode, start: nat, bytes: nat)
    requires mode.Valid() && mode.Bpp() > 8 && 8 * bytes == mode.Bpp() && start == i * bytes && start + bytes <= |data| && mode.colortype == 6
    ensures i * mode.Bpp() + mode.Bpp() <= 8 * |data| && PixelColor(data, i, mode) == PixelColor(data[start..start + bytes], 0, mode)
  {
    hide PixelValue, SmallColor;
    SliceFits(i, bytes, mode.Bpp());
    if mode.bitdepth == 8 { assert bytes == 4 && start == 4 * i; } else { assert bytes == 8 && start == 8 * i; }
  }

  lemma SliceFits(i: nat, bytes: nat, bpp: nat)
    requires 8 * bytes == bpp
    ensures i * bpp == 8 * (i * bytes)
  {
  }

  /** Only the bytes of pixel i change. */
  ghost predicate OnlyPixel(before: seq<Byte>, now: seq<Byte>, i: nat, bytes: nat) {
    |before| == |now| && forall k :: 0 <= k < |now| && (k < i * bytes || k >= i * bytes + bytes) ==> now[k] == before[k]
  }

  /** A pixel of more than a byte depends on its own bytes only. */
  lemma OtherPixels(before: seq<Byte>, now: seq<Byte>, i: nat, bytes: nat, mode: ColorMode, j: nat)
    requires mode.Valid() && mode.Bpp() > 8 && 8 * bytes == mode.Bpp() && OnlyPixel(before, now, i, bytes) && j != i
    requires j * mode.Bpp() + mode.Bpp() <= 8 * |now|
    ensures PixelColor(now, j, mode) == PixelColor(before, j, mode)
  {
    hide PixelColor;
    SlicePixel(now, j, mode, bytes);
    SlicePixel(before, j, mode, bytes);
    forall k | j * bytes <= k < j * bytes + bytes ensures now[k] == before[k] { Apart(i, j, bytes, k); }
    assert now[j * bytes..j * bytes + bytes] == before[j * bytes..j * bytes + bytes];
  }

  lemma Apart(i: nat, j: nat, bytes: nat, k: nat)
    requires i != j && j * bytes <= k < j * bytes + bytes
    ensures k < i * bytes || k >= i * bytes + bytes
  {
    if j < i {
      MulMonotone(j + 1, i, bytes);
      TimesPlusOne(j, bytes);
    } else {
      MulMonotone(i + 1, j, bytes);
      TimesPlusOne(i, bytes);
    }
  }

  /** A byte written to a channel of 16 bits is there twice: the value is 257 times the byte. */
  ghost predicate Widened(out: seq<Byte>, i: nat, mode: ColorMode) {
    mode.bitdepth == 16 ==>
      var bytes := mode.Bpp() / 8;
      i * bytes + bytes <= |out| && forall k :: 0 <= k < bytes && k % 2 == 0 && k + 1 < bytes ==> out[i * bytes + k] == out[i * bytes + (k + 1)]
  }

  lemma StillWidened(before: seq<Byte>, now: seq<Byte>, i: nat, mode: ColorMode, j: nat)
    requires OnlyPixel(before, now, i, mode.Bpp() / 8) && j != i && Widened(before, j, mode)
    ensures Widened(now, j, mode)
  {
    if mode.bitdepth == 16 {
      var bytes := mode.Bpp() / 8;
      forall k | j * bytes <= k < j * bytes + bytes ensures now[k] == before[k] { Apart(i, j, bytes, k); }
    }
  }

  lemma WidenedSlice(now: seq<Byte>, i: nat, mode: ColorMode, b: seq<Byte>)
    requires mode.bitdepth == 16 ==> |b| == mode.Bpp() / 8 && i * |b| + |b| <= |now| && now[i * |b|..i * |b| + |b|] == b
    requires mode.bitdepth == 16 ==> forall k :: 0 <= k < |b| && k % 2 == 0 && k + 1 < |b| ==> b[k] == b[k + 1]
    ensures Widened(now, i, mode)
  {
    if mode.bitdepth == 16 {
      var n := i * |b|;
      forall k | 0 <= k < |b| ensures now[n + k] == b[k] { assert now[n..n + |b|][k] == b[k]; }
    }
  }

  /** The stores of one pixel. */
  method StorePixel(out: array<Byte>, i: nat, b: seq<Byte>)
    requires i * |b| + |b| <= out.Length
    modifies out
    ensures OnlyPixel(old(out[..]), out[..], i, |b|) && out[i * |b|..i * |b| + |b|] == b
  {
    for k := 0 to |b|
      invariant forall j :: 0 <= j < k ==> out[i * |b| + j] == b[j]
      invariant OnlyPixel(old(out[..]), out[..], i, |b|)
    {
      out[i * |b| + k] := b[k];
    }
  }

  /** A pixel of more than eight bits; a channel of 16 bits is the byte twice. */
  method PutLarge(out: array<Byte>, i: nat, mode: ColorMode, c: Rgba)
    requires mode.Valid() && mode.Bpp() > 8 && i * mode.Bpp() + mode.Bpp() <= 8 * out.Length
    modifies out
    ensures OnlyPixel(old(out[..]), out[..], i, mode.Bpp() / 8)
    ensures ReadsAs(out[..], i, mode, Kept8(mode, c)) && Widened(out[..], i, mode)
  {
    hide PixelColor, Kept8, OnlyPixel, Widened;
    SliceFits(i, mode.Bpp() / 8, mode.Bpp());
    var b: seq<Byte>;
    if mode.colortype == 0 {
      b := [c.r, c.r];
    } else if mode.colortype == 2 {
      b := if mode.bitdepth == 8 then [c.r, c.g, c.b] else [c.r, c.r, c.g, c.g, c.b, c.b];
    } else if mode.colortype == 4 {
      b := if mode.bitdepth == 8 then [c.r, c.a] else [c.r, c.r, c.a, c.a];
    } else {
      b := if mode.bitdepth == 8 then [c.r, c.g, c.b, c.a] else [c.r, c.r, c.g, c.g, c.b, c.b, c.a, c.a];
    }
    StorePixel(out, i, b);
    StoredReads(out[..], i, mode, c, b);
    WidenedSlice(out[..], i, mode, b);
  }

  /** The stored bytes read as the color, or what is kept of it. */
  lemma StoredReads(now: seq<Byte>, i: nat, mode: ColorMode, c: Rgba, b: seq<Byte>)
    requires mode.Valid() && mode.Bpp() > 8 && i * mode.Bpp() + mode.Bpp() <= 8 * |now|
    requires i * |b| + |b| <= |now| && now[i * |b|..i * |b| + |b|] == b && 8 * |b| == mode.Bpp()
    requires mode.colortype == 0 ==> b == [c.r, c.r]
    requires mode.colortype == 2 ==> b == if mode.bitdepth == 8 then [c.r, c.g, c.b] else [c.r, c.r, c.g, c.g, c.b, c.b]
    requires mode.colortype == 4 ==> b == if mode.bitdepth == 8 then [c.r, c.a] else [c.r, c.r, c.a, c.a]
    requires mode.colortype == 6 ==> b == if mode.bitdepth == 8 then [c.r, c.g, c.b, c.a] else [c.r, c.r, c.g, c.g, c.b, c.b, c.a, c.a]
    ensures ReadsAs(now, i, mode, Kept8(mode, c))
  {
    hide PixelColor, Kept8;
    SlicePixel(now, i, mode, |b|);
    if mode.colortype == 0 || mode.colortype == 2 { OpaqueBytes(mode, c, b); } else { AlphaBytes(mode, c, b); }
  }

  lemma OpaqueBytes(mode: ColorMode, c: Rgba, b: seq<Byte>)
    requires mode.Valid() && mode.Bpp() > 8 && 8 * |b| == mode.Bpp() && mode.colortype in {0, 2}
    requires mode.colortype == 0 ==> b == [c.r, c.r]
    requires mode.colortype == 2 ==> b == if mode.bitdepth == 8 then [c.r, c.g, c.b] else [c.r, c.r, c.g, c.g, c.b, c.b]
    ensures PixelColor(b, 0, mode) == Kept8(mode, c)
  {
    hide PixelValue, SmallColor, GreyLevel;
    WholeByteCut(c.r);
    WholeByteCut(c.g);
    WholeByteCut(c.b);
  }

  lemma AlphaBytes(mode: ColorMode, c: Rgba, b: seq<Byte>)
    requires mode.Valid() && 8 * |b| == mode.Bpp() && mode.colortype in {4, 6}
    requires mode.colortype == 4 ==> b == if mode.bitdepth == 8 then [c.r, c.a] else [c.r, c.r, c.a, c.a]
    requires mode.colortype == 6 ==> b == if mode.bitdepth == 8 then [c.r, c.g, c.b, c.a] else [c.r, c.r, c.g, c.g, c.b, c.b, c.a, c.a]
    ensures PixelColor(b, 0, mode) == Kept8(mode, c)
  {
    hide PixelValue, SmallColor, GreyLevel;
  }

  // ---- Any pixel ----

  /** What a pixel reads as after this color was written to it; a palette keeps its colors. */
  function AsWritten(mode: ColorMode, c: Rgba): Rgba
    requires mode.Valid()
  {
    if mode.colortype == 3 then c else Kept8(mode, c)
  }

  /**
   * The first pixels of an image that is being written: they read as s. Values of at most eight bits are the numbers
   * stored, and bits of the byte in progress that are not in use are zero.
   */
  ghost predicate Pixels(out: seq<Byte>, mode: ColorMode, values: seq<nat>, s: seq<Rgba>)
    requires mode.Valid()
  {
    && |values| == |s|
    && if mode.Bpp() <= 8 then Stored(out, mode.bitdepth, values) && forall k: nat :: k < |s| ==> ValueReads(mode, values[k], s[k])
       else forall k: nat :: k < |s| ==> ReadsAs(out, k, mode, s[k]) && Widened(out, k, mode)
  }

  ghost predicate ValueReads(mode: ColorMode, v: nat, c: Rgba)
    requires mode.Valid()
  {
    mode.Bpp() <= 8 && v < Pow2(mode.bitdepth) && SmallColor(mode, v) == c
  }

  lemma PixelsRead(out: seq<Byte>, mode: ColorMode, values: seq<nat>, s: seq<Rgba>, k: nat)
    requires mode.Valid() && Pixels(out, mode, values, s) && k < |s|
    ensures ReadsAs(out, k, mode, s[k]) && Widened(out, k, mode)
  {
    hide SmallColor, PixelValue, Stored;
    if mode.Bpp() <= 8 {
      SmallDepths(mode);
      assert ValueReads(mode, values[k], s[k]);
      ReadStored(out, mode.bitdepth, values, k);
    }
  }

  /** One more value of at most eight bits. */
  method PutValue(out: array<Byte>, i: nat, mode: ColorMode, v: nat, ghost complete: bool, ghost values: seq<nat>)
    requires mode.Valid() && mode.Bpp() <= 8 && v < Pow2(mode.bitdepth) && i * mode.Bpp() + mode.Bpp() <= 8 * out.Length
    requires complete ==> i == |values| && Stored(out[..], mode.bitdepth, values)
    modifies out
    ensures complete ==> Stored(out[..], mode.bitdepth, values + [v])
  {
    hide Packed;
    SmallDepths(mode);
    if mode.bitdepth == 8 {
      EightBits();
      out[i] := v;
    } else {
      AddColorBits(out, i, mode.bitdepth, v, complete, values);
    }
  }

  /**
   * rgba8ToPixel. Pixels before i stay, and so do those behind it unless they share its byte; error 82 for colors that a palette lacks.
   * If pixels before were left out for that reason, nothing is said of values of at most eight bits.
   */
  method Rgba8ToPixel(out: array<Byte>, i: nat, mode: ColorMode, tree: ColorTree, c: Rgba, ghost complete: bool, ghost values: seq<nat>,
                      ghost s: seq<Rgba>)
    returns (error: nat, ghost values': seq<nat>)
    requires mode.Valid() && i * mode.Bpp() + mode.Bpp() <= 8 * out.Length
    requires complete ==> i == |s| && Pixels(out[..], mode, values, s)
    requires mode.colortype == 3 ==> tree.Valid() && Indexes(tree.colors, Usable(mode))
    modifies out
    ensures error == if mode.colortype == 3 && c !in Usable(mode) then 82 else 0
    ensures complete && error == 0 ==> Pixels(out[..], mode, values', s + [AsWritten(mode, c)])
    ensures error != 0 ==> out[..] == old(out[..])
    ensures mode.Bpp() > 8 ==> OnlyPixel(old(out[..]), out[..], i, mode.Bpp() / 8)
  {
    hide ColorTree.Valid, Stored, Kept8, SmallColor, PixelColor, OnlyPixel, Cut, Widened;
    error, values' := 0, values;
    if mode.Bpp() > 8 {
      ghost var before := out[..];
      values' := values + [0];
      PutLarge(out, i, mode, c);
      forall k: nat | complete && k < i ensures ReadsAs(out[..], k, mode, s[k]) && Widened(out[..], k, mode) {
        assert ReadsAs(before, k, mode, s[k]);
        OtherPixels(before, out[..], i, mode.Bpp() / 8, mode, k);
        StillWidened(before, out[..], i, mode, k);
      }
    } else if mode.colortype == 3 {
      var index := tree.Get(c);
      if index < 0 { return 82, values; }
      PaletteValue(mode, index, c);
      PutValue(out, i, mode, index, complete, values);
      values' := values + [index];
    } else {
      GreyIs(mode, c);
      var grey := Cut(c.r, mode.bitdepth);
      PutValue(out, i, mode, grey, complete, values);
      values' := values + [grey];
    }
  }

  lemma PaletteValue(mode: ColorMode, v: nat, c: Rgba)
    requires mode.Valid() && mode.colortype == 3 && v < |Usable(mode)| && Usable(mode)[v] == c
    ensures ValueReads(mode, v, c) && v < Pow2(mode.bitdepth)
  {
  }
}
