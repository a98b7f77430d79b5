/** What the scan for the automatic choice of a color type finds out about an image (lodepng.c:3503-3669). */
module Profiles {
  import opened Bits
  import opened Canonical
  import opened PrefixCode
  import opened PixelBits
  import opened Scanlines
  import opened ColorTrees
  import opened ColorKeys
  import opened ColorModes

  ghost predicate DistinctColors(s: seq<Rgba>) { forall i, j :: 0 <= i < j < |s| ==> s[i] != s[j] }

  // ---- How many colors an image of few bits per pixel can have ----

  ghost predicate ColorOfMode(mode: ColorMode, c: Rgba)
    requires mode.Valid() && mode.Bpp() <= 8
  {
    exists v: nat :: v < Pow2(mode.bitdepth) && c == SmallColor(mode, v)
  }

  ghost function ColorsBelow(mode: ColorMode, n: nat): set<Rgba>
    requires mode.Valid() && mode.Bpp() <= 8 && n <= Pow2(mode.bitdepth)
  {
    set v: nat | v < n :: SmallColor(mode, v)
  }

  lemma {:induction false} NumberOfColors(mode: ColorMode, n: nat)
    requires mode.Valid() && mode.Bpp() <= 8 && n <= Pow2(mode.bitdepth)
    ensures |ColorsBelow(mode, n)| <= n
  {
    hide SmallColor;
    if n > 0 {
      NumberOfColors(mode, n - 1);
      assert ColorsBelow(mode, n) == ColorsBelow(mode, n - 1) + {SmallColor(mode, n - 1)};
    } else {
      assert ColorsBelow(mode, 0) == {};
    }
  }

  lemma {:induction false} SetOfColors(s: seq<Rgba>)
    requires DistinctColors(s)
    ensures |set c | c in s| == |s|
  {
    if s != [] {
      var front, last := s[..|s| - 1], s[|s| - 1];
      SetOfColors(front);
      assert s == front + [last] && last !in front;
      assert (set c | c in s) == (set c | c in front) + {last};
    }
  }

  lemma SubsetOfSize<T>(a: set<T>, b: set<T>)
    requires a <= b && |a| >= |b|
    ensures a == b
  {
    if x :| x in b && x !in a {
      SubsetCard(a + {x}, b);
    }
  }

  /** How many different colors there are. */
  ghost function Different(s: seq<Rgba>): nat { |set c | c in s| }

  ghost predicate Occur(found: seq<Rgba>, s: seq<Rgba>) { forall c :: c in found ==> c in s }

  lemma DifferentAtLeast(found: seq<Rgba>, s: seq<Rgba>)
    requires DistinctColors(found) && Occur(found, s)
    ensures Different(s) >= |found|
  {
    SetOfColors(found);
    SubsetCard(set c | c in found, set c | c in s);
  }

  lemma DifferentIs(found: seq<Rgba>, s: seq<Rgba>)
    requires DistinctColors(found) && Occur(found, s) && Occur(s, found)
    ensures Different(s) == |found|
  {
    SetOfColors(found);
    assert (set c | c in found) == (set c | c in s);
  }

  /** As many different colors as there are values: no other color can come. */
  lemma AllFound(mode: ColorMode, found: seq<Rgba>, v: nat)
    requires mode.Valid() && mode.Bpp() <= 8 && DistinctColors(found) && (forall c :: c in found ==> ColorOfMode(mode, c))
    requires |found| >= Pow2(mode.bitdepth) && v < Pow2(mode.bitdepth)
    ensures SmallColor(mode, v) in found
  {
    hide SmallColor;
    var all, some := ColorsBelow(mode, Pow2(mode.bitdepth)), set c | c in found;
    NumberOfColors(mode, Pow2(mode.bitdepth));
    SetOfColors(found);
    SubsetOfSize(some, all);
    assert SmallColor(mode, v) in all;
  }

  // ---- The profile ----

  /** What the scan finds out; the key is doubled to 16 bits. */
  datatype Profile = Profile(colored: bool, key: bool, key_r: int, key_g: int, key_b: int, alpha: bool, numcolors: nat, bits: nat,
                             palette: seq<Rgba>)

  /** getValueRequiredBits. */
  function ValueRequiredBits(value: Byte): (bits: nat)
    ensures bits in {1, 2, 4, 8}
  {
    if value == 0 || value == 255 then 1
    else if value % 17 == 0 then (if value % 85 == 0 then 2 else 4)
    else 8
  }

  /** A 16-bit channel of pixel i whose bytes differ. */
  predicate BytesDiffer(data: seq<Byte>, i: nat, mode: ColorMode)
    requires mode.Valid() && mode.bitdepth == 16 && i * mode.Bpp() + mode.Bpp() <= 8 * |data|
  {
    var n := Channels(mode.colortype);
    exists at :: n * i <= at < n * i + n && ChannelDiffers(data, at)
  }

  predicate ChannelDiffers(data: seq<Byte>, at: int) { 0 <= at && 2 * at + 1 < |data| && data[2 * at] != data[2 * at + 1] }

  /** Some channel of the first n has two different bytes. */
  ghost predicate TrulySixteenBits(data: seq<Byte>, n: nat) { exists at :: 0 <= at < n && ChannelDiffers(data, at) }

  method TrulySixteen(data: seq<Byte>, numpixels: nat, mode: ColorMode) returns (sixteen: bool)
    requires mode.Valid() && HasPixels(data, numpixels, mode.Bpp())
    ensures sixteen <==> mode.bitdepth == 16 && TrulySixteenBits(data, numpixels * Channels(mode.colortype))
  {
    sixteen := false;
    if mode.bitdepth == 16 {
      var n := Channels(mode.colortype);
      for i := 0 to numpixels
        invariant !TrulySixteenBits(data, i * n)
      {
        PixelInside(i, numpixels, mode.Bpp());
        MulMonotone(i + 1, numpixels, n);
        TimesPlusOne(i, n);
        if BytesDiffer(data, i, mode) { return true; }
        forall at | 0 <= at < (i + 1) * n ensures !ChannelDiffers(data, at) {}
      }
    }
  }

  function CanHaveAlpha(mode: ColorMode): bool {
    mode.key_defined || mode.colortype == 4 || mode.colortype == 6 || exists k :: 0 <= k < |mode.palette| && mode.palette[k].a < 255
  }

  function MaxNumColors(bpp: nat): nat {
    if bpp > 8 then 257 else if bpp == 1 then 2 else if bpp == 2 then 4 else if bpp == 4 then 16 else 256
  }

  lemma MaxIsAll(mode: ColorMode)
    requires mode.Valid() && mode.Bpp() <= 8
    ensures MaxNumColors(mode.Bpp()) == Pow2(mode.bitdepth)
  {
    SmallDepths(mode);
    assert Pow2(1) == 2 && Pow2(2) == 4 && Pow2(4) == 16 && Pow2(8) == 256;
  }

  /** The colors found so far, and the part of them that fits the palette. */
  ghost predicate Found(mode: ColorMode, found: seq<Rgba>, palette: seq<Rgba>)
    requires mode.Valid()
  {
    && DistinctColors(found) && palette == found[..if |found| < 256 then |found| else 256]
    && (mode.Bpp() <= 8 ==> forall c :: c in found ==> ColorOfMode(mode, c))
  }

  /** The color of every pixel before i was found. */
  ghost predicate Scanned(data: seq<Byte>, i: nat, mode: ColorMode, found: seq<Rgba>)
    requires mode.Valid()
  {
    forall k: nat {:trigger PixelIn(data, k, mode, found)} :: k < i ==> PixelIn(data, k, mode, found)
  }

  ghost predicate PixelIn(data: seq<Byte>, k: nat, mode: ColorMode, colors: seq<Rgba>)
    requires mode.Valid()
  {
    k * mode.Bpp() + mode.Bpp() <= 8 * |data| && PixelColor(data, k, mode) in colors
  }

  lemma PixelOfMode(data: seq<Byte>, i: nat, mode: ColorMode)
    requires mode.Valid() && i * mode.Bpp() + mode.Bpp() <= 8 * |data| && mode.Bpp() <= 8
    ensures ColorOfMode(mode, PixelColor(data, i, mode))
  {
    hide SmallColor, PixelValue;
    SmallDepths(mode);
    assert PixelColor(data, i, mode) == SmallColor(mode, PixelValue(data, i, mode.bitdepth));
  }

  /** One more color, if it is a new one. */
  method CountColor(tree: ColorTree, c: Rgba, numcolors: nat, palette: seq<Rgba>, mode: ColorMode, ghost found: seq<Rgba>)
    returns (numcolors': nat, palette': seq<Rgba>, ghost found': seq<Rgba>)
    requires tree.Valid() && (forall d :: d in tree.colors <==> d in found) && numcolors == |found|
    requires mode.Valid() && Found(mode, found, palette) && (mode.Bpp() <= 8 ==> ColorOfMode(mode, c))
    modifies tree, tree.nodes.Values
    ensures tree.Valid() && fresh(tree.nodes.Values - old(tree.nodes.Values))
    ensures (forall d :: d in tree.colors <==> d in found') && numcolors' == |found'|
    ensures Found(mode, found', palette') && c in found' && found <= found' <= found + [c]
  {
    hide ColorTree.Valid, ColorOfMode;
    numcolors', palette', found' := numcolors, palette, found;
    var present := tree.Get(c);
    if present < 0 {
      tree.Add(c, numcolors);
      if numcolors < 256 { palette' := palette + [c]; }
      numcolors' := numcolors + 1;
      found' := found + [c];
    }
  }

  /** The scan ends early only when nothing can be missing. */
  lemma EarlyExit(data: seq<Byte>, i: nat, numpixels: nat, mode: ColorMode, found: seq<Rgba>, palette: seq<Rgba>)
    requires mode.Valid() && HasPixels(data, numpixels, mode.Bpp()) && Found(mode, found, palette) && |found| <= 256
    requires |found| < MaxNumColors(mode.Bpp()) ==> i >= numpixels && Scanned(data, i, mode, found)
    ensures palette == found && Scanned(data, numpixels, mode, found)
  {
    hide PixelColor, SmallColor, ColorOfMode;
    forall k: nat | k < numpixels ensures PixelIn(data, k, mode, found) {
      PixelInside(k, numpixels, mode.Bpp());
      if |found| < MaxNumColors(mode.Bpp()) {
        assert PixelIn(data, k, mode, found);
      } else {
        MaxIsAll(mode);
        PixelOfMode(data, k, mode);
        OfMode(mode, found, PixelColor(data, k, mode));
      }
    }
  }

  lemma OfMode(mode: ColorMode, found: seq<Rgba>, c: Rgba)
    requires mode.Valid() && mode.Bpp() <= 8 && DistinctColors(found) && (forall d :: d in found ==> ColorOfMode(mode, d))
    requires |found| >= Pow2(mode.bitdepth) && ColorOfMode(mode, c)
    ensures c in found
  {
    hide SmallColor;
    var v: nat :| v < Pow2(mode.bitdepth) && c == SmallColor(mode, v);
    AllFound(mode, found, v);
  }

  // ---- Colors and transparency ----

  /** The colors of the first n pixels. */
  ghost function Colors(data: seq<Byte>, n: nat, mode: ColorMode): (s: seq<Rgba>)
    requires mode.Valid() && HasPixels(data, n, mode.Bpp())
    ensures |s| == n
  {
    if n == 0 then []
    else
      PixelInside(n - 1, n, mode.Bpp());
      Colors(data, n - 1, mode) + [PixelColor(data, n - 1, mode)]
  }

  lemma {:induction false} ColorAt(data: seq<Byte>, n: nat, mode: ColorMode, i: nat)
    requires mode.Valid() && HasPixels(data, n, mode.Bpp()) && i < n
    ensures i * mode.Bpp() + mode.Bpp() <= 8 * |data| && Colors(data, n, mode)[i] == PixelColor(data, i, mode)
  {
    hide PixelColor;
    PixelInside(n - 1, n, mode.Bpp());
    if i < n - 1 { ColorAt(data, n - 1, mode, i); }
  }

  predicate GreyType(mode: ColorMode) { mode.colortype == 0 || mode.colortype == 4 }

  /** The colors of grey images are grey, and those of images that cannot have alpha are opaque. */
  lemma ColorOfType(data: seq<Byte>, i: nat, mode: ColorMode)
    requires mode.Valid() && i * mode.Bpp() + mode.Bpp() <= 8 * |data|
    ensures GreyType(mode) ==> Grey(PixelColor(data, i, mode))
    ensures !CanHaveAlpha(mode) ==> PixelColor(data, i, mode).a == 255
  {
    hide PixelValue, GreyLevel;
  }

  ghost predicate Colorful(s: seq<Color<int>>) { exists k: nat :: k < |s| && !Grey(s[k]) }

  /** What is known of the pixels s. */
  ghost predicate Known(s: seq<Color<int>>, colored: bool, flags: KeyFlags, max: Peak := 255) {
    (colored <==> Colorful(s)) && Flagged(s, flags, max)
  }

  /** One more pixel. Flags that are settled are not looked at any more. */
  lemma KnownStep(s: seq<Color<int>>, c: Color<int>, grey: bool, solid: bool, colored: bool, flags: KeyFlags,
                  colored': bool, flags': KeyFlags, max: Peak := 255)
    requires Known(s, colored, flags, max) && (grey ==> Grey(c)) && (solid ==> c.a == max && !flags.key)
    requires colored' == (colored || (!grey && !Grey(c)))
    requires flags' == if flags.alpha || solid then flags else NextFlags(flags, c, max)
    ensures Known(s + [c], colored', flags', max)
  {
    hide Flagged;
    ColorfulPush(s, c);
    if flags.alpha { AlphaStays(s, c, flags, max); } else { FlagsStep(s, c, flags, max); }
  }

  /** The flags are right for the first i pixels. */
  ghost predicate Profiled(data: seq<Byte>, i: nat, mode: ColorMode, colored: bool, flags: KeyFlags)
    requires mode.Valid()
  {
    HasPixels(data, i, mode.Bpp()) && Known(Colors(data, i, mode), colored, flags)
  }

  lemma NothingProfiled(data: seq<Byte>, mode: ColorMode, color: Rgba)
    requires mode.Valid()
    ensures Profiled(data, 0, mode, false, KeyFlags(false, false, color))
  {
  }

  lemma ProfiledStep(data: seq<Byte>, i: nat, mode: ColorMode, colored: bool, flags: KeyFlags, colored': bool, flags': KeyFlags)
    requires mode.Valid() && HasPixels(data, i + 1, mode.Bpp()) && Profiled(data, i, mode, colored, flags)
    requires i * mode.Bpp() + mode.Bpp() <= 8 * |data|
    requires
      var c := PixelColor(data, i, mode);
      && colored' == (colored || (!GreyType(mode) && !Grey(c)))
      && flags' == if flags.alpha || !CanHaveAlpha(mode) then flags else NextFlags(flags, c)
    requires !CanHaveAlpha(mode) ==> !flags.key
    ensures Profiled(data, i + 1, mode, colored', flags')
  {
    hide PixelColor, Known, CanHaveAlpha;
    var s, c := Colors(data, i, mode), PixelColor(data, i, mode);
    ColorOfType(data, i, mode);
    assert Colors(data, i + 1, mode) == s + [c];
    KnownStep(s, c, GreyType(mode), !CanHaveAlpha(mode), colored, flags, colored', flags');
  }

  lemma ColorfulPush(s: seq<Color<int>>, c: Color<int>)
    ensures Colorful(s + [c]) <==> Colorful(s) || !Grey(c)
  {
    var t := s + [c];
    assert t[|s|] == c;
    if k: nat :| k < |s| && !Grey(s[k]) { assert !Grey(t[k]); }
  }

  /** If nothing can change any more, the flags are right for the whole image. */
  lemma {:induction false} ProfiledEarly(data: seq<Byte>, i: nat, n: nat, mode: ColorMode, colored: bool, flags: KeyFlags)
    requires mode.Valid() && i <= n && HasPixels(data, n, mode.Bpp()) && Profiled(data, i, mode, colored, flags)
    requires (colored || GreyType(mode)) && (flags.alpha || !CanHaveAlpha(mode)) && (!CanHaveAlpha(mode) ==> !flags.key)
    ensures Profiled(data, n, mode, colored, flags)
  {
    hide PixelColor, Profiled, CanHaveAlpha;
    if i < n {
      PixelInside(n - 1, n, mode.Bpp());
      ProfiledEarly(data, i, n - 1, mode, colored, flags);
      ColorOfType(data, n - 1, mode);
      ProfiledStep(data, n - 1, mode, colored, flags, colored, flags);
    }
  }

  // ---- The same for sixteen bits ----

  ghost function Colors16(data: seq<Byte>, n: nat, mode: ColorMode): (s: seq<Rgba16>)
    requires Sixteen(mode) && HasPixels(data, n, mode.Bpp())
    ensures |s| == n
  {
    if n == 0 then []
    else
      PixelInside(n - 1, n, mode.Bpp());
      Colors16(data, n - 1, mode) + [PixelColor16(data, n - 1, mode)]
  }

  lemma {:induction false} Color16At(data: seq<Byte>, n: nat, mode: ColorMode, i: nat)
    requires Sixteen(mode) && HasPixels(data, n, mode.Bpp()) && i < n
    ensures i * mode.Bpp() + mode.Bpp() <= 8 * |data| && Colors16(data, n, mode)[i] == PixelColor16(data, i, mode)
  {
    hide PixelColor16;
    PixelInside(n - 1, n, mode.Bpp());
    if i < n - 1 { Color16At(data, n - 1, mode, i); }
  }

  lemma Color16OfType(data: seq<Byte>, i: nat, mode: ColorMode)
    requires Sixteen(mode) && i * mode.Bpp() + mode.Bpp() <= 8 * |data|
    ensures GreyType(mode) ==> Grey(PixelColor16(data, i, mode))
    ensures !CanHaveAlpha(mode) ==> PixelColor16(data, i, mode).a == 65535
  {
  }

  ghost predicate Profiled16(data: seq<Byte>, i: nat, mode: ColorMode, colored: bool, flags: KeyFlags)
    requires Sixteen(mode)
  {
    HasPixels(data, i, mode.Bpp()) && Known(Colors16(data, i, mode), colored, flags, 65535)
  }

  lemma Profiled16Step(data: seq<Byte>, i: nat, mode: ColorMode, colored: bool, flags: KeyFlags, colored': bool, flags': KeyFlags)
    requires Sixteen(mode) && HasPixels(data, i + 1, mode.Bpp()) && Profiled16(data, i, mode, colored, flags)
    requires i * mode.Bpp() + mode.Bpp() <= 8 * |data|
    requires
      var c := PixelColor16(data, i, mode);
      && colored' == (colored || (!GreyType(mode) && !Grey(c)))
      && flags' == if flags.alpha || !CanHaveAlpha(mode) then flags else NextFlags(flags, c, 65535)
    requires !CanHaveAlpha(mode) ==> !flags.key
    ensures Profiled16(data, i + 1, mode, colored', flags')
  {
    hide PixelColor16, Known, CanHaveAlpha;
    var s, c := Colors16(data, i, mode), PixelColor16(data, i, mode);
    Color16OfType(data, i, mode);
    assert Colors16(data, i + 1, mode) == s + [c];
    KnownStep(s, c, GreyType(mode), !CanHaveAlpha(mode), colored, flags, colored', flags', 65535);
  }

  lemma {:induction false} Profiled16Early(data: seq<Byte>, i: nat, n: nat, mode: ColorMode, colored: bool, flags: KeyFlags)
    requires Sixteen(mode) && i <= n && HasPixels(data, n, mode.Bpp()) && Profiled16(data, i, mode, colored, flags)
    requires (colored || GreyType(mode)) && (flags.alpha || !CanHaveAlpha(mode)) && (!CanHaveAlpha(mode) ==> !flags.key)
    ensures Profiled16(data, n, mode, colored, flags)
  {
    hide PixelColor16, Profiled16, CanHaveAlpha;
    if i < n {
      PixelInside(n - 1, n, mode.Bpp());
      Profiled16Early(data, i, n - 1, mode, colored, flags);
      Color16OfType(data, n - 1, mode);
      Profiled16Step(data, n - 1, mode, colored, flags, colored, flags);
    }
  }

  // ---- Bits ----

  /** The bits found for grey pixels: more are asked for until those of the input are reached. */
  ghost function ScanBits(s: seq<Rgba>, bpp: nat): (bits: nat)
    ensures bits in {1, 2, 4, 8}
  {
    if s == [] then 1
    else
      var bits, needed := ScanBits(s[..|s| - 1], bpp), ValueRequiredBits(s[|s| - 1].r);
      if bits < bpp && bits < needed then needed else bits
  }

  /** Fewer bits than those of the input are enough for all grey levels. */
  lemma {:induction false} ScanBitsFit(s: seq<Rgba>, bpp: nat)
    ensures ScanBits(s, bpp) < bpp ==> forall k :: 0 <= k < |s| ==> ValueRequiredBits(s[k].r) <= ScanBits(s, bpp)
  {
    hide ValueRequiredBits;
    if s != [] { ScanBitsFit(s[..|s| - 1], bpp); }
  }

  /** The bits for the first i pixels; eight as soon as there are colors or an alpha channel. */
  ghost predicate BitsAre(data: seq<Byte>, i: nat, mode: ColorMode, eight: bool, bits: nat)
    requires mode.Valid()
  {
    HasPixels(data, i, mode.Bpp()) && bits == if eight then 8 else ScanBits(Colors(data, i, mode), mode.Bpp())
  }

  lemma MoreBits(data: seq<Byte>, i: nat, mode: ColorMode, eight: bool, bits: nat, eight': bool, bits': nat)
    requires mode.Valid() && HasPixels(data, i + 1, mode.Bpp()) && BitsAre(data, i, mode, eight, bits) && (eight ==> eight')
    requires i * mode.Bpp() + mode.Bpp() <= 8 * |data|
    requires
      var needed := ValueRequiredBits(PixelColor(data, i, mode).r);
      bits' == if eight' then 8 else if bits < mode.Bpp() && bits < needed then needed else bits
    ensures BitsAre(data, i + 1, mode, eight', bits')
  {
    hide PixelColor, ValueRequiredBits;
    var s := Colors(data, i, mode);
    assert Colors(data, i + 1, mode) == s + [PixelColor(data, i, mode)];
    assert (s + [PixelColor(data, i, mode)])[..i] == s;
  }

  lemma NoBitsYet(data: seq<Byte>, mode: ColorMode)
    requires mode.Valid()
    ensures BitsAre(data, 0, mode, false, 1)
  {
  }

  lemma {:induction false} BitsEnough(data: seq<Byte>, i: nat, n: nat, mode: ColorMode, eight: bool, bits: nat)
    requires mode.Valid() && i <= n && HasPixels(data, n, mode.Bpp()) && BitsAre(data, i, mode, eight, bits)
    requires i == n || bits >= mode.Bpp()
    ensures BitsAre(data, n, mode, eight, bits)
  {
    hide ValueRequiredBits, PixelColor, BitsAre;
    if i < n {
      PixelInside(n - 1, n, mode.Bpp());
      BitsEnough(data, i, n - 1, mode, eight, bits);
      EightStays(data, n - 1, mode, eight, bits);
      MoreBits(data, n - 1, mode, eight, bits, eight, bits);
    }
  }

  lemma EightStays(data: seq<Byte>, i: nat, mode: ColorMode, eight: bool, bits: nat)
    requires mode.Valid() && BitsAre(data, i, mode, eight, bits)
    ensures bits in {1, 2, 4, 8} && (eight ==> bits == 8)
  {
  }

  // ---- The scan ----

  /** What is known of colors, key, alpha and bits, and which of it is settled. */
  datatype Scan = Scan(colored: bool, colored_done: bool, key: bool, key_r: int, key_g: int, key_b: int, alpha: bool, alpha_done: bool,
                       bits: nat, bits_done: bool)
  {
    function Flags(): KeyFlags { KeyFlags(key, alpha, Rgba(key_r, key_g, key_b, 0)) }

    function Result(numcolors: nat, palette: seq<Rgba>): Profile {
      Profile(colored, key, 257 * key_r, 257 * key_g, 257 * key_b, alpha, numcolors, bits, palette)
    }
  }

  ghost predicate ScanState(data: seq<Byte>, i: nat, mode: ColorMode, s: Scan)
    requires mode.Valid()
  {
    && Profiled(data, i, mode, s.colored, s.Flags()) && BitsAre(data, i, mode, s.colored || s.alpha, s.bits)
    && (s.colored_done <==> s.colored || GreyType(mode)) && (s.alpha_done <==> s.alpha || !CanHaveAlpha(mode))
    && (!CanHaveAlpha(mode) ==> !s.key)
    && (s.bits_done ==> s.bits >= mode.Bpp()) && (s.bits >= mode.Bpp() && !s.colored && !s.alpha ==> s.bits_done)
  }

  lemma NothingYet(data: seq<Byte>, mode: ColorMode, s: Scan)
    requires mode.Valid()
    requires s == Scan(false, GreyType(mode), false, 0, 0, 0, false, !CanHaveAlpha(mode), 1, mode.Bpp() == 1)
    ensures ScanState(data, 0, mode, s)
  {
    hide CanHaveAlpha;
    NothingProfiled(data, mode, Rgba(0, 0, 0, 0));
    NoBitsYet(data, mode);
  }

  /** The part of the scan that looks for a color key. */
  method LookForKey(c: Color<int>, before: Scan, max: Peak := 255) returns (scan: Scan)
    requires !before.alpha
    ensures scan.Flags() == NextFlags(before.Flags(), c, max)
    ensures scan == before.(key := scan.key, key_r := scan.key_r, key_g := scan.key_g, key_b := scan.key_b, alpha := scan.alpha,
                            alpha_done := before.alpha_done || scan.alpha, bits := if scan.alpha && before.bits < 8 then 8 else before.bits)
  {
    scan := before;
    var matchkey := c.r == scan.key_r && c.g == scan.key_g && c.b == scan.key_b;
    if c.a != max && (c.a != 0 || (scan.key && !matchkey)) {
      scan := scan.(alpha := true, alpha_done := true);
      if scan.bits < 8 { scan := scan.(bits := 8); }
    } else if c.a == 0 && !scan.alpha && !scan.key {
      scan := scan.(key := true, key_r := c.r, key_g := c.g, key_b := c.b);
    } else if c.a == max && scan.key && matchkey {
      scan := scan.(alpha := true, alpha_done := true);
      if scan.bits < 8 { scan := scan.(bits := 8); }
    }
  }

  /** One pixel, except for the count of colors. */
  method ScanPixel(data: seq<Byte>, i: nat, mode: ColorMode, c: Rgba, before: Scan) returns (scan: Scan)
    requires mode.Valid() && HasPixels(data, i + 1, mode.Bpp()) && i * mode.Bpp() + mode.Bpp() <= 8 * |data|
    requires c == PixelColor(data, i, mode) && ScanState(data, i, mode, before)
    ensures ScanState(data, i + 1, mode, scan)
  {
    hide PixelColor, HasPixels, Profiled, BitsAre, CanHaveAlpha, ValueRequiredBits, NextFlags;
    EightStays(data, i, mode, before.colored || before.alpha, before.bits);
    scan := before;
    if !scan.bits_done && scan.bits < 8 {
      var needed := ValueRequiredBits(c.r);
      if needed > scan.bits { scan := scan.(bits := needed); }
    }
    scan := scan.(bits_done := scan.bits >= mode.Bpp());
    if !scan.colored_done && (c.r != c.g || c.r != c.b) {
      scan := scan.(colored := true, colored_done := true);
      if scan.bits < 8 { scan := scan.(bits := 8); }
    }
    if !scan.alpha_done { scan := LookForKey(c, scan); }
    ProfiledStep(data, i, mode, before.colored, before.Flags(), scan.colored, scan.Flags());
    MoreBits(data, i, mode, before.colored || before.alpha, before.bits, scan.colored || scan.alpha, scan.bits);
  }

  ghost predicate ScanState16(data: seq<Byte>, i: nat, mode: ColorMode, s: Scan)
    requires Sixteen(mode)
  {
    && Profiled16(data, i, mode, s.colored, s.Flags()) && s.bits == 16
    && (s.colored_done <==> s.colored || GreyType(mode)) && (s.alpha_done <==> s.alpha || !CanHaveAlpha(mode))
    && (!CanHaveAlpha(mode) ==> !s.key)
  }

  method ScanPixel16(data: seq<Byte>, i: nat, mode: ColorMode, c: Rgba16, before: Scan) returns (scan: Scan)
    requires Sixteen(mode) && HasPixels(data, i + 1, mode.Bpp()) && i * mode.Bpp() + mode.Bpp() <= 8 * |data|
    requires c == PixelColor16(data, i, mode) && ScanState16(data, i, mode, before)
    ensures ScanState16(data, i + 1, mode, scan)
  {
    hide PixelColor16, HasPixels, Profiled16, CanHaveAlpha, NextFlags;
    scan := before;
    if !scan.colored_done && (c.r != c.g || c.r != c.b) { scan := scan.(colored := true, colored_done := true); }
    if !scan.alpha_done { scan := LookForKey(c, scan, 65535); }
    Profiled16Step(data, i, mode, before.colored, before.Flags(), scan.colored, scan.Flags());
  }

  /** The profile of an image that is truly 16-bit: its key is the one of 16 bits. */
  ghost predicate ProfileOf16(prof: Profile, data: seq<Byte>, n: nat, mode: ColorMode)
    requires Sixteen(mode) && HasPixels(data, n, mode.Bpp())
  {
    && prof.bits == 16 && prof.numcolors == 0
    && Known(Colors16(data, n, mode), prof.colored, KeyFlags(prof.key, prof.alpha, Rgba(prof.key_r, prof.key_g, prof.key_b, 0)), 65535)
  }

  /** The loop over truly 16-bit images; there are no colors to count. */
  method ScanSixteen(data: seq<Byte>, numpixels: nat, mode: ColorMode) returns (prof: Profile)
    requires Sixteen(mode) && HasPixels(data, numpixels, mode.Bpp())
    ensures ProfileOf16(prof, data, numpixels, mode)
  {
    hide PixelColor16, HasPixels, CanHaveAlpha, ScanState16, Known;
    var scan := Scan(false, GreyType(mode), false, 0, 0, 0, false, !CanHaveAlpha(mode), 16, true);
    Nothing16(data, mode, scan);
    var i := 0;
    while i < numpixels
      invariant i <= numpixels && ScanState16(data, i, mode, scan)
    {
      InsideImage(data, i, numpixels, mode);
      scan := ScanPixel16(data, i, mode, PixelColor16(data, i, mode), scan);
      i := i + 1;
      if scan.alpha_done && scan.colored_done { break; }
    }
    Profile16Made(data, i, numpixels, mode, scan);
    prof := Profile(scan.colored, scan.key, scan.key_r, scan.key_g, scan.key_b, scan.alpha, 0, 16, []);
  }

  lemma Nothing16(data: seq<Byte>, mode: ColorMode, s: Scan)
    requires Sixteen(mode) && s == Scan(false, GreyType(mode), false, 0, 0, 0, false, !CanHaveAlpha(mode), 16, true)
    ensures ScanState16(data, 0, mode, s)
  {
    hide CanHaveAlpha;
  }

  lemma Profile16Made(data: seq<Byte>, i: nat, n: nat, mode: ColorMode, scan: Scan)
    requires Sixteen(mode) && HasPixels(data, n, mode.Bpp()) && i <= n && ScanState16(data, i, mode, scan)
    requires i == n || (scan.alpha_done && scan.colored_done)
    ensures Known(Colors16(data, n, mode), scan.colored, scan.Flags(), 65535)
  {
    hide HasPixels, CanHaveAlpha, Known;
    if i < n { Profiled16Early(data, i, n, mode, scan.colored, scan.Flags()); }
  }

  /** The profile of an image that is not truly 16-bit. */
  ghost predicate ProfileOf(prof: Profile, data: seq<Byte>, n: nat, mode: ColorMode)
    requires mode.Valid() && HasPixels(data, n, mode.Bpp())
  {
    && (prof.colored <==> Colorful(Colors(data, n, mode)))
    && (exists color: Color<int> :: Flagged(Colors(data, n, mode), KeyFlags(prof.key, prof.alpha, color)) && KeyDoubled(prof, color))
    && prof.bits == (if prof.colored || prof.alpha then 8 else ScanBits(Colors(data, n, mode), mode.Bpp()))
    && ColorsCounted(prof.numcolors, prof.palette, data, n, mode)
  }

  /** Up to 256 colors are counted, and each is in the palette once. */
  ghost predicate ColorsCounted(numcolors: nat, palette: seq<Rgba>, data: seq<Byte>, n: nat, mode: ColorMode)
    requires mode.Valid() && HasPixels(data, n, mode.Bpp())
  {
    && (numcolors <= 256 <==> Different(Colors(data, n, mode)) <= 256)
    && (numcolors <= 256 ==>
          && |palette| == numcolors == Different(Colors(data, n, mode))
          && DistinctColors(palette) && Scanned(data, n, mode, palette))
  }

  /** All colors found so far are those of pixels before i. */
  ghost predicate FoundOccur(found: seq<Rgba>, data: seq<Byte>, i: nat, mode: ColorMode)
    requires mode.Valid()
  {
    HasPixels(data, i, mode.Bpp()) && Occur(found, Colors(data, i, mode))
  }

  lemma NextOccurs(before: seq<Rgba>, found: seq<Rgba>, data: seq<Byte>, i: nat, mode: ColorMode)
    requires mode.Valid() && FoundOccur(before, data, i, mode) && HasPixels(data, i + 1, mode.Bpp())
    requires i * mode.Bpp() + mode.Bpp() <= 8 * |data| && found <= before + [PixelColor(data, i, mode)]
    ensures FoundOccur(found, data, i + 1, mode)
  {
    hide PixelColor, HasPixels;
    var more := before + [PixelColor(data, i, mode)];
    assert forall k :: 0 <= k < |found| ==> found[k] == more[k];
  }

  lemma {:induction false} StillOccur(found: seq<Rgba>, data: seq<Byte>, i: nat, n: nat, mode: ColorMode)
    requires mode.Valid() && FoundOccur(found, data, i, mode) && i <= n && HasPixels(data, n, mode.Bpp())
    ensures FoundOccur(found, data, n, mode)
    decreases n
  {
    hide PixelColor;
    if i < n { StillOccur(found, data, i, n - 1, mode); }
  }

  lemma {:induction false} ScannedOccur(data: seq<Byte>, n: nat, mode: ColorMode, found: seq<Rgba>)
    requires mode.Valid() && HasPixels(data, n, mode.Bpp()) && Scanned(data, n, mode, found)
    ensures Occur(Colors(data, n, mode), found)
  {
    hide PixelColor;
    if n > 0 {
      ScannedOccur(data, n - 1, mode, found);
      assert PixelIn(data, n - 1, mode, found);
    }
  }

  /** What the scan counted. */
  lemma AllCounted(data: seq<Byte>, i: nat, n: nat, mode: ColorMode, found: seq<Rgba>, palette: seq<Rgba>)
    requires mode.Valid() && HasPixels(data, n, mode.Bpp()) && Found(mode, found, palette) && i <= n && FoundOccur(found, data, i, mode)
    requires |found| < MaxNumColors(mode.Bpp()) ==> i >= n && Scanned(data, i, mode, found)
    ensures ColorsCounted(|found|, palette, data, n, mode)
  {
    hide PixelColor, HasPixels, Scanned, DistinctColors, Different, ColorOfMode, Occur, MaxNumColors;
    StillOccur(found, data, i, n, mode);
    if |found| <= 256 {
      EarlyExit(data, i, n, mode, found, palette);
      ScannedOccur(data, n, mode, found);
      DifferentIs(found, Colors(data, n, mode));
    } else {
      DifferentAtLeast(found, Colors(data, n, mode));
    }
  }

  ghost predicate KeyDoubled(prof: Profile, color: Color<int>) {
    prof.key_r == 257 * color.r && prof.key_g == 257 * color.g && prof.key_b == 257 * color.b
  }

  method CountPixel(tree: ColorTree, data: seq<Byte>, i: nat, numpixels: nat, mode: ColorMode, numcolors: nat, palette: seq<Rgba>,
                    ghost found: seq<Rgba>)
    returns (numcolors': nat, palette': seq<Rgba>, ghost found': seq<Rgba>)
    requires tree.Valid() && (forall d :: d in tree.colors <==> d in found) && numcolors == |found|
    requires mode.Valid() && HasPixels(data, numpixels, mode.Bpp()) && i < numpixels
    requires Found(mode, found, palette) && Scanned(data, i, mode, found)
    modifies tree, tree.nodes.Values
    ensures tree.Valid() && fresh(tree.nodes.Values - old(tree.nodes.Values))
    ensures (forall d :: d in tree.colors <==> d in found') && numcolors' == |found'|
    ensures Found(mode, found', palette') && Scanned(data, i + 1, mode, found')
    ensures i * mode.Bpp() + mode.Bpp() <= 8 * |data| && found' <= found + [PixelColor(data, i, mode)]
  {
    hide PixelColor, ColorTree.Valid, ColorOfMode, Found, Scanned, HasPixels;
    InsideImage(data, i, numpixels, mode);
    if mode.Bpp() <= 8 { PixelOfMode(data, i, mode); }
    numcolors', palette', found' := CountColor(tree, PixelColor(data, i, mode), numcolors, palette, mode, found);
    OneMoreScanned(data, i, mode, found, found');
  }

  lemma ProfileMade(prof: Profile, data: seq<Byte>, i: nat, n: nat, mode: ColorMode, scan: Scan)
    requires mode.Valid() && HasPixels(data, n, mode.Bpp()) && i <= n && ScanState(data, i, mode, scan)
    requires i == n || (scan.alpha_done && scan.colored_done && scan.bits_done)
    requires prof == scan.Result(prof.numcolors, prof.palette)
    requires ColorsCounted(prof.numcolors, prof.palette, data, n, mode)
    ensures ProfileOf(prof, data, n, mode)
  {
    hide BitsAre, Scanned, Flagged, Colorful, HasPixels, Profiled, CanHaveAlpha, ScanBits, ColorsCounted;
    if i < n { ProfiledEarly(data, i, n, mode, scan.colored, scan.Flags()); }
    BitsEnough(data, i, n, mode, scan.colored || scan.alpha, scan.bits);
    BitsIs(data, n, mode, scan.colored || scan.alpha, scan.bits);
    FlagsOf(data, n, mode, scan.colored, scan.Flags());
    assert KeyFlags(prof.key, prof.alpha, scan.Flags().color) == scan.Flags() && KeyDoubled(prof, scan.Flags().color);
  }

  lemma BitsIs(data: seq<Byte>, n: nat, mode: ColorMode, eight: bool, bits: nat)
    requires mode.Valid() && BitsAre(data, n, mode, eight, bits)
    ensures HasPixels(data, n, mode.Bpp()) && bits == if eight then 8 else ScanBits(Colors(data, n, mode), mode.Bpp())
  {
    hide ScanBits;
  }

  lemma FlagsOf(data: seq<Byte>, n: nat, mode: ColorMode, colored: bool, flags: KeyFlags)
    requires mode.Valid() && Profiled(data, n, mode, colored, flags)
    ensures HasPixels(data, n, mode.Bpp()) && (colored <==> Colorful(Colors(data, n, mode))) && Flagged(Colors(data, n, mode), flags)
  {
    hide Colorful, Flagged;
  }

  /** lodepng_get_color_profile. */
  method GetColorProfile(data: seq<Byte>, numpixels: nat, mode: ColorMode) returns (prof: Profile)
    requires mode.Valid() && HasPixels(data, numpixels, mode.Bpp())
    ensures prof.bits == 16 <==> mode.bitdepth == 16 && TrulySixteenBits(data, numpixels * Channels(mode.colortype))
    ensures if prof.bits == 16 then ProfileOf16(prof, data, numpixels, mode) else ProfileOf(prof, data, numpixels, mode)
  {
    hide PixelColor, ColorTree.Valid, ColorOfMode, Found, FoundOccur, Scanned, HasPixels, CanHaveAlpha, ScanState, Known;
    var sixteen := TrulySixteen(data, numpixels, mode);
    if sixteen {
      prof := ScanSixteen(data, numpixels, mode);
      return;
    }
    var scan := Scan(false, GreyType(mode), false, 0, 0, 0, false, !CanHaveAlpha(mode), 1, mode.Bpp() == 1);
    var maxnumcolors := MaxNumColors(mode.Bpp());
    var numcolors, numcolors_done := 0, false;
    var palette: seq<Rgba> := [];
    ghost var found: seq<Rgba> := [];
    var tree := new ColorTree();
    NothingFound(data, mode);
    NothingYet(data, mode, scan);
    var i := 0;
    while i < numpixels
      invariant i <= numpixels && fresh(tree) && fresh(tree.nodes.Values)
      invariant tree.Valid() && (forall c :: c in tree.colors <==> c in found) && numcolors == |found|
      invariant Found(mode, found, palette) && (numcolors_done <==> numcolors >= maxnumcolors)
      invariant numcolors_done || Scanned(data, i, mode, found)
      invariant FoundOccur(found, data, i, mode)
      invariant ScanState(data, i, mode, scan)
    {
      InsideImage(data, i, numpixels, mode);
      var c := PixelColor(data, i, mode);
      scan := ScanPixel(data, i, mode, c, scan);
      if !numcolors_done {
        ghost var before := found;
        numcolors, palette, found := CountPixel(tree, data, i, numpixels, mode, numcolors, palette, found);
        numcolors_done := numcolors >= maxnumcolors;
        NextOccurs(before, found, data, i, mode);
      } else {
        StillOccur(found, data, i, i + 1, mode);
      }
      i := i + 1;
      if scan.alpha_done && numcolors_done && scan.colored_done && scan.bits_done { break; }
    }
    AllCounted(data, i, numpixels, mode, found, palette);
    prof := scan.Result(numcolors, palette);
    ProfileMade(prof, data, i, numpixels, mode, scan);
  }

  lemma NothingFound(data: seq<Byte>, mode: ColorMode)
    requires mode.Valid()
    ensures Found(mode, [], []) && Scanned(data, 0, mode, []) && FoundOccur([], data, 0, mode)
  {
  }

  lemma InsideImage(data: seq<Byte>, i: nat, numpixels: nat, mode: ColorMode)
    requires mode.Valid() && HasPixels(data, numpixels, mode.Bpp()) && i < numpixels
    ensures i * mode.Bpp() + mode.Bpp() <= 8 * |data| && HasPixels(data, i + 1, mode.Bpp())
  {
    PixelInside(i, numpixels, mode.Bpp());
  }

  lemma OneMoreScanned(data: seq<Byte>, i: nat, mode: ColorMode, before: seq<Rgba>, found: seq<Rgba>)
    requires mode.Valid() && Scanned(data, i, mode, before) && before <= found
    requires i * mode.Bpp() + mode.Bpp() <= 8 * |data| && PixelColor(data, i, mode) in found
    ensures Scanned(data, i + 1, mode, found)
  {
    hide PixelColor;
    forall k: nat | k < i + 1 ensures PixelIn(data, k, mode, found) {
      if k < i { assert PixelIn(data, k, mode, before); }
    }
  }
}
