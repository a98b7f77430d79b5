/**
 * The color key of the automatic choice of a color type: when it is found, when an alpha channel is found
 * to be needed, and when the key is right (lodepng.c:3614-3637, 3725-3733).
 */
module ColorKeys {
  import opened Bits
  import opened ColorTrees

  /** The alpha value of opaque pixels: 255, or 65535 for channels of 16 bits. */
  type Peak = x: int | 0 < x witness 1

  predicate Grey(c: Color<int>) { c.r == c.g && c.r == c.b }

  predicate SameRgb(c: Color<int>, d: Color<int>) { c.r == d.r && c.g == d.g && c.b == d.b }

  /** The first pixel that is not opaque, and it is transparent. */
  ghost predicate FirstClear(s: seq<Color<int>>, f: nat, max: Peak := 255) {
    f < |s| && s[f].a == 0 && forall k :: 0 <= k < f ==> s[k].a == max
  }

  ghost predicate Partly(s: seq<Color<int>>, k: nat, max: Peak := 255) { k < |s| && s[k].a != 0 && s[k].a != max }

  /** A pixel behind the transparent one that contradicts its color as the key. */
  ghost predicate Clash(s: seq<Color<int>>, f: nat, k: nat, max: Peak := 255) {
    f < k < |s| && s[f].a == 0 && (s[k].a == 0 || s[k].a == max) && (s[k].a == 0 <==> !SameRgb(s[f], s[k]))
  }

  /** What makes the scan ask for an alpha channel. */
  ghost predicate NeedsAlpha(s: seq<Color<int>>, max: Peak := 255) {
    || (exists k: nat :: Partly(s, k, max))
    || exists f: nat, k: nat :: FirstClear(s, f, max) && Clash(s, f, k, max)
  }

  /** The flags of the profile after the pixels s; the key is the color of the first transparent one. */
  datatype KeyFlags = KeyFlags(key: bool, alpha: bool, color: Color<int>)

  ghost predicate Flagged(s: seq<Color<int>>, flags: KeyFlags, max: Peak := 255) {
    && (flags.alpha <==> NeedsAlpha(s, max))
    && (flags.key <==> exists f: nat :: FirstClear(s, f, max))
    && (flags.key ==> exists f: nat :: FirstClear(s, f, max) && SameRgb(s[f], flags.color))
  }

  lemma ClearOnce(s: seq<Color<int>>, f: nat, g: nat, max: Peak := 255)
    requires FirstClear(s, f, max) && FirstClear(s, g, max)
    ensures f == g
  {
  }

  lemma ClearPush(s: seq<Color<int>>, c: Color<int>, f: nat, max: Peak := 255)
    ensures f < |s| ==> (FirstClear(s + [c], f, max) <==> FirstClear(s, f, max))
    ensures FirstClear(s + [c], |s|, max) <==> c.a == 0 && forall k :: 0 <= k < |s| ==> s[k].a == max
  {
    var t := s + [c];
    assert forall k :: 0 <= k < |s| ==> t[k] == s[k];
  }

  lemma ClashPush(s: seq<Color<int>>, c: Color<int>, f: nat, k: nat, max: Peak := 255)
    ensures k < |s| ==> (Clash(s + [c], f, k, max) <==> Clash(s, f, k, max))
  {
  }

  /** Once an alpha channel is asked for, further pixels change nothing. */
  lemma AlphaStays(s: seq<Color<int>>, c: Color<int>, flags: KeyFlags, max: Peak := 255)
    requires Flagged(s, flags, max) && flags.alpha
    ensures Flagged(s + [c], flags, max)
  {
    var t := s + [c];
    forall f: nat ensures f < |s| ==> (FirstClear(t, f, max) <==> FirstClear(s, f, max)) { ClearPush(s, c, f, max); }
    if k: nat :| Partly(s, k, max) {
      assert Partly(t, k, max);
    } else {
      var f: nat, k: nat :| FirstClear(s, f, max) && Clash(s, f, k, max);
      ClashPush(s, c, f, k, max);
      assert FirstClear(t, f, max) && Clash(t, f, k, max);
    }
    NoLateClear(s, c, max);
    assert NeedsAlpha(t, max);
    if flags.key {
      var f: nat :| FirstClear(s, f, max) && SameRgb(s[f], flags.color);
      assert FirstClear(t, f, max) && SameRgb(t[f], flags.color);
    }
  }

  lemma NoLateClear(s: seq<Color<int>>, c: Color<int>, max: Peak := 255)
    requires NeedsAlpha(s, max)
    ensures !FirstClear(s + [c], |s|, max)
  {
    ClearPush(s, c, |s|, max);
  }

  /** What one more pixel does to the flags while no alpha channel is asked for. */
  function NextFlags(flags: KeyFlags, c: Color<int>, max: Peak := 255): KeyFlags {
    var matchkey := SameRgb(flags.color, c);
    if c.a != max && (c.a != 0 || (flags.key && !matchkey)) then flags.(alpha := true)
    else if c.a == 0 && !flags.key then flags.(key := true, color := c)
    else if c.a == max && flags.key && matchkey then flags.(alpha := true)
    else flags
  }

  lemma {:induction false} AllOpaque(s: seq<Color<int>>, n: nat, max: Peak := 255)
    requires n <= |s| && (forall k: nat :: !Partly(s, k, max)) && forall f: nat :: !FirstClear(s, f, max)
    ensures forall k :: 0 <= k < n ==> s[k].a == max
  {
    if n > 0 {
      AllOpaque(s, n - 1, max);
      assert !Partly(s, n - 1, max) && !FirstClear(s, n - 1, max);
    }
  }

  lemma NeedsAlphaPush(s: seq<Color<int>>, c: Color<int>, max: Peak := 255)
    requires !NeedsAlpha(s, max)
    ensures NeedsAlpha(s + [c], max) <==> (c.a != 0 && c.a != max) || exists f: nat :: FirstClear(s, f, max) && Clash(s + [c], f, |s|, max)
  {
    var t := s + [c];
    forall k: nat ensures Partly(t, k, max) <==> k == |s| && c.a != 0 && c.a != max { assert !Partly(s, k, max); }
    forall f: nat, k: nat ensures FirstClear(t, f, max) && Clash(t, f, k, max) ==> k == |s| && FirstClear(s, f, max) {
      ClearPush(s, c, f, max);
      ClashPush(s, c, f, k, max);
    }
    if f: nat :| FirstClear(s, f, max) && Clash(t, f, |s|, max) {
      ClearPush(s, c, f, max);
      assert FirstClear(t, f, max) && Clash(t, f, |s|, max);
    }
    if c.a != 0 && c.a != max { assert Partly(t, |s|, max); }
  }

  lemma FlagsStep(s: seq<Color<int>>, c: Color<int>, flags: KeyFlags, max: Peak := 255)
    requires Flagged(s, flags, max) && !flags.alpha
    ensures Flagged(s + [c], NextFlags(flags, c, max), max)
  {
    hide NeedsAlpha;
    var t := s + [c];
    NeedsAlphaPush(s, c, max);
    forall f: nat ensures f < |s| ==> (FirstClear(t, f, max) <==> FirstClear(s, f, max)) { ClearPush(s, c, f, max); }
    ClearPush(s, c, |s|, max);
    if flags.key {
      var f: nat :| FirstClear(s, f, max) && SameRgb(s[f], flags.color);
      forall g: nat ensures FirstClear(s, g, max) ==> g == f { if FirstClear(s, g, max) { ClearOnce(s, f, g, max); } }
      assert FirstClear(t, f, max) && SameRgb(t[f], flags.color) && t[|s|] == c;
    } else {
      NothingPartly(s, max);
      AllOpaque(s, |s|, max);
      assert t[|s|] == c;
    }
  }

  lemma NothingPartly(s: seq<Color<int>>, max: Peak := 255)
    requires !NeedsAlpha(s, max)
    ensures forall k: nat :: !Partly(s, k, max)
  {
  }

  // ---- When the key is right ----

  /** Transparent pixels are those of the color of the key: an image with this key and without alpha holds the pixels s. */
  ghost predicate KeyIsRight(s: seq<Color<int>>, color: Color<int>, max: Peak := 255) {
    forall k :: 0 <= k < |s| ==> s[k].a == if SameRgb(s[k], color) then 0 else max
  }

  /**
   * Without an alpha channel the key is right exactly if no pixel before the first transparent one has its color.
   * Such a pixel was opaque when it was looked at, before there was a key to compare it with.
   */
  lemma KeyExactly(s: seq<Color<int>>, flags: KeyFlags, f: nat, max: Peak := 255)
    requires Flagged(s, flags, max) && flags.key && !flags.alpha && FirstClear(s, f, max)
    ensures KeyIsRight(s, flags.color, max) <==> forall k :: 0 <= k < f ==> !SameRgb(s[k], s[f])
  {
    var g: nat :| FirstClear(s, g, max) && SameRgb(s[g], flags.color);
    ClearOnce(s, f, g, max);
    forall k | 0 <= k < |s| ensures s[k].a == 0 || s[k].a == max { assert !Partly(s, k, max); }
    forall k: nat | f < k < |s| ensures s[k].a == if SameRgb(s[k], flags.color) then 0 else max {
      assert !Clash(s, f, k, max);
    }
  }

  /** Without a key and without an alpha channel all pixels are opaque. */
  lemma NoKeyOpaque(s: seq<Color<int>>, flags: KeyFlags, max: Peak := 255)
    requires Flagged(s, flags, max) && !flags.key && !flags.alpha
    ensures forall k :: 0 <= k < |s| ==> s[k].a == max
  {
    NothingPartly(s, max);
    AllOpaque(s, |s|, max);
  }
}
