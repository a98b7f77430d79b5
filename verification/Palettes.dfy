/** Palettes: the tree of their colors, and indices stored in an image (lodepng.c:3054-3060, 3429-3439). */
module Palettes {
  import opened Bits
  import opened Canonical
  import opened PrefixCode
  import opened PixelBits
  import opened Scanlines
  import opened ColorTrees
  import opened ColorKeys
  import opened Profiles
  import opened ColorChoice
  import opened ColorModes

  /** lodepng_color_mode_equal. */
  predicate ModesEqual(a: ColorMode, b: ColorMode) {
    && a.colortype == b.colortype && a.bitdepth == b.bitdepth && a.key_defined == b.key_defined
    && (a.key_defined ==> a.key_r == b.key_r && a.key_g == b.key_g && a.key_b == b.key_b)
    && a.palette == b.palette
  }

  /** The colors of the palette with their places. */
  ghost predicate Indexes(colors: map<Rgba, nat>, palette: seq<Rgba>) {
    && (forall c :: c in colors <==> c in palette)
    && forall c :: c in colors ==> colors[c] < |palette| && palette[colors[c]] == c
  }

  /** The colors that values of the mode can stand for. */
  function Usable(mode: ColorMode): (s: seq<Rgba>) {
    mode.palette[..if |mode.palette| < Pow2(mode.bitdepth) then |mode.palette| else Pow2(mode.bitdepth)]
  }

  lemma OneMoreIndex(colors: map<Rgba, nat>, palette: seq<Rgba>, i: nat)
    requires i < |palette| && Indexes(colors, palette[..i])
    ensures Indexes(colors[palette[i] := i], palette[..i + 1])
  {
    assert palette[..i + 1] == palette[..i] + [palette[i]];
    forall c | c in colors ensures palette[..i + 1][colors[c]] == c { assert palette[..i][colors[c]] == c; }
  }

  /** The tree of the first colors of a palette; of equal ones the last place counts. */
  method PaletteTree(palette: seq<Rgba>, palsize: nat) returns (tree: ColorTree)
    requires palsize <= |palette|
    ensures fresh(tree) && fresh(tree.nodes.Values) && tree.Valid() && Indexes(tree.colors, palette[..palsize])
  {
    hide ColorTree.Valid, Indexes;
    tree := new ColorTree();
    NoIndex(palette);
    for i := 0 to palsize
      invariant fresh(tree) && fresh(tree.nodes.Values) && tree.Valid() && Indexes(tree.colors, palette[..i])
    {
      OneMoreIndex(tree.colors, palette, i);
      tree.Add(palette[i], i);
    }
  }

  lemma NoIndex(palette: seq<Rgba>)
    ensures Indexes(map[], palette[..0])
  {
  }

  /** The values stored so far: in bytes, or packed. */
  ghost predicate Stored(out: seq<Byte>, bits: nat, values: seq<nat>) {
    if bits == 8 then |values| <= |out| && forall k: nat :: k < |values| ==> out[k] == values[k] else Packed(out, bits, values)
  }

  lemma ReadStored(out: seq<Byte>, bits: nat, values: seq<nat>, i: nat)
    requires (Partial(bits) || bits == 8) && Stored(out, bits, values) && i < |values|
    ensures i * bits + bits <= 8 * |out| && PixelValue(out, i, bits) == values[i]
  {
    hide PixelValue;
    if bits == 8 {
      ByteValue(out, i);
    } else {
      assert StoredAt(out, bits, values, i);
    }
  }

  lemma ByteValue(out: seq<Byte>, i: nat)
    requires i < |out|
    ensures i * 8 + 8 <= 8 * |out| && PixelValue(out, i, 8) == out[i]
  {
  }

  /** All pixels of the converted image have their colors. */
  ghost predicate SameColors(out: seq<Byte>, mode_out: ColorMode, data: seq<Byte>, mode_in: ColorMode, numpixels: nat)
    requires mode_in.Valid() && mode_out.Valid()
  {
    forall i: nat {:trigger SameColor(out, mode_out, data, mode_in, i)} ::
      i < numpixels ==> SameColor(out, mode_out, data, mode_in, i)
  }

  ghost predicate SameColor(out: seq<Byte>, mode_out: ColorMode, data: seq<Byte>, mode_in: ColorMode, i: nat)
    requires mode_in.Valid() && mode_out.Valid()
  {
    && i * mode_out.Bpp() + mode_out.Bpp() <= 8 * |out| && i * mode_in.Bpp() + mode_in.Bpp() <= 8 * |data|
    && PixelColor(out, i, mode_out) == PixelColor(data, i, mode_in)
  }

  lemma NothingStored(out: seq<Byte>, bits: nat)
    requires Partial(bits) || bits == 8
    ensures Stored(out, bits, [])
  {
  }
}
