/** Pixels of raw images: their colors, and packing small values into bytes (lodepng.c:2938-2947, 3138-3241, 3379-3413). */
module ColorModes {
  import opened Bits
  import opened Canonical
  import opened PixelBits
  import opened WordBits
  import opened Scanlines
  import opened ColorTrees

  datatype ColorMode = ColorMode(colortype: nat, bitdepth: nat, palette: seq<Rgba>,
                                 key_defined: bool, key_r: nat, key_g: nat, key_b: nat)
  {
    predicate Valid() { CheckColorValidity(colortype, bitdepth) == 0 && |palette| <= 256 }

    function Bpp(): nat { Channels(colortype) * bitdepth }
  }

  /** Values that are a part of a byte. */
  predicate Partial(bits: nat) { bits == 1 || bits == 2 || bits == 4 }

  lemma SmallDepths(mode: ColorMode)
    requires mode.Valid() && mode.Bpp() <= 8
    ensures (mode.colortype == 0 || mode.colortype == 3) && mode.Bpp() == mode.bitdepth && (Partial(mode.bitdepth) || mode.bitdepth == 8)
  {
  }

  /** The image has n pixels. */
  predicate HasPixels(data: seq<Byte>, n: nat, bpp: nat) { n * bpp <= 8 * |data| }

  lemma PixelInside(i: nat, n: nat, bpp: nat)
    requires i < n
    ensures i * bpp + bpp <= n * bpp
  {
    MulMonotone(i + 1, n, bpp);
    TimesPlusOne(i, bpp);
  }

  /** The value of pixel i, of at most eight bits: readBitsFromReversedStream, or the byte itself. */
  function PixelValue(data: seq<Byte>, i: nat, bits: nat): (v: nat)
    requires (Partial(bits) || bits == 8) && i * bits + bits <= 8 * |data|
    ensures v < Pow2(bits)
  {
    if bits == 8 then ByteBound(data[i]); data[i]
    else
      var s := BitsOf(data)[i * bits..i * bits + bits];
      CodeValueBound(s);
      CodeValue(s)
  }

  lemma ByteBound(b: Byte)
    ensures b < Pow2(8)
  {
    assert Pow2(8) == 256;
  }

  /** The color of a value of a grey or palette image of at most eight bits per pixel; unknown indices are black. */
  function SmallColor(mode: ColorMode, v: nat): Rgba
    requires mode.Valid() && mode.Bpp() <= 8 && v < Pow2(mode.bitdepth)
  {
    if mode.colortype == 0 then
      var grey := GreyLevel(v, mode.bitdepth);
      Rgba(grey, grey, grey, if mode.key_defined && v == mode.key_r then 0 else 255)
    else if v >= |mode.palette| then Rgba(0, 0, 0, 255)
    else mode.palette[v]
  }

  function GreyLevel(v: nat, bits: nat): Byte
    requires bits <= 8 && v < Pow2(bits)
  {
    if bits == 8 then EightBits(); v else if bits == 0 then 0 else TwoLevels(bits); Scaled(v, Pow2(bits) - 1)
  }

  function Scaled(v: nat, highest: nat): Byte
    requires v <= highest && highest >= 1
  {
    QuotientFits(v, highest);
    v * 255 / highest
  }

  lemma TwoLevels(bits: nat)
    requires bits >= 1
    ensures Pow2(bits) >= 2
  {
    assert Pow2(bits) == 2 * Pow2(bits - 1);
  }

  lemma QuotientFits(v: nat, d: nat)
    requires v <= d && d >= 1
    ensures v * 255 / d <= 255
  {
    var q := v * 255 / d;
    assert v * 255 == q * d + v * 255 % d;
    CancelMul(q, 255, d);
  }

  function Word(high: Byte, low: Byte): nat { 256 * (high as int) + low }

  function Opaque(r: Byte, g: Byte, b: Byte, key: bool): Rgba { Rgba(r, g, b, if key then 0 else 255) }

  /** getPixelColorRGBA8: of 16-bit channels the high byte. */
  function PixelColor(data: seq<Byte>, i: nat, mode: ColorMode): Rgba
    requires mode.Valid() && i * mode.Bpp() + mode.Bpp() <= 8 * |data|
  {
    if mode.Bpp() <= 8 then
      SmallDepths(mode);
      SmallColor(mode, PixelValue(data, i, mode.bitdepth))
    else if mode.colortype == 0 then
      Opaque(data[2 * i], data[2 * i], data[2 * i], mode.key_defined && Word(data[2 * i], data[2 * i + 1]) == mode.key_r)
    else if mode.colortype == 2 && mode.bitdepth == 8 then
      Opaque(data[3 * i], data[3 * i + 1], data[3 * i + 2],
             mode.key_defined && data[3 * i] == mode.key_r && data[3 * i + 1] == mode.key_g && data[3 * i + 2] == mode.key_b)
    else if mode.colortype == 2 then
      Opaque(data[6 * i], data[6 * i + 2], data[6 * i + 4],
             mode.key_defined && Word(data[6 * i], data[6 * i + 1]) == mode.key_r
             && Word(data[6 * i + 2], data[6 * i + 3]) == mode.key_g && Word(data[6 * i + 4], data[6 * i + 5]) == mode.key_b)
    else if mode.colortype == 4 && mode.bitdepth == 8 then Rgba(data[2 * i], data[2 * i], data[2 * i], data[2 * i + 1])
    else if mode.colortype == 4 then Rgba(data[4 * i], data[4 * i], data[4 * i], data[4 * i + 2])
    else if mode.bitdepth == 8 then Rgba(data[4 * i], data[4 * i + 1], data[4 * i + 2], data[4 * i + 3])
    else Rgba(data[8 * i], data[8 * i + 2], data[8 * i + 4], data[8 * i + 6])
  }

  // ---- Sixteen bits ----

  type Word16 = x: int | 0 <= x < 65536

  type Rgba16 = Color<Word16>

  function WordAt(data: seq<Byte>, k: nat): Word16
    requires k + 1 < |data|
  {
    Word(data[k], data[k + 1])
  }

  ghost predicate Sixteen(mode: ColorMode) { mode.Valid() && mode.bitdepth == 16 }

  predicate IsKey16(mode: ColorMode, r: Word16, g: Word16, b: Word16) {
    mode.key_defined && r == mode.key_r && (mode.colortype == 2 ==> g == mode.key_g && b == mode.key_b)
  }

  /** getPixelColorRGBA16. */
  function PixelColor16(data: seq<Byte>, i: nat, mode: ColorMode): Rgba16
    requires Sixteen(mode) && i * mode.Bpp() + mode.Bpp() <= 8 * |data|
  {
    if mode.colortype == 0 then
      var v := WordAt(data, 2 * i);
      Rgba(v, v, v, if IsKey16(mode, v, v, v) then 0 else 65535)
    else if mode.colortype == 2 then
      var r, g, b := WordAt(data, 6 * i), WordAt(data, 6 * i + 2), WordAt(data, 6 * i + 4);
      Rgba(r, g, b, if IsKey16(mode, r, g, b) then 0 else 65535)
    else if mode.colortype == 4 then
      var v := WordAt(data, 4 * i);
      Rgba(v, v, v, WordAt(data, 4 * i + 2))
    else
      Rgba(WordAt(data, 8 * i), WordAt(data, 8 * i + 2), WordAt(data, 8 * i + 4), WordAt(data, 8 * i + 6))
  }

  /** What is kept of a color by a mode of 16 bits. */
  function Kept16(mode: ColorMode, c: Rgba16): Rgba16
    requires Sixteen(mode)
  {
    var alpha: Word16 := if mode.colortype == 4 || mode.colortype == 6 then c.a else if IsKey16(mode, c.r, c.g, c.b) then 0 else 65535;
    if mode.colortype == 0 || mode.colortype == 4 then Rgba(c.r, c.r, c.r, alpha) else Rgba(c.r, c.g, c.b, alpha)
  }

  // ---- Packing ----

  /** How many values a byte holds. */
  function Per(bits: nat): nat
    requires Partial(bits)
  {
    if bits == 1 then 8 else if bits == 2 then 4 else 2
  }

  /** The byte of value i, and its first bit there. */
  function ByteOf(i: nat, bits: nat): nat
    requires Partial(bits)
  {
    i / Per(bits)
  }

  function BitAt(i: nat, bits: nat): nat
    requires Partial(bits)
  {
    i % Per(bits) * bits
  }

  /** The values are stored, and the rest of the byte in progress is zero. */
  ghost predicate Packed(data: seq<Byte>, bits: nat, values: seq<nat>) {
    && Partial(bits) && |values| * bits <= 8 * |data|
    && (forall k: nat :: k < |values| ==> StoredAt(data, bits, values, k))
    && (BitAt(|values|, bits) != 0 ==>
          ByteOf(|values|, bits) < |data| && HoldsBits(data[ByteOf(|values|, bits)], 8, InByte(bits, values)))
  }

  ghost predicate StoredAt(data: seq<Byte>, bits: nat, values: seq<nat>, k: nat) {
    && Partial(bits) && k < |values| && k * bits + bits <= 8 * |data|
    && PixelValue(data, k, bits) == values[k]
  }

  /** The bits of the byte in progress. */
  ghost function InByte(bits: nat, values: seq<nat>): (s: BitString)
    requires Partial(bits)
    ensures |s| == BitAt(|values|, bits)
  {
    NextPlace(|values|, bits);
    if BitAt(|values|, bits) == 0 then [] else
      NextPlace(|values| - 1, bits);
      InByte(bits, values[..|values| - 1]) + CodeBits(values[|values| - 1], bits)
  }

  lemma Position(i: nat, bits: nat)
    requires Partial(bits)
    ensures i * bits == 8 * ByteOf(i, bits) + BitAt(i, bits) && BitAt(i, bits) + bits <= 8
  {
  }

  lemma NextPlace(i: nat, bits: nat)
    requires Partial(bits)
    ensures BitAt(0, bits) == 0 && (i + 1) * bits == i * bits + bits
    ensures
      if BitAt(i, bits) + bits == 8 then BitAt(i + 1, bits) == 0
      else BitAt(i + 1, bits) == BitAt(i, bits) + bits && ByteOf(i + 1, bits) == ByteOf(i, bits)
  {
    var d := Per(bits);
    if i % d + 1 == d {
      DivUnique(i + 1, d, i / d + 1, 0);
    } else {
      DivUnique(i + 1, d, i / d, i % d + 1);
    }
    TimesPlusOne(i, bits);
    TimesPlusOne(i % d, bits);
  }

  /** A byte that holds bits starts with them. */
  lemma HeldAtStart(b: Byte, s: BitString)
    requires HoldsBits(b, 8, s)
    ensures CodeBits(b, 8)[..|s|] == s
  {
    hide CodeBits, CodeValue;
    var zeros := seq(8 - |s|, i => false);
    CodeValueConcat(s, zeros);
    ZerosAreNothing(zeros);
    CodeBitsOfCodeValue(s + zeros);
  }

  lemma {:induction false} ZerosAreNothing(s: BitString)
    requires true !in s
    ensures CodeValue(s) == 0
  {
    if s != [] {
      assert true !in s[..|s| - 1];
      ZerosAreNothing(s[..|s| - 1]);
    }
  }

  /** The value of a pixel lies in one byte. */
  lemma ValueInByte(data: seq<Byte>, i: nat, bits: nat)
    requires Partial(bits) && i * bits + bits <= 8 * |data|
    ensures ByteOf(i, bits) < |data| && BitAt(i, bits) + bits <= 8
    ensures PixelValue(data, i, bits) == CodeValue(CodeBits(data[ByteOf(i, bits)], 8)[BitAt(i, bits)..BitAt(i, bits) + bits])
  {
    hide CodeValue, CodeBits, ByteOf, BitAt, BitsOf;
    Position(i, bits);
    PartOfByte(data, ByteOf(i, bits), BitAt(i, bits), bits);
  }

  lemma PartOfByte(data: seq<Byte>, q: nat, at: nat, n: nat)
    requires q < |data| && at + n <= 8
    ensures BitsOf(data)[8 * q + at..8 * q + at + n] == CodeBits(data[q], 8)[at..at + n]
  {
    hide Bit, CodeBits;
    var s, t := BitsOf(data)[8 * q + at..8 * q + at + n], CodeBits(data[q], 8)[at..at + n];
    forall k | 0 <= k < n ensures s[k] == t[k] { CodeBitsAt(data[q], 8, at + k); }
  }

  /** addColorBits on a byte: the first value of a byte replaces it, the others are or-ed in. */
  function AddedBits(b: Byte, bits: nat, at: nat, value: nat): nat
    requires at + bits <= 8
  {
    var shifted := value % Pow2(bits) * Pow2(8 - bits - at);
    if at == 0 then shifted else Or(b, shifted)
  }

  lemma AddedHolds(b: Byte, bits: nat, at: nat, value: nat, s: BitString)
    requires at + bits <= 8 && |s| == at && (at != 0 ==> HoldsBits(b, 8, s)) && value < Pow2(bits)
    ensures AddedBits(b, bits, at, value) < 256
    ensures HoldsBits(AddedBits(b, bits, at, value), 8, s + CodeBits(value, bits))
  {
    hide CodeBits, CodeValue, HoldsBits, Pow2;
    DivUnique(value, Pow2(bits), 0, value);
    var word := if at == 0 then 0 else b as int;
    NothingHeld();
    if at == 0 { assert s == []; }
    AddBitsToWord(word, 8, s, value, bits);
    HoldsBound(Or(word, value * Pow2(8 - |s| - bits)), 8, s + CodeBits(value, bits));
    EightBits();
  }

  lemma NothingHeld()
    ensures HoldsBits(0, 8, [])
  {
  }

  lemma {:induction false} OrBound(a: nat, b: nat, n: nat)
    requires a < Pow2(n) && b < Pow2(n)
    ensures Or(a, b) < Pow2(n)
  {
    if a != 0 && b != 0 { OrBound(a / 2, b / 2, n - 1); }
  }

  lemma ShiftedFits(value: nat, p: nat, rest: nat, all: nat)
    requires value < p && p * rest == all
    ensures value % p == value && value * rest <= all && (rest > 0 ==> value * rest < all)
  {
    DivUnique(value, p, 0, value);
    MulMonotone(value + 1, p, rest);
    TimesPlusOne(value, rest);
  }

  lemma OrByte(b: Byte, v: nat)
    requires v < 256
    ensures Or(b, v) < 256
  {
    hide Pow2, Or;
    Pow2Small();
    OrBound(b, v, 8);
  }

  lemma ShiftBound(bits: nat, at: nat, value: nat)
    requires at + bits <= 8 && value < Pow2(bits)
    ensures value % Pow2(bits) * Pow2(8 - bits - at) < 256
  {
    hide Pow2;
    Pow2Small();
    var p, rest := Pow2(bits), Pow2(8 - bits - at);
    Pow2Add(bits, 8 - bits - at);
    Pow2Monotone(8 - at, 8);
    ShiftedFits(value, p, rest, p * rest);
  }

  lemma AddedBound(b: Byte, bits: nat, at: nat, value: nat)
    requires at + bits <= 8 && value < Pow2(bits)
    ensures AddedBits(b, bits, at, value) < 256
  {
    hide Pow2, Or;
    ShiftBound(bits, at, value);
    OrByte(b, value % Pow2(bits) * Pow2(8 - bits - at));
  }

  /** addColorBits, one value after the other; nothing is said of the values if one was left out before. */
  method AddColorBits(out: array<Byte>, index: nat, bits: nat, value: nat, ghost complete: bool, ghost values: seq<nat>)
    requires Partial(bits) && value < Pow2(bits) && index * bits + bits <= 8 * out.Length
    requires complete ==> Packed(out[..], bits, values) && index == |values|
    modifies out
    ensures complete ==> Packed(out[..], bits, values + [value])
  {
    hide Packed, HoldsBits, CodeBits, AddedBits, ByteOf, BitAt;
    Position(index, bits);
    ValueInByte(out[..], index, bits);
    AddedBound(out[ByteOf(index, bits)], bits, BitAt(index, bits), value);
    if complete { PackStep(out[..], bits, values, value); }
    ghost var before := out[..];
    var q := ByteOf(index, bits);
    out[q] := AddedBits(out[q], bits, BitAt(index, bits), value);
    assert out[..] == before[q := AddedBits(before[q], bits, BitAt(index, bits), value)];
  }

  lemma PackStep(data: seq<Byte>, bits: nat, values: seq<nat>, value: nat)
    requires Packed(data, bits, values) && |values| * bits + bits <= 8 * |data| && value < Pow2(bits)
    ensures
      var at, q := BitAt(|values|, bits), ByteOf(|values|, bits);
      at + bits <= 8 && q < |data| && AddedBits(data[q], bits, at, value) < 256
      && Packed(data[q := AddedBits(data[q], bits, at, value)], bits, values + [value])
  {
    hide HoldsBits, CodeBits, AddedBits, PixelValue, Pow2, ByteOf, BitAt;
    var i := |values|;
    Position(i, bits);
    NextPlace(i, bits);
    var at, q := BitAt(i, bits), ByteOf(i, bits);
    AddedHolds(data[q], bits, at, value, InByte(bits, values));
    var after, all := data[q := AddedBits(data[q], bits, at, value)], values + [value];
    assert all[..i] == values;
    NewStored(after, bits, values, value);
    forall k: nat | k < i ensures StoredAt(after, bits, all, k) {
      assert StoredAt(data, bits, values, k);
      OldStored(data, after, bits, values, value, k);
    }
  }

  lemma NewStored(after: seq<Byte>, bits: nat, values: seq<nat>, value: nat)
    requires Partial(bits) && |values| * bits + bits <= 8 * |after| && ByteOf(|values|, bits) < |after| && value < Pow2(bits)
    requires HoldsBits(after[ByteOf(|values|, bits)], 8, InByte(bits, values) + CodeBits(value, bits))
    ensures StoredAt(after, bits, values + [value], |values|)
  {
    hide HoldsBits, CodeBits, CodeValue, PixelValue, InByte, Pow2, ByteOf, BitAt;
    var s := InByte(bits, values);
    ValueInByte(after, |values|, bits);
    HeldAtStart(after[ByteOf(|values|, bits)], s + CodeBits(value, bits));
    TailOf(CodeBits(after[ByteOf(|values|, bits)], 8), s, CodeBits(value, bits));
    CodeValueOfCodeBits(value, bits);
  }

  lemma OldStored(data: seq<Byte>, after: seq<Byte>, bits: nat, values: seq<nat>, value: nat, k: nat)
    requires Partial(bits) && StoredAt(data, bits, values, k) && ByteOf(|values|, bits) < |data| == |after| && value < Pow2(bits)
    requires forall j :: 0 <= j < |data| && j != ByteOf(|values|, bits) ==> after[j] == data[j]
    requires HoldsBits(after[ByteOf(|values|, bits)], 8, InByte(bits, values) + CodeBits(value, bits))
    requires BitAt(|values|, bits) != 0 ==> HoldsBits(data[ByteOf(|values|, bits)], 8, InByte(bits, values))
    ensures StoredAt(after, bits, values + [value], k)
  {
    hide HoldsBits, CodeBits, CodeValue, PixelValue, InByte, Pow2, ByteOf, BitAt;
    var q := ByteOf(|values|, bits);
    ValueInByte(after, k, bits);
    ValueInByte(data, k, bits);
    if ByteOf(k, bits) == q {
      var s := InByte(bits, values);
      SameByte(k, |values|, bits);
      Position(|values|, bits);
      HeldAtStart(data[q], s);
      HeldAtStart(after[q], s + CodeBits(value, bits));
      SameHead(CodeBits(after[q], 8), CodeBits(data[q], 8), s, CodeBits(value, bits), BitAt(k, bits), bits);
    }
  }

  lemma TailOf(now: BitString, s: BitString, t: BitString)
    requires |s| + |t| <= |now| && now[..|s| + |t|] == s + t
    ensures now[|s|..|s| + |t|] == t
  {
    assert now[|s|..|s| + |t|] == now[..|s| + |t|][|s|..];
  }

  lemma SameHead(now: BitString, was: BitString, s: BitString, t: BitString, at: nat, n: nat)
    requires |s| + |t| <= |now| && now[..|s| + |t|] == s + t && |s| <= |was| && was[..|s|] == s && at + n <= |s|
    ensures now[at..at + n] == was[at..at + n]
  {
    forall i | at <= i < at + n ensures now[i] == was[i] { assert now[i] == now[..|s| + |t|][i] && was[i] == was[..|s|][i]; }
  }

  lemma SameByte(k: nat, i: nat, bits: nat)
    requires Partial(bits) && k < i && ByteOf(k, bits) == ByteOf(i, bits)
    ensures BitAt(i, bits) != 0 && BitAt(k, bits) + bits <= BitAt(i, bits)
  {
  }
}
