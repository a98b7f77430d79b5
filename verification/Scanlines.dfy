/** From the image to the filtered scanlines of a PNG and back (lodepng.c:2514-2550, 4073-4121, 5418-5503). */
module Scanlines {
  import opened Bits
  import opened PrefixCode
  import opened Memory
  import opened PixelBits
  import opened FilterCosts
  import opened ImageFilter
  import opened Adam7
  import opened Interlace

  // ---- Color types ----

  datatype PngInfo = PngInfo(colortype: nat, bitdepth: nat, interlace_method: nat)

  function CheckColorValidity(colortype: nat, bd: nat): nat {
    if colortype == 0 then (if bd == 1 || bd == 2 || bd == 4 || bd == 8 || bd == 16 then 0 else 37)
    else if colortype == 2 || colortype == 4 || colortype == 6 then (if bd == 8 || bd == 16 then 0 else 37)
    else if colortype == 3 then (if bd == 1 || bd == 2 || bd == 4 || bd == 8 then 0 else 37)
    else 31
  }

  function Channels(colortype: nat): nat {
    match colortype
    case 0 => 1
    case 2 => 3
    case 3 => 1
    case 4 => 2
    case 6 => 4
    case _ => 0
  }

  function BitsPerPixel(info: PngInfo): nat { Channels(info.colortype) * info.bitdepth }

  /** Every color type that passes the check has pixels that are a part of a byte or whole bytes. */
  lemma ValidColorDepth(info: PngInfo)
    requires CheckColorValidity(info.colortype, info.bitdepth) == 0
    ensures PixelDepth(BitsPerPixel(info)) && BitsPerPixel(info) <= 64
  {
  }

  // ---- Reference: the rows in a filtered stream ----

  /** The pixels, as bits without padding, of an image or pass given as filtered scanlines. */
  ghost function RowsOf(stream: seq<Byte>, w: nat, h: nat, bpp: nat): (r: Option<BitString>)
    requires bpp > 0 && |stream| == RowAt(h, LineBytes(w, bpp) + 1)
    ensures r.Some? ==> |r.value| == RowAt(h, RowAt(w, bpp))
  {
    match UnfilterImage(stream, LineBytes(w, bpp), ByteWidth(bpp), h)
    case None => None
    case Some(image) => ImageBits(w, h, bpp); Some(Unpadded(BitsOf(image), RowAt(w, bpp), 8 * LineBytes(w, bpp), h))
  }

  /**
   * What readable scanlines stand for: rows of whole bytes that filtering has changed as section 9 says, and whose leading
   * w * bpp bits are those of the pixels.
   */
  lemma ScanlinesMean(stream: seq<Byte>, w: nat, h: nat, bpp: nat) returns (image: seq<Byte>)
    requires bpp > 0 && |stream| == RowAt(h, LineBytes(w, bpp) + 1) && RowsOf(stream, w, h, bpp).Some?
    ensures
      var n := LineBytes(w, bpp);
      && |image| == RowAt(h, n) && RowAt(w, bpp) <= 8 * n
      && AllUndo(stream, image, n, ByteWidth(bpp), h) && PixelBitsAre(RowsOf(stream, w, h, bpp).value, image, n, RowAt(w, bpp), h)
  {
    hide RowAt, LineBytes, BitsOf, Unpadded, UnfilterImage, AllUndo, PixelBitsAre;
    var n := LineBytes(w, bpp);
    image := UnfilterImage(stream, n, ByteWidth(bpp), h).value;
    RowsUndone(stream, n, ByteWidth(bpp), h);
    ImageBits(w, h, bpp);
    BitsUnpadded(image, n, RowAt(w, bpp), h);
  }

  lemma BitsUnpadded(image: seq<Byte>, n: nat, rowbits: nat, h: nat)
    requires |image| == RowAt(h, n) && rowbits <= 8 * n && RowAt(h, 8 * n) == 8 * RowAt(h, n)
    ensures PixelBitsAre(Unpadded(BitsOf(image), rowbits, 8 * n, h), image, n, rowbits, h)
  {
    hide RowAt, BitsOf, Unpadded;
    forall y: nat, k: nat | y < h && k < rowbits
      ensures PixelBitIs(Unpadded(BitsOf(image), rowbits, 8 * n, h), image, n, rowbits, y, k)
    {
      UnpaddedAt(BitsOf(image), rowbits, 8 * n, h, y, k);
      RowInBits(y, n);
    }
  }

  lemma RowInBits(y: nat, n: nat)
    ensures RowAt(y, 8 * n) == 8 * RowAt(y, n)
  {
    BytePositions(0, y, n);
  }

  ghost predicate PixelBitsAre(pixels: BitString, image: seq<Byte>, n: nat, rowbits: nat, h: nat) {
    forall y: nat, k: nat :: y < h && k < rowbits ==> PixelBitIs(pixels, image, n, rowbits, y, k)
  }

  /** Bit k of row y: in the bytes of the image, the rows have n bytes; among the pixels, rowbits bits. */
  ghost predicate PixelBitIs(pixels: BitString, image: seq<Byte>, n: nat, rowbits: nat, y: nat, k: nat) {
    && 8 * RowAt(y, n) + k < 8 * |image| && RowAt(y, rowbits) + k < |pixels|
    && pixels[RowAt(y, rowbits) + k] == BitsOf(image)[8 * RowAt(y, n) + k]
  }

  lemma ImageBits(w: nat, h: nat, bpp: nat)
    ensures RowAt(w, bpp) <= 8 * LineBytes(w, bpp)
    ensures RowAt(h, 8 * LineBytes(w, bpp)) == 8 * RowAt(h, LineBytes(w, bpp))
  {
    BytePositions(0, h, LineBytes(w, bpp));
  }

  /** How many bits a number of rows of pixels have. */
  lemma RowsOfPixels(h: nat, w: nat, bpp: nat)
    ensures RowAt(h, RowAt(w, bpp)) == RowAt(RowAt(h, w), bpp)
  {
  }

  /** Rows without padding are the image itself. */
  lemma {:induction false} NothingToRemove(s: BitString, n: nat, h: nat)
    requires RowAt(h, n) <= |s|
    ensures Unpadded(s, n, n, h) == s[..RowAt(h, n)]
  {
    hide RowAt;
    NextRow(0, n);
    if h > 0 {
      NextRow(h - 1, n);
      NothingToRemove(s, n, h - 1);
      var p := RowAt(h - 1, n);
      assert s[..p] + s[p..p + n] == s[..p + n];
    }
  }

  // ---- Bytes and their bits ----

  lemma {:induction false} BitsDetermine(a: nat, b: nat, n: nat)
    requires a < Pow2(n) && b < Pow2(n) && forall j: nat :: j < n ==> Bit(a, j) == Bit(b, j)
    ensures a == b
  {
    if n > 0 {
      assert Bit(a, 0) == Bit(b, 0);
      forall j: nat | j < n - 1 ensures Bit(a / 2, j) == Bit(b / 2, j) { assert Bit(a, j + 1) == Bit(b, j + 1); }
      BitsDetermine(a / 2, b / 2, n - 1);
    }
  }

  lemma ByteDetermined(s: seq<Byte>, t: seq<Byte>, i: nat, k: nat)
    requires i < |s| && k < |t| && BitsOf(s)[8 * i..8 * i + 8] == BitsOf(t)[8 * k..8 * k + 8]
    ensures s[i] == t[k]
  {
    hide BitsOf, Bit;
    forall j: nat | j < 8 ensures Bit(s[i], j) == Bit(t[k], j) {
      BitAt(s, i, 7 - j);
      BitAt(t, k, 7 - j);
      assert BitsOf(s)[8 * i..8 * i + 8][7 - j] == BitsOf(t)[8 * k..8 * k + 8][7 - j];
    }
    assert Pow2(8) == 256;
    BitsDetermine(s[i], t[k], 8);
  }

  /** Equal bits are equal bytes. */
  lemma BytesDetermined(s: seq<Byte>, t: seq<Byte>, i: nat, k: nat, n: nat)
    requires i + n <= |s| && k + n <= |t| && BitsOf(s)[8 * i..8 * (i + n)] == BitsOf(t)[8 * k..8 * (k + n)]
    ensures s[i..i + n] == t[k..k + n]
  {
    hide BitsOf;
    var u, v := s[i..i + n], t[k..k + n];
    forall j | 0 <= j < n ensures u[j] == v[j] {
      SliceOfSlice(BitsOf(s), 8 * i, 8 * n, 8 * j, 8);
      SliceOfSlice(BitsOf(t), 8 * k, 8 * n, 8 * j, 8);
      ByteDetermined(s, t, i + j, k + j);
    }
  }

  /** Bits of a stretch of bytes. */
  lemma BitsOfSlice(s: seq<Byte>, a: nat, n: nat)
    requires a + n <= |s|
    ensures BitsOf(s[a..a + n]) == BitsOf(s)[8 * a..8 * (a + n)]
  {
    hide BitsOf, Bit;
    var u, v := BitsOf(s[a..a + n]), BitsOf(s)[8 * a..8 * (a + n)];
    forall i | 0 <= i < 8 * n ensures u[i] == v[i] {
      BitAt(s[a..a + n], 0, i);
      BitAt(s, a, i);
    }
  }

  // ---- Decoding one image or pass in place ----

  /** Padding bits removed from memory after the image has been reconstructed there. */
  lemma RowsInMemory(mem: seq<Byte>, ps: nat, image: seq<Byte>, w: nat, h: nat, bpp: nat)
    requires |image| == RowAt(h, LineBytes(w, bpp)) && ps + |image| <= |mem| && mem[ps..ps + |image|] == image
    ensures RowAt(w, bpp) <= 8 * LineBytes(w, bpp)
    ensures RowAt(h, 8 * LineBytes(w, bpp)) <= |BitsOf(mem)[8 * ps..]| && RowAt(h, 8 * LineBytes(w, bpp)) <= |BitsOf(image)|
    ensures Unpadded(BitsOf(mem)[8 * ps..], RowAt(w, bpp), 8 * LineBytes(w, bpp), h)
         == Unpadded(BitsOf(image), RowAt(w, bpp), 8 * LineBytes(w, bpp), h)
  {
    hide BitsOf, RowAt, LineBytes;
    ImageBits(w, h, bpp);
    BitsOfSlice(mem, ps, |image|);
    var bits := BitsOf(mem)[8 * ps..];
    assert bits == BitsOf(image) + bits[|BitsOf(image)|..];
    UnpaddedPrefix(BitsOf(image), bits[|BitsOf(image)|..], RowAt(w, bpp), 8 * LineBytes(w, bpp), h);
  }

  /** Memory outside the stretch [lo, hi) is as before. */
  ghost predicate Outside(before: seq<Byte>, now: seq<Byte>, lo: nat, hi: nat) {
    lo <= hi <= |before| == |now| && now[..lo] == before[..lo] && now[hi..] == before[hi..]
  }

  lemma BitsOutside(before: seq<Byte>, now: seq<Byte>, lo: nat, hi: nat, row: BitString)
    requires Written(BitsOf(before), BitsOf(now), 8 * lo, row) && 8 * lo + |row| <= 8 * hi && hi <= |before| == |now|
    ensures Outside(before, now, lo, hi)
  {
    hide BitsOf, Written;
    WrittenAt(BitsOf(before), BitsOf(now), 8 * lo, row);
    BytesDetermined(before, now, 0, 0, lo);
    BytesDetermined(before, now, hi, hi, |before| - hi);
    assert now[..lo] == now[0..lo] && before[..lo] == before[0..lo];
    assert now[hi..] == now[hi..hi + (|before| - hi)] && before[hi..] == before[hi..hi + (|before| - hi)];
  }

  lemma OutsideTwice(a: seq<Byte>, b: seq<Byte>, c: seq<Byte>, lo: nat, mid: nat, hi: nat)
    requires Outside(a, b, mid, hi) && Outside(b, c, lo, hi) && lo <= mid
    ensures Outside(a, c, lo, hi)
  {
    assert c[..lo] == b[..lo] == b[..mid][..lo] == a[..lo];
  }

  lemma WrittenOutside(before: seq<Byte>, now: seq<Byte>, start: nat, row: seq<Byte>)
    requires Written(before, now, start, row)
    ensures Outside(before, now, start, start + |row|)
  {
  }

  /**
   * Unfilters the stream at fs to ps and then, for pixels smaller than a byte, moves its rows
   * together at s, all in one memory with s <= ps <= fs.
   */
  method PostProcessPass(inp: array<Byte>, w: nat, h: nat, bpp: nat, fs: nat, ps: nat, s: nat)
    returns (error: nat)
    requires PixelDepth(bpp) && (h > 0 ==> w > 0) && s <= ps <= fs && (bpp >= 8 ==> s == ps)
    requires fs + RowAt(h, LineBytes(w, bpp) + 1) <= inp.Length
    modifies inp
    ensures
      var rows := RowsOf(old(inp[fs..fs + RowAt(h, LineBytes(w, bpp) + 1)]), w, h, bpp);
      && error == (if rows.Some? then 0 else 36)
      && (error == 0 ==>
            && ps + RowAt(h, LineBytes(w, bpp)) <= inp.Length
            && Outside(old(inp[..]), inp[..], s, ps + RowAt(h, LineBytes(w, bpp)))
            && 8 * s + |rows.value| <= 8 * inp.Length
            && BitsOf(inp[..])[8 * s..8 * s + |rows.value|] == rows.value)
  {
    hide BitsOf, Written, UnfilterImage, Outside, RowAt, LineBytes, RowsOf, Unpadded;
    var n := LineBytes(w, bpp);
    RowAtStep(h, n);
    ghost var before, stream := inp[..], inp[fs..fs + RowAt(h, n + 1)];
    ghost var image;
    error, image := Unfilter(inp, ps, inp, fs, w, h, bpp);
    RowsOfImage(stream, w, h, bpp);
    if error != 0 { return; }
    WrittenIs(before, inp[..], ps, image);
    WrittenOutside(before, inp[..], ps, image);
    ghost var unfiltered := inp[..];
    PackRows(inp, w, h, bpp, ps, s, image, RowsOf(stream, w, h, bpp).value);
    OutsideTwice(before, unfiltered, inp[..], s, ps, ps + |image|);
  }

  lemma RowsOfImage(stream: seq<Byte>, w: nat, h: nat, bpp: nat)
    requires bpp > 0 && |stream| == RowAt(h, LineBytes(w, bpp) + 1)
    ensures
      match UnfilterImage(stream, LineBytes(w, bpp), ByteWidth(bpp), h)
      case None => RowsOf(stream, w, h, bpp) == None
      case Some(image) =>
        && RowAt(w, bpp) <= 8 * LineBytes(w, bpp) && RowAt(h, 8 * LineBytes(w, bpp)) <= |BitsOf(image)|
        && RowsOf(stream, w, h, bpp) == Some(Unpadded(BitsOf(image), RowAt(w, bpp), 8 * LineBytes(w, bpp), h))
  {
    hide BitsOf, UnfilterImage, RowAt, LineBytes, Unpadded;
    ImageBits(w, h, bpp);
  }

  /** For pixels smaller than a byte the rows of the image at ps are moved together at s. */
  method PackRows(inp: array<Byte>, w: nat, h: nat, bpp: nat, ps: nat, s: nat, ghost image: seq<Byte>, ghost rows: BitString)
    requires PixelDepth(bpp) && s <= ps && (bpp >= 8 ==> s == ps)
    requires |image| == RowAt(h, LineBytes(w, bpp)) && ps + |image| <= inp.Length && inp[ps..ps + |image|] == image
    requires RowAt(w, bpp) <= 8 * LineBytes(w, bpp) && RowAt(h, 8 * LineBytes(w, bpp)) <= |BitsOf(image)|
    requires rows == Unpadded(BitsOf(image), RowAt(w, bpp), 8 * LineBytes(w, bpp), h)
    modifies inp
    ensures Outside(old(inp[..]), inp[..], s, ps + |image|)
    ensures 8 * s + |rows| <= 8 * inp.Length && BitsOf(inp[..])[8 * s..8 * s + |rows|] == rows
  {
    hide BitsOf, Written, Outside, Unpadded, RowAt, LineBytes;
    ghost var n, unfiltered, bits := LineBytes(w, bpp), inp[..], BitsOf(inp[..]);
    RowsInMemory(unfiltered, ps, image, w, h, bpp);
    ImageBits(w, h, bpp);
    PackedSmaller(w, h, bpp);
    if bpp < 8 {
      LineBits(w, bpp);
      RemovePaddingBits(inp, s, inp, ps, w * bpp, ((w * bpp + 7) / 8) * 8, h);
      BitsOutside(unfiltered, inp[..], s, ps + |image|, rows);
      WrittenIs(bits, BitsOf(inp[..]), 8 * s, rows);
    } else {
      WholeBytes(w, bpp);
      NothingToRemove(BitsOf(image), 8 * n, h);
      BitsOfSlice(unfiltered, ps, |image|);
      assert BitsOf(image)[..RowAt(h, 8 * n)] == BitsOf(image);
      OutsideNothing(unfiltered, s, ps + |image|);
    }
  }

  lemma OutsideNothing(mem: seq<Byte>, lo: nat, hi: nat)
    requires lo <= hi <= |mem|
    ensures Outside(mem, mem, lo, hi)
  {
  }

  lemma LineBits(w: nat, bpp: nat)
    ensures w * bpp == RowAt(w, bpp) && ((w * bpp + 7) / 8) * 8 == 8 * LineBytes(w, bpp)
  {
  }

  lemma WholeBytes(w: nat, bpp: nat)
    requires bpp % 8 == 0
    ensures RowAt(w, bpp) == 8 * LineBytes(w, bpp)
  {
    EightLines(w, 0, bpp);
  }

  lemma PackedSmaller(w: nat, h: nat, bpp: nat)
    ensures RowAt(h, RowAt(w, bpp)) <= 8 * RowAt(h, LineBytes(w, bpp))
  {
    hide RowAt, LineBytes;
    ImageBits(w, h, bpp);
    RowsGrow(h, RowAt(w, bpp), 8 * LineBytes(w, bpp));
  }

  lemma RowsGrow(h: nat, a: nat, b: nat)
    requires a <= b
    ensures RowAt(h, a) <= RowAt(h, b)
  {
    Monotone(h, a, b);
  }

  // ---- The passes of a stream ----

  lemma PassStreamFits(j: nat, w: nat, h: nat, bpp: nat)
    requires j < 7
    ensures FilterStart(j + 1, w, h, bpp) == FilterStart(j, w, h, bpp) + RowAt(PassH(j, w, h), PassLine(j, w, h, bpp) + 1)
    ensures FilterStart(j + 1, w, h, bpp) <= FilterStart(7, w, h, bpp)
    ensures PaddedStart(j + 1, w, h, bpp) == PaddedStart(j, w, h, bpp) + RowAt(PassH(j, w, h), PassLine(j, w, h, bpp))
    ensures 8 * PassStart(j, w, h, bpp) + PassBitCount(j, w, h, bpp) <= 8 * PassStart(j + 1, w, h, bpp)
    ensures PassStart(j + 1, w, h, bpp) <= PassStart(7, w, h, bpp)
    ensures PassStart(j, w, h, bpp) <= PassStart(j + 1, w, h, bpp) && FilterStart(j, w, h, bpp) <= FilterStart(j + 1, w, h, bpp)
    ensures PassH(j, w, h) > 0 ==> PassW(j, w, h) > 0
  {
    StartsGrow(j + 1, 7, w, h, bpp);
  }

  /** The filtered scanlines of pass j. */
  ghost function PassStream(stream: seq<Byte>, j: nat, w: nat, h: nat, bpp: nat): seq<Byte>
    requires j < 7 && |stream| == FilterStart(7, w, h, bpp)
  {
    PassStreamFits(j, w, h, bpp);
    stream[FilterStart(j, w, h, bpp)..FilterStart(j + 1, w, h, bpp)]
  }

  ghost function PassRows(stream: seq<Byte>, j: nat, w: nat, h: nat, bpp: nat): (r: Option<BitString>)
    requires j < 7 && |stream| == FilterStart(7, w, h, bpp) && bpp > 0
    ensures r.Some? ==> |r.value| == PassBitCount(j, w, h, bpp)
  {
    PassStreamFits(j, w, h, bpp);
    RowsOfPixels(PassH(j, w, h), PassW(j, w, h), bpp);
    RowsOf(PassStream(stream, j, w, h, bpp), PassW(j, w, h), PassH(j, w, h), bpp)
  }

  /** The bits of pass j in an interlaced image. */
  ghost function PassBits(passes: BitString, j: nat, w: nat, h: nat, bpp: nat): (r: BitString)
    requires j < 7 && 8 * PassStart(7, w, h, bpp) <= |passes|
    ensures |r| == PassBitCount(j, w, h, bpp)
  {
    PassStreamFits(j, w, h, bpp);
    passes[8 * PassStart(j, w, h, bpp)..8 * PassStart(j, w, h, bpp) + PassBitCount(j, w, h, bpp)]
  }

  /** Pass j of the stream stands for the bits of pass j, if it is readable. */
  ghost predicate PassHolds(stream: seq<Byte>, passes: BitString, readable: bool, j: nat, w: nat, h: nat, bpp: nat) {
    && j < 7 && bpp > 0 && |stream| == FilterStart(7, w, h, bpp) && 8 * PassStart(7, w, h, bpp) <= |passes|
    && PassRows(stream, j, w, h, bpp) == if readable then Some(PassBits(passes, j, w, h, bpp)) else None
  }

  lemma SlotInPass(s: Slot, w: nat, h: nat, bpp: nat)
    requires ValidSlot(s, w, h)
    ensures 8 * PassStart(s.pass, w, h, bpp) <= SlotPos(s, w, h, bpp)
    ensures SlotPos(s, w, h, bpp) + bpp <= 8 * PassStart(s.pass, w, h, bpp) + PassBitCount(s.pass, w, h, bpp)
  {
    hide RowAt, PassW, PassH;
    var pw, ph := PassW(s.pass, w, h), PassH(s.pass, w, h);
    RowInside(s.y, pw, ph);
    RowInside(RowAt(s.y, pw) + s.x, bpp, RowAt(ph, pw));
  }

  /** What is interlaced depends on the bits of the passes only, not on the padding between them. */
  lemma SamePasses(image: BitString, p: BitString, q: BitString, w: nat, h: nat, bpp: nat)
    requires Interlaced(image, p, w, h, bpp) && 8 * PassStart(7, w, h, bpp) <= |p| && 8 * PassStart(7, w, h, bpp) <= |q|
    requires forall j: nat :: j < 7 ==> PassBits(p, j, w, h, bpp) == PassBits(q, j, w, h, bpp)
    ensures Interlaced(image, q, w, h, bpp)
  {
    hide PassStart, PassBitCount, SlotPos, PixelPos, PX, PY, PassW, PassH, PassBits;
    forall s: Slot | ValidSlot(s, w, h) ensures Holds(image, q, s, w, h, bpp) {
      assert Before(s, Slot(7, 0, 0));
      assert Holds(image, p, s, w, h, bpp);
      SlotInPass(s, w, h, bpp);
      SlotInside(s, w, h, bpp);
      SlotBitsFromPass(p, s, w, h, bpp);
      SlotBitsFromPass(q, s, w, h, bpp);
    }
  }

  lemma SlotBitsFromPass(p: BitString, s: Slot, w: nat, h: nat, bpp: nat)
    requires ValidSlot(s, w, h) && 8 * PassStart(7, w, h, bpp) <= |p|
    ensures 8 * PassStart(s.pass, w, h, bpp) <= SlotPos(s, w, h, bpp) && SlotPos(s, w, h, bpp) + bpp <= |p|
    ensures
      var k := SlotPos(s, w, h, bpp) - 8 * PassStart(s.pass, w, h, bpp);
      k + bpp <= PassBitCount(s.pass, w, h, bpp) &&
      p[SlotPos(s, w, h, bpp)..SlotPos(s, w, h, bpp) + bpp] == PassBits(p, s.pass, w, h, bpp)[k..k + bpp]
  {
    hide PassStart, PassBitCount, SlotPos;
    SlotInPass(s, w, h, bpp);
    SlotInside(s, w, h, bpp);
    PassStreamFits(s.pass, w, h, bpp);
    SliceOfSlice(p, 8 * PassStart(s.pass, w, h, bpp), PassBitCount(s.pass, w, h, bpp),
                 SlotPos(s, w, h, bpp) - 8 * PassStart(s.pass, w, h, bpp), bpp);
  }

  // ---- postProcessScanlines ----

  /** The state of the decoder before pass i: the earlier passes are done, the later ones untouched. */
  ghost predicate DecodedTo(stream: seq<Byte>, now: seq<Byte>, i: nat, w: nat, h: nat, bpp: nat) {
    && i <= 7 && bpp > 0 && |stream| == |now| == FilterStart(7, w, h, bpp)
    && FilterStart(i, w, h, bpp) <= |now| && now[FilterStart(i, w, h, bpp)..] == stream[FilterStart(i, w, h, bpp)..]
    && PassStart(7, w, h, bpp) <= |now|
    && forall j: nat {:trigger PassHolds(stream, BitsOf(now), true, j, w, h, bpp)} ::
         j < i ==> PassHolds(stream, BitsOf(now), true, j, w, h, bpp)
  }

  lemma DecodeStep(stream: seq<Byte>, before: seq<Byte>, now: seq<Byte>, i: nat, w: nat, h: nat, bpp: nat)
    requires DecodedTo(stream, before, i, w, h, bpp) && i < 7
    requires Outside(before, now, PassStart(i, w, h, bpp), PaddedStart(i + 1, w, h, bpp))
    requires PassHolds(stream, BitsOf(now), true, i, w, h, bpp)
    ensures DecodedTo(stream, now, i + 1, w, h, bpp)
  {
    hide BitsOf, PassStart, PaddedStart, FilterStart, PassRows, PassBits, PassBitCount;
    PassStreamFits(i, w, h, bpp);
    StartsOrdered(i + 1, w, h, bpp);
    var f, g := FilterStart(i, w, h, bpp), FilterStart(i + 1, w, h, bpp);
    var e := PaddedStart(i + 1, w, h, bpp);
    assert now[g..] == now[e..][g - e..] == before[e..][g - e..] == before[g..];
    assert before[g..] == before[f..][g - f..] == stream[f..][g - f..] == stream[g..];
    forall j: nat | j < i + 1 ensures PassHolds(stream, BitsOf(now), true, j, w, h, bpp) {
      if j < i {
        assert PassHolds(stream, BitsOf(before), true, j, w, h, bpp);
        EarlierPass(before, now, i, j, w, h, bpp);
      }
    }
  }

  lemma EarlierPass(before: seq<Byte>, now: seq<Byte>, i: nat, j: nat, w: nat, h: nat, bpp: nat)
    requires j < i < 7 && PassStart(7, w, h, bpp) <= |before|
    requires Outside(before, now, PassStart(i, w, h, bpp), PaddedStart(i + 1, w, h, bpp))
    ensures |now| == |before| && PassBits(BitsOf(now), j, w, h, bpp) == PassBits(BitsOf(before), j, w, h, bpp)
  {
    hide BitsOf, PassStart, PaddedStart, PassBitCount;
    PassStreamFits(j, w, h, bpp);
    StartsGrow(j + 1, i, w, h, bpp);
    var lo := PassStart(i, w, h, bpp);
    BitsOfSlice(before, 0, lo);
    BitsOfSlice(now, 0, lo);
    assert before[0..lo] == before[..lo] && now[0..lo] == now[..lo];
    var a, n := 8 * PassStart(j, w, h, bpp), PassBitCount(j, w, h, bpp);
    SliceOfSlice(BitsOf(before), 0, 8 * lo, a, n);
    SliceOfSlice(BitsOf(now), 0, 8 * lo, a, n);
  }

  /** One pass of the decoder's loop. */
  method PostProcessNext(inp: array<Byte>, i: nat, w: nat, h: nat, bpp: nat, pw: nat, ph: nat, fs: nat, ps: nat, s: nat,
                         ghost stream: seq<Byte>)
    returns (error: nat)
    requires PixelDepth(bpp) && i < 7 && DecodedTo(stream, inp[..], i, w, h, bpp)
    requires pw == PassW(i, w, h) && ph == PassH(i, w, h)
    requires fs == FilterStart(i, w, h, bpp) && ps == PaddedStart(i, w, h, bpp) && s == PassStart(i, w, h, bpp)
    modifies inp
    ensures error == (if PassRows(stream, i, w, h, bpp).Some? then 0 else 36)
    ensures error == 0 ==> DecodedTo(stream, inp[..], i + 1, w, h, bpp)
  {
    hide BitsOf, PassStart, PaddedStart, FilterStart, PassW, PassH, RowsOf, LineBytes, Outside, RowAt;
    PassStreamFits(i, w, h, bpp);
    StartsOrdered(i, w, h, bpp);
    ghost var before := inp[..];
    ghost var n := RowAt(ph, LineBytes(pw, bpp) + 1);
    assert inp[fs..fs + n] == PassStream(stream, i, w, h, bpp) by {
      assert before[fs..fs + n] == before[fs..][..n] == stream[fs..][..n];
    }
    error := PostProcessPass(inp, pw, ph, bpp, fs, ps, s);
    if error == 0 {
      RowsOfPixels(ph, pw, bpp);
      DecodeStep(stream, before, inp[..], i, w, h, bpp);
    }
  }

  /**
   * postProcessScanlines for an interlaced image. The only error is a filter type above 4; otherwise the
   * output is the image whose passes the stream holds, although every stage works in the same buffer.
   */
  method PostProcessInterlaced(out: array<Byte>, inp: array<Byte>, w: nat, h: nat, bpp: nat)
    returns (error: nat, ghost passes: BitString)
    requires PixelDepth(bpp) && out != inp && inp.Length == FilterStart(7, w, h, bpp)
    requires RowAt(RowAt(h, w), bpp) <= 8 * out.Length && AllZero(BitsOf(out[..]))
    modifies out, inp
    ensures error == 0 || error == 36
    ensures error == 0 <==> forall j: nat :: j < 7 ==> PassRows(old(inp[..]), j, w, h, bpp).Some?
    ensures error == 0 ==>
      && Interlaced(BitsOf(out[..]), passes, w, h, bpp)
      && forall j: nat :: j < 7 ==> PassHolds(old(inp[..]), passes, true, j, w, h, bpp)
  {
    hide BitsOf, PassStart, PaddedStart, FilterStart, PassW, PassH, PassRows, DecodedTo, Interlaced, RowAt, AllZero, PassHolds;
    var passw, passh, filter_passstart, padded_passstart, passstart := GetPassValues(w, h, bpp);
    ghost var stream := inp[..];
    passes := [];
    NothingDecoded(stream, w, h, bpp);
    for i := 0 to 7
      invariant DecodedTo(stream, inp[..], i, w, h, bpp) && AllZero(BitsOf(out[..]))
      invariant forall j: nat :: j < i ==> PassRows(stream, j, w, h, bpp).Some?
    {
      error := PostProcessNext(inp, i, w, h, bpp, passw[i], passh[i], filter_passstart[i], padded_passstart[i], passstart[i], stream);
      if error != 0 { return; }
    }
    error := 0;
    passes := BitsOf(inp[..]);
    AllDecoded(stream, inp[..], w, h, bpp);
    DeinterlaceImage(out, inp, w, h, bpp);
  }

  lemma NothingDecoded(stream: seq<Byte>, w: nat, h: nat, bpp: nat)
    requires bpp > 0 && |stream| == FilterStart(7, w, h, bpp)
    ensures DecodedTo(stream, stream, 0, w, h, bpp)
  {
    StartsOrdered(7, w, h, bpp);
  }

  lemma AllDecoded(stream: seq<Byte>, now: seq<Byte>, w: nat, h: nat, bpp: nat)
    requires DecodedTo(stream, now, 7, w, h, bpp)
    ensures PassStart(7, w, h, bpp) <= |now|
    ensures forall j: nat :: j < 7 ==> PassHolds(stream, BitsOf(now), true, j, w, h, bpp)
  {
  }

  /**
   * Byte i of a row is byte b of pixel x: the filters' byte to the left is the same byte of the pixel to the left, and there is
   * none for the first pixel. Pixels of less than a byte are not told apart.
   */
  lemma LeftNeighbour(x: nat, bpp: nat, b: nat, i: nat)
    requires PixelDepth(bpp)
    requires bpp >= 8 ==> 8 * i == RowAt(x, bpp) + 8 * b && 8 * b < bpp
    ensures bpp >= 8 ==> (ByteWidth(bpp) <= i <==> x > 0)
    ensures bpp >= 8 && x > 0 ==> 8 * (i - ByteWidth(bpp)) == RowAt(x - 1, bpp) + 8 * b
    ensures bpp < 8 ==> ByteWidth(bpp) == 1
  {
    hide RowAt;
    if x > 0 { NextRow(x - 1, bpp); } else { NextRow(0, bpp); }
  }

  /** postProcessScanlines without interlacing: padding is removed on the way to the output, if there is any. */
  method PostProcessPlain(out: array<Byte>, inp: array<Byte>, w: nat, h: nat, bpp: nat) returns (error: nat)
    requires PixelDepth(bpp) && out != inp && w > 0
    requires inp.Length == RowAt(h, LineBytes(w, bpp) + 1) && RowAt(RowAt(h, w), bpp) <= 8 * out.Length
    modifies out, inp
    ensures
      var rows := RowsOf(old(inp[..]), w, h, bpp);
      && error == (if rows.Some? then 0 else 36)
      && (error == 0 ==> |rows.value| <= 8 * out.Length && BitsOf(out[..])[..|rows.value|] == rows.value)
  {
    hide BitsOf, Written, UnfilterImage, Outside, Unpadded, RowAt, LineBytes;
    var n := LineBytes(w, bpp);
    RowAtStep(h, n);
    LineBits(w, bpp);
    ImageBits(w, h, bpp);
    RowsOfPixels(h, w, bpp);
    assert inp[0..0 + RowAt(h, n + 1)] == inp[..];
    ghost var image, before := [], BitsOf(out[..]);
    if bpp < 8 && w * bpp != ((w * bpp + 7) / 8) * 8 {
      ghost var was := inp[..];
      error, image := Unfilter(inp, 0, inp, 0, w, h, bpp);
      if error != 0 { return; }
      WrittenIs(was, inp[..], 0, image);
      RowsInMemory(inp[..], 0, image, w, h, bpp);
      RemovePaddingBits(out, 0, inp, 0, w * bpp, ((w * bpp + 7) / 8) * 8, h);
      WrittenIs(before, BitsOf(out[..]), 0, Unpadded(BitsOf(image), RowAt(w, bpp), 8 * n, h));
    } else {
      if bpp >= 8 { WholeBytes(w, bpp); }
      ghost var was := out[..];
      error, image := Unfilter(out, 0, inp, 0, w, h, bpp);
      if error != 0 { return; }
      WrittenIs(was, out[..], 0, image);
      NothingToRemove(BitsOf(image), 8 * n, h);
      BitsOfSlice(out[..], 0, |image|);
      assert BitsOf(image)[..RowAt(h, 8 * n)] == BitsOf(image);
    }
  }

  /** A decoder's result: readable, and if so the pixels that the stream holds. */
  ghost predicate Decoded(stream: seq<Byte>, readable: bool, out: BitString, passes: BitString,
                          w: nat, h: nat, bpp: nat, interlace_method: nat) {
    && bpp > 0 && |stream| == StreamSize(w, h, bpp, interlace_method)
    && if interlace_method == 0 then
         var rows := RowsOf(stream, w, h, bpp);
         && (readable <==> rows.Some?)
         && (readable ==> |rows.value| <= |out| && out[..|rows.value|] == rows.value)
       else
         && (readable <==> forall j: nat :: j < 7 ==> PassRows(stream, j, w, h, bpp).Some?)
         && (readable ==>
               && Interlaced(out, passes, w, h, bpp)
               && forall j: nat :: j < 7 ==> PassHolds(stream, passes, true, j, w, h, bpp))
  }

  /** postProcessScanlines: error 31 for a color type without bits, else one of the two forms. */
  method PostProcessScanlines(out: array<Byte>, inp: array<Byte>, w: nat, h: nat, info: PngInfo)
    returns (error: nat, ghost passes: BitString)
    requires out != inp && w > 0 && (BitsPerPixel(info) == 0 || PixelDepth(BitsPerPixel(info)))
    requires inp.Length == StreamSize(w, h, BitsPerPixel(info), info.interlace_method)
    requires RowAt(RowAt(h, w), BitsPerPixel(info)) <= 8 * out.Length && AllZero(BitsOf(out[..]))
    modifies out, inp
    ensures BitsPerPixel(info) == 0 ==> error == 31
    ensures BitsPerPixel(info) != 0 ==>
      error == 0 || error == 36
    ensures BitsPerPixel(info) != 0 ==>
      Decoded(old(inp[..]), error == 0, BitsOf(out[..]), passes, w, h, BitsPerPixel(info), info.interlace_method)
  {
    hide BitsOf, RowsOf, PassRows, PassHolds, Interlaced, RowAt, LineBytes, FilterStart, AllZero;
    passes := [];
    var bpp := BitsPerPixel(info);
    if bpp == 0 { return 31, []; }
    if info.interlace_method == 0 {
      error := PostProcessPlain(out, inp, w, h, bpp);
    } else {
      error, passes := PostProcessInterlaced(out, inp, w, h, bpp);
    }
  }

  /** The size of the filtered data of an image. */
  function StreamSize(w: nat, h: nat, bpp: nat, interlace_method: nat): nat {
    if interlace_method == 0 then RowAt(h, LineBytes(w, bpp) + 1) else FilterStart(7, w, h, bpp)
  }

  // ---- preProcessScanlines ----

  lemma PaddedRows(src: seq<Byte>, so: nat, image: seq<Byte>, w: nat, h: nat, bpp: nat)
    requires RowAt(w, bpp) <= 8 * LineBytes(w, bpp) && 8 * so + RowAt(h, RowAt(w, bpp)) <= 8 * |src|
    requires BitsOf(image) == Padded(BitsOf(src)[8 * so..], 8 * LineBytes(w, bpp), RowAt(w, bpp), h)
    ensures RowAt(h, 8 * LineBytes(w, bpp)) <= |BitsOf(image)|
    ensures Unpadded(BitsOf(image), RowAt(w, bpp), 8 * LineBytes(w, bpp), h)
         == BitsOf(src)[8 * so..8 * so + RowAt(h, RowAt(w, bpp))]
  {
    hide BitsOf, RowAt, LineBytes, Padded, Unpadded;
    var bits := BitsOf(src)[8 * so..];
    UnpaddedPadded(bits, 8 * LineBytes(w, bpp), RowAt(w, bpp), h);
    assert bits[..RowAt(h, RowAt(w, bpp))] == BitsOf(src)[8 * so..8 * so + RowAt(h, RowAt(w, bpp))];
  }

  lemma PackedRows(src: seq<Byte>, so: nat, image: seq<Byte>, w: nat, h: nat, bpp: nat)
    requires RowAt(w, bpp) == 8 * LineBytes(w, bpp) && |image| == RowAt(h, LineBytes(w, bpp))
    requires so + |image| <= |src| && image == src[so..so + |image|]
    ensures RowAt(h, 8 * LineBytes(w, bpp)) <= |BitsOf(image)| && 8 * so + RowAt(h, RowAt(w, bpp)) <= 8 * |src|
    ensures Unpadded(BitsOf(image), RowAt(w, bpp), 8 * LineBytes(w, bpp), h)
         == BitsOf(src)[8 * so..8 * so + RowAt(h, RowAt(w, bpp))]
  {
    hide BitsOf, RowAt, LineBytes, Unpadded;
    ImageBits(w, h, bpp);
    var n := 8 * LineBytes(w, bpp);
    NothingToRemove(BitsOf(image), n, h);
    BitsOfSlice(src, so, |image|);
    assert BitsOf(image)[..RowAt(h, n)] == BitsOf(image);
  }

  /** What filtering an image leaves is what unfiltering reads, if all filter types are legal. */
  lemma RowsOfFiltered(stream: seq<Byte>, image: seq<Byte>, types: seq<Byte>, w: nat, h: nat, bpp: nat)
    requires bpp > 0 && FilteredImage(stream, image, types, LineBytes(w, bpp), ByteWidth(bpp), h)
    ensures |stream| == RowAt(h, LineBytes(w, bpp) + 1) && |image| == RowAt(h, LineBytes(w, bpp))
    ensures RowAt(w, bpp) <= 8 * LineBytes(w, bpp) && RowAt(h, 8 * LineBytes(w, bpp)) <= |BitsOf(image)|
    ensures RowsOf(stream, w, h, bpp)
         == if LegalTypes(types) then Some(Unpadded(BitsOf(image), RowAt(w, bpp), 8 * LineBytes(w, bpp), h)) else None
  {
    hide BitsOf, RowAt, LineBytes, UnfilterImage, Unpadded, LegalTypes;
    ImageBits(w, h, bpp);
    UnfilterFilteredImage(stream, image, types, LineBytes(w, bpp), ByteWidth(bpp), h);
  }

  lemma WholeSlice<T>(s: seq<T>)
    ensures s[0..|s|] == s && s[0..] == s
  {
  }

  /** One image or pass: its packed rows are padded if need be, and filtered to fs. */
  method PreProcessPass(out: array<Byte>, fs: nat, src: array<Byte>, so: nat, w: nat, h: nat, bpp: nat, pad: bool,
                        info: PngInfo, settings: FilterSettings)
    returns (error: nat, ghost types: seq<Byte>)
    requires out != src && PixelDepth(bpp) && (h > 0 ==> w > 0) && (!pad ==> RowAt(w, bpp) == 8 * LineBytes(w, bpp))
    requires 8 * so + RowAt(h, RowAt(w, bpp)) <= 8 * src.Length
    requires fs + RowAt(h, LineBytes(w, bpp) + 1) <= out.Length
    requires InForce(settings, info.colortype == 3, info.bitdepth) == Predefined ==> h <= |settings.predefined_filters|
    modifies out
    ensures error == if InForce(settings, info.colortype == 3, info.bitdepth) == UnknownStrategy then 88 else 0
    ensures error == 0 ==>
      var stream := out[fs..fs + RowAt(h, LineBytes(w, bpp) + 1)];
      && |types| == h && TypesAllowed(InForce(settings, info.colortype == 3, info.bitdepth), settings.predefined_filters, types)
      && Outside(old(out[..]), out[..], fs, fs + |stream|)
      && RowsOf(stream, w, h, bpp)
         == if LegalTypes(types) then Some(BitsOf(src[..])[8 * so..8 * so + RowAt(h, RowAt(w, bpp))]) else None
  {
    hide BitsOf, RowAt, LineBytes, RowsOf, Written, Outside, Padded, Unpadded, LegalTypes, TypesAllowed, FilteredImage;
    ghost var before, n := out[..], LineBytes(w, bpp);
    ghost var image;
    LineBits(w, bpp);
    ImageBits(w, h, bpp);
    Offsets(h, n);
    if pad {
      var padded := new Byte[h * ((w * bpp + 7) / 8)];
      BytesOfRows(h, w, bpp);
      ghost var was := BitsOf(padded[..]);
      AddPaddingBits(padded, src, so, ((w * bpp + 7) / 8) * 8, w * bpp, h);
      WrittenIs(was, BitsOf(padded[..]), 0, Padded(BitsOf(src[..])[8 * so..], 8 * n, RowAt(w, bpp), h));
      WholeSlice(BitsOf(padded[..]));
      WholeSlice(padded[..]);
      PaddedRows(src[..], so, padded[..], w, h, bpp);
      error, types := Filter(out, fs, padded, 0, w, h, bpp, info.colortype == 3, info.bitdepth, settings);
      image := padded[..];
      assert padded[0..0 + RowAt(h, n)] == image;
    } else {
      error, types := Filter(out, fs, src, so, w, h, bpp, info.colortype == 3, info.bitdepth, settings);
      image := src[so..so + RowAt(h, n)];
      assert image == src[..][so..so + RowAt(h, n)];
      PackedRows(src[..], so, image, w, h, bpp);
    }
    if error == 0 {
      RowsOfFiltered(out[fs..fs + RowAt(h, n + 1)], image, types, w, h, bpp);
      WrittenOutside(before, out[..], fs, out[fs..fs + RowAt(h, n + 1)]);
      FilteredCount(out[fs..fs + RowAt(h, n + 1)], image, types, n, ByteWidth(bpp), h);
    }
  }

  lemma FilteredCount(stream: seq<Byte>, image: seq<Byte>, types: seq<Byte>, n: nat, bytewidth: nat, h: nat)
    requires FilteredImage(stream, image, types, n, bytewidth, h)
    ensures |types| == h
  {
  }

  lemma BytesOfRows(h: nat, w: nat, bpp: nat)
    ensures h * ((w * bpp + 7) / 8) == RowAt(h, LineBytes(w, bpp))
  {
  }

  /** Which filter types were used in each pass. */
  ghost predicate TypesOfPasses(types: seq<seq<Byte>>, n: nat, w: nat, h: nat, strategy: FilterStrategy, predefined: seq<Byte>) {
    && |types| == n <= 7
    && forall j: nat :: j < n ==> |types[j]| == PassH(j, w, h) && TypesAllowed(strategy, predefined, types[j])
  }

  /** The state of the encoder before pass i. */
  ghost predicate EncodedTo(now: seq<Byte>, passes: BitString, types: seq<seq<Byte>>, i: nat, w: nat, h: nat, bpp: nat) {
    && i == |types| <= 7
    && forall j: nat {:trigger PassHolds(now, passes, LegalTypes(types[j]), j, w, h, bpp)} ::
         j < i ==> PassHolds(now, passes, LegalTypes(types[j]), j, w, h, bpp)
  }

  lemma EncodeStep(before: seq<Byte>, now: seq<Byte>, passes: BitString, types: seq<seq<Byte>>, t: seq<Byte>, i: nat,
                   w: nat, h: nat, bpp: nat)
    requires EncodedTo(before, passes, types, i, w, h, bpp) && i < 7
    requires Outside(before, now, FilterStart(i, w, h, bpp), FilterStart(i + 1, w, h, bpp))
    requires PassHolds(now, passes, LegalTypes(t), i, w, h, bpp)
    ensures EncodedTo(now, passes, types + [t], i + 1, w, h, bpp)
  {
    hide PassHolds, FilterStart, LegalTypes, Outside;
    forall j: nat | j < i + 1 ensures PassHolds(now, passes, LegalTypes((types + [t])[j]), j, w, h, bpp) {
      if j < i {
        assert PassHolds(before, passes, LegalTypes(types[j]), j, w, h, bpp);
        EarlierStream(before, now, passes, LegalTypes(types[j]), i, j, w, h, bpp);
      }
    }
  }

  lemma EarlierStream(before: seq<Byte>, now: seq<Byte>, passes: BitString, legal: bool, i: nat, j: nat, w: nat, h: nat, bpp: nat)
    requires PassHolds(before, passes, legal, j, w, h, bpp) && j < i < 7
    requires Outside(before, now, FilterStart(i, w, h, bpp), FilterStart(i + 1, w, h, bpp))
    ensures PassHolds(now, passes, legal, j, w, h, bpp)
  {
    hide FilterStart, PassStart, RowsOf, PassBits;
    StartsGrow(j + 1, i, w, h, bpp);
    PassStreamFits(j, w, h, bpp);
    var f := FilterStart(i, w, h, bpp);
    var a, b := FilterStart(j, w, h, bpp), FilterStart(j + 1, w, h, bpp);
    assert now[a..b] == now[..f][a..b] == before[..f][a..b] == before[a..b];
  }

  /** One pass of the encoder's loop: padding for pixels smaller than a byte, else the bytes as they are. */
  method PreProcessNext(out: array<Byte>, adam7: array<Byte>, i: nat, w: nat, h: nat, bpp: nat, pw: nat, ph: nat,
                        fs: nat, ps: nat, s: nat, info: PngInfo, settings: FilterSettings, ghost types: seq<seq<Byte>>)
    returns (error: nat, ghost types': seq<seq<Byte>>)
    requires out != adam7 && PixelDepth(bpp) && i < 7
    requires pw == PassW(i, w, h) && ph == PassH(i, w, h)
    requires fs == FilterStart(i, w, h, bpp) && ps == PaddedStart(i, w, h, bpp) && s == PassStart(i, w, h, bpp)
    requires out.Length == FilterStart(7, w, h, bpp) && adam7.Length == PassStart(7, w, h, bpp)
    requires EncodedTo(out[..], BitsOf(adam7[..]), types, i, w, h, bpp)
    requires InForce(settings, info.colortype == 3, info.bitdepth) == Predefined ==> ph <= |settings.predefined_filters|
    modifies out
    ensures error == if InForce(settings, info.colortype == 3, info.bitdepth) == UnknownStrategy then 88 else 0
    ensures error == 0 ==>
      && EncodedTo(out[..], BitsOf(adam7[..]), types', i + 1, w, h, bpp)
      && |types'| == i + 1 && types'[..i] == types && |types'[i]| == ph
      && TypesAllowed(InForce(settings, info.colortype == 3, info.bitdepth), settings.predefined_filters, types'[i])
  {
    hide BitsOf, PassStart, PaddedStart, FilterStart, PassW, PassH, RowsOf, LineBytes, Outside, RowAt, EncodedTo, LegalTypes;
    PassStreamFits(i, w, h, bpp);
    StartsOrdered(i, w, h, bpp);
    RowsOfPixels(ph, pw, bpp);
    EncodedCount(out[..], BitsOf(adam7[..]), types, i, w, h, bpp);
    ghost var before, n := out[..], RowAt(ph, LineBytes(pw, bpp) + 1);
    ghost var t;
    if bpp < 8 {
      error, t := PreProcessPass(out, fs, adam7, s, pw, ph, bpp, true, info, settings);
    } else {
      WholeBytes(pw, bpp);
      error, t := PreProcessPass(out, fs, adam7, ps, pw, ph, bpp, false, info, settings);
    }
    types' := types + [t];
    if error == 0 {
      assert out[fs..fs + n] == PassStream(out[..], i, w, h, bpp);
      EncodeStep(before, out[..], BitsOf(adam7[..]), types, t, i, w, h, bpp);
    }
  }

  lemma EncodedCount(now: seq<Byte>, passes: BitString, types: seq<seq<Byte>>, i: nat, w: nat, h: nat, bpp: nat)
    requires EncodedTo(now, passes, types, i, w, h, bpp)
    ensures |types| == i
  {
  }

  /** preProcessScanlines for an interlaced image: the stream holds its seven passes. */
  method PreProcessInterlaced(image: array<Byte>, w: nat, h: nat, bpp: nat, info: PngInfo, settings: FilterSettings)
    returns (error: nat, out: array<Byte>, ghost passes: BitString, ghost types: seq<seq<Byte>>)
    requires PixelDepth(bpp) && RowAt(RowAt(h, w), bpp) <= 8 * image.Length
    requires InForce(settings, info.colortype == 3, info.bitdepth) == Predefined ==> h <= |settings.predefined_filters|
    ensures fresh(out) && out.Length == FilterStart(7, w, h, bpp)
    ensures error == if InForce(settings, info.colortype == 3, info.bitdepth) == UnknownStrategy then 88 else 0
    ensures error == 0 ==>
      && Interlaced(BitsOf(image[..]), passes, w, h, bpp) && |passes| == 8 * PassStart(7, w, h, bpp)
      && TypesOfPasses(types, 7, w, h, InForce(settings, info.colortype == 3, info.bitdepth), settings.predefined_filters)
      && EncodedTo(out[..], passes, types, 7, w, h, bpp)
  {
    hide BitsOf, PassStart, PaddedStart, FilterStart, PassW, PassH, Interlaced, RowAt, EncodedTo, TypesAllowed, InForce;
    var passw, passh, filter_passstart, padded_passstart, passstart := GetPassValues(w, h, bpp);
    out := new Byte[filter_passstart[7]];
    var adam7 := new Byte[passstart[7]];
    InterlaceImage(adam7, image, w, h, bpp);
    passes := BitsOf(adam7[..]);
    types := [];
    error := 0;
    NothingEncoded(out[..], passes, w, h, bpp);
    for i := 0 to 7
      invariant error == 0 && EncodedTo(out[..], passes, types, i, w, h, bpp) && passes == BitsOf(adam7[..])
      invariant TypesOfPasses(types, i, w, h, InForce(settings, info.colortype == 3, info.bitdepth), settings.predefined_filters)
      invariant i > 0 ==> InForce(settings, info.colortype == 3, info.bitdepth) != UnknownStrategy
    {
      PassFitsImage(i, w, h);
      ghost var was := types;
      error, types := PreProcessNext(out, adam7, i, w, h, bpp, passw[i], passh[i], filter_passstart[i], padded_passstart[i],
                                     passstart[i], info, settings, types);
      if error != 0 { return; }
      assert forall j: nat :: j < i ==> types[j] == types[..i][j] == was[j];
    }
  }

  lemma NothingEncoded(now: seq<Byte>, passes: BitString, w: nat, h: nat, bpp: nat)
    ensures EncodedTo(now, passes, [], 0, w, h, bpp)
  {
  }

  /** A pass has no more rows than the image. */
  lemma PassFitsImage(i: nat, w: nat, h: nat)
    requires i < 7
    ensures PassH(i, w, h) <= h
  {
    hide RawWidth, RawHeight;
    Heights(i, h, h);
    assert h * DY[i] >= h by { MulAtLeast(DY[i], h); }
  }

  /** Every filter type used is one of the five. */
  ghost predicate AllLegal(types: seq<seq<Byte>>) { forall j: nat :: j < |types| ==> LegalTypes(types[j]) }

  /** The filter strategy in force for an image. */
  function StrategyFor(info: PngInfo, settings: FilterSettings): FilterStrategy {
    InForce(settings, info.colortype == 3, info.bitdepth)
  }

  /** An encoder's result: the stream holds the pixels of the image, readable exactly if all filter types are legal. */
  ghost predicate Encoded(image: BitString, out: seq<Byte>, passes: BitString, types: seq<seq<Byte>>,
                          w: nat, h: nat, bpp: nat, interlace_method: nat) {
    && bpp > 0 && |out| == StreamSize(w, h, bpp, interlace_method) && RowAt(RowAt(h, w), bpp) <= |image|
    && if interlace_method == 0 then
         && |types| == 1
         && RowsOf(out, w, h, bpp) == if LegalTypes(types[0]) then Some(image[..RowAt(RowAt(h, w), bpp)]) else None
       else
         && Interlaced(image, passes, w, h, bpp) && |passes| == 8 * PassStart(7, w, h, bpp)
         && EncodedTo(out, passes, types, 7, w, h, bpp)
  }

  /** Which filter types an encoder has used: one sequence for an image, or one for every pass. */
  ghost predicate TypesUsed(types: seq<seq<Byte>>, w: nat, h: nat, interlace_method: nat, strategy: FilterStrategy,
                            predefined: seq<Byte>) {
    if interlace_method == 0 then |types| == 1 && |types[0]| == h && TypesAllowed(strategy, predefined, types[0])
    else TypesOfPasses(types, 7, w, h, strategy, predefined)
  }

  /** preProcessScanlines: the result stands for the pixels of the image exactly if all filter types are legal. */
  method PreProcessScanlines(image: array<Byte>, w: nat, h: nat, info: PngInfo, settings: FilterSettings)
    returns (error: nat, out: array<Byte>, ghost passes: BitString, ghost types: seq<seq<Byte>>)
    requires w > 0 && PixelDepth(BitsPerPixel(info)) && RowAt(RowAt(h, w), BitsPerPixel(info)) <= 8 * image.Length
    requires StrategyFor(info, settings) == Predefined ==> h <= |settings.predefined_filters|
    ensures fresh(out) && out.Length == StreamSize(w, h, BitsPerPixel(info), info.interlace_method)
    ensures error == if StrategyFor(info, settings) == UnknownStrategy then 88 else 0
    ensures error == 0 ==>
      && Encoded(BitsOf(image[..]), out[..], passes, types, w, h, BitsPerPixel(info), info.interlace_method)
      && TypesUsed(types, w, h, info.interlace_method, StrategyFor(info, settings), settings.predefined_filters)
  {
    hide BitsOf, PassStart, FilterStart, Interlaced, RowAt, EncodedTo, TypesAllowed, InForce, LineBytes, RowsOf, LegalTypes;
    var bpp := BitsPerPixel(info);
    passes := [];
    if info.interlace_method == 0 {
      LineBits(w, bpp);
      RowsOfPixels(h, w, bpp);
      PlainSize(w, h, bpp);
      if bpp >= 8 { WholeBytes(w, bpp); }
      out := new Byte[h + h * ((w * bpp + 7) / 8)];
      ghost var t;
      if bpp < 8 && w * bpp != ((w * bpp + 7) / 8) * 8 {
        error, t := PreProcessPass(out, 0, image, 0, w, h, bpp, true, info, settings);
      } else {
        error, t := PreProcessPass(out, 0, image, 0, w, h, bpp, false, info, settings);
      }
      types := [t];
      WholeSlice(out[..]);
      assert out[0..0 + RowAt(h, LineBytes(w, bpp) + 1)] == out[..];
    } else {
      error, out, passes, types := PreProcessInterlaced(image, w, h, bpp, info, settings);
    }
  }

  lemma PlainSize(w: nat, h: nat, bpp: nat)
    ensures h + h * ((w * bpp + 7) / 8) == RowAt(h, LineBytes(w, bpp) + 1)
  {
  }

  /** Among the passes of an image one has no readable rows if its filter types are not all legal. */
  lemma IllegalPass(now: seq<Byte>, passes: BitString, types: seq<seq<Byte>>, w: nat, h: nat, bpp: nat)
    requires EncodedTo(now, passes, types, 7, w, h, bpp) && bpp > 0 && |now| == FilterStart(7, w, h, bpp)
    ensures AllLegal(types) <==> forall j: nat :: j < 7 ==> PassRows(now, j, w, h, bpp).Some?
  {
    hide PassRows, FilterStart, PassStart, LegalTypes;
    forall j: nat | j < 7 ensures LegalTypes(types[j]) <==> PassRows(now, j, w, h, bpp).Some? {
      assert PassHolds(now, passes, LegalTypes(types[j]), j, w, h, bpp);
    }
  }

  lemma SameBits(now: seq<Byte>, p: BitString, q: BitString, types: seq<seq<Byte>>, w: nat, h: nat, bpp: nat)
    requires EncodedTo(now, p, types, 7, w, h, bpp) && AllLegal(types) && 8 * PassStart(7, w, h, bpp) <= |p|
    requires forall j: nat :: j < 7 ==> PassHolds(now, q, true, j, w, h, bpp)
    ensures 8 * PassStart(7, w, h, bpp) <= |q|
    ensures forall j: nat :: j < 7 ==> PassBits(p, j, w, h, bpp) == PassBits(q, j, w, h, bpp)
  {
    hide PassRows, FilterStart, PassStart, LegalTypes, PassBits;
    assert PassHolds(now, q, true, 0, w, h, bpp);
    forall j: nat | j < 7 ensures PassBits(p, j, w, h, bpp) == PassBits(q, j, w, h, bpp) {
      assert PassHolds(now, p, LegalTypes(types[j]), j, w, h, bpp);
      assert PassHolds(now, q, true, j, w, h, bpp);
    }
  }

  /** The image decoded from the passes of another image is that image. */
  lemma SameImage(a: BitString, b: BitString, p: BitString, q: BitString, now: seq<Byte>, types: seq<seq<Byte>>,
                  w: nat, h: nat, bpp: nat)
    requires Interlaced(a, p, w, h, bpp) && Interlaced(b, q, w, h, bpp) && bpp > 0
    requires EncodedTo(now, p, types, 7, w, h, bpp) && AllLegal(types) && 8 * PassStart(7, w, h, bpp) <= |p|
    requires forall j: nat :: j < 7 ==> PassHolds(now, q, true, j, w, h, bpp)
    requires RowAt(RowAt(h, w), bpp) <= |a| && RowAt(RowAt(h, w), bpp) <= |b|
    ensures a[..RowAt(RowAt(h, w), bpp)] == b[..RowAt(RowAt(h, w), bpp)]
  {
    hide Interlaced, EncodedTo, PassHolds, PassStart, RowAt, AllLegal, PassBits;
    SameBits(now, p, q, types, w, h, bpp);
    SamePasses(a, p, q, w, h, bpp);
    InterlacedUnique(a, b, q, w, h, bpp);
  }

  predicate LegalPrefix(types: seq<Byte>, n: nat) { n <= |types| && LegalTypes(types[..n]) }

  /** The predefined filter types that are used: those of the first h rows, or of the first rows of every pass. */
  predicate PredefinedLegal(predefined: seq<Byte>, w: nat, h: nat, interlace_method: nat) {
    if interlace_method == 0 then LegalPrefix(predefined, h) else forall j: nat :: j < 7 ==> LegalPrefix(predefined, PassH(j, w, h))
  }

  lemma LegalIfPredefined(types: seq<seq<Byte>>, predefined: seq<Byte>, w: nat, h: nat, interlace_method: nat)
    requires forall j: nat :: j < |types| ==> types[j] <= predefined
    requires if interlace_method == 0 then |types| == 1 && |types[0]| == h
             else |types| == 7 && forall j: nat :: j < 7 ==> |types[j]| == PassH(j, w, h)
    ensures AllLegal(types) <==> PredefinedLegal(predefined, w, h, interlace_method)
  {
    hide LegalTypes, PassH;
    forall j: nat | j < |types| ensures LegalTypes(types[j]) <==> LegalPrefix(predefined, |types[j]|) {
      assert types[j] == predefined[..|types[j]|];
    }
  }

  /**
   * The whole pipeline, for every size, color type, interlace method and strategy: decoding the filtered
   * scanlines gives back the first w * h * bpp bits of the image, unless a predefined filter type is above 4,
   * which is error 36.
   */
  method ScanlineRoundTrip(image: array<Byte>, w: nat, h: nat, info: PngInfo, settings: FilterSettings)
    returns (error: nat, result: array<Byte>, ghost types: seq<seq<Byte>>)
    requires w > 0 && CheckColorValidity(info.colortype, info.bitdepth) == 0
    requires RowAt(RowAt(h, w), BitsPerPixel(info)) <= 8 * image.Length
    requires StrategyFor(info, settings) != UnknownStrategy
    requires StrategyFor(info, settings) == Predefined ==> h <= |settings.predefined_filters|
    ensures error == 0 || error == 36
    ensures error == 0 <==> AllLegal(types)
    ensures error == 0 <==>
      (StrategyFor(info, settings) == Predefined ==> PredefinedLegal(settings.predefined_filters, w, h, info.interlace_method))
    ensures StrategyFor(info, settings) == Predefined ==> forall j: nat :: j < |types| ==> types[j] <= settings.predefined_filters
    ensures if info.interlace_method == 0 then |types| == 1 && |types[0]| == h
            else |types| == 7 && forall j: nat :: j < 7 ==> |types[j]| == PassH(j, w, h)
    ensures RowAt(RowAt(h, w), BitsPerPixel(info)) <= 8 * result.Length
    ensures error == 0 ==>
      var n := RowAt(RowAt(h, w), BitsPerPixel(info));
      BitsOf(result[..])[..n] == BitsOf(image[..])[..n]
  {
    hide BitsOf, RowAt, InForce, StreamSize, AllZero, CheckColorValidity, BitsPerPixel, PixelDepth, AllLegal, Encoded, Decoded,
         TypesUsed, PredefinedLegal;
    ValidColorDepth(info);
    ghost var bpp := BitsPerPixel(info);
    var scanlines;
    ghost var p, q;
    error, scanlines, p, types := PreProcessScanlines(image, w, h, info, settings);
    ghost var encoded := scanlines[..];
    var size := w * h * BitsPerPixel(info);
    RawSize(w, h, BitsPerPixel(info));
    result := new Byte[(size + 7) / 8](_ => 0);
    ZeroMemory(result[..]);
    UsedTypes(types, w, h, info.interlace_method, StrategyFor(info, settings), settings.predefined_filters);
    error, q := PostProcessScanlines(result, scanlines, w, h, info);
    EncodeDecode(BitsOf(image[..]), BitsOf(result[..]), encoded, error == 0, p, q, types, w, h, bpp, info.interlace_method);
    if StrategyFor(info, settings) == Predefined {
      LegalIfPredefined(types, settings.predefined_filters, w, h, info.interlace_method);
    }
  }

  /** Whatever a decoder makes of what an encoder wrote is the image, if it is readable, and it is if the types are legal. */
  lemma EncodeDecode(image: BitString, out: BitString, stream: seq<Byte>, readable: bool, p: BitString, q: BitString,
                     types: seq<seq<Byte>>, w: nat, h: nat, bpp: nat, interlace_method: nat)
    requires Encoded(image, stream, p, types, w, h, bpp, interlace_method)
    requires Decoded(stream, readable, out, q, w, h, bpp, interlace_method)
    requires RowAt(RowAt(h, w), bpp) <= |out|
    ensures RowAt(RowAt(h, w), bpp) <= |image| && (readable <==> AllLegal(types))
    ensures readable ==> out[..RowAt(RowAt(h, w), bpp)] == image[..RowAt(RowAt(h, w), bpp)]
  {
    hide PassStart, FilterStart, Interlaced, RowAt, EncodedTo, LineBytes, RowsOf, PassRows, LegalTypes, PassHolds, AllLegal;
    if interlace_method == 0 {
      RowsOfPixels(h, w, bpp);
      OneLegal(types);
    } else {
      IllegalPass(stream, p, types, w, h, bpp);
      if readable { SameImage(image, out, p, q, stream, types, w, h, bpp); }
    }
  }

  lemma RawSize(w: nat, h: nat, bpp: nat)
    ensures RowAt(RowAt(h, w), bpp) == w * h * bpp
  {
    Reorder(w, h, bpp);
  }

  lemma OneLegal(types: seq<seq<Byte>>)
    ensures |types| == 1 ==> (AllLegal(types) <==> LegalTypes(types[0]))
  {
  }

  lemma UsedTypes(types: seq<seq<Byte>>, w: nat, h: nat, interlace_method: nat, strategy: FilterStrategy, predefined: seq<Byte>)
    requires TypesUsed(types, w, h, interlace_method, strategy, predefined)
    ensures strategy != Predefined ==> AllLegal(types)
    ensures strategy == Predefined ==> forall j: nat :: j < |types| ==> types[j] <= predefined
    ensures if interlace_method == 0 then |types| == 1 && |types[0]| == h
            else |types| == 7 && forall j: nat :: j < 7 ==> |types[j]| == PassH(j, w, h)
  {
  }

  lemma ZeroMemory(data: seq<Byte>)
    requires forall i :: 0 <= i < |data| ==> data[i] == 0
    ensures AllZero(BitsOf(data))
  {
    hide Bit;
    forall i | 0 <= i < 8 * |data| ensures !BitsOf(data)[i] { ZeroBit(7 - i % 8); }
  }
}
