/** Moving the pixels between an image and its seven Adam7 passes (lodepng.c:3993-4041, 5367-5414). */
module Interlace {
  import opened Bits
  import opened Memory
  import opened PixelBits
  import opened Adam7

  // ---- Places ----

  /** First bit of a pixel in the image, and of a slot in the interlaced image. */
  function PixelPos(px: nat, py: nat, w: nat, bpp: nat): nat { RowAt(RowAt(py, w) + px, bpp) }

  function SlotPos(s: Slot, w: nat, h: nat, bpp: nat): nat
    requires s.pass < 7
  {
    8 * PassStart(s.pass, w, h, bpp) + RowAt(RowAt(s.y, PassW(s.pass, w, h)) + s.x, bpp)
  }

  lemma PixelInside(px: nat, py: nat, w: nat, h: nat, bpp: nat)
    requires px < w && py < h
    ensures PixelPos(px, py, w, bpp) + bpp <= RowAt(RowAt(h, w), bpp)
  {
    hide RowAt;
    RowInside(py, w, h);
    RowInside(RowAt(py, w) + px, bpp, RowAt(h, w));
  }

  /** Different pixels do not overlap. */
  lemma PixelsApart(px: nat, py: nat, qx: nat, qy: nat, w: nat, bpp: nat)
    requires px < w && qx < w && (px != qx || py != qy)
    ensures PixelPos(px, py, w, bpp) + bpp <= PixelPos(qx, qy, w, bpp)
         || PixelPos(qx, qy, w, bpp) + bpp <= PixelPos(px, py, w, bpp)
  {
    hide RowAt;
    if py < qy { RowInside(py, w, qy); }
    if qy < py { RowInside(qy, w, py); }
    var a, b := RowAt(py, w) + px, RowAt(qy, w) + qx;
    if a < b { RowInside(a, bpp, b); } else { RowInside(b, bpp, a); }
  }

  lemma SlotInside(s: Slot, w: nat, h: nat, bpp: nat)
    requires ValidSlot(s, w, h)
    ensures SlotPos(s, w, h, bpp) + bpp <= 8 * PassStart(s.pass + 1, w, h, bpp)
    ensures SlotPos(s, w, h, bpp) + bpp <= 8 * PassStart(7, w, h, bpp)
  {
    hide RowAt, PassW, PassH;
    var pw, ph := PassW(s.pass, w, h), PassH(s.pass, w, h);
    RowInside(s.y, pw, ph);
    RowInside(RowAt(s.y, pw) + s.x, bpp, RowAt(ph, pw));
    StartsGrow(s.pass + 1, 7, w, h, bpp);
  }

  /** Slots lie in the interlaced image in their order. */
  lemma SlotsInOrder(s: Slot, t: Slot, w: nat, h: nat, bpp: nat)
    requires ValidSlot(s, w, h) && t.pass < 7 && t.x <= PassW(t.pass, w, h) && Before(s, t)
    ensures SlotPos(s, w, h, bpp) + bpp <= SlotPos(t, w, h, bpp)
  {
    hide RowAt, PassW, PassH;
    if s.pass < t.pass {
      SlotInside(s, w, h, bpp);
      StartsGrow(s.pass + 1, t.pass, w, h, bpp);
    } else {
      var pw := PassW(s.pass, w, h);
      if s.y < t.y { RowInside(s.y, pw, t.y); }
      RowInside(RowAt(s.y, pw) + s.x, bpp, RowAt(t.y, pw) + t.x);
    }
  }

  // ---- What interlacing means ----

  /** The slot holds its pixel. */
  ghost predicate Holds(image: BitString, passes: BitString, s: Slot, w: nat, h: nat, bpp: nat)
    requires s.pass < 7
  {
    var p, q := PixelPos(PX(s), PY(s), w, bpp), SlotPos(s, w, h, bpp);
    p + bpp <= |image| && q + bpp <= |passes| && image[p..p + bpp] == passes[q..q + bpp]
  }

  ghost predicate HoldsUpTo(image: BitString, passes: BitString, end: Slot, w: nat, h: nat, bpp: nat) {
    forall s: Slot {:trigger Holds(image, passes, s, w, h, bpp)} ::
      ValidSlot(s, w, h) && Before(s, end) ==> Holds(image, passes, s, w, h, bpp)
  }

  /** Every slot of every pass holds the pixel that belongs there. */
  ghost predicate Interlaced(image: BitString, passes: BitString, w: nat, h: nat, bpp: nat) {
    HoldsUpTo(image, passes, Slot(7, 0, 0), w, h, bpp)
  }

  /** Images with the same passes have the same pixels. */
  lemma InterlacedPixel(a: BitString, b: BitString, passes: BitString, w: nat, h: nat, bpp: nat, px: nat, py: nat)
    requires Interlaced(a, passes, w, h, bpp) && Interlaced(b, passes, w, h, bpp) && px < w && py < h
    ensures
      var p := PixelPos(px, py, w, bpp);
      p + bpp <= |a| && p + bpp <= |b| && a[p..p + bpp] == b[p..p + bpp]
  {
    hide PixelPos, SlotPos, SlotOf;
    var s := SlotOf(px, py);
    PixelHasSlot(px, py);
    PassOfSlotOf(px, py);
    SlotInImage(s, w, h);
    assert Holds(a, passes, s, w, h, bpp) && Holds(b, passes, s, w, h, bpp);
  }

  lemma PassOfSlotOf(px: nat, py: nat)
    ensures SlotOf(px, py).pass < 7
  {
  }

  /** Deinterlacing undoes interlacing: the passes determine every bit of the image. */
  lemma InterlacedUnique(a: BitString, b: BitString, passes: BitString, w: nat, h: nat, bpp: nat)
    requires Interlaced(a, passes, w, h, bpp) && Interlaced(b, passes, w, h, bpp) && bpp > 0
    requires RowAt(RowAt(h, w), bpp) <= |a| && RowAt(RowAt(h, w), bpp) <= |b|
    ensures a[..RowAt(RowAt(h, w), bpp)] == b[..RowAt(RowAt(h, w), bpp)]
  {
    hide Interlaced, RowAt, PixelPos;
    var n := RowAt(RowAt(h, w), bpp);
    forall i | 0 <= i < n ensures a[i] == b[i] {
      var px, py, k := BitPixel(i, w, h, bpp);
      InterlacedPixel(a, b, passes, w, h, bpp, px, py);
      var p := PixelPos(px, py, w, bpp);
      assert a[p..p + bpp][k] == a[i] && b[p..p + bpp][k] == b[i];
    }
  }

  /** Every bit of the image belongs to a pixel. */
  lemma BitPixel(i: nat, w: nat, h: nat, bpp: nat) returns (px: nat, py: nat, k: nat)
    requires bpp > 0 && i < RowAt(RowAt(h, w), bpp)
    ensures px < w && py < h && k < bpp && i == PixelPos(px, py, w, bpp) + k
  {
    var number;
    number, k := RowPart(i, bpp, RowAt(h, w));
    if w == 0 { ZeroRow(h); assert false; }
    py, px := RowPart(number, w, h);
  }

  lemma ZeroRow(h: nat)
    ensures RowAt(h, 0) == 0
  {
  }

  lemma RowPart(i: nat, n: nat, h: nat) returns (y: nat, x: nat)
    requires n > 0 && i < RowAt(h, n)
    ensures y < h && x < n && i == RowAt(y, n) + x
  {
    y, x := i / n, i % n;
    assert i == y * n + x;
    if h < y { RowInside(h, n, y); }
  }

  // ---- One step of the loops ----

  lemma OutsideUnchanged(before: BitString, now: BitString, start: nat, row: BitString, p: nat, n: nat)
    requires Written(before, now, start, row) && p + n <= |before| && (p + n <= start || start + |row| <= p)
    ensures |now| == |before| && now[p..p + n] == before[p..p + n]
  {
    WrittenAt(before, now, start, row);
  }

  /** Filling the next slot keeps the ones before it. */
  lemma SlotFilled(image: BitString, before: BitString, now: BitString, s: Slot, w: nat, h: nat, bpp: nat)
    requires HoldsUpTo(image, before, s, w, h, bpp) && ValidSlot(s, w, h)
    requires PixelPos(PX(s), PY(s), w, bpp) + bpp <= |image|
    requires Written(before, now, SlotPos(s, w, h, bpp), image[PixelPos(PX(s), PY(s), w, bpp)..PixelPos(PX(s), PY(s), w, bpp) + bpp])
    ensures HoldsUpTo(image, now, Slot(s.pass, s.y, s.x + 1), w, h, bpp)
  {
    hide PixelPos, SlotPos, Written, PX, PY, PassW, PassH;
    var p, q := PixelPos(PX(s), PY(s), w, bpp), SlotPos(s, w, h, bpp);
    WrittenIs(before, now, q, image[p..p + bpp]);
    forall t: Slot | ValidSlot(t, w, h) && Before(t, Slot(s.pass, s.y, s.x + 1)) ensures Holds(image, now, t, w, h, bpp) {
      if t != s {
        assert Before(t, s);
        assert Holds(image, before, t, w, h, bpp);
        SlotsInOrder(t, s, w, h, bpp);
        OutsideUnchanged(before, now, q, image[p..p + bpp], SlotPos(t, w, h, bpp), bpp);
      }
    }
  }

  /** The pixels from a slot on are still zero. */
  ghost predicate ZeroFrom(image: BitString, begin: Slot, w: nat, h: nat, bpp: nat) {
    forall s: Slot {:trigger ZeroPixel(image, s, w, bpp)} ::
      ValidSlot(s, w, h) && !Before(s, begin) ==> ZeroPixel(image, s, w, bpp)
  }

  ghost predicate ZeroPixel(image: BitString, s: Slot, w: nat, bpp: nat)
    requires s.pass < 7
  {
    var p := PixelPos(PX(s), PY(s), w, bpp);
    p + bpp <= |image| && AllZero(image[p..p + bpp])
  }

  lemma SlotsDiffer(s: Slot, t: Slot, w: nat, h: nat, bpp: nat)
    requires ValidSlot(s, w, h) && ValidSlot(t, w, h) && s != t
    ensures PixelPos(PX(s), PY(s), w, bpp) + bpp <= PixelPos(PX(t), PY(t), w, bpp)
         || PixelPos(PX(t), PY(t), w, bpp) + bpp <= PixelPos(PX(s), PY(s), w, bpp)
  {
    hide PixelPos, SlotOf, PX, PY;
    SlotInImage(s, w, h);
    SlotInImage(t, w, h);
    SlotIsUnique(s);
    SlotIsUnique(t);
    PixelsApart(PX(s), PY(s), PX(t), PY(t), w, bpp);
  }

  /** Setting the pixel of the next slot keeps the pixels set before, and leaves the later ones zero. */
  lemma PixelSet(before: BitString, now: BitString, passes: BitString, s: Slot, w: nat, h: nat, bpp: nat)
    requires HoldsUpTo(before, passes, s, w, h, bpp) && ZeroFrom(before, s, w, h, bpp) && ValidSlot(s, w, h)
    requires SlotPos(s, w, h, bpp) + bpp <= |passes|
    requires Written(before, now, PixelPos(PX(s), PY(s), w, bpp), passes[SlotPos(s, w, h, bpp)..SlotPos(s, w, h, bpp) + bpp])
    ensures HoldsUpTo(now, passes, Slot(s.pass, s.y, s.x + 1), w, h, bpp)
    ensures ZeroFrom(now, Slot(s.pass, s.y, s.x + 1), w, h, bpp)
  {
    hide PixelPos, SlotPos, Written, PX, PY, PassW, PassH, AllZero;
    var p, q := PixelPos(PX(s), PY(s), w, bpp), SlotPos(s, w, h, bpp);
    WrittenIs(before, now, p, passes[q..q + bpp]);
    var next := Slot(s.pass, s.y, s.x + 1);
    forall t: Slot | ValidSlot(t, w, h) && Before(t, next) ensures Holds(now, passes, t, w, h, bpp) {
      if t != s {
        assert Before(t, s);
        assert Holds(before, passes, t, w, h, bpp);
        SlotsDiffer(s, t, w, h, bpp);
        OutsideUnchanged(before, now, p, passes[q..q + bpp], PixelPos(PX(t), PY(t), w, bpp), bpp);
      }
    }
    forall t: Slot | ValidSlot(t, w, h) && !Before(t, next) ensures ZeroPixel(now, t, w, bpp) {
      assert !Before(t, s) && t != s;
      assert ZeroPixel(before, t, w, bpp);
      SlotsDiffer(s, t, w, h, bpp);
      OutsideUnchanged(before, now, p, passes[q..q + bpp], PixelPos(PX(t), PY(t), w, bpp), bpp);
    }
  }

  /** At the end of a row or a pass the next slot is the first one of the next. */
  lemma NextRowSlot(image: BitString, passes: BitString, i: nat, y: nat, w: nat, h: nat, bpp: nat)
    requires i < 7
    ensures HoldsUpTo(image, passes, Slot(i, y, PassW(i, w, h)), w, h, bpp) ==> HoldsUpTo(image, passes, Slot(i, y + 1, 0), w, h, bpp)
    ensures ZeroFrom(image, Slot(i, y, PassW(i, w, h)), w, h, bpp) ==> ZeroFrom(image, Slot(i, y + 1, 0), w, h, bpp)
  {
    hide PassW, PassH, Holds, ZeroPixel;
  }

  lemma NextPassSlot(image: BitString, passes: BitString, i: nat, w: nat, h: nat, bpp: nat)
    requires i < 7
    ensures HoldsUpTo(image, passes, Slot(i, PassH(i, w, h), 0), w, h, bpp) ==> HoldsUpTo(image, passes, Slot(i + 1, 0, 0), w, h, bpp)
    ensures ZeroFrom(image, Slot(i, PassH(i, w, h), 0), w, h, bpp) ==> ZeroFrom(image, Slot(i + 1, 0, 0), w, h, bpp)
  {
    hide PassW, PassH, Holds, ZeroPixel;
  }

  // ---- Copying one pixel ----

  lemma BitAt(data: seq<Byte>, a: nat, k: nat)
    requires 8 * a + k < 8 * |data|
    ensures BitsOf(data)[8 * a + k] == Bit(data[a + k / 8], 7 - k % 8)
  {
    assert (8 * a + k) / 8 == a + k / 8 && (8 * a + k) % 8 == k % 8;
  }

  lemma BytesWrittenAt(before: seq<Byte>, now: seq<Byte>, start: nat, input: seq<Byte>, q: nat, n: nat, i: nat)
    requires q + n <= |input| && Written(before, now, start, input[q..q + n]) && i < 8 * |before|
    ensures |now| == |before| && start + n <= |before|
    ensures BitsOf(now)[i] == if 8 * start <= i < 8 * (start + n) then BitsOf(input)[8 * q + (i - 8 * start)] else BitsOf(before)[i]
  {
    hide BitsOf, Bit, Written;
    WrittenAt(before, now, start, input[q..q + n]);
    WrittenFits(before, now, start, input[q..q + n]);
    if 8 * start <= i < 8 * (start + n) {
      var k := i - 8 * start;
      BitAt(now, start, k);
      BitAt(input, q, k);
      assert now[start + k / 8] == input[q..q + n][k / 8];
    } else {
      BitAt(now, 0, i);
      BitAt(before, 0, i);
    }
  }

  /** Writing bytes writes their bits. */
  lemma BytesWritten(before: seq<Byte>, now: seq<Byte>, start: nat, input: seq<Byte>, q: nat, n: nat)
    requires q + n <= |input| && Written(before, now, start, input[q..q + n])
    ensures Written(BitsOf(before), BitsOf(now), 8 * start, BitsOf(input)[8 * q..8 * (q + n)])
  {
    hide BitsOf, Written;
    WrittenAt(before, now, start, input[q..q + n]);
    WrittenFits(before, now, start, input[q..q + n]);
    var row := BitsOf(input)[8 * q..8 * (q + n)];
    var all := BitsOf(before)[..8 * start] + row + BitsOf(before)[8 * start + |row|..];
    forall i | 0 <= i < |all| ensures BitsOf(now)[i] == all[i] { BytesWrittenAt(before, now, start, input, q, n, i); }
    MakeWritten(BitsOf(before), BitsOf(now), 8 * start, row);
  }

  lemma MakeWritten(before: BitString, now: BitString, start: nat, row: BitString)
    requires start + |row| <= |before| && now == before[..start] + row + before[start + |row|..]
    ensures Written(before, now, start, row)
  {
  }

  /** A pixel of whole bytes. */
  method CopyBytes(out: array<Byte>, pixeloutstart: nat, inp: array<Byte>, pixelinstart: nat, bytewidth: nat)
    requires out != inp && pixeloutstart + bytewidth <= out.Length && pixelinstart + bytewidth <= inp.Length
    modifies out
    ensures Written(old(BitsOf(out[..])), BitsOf(out[..]), 8 * pixeloutstart,
                    BitsOf(inp[..])[8 * pixelinstart..8 * (pixelinstart + bytewidth)])
  {
    hide BitsOf;
    ghost var before := out[..];
    for b := 0 to bytewidth
      invariant Written(before, out[..], pixeloutstart, inp[pixelinstart..pixelinstart + b])
    {
      ghost var now := out[..];
      WrittenStep(before, now, pixeloutstart, inp[pixelinstart..pixelinstart + b], inp[pixelinstart + b]);
      assert inp[pixelinstart..pixelinstart + b] + [inp[pixelinstart + b]] == inp[pixelinstart..pixelinstart + b + 1];
      out[pixeloutstart + b] := inp[pixelinstart + b];
      assert out[..] == now[pixeloutstart + b := inp[pixelinstart + b]];
    }
    assert inp[pixelinstart..pixelinstart + bytewidth] == inp[..][pixelinstart..pixelinstart + bytewidth];
    BytesWritten(before, out[..], pixeloutstart, inp[..], pixelinstart, bytewidth);
  }

  /** A pixel of single bits, where the output is still zero. */
  method CopyBits0(out: array<Byte>, obp: nat, inp: array<Byte>, ibp: nat, n: nat)
    requires out != inp && obp + n <= 8 * out.Length && ibp + n <= 8 * inp.Length
    requires AllZero(BitsOf(out[..])[obp..obp + n])
    modifies out
    ensures Written(old(BitsOf(out[..])), BitsOf(out[..]), obp, BitsOf(inp[..])[ibp..ibp + n])
  {
    hide BitsOf, Written;
    ghost var before, input := BitsOf(out[..]), BitsOf(inp[..]);
    assert input[ibp..ibp] == [];
    MakeWritten(before, before, obp, []);
    for b := 0 to n
      invariant Written(before, BitsOf(out[..]), obp, input[ibp..ibp + b])
    {
      ghost var now := BitsOf(out[..]);
      WrittenAt(before, now, obp, input[ibp..ibp + b]);
      assert !before[obp..obp + n][b];
      var bit := ReadPixelBit(inp, ibp + b);
      MoveBit(before, now, obp, input[ibp..ibp + b], bit);
      assert input[ibp..ibp + b] + [bit] == input[ibp..ibp + b + 1];
      SetPixelBit0(out, obp + b, bit);
    }
  }

  // ---- The two loops ----

  /** A bit depth of the format: a part of a byte or whole bytes. */
  predicate PixelDepth(bpp: nat) { 0 < bpp && (bpp < 8 || bpp % 8 == 0) }

  /** Byte positions times eight are bit positions. */
  lemma BytePositions(a: nat, b: nat, n: nat)
    ensures 8 * (a + b * n) == 8 * a + RowAt(b, 8 * n)
    ensures 8 * (b * n) == RowAt(b, 8 * n)
  {
  }

  lemma RowOffsets(y: nat, x: nat, w: nat, bpp: nat)
    ensures y * (bpp * w) + x * bpp == RowAt(RowAt(y, w) + x, bpp)
    ensures y * w + x == RowAt(y, w) + x
  {
  }

  /** One pixel of Adam7_interlace. */
  method InterlacePixel(out: array<Byte>, inp: array<Byte>, w: nat, ghost h: nat, bpp: nat, s: Slot, pw: nat, start: nat)
    requires out != inp && PixelDepth(bpp) && ValidSlot(s, w, h)
    requires pw == PassW(s.pass, w, h) && start == PassStart(s.pass, w, h, bpp)
    requires SlotPos(s, w, h, bpp) + bpp <= 8 * out.Length && PixelPos(PX(s), PY(s), w, bpp) + bpp <= 8 * inp.Length
    modifies out
    ensures Written(old(BitsOf(out[..])), BitsOf(out[..]), SlotPos(s, w, h, bpp),
                    BitsOf(inp[..])[PixelPos(PX(s), PY(s), w, bpp)..PixelPos(PX(s), PY(s), w, bpp) + bpp])
  {
    hide BitsOf, Written, RowAt, PassW, PassH, PassStart;
    var ix, iy := IX[s.pass] + s.x * DX[s.pass], IY[s.pass] + s.y * DY[s.pass];
    RowOffsets(iy, ix, w, bpp);
    RowOffsets(s.y, s.x, pw, bpp);
    if bpp >= 8 {
      var bytewidth := bpp / 8;
      BytePositions(start, RowAt(s.y, pw) + s.x, bytewidth);
      BytePositions(0, RowAt(iy, w) + ix, bytewidth);
      var pixelinstart := (iy * w + ix) * bytewidth;
      var pixeloutstart := start + (s.y * pw + s.x) * bytewidth;
      CopyBytes(out, pixeloutstart, inp, pixelinstart, bytewidth);
    } else {
      var ibp := iy * (bpp * w) + ix * bpp;
      var obp := 8 * start + (s.y * (bpp * pw) + s.x * bpp);
      NothingYet(BitsOf(out[..]), obp);
      MoveRow(out, obp, inp, ibp, bpp, BitsOf(out[..]), obp, BitsOf(inp[..]), []);
      assert [] + BitsOf(inp[..])[ibp..ibp + bpp] == BitsOf(inp[..])[ibp..ibp + bpp];
    }
  }

  lemma NothingYet(before: BitString, start: nat)
    requires start <= |before|
    ensures Written(before, before, start, [])
  {
  }

  /** One pixel of Adam7_deinterlace. */
  method DeinterlacePixel(out: array<Byte>, inp: array<Byte>, w: nat, ghost h: nat, bpp: nat, s: Slot, pw: nat, start: nat)
    requires out != inp && PixelDepth(bpp) && ValidSlot(s, w, h)
    requires pw == PassW(s.pass, w, h) && start == PassStart(s.pass, w, h, bpp)
    requires SlotPos(s, w, h, bpp) + bpp <= 8 * inp.Length
    requires PixelPos(PX(s), PY(s), w, bpp) + bpp <= 8 * out.Length
    requires AllZero(BitsOf(out[..])[PixelPos(PX(s), PY(s), w, bpp)..PixelPos(PX(s), PY(s), w, bpp) + bpp])
    modifies out
    ensures Written(old(BitsOf(out[..])), BitsOf(out[..]), PixelPos(PX(s), PY(s), w, bpp),
                    BitsOf(inp[..])[SlotPos(s, w, h, bpp)..SlotPos(s, w, h, bpp) + bpp])
  {
    hide BitsOf, Written, RowAt, PassW, PassH, PassStart, AllZero;
    var ix, iy := IX[s.pass] + s.x * DX[s.pass], IY[s.pass] + s.y * DY[s.pass];
    RowOffsets(iy, ix, w, bpp);
    RowOffsets(s.y, s.x, pw, bpp);
    if bpp >= 8 {
      var bytewidth := bpp / 8;
      BytePositions(start, RowAt(s.y, pw) + s.x, bytewidth);
      BytePositions(0, RowAt(iy, w) + ix, bytewidth);
      var pixelinstart := start + (s.y * pw + s.x) * bytewidth;
      var pixeloutstart := (iy * w + ix) * bytewidth;
      CopyBytes(out, pixeloutstart, inp, pixelinstart, bytewidth);
    } else {
      var ibp := 8 * start + (s.y * (bpp * pw) + s.x * bpp);
      var obp := iy * (bpp * w) + ix * bpp;
      CopyBits0(out, obp, inp, ibp, bpp);
    }
  }

  lemma SlotBounds(s: Slot, w: nat, h: nat, bpp: nat, passes: nat, image: nat)
    requires ValidSlot(s, w, h) && PassStart(7, w, h, bpp) <= passes && RowAt(RowAt(h, w), bpp) <= 8 * image
    ensures SlotPos(s, w, h, bpp) + bpp <= 8 * passes && PixelPos(PX(s), PY(s), w, bpp) + bpp <= 8 * image
  {
    hide SlotPos, PixelPos, PassStart, PX, PY;
    SlotInside(s, w, h, bpp);
    SlotInImage(s, w, h);
    PixelInside(PX(s), PY(s), w, h, bpp);
  }

  /** Adam7_interlace. */
  method InterlaceImage(out: array<Byte>, inp: array<Byte>, w: nat, h: nat, bpp: nat)
    requires out != inp && PixelDepth(bpp)
    requires RowAt(RowAt(h, w), bpp) <= 8 * inp.Length && PassStart(7, w, h, bpp) <= out.Length
    modifies out
    ensures Interlaced(BitsOf(inp[..]), BitsOf(out[..]), w, h, bpp)
  {
    hide BitsOf, Written, HoldsUpTo, PassW, PassH, PassStart, SlotPos, PixelPos, PX, PY;
    var passw, passh, filter_passstart, padded_passstart, passstart := GetPassValues(w, h, bpp);
    ghost var image := BitsOf(inp[..]);
    NothingHeld(image, BitsOf(out[..]), w, h, bpp);
    for i := 0 to 7
      invariant HoldsUpTo(image, BitsOf(out[..]), Slot(i, 0, 0), w, h, bpp)
    {
      for y := 0 to passh[i]
        invariant HoldsUpTo(image, BitsOf(out[..]), Slot(i, y, 0), w, h, bpp)
      {
        for x := 0 to passw[i]
          invariant HoldsUpTo(image, BitsOf(out[..]), Slot(i, y, x), w, h, bpp)
        {
          var s := Slot(i, y, x);
          SlotBounds(s, w, h, bpp, out.Length, inp.Length);
          ghost var before := BitsOf(out[..]);
          InterlacePixel(out, inp, w, h, bpp, s, passw[i], passstart[i]);
          SlotFilled(image, before, BitsOf(out[..]), s, w, h, bpp);
        }
        NextRowSlot(image, BitsOf(out[..]), i, y, w, h, bpp);
      }
      NextPassSlot(image, BitsOf(out[..]), i, w, h, bpp);
    }
  }

  lemma NothingHeld(image: BitString, passes: BitString, w: nat, h: nat, bpp: nat)
    ensures HoldsUpTo(image, passes, Slot(0, 0, 0), w, h, bpp)
  {
  }

  lemma AllPixelsZero(image: BitString, w: nat, h: nat, bpp: nat)
    requires AllZero(image) && RowAt(RowAt(h, w), bpp) <= |image|
    ensures ZeroFrom(image, Slot(0, 0, 0), w, h, bpp)
  {
    hide PixelPos, RowAt, PX, PY;
    forall s: Slot | ValidSlot(s, w, h) ensures ZeroPixel(image, s, w, bpp) {
      SlotInImage(s, w, h);
      PixelInside(PX(s), PY(s), w, h, bpp);
    }
  }

  /** Adam7_deinterlace, into zeroed memory: the image written is the one whose passes were given. */
  method DeinterlaceImage(out: array<Byte>, inp: array<Byte>, w: nat, h: nat, bpp: nat)
    requires out != inp && PixelDepth(bpp) && AllZero(BitsOf(out[..]))
    requires RowAt(RowAt(h, w), bpp) <= 8 * out.Length && PassStart(7, w, h, bpp) <= inp.Length
    modifies out
    ensures Interlaced(BitsOf(out[..]), BitsOf(inp[..]), w, h, bpp)
  {
    hide BitsOf, Written, HoldsUpTo, ZeroFrom, PassW, PassH, PassStart, SlotPos, PixelPos, PX, PY, AllZero, RowAt;
    var passw, passh, filter_passstart, padded_passstart, passstart := GetPassValues(w, h, bpp);
    ghost var passes := BitsOf(inp[..]);
    NothingHeld(BitsOf(out[..]), passes, w, h, bpp);
    AllPixelsZero(BitsOf(out[..]), w, h, bpp);
    for i := 0 to 7
      invariant HoldsUpTo(BitsOf(out[..]), passes, Slot(i, 0, 0), w, h, bpp)
      invariant ZeroFrom(BitsOf(out[..]), Slot(i, 0, 0), w, h, bpp)
    {
      for y := 0 to passh[i]
        invariant HoldsUpTo(BitsOf(out[..]), passes, Slot(i, y, 0), w, h, bpp)
        invariant ZeroFrom(BitsOf(out[..]), Slot(i, y, 0), w, h, bpp)
      {
        for x := 0 to passw[i]
          invariant HoldsUpTo(BitsOf(out[..]), passes, Slot(i, y, x), w, h, bpp)
          invariant ZeroFrom(BitsOf(out[..]), Slot(i, y, x), w, h, bpp)
        {
          var s := Slot(i, y, x);
          SlotBounds(s, w, h, bpp, inp.Length, out.Length);
          ghost var before := BitsOf(out[..]);
          ThisPixelZero(before, s, w, h, bpp);
          DeinterlacePixel(out, inp, w, h, bpp, s, passw[i], passstart[i]);
          PixelSet(before, BitsOf(out[..]), passes, s, w, h, bpp);
        }
        NextRowSlot(BitsOf(out[..]), passes, i, y, w, h, bpp);
      }
      NextPassSlot(BitsOf(out[..]), passes, i, w, h, bpp);
    }
  }

  lemma ThisPixelZero(image: BitString, s: Slot, w: nat, h: nat, bpp: nat)
    requires ZeroFrom(image, s, w, h, bpp) && ValidSlot(s, w, h)
    ensures
      var p := PixelPos(PX(s), PY(s), w, bpp);
      p + bpp <= |image| && AllZero(image[p..p + bpp])
  {
    assert ZeroPixel(image, s, w, bpp);
  }
}
