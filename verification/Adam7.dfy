/** Adam7 interlacing (lodepng.c:3758-3806, 3982-4041, 5356-5414, 4588-4606). */
module Adam7 {
  import opened Bits
  import opened Memory
  import opened PixelBits
  import opened ImageFilter

  const IX: seq<nat> := [0, 4, 0, 2, 0, 1, 0]
  const IY: seq<nat> := [0, 0, 4, 0, 2, 0, 1]
  const DX: seq<nat> := [8, 8, 4, 4, 2, 2, 1]
  const DY: seq<nat> := [8, 8, 8, 4, 4, 2, 2]

  // ---- Passes and their slots ----

  function RawWidth(i: nat, w: nat): nat
    requires i < 7
  {
    (w + DX[i] - IX[i] - 1) / DX[i]
  }

  function RawHeight(i: nat, h: nat): nat
    requires i < 7
  {
    (h + DY[i] - IY[i] - 1) / DY[i]
  }

  /** The size of a pass; an empty pass is empty in both directions. */
  function PassW(i: nat, w: nat, h: nat): nat
    requires i < 7
  {
    if RawHeight(i, h) == 0 then 0 else RawWidth(i, w)
  }

  function PassH(i: nat, w: nat, h: nat): nat
    requires i < 7
  {
    if RawWidth(i, w) == 0 then 0 else RawHeight(i, h)
  }

  /** A place in a pass. */
  datatype Slot = Slot(pass: nat, y: nat, x: nat)

  predicate ValidSlot(s: Slot, w: nat, h: nat) {
    s.pass < 7 && s.x < PassW(s.pass, w, h) && s.y < PassH(s.pass, w, h)
  }

  /** The pixel that belongs in a slot. */
  function PX(s: Slot): nat
    requires s.pass < 7
  {
    IX[s.pass] + s.x * DX[s.pass]
  }

  function PY(s: Slot): nat
    requires s.pass < 7
  {
    IY[s.pass] + s.y * DY[s.pass]
  }

  /** The order in which the passes are stored. */
  predicate Before(s: Slot, t: Slot) {
    s.pass < t.pass || (s.pass == t.pass && (s.y < t.y || (s.y == t.y && s.x < t.x)))
  }

  /** The pass of a pixel, by its coordinates modulo 8. */
  function PassOf(px: nat, py: nat): (i: nat)
    ensures i < 7
  {
    if py % 2 == 1 then 6
    else if px % 2 == 1 then 5
    else if py % 4 == 2 then 4
    else if px % 4 == 2 then 3
    else if py % 8 == 4 then 2
    else if px % 8 == 4 then 1
    else 0
  }

  function SlotOf(px: nat, py: nat): Slot {
    var i := PassOf(px, py);
    Slot(i, if py < IY[i] then 0 else (py - IY[i]) / DY[i], if px < IX[i] then 0 else (px - IX[i]) / DX[i])
  }

  lemma Widths(i: nat, w: nat, x: nat)
    requires i < 7
    ensures x < RawWidth(i, w) <==> IX[i] + x * DX[i] < w
  {
    if i == 0 || i == 1 {
    } else if i == 2 || i == 3 {
    } else if i == 4 || i == 5 {
    } else {
    }
  }

  lemma Heights(i: nat, h: nat, y: nat)
    requires i < 7
    ensures y < RawHeight(i, h) <==> IY[i] + y * DY[i] < h
  {
    if i == 0 || i == 1 || i == 2 {
    } else if i == 3 || i == 4 {
    } else {
    }
  }

  /** Every slot of a pass holds a pixel of the image. */
  lemma SlotInImage(s: Slot, w: nat, h: nat)
    requires s.pass < 7
    ensures ValidSlot(s, w, h) <==> PX(s) < w && PY(s) < h
  {
    hide RawWidth, RawHeight;
    Widths(s.pass, w, s.x);
    Heights(s.pass, h, s.y);
    Widths(s.pass, w, 0);
    Heights(s.pass, h, 0);
    assert s.x * DX[s.pass] >= 0 && s.y * DY[s.pass] >= 0;
  }

  lemma Mods(p: nat)
    ensures p % 4 == p % 8 % 4 && p % 2 == p % 8 % 2
  {
    var q, r := p / 8, p % 8;
    DivUnique(p, 4, 2 * q + r / 4, r % 4);
    DivUnique(p, 2, 4 * q + r / 2, r % 2);
  }

  lemma Residue(p: nat, o: nat, d: nat)
    requires (d == 8 && (o == 0 || o == 4)) || (d == 4 && (o == 0 || o == 2)) || (d == 2 && (o == 0 || o == 1)) || (d == 1 && o == 0)
    requires p % d == o
    ensures p >= o && (p - o) % d == 0
  {
  }

  lemma Residues(px: nat, py: nat)
    ensures
      var i := PassOf(px, py);
      px >= IX[i] && py >= IY[i] && (px - IX[i]) % DX[i] == 0 && (py - IY[i]) % DY[i] == 0
  {
    var i := PassOf(px, py);
    Mods(px);
    Mods(py);
    Residue(px, IX[i], DX[i]);
    Residue(py, IY[i], DY[i]);
  }

  lemma Exact(p: nat, d: nat)
    requires d > 0 && p % d == 0
    ensures p / d * d == p
  {
  }

  lemma Divided(x: nat, d: nat)
    requires d > 0
    ensures x * d / d == x
  {
    DivUnique(x * d, d, x, 0);
  }

  /** Every pixel of the image has a slot ... */
  lemma PixelHasSlot(px: nat, py: nat)
    ensures PX(SlotOf(px, py)) == px && PY(SlotOf(px, py)) == py
  {
    hide PassOf;
    var i := PassOf(px, py);
    Residues(px, py);
    Exact(px - IX[i], DX[i]);
    Exact(py - IY[i], DY[i]);
  }

  lemma Offset(o: nat, d: nat, x: nat, m: nat)
    requires m > 0 && d % m == 0
    ensures (o + x * d) % m == o % m
  {
    assert d == d / m * m;
    assert x * d == x * (d / m) * m;
    DivUnique(o + x * d, m, o / m + x * (d / m), o % m);
  }

  lemma PassOfSlot(i: nat, y: nat, x: nat)
    requires i < 7
    ensures PassOf(PX(Slot(i, y, x)), PY(Slot(i, y, x))) == i
  {
    hide PassOf;
    if i == 6 { InPass6(x, 1 + y * 2); }
    else if i == 5 { InPass5(x, y); }
    else if i == 4 { InPass4(x, y); }
    else if i == 3 { InPass3(x, y); }
    else if i == 2 { InPass2(x, y); }
    else if i == 1 { InPass1(x, y); }
    else { InPass0(x, y); }
  }

  lemma InPass6(x: nat, py: nat)
    requires py % 2 == 1
    ensures PassOf(x, py) == 6
  {
  }

  lemma InPass5(x: nat, y: nat)
    ensures PassOf(1 + x * 2, y * 2) == 5
  {
    Offset(0, 2, y, 2);
    Offset(1, 2, x, 2);
  }

  lemma InPass4(x: nat, y: nat)
    ensures PassOf(x * 2, 2 + y * 4) == 4
  {
    Offset(2, 4, y, 2);
    Offset(2, 4, y, 4);
    Offset(0, 2, x, 2);
  }

  lemma InPass3(x: nat, y: nat)
    ensures PassOf(2 + x * 4, y * 4) == 3
  {
    Offset(0, 4, y, 2);
    Offset(0, 4, y, 4);
    Offset(2, 4, x, 2);
    Offset(2, 4, x, 4);
  }

  lemma InPass2(x: nat, y: nat)
    ensures PassOf(x * 4, 4 + y * 8) == 2
  {
    Offset(4, 8, y, 2);
    Offset(4, 8, y, 4);
    Offset(4, 8, y, 8);
    Offset(0, 4, x, 2);
    Offset(0, 4, x, 4);
  }

  lemma InPass1(x: nat, y: nat)
    ensures PassOf(4 + x * 8, y * 8) == 1
  {
    Offset(0, 8, y, 2);
    Offset(0, 8, y, 4);
    Offset(0, 8, y, 8);
    Offset(4, 8, x, 2);
    Offset(4, 8, x, 4);
    Offset(4, 8, x, 8);
  }

  lemma InPass0(x: nat, y: nat)
    ensures PassOf(x * 8, y * 8) == 0
  {
    Offset(0, 8, y, 2);
    Offset(0, 8, y, 4);
    Offset(0, 8, y, 8);
    Offset(0, 8, x, 2);
    Offset(0, 8, x, 4);
    Offset(0, 8, x, 8);
  }

  /** ... and only one. */
  lemma SlotIsUnique(s: Slot)
    requires s.pass < 7
    ensures SlotOf(PX(s), PY(s)) == s
  {
    hide PassOf;
    PassOfSlot(s.pass, s.y, s.x);
    Divided(s.x, DX[s.pass]);
    Divided(s.y, DY[s.pass]);
    MulAtLeast(s.x, DX[s.pass]);
    MulAtLeast(s.y, DY[s.pass]);
  }

  // ---- Where passes start ----

  /** Bits of a whole pass without padding between its rows. */
  function PassBitCount(i: nat, w: nat, h: nat, bpp: nat): nat
    requires i < 7
  {
    RowAt(RowAt(PassH(i, w, h), PassW(i, w, h)), bpp)
  }

  function PassLine(i: nat, w: nat, h: nat, bpp: nat): nat
    requires i < 7
  {
    LineBytes(PassW(i, w, h), bpp)
  }

  /** Byte offset of pass i: rows not padded, but every pass starting at a byte. */
  function PassStart(i: nat, w: nat, h: nat, bpp: nat): nat
    requires i <= 7
  {
    if i == 0 then 0 else PassStart(i - 1, w, h, bpp) + (PassBitCount(i - 1, w, h, bpp) + 7) / 8
  }

  /** Byte offset of pass i with padded rows. */
  function PaddedStart(i: nat, w: nat, h: nat, bpp: nat): nat
    requires i <= 7
  {
    if i == 0 then 0 else PaddedStart(i - 1, w, h, bpp) + RowAt(PassH(i - 1, w, h), PassLine(i - 1, w, h, bpp))
  }

  /** Byte offset of pass i with padded rows and a filter type before each. */
  function FilterStart(i: nat, w: nat, h: nat, bpp: nat): nat
    requires i <= 7
  {
    if i == 0 then 0 else FilterStart(i - 1, w, h, bpp) + RowAt(PassH(i - 1, w, h), PassLine(i - 1, w, h, bpp) + 1)
  }

  method GetPassSizes(w: nat, h: nat) returns (passw: seq<nat>, passh: seq<nat>)
    ensures |passw| == |passh| == 7
    ensures forall i :: 0 <= i < 7 ==> passw[i] == PassW(i, w, h) && passh[i] == PassH(i, w, h)
  {
    passw, passh := [], [];
    for i := 0 to 7
      invariant |passw| == |passh| == i
      invariant forall k :: 0 <= k < i ==> passw[k] == PassW(k, w, h) && passh[k] == PassH(k, w, h)
    {
      var pw: nat := RawWidth(i, w);
      var ph: nat := RawHeight(i, h);
      if pw == 0 { ph := 0; }
      if ph == 0 { pw := 0; }
      passw, passh := passw + [pw], passh + [ph];
    }
  }

  /** Adam7_getpassvalues. */
  method GetPassValues(w: nat, h: nat, bpp: nat)
    returns (passw: seq<nat>, passh: seq<nat>, filter_passstart: seq<nat>, padded_passstart: seq<nat>, passstart: seq<nat>)
    ensures |passw| == |passh| == 7 && |filter_passstart| == |padded_passstart| == |passstart| == 8
    ensures forall i :: 0 <= i < 7 ==> passw[i] == PassW(i, w, h) && passh[i] == PassH(i, w, h)
    ensures forall i :: 0 <= i <= 7 ==>
      && filter_passstart[i] == FilterStart(i, w, h, bpp)
      && padded_passstart[i] == PaddedStart(i, w, h, bpp)
      && passstart[i] == PassStart(i, w, h, bpp)
  {
    hide PassW, PassH, PassLine, PassBitCount, RowAt, FilterStart, PaddedStart, PassStart;
    passw, passh := GetPassSizes(w, h);
    filter_passstart, padded_passstart, passstart := [0], [0], [0];
    FirstStarts(w, h, bpp);
    for i := 0 to 7
      invariant |filter_passstart| == |padded_passstart| == |passstart| == i + 1
      invariant forall k :: 0 <= k <= i ==>
        && filter_passstart[k] == FilterStart(k, w, h, bpp)
        && padded_passstart[k] == PaddedStart(k, w, h, bpp)
        && passstart[k] == PassStart(k, w, h, bpp)
    {
      var filtered, padded, packed := PassBytes(passw[i], passh[i], bpp, i, w, h);
      NextStarts(i, w, h, bpp);
      filter_passstart := filter_passstart + [filter_passstart[i] + filtered];
      padded_passstart := padded_passstart + [padded_passstart[i] + padded];
      passstart := passstart + [passstart[i] + packed];
    }
  }

  lemma FirstStarts(w: nat, h: nat, bpp: nat)
    ensures FilterStart(0, w, h, bpp) == PaddedStart(0, w, h, bpp) == PassStart(0, w, h, bpp) == 0
  {
  }

  lemma NextStarts(i: nat, w: nat, h: nat, bpp: nat)
    requires i < 7
    ensures FilterStart(i + 1, w, h, bpp) == FilterStart(i, w, h, bpp) + RowAt(PassH(i, w, h), PassLine(i, w, h, bpp) + 1)
    ensures PaddedStart(i + 1, w, h, bpp) == PaddedStart(i, w, h, bpp) + RowAt(PassH(i, w, h), PassLine(i, w, h, bpp))
    ensures PassStart(i + 1, w, h, bpp) == PassStart(i, w, h, bpp) + (PassBitCount(i, w, h, bpp) + 7) / 8
  {
    hide PassW, PassH, PassLine, PassBitCount, RowAt;
  }

  /** The bytes that one pass takes in each of the three layouts. */
  method PassBytes(pw: nat, ph: nat, bpp: nat, ghost i: nat, ghost w: nat, ghost h: nat)
    returns (filtered: nat, padded: nat, packed: nat)
    requires i < 7 && pw == PassW(i, w, h) && ph == PassH(i, w, h)
    ensures filtered == RowAt(ph, PassLine(i, w, h, bpp) + 1)
    ensures padded == RowAt(ph, PassLine(i, w, h, bpp))
    ensures packed == (PassBitCount(i, w, h, bpp) + 7) / 8
  {
    hide PassW, PassH, PassLine, PassBitCount, RowAt;
    PassFormulas(i, w, h, bpp);
    filtered := if pw != 0 && ph != 0 then ph * (1 + (pw * bpp + 7) / 8) else 0;
    padded := ph * ((pw * bpp + 7) / 8);
    packed := (ph * pw * bpp + 7) / 8;
  }

  lemma PassFormulas(i: nat, w: nat, h: nat, bpp: nat)
    requires i < 7
    ensures
      var pw, ph := PassW(i, w, h), PassH(i, w, h);
      var n := (pw * bpp + 7) / 8;
      && n == PassLine(i, w, h, bpp)
      && (if pw != 0 && ph != 0 then ph * (1 + n) else 0) == RowAt(ph, n + 1)
      && ph * n == RowAt(ph, n)
      && (ph * pw * bpp + 7) / 8 == (PassBitCount(i, w, h, bpp) + 7) / 8
      && (pw == 0 <==> ph == 0)
  {
    hide RawWidth, RawHeight;
  }

  lemma EightLines(pw: nat, ph: nat, bpp: nat)
    ensures (RowAt(RowAt(ph, pw), bpp) + 7) / 8 <= RowAt(ph, LineBytes(pw, bpp))
    ensures bpp % 8 == 0 ==>
      (RowAt(RowAt(ph, pw), bpp) + 7) / 8 == RowAt(ph, LineBytes(pw, bpp)) && 8 * LineBytes(pw, bpp) == RowAt(pw, bpp)
  {
    var n := LineBytes(pw, bpp);
    Reorder(ph, pw, bpp);
    assert pw * bpp <= 8 * n;
    Monotone(ph, pw * bpp, 8 * n);
    Reorder(ph, 8, n);
    if bpp % 8 == 0 {
      Reorder(pw, 8, bpp / 8);
      assert pw * bpp == 8 * (pw * (bpp / 8));
      assert pw * bpp == 8 * n;
    }
  }

  lemma Reorder(a: nat, b: nat, c: nat)
    ensures a * b * c == a * (b * c) == b * (a * c)
  {
  }

  lemma Monotone(a: nat, b: nat, c: nat)
    requires b <= c
    ensures a * b <= a * c
  {
  }

  /** Why the decoder can work in one buffer: each stage's passes start no later than those of the stage before. */
  lemma {:induction false} StartsOrdered(i: nat, w: nat, h: nat, bpp: nat)
    requires i <= 7
    ensures PassStart(i, w, h, bpp) <= PaddedStart(i, w, h, bpp) <= FilterStart(i, w, h, bpp)
    ensures bpp % 8 == 0 ==> PassStart(i, w, h, bpp) == PaddedStart(i, w, h, bpp)
  {
    hide RowAt, LineBytes, PassW, PassH;
    if i > 0 {
      StartsOrdered(i - 1, w, h, bpp);
      EightLines(PassW(i - 1, w, h), PassH(i - 1, w, h), bpp);
      RowAtStep(PassH(i - 1, w, h), PassLine(i - 1, w, h, bpp));
    }
  }

  lemma {:induction false} StartsGrow(i: nat, j: nat, w: nat, h: nat, bpp: nat)
    requires i <= j <= 7
    ensures PassStart(i, w, h, bpp) <= PassStart(j, w, h, bpp)
    ensures PaddedStart(i, w, h, bpp) <= PaddedStart(j, w, h, bpp)
    ensures FilterStart(i, w, h, bpp) <= FilterStart(j, w, h, bpp)
  {
    if i < j { StartsGrow(i, j - 1, w, h, bpp); }
  }

  // ---- The size that the decoder predicts ----

  function RawSizeIdat(w: nat, h: nat, bpp: nat): nat { h * ((w * bpp + 7) / 8) }

  /** The closed formulas of decodeGeneric. */
  function PredictedSize(w: nat, h: nat, bpp: nat): nat {
    RawSizeIdat((w + 7) / 8, (h + 7) / 8, bpp) + (h + 7) / 8
    + (if w > 4 then RawSizeIdat((w + 3) / 8, (h + 7) / 8, bpp) + (h + 7) / 8 else 0)
    + RawSizeIdat((w + 3) / 4, (h + 3) / 8, bpp) + (h + 3) / 8
    + (if w > 2 then RawSizeIdat((w + 1) / 4, (h + 3) / 4, bpp) + (h + 3) / 4 else 0)
    + RawSizeIdat((w + 1) / 2, (h + 1) / 4, bpp) + (h + 1) / 4
    + (if w > 1 then RawSizeIdat((w + 0) / 2, (h + 1) / 2, bpp) + (h + 1) / 2 else 0)
    + RawSizeIdat(w, h / 2, bpp) + h / 2
  }

  /** The prediction is the size that the encoder produces. */
  lemma PredictionIsExact(w: nat, h: nat, bpp: nat)
    requires w > 0 && h > 0
    ensures PredictedSize(w, h, bpp) == FilterStart(7, w, h, bpp)
  {
    hide RawSizeIdat, RowAt, LineBytes, RawWidth, RawHeight, FilterStart;
    RawSizes(w, h);
    PassStep(0, w, h, bpp);
    PassStep(1, w, h, bpp);
    PassStep(2, w, h, bpp);
    PassStep(3, w, h, bpp);
    PassStep(4, w, h, bpp);
    PassStep(5, w, h, bpp);
    PassStep(6, w, h, bpp);
  }

  /** What a pass adds: a pass without columns adds nothing, one without rows nothing either. */
  lemma PassStep(i: nat, w: nat, h: nat, bpp: nat)
    requires i < 7
    ensures FilterStart(0, w, h, bpp) == 0
    ensures
      FilterStart(i + 1, w, h, bpp) - FilterStart(i, w, h, bpp)
      == if RawWidth(i, w) == 0 then 0 else RawSizeIdat(RawWidth(i, w), RawHeight(i, h), bpp) + RawHeight(i, h)
  {
    hide RawSizeIdat, RowAt, LineBytes, RawWidth, RawHeight, FilterStart;
    FilterStep(i, w, h, bpp);
    SizeOfPass(RawWidth(i, w), RawHeight(i, h), bpp);
  }

  lemma SizeOfPass(pw: nat, ph: nat, bpp: nat)
    ensures RawSizeIdat(pw, ph, bpp) + ph == RowAt(ph, LineBytes(pw, bpp) + 1)
    ensures ph == 0 ==> RawSizeIdat(pw, ph, bpp) + ph == 0
  {
  }

  lemma RawSizes(w: nat, h: nat)
    ensures RawWidth(0, w) == (w + 7) / 8 && RawHeight(0, h) == (h + 7) / 8
    ensures RawWidth(1, w) == (w + 3) / 8 && RawHeight(1, h) == (h + 7) / 8
    ensures RawWidth(2, w) == (w + 3) / 4 && RawHeight(2, h) == (h + 3) / 8
    ensures RawWidth(3, w) == (w + 1) / 4 && RawHeight(3, h) == (h + 3) / 4
    ensures RawWidth(4, w) == (w + 1) / 2 && RawHeight(4, h) == (h + 1) / 4
    ensures RawWidth(5, w) == w / 2 && RawHeight(5, h) == (h + 1) / 2
    ensures RawWidth(6, w) == w && RawHeight(6, h) == h / 2
  {
  }

  lemma FilterStep(i: nat, w: nat, h: nat, bpp: nat)
    requires i < 7
    ensures FilterStart(0, w, h, bpp) == 0
    ensures
      FilterStart(i + 1, w, h, bpp) - FilterStart(i, w, h, bpp)
      == (if RawWidth(i, w) == 0 || RawHeight(i, h) == 0 then 0
          else RowAt(RawHeight(i, h), LineBytes(RawWidth(i, w), bpp) + 1))
  {
    hide RawWidth, RawHeight, LineBytes;
    NextRow(0, LineBytes(0, bpp) + 1);
    NextRow(0, LineBytes(RawWidth(i, w), bpp) + 1);
  }
}
