/** The inverse transform of sparse blocks, over unbounded integers (compositor/jpgd.cpp:55-311, 1495-1506). */
module JpegIdct {
  import opened Bits
  import opened JpegZigzag
  import opened Memory

  // ---- One dimension ----

  /** The factors of the one-dimensional transform, times 2^13: what coefficient k adds to each of the eight outputs. */
  const BASIS: seq<seq<int>> := [
    [8192, 8192, 8192, 8192, 8192, 8192, 8192, 8192],
    [11363, 9633, 6437, 2260, -2260, -6437, -9633, -11363],
    [10703, 4433, -4433, -10703, -10703, -4433, 4433, 10703],
    [9633, -2259, -11362, -6436, 6436, 11362, 2259, -9633],
    [8192, -8192, -8192, 8192, 8192, -8192, -8192, 8192],
    [6437, -11362, 2261, 9633, -9633, -2261, 11362, -6437],
    [4433, -10704, 10704, -4433, -4433, 10704, -10704, 4433],
    [2260, -6436, 9633, -11363, 11363, -9633, 6436, -2260]
  ]

  /** The reference: eight outputs as sums over the eight coefficients. */
  function Weighted(x: seq<int>, i: nat): int
    requires |x| == 8 && i < 8
  {
    x[0] * BASIS[0][i] + x[1] * BASIS[1][i] + x[2] * BASIS[2][i] + x[3] * BASIS[3][i] +
    x[4] * BASIS[4][i] + x[5] * BASIS[5][i] + x[6] * BASIS[6][i] + x[7] * BASIS[7][i]
  }

  /** The straight-line code of Row and Col, up to the rounding: 11 multiplications. */
  function Butterfly(x: seq<int>): (r: seq<int>)
    requires |x| == 8
    ensures |r| == 8
  {
    var z1 := (x[2] + x[6]) * 4433;
    var tmp2, tmp3 := z1 + x[6] * -15137, z1 + x[2] * 6270;
    var tmp0, tmp1 := (x[0] + x[4]) * 8192, (x[0] - x[4]) * 8192;
    var tmp10, tmp13, tmp11, tmp12 := tmp0 + tmp3, tmp0 - tmp3, tmp1 + tmp2, tmp1 - tmp2;
    var bz1, bz2, bz3, bz4 := x[7] + x[1], x[5] + x[3], x[7] + x[3], x[5] + x[1];
    var bz5 := (bz3 + bz4) * 9633;
    var az1, az2, az3, az4 := bz1 * -7373, bz2 * -20995, bz3 * -16069 + bz5, bz4 * -3196 + bz5;
    var btmp0, btmp1 := x[7] * 2446 + az1 + az3, x[5] * 16819 + az2 + az4;
    var btmp2, btmp3 := x[3] * 25172 + az2 + az3, x[1] * 12299 + az1 + az4;
    [tmp10 + btmp3, tmp11 + btmp2, tmp12 + btmp1, tmp13 + btmp0, tmp13 - btmp0, tmp12 - btmp1, tmp11 - btmp2, tmp10 - btmp3]
  }

  /** The shared products of the straight-line code give the sums of the reference. */
  lemma ButterflyIsWeighted(x: seq<int>, i: nat)
    requires |x| == 8 && i < 8
    ensures Butterfly(x)[i] == Weighted(x, i)
  {
    if i < 4 { FirstHalf(x, i); } else { SecondHalf(x, i); }
  }

  lemma FirstHalf(x: seq<int>, i: nat)
    requires |x| == 8 && i < 4
    ensures Butterfly(x)[i] == Weighted(x, i)
  {
  }

  lemma SecondHalf(x: seq<int>, i: nat)
    requires |x| == 8 && 4 <= i < 8
    ensures Butterfly(x)[i] == Weighted(x, i)
  {
  }

  /** DESCALE: division by 2^11, rounded; shifting right rounds down. */
  function DescaleRow(v: int): int { (v + 1024) / 2048 }

  /** DESCALE_ZEROSHIFT: division by 2^18, rounded, around 128; then CLAMP. */
  function DescaleCol(v: int): Byte { Clamp((v + 128 * 0x4_0000 + 0x2_0000) / 0x4_0000) }

  function Clamp(i: int): Byte { if i < 0 then 0 else if i > 255 then 255 else i }

  function RowOut(x: seq<int>): (r: seq<int>)
    requires |x| == 8
    ensures |r| == 8 && forall i :: 0 <= i < 8 ==> r[i] == DescaleRow(Weighted(x, i))
  {
    var b := Butterfly(x);
    assert forall i :: 0 <= i < 8 ==> b[i] == Weighted(x, i) by {
      forall i: nat | i < 8 ensures b[i] == Weighted(x, i) { ButterflyIsWeighted(x, i); }
    }
    [DescaleRow(b[0]), DescaleRow(b[1]), DescaleRow(b[2]), DescaleRow(b[3]),
     DescaleRow(b[4]), DescaleRow(b[5]), DescaleRow(b[6]), DescaleRow(b[7])]
  }

  // ---- The tables ----

  /** s_idct_row_table: how many coefficients a row of the block can have, by the zigzag length of the block. */
  const ROW_TABLE: seq<seq<seq<nat>>> := [
    [[1, 0, 0, 0, 0, 0, 0, 0], [2, 0, 0, 0, 0, 0, 0, 0], [2, 1, 0, 0, 0, 0, 0, 0], [2, 1, 1, 0, 0, 0, 0, 0],
     [2, 2, 1, 0, 0, 0, 0, 0], [3, 2, 1, 0, 0, 0, 0, 0], [4, 2, 1, 0, 0, 0, 0, 0], [4, 3, 1, 0, 0, 0, 0, 0]],
    [[4, 3, 2, 0, 0, 0, 0, 0], [4, 3, 2, 1, 0, 0, 0, 0], [4, 3, 2, 1, 1, 0, 0, 0], [4, 3, 2, 2, 1, 0, 0, 0],
     [4, 3, 3, 2, 1, 0, 0, 0], [4, 4, 3, 2, 1, 0, 0, 0], [5, 4, 3, 2, 1, 0, 0, 0], [6, 4, 3, 2, 1, 0, 0, 0]],
    [[6, 5, 3, 2, 1, 0, 0, 0], [6, 5, 4, 2, 1, 0, 0, 0], [6, 5, 4, 3, 1, 0, 0, 0], [6, 5, 4, 3, 2, 0, 0, 0],
     [6, 5, 4, 3, 2, 1, 0, 0], [6, 5, 4, 3, 2, 1, 1, 0], [6, 5, 4, 3, 2, 2, 1, 0], [6, 5, 4, 3, 3, 2, 1, 0]],
    [[6, 5, 4, 4, 3, 2, 1, 0], [6, 5, 5, 4, 3, 2, 1, 0], [6, 6, 5, 4, 3, 2, 1, 0], [7, 6, 5, 4, 3, 2, 1, 0],
     [8, 6, 5, 4, 3, 2, 1, 0], [8, 7, 5, 4, 3, 2, 1, 0], [8, 7, 6, 4, 3, 2, 1, 0], [8, 7, 6, 5, 3, 2, 1, 0]],
    [[8, 7, 6, 5, 4, 2, 1, 0], [8, 7, 6, 5, 4, 3, 1, 0], [8, 7, 6, 5, 4, 3, 2, 0], [8, 7, 6, 5, 4, 3, 2, 1],
     [8, 7, 6, 5, 4, 3, 2, 2], [8, 7, 6, 5, 4, 3, 3, 2], [8, 7, 6, 5, 4, 4, 3, 2], [8, 7, 6, 5, 5, 4, 3, 2]],
    [[8, 7, 6, 6, 5, 4, 3, 2], [8, 7, 7, 6, 5, 4, 3, 2], [8, 8, 7, 6, 5, 4, 3, 2], [8, 8, 8, 6, 5, 4, 3, 2],
     [8, 8, 8, 7, 5, 4, 3, 2], [8, 8, 8, 7, 6, 4, 3, 2], [8, 8, 8, 7, 6, 5, 3, 2], [8, 8, 8, 7, 6, 5, 4, 2]],
    [[8, 8, 8, 7, 6, 5, 4, 3], [8, 8, 8, 7, 6, 5, 4, 4], [8, 8, 8, 7, 6, 5, 5, 4], [8, 8, 8, 7, 6, 6, 5, 4],
     [8, 8, 8, 7, 7, 6, 5, 4], [8, 8, 8, 8, 7, 6, 5, 4], [8, 8, 8, 8, 8, 6, 5, 4], [8, 8, 8, 8, 8, 7, 5, 4]],
    [[8, 8, 8, 8, 8, 7, 6, 4], [8, 8, 8, 8, 8, 7, 6, 5], [8, 8, 8, 8, 8, 7, 6, 6], [8, 8, 8, 8, 8, 7, 7, 6],
     [8, 8, 8, 8, 8, 8, 7, 6], [8, 8, 8, 8, 8, 8, 8, 6], [8, 8, 8, 8, 8, 8, 8, 7], [8, 8, 8, 8, 8, 8, 8, 8]]
  ]

  /** s_idct_col_table: how many rows can have coefficients. */
  const COL_TABLE: seq<seq<nat>> := [
    [1, 1, 2, 3, 3, 3, 3, 3],
    [3, 4, 5, 5, 5, 5, 5, 5],
    [5, 5, 5, 5, 6, 7, 7, 7],
    [7, 7, 7, 7, 7, 7, 7, 7],
    [7, 7, 7, 8, 8, 8, 8, 8],
    [8, 8, 8, 8, 8, 8, 8, 8],
    [8, 8, 8, 8, 8, 8, 8, 8],
    [8, 8, 8, 8, 8, 8, 8, 8]
  ]

  function RowCount(m: nat, r: nat): nat
    requires 1 <= m <= 64 && r < 8
  {
    ROW_TABLE[(m - 1) / 8][(m - 1) % 8][r]
  }

  function ColCount(m: nat): nat
    requires 1 <= m <= 64
  {
    COL_TABLE[(m - 1) / 8][(m - 1) % 8]
  }

  /** The entry for row r when coefficient m joins the block. */
  function Widened(m: nat, r: nat): nat
    requires 1 <= m < 64 && r < 8
  {
    if r == Zag(m) / 8 && RowCount(m, r) < Zag(m) % 8 + 1 then Zag(m) % 8 + 1 else RowCount(m, r)
  }

  lemma RowStep0(m: nat, r: nat)
    requires 1 <= m <= 8 && r < 8
    ensures RowCount(m + 1, r) == Widened(m, r)
  {
  }

  lemma RowStep1(m: nat, r: nat)
    requires 9 <= m <= 16 && r < 8
    ensures RowCount(m + 1, r) == Widened(m, r)
  {
  }

  lemma RowStep2(m: nat, r: nat)
    requires 17 <= m <= 24 && r < 8
    ensures RowCount(m + 1, r) == Widened(m, r)
  {
  }

  lemma RowStep3(m: nat, r: nat)
    requires 25 <= m <= 32 && r < 8
    ensures RowCount(m + 1, r) == Widened(m, r)
  {
  }

  lemma RowStep4(m: nat, r: nat)
    requires 33 <= m <= 40 && r < 8
    ensures RowCount(m + 1, r) == Widened(m, r)
  {
  }

  lemma RowStep5(m: nat, r: nat)
    requires 41 <= m <= 48 && r < 8
    ensures RowCount(m + 1, r) == Widened(m, r)
  {
  }

  lemma RowStep6(m: nat, r: nat)
    requires 49 <= m <= 56 && r < 8
    ensures RowCount(m + 1, r) == Widened(m, r)
  {
  }

  lemma RowStep7(m: nat, r: nat)
    requires 57 <= m <= 63 && r < 8
    ensures RowCount(m + 1, r) == Widened(m, r)
  {
  }

  /** Each line of the table is the line before with one more coefficient in zigzag order. */
  lemma RowStep(m: nat, r: nat)
    requires 1 <= m < 64 && r < 8
    ensures RowCount(m + 1, r) == Widened(m, r)
  {
    hide RowCount, Widened;
    if m <= 8 { RowStep0(m, r); } else if m <= 16 { RowStep1(m, r); } else if m <= 24 { RowStep2(m, r); }
    else if m <= 32 { RowStep3(m, r); } else if m <= 40 { RowStep4(m, r); } else if m <= 48 { RowStep5(m, r); }
    else if m <= 56 { RowStep6(m, r); } else { RowStep7(m, r); }
  }

  lemma ColMatch0(m: nat, r: nat)
    requires 1 <= m <= 8 && r < 8
    ensures (r < ColCount(m) <==> RowCount(m, r) >= 1) && RowCount(m, r) <= 8
  {
  }

  lemma ColMatch1(m: nat, r: nat)
    requires 9 <= m <= 16 && r < 8
    ensures (r < ColCount(m) <==> RowCount(m, r) >= 1) && RowCount(m, r) <= 8
  {
  }

  lemma ColMatch2(m: nat, r: nat)
    requires 17 <= m <= 24 && r < 8
    ensures (r < ColCount(m) <==> RowCount(m, r) >= 1) && RowCount(m, r) <= 8
  {
  }

  lemma ColMatch3(m: nat, r: nat)
    requires 25 <= m <= 32 && r < 8
    ensures (r < ColCount(m) <==> RowCount(m, r) >= 1) && RowCount(m, r) <= 8
  {
  }

  lemma ColMatch4(m: nat, r: nat)
    requires 33 <= m <= 40 && r < 8
    ensures (r < ColCount(m) <==> RowCount(m, r) >= 1) && RowCount(m, r) <= 8
  {
  }

  lemma ColMatch5(m: nat, r: nat)
    requires 41 <= m <= 48 && r < 8
    ensures (r < ColCount(m) <==> RowCount(m, r) >= 1) && RowCount(m, r) <= 8
  {
  }

  lemma ColMatch6(m: nat, r: nat)
    requires 49 <= m <= 56 && r < 8
    ensures (r < ColCount(m) <==> RowCount(m, r) >= 1) && RowCount(m, r) <= 8
  {
  }

  lemma ColMatch7(m: nat, r: nat)
    requires 57 <= m <= 64 && r < 8
    ensures (r < ColCount(m) <==> RowCount(m, r) >= 1) && RowCount(m, r) <= 8
  {
  }

  /** The rows that are written are the rows that are read. */
  lemma ColMatch(m: nat, r: nat)
    requires 1 <= m <= 64 && r < 8
    ensures (r < ColCount(m) <==> RowCount(m, r) >= 1) && RowCount(m, r) <= 8
  {
    hide RowCount, ColCount;
    if m <= 8 { ColMatch0(m, r); } else if m <= 16 { ColMatch1(m, r); } else if m <= 24 { ColMatch2(m, r); }
    else if m <= 32 { ColMatch3(m, r); } else if m <= 40 { ColMatch4(m, r); } else if m <= 48 { ColMatch5(m, r); }
    else if m <= 56 { ColMatch6(m, r); } else { ColMatch7(m, r); }
  }

  // ---- Sparse blocks ----

  /** A block with nothing from place m of the zigzag order on. */
  ghost predicate Sparse(block: seq<int>, m: nat) {
    |block| == 64 && forall i: nat {:trigger Zag(i)} :: m <= i < 64 ==> Zag(i) < 64 && block[Zag(i)] == 0
  }

  lemma {:induction false} Covered(m: nat, i: nat)
    requires i < m <= 64
    ensures Zag(i) < 64 && Zag(i) % 8 < RowCount(m, Zag(i) / 8)
  {
    hide Zag, RowCount;
    ZagPlace(i);
    if m == 1 {
      FirstCovered();
    } else if i == m - 1 {
      RowStep(m - 1, Zag(i) / 8);
    } else {
      Covered(m - 1, i);
      RowStep(m - 1, Zag(i) / 8);
    }
  }

  lemma FirstCovered()
    ensures Zag(0) == 0 && RowCount(1, 0) == 1
  {
  }

  function RowOf(block: seq<int>, r: nat): (x: seq<int>)
    requires |block| == 64 && r < 8
    ensures |x| == 8
  {
    block[8 * r..8 * r + 8]
  }

  /** What lies beyond the entry of the table is zero. */
  lemma BeyondIsZero(block: seq<int>, m: nat, r: nat, c: nat)
    requires Sparse(block, m) && 1 <= m <= 64 && r < 8 && RowCount(m, r) <= c < 8
    ensures RowOf(block, r)[c] == 0
  {
    hide Zag, RowCount, Place;
    var e := 8 * r + c;
    DivUnique(e, 8, r, c);
    PlaceZag(e);
    if Place(e) < m { Covered(m, Place(e)); }
  }

  // ---- Two dimensions ----

  /** The full transform: all rows, then all columns. */
  function Column(block: seq<int>, c: nat): (x: seq<int>)
    requires |block| == 64 && c < 8
    ensures |x| == 8
  {
    seq(8, r requires 0 <= r < 8 => RowOut(RowOf(block, r))[c])
  }

  function Sample(block: seq<int>, r: nat, c: nat): Byte
    requires |block| == 64 && r < 8 && c < 8
  {
    DescaleCol(Weighted(Column(block, c), r))
  }

  /** The samples are those of the full transform. */
  ghost predicate Transformed(block: seq<int>, samples: seq<Byte>) {
    |block| == 64 == |samples| && forall r: nat, c: nat :: r < 8 && c < 8 ==> samples[8 * r + c] == Sample(block, r, c)
  }

  /** A row or column of zeros but for the first entry. */
  lemma OnlyFirst(x: seq<int>, i: nat)
    requires |x| == 8 && i < 8 && forall k :: 1 <= k < 8 ==> x[k] == 0
    ensures Weighted(x, i) == 8192 * x[0]
  {
  }

  lemma FlatRow(x: seq<int>)
    requires |x| == 8 && forall k :: 1 <= k < 8 ==> x[k] == 0
    ensures forall i :: 0 <= i < 8 ==> RowOut(x)[i] == 4 * x[0]
  {
    hide Weighted, RowOut;
    forall i: nat | i < 8 ensures RowOut(x)[i] == 4 * x[0] {
      OnlyFirst(x, i);
      assert RowOut(x)[i] == DescaleRow(Weighted(x, i));
      DivUnique(8192 * x[0] + 1024, 2048, 4 * x[0], 1024);
    }
  }

  lemma FlatColumn(x: seq<int>, i: nat)
    requires |x| == 8 && i < 8 && forall k :: 1 <= k < 8 ==> x[k] == 0
    ensures DescaleCol(Weighted(x, i)) == Clamp((x[0] + 128 * 32 + 16) / 32)
  {
    hide Weighted;
    OnlyFirst(x, i);
    var q := (x[0] + 128 * 32 + 16) / 32;
    DivUnique(8192 * x[0] + 128 * 0x4_0000 + 0x2_0000, 0x4_0000, q, 8192 * ((x[0] + 128 * 32 + 16) % 32));
  }

  /** The shortcut for blocks of one coefficient is the full transform. */
  lemma FlatBlock(block: seq<int>, r: nat, c: nat)
    requires Sparse(block, 1) && r < 8 && c < 8
    ensures Sample(block, r, c) == Clamp((block[0] + 4) / 8 + 128)
  {
    hide Weighted, Zag, RowCount, RowOut;
    forall k: nat | k < 8 ensures RowOut(RowOf(block, k))[c] == if k == 0 then 4 * block[0] else 0 { FirstOnly(block, k); }
    FlatColumn(Column(block, c), r);
    var q := (block[0] + 4) / 8;
    DivUnique(4 * block[0] + 128 * 32 + 16, 32, q + 128, 4 * ((block[0] + 4) % 8));
  }

  lemma FirstOnly(block: seq<int>, k: nat)
    requires Sparse(block, 1) && k < 8
    ensures |block| == 64 && forall c :: 0 <= c < 8 ==> RowOut(RowOf(block, k))[c] == if k == 0 then 4 * block[0] else 0
  {
    hide Weighted, Zag, RowCount, RowOut;
    forall c: nat | c < 8 && (k > 0 || c > 0) ensures RowOf(block, k)[c] == 0 {
      FirstLine(k);
      BeyondIsZero(block, 1, k, c);
    }
    FlatRow(RowOf(block, k));
  }

  lemma FirstLine(r: nat)
    requires r < 8
    ensures RowCount(1, r) == if r == 0 then 1 else 0
  {
  }

  // ---- Row and Col ----

  /** ACCESS_COL and ACCESS_ROW: entries from n on are taken as zero. */
  function Accessed(x: seq<int>, n: nat): (r: seq<int>)
    requires |x| == 8
    ensures |r| == 8 && forall i :: 0 <= i < 8 ==> r[i] == if i < n then x[i] else 0
  {
    seq(8, i requires 0 <= i < 8 => if i < n then x[i] else 0)
  }

  /** Only row r of the working memory changes. */
  ghost predicate OtherRows(before: seq<int>, now: seq<int>, r: nat) {
    |before| == 64 == |now| && r < 8 && forall k: nat :: k < 8 && k != r ==> RowOf(now, k) == RowOf(before, k)
  }

  /** The eight stores of a row. */
  method StoreRow(pTemp: array<int>, r: nat, v: seq<int>)
    requires pTemp.Length == 64 && r < 8 && |v| == 8
    modifies pTemp
    ensures RowOf(pTemp[..], r) == v && OtherRows(old(pTemp[..]), pTemp[..], r)
  {
    for i := 0 to 8
      invariant pTemp[8 * r..8 * r + i] == v[..i]
      invariant pTemp[..8 * r] == old(pTemp[..8 * r]) && pTemp[8 * r + 8..] == old(pTemp[8 * r + 8..])
    {
      pTemp[8 * r + i] := v[i];
    }
    SameRows(old(pTemp[..]), pTemp[..], r);
  }

  lemma SameRows(before: seq<int>, now: seq<int>, r: nat)
    requires |before| == 64 == |now| && r < 8 && now[..8 * r] == before[..8 * r] && now[8 * r + 8..] == before[8 * r + 8..]
    ensures OtherRows(before, now, r)
  {
    forall k: nat | k < 8 && k != r ensures RowOf(now, k) == RowOf(before, k) {
      if k < r {
        RowInFront(now, r, k);
        RowInFront(before, r, k);
      } else {
        RowBehind(now, r, k);
        RowBehind(before, r, k);
      }
    }
  }

  lemma RowInFront(s: seq<int>, r: nat, k: nat)
    requires |s| == 64 && k < r < 8
    ensures RowOf(s, k) == s[..8 * r][8 * k..8 * k + 8]
  {
    assert s[..8 * r] == s[0..0 + 8 * r];
    SliceOfSlice(s, 0, 8 * r, 8 * k, 8);
  }

  lemma RowBehind(s: seq<int>, r: nat, k: nat)
    requires |s| == 64 && r < k < 8
    ensures RowOf(s, k) == s[8 * r + 8..][8 * k - 8 * r - 8..8 * k - 8 * r]
  {
    assert s[8 * r + 8..] == s[8 * r + 8..8 * r + 8 + (56 - 8 * r)];
    SliceOfSlice(s, 8 * r + 8, 56 - 8 * r, 8 * k - 8 * r - 8, 8);
  }

  /** Row<n>: with nothing from entry n on, the full row transform; with no entries at all nothing is written. */
  method RowIdct(n: nat, pTemp: array<int>, pSrc: seq<int>, r: nat)
    requires pTemp.Length == 64 && |pSrc| == 8 && r < 8
    modifies pTemp
    ensures n >= 1 && (forall k :: n <= k < 8 ==> pSrc[k] == 0) ==> RowOf(pTemp[..], r) == RowOut(pSrc)
    ensures OtherRows(old(pTemp[..]), pTemp[..], r)
  {
    hide Butterfly, Weighted, OtherRows, RowOf, DescaleRow;
    if n == 1 {
      var dcval := pSrc[0] * 4;
      StoreRow(pTemp, r, [dcval, dcval, dcval, dcval, dcval, dcval, dcval, dcval]);
      if forall k :: 1 <= k < 8 ==> pSrc[k] == 0 { FlatRow(pSrc); }
    } else if n > 1 {
      var x := Accessed(pSrc, n);
      var b := Butterfly(x);
      StoreRow(pTemp, r, [DescaleRow(b[0]), DescaleRow(b[1]), DescaleRow(b[2]), DescaleRow(b[3]),
                          DescaleRow(b[4]), DescaleRow(b[5]), DescaleRow(b[6]), DescaleRow(b[7])]);
      assert (forall k :: n <= k < 8 ==> pSrc[k] == 0) ==> x == pSrc;
    } else {
      SameRows(pTemp[..], pTemp[..], r);
    }
  }

  /** Column c of the working memory, its first n entries. */
  function ColumnOf(temp: seq<int>, c: nat, n: nat): (x: seq<int>)
    requires |temp| == 64 && c < 8 && n <= 8
    ensures |x| == 8
  {
    seq(8, r requires 0 <= r < 8 => if r < n then temp[8 * r + c] else 0)
  }

  function SampleAt(dst: seq<Byte>, base: nat, r: nat, c: nat): Byte
    requires base + 64 <= |dst| && r < 8 && c < 8
  {
    dst[base + 8 * r + c]
  }

  /** Column c of the samples. */
  ghost predicate ColumnDone(dst: seq<Byte>, base: nat, c: nat, x: seq<int>) {
    base + 64 <= |dst| && c < 8 && |x| == 8 && forall i: nat :: i < 8 ==> SampleAt(dst, base, i, c) == DescaleCol(Weighted(x, i))
  }

  /** Of the 64 samples only those of column c change, and nothing outside of them. */
  ghost predicate OtherColumns(before: seq<Byte>, now: seq<Byte>, base: nat, c: nat) {
    && |before| == |now| && base + 64 <= |now| && c < 8
    && now[..base] == before[..base] && now[base + 64..] == before[base + 64..]
    && forall k: nat, i: nat :: k < 8 && i < 8 && k != c ==> SampleAt(now, base, i, k) == SampleAt(before, base, i, k)
  }

  /** The eight stores of a column. */
  method StoreColumn(pDst_ptr: array<Byte>, base: nat, c: nat, v: seq<Byte>)
    requires base + 64 <= pDst_ptr.Length && c < 8 && |v| == 8
    modifies pDst_ptr
    ensures forall i: nat :: i < 8 ==> SampleAt(pDst_ptr[..], base, i, c) == v[i]
    ensures OtherColumns(old(pDst_ptr[..]), pDst_ptr[..], base, c)
  {
    for r := 0 to 8
      invariant forall i: nat :: i < r ==> SampleAt(pDst_ptr[..], base, i, c) == v[i]
      invariant OtherColumns(old(pDst_ptr[..]), pDst_ptr[..], base, c)
    {
      pDst_ptr[base + 8 * r + c] := v[r];
    }
  }

  /** Col<n>: only the first n rows of the working memory are read. */
  method ColIdct(n: nat, pDst_ptr: array<Byte>, base: nat, pTemp: array<int>, c: nat)
    requires 1 <= n <= 8 && pTemp.Length == 64 && base + 64 <= pDst_ptr.Length && c < 8
    modifies pDst_ptr
    ensures ColumnDone(pDst_ptr[..], base, c, ColumnOf(pTemp[..], c, n))
    ensures OtherColumns(old(pDst_ptr[..]), pDst_ptr[..], base, c)
  {
    hide Butterfly, Weighted, DescaleCol, OtherColumns, SampleAt;
    var x := ColumnOf(pTemp[..], c, n);
    if n == 1 {
      var dcval := Clamp((pTemp[c] + 128 * 32 + 16) / 32);
      StoreColumn(pDst_ptr, base, c, [dcval, dcval, dcval, dcval, dcval, dcval, dcval, dcval]);
      forall i: nat | i < 8 ensures DescaleCol(Weighted(x, i)) == dcval { FlatColumn(x, i); }
    } else {
      var b := Butterfly(x);
      forall i: nat | i < 8 ensures b[i] == Weighted(x, i) { ButterflyIsWeighted(x, i); }
      StoreColumn(pDst_ptr, base, c, [DescaleCol(b[0]), DescaleCol(b[1]), DescaleCol(b[2]), DescaleCol(b[3]),
                                      DescaleCol(b[4]), DescaleCol(b[5]), DescaleCol(b[6]), DescaleCol(b[7])]);
    }
  }

  /** The rows before k that have coefficients are done. */
  ghost predicate RowsDone(temp: seq<int>, block: seq<int>, m: nat, k: nat) {
    && |temp| == 64 == |block| && 1 <= m <= 64
    && forall r: nat {:trigger RowOf(temp, r)} :: r < k && r < 8 && RowCount(m, r) >= 1 ==> RowOf(temp, r) == RowOut(RowOf(block, r))
  }

  /** Of the working memory the rows that are read hold the row transforms; the others would hold zeros. */
  lemma ColumnIsFull(temp: seq<int>, block: seq<int>, m: nat, c: nat)
    requires RowsDone(temp, block, m, 8) && Sparse(block, m) && c < 8
    ensures ColCount(m) <= 8 && ColumnOf(temp, c, ColCount(m)) == Column(block, c)
  {
    hide Zag, RowCount, ColCount, RowOut, Weighted;
    ColMatch(m, 7);
    ColBound(m);
    forall r: nat | r < 8 ensures (if r < ColCount(m) then temp[8 * r + c] else 0) == RowOut(RowOf(block, r))[c] {
      ColMatch(m, r);
      if r < ColCount(m) {
        assert RowOf(temp, r)[c] == temp[8 * r + c];
      } else {
        forall k: nat | k < 8 ensures RowOf(block, r)[k] == 0 { BeyondIsZero(block, m, r, k); }
        FlatRow(RowOf(block, r));
      }
    }
  }

  lemma ColBound(m: nat)
    requires 1 <= m <= 64
    ensures 1 <= ColCount(m) <= 8
  {
  }

  /** The columns before k are done. */
  ghost predicate ColumnsDone(dst: seq<Byte>, base: nat, block: seq<int>, k: nat) {
    && |block| == 64 && base + 64 <= |dst|
    && forall r: nat, c: nat :: r < 8 && c < k && c < 8 ==> SampleAt(dst, base, r, c) == Sample(block, r, c)
  }

  /** The samples of one block; nothing else in the buffer changes. */
  ghost predicate BlockDone(before: seq<Byte>, now: seq<Byte>, base: nat, block: seq<int>) {
    && |before| == |now| && base + 64 <= |now| && Transformed(block, now[base..base + 64])
    && now[..base] == before[..base] && now[base + 64..] == before[base + 64..]
  }

  /** One more row. */
  lemma RowStepDone(before: seq<int>, now: seq<int>, block: seq<int>, m: nat, r: nat)
    requires RowsDone(before, block, m, r) && r < 8 && OtherRows(before, now, r)
    requires RowCount(m, r) >= 1 ==> RowOf(now, r) == RowOut(RowOf(block, r))
    ensures RowsDone(now, block, m, r + 1)
  {
    hide RowCount, RowOut, RowOf;
  }

  lemma ColumnStepDone(before: seq<Byte>, now: seq<Byte>, base: nat, block: seq<int>, c: nat)
    requires ColumnsDone(before, base, block, c) && c < 8 && OtherColumns(before, now, base, c)
    requires ColumnDone(now, base, c, Column(block, c))
    ensures ColumnsDone(now, base, block, c + 1)
  {
    hide Column, Weighted, DescaleCol;
    forall r: nat, k: nat | r < 8 && k < c + 1 ensures SampleAt(now, base, r, k) == Sample(block, r, k) {
      if k < c { assert SampleAt(now, base, r, k) == SampleAt(before, base, r, k); }
    }
  }

  lemma ColumnsAre(before: seq<Byte>, now: seq<Byte>, base: nat, block: seq<int>)
    requires ColumnsDone(now, base, block, 8) && |before| == |now|
    requires now[..base] == before[..base] && now[base + 64..] == before[base + 64..]
    ensures BlockDone(before, now, base, block)
  {
    hide Sample;
    var samples := now[base..base + 64];
    forall r: nat, c: nat | r < 8 && c < 8 ensures samples[8 * r + c] == Sample(block, r, c) {
      assert samples[8 * r + c] == SampleAt(now, base, r, c);
    }
  }

  /**
   * idct: with the tables for the zigzag length of the block, and a working memory whose content is arbitrary at first,
   * the samples are those of the full transform.
   */
  method Idct(block: seq<int>, pDst_ptr: array<Byte>, base: nat, block_max_zag: nat)
    requires 1 <= block_max_zag <= 64 && Sparse(block, block_max_zag) && base + 64 <= pDst_ptr.Length
    modifies pDst_ptr
    ensures BlockDone(old(pDst_ptr[..]), pDst_ptr[..], base, block)
  {
    hide Sparse, RowsDone, ColumnsDone, BlockDone, OtherRows, Column, Sample, RowCount, ColCount, RowOut, RowOf, Clamp, ColumnDone;
    ghost var start := pDst_ptr[..];
    ghost var m := block_max_zag;
    BlockLength(block, m);
    if block_max_zag <= 1 {
      var k := Clamp((block[0] + 4) / 8 + 128);
      for i := 0 to 8
        invariant |start| == pDst_ptr.Length && pDst_ptr[..base] == start[..base] && pDst_ptr[base + 64..] == start[base + 64..]
        invariant forall j :: base <= j < base + 8 * i ==> pDst_ptr[j] == k
      {
        var d := base + 8 * i;
        pDst_ptr[d], pDst_ptr[d + 1], pDst_ptr[d + 2], pDst_ptr[d + 3] := k, k, k, k;
        pDst_ptr[d + 4], pDst_ptr[d + 5], pDst_ptr[d + 6], pDst_ptr[d + 7] := k, k, k, k;
      }
      FlatDone(pDst_ptr[..], base, block, k);
      ColumnsAre(start, pDst_ptr[..], base, block);
      return;
    }
    var temp := new int[64];
    NoRows(temp[..], block, m);
    for i := 0 to 8
      invariant RowsDone(temp[..], block, m, i) && pDst_ptr[..] == start
    {
      ghost var before := temp[..];
      forall k: nat | RowCount(m, i) <= k < 8 ensures RowOf(block, i)[k] == 0 { BeyondIsZero(block, m, i, k); }
      RowIdct(RowCount(block_max_zag, i), temp, RowOf(block, i), i);
      RowStepDone(before, temp[..], block, m, i);
    }
    ColBound(m);
    var nonzero_rows := ColCount(block_max_zag);
    NoColumns(pDst_ptr[..], base, block);
    for i := 0 to 8
      invariant RowsDone(temp[..], block, m, 8) && ColumnsDone(pDst_ptr[..], base, block, i)
      invariant |start| == pDst_ptr.Length && pDst_ptr[..base] == start[..base] && pDst_ptr[base + 64..] == start[base + 64..]
    {
      ghost var before := pDst_ptr[..];
      ColIdct(nonzero_rows, pDst_ptr, base, temp, i);
      ColumnIsFull(temp[..], block, m, i);
      ColumnStepDone(before, pDst_ptr[..], base, block, i);
    }
    ColumnsAre(start, pDst_ptr[..], base, block);
  }

  lemma BlockLength(block: seq<int>, m: nat)
    requires Sparse(block, m)
    ensures |block| == 64
  {
  }

  lemma NoRows(temp: seq<int>, block: seq<int>, m: nat)
    requires |temp| == 64 == |block| && 1 <= m <= 64
    ensures RowsDone(temp, block, m, 0)
  {
  }

  lemma NoColumns(dst: seq<Byte>, base: nat, block: seq<int>)
    requires |block| == 64 && base + 64 <= |dst|
    ensures ColumnsDone(dst, base, block, 0)
  {
  }

  lemma FlatDone(dst: seq<Byte>, base: nat, block: seq<int>, k: Byte)
    requires Sparse(block, 1) && base + 64 <= |dst| && k == Clamp((block[0] + 4) / 8 + 128)
    requires forall j :: base <= j < base + 64 ==> dst[j] == k
    ensures ColumnsDone(dst, base, block, 8)
  {
    hide Sample, Clamp, Zag;
    forall r: nat, c: nat | r < 8 && c < 8 ensures SampleAt(dst, base, r, c) == Sample(block, r, c) { FlatBlock(block, r, c); }
  }
}
