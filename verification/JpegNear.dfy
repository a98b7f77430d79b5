/**
 * The decoder's inverse transform undoes the encoder's forward transform up to rounding
 * (compositor/jpge.cpp:104-141, compositor/jpgd.cpp:72-121, 156-222).
 */
module JpegNear {
  import opened Bits
  import opened JpegIdct
  import opened JpegBlocks
  import opened JpegDct

  // ---- One dimension: 2^13 times the factors are orthogonal up to their rounding ----

  /** The factors of all eight coefficients in output i. */
  function Factors(i: nat): (a: seq<int>)
    requires i < 8
    ensures |a| == 8
  {
    [BASIS[0][i], BASIS[1][i], BASIS[2][i], BASIS[3][i], BASIS[4][i], BASIS[5][i], BASIS[6][i], BASIS[7][i]]
  }

  lemma FactorsWeight(i: nat)
    requires i < 8
    ensures Weight(Factors(i), 8) <= 61214
  {
    hide Weight;
    WeightEight(Factors(i));
  }

  lemma WeightedIsDot(x: seq<int>, i: nat)
    requires |x| == 8 && i < 8
    ensures Weighted(x, i) == Dot(x, Factors(i), 8)
  {
    hide Dot, BASIS;
    BasisShape();
    DotEight(x, Factors(i));
  }

  lemma BasisShape()
    ensures |BASIS| == 8 && forall k :: 0 <= k < 8 ==> |BASIS[k]| == 8
  {
  }

  /** An output is at most 61214 times the largest coefficient. */
  lemma WeightedBound(x: seq<int>, i: nat, m: nat)
    requires |x| == 8 && i < 8 && forall k :: 0 <= k < 8 ==> Magnitude(x[k]) <= m
    ensures Magnitude(Weighted(x, i)) <= 61214 * m
  {
    hide Dot, Weight, Magnitude, Factors, Weighted;
    WeightedIsDot(x, i);
    DotBound(x, Factors(i), 8, m);
    FactorsWeight(i);
    Growth(m, Weight(Factors(i), 8), 61214);
  }

  /** All coefficients of eight values. */
  function Analyzed(s: seq<int>): (x: seq<int>)
    requires |s| == 8
    ensures |x| == 8
  {
    seq(8, k requires 0 <= k < 8 => Analysis(s, k))
  }

  /** What the even and the odd coefficients add to the first four outputs; the others are mirrored. */
  function EvenPart(x: seq<int>, i: nat): int
    requires |x| == 8 && i < 4
  {
    x[0] * BASIS[0][i] + x[2] * BASIS[2][i] + x[4] * BASIS[4][i] + x[6] * BASIS[6][i]
  }

  function OddPart(x: seq<int>, i: nat): int
    requires |x| == 8 && i < 4
  {
    x[1] * BASIS[1][i] + x[3] * BASIS[3][i] + x[5] * BASIS[5][i] + x[7] * BASIS[7][i]
  }

  lemma BothParts(x: seq<int>, i: nat)
    requires |x| == 8 && i < 4
    ensures Weighted(x, i) == EvenPart(x, i) + OddPart(x, i) && Weighted(x, 7 - i) == EvenPart(x, i) - OddPart(x, i)
  {
  }

  /** The error of the even part in terms of the sums of opposite values, and of the odd part in terms of their differences. */
  function EvenErrors(i: nat): (a: seq<int>)
    requires i < 4
    ensures |a| == 4
  {
    [[-12030, -4433, 4433, 12030], [-4433, 9377, -9377, 4433], [4433, -9377, 9377, -4433], [12030, 4433, -4433, -12030]][i]
  }

  function OddErrors(i: nat): (a: seq<int>)
    requires i < 4
    ensures |a| == 4
  {
    [[19571, 16278, 18122, 9633], [16278, -20546, -13091, -8374], [18122, -13091, 1367, -6114], [9633, -8374, -6114, 6698]][i]
  }

  function Sums(s: seq<int>): (t: seq<int>)
    requires |s| == 8
    ensures |t| == 4
  {
    [s[0] + s[7], s[1] + s[6], s[2] + s[5], s[3] + s[4]]
  }

  function Differences(s: seq<int>): (d: seq<int>)
    requires |s| == 8
    ensures |d| == 4
  {
    [s[0] - s[7], s[1] - s[6], s[2] - s[5], s[3] - s[4]]
  }

  lemma EvenPartForm(x: seq<int>, i: nat)
    requires |x| == 8 && i < 4
    ensures i == 0 ==> EvenPart(x, 0) == 8192 * x[0] + 10703 * x[2] + 8192 * x[4] + 4433 * x[6]
    ensures i == 1 ==> EvenPart(x, 1) == 8192 * x[0] + 4433 * x[2] - 8192 * x[4] - 10704 * x[6]
    ensures i == 2 ==> EvenPart(x, 2) == 8192 * x[0] - 4433 * x[2] - 8192 * x[4] + 10704 * x[6]
    ensures i == 3 ==> EvenPart(x, 3) == 8192 * x[0] - 10703 * x[2] + 8192 * x[4] - 4433 * x[6]
  {
  }

  lemma OddPartForm(x: seq<int>, i: nat)
    requires |x| == 8 && i < 4
    ensures i == 0 ==> OddPart(x, 0) == 11363 * x[1] + 9633 * x[3] + 6437 * x[5] + 2260 * x[7]
    ensures i == 1 ==> OddPart(x, 1) == 9633 * x[1] - 2259 * x[3] - 11362 * x[5] - 6436 * x[7]
    ensures i == 2 ==> OddPart(x, 2) == 6437 * x[1] - 11362 * x[3] + 2261 * x[5] + 9633 * x[7]
    ensures i == 3 ==> OddPart(x, 3) == 2260 * x[1] - 6436 * x[3] + 9633 * x[5] - 11363 * x[7]
  {
  }

  lemma DotFour(t: seq<int>, a: seq<int>)
    requires |t| == 4 == |a|
    ensures Dot(t, a, 4) == t[0] * a[0] + t[1] * a[1] + t[2] * a[2] + t[3] * a[3]
    ensures Weight(a, 4) == Magnitude(a[0]) + Magnitude(a[1]) + Magnitude(a[2]) + Magnitude(a[3])
  {
    hide Dot, Weight, Magnitude;
    DotStep(t, a, 0);
    DotStep(t, a, 1);
    DotStep(t, a, 2);
    DotStep(t, a, 3);
    WeightStep(a, 0);
    WeightStep(a, 1);
    WeightStep(a, 2);
    WeightStep(a, 3);
  }

  lemma EvenPartIs(s: seq<int>, i: nat)
    requires |s| == 8 && i < 4
    ensures EvenPart(Analyzed(s), i) - 0x1000_0000 * (s[i] + s[7 - i]) == Dot(Sums(s), EvenErrors(i), 4)
  {
    hide Analysis, EvenPart, Dot, Weight, Magnitude, BASIS;
    EvenAnalysis(s);
    EvenPartForm(Analyzed(s), i);
    DotFour(Sums(s), EvenErrors(i));
  }

  lemma OddPartIs(s: seq<int>, i: nat)
    requires |s| == 8 && i < 4
    ensures OddPart(Analyzed(s), i) - 0x1000_0000 * (s[i] - s[7 - i]) == Dot(Differences(s), OddErrors(i), 4)
  {
    hide Analysis, OddPart, Dot, Weight, Magnitude, BASIS;
    OddAnalysis(s);
    OddPartForm(Analyzed(s), i);
    DotFour(Differences(s), OddErrors(i));
  }

  lemma ErrorWeights(i: nat)
    requires i < 4
    ensures Weight(EvenErrors(i), 4) <= 32926 && Weight(OddErrors(i), 4) <= 63604
  {
    hide Dot, Weight;
    DotFour(EvenErrors(i), EvenErrors(i));
    DotFour(OddErrors(i), OddErrors(i));
  }

  lemma EvenNear(s: seq<int>, i: nat, m: nat)
    requires |s| == 8 && i < 4 && forall k :: 0 <= k < 8 ==> Magnitude(s[k]) <= m
    ensures Magnitude(EvenPart(Analyzed(s), i) - 0x1000_0000 * (s[i] + s[7 - i])) <= 65852 * m
  {
    hide EvenPart, EvenErrors, OddErrors, Analyzed, Dot, Weight;
    EvenPartIs(s, i);
    DotBound(Sums(s), EvenErrors(i), 4, 2 * m);
    ErrorWeights(i);
    Growth(2 * m, Weight(EvenErrors(i), 4), 32926);
  }

  lemma OddNear(s: seq<int>, i: nat, m: nat)
    requires |s| == 8 && i < 4 && forall k :: 0 <= k < 8 ==> Magnitude(s[k]) <= m
    ensures Magnitude(OddPart(Analyzed(s), i) - 0x1000_0000 * (s[i] - s[7 - i])) <= 127208 * m
  {
    hide OddPart, EvenErrors, OddErrors, Analyzed, Dot, Weight;
    OddPartIs(s, i);
    DotBound(Differences(s), OddErrors(i), 4, 2 * m);
    ErrorWeights(i);
    Growth(2 * m, Weight(OddErrors(i), 4), 63604);
  }

  /** Forward and back in one dimension: 2^29 times the value, up to the rounding of the factors. */
  lemma NearOne(s: seq<int>, i: nat, m: nat)
    requires |s| == 8 && i < 8 && forall k :: 0 <= k < 8 ==> Magnitude(s[k]) <= m
    ensures Magnitude(Weighted(Analyzed(s), i) - 0x2000_0000 * s[i]) <= 193060 * m
  {
    hide Analysis, Analyzed, Weighted, EvenPart, OddPart;
    var j := if i < 4 then i else 7 - i;
    BothParts(Analyzed(s), j);
    EvenNear(s, j, m);
    OddNear(s, j, m);
  }

  // ---- Two dimensions ----

  lemma {:induction false} DotLinear(p: int, y: seq<int>, x: seq<int>, e: seq<int>, a: seq<int>, n: nat)
    requires n <= |y| && n <= |x| && n <= |e| && n <= |a| && forall k :: 0 <= k < n ==> p * y[k] == x[k] + e[k]
    ensures p * Dot(y, a, n) == Dot(x, a, n) + Dot(e, a, n)
  {
    if n > 0 {
      DotLinear(p, y, x, e, a, n - 1);
      hide Dot;
      DotStep(y, a, n - 1);
      DotStep(x, a, n - 1);
      DotStep(e, a, n - 1);
      LinearTerm(p, Dot(y, a, n - 1), y[n - 1], x[n - 1], e[n - 1], a[n - 1]);
    }
  }

  lemma LinearTerm(p: int, d: int, y: int, x: int, e: int, b: int)
    requires p * y == x + e
    ensures p * (d + y * b) == p * d + x * b + e * b
  {
    assert p * (y * b) == (p * y) * b;
  }

  /** Values that agree up to a factor and an error give outputs that do. */
  lemma WeightedScaled(p: int, y: seq<int>, x: seq<int>, i: nat, m: nat)
    requires |y| == 8 == |x| && i < 8 && forall k :: 0 <= k < 8 ==> Magnitude(p * y[k] - x[k]) <= m
    ensures Magnitude(p * Weighted(y, i) - Weighted(x, i)) <= 61214 * m
  {
    hide Dot, Weighted, Factors, Magnitude;
    var e := seq(8, k requires 0 <= k < 8 => p * y[k] - x[k]);
    WeightedIsDot(y, i);
    WeightedIsDot(x, i);
    WeightedIsDot(e, i);
    DotLinear(p, y, x, e, Factors(i), 8);
    WeightedBound(e, i, m);
  }

  /** The inverse without any rounding: rows first, or columns first. */
  function RowsThenColumns(d: seq<int>, r: nat, j: nat): int
    requires |d| == 64 && r < 8 && j < 8
  {
    Weighted(seq(8, u requires 0 <= u < 8 => Weighted(RowOf(d, u), j)), r)
  }

  function ColumnsThenRows(d: seq<int>, r: nat, j: nat): int
    requires |d| == 64 && r < 8 && j < 8
  {
    Weighted(seq(8, k requires 0 <= k < 8 => Weighted(ColumnOf(d, k, 8), r)), j)
  }

  /** The rows' scalar products with b, and the columns' with a up to row n. */
  function RowDots(d: seq<int>, b: seq<int>): (x: seq<int>)
    requires |d| == 64 && |b| == 8
    ensures |x| == 8
  {
    seq(8, u requires 0 <= u < 8 => Dot(RowOf(d, u), b, 8))
  }

  function ColumnDots(d: seq<int>, a: seq<int>, n: nat): (x: seq<int>)
    requires |d| == 64 && |a| == 8 && n <= 8
    ensures |x| == 8
  {
    seq(8, k requires 0 <= k < 8 => Dot(ColumnOf(d, k, 8), a, n))
  }

  lemma {:induction false} SumsSwap(d: seq<int>, a: seq<int>, b: seq<int>, n: nat)
    requires |d| == 64 && |a| == 8 == |b| && n <= 8
    ensures Dot(RowDots(d, b), a, n) == Dot(ColumnDots(d, a, n), b, 8)
  {
    hide Dot;
    if n == 0 {
      forall k | 0 <= k < 8 ensures ColumnDots(d, a, 0)[k] == 0 { DotStep(ColumnOf(d, k, 8), a, 0); }
      DotStep(RowDots(d, b), a, 0);
      DotZero(ColumnDots(d, a, 0), b, 8);
    } else {
      SumsSwap(d, a, b, n - 1);
      DotStep(RowDots(d, b), a, n - 1);
      var before, now, row := ColumnDots(d, a, n - 1), ColumnDots(d, a, n), RowOf(d, n - 1);
      var scaled := seq(8, k requires 0 <= k < 8 => a[n - 1] * row[k]);
      forall k | 0 <= k < 8 ensures 1 * now[k] == before[k] + scaled[k] {
        DotStep(ColumnOf(d, k, 8), a, n - 1);
        assert ColumnOf(d, k, 8)[n - 1] == row[k];
      }
      DotLinear(1, now, before, scaled, b, 8);
      var zeros := seq(8, k => 0);
      DotLinear(a[n - 1], row, scaled, zeros, b, 8);
      DotZero(zeros, b, 8);
    }
  }

  lemma {:induction false} DotZero(x: seq<int>, b: seq<int>, n: nat)
    requires n <= |x| && n <= |b| && forall k :: 0 <= k < n ==> x[k] == 0
    ensures Dot(x, b, n) == 0
  {
    if n > 0 { DotZero(x, b, n - 1); }
  }

  lemma EitherOrder(d: seq<int>, r: nat, j: nat)
    requires |d| == 64 && r < 8 && j < 8
    ensures RowsThenColumns(d, r, j) == ColumnsThenRows(d, r, j)
  {
    hide Dot, Weighted, Factors, RowOf, ColumnOf;
    var a, b := Factors(r), Factors(j);
    SumsSwap(d, a, b, 8);
    forall u: nat | u < 8 ensures Weighted(RowOf(d, u), j) == RowDots(d, b)[u] { WeightedIsDot(RowOf(d, u), j); }
    forall k: nat | k < 8 ensures Weighted(ColumnOf(d, k, 8), r) == ColumnDots(d, a, 8)[k] { WeightedIsDot(ColumnOf(d, k, 8), r); }
    assert seq(8, u requires 0 <= u < 8 => Weighted(RowOf(d, u), j)) == RowDots(d, b);
    assert seq(8, k requires 0 <= k < 8 => Weighted(ColumnOf(d, k, 8), r)) == ColumnDots(d, a, 8);
    WeightedIsDot(RowDots(d, b), r);
    WeightedIsDot(ColumnDots(d, a, 8), j);
  }

  // ---- Forward, and back with coefficients that are off by at most h ----

  /** Every coefficient is the one of the forward transform up to h. */
  ghost predicate Within(block: seq<int>, coefs: seq<int>, h: nat) {
    && |block| == 64 == |coefs|
    && forall u: nat, v: nat :: u < 8 && v < 8 ==> Magnitude(CoefAt(coefs, u, v) - Coefficient(block, u, v)) <= h
  }

  function CoefAt(coefs: seq<int>, u: nat, v: nat): int
    requires |coefs| == 64 && u < 8 && v < 8
  {
    coefs[8 * u + v]
  }

  lemma Rounding(x: int)
    ensures Magnitude(2048 * DctDescale(x, 2048) - x) <= 1024 && Magnitude(0x4_0000 * DctDescale(x, 0x4_0000) - x) <= 0x2_0000
    ensures Magnitude(2048 * DescaleRow(x) - x) <= 1024
  {
  }

  /** Rows: forward and back gives 2^18 times the sample. */
  lemma RowBack(s: seq<int>, j: nat)
    requires |s| == 8 && Samples(s) && j < 8
    ensures Magnitude(2048 * Weighted(RowTransform(s), j) - 0x2000_0000 * s[j]) <= 61214 * 1024 + 193060 * 128
  {
    hide Weighted, Analysis, DctDescale;
    forall k: nat | k < 8 ensures Magnitude(2048 * RowTransform(s)[k] - Analyzed(s)[k]) <= 1024 { Rounding(Analysis(s, k)); }
    WeightedScaled(2048, RowTransform(s), Analyzed(s), j, 1024);
    NearOne(s, j, 128);
  }

  lemma Step(x: int, y: int, h: nat)
    requires Magnitude(x - DctDescale(y, 0x4_0000)) <= h
    ensures Magnitude(0x4_0000 * x - y) <= 0x2_0000 + 0x4_0000 * h
  {
    hide DctDescale;
    Rounding(y);
  }

  /** Columns: 2^11 times the entry of the transformed row. */
  lemma ColumnBack(block: seq<int>, coefs: seq<int>, h: nat, r: nat, k: nat)
    requires Samples(block) && Within(block, coefs, h) && r < 8 && k < 8
    ensures Magnitude(0x4_0000 * Weighted(ColumnOf(coefs, k, 8), r) - 0x2000_0000 * RowTransform(RowOf(block, r))[k])
         <= 61214 * (0x2_0000 + 0x4_0000 * h) + 193060 * 4096
  {
    hide Weighted, Analysis, DctDescale, RowTransform, RowOf;
    var x, y := ColumnOf(coefs, k, 8), RowColumn(block, k);
    ColumnIsSmall(block, k);
    forall u: nat | u < 8 ensures Magnitude(0x4_0000 * x[u] - Analyzed(y)[u]) <= 0x2_0000 + 0x4_0000 * h {
      assert x[u] == CoefAt(coefs, u, k);
      Step(x[u], Analysis(y, u), h);
    }
    WeightedScaled(0x4_0000, x, Analyzed(y), r, 0x2_0000 + 0x4_0000 * h);
    NearOne(y, r, 4096);
  }

  /** Both without the rounding in between: 2^58 times the sample, in units of 2^-11 and 2^-18. */
  lemma BothBack(block: seq<int>, coefs: seq<int>, h: nat, r: nat, j: nat)
    requires Samples(block) && Within(block, coefs, h) && r < 8 && j < 8
    ensures Magnitude(0x4_0000 * ColumnsThenRows(coefs, r, j) - 0x2000_0000 * Weighted(RowTransform(RowOf(block, r)), j))
         <= 61214 * (61214 * (0x2_0000 + 0x4_0000 * h) + 193060 * 4096)
  {
    hide Weighted, RowTransform, RowOf, ColumnOf, Magnitude;
    var y := RowTransform(RowOf(block, r));
    var x := seq(8, k requires 0 <= k < 8 => Weighted(ColumnOf(coefs, k, 8), r));
    var z := seq(8, k requires 0 <= k < 8 => 0x2000_0000 * y[k]);
    var m := 61214 * (0x2_0000 + 0x4_0000 * h) + 193060 * 4096;
    forall k: nat | k < 8 ensures Magnitude(0x4_0000 * x[k] - z[k]) <= m { ColumnBack(block, coefs, h, r, k); }
    WeightedScaled(0x4_0000, x, z, j, m);
    forall k: nat | k < 8 ensures Magnitude(0x2000_0000 * y[k] - z[k]) <= 0 { NoMagnitude(0); }
    WeightedScaled(0x2000_0000, y, z, j, 0);
    Same(0x2000_0000 * Weighted(y, j), Weighted(z, j));
  }

  lemma NoMagnitude(v: int)
    ensures Magnitude(v) <= 0 <==> v == 0
  {
  }

  lemma Same(x: int, y: int)
    requires Magnitude(x - y) <= 0
    ensures x == y
  {
  }

  /** The inverse with its rounding between rows and columns. */
  lemma RoundedRows(d: seq<int>, r: nat, j: nat)
    requires |d| == 64 && r < 8 && j < 8
    ensures Magnitude(2048 * Weighted(Column(d, j), r) - RowsThenColumns(d, r, j)) <= 61214 * 1024
  {
    hide Weighted, RowOf, DescaleRow, Magnitude;
    var x := seq(8, u requires 0 <= u < 8 => Weighted(RowOf(d, u), j));
    forall u: nat | u < 8 ensures Magnitude(2048 * Column(d, j)[u] - x[u]) <= 1024 {
      assert RowOut(RowOf(d, u))[j] == DescaleRow(Weighted(RowOf(d, u), j));
      Rounding(Weighted(RowOf(d, u), j));
    }
    WeightedScaled(2048, Column(d, j), x, r, 1024);
  }

  lemma LastRounding(v: int, s: int, e: nat)
    requires -128 <= s < 128 && Magnitude(v - 0x4_0000 * s) <= 0x4_0000 * e + 0x1_FFFF
    ensures Magnitude(DescaleCol(v) - (s + 128)) <= e
  {
  }

  lemma AddUp(w: int, f: int, g: int, s: int, h: nat)
    requires Magnitude(2048 * w - f) <= 61214 * 1024
    requires Magnitude(0x4_0000 * f - 0x2000_0000 * g) <= 61214 * (61214 * (0x2_0000 + 0x4_0000 * h) + 193060 * 4096)
    requires Magnitude(2048 * g - 0x2000_0000 * s) <= 61214 * 1024 + 193060 * 128
    ensures Magnitude(w - 0x4_0000 * s) <= 0x4_0000 * (4 + 7 * h) + 0x1_FFFF
  {
  }

  /** Transformed forward and back, every sample comes back within 4; within 4 + 7 h if coefficients are off by up to h. */
  lemma SampleBack(block: seq<int>, coefs: seq<int>, h: nat, r: nat, j: nat)
    requires Samples(block) && Within(block, coefs, h) && r < 8 && j < 8
    ensures Magnitude(Sample(coefs, r, j) - (block[8 * r + j] + 128)) <= 4 + 7 * h
  {
    hide Weighted, RowTransform, Column, RowsThenColumns, ColumnsThenRows, DescaleCol, Magnitude;
    RoundedRows(coefs, r, j);
    EitherOrder(coefs, r, j);
    BothBack(block, coefs, h, r, j);
    RowBack(RowOf(block, r), j);
    assert RowOf(block, r)[j] == block[8 * r + j];
    AddUp(Weighted(Column(coefs, j), r), RowsThenColumns(coefs, r, j), Weighted(RowTransform(RowOf(block, r)), j), block[8 * r + j], h);
    LastRounding(Weighted(Column(coefs, j), r), block[8 * r + j], 4 + 7 * h);
  }
}
