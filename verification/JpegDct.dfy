/** The forward transform of the encoder: eight rows, then eight columns, in place (compositor/jpge.cpp:104-141). */
module JpegDct {
  import opened Bits
  import opened Memory
  import opened JpegIdct
  import opened JpegBlocks
  import opened JpegBlockDecode

  /** The machine's integers: values of this type cannot overflow. */
  type Int32 = x: int | -0x8000_0000 <= x < 0x8000_0000

  // ---- One dimension ----

  /** The reference: the scalar product of eight values with the factors of coefficient k, times 2^13. */
  function Analysis(s: seq<int>, k: nat): int
    requires |s| == 8 && k < 8
  {
    s[0] * BASIS[k][0] + s[1] * BASIS[k][1] + s[2] * BASIS[k][2] + s[3] * BASIS[k][3] +
    s[4] * BASIS[k][4] + s[5] * BASIS[k][5] + s[6] * BASIS[k][6] + s[7] * BASIS[k][7]
  }

  /** The scalar product of the first n entries. */
  function Dot(x: seq<int>, a: seq<int>, n: nat): int
    requires n <= |x| && n <= |a|
  {
    if n == 0 then 0 else Dot(x, a, n - 1) + x[n - 1] * a[n - 1]
  }

  function Weight(a: seq<int>, n: nat): nat
    requires n <= |a|
  {
    if n == 0 then 0 else Weight(a, n - 1) + Magnitude(a[n - 1])
  }

  lemma DotStep(x: seq<int>, a: seq<int>, n: nat)
    requires n < |x| && n < |a|
    ensures Dot(x, a, 0) == 0 && Dot(x, a, n + 1) == Dot(x, a, n) + x[n] * a[n]
  {
  }

  lemma WeightStep(a: seq<int>, n: nat)
    requires n < |a|
    ensures Weight(a, 0) == 0 && Weight(a, n + 1) == Weight(a, n) + Magnitude(a[n])
  {
  }

  lemma DotEight(x: seq<int>, a: seq<int>)
    requires |x| == 8 == |a|
    ensures Dot(x, a, 8) == x[0] * a[0] + x[1] * a[1] + x[2] * a[2] + x[3] * a[3] + x[4] * a[4] + x[5] * a[5] + x[6] * a[6] + x[7] * a[7]
  {
    hide Dot;
    DotStep(x, a, 0);
    DotStep(x, a, 1);
    DotStep(x, a, 2);
    DotStep(x, a, 3);
    DotStep(x, a, 4);
    DotStep(x, a, 5);
    DotStep(x, a, 6);
    DotStep(x, a, 7);
  }

  lemma WeightEight(a: seq<int>)
    requires |a| == 8
    ensures Weight(a, 8) == Magnitude(a[0]) + Magnitude(a[1]) + Magnitude(a[2]) + Magnitude(a[3])
                          + Magnitude(a[4]) + Magnitude(a[5]) + Magnitude(a[6]) + Magnitude(a[7])
  {
    hide Weight, Magnitude;
    WeightStep(a, 0);
    WeightStep(a, 1);
    WeightStep(a, 2);
    WeightStep(a, 3);
    WeightStep(a, 4);
    WeightStep(a, 5);
    WeightStep(a, 6);
    WeightStep(a, 7);
  }

  /** The product with values of at most m is at most m times the sum of the sizes of the factors. */
  lemma {:induction false} DotBound(x: seq<int>, a: seq<int>, n: nat, m: nat)
    requires n <= |x| && n <= |a| && forall i :: 0 <= i < n ==> Magnitude(x[i]) <= m
    ensures Magnitude(Dot(x, a, n)) <= m * Weight(a, n)
  {
    if n > 0 {
      hide Magnitude;
      DotBound(x, a, n - 1, m);
      DotStep(x, a, n - 1);
      WeightStep(a, n - 1);
      TermBound(x[n - 1], a[n - 1], m);
      TwoParts(Dot(x, a, n - 1), x[n - 1] * a[n - 1], m, Weight(a, n - 1), Magnitude(a[n - 1]));
    }
  }

  lemma TwoParts(d: int, e: int, m: nat, v: nat, w: nat)
    requires Magnitude(d) <= m * v && Magnitude(e) <= m * w
    ensures Magnitude(d + e) <= m * (v + w)
  {
  }

  lemma TermBound(t: int, a: int, m: nat)
    requires Magnitude(t) <= m
    ensures Magnitude(t * a) <= m * Magnitude(a)
  {
    var q, b := Magnitude(t), Magnitude(a);
    assert q * b <= m * b;
    if t < 0 { assert t * a == -(q * a); } else { assert t * a == q * a; }
    if a < 0 { assert q * a == -(q * b); } else { assert q * a == q * b; }
  }

  lemma AnalysisBound(s: seq<int>, k: nat, m: nat)
    requires |s| == 8 && k < 8 && forall i :: 0 <= i < 8 ==> Magnitude(s[i]) <= m
    ensures |BASIS| == 8 && |BASIS[k]| == 8 && Analysis(s, k) == Dot(s, BASIS[k], 8)
    ensures Magnitude(Analysis(s, k)) <= 65536 * m
    ensures k != 0 && k != 4 ==> Magnitude(Analysis(s, k)) <= 60548 * m
  {
    hide Dot, Weight, Magnitude, BASIS;
    BasisWeights(k);
    DotEight(s, BASIS[k]);
    DotBound(s, BASIS[k], 8, m);
    Growth(m, Weight(BASIS[k], 8), 65536);
    Growth(m, Weight(BASIS[k], 8), 60548);
  }

  lemma Growth(m: nat, w: nat, c: nat)
    ensures w <= c ==> m * w <= c * m
  {
  }

  /** How much a coefficient and an output can grow. */
  lemma BasisWeights(k: nat)
    requires k < 8
    ensures |BASIS| == 8 && |BASIS[k]| == 8 && Weight(BASIS[k], 8) <= 65536 && (k != 0 && k != 4 ==> Weight(BASIS[k], 8) <= 60548)
  {
    hide Weight;
    WeightEight(BASIS[k]);
  }

  /** How often the sign changes among the first n factors. */
  function SignChanges(a: seq<int>, n: nat): nat
    requires n <= |a|
  {
    if n <= 1 then 0 else SignChanges(a, n - 1) + if (a[n - 1] < 0) != (a[n - 2] < 0) then 1 else 0
  }

  /** Row k of the factors starts out positive, changes its sign k times, and is mirrored or turned about its middle, as a cosine. */
  lemma BasisIsCosine(k: nat)
    requires k < 8
    ensures |BASIS| == 8 && |BASIS[k]| == 8 && BASIS[k][0] > 0 && SignChanges(BASIS[k], 8) == k
    ensures forall i :: 0 <= i < 8 ==> BASIS[k][i] != 0 && BASIS[k][7 - i] == if k % 2 == 0 then BASIS[k][i] else -BASIS[k][i]
  {
    hide SignChanges;
    var a := BASIS[k];
    SignStep(a, 1);
    SignStep(a, 2);
    SignStep(a, 3);
    SignStep(a, 4);
    SignStep(a, 5);
    SignStep(a, 6);
    SignStep(a, 7);
  }

  lemma SignStep(a: seq<int>, n: nat)
    requires 1 <= n < |a|
    ensures SignChanges(a, 1) == 0
    ensures SignChanges(a, n + 1) == SignChanges(a, n) + if (a[n] < 0) != (a[n - 1] < 0) then 1 else 0
  {
  }

  /** Different rows are orthogonal, and each has length 2^14.5, up to 48120 in 2^29. */
  lemma BasisIsOrthogonal(k: nat, l: nat)
    requires k < 8 && l < 8
    ensures |BASIS| == 8 && |BASIS[k]| == 8 && |BASIS[l]| == 8
    ensures Magnitude(Analysis(BASIS[l], k) - if k == l then 0x2000_0000 else 0) <= 48120
  {
    if k < 4 { OrthogonalLow(k, l); } else { OrthogonalHigh(k, l); }
  }

  lemma OrthogonalLow(k: nat, l: nat)
    requires k < 4 && l < 8
    ensures Magnitude(Analysis(BASIS[l], k) - if k == l then 0x2000_0000 else 0) <= 48120
  {
  }

  lemma OrthogonalHigh(k: nat, l: nat)
    requires 4 <= k < 8 && l < 8
    ensures Magnitude(Analysis(BASIS[l], k) - if k == l then 0x2000_0000 else 0) <= 48120
  {
  }

  /** Eight values for which no product of the straight-line code loses bits in the cast of its first factor. */
  ghost predicate Small(s: seq<int>) { |s| == 8 && forall i :: 0 <= i < 8 ==> -4096 <= s[i] < 4096 }

  /** DCT_MUL: the first factor is cast to 16 bits. */
  function DctMul(v: int, c: int): (r: int)
    ensures -32768 <= v < 32768 ==> r == v * c
  {
    Cast16(v) * c
  }

  /** What the even outputs are, and what the odd ones are, in terms of the sums and differences of the samples. */
  lemma EvenAnalysis(s: seq<int>)
    requires |s| == 8
    ensures
      var t0, t1, t2, t3 := s[0] + s[7], s[1] + s[6], s[2] + s[5], s[3] + s[4];
      && Analysis(s, 0) == 8192 * (t0 + t1 + t2 + t3) && Analysis(s, 4) == 8192 * (t0 - t1 - t2 + t3)
      && Analysis(s, 2) == 10703 * (t0 - t3) + 4433 * (t1 - t2) && Analysis(s, 6) == 4433 * (t0 - t3) - 10704 * (t1 - t2)
  {
  }

  lemma OddAnalysis(s: seq<int>)
    requires |s| == 8
    ensures
      var t4, t5, t6, t7 := s[3] - s[4], s[2] - s[5], s[1] - s[6], s[0] - s[7];
      && Analysis(s, 1) == 11363 * t7 + 9633 * t6 + 6437 * t5 + 2260 * t4
      && Analysis(s, 3) == 9633 * t7 - 2259 * t6 - 11362 * t5 - 6436 * t4
      && Analysis(s, 5) == 6437 * t7 - 11362 * t6 + 2261 * t5 + 9633 * t4
      && Analysis(s, 7) == 2260 * t7 - 6436 * t6 + 9633 * t5 - 11363 * t4
  {
  }

  /** A sum or difference of two such values. */
  predicate Pair(t: int) { -8192 <= t < 8192 }

  /** The even half of DCT1D; outputs 0 and 4 are not scaled. */
  method DctEven(t0: Int32, t1: Int32, t2: Int32, t3: Int32) returns (s0: Int32, s2: Int32, s4: Int32, s6: Int32)
    requires Pair(t0) && Pair(t1) && Pair(t2) && Pair(t3)
    ensures s0 as int == t0 as int + t1 + t2 + t3 && s4 as int == t0 as int - t1 - t2 + t3
    ensures s2 as int == 10703 * (t0 as int - t3) + 4433 * (t1 as int - t2)
    ensures s6 as int == 4433 * (t0 as int - t3) - 10704 * (t1 as int - t2)
  {
    hide DctMul;
    var t10: Int32, t13: Int32, t11: Int32, t12: Int32 := t0 + t3, t0 - t3, t1 + t2, t1 - t2;
    var u1: Int32 := DctMul(t12 + t13, 4433);
    s2, s6 := u1 + DctMul(t13, 6270), u1 + DctMul(t12, -15137);
    s0, s4 := t10 + t11, t10 - t11;
  }

  /** The odd half. */
  method DctOdd(d4: Int32, d5: Int32, d6: Int32, d7: Int32) returns (s1: Int32, s3: Int32, s5: Int32, s7: Int32)
    requires Pair(d4) && Pair(d5) && Pair(d6) && Pair(d7)
    ensures s1 as int == 11363 * (d7 as int) + 9633 * (d6 as int) + 6437 * (d5 as int) + 2260 * (d4 as int)
    ensures s3 as int == 9633 * (d7 as int) - 2259 * (d6 as int) - 11362 * (d5 as int) - 6436 * (d4 as int)
    ensures s5 as int == 6437 * (d7 as int) - 11362 * (d6 as int) + 2261 * (d5 as int) + 9633 * (d4 as int)
    ensures s7 as int == 2260 * (d7 as int) - 6436 * (d6 as int) + 9633 * (d5 as int) - 11363 * (d4 as int)
  {
    hide DctMul;
    var t4, t5, t6, t7 := d4, d5, d6, d7;
    var u1: Int32 := t4 + t7;
    var u2: Int32, u3: Int32, u4: Int32 := t5 + t6, t4 + t6, t5 + t7;
    var z5: Int32 := DctMul(u3 + u4, 9633);
    t4, t5, t6, t7 := DctMul(t4, 2446), DctMul(t5, 16819), DctMul(t6, 25172), DctMul(t7, 12299);
    u1, u2, u3, u4 := DctMul(u1, -7373), DctMul(u2, -20995), DctMul(u3, -16069), DctMul(u4, -3196);
    u3, u4 := u3 + z5, u4 + z5;
    s1, s3, s5, s7 := t7 + u1 + u4, t6 + u2 + u3, t5 + u2 + u4, t4 + u1 + u3;
  }

  /** DCT1D: 12 multiplications in place of 64. */
  method Dct1D(s: seq<int>) returns (r: seq<int>)
    requires Small(s)
    ensures |r| == 8 && 8192 * r[0] == Analysis(s, 0) && 8192 * r[4] == Analysis(s, 4)
    ensures r[1] == Analysis(s, 1) && r[2] == Analysis(s, 2) && r[3] == Analysis(s, 3)
    ensures r[5] == Analysis(s, 5) && r[6] == Analysis(s, 6) && r[7] == Analysis(s, 7)
  {
    hide Analysis;
    EvenAnalysis(s);
    OddAnalysis(s);
    var t0: Int32, t7: Int32, t1: Int32, t6: Int32 := s[0] + s[7], s[0] - s[7], s[1] + s[6], s[1] - s[6];
    var t2: Int32, t5: Int32, t3: Int32, t4: Int32 := s[2] + s[5], s[2] - s[5], s[3] + s[4], s[3] - s[4];
    var s0, s2, s4, s6 := DctEven(t0, t1, t2, t3);
    var s1, s3, s5, s7 := DctOdd(t4, t5, t6, t7);
    r := [s0, s1, s2, s3, s4, s5, s6, s7];
  }

  // ---- Two dimensions ----

  /** DCT_DESCALE: division by a power of two, rounded; shifting right rounds down. */
  function DctDescale(x: int, d: nat): int
    requires d > 0
  {
    (x + d / 2) / d
  }

  function RowTransform(s: seq<int>): (r: seq<int>)
    requires |s| == 8
    ensures |r| == 8
  {
    seq(8, k requires 0 <= k < 8 => DctDescale(Analysis(s, k), 2048))
  }

  /** Samples around zero, as load_block leaves them. */
  ghost predicate Samples(s: seq<int>) { forall i :: 0 <= i < |s| ==> -128 <= s[i] < 128 }

  function RowColumn(block: seq<int>, v: nat): (x: seq<int>)
    requires |block| == 64 && v < 8
    ensures |x| == 8
  {
    seq(8, r requires 0 <= r < 8 => RowTransform(RowOf(block, r))[v])
  }

  /** The coefficient of vertical frequency u and horizontal frequency v: rows first, rounded to two binary places. */
  function Coefficient(block: seq<int>, u: nat, v: nat): int
    requires |block| == 64 && u < 8 && v < 8
  {
    DctDescale(Analysis(RowColumn(block, v), u), 0x4_0000)
  }

  lemma RowIsSmall(s: seq<int>)
    requires |s| == 8 && Samples(s)
    ensures Small(RowTransform(s))
  {
    hide Analysis;
    EvenAnalysis(s);
    forall i | 0 <= i < 8 ensures Magnitude(s[i]) <= 128 {}
    forall k: nat | k < 8 ensures -4096 <= RowTransform(s)[k] < 4096 { AnalysisBound(s, k, 128); }
  }

  lemma Unscaled(x: int)
    ensures DctDescale(8192 * x, 2048) == 4 * x && DctDescale(8192 * x, 0x4_0000) == DctDescale(x, 32)
  {
    DivUnique(8192 * x + 0x2_0000, 0x4_0000, (x + 16) / 32, 8192 * ((x + 16) % 32));
  }

  method DctRow(p: array<int>, r: nat)
    requires p.Length == 64 && r < 8 && Samples(RowOf(p[..], r))
    modifies p
    ensures RowOf(p[..], r) == RowTransform(old(RowOf(p[..], r))) && OtherRows(old(p[..]), p[..], r)
  {
    hide Analysis, OtherRows, DctDescale;
    var q := RowOf(p[..], r);
    var s := Dct1D(q);
    Unscaled(s[0]);
    Unscaled(s[4]);
    StoreRow(p, r, [s[0] * 4, DctDescale(s[1], 2048), DctDescale(s[2], 2048), DctDescale(s[3], 2048),
                    s[4] * 4, DctDescale(s[5], 2048), DctDescale(s[6], 2048), DctDescale(s[7], 2048)]);
  }

  /** Only column c changes. */
  ghost predicate OtherPlaces(before: seq<int>, now: seq<int>, c: nat) {
    |before| == 64 == |now| && c < 8 && forall k: nat :: k < 8 && k != c ==> ColumnOf(now, k, 8) == ColumnOf(before, k, 8)
  }

  /** The first n entries of column c are new. */
  ghost predicate PutTo(before: seq<int>, now: seq<int>, c: nat, x: seq<int>, n: nat) {
    && OtherPlaces(before, now, c) && n <= 8 == |x|
    && forall i :: 0 <= i < n ==> ColumnOf(now, c, 8)[i] == x[i]
  }

  lemma NothingPut(before: seq<int>, c: nat, x: seq<int>)
    requires |before| == 64 && c < 8 && |x| == 8
    ensures PutTo(before, before, c, x, 0)
  {
  }

  lemma PutNext(start: seq<int>, before: seq<int>, c: nat, x: seq<int>, n: nat)
    requires PutTo(start, before, c, x, n) && n < 8
    ensures PutTo(start, before[8 * n + c := x[n]], c, x, n + 1)
  {
    var now := before[8 * n + c := x[n]];
    forall k: nat | k < 8 && k != c ensures ColumnOf(now, k, 8) == ColumnOf(before, k, 8) {}
    forall i | 0 <= i < 8 ensures ColumnOf(now, c, 8)[i] == if i == n then x[n] else ColumnOf(before, c, 8)[i] {}
  }

  method PutColumn(p: array<int>, c: nat, x: seq<int>)
    requires p.Length == 64 && c < 8 && |x| == 8
    modifies p
    ensures ColumnOf(p[..], c, 8) == x && OtherPlaces(old(p[..]), p[..], c)
  {
    hide OtherPlaces;
    ghost var start := p[..];
    NothingPut(start, c, x);
    for r := 0 to 8
      invariant PutTo(start, p[..], c, x, r)
    {
      ghost var before := p[..];
      p[8 * r + c] := x[r];
      assert p[..] == before[8 * r + c := x[r]];
      PutNext(start, before, c, x, r);
    }
  }

  method DctColumn(p: array<int>, c: nat)
    requires p.Length == 64 && c < 8 && Small(ColumnOf(p[..], c, 8))
    modifies p
    ensures OtherPlaces(old(p[..]), p[..], c)
    ensures forall u: nat :: u < 8 ==> ColumnOf(p[..], c, 8)[u] == DctDescale(Analysis(old(ColumnOf(p[..], c, 8)), u), 0x4_0000)
  {
    hide Analysis, OtherPlaces, DctDescale, ColumnOf;
    var q := ColumnOf(p[..], c, 8);
    var s := Dct1D(q);
    Unscaled(s[0]);
    Unscaled(s[4]);
    PutColumn(p, c, [DctDescale(s[0], 32), DctDescale(s[1], 0x4_0000), DctDescale(s[2], 0x4_0000), DctDescale(s[3], 0x4_0000),
                     DctDescale(s[4], 32), DctDescale(s[5], 0x4_0000), DctDescale(s[6], 0x4_0000), DctDescale(s[7], 0x4_0000)]);
  }

  /** The rows before k are transformed, the others are as they were. */
  ghost predicate RowsForward(block: seq<int>, now: seq<int>, k: nat) {
    && |block| == 64 == |now|
    && forall r: nat {:trigger RowOf(now, r)} :: r < 8 ==> RowOf(now, r) == if r < k then RowTransform(RowOf(block, r)) else RowOf(block, r)
  }

  lemma NextRowForward(block: seq<int>, before: seq<int>, now: seq<int>, k: nat)
    requires RowsForward(block, before, k) && k < 8 && OtherRows(before, now, k) && RowOf(now, k) == RowTransform(RowOf(block, k))
    ensures RowsForward(block, now, k + 1)
  {
    hide RowOf, RowTransform;
  }

  /** The columns before k hold coefficients, the others the transformed rows. */
  ghost predicate ColumnsForward(block: seq<int>, now: seq<int>, k: nat) {
    && |block| == 64 == |now|
    && forall c: nat {:trigger ColumnOf(now, c, 8)} :: c < 8 ==>
         if c < k then forall u: nat :: u < 8 ==> ColumnOf(now, c, 8)[u] == Coefficient(block, u, c)
         else ColumnOf(now, c, 8) == RowColumn(block, c)
  }

  lemma AllRowsForward(block: seq<int>, now: seq<int>)
    requires RowsForward(block, now, 8)
    ensures ColumnsForward(block, now, 0)
  {
    hide RowTransform;
    forall c: nat | c < 8 ensures ColumnOf(now, c, 8) == RowColumn(block, c) {
      forall r: nat | r < 8 ensures now[8 * r + c] == RowTransform(RowOf(block, r))[c] { assert RowOf(now, r)[c] == now[8 * r + c]; }
    }
  }

  lemma NextColumnForward(block: seq<int>, before: seq<int>, now: seq<int>, k: nat)
    requires ColumnsForward(block, before, k) && k < 8 && OtherPlaces(before, now, k)
    requires forall u: nat :: u < 8 ==> ColumnOf(now, k, 8)[u] == DctDescale(Analysis(RowColumn(block, k), u), 0x4_0000)
    ensures ColumnsForward(block, now, k + 1)
  {
    hide ColumnOf, RowColumn, Analysis, DctDescale;
  }

  lemma ColumnIsSmall(block: seq<int>, c: nat)
    requires |block| == 64 && Samples(block) && c < 8
    ensures Small(RowColumn(block, c))
  {
    hide RowTransform;
    forall r: nat | r < 8 ensures Small(RowTransform(RowOf(block, r))) { RowIsSmall(RowOf(block, r)); }
  }

  /** DCT2D: in place, every entry becomes the coefficient of its two frequencies. */
  method DCT2D(p: array<int>)
    requires p.Length == 64 && Samples(p[..])
    modifies p
    ensures forall u: nat, v: nat :: u < 8 && v < 8 ==> p[8 * u + v] == Coefficient(old(p[..]), u, v)
  {
    hide Analysis, RowTransform, DctDescale, RowsForward, ColumnsForward, OtherRows, OtherPlaces, RowOf, ColumnOf, RowColumn, Coefficient;
    ghost var block := p[..];
    NoRowsForward(block);
    for c := 0 to 8
      invariant RowsForward(block, p[..], c)
    {
      RowUntouched(block, p[..], c);
      ghost var before := p[..];
      DctRow(p, c);
      NextRowForward(block, before, p[..], c);
    }
    AllRowsForward(block, p[..]);
    for c := 0 to 8
      invariant ColumnsForward(block, p[..], c)
    {
      ColumnIsSmall(block, c);
      ColumnUntouched(block, p[..], c);
      ghost var before := p[..];
      DctColumn(p, c);
      NextColumnForward(block, before, p[..], c);
    }
    AllCoefficients(block, p[..]);
  }

  lemma NoRowsForward(block: seq<int>)
    requires |block| == 64
    ensures RowsForward(block, block, 0)
  {
  }

  lemma RowUntouched(block: seq<int>, now: seq<int>, k: nat)
    requires RowsForward(block, now, k) && k < 8 && Samples(block)
    ensures RowOf(now, k) == RowOf(block, k) && Samples(RowOf(now, k))
  {
  }

  lemma ColumnUntouched(block: seq<int>, now: seq<int>, k: nat)
    requires ColumnsForward(block, now, k) && k < 8
    ensures ColumnOf(now, k, 8) == RowColumn(block, k)
  {
  }

  lemma AllCoefficients(block: seq<int>, now: seq<int>)
    requires ColumnsForward(block, now, 8)
    ensures forall u: nat, v: nat :: u < 8 && v < 8 ==> now[8 * u + v] == Coefficient(block, u, v)
  {
    hide Coefficient;
    forall u: nat, v: nat | u < 8 && v < 8 ensures now[8 * u + v] == Coefficient(block, u, v) {
      assert ColumnOf(now, v, 8)[u] == now[8 * u + v];
    }
  }
}
