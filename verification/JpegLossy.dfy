/**
 * From samples to quantized coefficients and through the codec back to samples
 * (compositor/jpge.cpp:399-413, 510-521, 570-596, 719-728, compositor/jpgd.cpp:1495-1506, 1757-1854).
 */
module JpegLossy {
  import opened Bits
  import opened Canonical
  import opened JpegZigzag
  import opened JpegIdct
  import opened JpegBlocks
  import opened JpegBlockDecode
  import opened JpegScan
  import opened JpegRoundTrip
  import opened JpegDct
  import opened JpegNear

  // ---- Quantization ----

  /** A quantization table as files carry them. */
  predicate QuantTable(q: seq<int>) { |q| == 64 && forall i :: 0 <= i < 64 ==> 1 <= q[i] <= 255 }

  /** How many percent of the standard table a quality takes. */
  function Percent(quality: nat): nat
    requires 1 <= quality <= 100
  {
    if quality < 50 then 5000 / quality else 200 - quality * 2
  }

  function QuantEntry(v: nat, quality: nat): (e: int)
    requires 1 <= quality <= 100
    ensures 1 <= e <= 255
  {
    var j := (v * Percent(quality) + 50) / 100;
    if j < 1 then 1 else if j > 255 then 255 else j
  }

  /**
   * Better quality never means a coarser table; quality 50 is the standard table, 25 twice and 75 half of it, and at 100 nothing
   * is quantized.
   */
  lemma BetterIsFiner(v: nat, a: nat, b: nat)
    requires 1 <= a <= b <= 100
    ensures QuantEntry(v, b) <= QuantEntry(v, a)
    ensures QuantEntry(v, 100) == 1 && (1 <= v <= 255 ==> QuantEntry(v, 50) == v)
    ensures 1 <= v <= 127 ==> QuantEntry(v, 25) == 2 * v && QuantEntry(v, 75) == (v + 1) / 2
  {
    PercentFalls(a, b);
    MulUp(v, Percent(b), Percent(a));
  }

  lemma PercentFalls(a: nat, b: nat)
    requires 1 <= a <= b <= 100
    ensures Percent(b) <= Percent(a) && Percent(50) == 100 && Percent(100) == 0
  {
    var p := Percent(a);
    if a < 50 {
      assert 5000 == 5000 / a * a + 5000 % a;
      TimesPlusOne(p, a);
      if b < 50 {
        assert 5000 == 5000 / b * b + 5000 % b;
        MulUp(p + 1, a, b);
        CancelMulStrict(Percent(b), p + 1, b);
      } else {
        CancelMulStrict(100, p + 1, a);
      }
    }
  }

  lemma MulUp(v: nat, a: nat, b: nat)
    requires a <= b
    ensures v * a <= v * b
  {
  }

  /** compute_quant_table: the standard table scaled by the quality. */
  method ComputeQuantTable(quality: nat, pSrc: seq<nat>) returns (q: seq<int>)
    requires 1 <= quality <= 100 && |pSrc| == 64
    ensures QuantTable(q) && forall i :: 0 <= i < 64 ==> q[i] == QuantEntry(pSrc[i], quality)
  {
    var factor: nat := if quality < 50 then 5000 / quality else 200 - quality * 2;
    q := [];
    for i := 0 to 64
      invariant |q| == i && forall k :: 0 <= k < i ==> q[k] == QuantEntry(pSrc[k], quality)
    {
      var j: int := (pSrc[i] * factor + 50) / 100;
      j := if j < 1 then 1 else j;
      q := q + [if j > 255 then 255 else j];
    }
  }

  /** c * q is the multiple of q nearest to v, of two the one further from zero. */
  predicate NearestMultiple(v: int, q: int, c: int) {
    2 * Magnitude(v - c * q) <= q && (2 * Magnitude(v - c * q) == q ==> Magnitude(c * q) > Magnitude(v))
  }

  /** Signed coefficients that 16 bits hold with room to spare. */
  predicate Moderate(p: seq<int>) { |p| == 64 && forall z :: 0 <= z < 64 ==> Magnitude(p[z]) <= 1024 }

  /** In zigzag order the nearest multiples of the table's entries. */
  ghost predicate Quantized(p: seq<int>, q: seq<int>, c: seq<int>, n: nat) {
    && |p| == 64 == |q| && n <= |c| && n <= 64
    && forall i: nat {:trigger Zag(i)} :: i < n ==> Zag(i) < 64 && NearestMultiple(p[Zag(i)], q[i], c[i]) && Magnitude(c[i]) <= Magnitude(p[Zag(i)])
  }

  function Quotient(v: nat, q: nat): nat
    requires q >= 1
  {
    (v + q / 2) / q
  }

  lemma RoundedUp(v: nat, q: nat)
    requires q >= 1
    ensures NearestMultiple(v, q, Quotient(v, q)) && Quotient(v, q) <= v && (v + q / 2 < q ==> Quotient(v, q) == 0)
  {
    var w := v + q / 2;
    var c := w / q;
    assert w == c * q + w % q;
    if w < q { DivUnique(w, q, 0, w); }
    if c > v {
      MulAtLeast(c - v, q);
      assert (c - v) * q == c * q - v * q;
      MulUp(v, 1, q);
    }
  }

  lemma Mirrored(v: int, q: int, c: int)
    requires NearestMultiple(v, q, c)
    ensures NearestMultiple(-v, q, -c)
  {
    assert (-c) * q == -(c * q);
  }

  lemma QuotientIs(v: nat, q: nat)
    requires q >= 1
    ensures Quotient(v, q) == (v + q / 2) / q
  {
  }

  /** One coefficient, as the source divides it. */
  method Quantize(v: int, q: int) returns (c: int)
    requires Magnitude(v) <= 1024 && 1 <= q <= 255
    ensures NearestMultiple(v, q, c) && Magnitude(c) <= Magnitude(v)
  {
    hide NearestMultiple, Cast16, Quotient;
    var j := v;
    ghost var size: int := Quotient(Magnitude(v), q);
    RoundedUp(Magnitude(v), q);
    CastKeeps(size);
    CastKeeps(-size);
    if j < 0 {
      j := -j + q / 2;
      QuotientIs(j - q / 2, q);
      c := if j < q then 0 else Cast16(-(j / q));
      Mirrored(-v, q, size);
    } else {
      j := j + q / 2;
      QuotientIs(j - q / 2, q);
      c := if j < q then 0 else Cast16(j / q);
    }
  }

  /** load_quantized_coefficients. */
  method LoadQuantizedCoefficients(m_sample_array: array<int>, q: seq<int>) returns (c: seq<int>)
    requires m_sample_array.Length == 64 && Moderate(m_sample_array[..]) && QuantTable(q)
    ensures |c| == 64 && Quantized(m_sample_array[..], q, c, 64)
  {
    hide Zag, NearestMultiple, Magnitude;
    c := [];
    for i := 0 to 64
      invariant |c| == i && Quantized(m_sample_array[..], q, c, i)
    {
      ZagPlace(i);
      assert Magnitude(m_sample_array[..][Zag(i)]) <= 1024;
      var next := Quantize(m_sample_array[Zag(i)], q[i]);
      c := c + [next];
    }
  }

  lemma CastKeeps(v: int)
    requires -32768 <= v < 32768
    ensures Cast16(v) == v
  {
  }

  // ---- One block ----

  /** load_block: samples around zero. */
  function Centered(samples: seq<Byte>): (block: seq<int>)
    ensures |block| == |samples|
  {
    seq(|samples|, i requires 0 <= i < |samples| => samples[i] as int - 128)
  }

  lemma CenteredSmall(samples: seq<Byte>)
    ensures Samples(Centered(samples))
  {
  }

  /** All coefficients of a block. */
  function Coefficients(block: seq<int>): (p: seq<int>)
    requires |block| == 64
    ensures |p| == 64
  {
    seq(64, z requires 0 <= z < 64 => Coefficient(block, z / 8, z % 8))
  }

  lemma CoefficientsModerate(block: seq<int>)
    requires |block| == 64 && Samples(block)
    ensures Moderate(Coefficients(block)) && Coefficients(block)[0] <= 1016
  {
    hide Analysis, RowColumn;
    forall z | 0 <= z < 64 ensures Magnitude(Coefficients(block)[z]) <= 1024 {
      ColumnIsSmall(block, z % 8);
      AnalysisBound(RowColumn(block, z % 8), z / 8, 4096);
    }
    FirstCoefficient(block);
  }

  lemma FirstCoefficient(block: seq<int>)
    requires |block| == 64 && Samples(block)
    ensures Coefficient(block, 0, 0) <= 1016
  {
    hide Analysis, RowTransform;
    var x := RowColumn(block, 0);
    EvenAnalysis(x);
    forall r: nat | r < 8 ensures x[r] <= 4064 { FirstOfRow(RowOf(block, r)); }
  }

  lemma FirstOfRow(s: seq<int>)
    requires |s| == 8 && Samples(s)
    ensures RowTransform(s)[0] <= 4064
  {
    hide Analysis;
    EvenAnalysis(s);
  }

  /** What the encoder makes of a block of samples. */
  ghost predicate CodedFrom(samples: seq<Byte>, q: seq<int>, c: seq<int>) {
    |samples| == 64 == |c| && Quantized(Coefficients(Centered(samples)), q, c, 64)
  }

  /** code_block up to the entropy coder: load, transform, quantize. */
  method CodeSamples(samples: seq<Byte>, q: seq<int>) returns (c: seq<int>)
    requires |samples| == 64 && QuantTable(q)
    ensures CodedFrom(samples, q, c)
  {
    hide Coefficient, Quantized;
    var m_sample_array := new int[64];
    for i := 0 to 64
      invariant forall k :: 0 <= k < i ==> m_sample_array[k] == Centered(samples)[k]
    {
      m_sample_array[i] := samples[i] as int - 128;
    }
    ghost var block := Centered(samples);
    assert m_sample_array[..] == block;
    CenteredSmall(samples);
    DCT2D(m_sample_array);
    CoefficientsModerate(block);
    assert m_sample_array[..] == Coefficients(block) by {
      forall z | 0 <= z < 64 ensures m_sample_array[z] == Coefficients(block)[z] { assert z == 8 * (z / 8) + z % 8; }
    }
    c := LoadQuantizedCoefficients(m_sample_array, q);
  }

  lemma CodedRange(samples: seq<Byte>, q: seq<int>, c: seq<int>)
    requires CodedFrom(samples, q, c) && QuantTable(q)
    ensures ValidBlock(c) && FirstInRange(c)
  {
    hide Coefficient, NearestMultiple, Magnitude, Zag;
    var p := Coefficients(Centered(samples));
    CenteredSmall(samples);
    CoefficientsModerate(Centered(samples));
    forall k | 0 <= k < 64 ensures Magnitude(c[k]) <= 1024 { assert Magnitude(c[k]) <= Magnitude(p[Zag(k)]); }
    FirstCovered();
    SignKept(p[0], q[0], c[0]);
    Magnitudes();
  }

  lemma Magnitudes()
    ensures forall v :: Magnitude(v) == if v < 0 then -v else v
  {
  }

  lemma SignKept(v: int, q: int, c: int)
    requires NearestMultiple(v, q, c) && q >= 1 && Magnitude(c) <= Magnitude(v) <= 1024 && v <= 1016
    ensures -1024 <= c <= 1016
  {
    if v >= 0 && c < 0 { MulAtLeast(c, q); }
    if v < 0 && c > 0 { MulAtLeast(c, q); }
  }

  // ---- Back again ----

  lemma DecodedEntry(v: int, q: int, c: int, h: nat)
    requires NearestMultiple(v, q, c) && 1 <= q <= 255 && Magnitude(v) <= 1024 && q <= 2 * h + 1
    ensures Magnitude(Cast16(c * q) - v) <= h
  {
    hide Cast16;
    CastKeeps(c * q);
  }

  /** What the decoder leaves is the coefficient up to half of the table's entry. */
  lemma DecodedWithin(samples: seq<Byte>, q: seq<int>, c: seq<int>, d: seq<int>, h: nat)
    requires CodedFrom(samples, q, c) && QuantTable(q) && Recovered(d, 0, c, q) && |d| == 64
    requires forall i :: 0 <= i < 64 ==> q[i] <= 2 * h + 1
    ensures Within(Centered(samples), d, h)
  {
    hide Coefficient, NearestMultiple, Magnitude, Zag, Place, Cast16;
    var block := Centered(samples);
    CenteredSmall(samples);
    CoefficientsModerate(block);
    forall u: nat, v: nat | u < 8 && v < 8 ensures Magnitude(CoefAt(d, u, v) - Coefficient(block, u, v)) <= h {
      var z := 8 * u + v;
      DivUnique(z, 8, u, v);
      PlaceZag(z);
      var i := Place(z);
      assert NearestMultiple(Coefficients(block)[Zag(i)], q[i], c[i]) && d[0 + Zag(i)] == Cast16(c[i] * q[i]);
      DecodedEntry(Coefficients(block)[z], q[i], c[i], h);
    }
  }

  /** No sample is further than e from what it was. */
  ghost predicate Close(samples: seq<Byte>, out: seq<Byte>, e: nat) {
    |samples| == |out| && forall k :: 0 <= k < |out| ==> Magnitude(out[k] as int - samples[k]) <= e
  }

  lemma TransformedClose(samples: seq<Byte>, d: seq<int>, out: seq<Byte>, h: nat)
    requires |samples| == 64 && Within(Centered(samples), d, h) && Transformed(d, out)
    ensures Close(samples, out, 4 + 7 * h)
  {
    hide Sample, Magnitude, Within;
    CenteredSmall(samples);
    forall k | 0 <= k < 64 ensures Magnitude(out[k] as int - samples[k]) <= 4 + 7 * h {
      var r, j := k / 8, k % 8;
      assert k == 8 * r + j;
      SampleBack(Centered(samples), d, h, r, j);
      assert out[8 * r + j] == Sample(d, r, j);
    }
  }

  // ---- The codec ----

  ghost predicate AllCoded(samples: seq<seq<Byte>>, comps: seq<nat>, q: seq<seq<int>>, blocks: seq<Block>) {
    && |blocks| <= |samples| == |comps|
    && forall i :: 0 <= i < |blocks| ==> comps[i] < |q| && blocks[i].comp == comps[i] && CodedFrom(samples[i], q[comps[i]], blocks[i].c)
  }

  predicate QuantTables(q: seq<seq<int>>) { |q| == 3 && forall comp :: 0 <= comp < 3 ==> QuantTable(q[comp]) }

  method CodeAll(samples: seq<seq<Byte>>, comps: seq<nat>, q: seq<seq<int>>) returns (blocks: seq<Block>)
    requires |comps| == |samples| && QuantTables(q)
    requires forall i :: 0 <= i < |samples| ==> |samples[i]| == 64 && comps[i] < 3
    ensures |blocks| == |samples| && AllCoded(samples, comps, q, blocks)
  {
    hide CodedFrom;
    blocks := [];
    for i := 0 to |samples|
      invariant |blocks| == i && AllCoded(samples, comps, q, blocks)
    {
      var c := CodeSamples(samples[i], q[comps[i]]);
      blocks := blocks + [Block(comps[i], c)];
    }
  }

  predicate FirstInRange(c: seq<int>) { c != [] && -1024 <= c[0] <= 1016 }

  /** Such blocks are what the scan's coder asks for: baseline differences of first coefficients. */
  lemma CodedValid(samples: seq<seq<Byte>>, comps: seq<nat>, q: seq<seq<int>>, blocks: seq<Block>)
    requires AllCoded(samples, comps, q, blocks) && QuantTables(q)
    ensures ValidScan(blocks) && SmallDifferences(blocks)
  {
    hide CodedFrom, ValidBlock, DiffItem, LastDc;
    forall i | 0 <= i < |blocks| ensures ValidBlock(blocks[i].c) && FirstInRange(blocks[i].c) {
      CodedRange(samples[i], q[comps[i]], blocks[i].c);
    }
    forall i | 0 <= i < |blocks| ensures blocks[i].c != [] && DiffItem(blocks[..i], blocks[i]).nbits < 12 {
      forall j | 0 <= j < i ensures FirstInRange(blocks[..i][j].c) { assert blocks[..i][j] == blocks[j]; }
      LastDcRange(blocks[..i], blocks[i].comp);
      SmallDiff(blocks[..i], blocks[i]);
    }
  }

  lemma {:induction false} LastDcRange(blocks: seq<Block>, comp: nat)
    requires forall i :: 0 <= i < |blocks| ==> FirstInRange(blocks[i].c)
    ensures -1024 <= LastDc(blocks, comp) <= 1016
  {
    if blocks != [] { LastDcRange(blocks[..|blocks| - 1], comp); }
  }

  lemma SmallDiff(blocks: seq<Block>, b: Block)
    requires FirstInRange(b.c) && -1024 <= LastDc(blocks, b.comp) <= 1016
    ensures DiffItem(blocks, b).nbits < 12
  {
    hide BitLength, LastDc, ExtraBits;
    assert Pow2(11) == 2048;
    BitLengthAtMost(Magnitude(b.c[0] - LastDc(blocks, b.comp)), 11);
  }

  /**
   * Samples through forward transform, quantization and both passes of the encoder, then through the decoder. Whatever
   * output is the inverse transform of what was decoded (as `JpegTransform.TransformMcu` makes it) has every sample
   * within 4 of the original, and within 4 + 7 h with table entries of up to 2 h + 1.
   */
  method CompressDecompress(samples: seq<seq<Byte>>, mcus: nat, mcu_org: seq<nat>, comps: seq<nat>, q: seq<seq<int>>, h: nat)
    returns (ok: bool, error: bool, decoded: seq<seq<int>>)
    requires |comps| == |samples| == mcus * |mcu_org| && 63 * |samples| < 0xFFFF_FFFF && QuantTables(q)
    requires forall i :: 0 <= i < |samples| ==> |samples[i]| == 64
    requires forall slot :: 0 <= slot < |mcu_org| ==> mcu_org[slot] < 3
    requires forall i :: 0 <= i < |comps| ==> |mcu_org| > 0 && comps[i] == mcu_org[i % |mcu_org|]
    requires forall comp, i :: 0 <= comp < 3 && 0 <= i < 64 ==> q[comp][i] <= 2 * h + 1
    ensures |samples| <= MOST_BLOCKS ==> ok
    ensures ok ==> !error && |decoded| == |samples|
    ensures ok ==> forall i, out: seq<Byte> :: 0 <= i < |samples| && Transformed(decoded[i], out) ==> Close(samples[i], out, 4 + 7 * h)
  {
    hide CodedFrom, ValidScan, SmallDifferences, Recovered, ShortCodes, Transformed, Close, Within;
    var blocks := CodeAll(samples, comps, q);
    CodedValid(samples, comps, q, blocks);
    ok, error, decoded := RoundTrip(blocks, mcus, mcu_org, q);
    if ok {
      forall i, out: seq<Byte> | 0 <= i < |samples| && Transformed(decoded[i], out) ensures Close(samples[i], out, 4 + 7 * h) {
        assert QuantTable(q[comps[i]]);
        TransformedSize(decoded[i], out);
        DecodedWithin(samples[i], q[comps[i]], blocks[i].c, decoded[i], h);
        TransformedClose(samples[i], decoded[i], out, h);
      }
    }
  }

  lemma TransformedSize(d: seq<int>, out: seq<Byte>)
    requires Transformed(d, out)
    ensures |d| == 64
  {
  }
}