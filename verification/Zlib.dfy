/** The zlib container of RFC 1950: header, deflate data and Adler-32 checksum (lodepng.c:2067-2203). */
module Zlib {
  import opened Bits
  import opened BitStream
  import opened PrefixCode
  import opened Tokens
  import opened Blocks
  import opened Inflate
  import opened Streams

  const BASE: nat := 65521
  const WORD: nat := 0x1_0000_0000

  /** Section 2.2 of RFC 1950, one byte at a time: both sums modulo 65521. */
  function AdlerSums(s1: nat, s2: nat, data: seq<Byte>): (nat, nat)
    decreases |data|
  {
    if data == [] then (s1, s2)
    else
      var t1 := (s1 + data[0]) % BASE;
      AdlerSums(t1, (s2 + t1) % BASE, data[1..])
  }

  function Adler32(adler: nat, data: seq<Byte>): nat {
    var (s1, s2) := AdlerSums(adler % 65536, adler / 65536 % 65536, data);
    s2 * 65536 + s1
  }

  /** The sums without any reduction. */
  function RawSums(s1: nat, s2: nat, data: seq<Byte>): (nat, nat)
    decreases |data|
  {
    if data == [] then (s1, s2) else RawSums(s1 + data[0], s2 + s1 + data[0], data[1..])
  }

  lemma {:induction false} RawSumsAppend(s1: nat, s2: nat, data: seq<Byte>, b: Byte)
    ensures
      var (r1, r2) := RawSums(s1, s2, data);
      RawSums(s1, s2, data + [b]) == (r1 + b, r2 + r1 + b)
    decreases |data|
  {
    if data == [] {
      assert (data + [b])[1..] == [];
    } else {
      assert (data + [b])[1..] == data[1..] + [b];
      RawSumsAppend(s1 + data[0], s2 + s1 + data[0], data[1..], b);
    }
  }

  lemma ModAdd(a: nat, b: nat, c: nat)
    requires a % BASE == b % BASE
    ensures (a + c) % BASE == (b + c) % BASE
  {
  }

  /** Reducing only once at the end of a stretch gives the same sums. */
  lemma {:induction false} DeferredReduction(s1: nat, s2: nat, t1: nat, t2: nat, data: seq<Byte>)
    requires s1 % BASE == t1 % BASE && s2 % BASE == t2 % BASE
    ensures
      var (r1, r2) := RawSums(s1, s2, data);
      var (a1, a2) := AdlerSums(t1, t2, data);
      r1 % BASE == a1 % BASE && r2 % BASE == a2 % BASE
    ensures data != [] ==> AdlerSums(t1, t2, data).0 < BASE && AdlerSums(t1, t2, data).1 < BASE
    decreases |data|
  {
    if data != [] {
      var u1 := (t1 + data[0]) % BASE;
      ModAdd(s1, t1, data[0]);
      ModSum(s2, t2, s1 + data[0], u1);
      DeferredReduction(s1 + data[0], s2 + s1 + data[0], u1, (t2 + u1) % BASE, data[1..]);
    }
  }

  lemma ModSum(a: nat, b: nat, c: nat, d: nat)
    requires a % BASE == b % BASE && c % BASE == d % BASE
    ensures (a + c) % BASE == (b + d) % BASE == (b + d) % BASE % BASE
  {
  }

  lemma {:induction false} AdlerSumsConcat(s1: nat, s2: nat, a: seq<Byte>, b: seq<Byte>)
    ensures
      var (m1, m2) := AdlerSums(s1, s2, a);
      AdlerSums(s1, s2, a + b) == AdlerSums(m1, m2, b)
    decreases |a|
  {
    if a == [] {
      assert a + b == b;
    } else {
      assert (a + b)[1..] == a[1..] + b;
      var t1 := (s1 + a[0]) % BASE;
      AdlerSumsConcat(t1, (s2 + t1) % BASE, a[1..], b);
    }
  }

  // ---- The checksum without recursion over both sums ----

  /** The sum of the first n bytes. */
  function ByteSum(data: seq<Byte>, n: nat): nat
    requires n <= |data|
  {
    if n == 0 then 0 else ByteSum(data, n - 1) + data[n - 1]
  }

  /** The sum of the first n bytes, each as often as there are bytes from it to the end. */
  function WeightedSum(data: seq<Byte>, n: nat): nat
    requires n <= |data|
  {
    if n == 0 then 0 else WeightedSum(data, n - 1) + (|data| - (n - 1)) * data[n - 1]
  }

  lemma {:induction false} SumsOfPrefix(data: seq<Byte>, b: Byte, n: nat)
    requires n <= |data|
    ensures ByteSum(data + [b], n) == ByteSum(data, n) && WeightedSum(data + [b], n) == WeightedSum(data, n) + ByteSum(data, n)
  {
    if n > 0 {
      SumsOfPrefix(data, b, n - 1);
      assert (data + [b])[n - 1] == data[n - 1];
      TimesOneMore(|data| - (n - 1), data[n - 1]);
    }
  }

  lemma TimesOneMore(a: nat, b: nat)
    ensures (a + 1) * b == a * b + b
  {
  }

  lemma {:induction false} RawSumsClosed(s1: nat, s2: nat, data: seq<Byte>)
    ensures RawSums(s1, s2, data) == (s1 + ByteSum(data, |data|), s2 + |data| * s1 + WeightedSum(data, |data|))
    decreases |data|
  {
    if data != [] {
      var front, b := data[..|data| - 1], data[|data| - 1];
      assert data == front + [b];
      RawSumsClosed(s1, s2, front);
      RawSumsAppend(s1, s2, front, b);
      SumsOfPrefix(front, b, |front|);
      TimesOneMore(|front|, s1);
    }
  }

  /** Both halves of the checksum, from any start value. */
  lemma AdlerHalves(adler: nat, data: seq<Byte>)
    requires adler < WORD && data != []
    ensures Adler32(adler, data) % 65536 == (adler % 65536 + ByteSum(data, |data|)) % 65521
    ensures Adler32(adler, data) / 65536 == (adler / 65536 + |data| * (adler % 65536) + WeightedSum(data, |data|)) % 65521
  {
    hide RawSums, AdlerSums, ByteSum, WeightedSum;
    var s1, s2 := adler % 65536, adler / 65536;
    RawSumsClosed(s1, s2, data);
    DeferredReduction(s1, s2, s1, s2, data);
    var (a1, a2) := AdlerSums(s1, s2, data);
    DivUnique(a2 * 65536 + a1, 65536, a2, a1);
  }

  lemma AdlerOfNothing(adler: nat)
    requires adler < WORD
    ensures Adler32(adler, []) == adler
  {
  }

  /** One stretch of at most 5550 bytes: in 32-bit arithmetic neither sum wraps around. */
  method AdlerStretch(s1: nat, s2: nat, data: seq<Byte>) returns (t1: nat, t2: nat)
    requires s1 < 65536 && s2 < 65536 && 0 < |data| <= 5550
    ensures (t1, t2) == AdlerSums(s1, s2, data) && t1 < BASE && t2 < BASE
  {
    hide RawSums, AdlerSums;
    t1, t2 := AddBytes(s1, s2, data);
    DeferredReduction(s1, s2, s1, s2, data);
    t1, t2 := t1 % BASE, t2 % BASE;
    SumsReduced(s1, s2, data);
  }

  method AddBytes(s1: nat, s2: nat, data: seq<Byte>) returns (t1: nat, t2: nat)
    requires s1 < 65536 && s2 < 65536 && |data| <= 5550
    ensures (t1, t2) == RawSums(s1, s2, data)
  {
    hide RawSums, SumsBound;
    t1, t2 := s1, s2;
    RawSumsNothing(s1, s2);
    for i := 0 to |data|
      invariant (t1, t2) == RawSums(s1, s2, data[..i]) && SumsBound(t1, t2, i)
    {
      RawSumsAppend(s1, s2, data[..i], data[i]);
      assert data[..i] + [data[i]] == data[..i + 1];
      StepBound(t1, t2, i, data[i]);
      t1 := Wrapped(t1 + data[i]);
      t2 := Wrapped(t2 + t1);
    }
    assert data[..|data|] == data;
  }

  /** Unsigned arithmetic. */
  function Wrapped(n: nat): (w: nat)
    ensures n < WORD ==> w == n
  {
    n % WORD
  }

  lemma RawSumsNothing(s1: nat, s2: nat)
    ensures RawSums(s1, s2, []) == (s1, s2)
    ensures s1 < 65536 && s2 < 65536 ==> SumsBound(s1, s2, 0)
  {
  }

  lemma SumsReduced(s1: nat, s2: nat, data: seq<Byte>)
    requires data != []
    ensures
      var (a1, a2) := AdlerSums(s1, s2, data);
      a1 % BASE == a1 && a2 % BASE == a2
  {
    DeferredReduction(s1, s2, s1, s2, data);
  }

  /** How large the two sums can be after i bytes. */
  predicate SumsBound(t1: nat, t2: nat, i: nat) {
    t1 <= 65535 + 255 * i && 2 * t2 <= 2 * 65535 + i * (2 * 65535 + 255 * (i + 1))
  }

  lemma StepBound(t1: nat, t2: nat, i: nat, b: Byte)
    requires SumsBound(t1, t2, i) && i < 5550
    ensures SumsBound(t1 + b, t2 + t1 + b, i + 1) && t1 + b < WORD && t2 + t1 + b < WORD
  {
    NoWrap(i, 5550);
    Telescope(i);
  }

  lemma Telescope(i: nat)
    ensures i * (2 * 65535 + 255 * (i + 1)) + 2 * (65535 + 255 * (i + 1)) == (i + 1) * (2 * 65535 + 255 * (i + 2))
  {
  }

  lemma NoWrap(i: nat, n: nat)
    requires i < n <= 5550
    ensures 65535 + 255 * (i + 1) < WORD
    ensures 2 * 65535 + (i + 1) * (2 * 65535 + 255 * (i + 2)) < 2 * WORD
  {
    assert (i + 1) * (2 * 65535 + 255 * (i + 2)) <= 5550 * (2 * 65535 + 255 * 5551) by {
      MulBoth(i + 1, 5550, 2 * 65535 + 255 * (i + 2), 2 * 65535 + 255 * 5551);
    }
  }

  lemma MulBoth(a: nat, b: nat, c: nat, d: nat)
    requires a <= b && c <= d
    ensures a * c <= b * d
  {
    assert a * c <= b * c <= b * d;
  }

  /** update_adler32, starting from any checksum. */
  method UpdateAdler32(adler: nat, data: seq<Byte>) returns (r: nat)
    requires adler < WORD
    ensures r == Adler32(adler, data) && r < WORD
    ensures data == [] ==> r == adler
    ensures data != [] ==> r % 65536 == (adler % 65536 + ByteSum(data, |data|)) % 65521
    ensures data != [] ==> r / 65536 == (adler / 65536 + |data| * (adler % 65536) + WeightedSum(data, |data|)) % 65521
  {
    var s1, s2 := adler % 65536, adler / 65536 % 65536;
    ghost var start1, start2 := s1, s2;
    var pos := 0;
    while pos < |data|
      invariant pos <= |data| && s1 < 65536 && s2 < 65536
      invariant (s1, s2) == AdlerSums(start1, start2, data[..pos])
      decreases |data| - pos
    {
      var amount := if |data| - pos > 5550 then 5550 else |data| - pos;
      AdlerSumsConcat(start1, start2, data[..pos], data[pos..pos + amount]);
      assert data[..pos] + data[pos..pos + amount] == data[..pos + amount];
      s1, s2 := AdlerStretch(s1, s2, data[pos..pos + amount]);
      pos := pos + amount;
    }
    assert data[..pos] == data;
    r := s2 * 65536 + s1;
    if data == [] { AdlerOfNothing(adler); } else { AdlerHalves(adler, data); }
  }

  // ---- The container ----

  /** A 32-bit number, most significant byte first. */
  function BigEndian(v: nat): (s: seq<Byte>)
    requires v < WORD
    ensures |s| == 4
  {
    [v / 16777216, v / 65536 % 256, v / 256 % 256, v % 256]
  }

  function ReadBigEndian(s: seq<Byte>, p: nat): (v: nat)
    requires p + 4 <= |s|
  {
    16777216 * (s[p] as int) + 65536 * (s[p + 1] as int) + 256 * (s[p + 2] as int) + s[p + 3]
  }

  lemma ReadBigEndianBack(v: nat, before: seq<Byte>)
    requires v < WORD
    ensures ReadBigEndian(before + BigEndian(v), |before|) == v
  {
    BigEndianDigits(v);
  }

  lemma BigEndianDigits(v: nat)
    ensures v == 16777216 * (v / 16777216) + 65536 * (v / 65536 % 256) + 256 * (v / 256 % 256) + v % 256
  {
    assert v / 65536 == v / 256 / 256 && v / 16777216 == v / 256 / 256 / 256;
  }

  /** Header, compressed data, and the checksum of the uncompressed data. */
  method ZlibCompress(data: seq<Byte>, settings: CompressSettings)
    returns (error: nat, out: seq<Byte>, ghost body: seq<Byte>, ghost blocks: seq<Block>, ghost bp: nat)
    requires settings.btype == 1 ==> data != []
    ensures error == DeflateError(settings, |data|)
    ensures error == 0 ==> Adler32(1, data) < WORD && out == [120, 1] + body + BigEndian(Adler32(1, data))
    ensures error == 0 && settings.btype == 0 && data == [] ==> body == []
    ensures error == 0 && (settings.btype == 0 ==> data != []) ==>
      bp <= 8 * |body| && WrittenSoFar(data, |data|, blocks, true, StreamBits(body)[..bp])
  {
    hide WrittenSoFar, StreamBits, AdlerSums;
    var CMF: nat, FLEVEL: nat, FDICT: nat := 120, 0, 0;
    var CMFFLG: nat := 256 * CMF + FDICT * 32 + FLEVEL * 64;
    var FCHECK: nat := 31 - CMFFLG % 31;
    CMFFLG := CMFFLG + FCHECK;
    out := [CMFFLG / 256, CMFFLG % 256];
    var deflatedata;
    error, deflatedata, blocks, bp := DeflateStream(data, settings);
    body := deflatedata;
    if error == 0 {
      var ADLER32 := UpdateAdler32(1, data);
      out := out + deflatedata + BigEndian(ADLER32);
    }
  }

  /** The checks of the source in their order; a result is only given out if its checksum fits. */
  method ZlibDecompress(data: seq<Byte>, ignore_adler32: bool) returns (error: nat, out: seq<Byte>)
    ensures |data| < 2 ==> error == 53
    ensures |data| >= 2 ==>
      && ((256 * (data[0] as int) + data[1]) % 31 != 0 ==> error == 24)
      && (((256 * (data[0] as int) + data[1]) % 31 == 0 && (data[0] % 16 != 8 || data[0] / 16 > 7)) ==> error == 25)
      && (((256 * (data[0] as int) + data[1]) % 31 == 0 && data[0] % 16 == 8 && data[0] / 16 <= 7 && data[1] / 32 % 2 == 1)
           ==> error == 26)
    ensures
      && |data| >= 2 && (256 * (data[0] as int) + data[1]) % 31 == 0
      && data[0] % 16 == 8 && data[0] / 16 <= 7 && data[1] / 32 % 2 == 0
      ==>
      match ReadBlocks(StreamBits(data[2..]), [])
      case Err(e) => error == e
      case Ok(result) =>
        && |data| >= 4 && out == result
        && error == if ignore_adler32 || Adler32(1, result) == ReadBigEndian(data, |data| - 4) then 0 else 58
  {
    hide ReadBlocks, StreamBits, AdlerSums;
    out := [];
    if |data| < 2 { return 53, out; }
    if (256 * (data[0] as int) + data[1]) % 31 != 0 { return 24, out; }
    var CM, CINFO, FDICT := data[0] % 16, data[0] / 16 % 16, data[1] / 32 % 2;
    if CM != 8 || CINFO > 7 { return 25, out; }
    if FDICT != 0 { return 26, out; }
    var decoder := new Inflator(data[2..]);
    error := decoder.InflateStream();
    out := decoder.out;
    if error != 0 { return; }
    if !ignore_adler32 {
      var ADLER32 := ReadBigEndian(data, |data| - 4);
      var checksum := UpdateAdler32(1, out);
      if checksum != ADLER32 { return 58, out; }
    }
  }

  /** A stream still decodes to the data when other bytes follow it. */
  lemma StreamDecodesBefore(data: seq<Byte>, blocks: seq<Block>, body: seq<Byte>, bp: nat, after: seq<Byte>)
    requires bp <= 8 * |body| && WrittenSoFar(data, |data|, blocks, true, StreamBits(body)[..bp])
    ensures ReadBlocks(StreamBits(body + after), []) == Ok(data)
  {
    hide ReadBlocks, WrittenSoFar, StreamBits;
    StreamBitsConcat(body, after);
    assert StreamBits(body + after)[..bp] == StreamBits(body)[..bp];
    StreamDecodes(data, blocks, body + after, bp);
  }

  /** The checksum of nothing starts like a stored block that is cut short. */
  lemma ChecksumIsNoBlock()
    ensures Adler32(1, []) == 1 && BigEndian(1) == [0, 0, 0, 1]
    ensures ReadBlocks(StreamBits(BigEndian(1)), []) == Err(52)
  {
    hide ReadBlocks;
    CutShort(StreamBits([0, 0, 0, 1]));
  }

  /**
   * Whatever the checksum policy, decompressing what was compressed gives the data back, with the
   * one exception of stored mode and empty input.
   */
  method ZlibRoundTrip(data: seq<Byte>, settings: CompressSettings, ignore_adler32: bool)
    returns (error: nat, result: seq<Byte>)
    requires settings.btype == 1 ==> data != []
    requires DeflateError(settings, |data|) == 0
    ensures error == 0 <==> (settings.btype == 0 ==> data != [])
    ensures error == 0 ==> result == data
  {
    hide ReadBlocks, StreamBits, WrittenSoFar, AdlerSums;
    var compressed;
    ghost var body, blocks, bp;
    error, compressed, body, blocks, bp := ZlibCompress(data, settings);
    ghost var after := BigEndian(Adler32(1, data));
    assert compressed[2..] == body + after;
    if settings.btype == 0 && data == [] {
      ChecksumIsNoBlock();
      assert compressed[2..] == after;
    } else {
      StreamDecodesBefore(data, blocks, body, bp, after);
      ReadBigEndianBack(Adler32(1, data), [120, 1] + body);
    }
    error, result := ZlibDecompress(compressed, ignore_adler32);
  }
}
