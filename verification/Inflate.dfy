/** The decompressor of lodepng.c:954-1258: on every input it returns what the reference decoder returns, output or error. */
module Inflate {
  import opened Bits
  import opened BitStream
  import opened PrefixCode
  import opened Canonical
  import opened CodeTrees
  import opened HuffmanTrees
  import opened Tokens
  import opened CodeLengths
  import opened Format
  import opened Blocks

  const FIRST_LENGTH_CODE_INDEX: nat := 257
  const LAST_LENGTH_CODE_INDEX: nat := 285

  method GenerateFixedLitLenTree(tree: HuffmanTree)
    modifies tree
    ensures tree.Ready() && tree.lengths == FixedLitLenLengths()
  {
    var bitlen := new nat[NUM_DEFLATE_CODE_SYMBOLS];
    for i := 0 to 144 invariant forall k :: 0 <= k < i ==> bitlen[k] == 8 { bitlen[i] := 8; }
    for i := 144 to 256
      invariant forall k :: 0 <= k < 144 ==> bitlen[k] == 8
      invariant forall k :: 144 <= k < i ==> bitlen[k] == 9
    { bitlen[i] := 9; }
    for i := 256 to 280
      invariant forall k :: 0 <= k < 256 ==> bitlen[k] == if k < 144 then 8 else 9
      invariant forall k :: 256 <= k < i ==> bitlen[k] == 7
    { bitlen[i] := 7; }
    for i := 280 to 288
      invariant forall k :: 0 <= k < 280 ==> bitlen[k] == if k < 144 then 8 else if k < 256 then 9 else 7
      invariant forall k :: 280 <= k < i ==> bitlen[k] == 8
    { bitlen[i] := 8; }
    assert bitlen[..] == FixedLitLenLengths();
    FixedCodesComplete();
    var error := tree.MakeFromLengths(bitlen[..], 15);
  }

  method GenerateFixedDistanceTree(tree: HuffmanTree)
    modifies tree
    ensures tree.Ready() && tree.lengths == FixedDistanceLengths()
  {
    var bitlen := new nat[NUM_DISTANCE_SYMBOLS];
    for i := 0 to NUM_DISTANCE_SYMBOLS invariant forall k :: 0 <= k < i ==> bitlen[k] == 5 { bitlen[i] := 5; }
    assert bitlen[..] == FixedDistanceLengths();
    FixedCodesComplete();
    var error := tree.MakeFromLengths(bitlen[..], 15);
  }

  /** j can be reached from k by going back whole distances. */
  ghost predicate Aligned(j: int, k: int, distance: nat)
    decreases k - j
  {
    j == k || (distance > 0 && j <= k - distance && Aligned(j, k - distance, distance))
  }

  lemma {:induction false} AlignedEqual(out: seq<Byte>, start: nat, distance: nat, j: nat, k: nat)
    requires 0 < distance <= start && start - distance <= j <= k < |out| && Aligned(j, k, distance)
    requires forall i :: start <= i < |out| ==> out[i] == out[i - distance]
    ensures out[j] == out[k]
    decreases k - j
  {
    if j != k { AlignedEqual(out, start, distance, j, k - distance); }
  }

  lemma {:induction false} AlignedShift(j: int, k: int, distance: nat)
    requires Aligned(j, k, distance)
    ensures Aligned(j + 1, k + 1, distance)
    decreases k - j
  {
    if j != k { AlignedShift(j, k - distance, distance); }
  }

  lemma {:induction false} AlignedBack(j: int, k: int, distance: nat)
    requires Aligned(j, k, distance) && distance > 0
    ensures Aligned(j - distance, k, distance)
    decreases k - j
  {
    if j != k {
      AlignedBack(j, k - distance, distance);
      AlignedOrder(j, k - distance, distance);
    }
  }

  lemma {:induction false} AlignedOrder(j: int, k: int, distance: nat)
    requires Aligned(j, k, distance)
    ensures j <= k
    decreases k - j
  {
    if j != k { AlignedOrder(j, k - distance, distance); }
  }

  /** The code length code lengths in the first i places of the transmitted order. */
  ghost predicate ClclRead(now: seq<nat>, rest: BitString, hclen: nat, i: nat) {
    && |now| == 19 && 3 * hclen <= |rest| && (forall k :: 0 <= k < 19 ==> now[k] <= 7)
    && forall k :: 0 <= k < 19 && CLCL_PLACE[k] < i ==>
         now[k] == (if CLCL_PLACE[k] < hclen then Value(rest[3 * CLCL_PLACE[k]..3 * CLCL_PLACE[k] + 3]) else 0)
  }

  lemma NoClclRead(now: seq<nat>, rest: BitString, hclen: nat)
    requires |now| == 19 && 3 * hclen <= |rest| && forall k :: 0 <= k < 19 ==> now[k] == 0
    ensures ClclRead(now, rest, hclen, 0)
  {
  }

  lemma NextClclRead(now: seq<nat>, rest: BitString, hclen: nat, i: nat, value: nat)
    requires ClclRead(now, rest, hclen, i) && i < 19 && value <= 7
    requires value == if i < hclen then Value(rest[3 * i..3 * i + 3]) else 0
    ensures |CLCL_ORDER| == 19 && CLCL_ORDER[i] < |now| && ClclRead(now[CLCL_ORDER[i] := value], rest, hclen, i + 1)
  {
    hide Value;
    ClclOrderInverse(i);
    forall k | 0 <= k < 19 && CLCL_PLACE[k] == i ensures k == CLCL_ORDER[i] { ClclOrderInverse(k); }
  }

  lemma AllClclRead(now: seq<nat>, rest: BitString, hclen: nat)
    requires ClclRead(now, rest, hclen, 19)
    ensures 3 * hclen <= |rest| && now == ReadClcl(rest, hclen) && LengthsWithin(now, 7)
  {
    hide Value;
    forall k | 0 <= k < 19 ensures CLCL_PLACE[k] < 19 { ClclOrderInverse(k); }
  }

  class Inflator {
    const data: seq<Byte>
    var bp: nat
    var out: seq<Byte>

    constructor (data: seq<Byte>)
      ensures this.data == data && bp == 0 && out == []
    {
      this.data := data;
      bp, out := 0, [];
    }

    ghost predicate Valid()
      reads this`bp
    {
      bp <= 8 * |data|
    }

    /** The bits not read yet. */
    ghost function Rest(): (s: BitString)
      requires Valid()
      reads this`bp
      ensures |s| == 8 * |data| - bp
    {
      StreamBits(data)[bp..]
    }

    /** The overlapping copy of a match: the source position wraps instead of running into the copy. */
    method CopyMatch(length: nat, distance: nat)
      requires Valid() && 1 <= distance <= |out|
      modifies this`out
      ensures out == CopyBack(old(out), length, distance)
    {
      ghost var before := out;
      var start := |out|;
      var backward: nat := start - distance;
      for forward := 0 to length
        invariant out == CopyBack(before, forward, distance) && |out| == start + forward
        invariant start - distance <= backward < start
        invariant Aligned(backward, |out| - distance, distance)
      {
        CopyIsPeriodic(before, forward, distance);
        AlignedOrder(backward, |out| - distance, distance);
        AlignedEqual(out, start, distance, backward, |out| - distance);
        CopyBackStep(before, forward, distance);
        out := out + [out[backward]];
        AlignedShift(backward, |out| - 1 - distance, distance);
        backward := backward + 1;
        if backward >= start {
          AlignedBack(backward, |out| - distance, distance);
          backward := start - distance;
        }
      }
    }

    /** Decodes one symbol, advancing the bit pointer. */
    method Decode(tree: HuffmanTree) returns (symbol: int)
      requires Valid() && tree.Ready()
      modifies this`bp
      ensures Valid() && old(bp) <= bp && tree.lengths != []
      ensures match NextSymbol(Codes(tree.lengths), old(Rest()))
        case Some((s, rest)) => symbol == s < |tree.lengths| && Rest() == rest
        case None => symbol == -1
    {
      hide StreamBits, NextSymbol, Codes;
      symbol, bp := tree.DecodeSymbol(data, bp);
    }

    /** base plus n extra bits; the caller's error code if the stream is too short. */
    method ReadExtraBits(base: nat, n: nat) returns (ok: bool, value: nat)
      requires Valid()
      modifies this`bp
      ensures Valid() && old(bp) <= bp
      ensures ok ==> base <= value < base + Pow2(n)
      ensures match ReadExtra(old(Rest()), base, n)
        case Some((v, rest)) => ok && value == v && Rest() == rest
        case None => !ok
    {
      ok := bp + n <= 8 * |data|;
      value := 0;
      if ok {
        ghost var s := StreamBits(data);
        var extra := ReadBits(data, bp, n);
        assert s[bp..][..n] == s[bp..bp + n] && s[bp..][n..] == s[bp + n..];
        value := base + extra;
        bp := bp + n;
      }
    }

    /** The rest of a match after its length symbol. An unusable distance symbol is always error 18. */
    method InflateMatch(index: nat, tree_d: HuffmanTree) returns (error: nat)
      requires Valid() && tree_d.Ready() && index < 29
      modifies this`bp, this`out
      ensures Valid() && tree_d.lengths != []
      ensures match ReadMatch(Codes(tree_d.lengths), index, old(Rest()))
        case Err(e) => error == e
        case Ok((t, rest)) =>
          if ValidToken(t, |old(out)|) then error == 0 && Rest() == rest && out == Apply(old(out), t) else error == 52
    {
      hide NextSymbol, ReadExtra, Codes, HuffmanTree.Ready, StreamBits, CopyBack, Pow2, Rest;
      LengthRange(index);
      var ok, length := ReadExtraBits(LENGTHBASE[index], LENGTHEXTRA[index]);
      if !ok {
        ReadyIsUsed(tree_d);
        return 51;
      }
      var code_d := Decode(tree_d);
      if code_d < 0 || code_d > 29 { return 18; }
      DistanceRange(code_d);
      var distance;
      ok, distance := ReadExtraBits(DISTANCEBASE[code_d], DISTANCEEXTRA[code_d]);
      if !ok { return 51; }
      if distance > |out| { return 52; }
      CopyMatch(length, distance);
      error := 0;
    }

    /** One turn of the decoding loop: a literal, a whole match, or the end code, as reference reading has it. */
    method InflateItem(tree_ll: HuffmanTree, tree_d: HuffmanTree) returns (error: nat, end: bool)
      requires Valid() && tree_ll.Ready() && tree_d.Ready()
      modifies this`bp, this`out
      ensures Valid() && tree_ll.lengths != [] && tree_d.lengths != []
      ensures match ReadItem(Codes(tree_ll.lengths), Codes(tree_d.lengths), old(Rest()))
        case Err(e) => error == e
        case Ok((End, rest)) => error == 0 && end && Rest() == rest && out == old(out)
        case Ok((Item(t), rest)) =>
          if ValidToken(t, |old(out)|) then error == 0 && !end && Rest() == rest && out == Apply(old(out), t)
          else error == 52
    {
      hide NextSymbol, ReadMatch, Codes, HuffmanTree.Ready, StreamBits, CopyBack, Rest;
      error, end := 0, false;
      ReadyIsUsed(tree_d);
      var code_ll := Decode(tree_ll);
      if 0 <= code_ll <= 255 {
        out := out + [code_ll];
      } else if FIRST_LENGTH_CODE_INDEX <= code_ll <= LAST_LENGTH_CODE_INDEX {
        error := InflateMatch(code_ll - FIRST_LENGTH_CODE_INDEX, tree_d);
      } else if code_ll == 256 {
        end := true;
      } else {
        if bp > 8 * |data| { assert false; }
        error := 11;
      }
    }

    /** Decodes up to the end code, as reference decoding does, on every input. */
    method InflateTokens(tree_ll: HuffmanTree, tree_d: HuffmanTree) returns (error: nat)
      requires Valid() && tree_ll.Ready() && tree_d.Ready()
      modifies this`bp, this`out
      ensures Valid() && tree_ll.lengths != [] && tree_d.lengths != []
      ensures match ReadTokens(Codes(tree_ll.lengths), Codes(tree_d.lengths), old(Rest()), old(out))
        case Err(e) => error == e
        case Ok((rest, out')) => error == 0 && Rest() == rest && out == out'
    {
      hide ReadItem, Codes, HuffmanTree.Ready, Rest, Apply;
      ReadyIsUsed(tree_ll);
      ReadyIsUsed(tree_d);
      ghost var ll, d := Codes(tree_ll.lengths), Codes(tree_d.lengths);
      ghost var expected := ReadTokens(ll, d, Rest(), out);
      var end := false;
      error := 0;
      while !end
        invariant Valid() && tree_ll.Ready() && tree_d.Ready()
        invariant expected == if end then Ok((Rest(), out)) else ReadTokens(ll, d, Rest(), out)
        decreases !end, 8 * |data| - bp
      {
        error, end := InflateItem(tree_ll, tree_d);
        if error != 0 { return; }
      }
    }

    /** A stored body, with the error codes of the source for every input. */
    method InflateNoCompression() returns (error: nat)
      requires Valid()
      modifies this
      ensures Valid() && old(bp) <= bp
      ensures
        var p := (old(bp) + 7) / 8;
        var header := p + 4 < |data|;
        && (error == 52 <==> !header)
        && (error == 21 <==> header && Word(data, p) + Word(data, p + 2) != 65535)
        && (error == 23 <==> header && Word(data, p) + Word(data, p + 2) == 65535 && p + 4 + Word(data, p) > |data|)
        && (error == 0 <==> error !in {52, 21, 23})
        && (error == 0 ==>
              out == old(out) + data[p + 4..p + 4 + Word(data, p)] && bp == 8 * (p + 4 + Word(data, p)))
    {
      error := 0;
      while bp % 8 != 0
        invariant Valid() && old(bp) <= bp && (bp + 7) / 8 == (old(bp) + 7) / 8
        invariant out == old(out)
        decreases 8 * |data| - bp
      {
        bp := bp + 1;
      }
      var p := bp / 8;
      if p + 4 >= |data| { return 52; }
      var LEN := Word(data, p);
      p := p + 2;
      var NLEN := Word(data, p);
      p := p + 2;
      if LEN + NLEN != 65535 { return 21; }
      if p + LEN > |data| { return 23; }
      for n := 0 to LEN
        invariant out == old(out) + data[p..p + n]
      {
        assert data[p..p + n + 1] == data[p..p + n] + [data[p + n]];
        out := out + [data[p + n]];
      }
      bp := (p + LEN) * 8;
    }

    /** The code lengths of the code length alphabet, three bits each, in their fixed order. */
    method ReadClclLengths(hclen: nat) returns (cl: seq<nat>)
      requires Valid() && 4 <= hclen <= 19 && bp + 3 * hclen <= 8 * |data|
      modifies this`bp
      ensures Valid() && old(bp) <= bp && Rest() == old(Rest())[3 * hclen..]
      ensures cl == ReadClcl(old(Rest()), hclen) && LengthsWithin(cl, 7)
    {
      hide StreamBits, Value, Pow2, ClclRead, CLCL_ORDER;
      ghost var rest := Rest();
      var bitlen_cl := new nat[19](_ => 0);
      NoClclRead(bitlen_cl[..], rest, hclen);
      for i := 0 to 19
        invariant Valid() && bp == old(bp) + 3 * (if i < hclen then i else hclen)
        invariant ClclRead(bitlen_cl[..], rest, hclen, i)
      {
        ClclOrderInverse(i);
        var value := 0;
        if i < hclen {
          value := ReadBits(data, bp, 3);
          SliceOfRest(StreamBits(data), old(bp), 3 * i, 3);
          Pow2Small();
          bp := bp + 3;
        }
        NextClclRead(bitlen_cl[..], rest, hclen, i, value);
        ghost var was := bitlen_cl[..];
        bitlen_cl[CLCL_ORDER[i]] := value;
        assert bitlen_cl[..] == was[CLCL_ORDER[i] := value];
      }
      cl := bitlen_cl[..];
      AllClclRead(cl, rest, hclen);
      assert Rest() == rest[3 * hclen..];
    }

    /** One code length symbol of a dynamic header; a repeat may run across the border of the two tables. */
    method ReadCodeLength(tree_cl: HuffmanTree, bitlen_ll: array<nat>, bitlen_d: array<nat>, hlit: nat, total: nat,
                          i: nat, ghost lengths: seq<nat>)
      returns (error: nat, i': nat, ghost lengths': seq<nat>)
      requires Valid() && tree_cl.Ready() && |tree_cl.lengths| == 19
      requires bitlen_ll != bitlen_d && hlit <= bitlen_ll.Length && total <= hlit + bitlen_d.Length
      requires i == |lengths| < total && Filled(bitlen_ll, bitlen_d, hlit, lengths) && LengthsWithin(lengths, 15)
      modifies this`bp, bitlen_ll, bitlen_d
      ensures Valid() && old(bp) <= bp
      ensures match ReadRun(Codes(tree_cl.lengths), old(Rest()), lengths, total)
        case Err(e) => error == e
        case Ok((more, rest)) =>
          && error == 0 && lengths' == more && Rest() == rest && i' == |more|
          && Filled(bitlen_ll, bitlen_d, hlit, more) && LengthsWithin(more, 15)
    {
      hide NextSymbol, Codes, HuffmanTree.Ready, StreamBits, Value, Rest;
      error, i', lengths' := 0, i, lengths;
      Pow2Small();
      var code := Decode(tree_cl);
      if 0 <= code <= 15 {
        PutLength(bitlen_ll, bitlen_d, hlit, code, i, lengths);
        i', lengths' := i + 1, lengths + [code];
      } else if code >= 16 {
        if code == 16 && i == 0 { return 54, i, lengths; }
        var ok, replength := ReadExtraBits(RepeatBase(code), ExtraBits(code));
        if !ok { return 50, i, lengths; }
        var value := 0;
        if code == 16 {
          value := if i < hlit + 1 then bitlen_ll[i - 1] else bitlen_d[i - hlit - 1];
          assert value == lengths[|lengths| - 1];
        }
        ok, i' := PutRepeated(bitlen_ll, bitlen_d, hlit, total, value, replength, i, lengths);
        if !ok { return if code == 16 then 13 else if code == 17 then 14 else 15, i', lengths; }
        lengths' := lengths + Copies(value, replength);
      } else {
        if bp > 8 * |data| { assert false; }
        error := 11;
      }
    }

    /** All code lengths of a dynamic header, put into tables of full size. */
    method ReadCodeLengths(tree_cl: HuffmanTree, hlit: nat, hdist: nat) returns (error: nat, ll: seq<nat>, d: seq<nat>)
      requires Valid() && tree_cl.Ready() && |tree_cl.lengths| == 19
      requires hlit <= NUM_DEFLATE_CODE_SYMBOLS && hdist <= NUM_DISTANCE_SYMBOLS
      modifies this`bp
      ensures Valid() && old(bp) <= bp
      ensures match ReadLengths(Codes(tree_cl.lengths), old(Rest()), [], hlit + hdist)
        case Err(e) => error == e
        case Ok((lengths, rest)) =>
          && error == 0 && Rest() == rest && LengthsWithin(ll, 15) && LengthsWithin(d, 15)
          && ll == PadTo(lengths[..hlit], NUM_DEFLATE_CODE_SYMBOLS) && d == PadTo(lengths[hlit..], NUM_DISTANCE_SYMBOLS)
    {
      hide ReadRun, Codes, HuffmanTree.Ready, Rest, Filled;
      ghost var cl := Codes(tree_cl.lengths);
      var bitlen_ll := new nat[NUM_DEFLATE_CODE_SYMBOLS](_ => 0);
      var bitlen_d := new nat[NUM_DISTANCE_SYMBOLS](_ => 0);
      var i := 0;
      ghost var lengths: seq<nat> := [];
      FilledEmpty(bitlen_ll, bitlen_d, hlit);
      error, ll, d := 0, [], [];
      while i < hlit + hdist
        invariant Valid() && old(bp) <= bp && i == |lengths| <= hlit + hdist && tree_cl.Ready()
        invariant Filled(bitlen_ll, bitlen_d, hlit, lengths) && LengthsWithin(lengths, 15)
        invariant ReadLengths(cl, Rest(), lengths, hlit + hdist) == ReadLengths(cl, old(Rest()), [], hlit + hdist)
      {
        error, i, lengths := ReadCodeLength(tree_cl, bitlen_ll, bitlen_d, hlit, hlit + hdist, i, lengths);
        if error != 0 { return; }
      }
      ll, d := bitlen_ll[..], bitlen_d[..];
      FilledTables(bitlen_ll, bitlen_d, hlit, lengths);
    }

    /** The code length code and, with it, the code lengths of both trees. */
    method ReadTablesOf(HLIT: nat, HDIST: nat, HCLEN: nat) returns (error: nat, ll: seq<nat>, d: seq<nat>)
      requires Valid() && HLIT <= NUM_DEFLATE_CODE_SYMBOLS && HDIST <= NUM_DISTANCE_SYMBOLS && 4 <= HCLEN <= 19
      modifies this`bp
      ensures Valid() && old(bp) <= bp
      ensures match Blocks.ReadTablesOf(old(Rest()), HLIT, HDIST, HCLEN)
        case Err(e) => error == e
        case Ok((ll', d', rest)) =>
          error == 0 && ll == ll' && d == d' && Rest() == rest && LengthsWithin(ll, 15) && LengthsWithin(d, 15)
    {
      hide ReadLengths, Codes, HuffmanTree.Ready, ReadTree, Rest, ReadClcl, CompleteLengths, FittingLengths, InnerNodes, PadTo, LengthsWithin;
      ll, d := [], [];
      if bp + 3 * HCLEN > 8 * |data| { return 50, ll, d; }
      var bitlen_cl := ReadClclLengths(HCLEN);
      var tree_cl := new HuffmanTree();
      error := tree_cl.MakeFromLengths(bitlen_cl, 7);
      if error != 0 { return; }
      error, ll, d := ReadCodeLengths(tree_cl, HLIT, HDIST);
    }

    /** The code lengths of both trees of a dynamic block. */
    method ReadTables() returns (error: nat, ll: seq<nat>, d: seq<nat>)
      requires Valid()
      modifies this`bp
      ensures Valid()
      ensures match Blocks.ReadTables(old(Rest()))
        case Err(e) => error == e
        case Ok((ll', d', rest)) =>
          && error == 0 && ll == ll' && d == d' && Rest() == rest && LengthsWithin(ll, 15) && LengthsWithin(d, 15)
          && old(bp) + 14 <= bp
    {
      hide Blocks.ReadTablesOf, StreamBits, LengthsWithin;
      if bp + 14 > 8 * |data| { return 49, [], []; }
      var a := ReadBits(data, bp, 5);
      var b := ReadBits(data, bp + 5, 5);
      var c := ReadBits(data, bp + 10, 4);
      HeaderCounts(data, bp);
      bp := bp + 14;
      error, ll, d := ReadTablesOf(a + 257, b + 1, c + 4);
    }

    /** Reads the header of a dynamic block and builds its two trees, on every input. */
    method GetTreeInflateDynamic(tree_ll: HuffmanTree, tree_d: HuffmanTree) returns (error: nat)
      requires Valid() && tree_ll != tree_d
      modifies this`bp, tree_ll, tree_d
      ensures Valid()
      ensures match ReadHeader(old(Rest()))
        case Err(e) => error == e
        case Ok((ll, d, rest)) =>
          && error == 0 && Rest() == rest && tree_ll.Ready() && tree_d.Ready() && old(bp) + 14 <= bp
          && Codes(tree_ll.lengths) == ll && Codes(tree_d.lengths) == d
    {
      hide Codes, HuffmanTree.Ready, ReadTree, Blocks.ReadTables, StreamBits, CompleteLengths, FittingLengths, InnerNodes, LengthsWithin;
      var ll, d;
      error, ll, d := ReadTables();
      if error != 0 { return; }
      if ll[256] == 0 { return 64; }
      error := tree_ll.MakeFromLengths(ll, 15);
      if error != 0 { return; }
      error := tree_d.MakeFromLengths(d, 15);
    }

    /** A block with fixed or dynamic trees. */
    method InflateHuffmanBlock(btype: nat) returns (error: nat)
      requires Valid() && (btype == 1 || btype == 2)
      modifies this
      ensures Valid()
      ensures match ReadBody(btype, old(Rest()), old(out))
        case Err(e) => error == e
        case Ok((rest, out')) => error == 0 && Rest() == rest && out == out' && old(bp) + 7 <= bp
    {
      hide ReadTokens, ReadHeader, Codes, HuffmanTree.Ready, Rest, FixedLitLenLengths, FixedDistanceLengths, Readable;
      var tree_ll := new HuffmanTree();
      var tree_d := new HuffmanTree();
      if btype == 1 {
        GenerateFixedLitLenTree(tree_ll);
        GenerateFixedDistanceTree(tree_d);
        FixedBlockSpends(Rest(), out);
      } else {
        error := GetTreeInflateDynamic(tree_ll, tree_d);
        if error != 0 { return; }
      }
      error := InflateTokens(tree_ll, tree_d);
    }

    /** One block: its three header bits and its body. Block type 3 is error 20. */
    method InflateBlock() returns (error: nat, final: bool)
      requires Valid()
      modifies this
      ensures Valid()
      ensures |old(Rest())| < 3 ==> error == 52
      ensures |old(Rest())| >= 3 ==>
        var rest := old(Rest());
        match ReadBody(B2N(rest[1]) + 2 * B2N(rest[2]), rest[3..], old(out))
        case Err(e) => error == e
        case Ok((rest', out')) => error == 0 && final == rest[0] && Rest() == rest' && out == out' && old(bp) + 10 <= bp
    {
      hide ReadBody, ReadStored, StreamBits;
      if bp + 2 >= 8 * |data| { return 52, false; }
      ghost var rest := Rest();
      final := ReadBit(data, bp);
      var low := ReadBit(data, bp + 1);
      var high := ReadBit(data, bp + 2);
      var BTYPE := B2N(low) + 2 * B2N(high);
      assert rest[0] == final && rest[1] == low && rest[2] == high;
      bp := bp + 3;
      assert Rest() == rest[3..];
      ReadBodyOtherTypes(rest[3..], out);
      if BTYPE == 3 { return 20, final; }
      if BTYPE == 0 {
        ReadStoredBytes(data, bp);
        error := InflateNoCompression();
      } else {
        error := InflateHuffmanBlock(BTYPE);
      }
    }

    /** Decompresses a stream: on every input the output or the error of the reference decoder. */
    method InflateStream() returns (error: nat)
      requires Valid() && bp == 0 && out == []
      modifies this
      ensures Valid()
      ensures match ReadBlocks(StreamBits(data), [])
        case Err(e) => error == e
        case Ok(result) => error == 0 && out == result && |data| >= 2
    {
      hide ReadBody, StreamBits;
      var BFINAL := false;
      error := 0;
      ghost var expected := ReadBlocks(StreamBits(data), []);
      assert Rest() == StreamBits(data);
      while !BFINAL
        invariant Valid() && (BFINAL ==> bp >= 10)
        invariant expected == if BFINAL then Ok(out) else ReadBlocks(Rest(), out)
        decreases !BFINAL, 8 * |data| - bp
      {
        error, BFINAL := InflateBlock();
        if error != 0 { return; }
      }
    }
  }

  lemma SliceOfRest(s: BitString, p: nat, k: nat, n: nat)
    requires p + k + n <= |s|
    ensures s[p..][k..k + n] == s[p + k..p + k + n]
  {
  }

  lemma ReadyIsUsed(tree: HuffmanTree)
    requires tree.Ready()
    ensures tree.lengths != []
  {
  }

  /** A block with the fixed codes spends the seven bits of their end code. */
  lemma FixedBlockSpends(bits: BitString, out: seq<Byte>)
    ensures
      var r := ReadTokens(Codes(FixedLitLenLengths()), Codes(FixedDistanceLengths()), bits, out);
      r.Ok? ==> |r.value.0| + 7 <= |bits|
  {
    hide ReadTokens, Codes, FixedLitLenLengths, FixedDistanceLengths, Readable, KraftTo;
    FixedEndPresent();
    FixedCodesComplete();
    CompleteReadable(FixedLitLenLengths(), 15);
    ReadTokensSpends(Codes(FixedLitLenLengths()), Codes(FixedDistanceLengths()), bits, out);
  }

  lemma HeaderCounts(data: seq<Byte>, bp: nat)
    requires bp + 14 <= 8 * |data|
    ensures
      var s := StreamBits(data);
      s[bp..][..5] == s[bp..bp + 5] && s[bp..][5..10] == s[bp + 5..bp + 10] && s[bp..][10..14] == s[bp + 10..bp + 14]
      && s[bp..][14..] == s[bp + 14..]
    ensures Pow2(5) == 32 && Pow2(4) == 16
  {
    Pow2Small();
  }

  lemma ReadBodyOtherTypes(bits: BitString, out: seq<Byte>)
    ensures ReadBody(3, bits, out) == Err(20)
    ensures ReadBody(0, bits, out) ==
      match ReadStored(bits)
      case Err(e) => Err(e)
      case Ok((data, rest)) => Ok((rest, out + data))
  {
  }

  /** The two tables hold the code lengths read so far, and zero elsewhere. */
  ghost predicate Filled(bitlen_ll: array<nat>, bitlen_d: array<nat>, hlit: nat, lengths: seq<nat>)
    reads bitlen_ll, bitlen_d
  {
    && (forall k :: 0 <= k < bitlen_ll.Length ==> bitlen_ll[k] == if k < hlit && k < |lengths| then lengths[k] else 0)
    && (forall k :: 0 <= k < bitlen_d.Length ==> bitlen_d[k] == if hlit + k < |lengths| then lengths[hlit + k] else 0)
  }

  lemma FilledEmpty(bitlen_ll: array<nat>, bitlen_d: array<nat>, hlit: nat)
    requires forall k :: 0 <= k < bitlen_ll.Length ==> bitlen_ll[k] == 0
    requires forall k :: 0 <= k < bitlen_d.Length ==> bitlen_d[k] == 0
    ensures Filled(bitlen_ll, bitlen_d, hlit, [])
  {
  }

  lemma FilledTables(bitlen_ll: array<nat>, bitlen_d: array<nat>, hlit: nat, lengths: seq<nat>)
    requires Filled(bitlen_ll, bitlen_d, hlit, lengths) && LengthsWithin(lengths, 15)
    requires hlit <= |lengths| <= hlit + bitlen_d.Length && hlit <= bitlen_ll.Length
    ensures bitlen_ll[..] == PadTo(lengths[..hlit], bitlen_ll.Length)
    ensures bitlen_d[..] == PadTo(lengths[hlit..], bitlen_d.Length)
    ensures LengthsWithin(bitlen_ll[..], 15) && LengthsWithin(bitlen_d[..], 15)
  {
  }

  /** Stores the next code length in the table it belongs to. */
  method PutLength(bitlen_ll: array<nat>, bitlen_d: array<nat>, hlit: nat, value: nat, i: nat, ghost lengths: seq<nat>)
    requires bitlen_ll != bitlen_d && i == |lengths| < hlit + bitlen_d.Length && hlit <= bitlen_ll.Length
    requires Filled(bitlen_ll, bitlen_d, hlit, lengths)
    modifies bitlen_ll, bitlen_d
    ensures Filled(bitlen_ll, bitlen_d, hlit, lengths + [value])
  {
    if i < hlit { bitlen_ll[i] := value; } else { bitlen_d[i - hlit] := value; }
  }

  /** Stores a value several times; fails where the source reports errors 13 to 15, past the last code. */
  method PutRepeated(bitlen_ll: array<nat>, bitlen_d: array<nat>, hlit: nat, total: nat, value: nat, count: nat,
                     i: nat, ghost lengths: seq<nat>)
    returns (ok: bool, i': nat)
    requires bitlen_ll != bitlen_d && i == |lengths| <= total <= hlit + bitlen_d.Length && hlit <= bitlen_ll.Length
    requires Filled(bitlen_ll, bitlen_d, hlit, lengths)
    modifies bitlen_ll, bitlen_d
    ensures ok <==> i + count <= total
    ensures ok ==> i' == i + count && Filled(bitlen_ll, bitlen_d, hlit, lengths + Copies(value, count))
  {
    i' := i;
    ghost var now := lengths;
    for n := 0 to count
      invariant i' == i + n == |now| <= total && now == lengths + Copies(value, n)
      invariant Filled(bitlen_ll, bitlen_d, hlit, now)
    {
      if i' >= total { return false, i'; }
      PutLength(bitlen_ll, bitlen_d, hlit, value, i', now);
      now := now + [value];
      i' := i' + 1;
    }
    ok := true;
  }
}
