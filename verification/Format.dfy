/**
 * The deflate format of RFC 1951, written twice: as what a sequence of blocks is printed as, and as
 * a reference decoder of bits. The two are inverse to each other, whatever bits follow.
 */
module Format {
  import opened Bits
  import opened PrefixCode
  import opened Canonical
  import opened CodeTrees
  import opened Tokens
  import opened CodeLengths

  const CLCL_ORDER: seq<nat> := [16, 17, 18, 0, 8, 7, 9, 6, 10, 5, 11, 4, 12, 3, 13, 2, 14, 1, 15]

  const NUM_DEFLATE_CODE_SYMBOLS: nat := 288
  const NUM_DISTANCE_SYMBOLS: nat := 32

  // ---- Tokens ----

  /** The bits of a token under a literal/length code and a distance code. */
  function TokenBits(ll: CodeTable, d: CodeTable, t: Token): BitString
    requires |ll| >= 286 && |d| >= 30 && Encodable([t])
  {
    assert t in [t];
    match t
    case Literal(b) => ll[b]
    case Match(length, distance) =>
      var l, m := CodeIndex(LENGTHBASE, length), CodeIndex(DISTANCEBASE, distance);
      ll[257 + l] + LowBits(length - LENGTHBASE[l], LENGTHEXTRA[l]) +
      (d[m] + LowBits(distance - DISTANCEBASE[m], DISTANCEEXTRA[m]))
  }

  function TokensBits(ll: CodeTable, d: CodeTable, tokens: seq<Token>): BitString
    requires |ll| >= 286 && |d| >= 30 && Encodable(tokens)
  {
    if tokens == [] then []
    else
      assert tokens[0] in tokens;
      TokenBits(ll, d, tokens[0]) + TokensBits(ll, d, tokens[1..])
  }

  /** Every symbol of the token has a code. */
  predicate TokenHasCodes(ll: CodeTable, d: CodeTable, t: Token)
    requires Encodable([t])
  {
    assert t in [t];
    match t
    case Literal(b) => Present(ll, b)
    case Match(length, distance) =>
      Present(ll, 257 + CodeIndex(LENGTHBASE, length)) && Present(d, CodeIndex(DISTANCEBASE, distance))
  }

  predicate TokensHaveCodes(ll: CodeTable, d: CodeTable, tokens: seq<Token>)
    requires Encodable(tokens)
  {
    forall t :: t in tokens ==> TokenHasCodes(ll, d, t)
  }

  /** A number stored as base plus n extra bits. */
  ghost function ReadExtra(bits: BitString, base: nat, n: nat): Option<(nat, BitString)> {
    if |bits| < n then None else Some((base + Value(bits[..n]), bits[n..]))
  }

  /** Reference reading of the distance half of a match; a missing or unused symbol is error 18, missing extra bits are 51. */
  ghost function ReadDistance(d: CodeTable, bits: BitString): (r: Result<(nat, BitString)>)
    requires d != []
    ensures r.Ok? ==> 1 <= r.value.0 && |r.value.1| < |bits|
  {
    match NextSymbol(d, bits)
    case None => Err(18)
    case Some((m, rest)) =>
      if m >= 30 then Err(18) else
      match ReadExtra(rest, DISTANCEBASE[m], DISTANCEEXTRA[m])
      case None => Err(51)
      case Some(v) => Ok(v)
  }

  /** Reference reading of what follows length symbol 257 + l. */
  ghost function ReadMatch(d: CodeTable, l: nat, bits: BitString): (r: Result<(Token, BitString)>)
    requires d != [] && l < 29
    ensures r.Ok? ==> |r.value.1| < |bits|
  {
    match ReadExtra(bits, LENGTHBASE[l], LENGTHEXTRA[l])
    case None => Err(51)
    case Some((length, rest)) =>
      match ReadDistance(d, rest)
      case Err(e) => Err(e)
      case Ok((distance, rest1)) => Ok((Match(length, distance), rest1))
  }

  datatype Item = End | Item(token: Token)

  /** Reference reading of one token or of the end code; a missing symbol, 286 and 287 are error 11. */
  ghost function ReadItem(ll: CodeTable, d: CodeTable, bits: BitString): (r: Result<(Item, BitString)>)
    requires ll != [] && d != []
    ensures r.Ok? ==> |r.value.1| < |bits|
  {
    match NextSymbol(ll, bits)
    case None => Err(11)
    case Some((s, rest)) =>
      if s <= 255 then Ok((Item(Literal(s)), rest))
      else if s == 256 then Ok((End, rest))
      else if s > 285 then Err(11)
      else
        match ReadMatch(d, s - 257, rest)
        case Err(e) => Err(e)
        case Ok((t, rest1)) => Ok((Item(t), rest1))
  }

  /** Reference decoding of the compressed data of a block, through its end code. A distance beyond the output is error 52. */
  ghost function ReadTokens(ll: CodeTable, d: CodeTable, bits: BitString, out: seq<Byte>): (r: Result<(BitString, seq<Byte>)>)
    requires ll != [] && d != []
    ensures r.Ok? ==> |r.value.0| < |bits|
    decreases |bits|
  {
    match ReadItem(ll, d, bits)
    case Err(e) => Err(e)
    case Ok((End, rest)) => Ok((rest, out))
    case Ok((Item(t), rest)) => if ValidToken(t, |out|) then ReadTokens(ll, d, rest, Apply(out, t)) else Err(52)
  }

  /** A block always spends the bits of its end code. */
  lemma {:induction false} ReadTokensSpends(ll: CodeTable, d: CodeTable, bits: BitString, out: seq<Byte>)
    requires |ll| > 256 && d != [] && Readable(ll)
    ensures ReadTokens(ll, d, bits, out).Ok? ==> |ReadTokens(ll, d, bits, out).value.0| + |ll[256]| <= |bits|
    decreases |bits|
  {
    hide NextSymbol, ReadSymbol, ReadMatch, Apply, Readable;
    NextSpends(ll, bits);
    match ReadItem(ll, d, bits)
    case Err(_) =>
    case Ok((End, rest)) =>
    case Ok((Item(t), rest)) =>
      if ValidToken(t, |out|) { ReadTokensSpends(ll, d, rest, Apply(out, t)); }
  }

  /** Every symbol but 0 is only read by its code. */
  lemma NextSpends(code: CodeTable, bits: BitString)
    requires code != [] && Readable(code)
    ensures NextSymbol(code, bits).Some? && NextSymbol(code, bits).value.0 != 0 ==>
      var (s, rest) := NextSymbol(code, bits).value;
      s < |code| && |rest| + |code[s]| == |bits|
  {
    hide Readable;
    NextIsRead(code, bits);
  }

  // ---- Round trip of tokens ----

  lemma ReadExtraBack(v: nat, base: nat, n: nat, rest: BitString)
    requires base <= v && v - base < Pow2(n)
    ensures ReadExtra(LowBits(v - base, n) + rest, base, n) == Some((v, rest))
  {
    var low := LowBits(v - base, n);
    ValueOfLowBits(v - base, n);
    assert (low + rest)[..n] == low && (low + rest)[n..] == rest;
  }

  lemma ReadDistanceBack(d: CodeTable, distance: nat, rest: BitString)
    requires |d| >= 30 && Readable(d) && 1 <= distance <= 32768
    requires Present(d, CodeIndex(DISTANCEBASE, distance))
    ensures
      var m := CodeIndex(DISTANCEBASE, distance);
      ReadDistance(d, d[m] + LowBits(distance - DISTANCEBASE[m], DISTANCEEXTRA[m]) + rest) == Ok((distance, rest))
  {
    hide CodeIndex, NextSymbol, LowBits, Value, Readable, ReadExtra, Present, LENGTHBASE, LENGTHEXTRA, DISTANCEBASE, DISTANCEEXTRA;
    TableSizes();
    var m := CodeIndex(DISTANCEBASE, distance);
    CodeIndexBound(DISTANCEBASE, distance);
    var extra := LowBits(distance - DISTANCEBASE[m], DISTANCEEXTRA[m]);
    assert d[m] + extra + rest == d[m] + (extra + rest);
    NextEncoded(d, m, extra + rest);
    DistanceExtraFits(distance);
    ReadExtraBack(distance, DISTANCEBASE[m], DISTANCEEXTRA[m], rest);
  }

  lemma TableSizes()
    ensures |LENGTHBASE| == |LENGTHEXTRA| == 29 && |DISTANCEBASE| == |DISTANCEEXTRA| == 30
    ensures LENGTHBASE[0] == 3 && DISTANCEBASE[0] == 1
  {
  }

  lemma CodeIndexBound(base: seq<nat>, value: nat)
    requires base != [] && base[0] <= value
    ensures CodeIndex(base, value) < |base| && base[CodeIndex(base, value)] <= value
  {
  }

  /** Reading a length symbol, its extra bits and then a distance. */
  lemma ReadMatchBack(ll: CodeTable, d: CodeTable, l: nat, extra: BitString, length: nat, tail: BitString,
                      distance: nat, rest: BitString)
    requires |ll| >= 286 && d != [] && Readable(ll) && l < 29 && Present(ll, 257 + l)
    requires ReadExtra(extra + tail, LENGTHBASE[l], LENGTHEXTRA[l]) == Some((length, tail))
    requires ReadDistance(d, tail) == Ok((distance, rest))
    ensures ReadItem(ll, d, ll[257 + l] + (extra + tail)) == Ok((Item(Match(length, distance)), rest))
  {
    hide NextSymbol, ReadExtra, ReadDistance, Readable;
    NextEncoded(ll, 257 + l, extra + tail);
  }

  lemma ReadItemBack(ll: CodeTable, d: CodeTable, t: Token, rest: BitString)
    requires |ll| >= 286 && |d| >= 30 && Readable(ll) && Readable(d)
    requires Encodable([t]) && TokenHasCodes(ll, d, t)
    ensures ReadItem(ll, d, TokenBits(ll, d, t) + rest) == Ok((Item(t), rest))
    ensures |TokenBits(ll, d, t)| > 0
  {
    assert t in [t];
    match t
    case Literal(b) => ReadLiteralBack(ll, d, b, rest);
    case Match(length, distance) => ReadMatchTokenBack(ll, d, length, distance, rest);
  }

  lemma ReadLiteralBack(ll: CodeTable, d: CodeTable, b: Byte, rest: BitString)
    requires |ll| >= 286 && d != [] && Readable(ll) && Present(ll, b)
    ensures ReadItem(ll, d, ll[b] + rest) == Ok((Item(Literal(b)), rest))
  {
    hide CodeIndex, NextSymbol, LowBits, Value, ReadExtra, ReadDistance, Readable;
    NextEncoded(ll, b, rest);
  }

  lemma ReadMatchTokenBack(ll: CodeTable, d: CodeTable, length: nat, distance: nat, rest: BitString)
    requires |ll| >= 286 && |d| >= 30 && Readable(ll) && Readable(d)
    requires 3 <= length <= 258 && 1 <= distance <= 32768 && TokenHasCodes(ll, d, Match(length, distance))
    ensures ReadItem(ll, d, TokenBits(ll, d, Match(length, distance)) + rest) == Ok((Item(Match(length, distance)), rest))
    ensures |TokenBits(ll, d, Match(length, distance))| > 0
  {
    hide CodeIndex, NextSymbol, LowBits, Value, ReadExtra, ReadDistance, Readable, ReadItem, TokenBits, Present;
    var l, m := CodeIndex(LENGTHBASE, length), CodeIndex(DISTANCEBASE, distance);
    CodeIndexBound(LENGTHBASE, length);
    CodeIndexBound(DISTANCEBASE, distance);
    MatchBits(ll, d, length, distance, l, m);
    var extra := LowBits(length - LENGTHBASE[l], LENGTHEXTRA[l]);
    var distanceBits := d[m] + LowBits(distance - DISTANCEBASE[m], DISTANCEEXTRA[m]);
    LengthExtraFits(length);
    ReadExtraBack(length, LENGTHBASE[l], LENGTHEXTRA[l], distanceBits + rest);
    ReadDistanceBack(d, distance, rest);
    ReadMatchBack(ll, d, l, extra, length, distanceBits + rest, distance, rest);
    Regroup(ll[257 + l], extra, distanceBits, rest);
    assert TokenBits(ll, d, Match(length, distance)) + rest == ll[257 + l] + (extra + (distanceBits + rest));
  }

  lemma MatchBits(ll: CodeTable, d: CodeTable, length: nat, distance: nat, l: nat, m: nat)
    requires |ll| >= 286 && |d| >= 30 && Encodable([Match(length, distance)]) && TokenHasCodes(ll, d, Match(length, distance))
    requires l == CodeIndex(LENGTHBASE, length) < |LENGTHBASE| && m == CodeIndex(DISTANCEBASE, distance) < |DISTANCEBASE|
    requires LENGTHBASE[l] <= length && DISTANCEBASE[m] <= distance
    ensures Present(ll, 257 + l) && Present(d, m)
    ensures TokenBits(ll, d, Match(length, distance))
         == ll[257 + l] + LowBits(length - LENGTHBASE[l], LENGTHEXTRA[l]) + (d[m] + LowBits(distance - DISTANCEBASE[m], DISTANCEEXTRA[m]))
    ensures |TokenBits(ll, d, Match(length, distance))| > 0
  {
    hide CodeIndex, LowBits, LENGTHBASE, LENGTHEXTRA, DISTANCEBASE, DISTANCEEXTRA;
  }

  lemma Regroup(a: BitString, b: BitString, c: BitString, rest: BitString)
    ensures a + b + c + rest == a + (b + (c + rest))
  {
  }

  lemma ReadEndBack(ll: CodeTable, d: CodeTable, rest: BitString)
    requires |ll| >= 286 && d != [] && Readable(ll) && Present(ll, 256)
    ensures ReadItem(ll, d, ll[256] + rest) == Ok((End, rest))
  {
    hide NextSymbol;
    NextEncoded(ll, 256, rest);
  }

  /** Decoding the printed tokens of a block gives the bytes they stand for. */
  lemma {:induction false} ReadTokensBack(ll: CodeTable, d: CodeTable, tokens: seq<Token>, rest: BitString, out: seq<Byte>)
    requires |ll| >= 286 && |d| >= 30 && Readable(ll) && Readable(d) && Present(ll, 256)
    requires Encodable(tokens) && TokensHaveCodes(ll, d, tokens) && ValidTokens(tokens, |out|)
    ensures ReadTokens(ll, d, TokensBits(ll, d, tokens) + (ll[256] + rest), out) == Ok((rest, Expand(out, tokens)))
    decreases |tokens|
  {
    hide ReadItem, TokenBits, TokenHasCodes, Apply, Readable;
    if tokens == [] {
      ReadEndBack(ll, d, rest);
      assert TokensBits(ll, d, tokens) + (ll[256] + rest) == ll[256] + rest;
    } else {
      var t, tail := tokens[0], TokensBits(ll, d, tokens[1..]) + (ll[256] + rest);
      assert t in tokens;
      assert TokensBits(ll, d, tokens) + (ll[256] + rest) == TokenBits(ll, d, t) + tail;
      ReadItemBack(ll, d, t, tail);
      ApplySize(out, t);
      ReadTokensBack(ll, d, tokens[1..], rest, Apply(out, t));
    }
  }
}
