/** Literal and match tokens of LZ77, what they expand to, and their deflate symbols (RFC 1951 section 3.2.5). */
module Tokens {
  import opened Bits

  datatype Token = Literal(value: Byte) | Match(length: nat, distance: nat)

  const LENGTHBASE: seq<nat> := [
    3, 4, 5, 6, 7, 8, 9, 10, 11, 13, 15, 17, 19, 23, 27, 31, 35, 43, 51, 59, 67, 83, 99, 115, 131, 163, 195, 227, 258]

  const LENGTHEXTRA: seq<nat> := [
    0, 0, 0, 0, 0, 0, 0, 0, 1, 1, 1, 1, 2, 2, 2, 2, 3, 3, 3, 3, 4, 4, 4, 4, 5, 5, 5, 5, 0]

  const DISTANCEBASE: seq<nat> := [
    1, 2, 3, 4, 5, 7, 9, 13, 17, 25, 33, 49, 65, 97, 129, 193, 257, 385, 513, 769,
    1025, 1537, 2049, 3073, 4097, 6145, 8193, 12289, 16385, 24577]

  const DISTANCEEXTRA: seq<nat> := [
    0, 0, 0, 0, 1, 1, 2, 2, 3, 3, 4, 4, 5, 5, 6, 6, 7, 7, 8, 8, 9, 9, 10, 10, 11, 11, 12, 12, 13, 13]

  /** Repeats the byte `distance` back, `length` times; source and copy may overlap. */
  function CopyBack(out: seq<Byte>, length: nat, distance: nat): seq<Byte>
    requires 1 <= distance <= |out|
    decreases length
  {
    if length == 0 then out else CopyBack(out + [out[|out| - distance]], length - 1, distance)
  }

  /** A token that deflate can express after n bytes of output. */
  predicate ValidToken(t: Token, n: nat) {
    t.Match? ==> 3 <= t.length <= 258 && 1 <= t.distance <= 32768 && t.distance <= n
  }

  function Size(t: Token): nat { if t.Literal? then 1 else t.length }

  function Apply(out: seq<Byte>, t: Token): (r: seq<Byte>)
    requires ValidToken(t, |out|)
  {
    match t
    case Literal(b) => out + [b]
    case Match(length, distance) => CopyBack(out, length, distance)
  }

  predicate ValidTokens(tokens: seq<Token>, n: nat) {
    tokens == [] || (ValidToken(tokens[0], n) && ValidTokens(tokens[1..], n + Size(tokens[0])))
  }

  /** The bytes a token sequence stands for, after the bytes already put out. */
  function Expand(out: seq<Byte>, tokens: seq<Token>): seq<Byte>
    requires ValidTokens(tokens, |out|)
    decreases |tokens|
  {
    if tokens == [] then out
    else
      ApplySize(out, tokens[0]);
      Expand(Apply(out, tokens[0]), tokens[1..])
  }

  lemma {:induction false} CopySize(out: seq<Byte>, length: nat, distance: nat)
    requires 1 <= distance <= |out|
    ensures |CopyBack(out, length, distance)| == |out| + length
    decreases length
  {
    if length > 0 { CopySize(out + [out[|out| - distance]], length - 1, distance); }
  }

  lemma ApplySize(out: seq<Byte>, t: Token)
    requires ValidToken(t, |out|)
    ensures |Apply(out, t)| == |out| + Size(t)
  {
    if t.Match? { CopySize(out, t.length, t.distance); }
  }

  lemma {:induction false} ExpandAppend(out: seq<Byte>, tokens: seq<Token>, t: Token)
    requires ValidTokens(tokens, |out|) && ValidToken(t, |Expand(out, tokens)|)
    ensures ValidTokens(tokens + [t], |out|)
    ensures Expand(out, tokens + [t]) == Apply(Expand(out, tokens), t)
    decreases |tokens|
  {
    if tokens == [] {
      assert ([t])[1..] == [];
      ApplySize(out, t);
    } else {
      ApplySize(out, tokens[0]);
      ExpandAppend(Apply(out, tokens[0]), tokens[1..], t);
      assert (tokens + [t])[1..] == tokens[1..] + [t];
    }
  }

  /** Copying back inside known data just extends the known prefix when the data repeats there. */
  lemma {:induction false} CopyOfData(data: seq<Byte>, pos: nat, length: nat, distance: nat)
    requires 1 <= distance <= pos && pos + length <= |data|
    requires forall k :: pos <= k < pos + length ==> data[k] == data[k - distance]
    ensures CopyBack(data[..pos], length, distance) == data[..pos + length]
    decreases length
  {
    if length > 0 {
      assert data[..pos] + [data[pos - distance]] == data[..pos + 1];
      CopyOfData(data, pos + 1, length - 1, distance);
    }
  }

  /** One more byte of a copy goes to the end. */
  lemma {:induction false} CopyBackStep(out: seq<Byte>, length: nat, distance: nat)
    requires 1 <= distance <= |out|
    ensures |CopyBack(out, length, distance)| == |out| + length
    ensures
      var copied := CopyBack(out, length, distance);
      CopyBack(out, length + 1, distance) == copied + [copied[|copied| - distance]]
    decreases length
  {
    CopySize(out, length, distance);
    if length > 0 { CopyBackStep(out + [out[|out| - distance]], length - 1, distance); }
  }

  /** Every byte of a copy equals the one `distance` before it. */
  lemma {:induction false} CopyIsPeriodic(out: seq<Byte>, length: nat, distance: nat)
    requires 1 <= distance <= |out|
    ensures
      var copied := CopyBack(out, length, distance);
      |copied| == |out| + length && forall k :: |out| <= k < |copied| ==> copied[k] == copied[k - distance]
    decreases length
  {
    CopySize(out, length, distance);
    if length > 0 {
      CopyIsPeriodic(out, length - 1, distance);
      CopyBackStep(out, length - 1, distance);
    }
  }

  // ---- The symbols of a token ----

  /** The last entry of a rising table that does not exceed the value. */
  function CodeIndex(base: seq<nat>, value: nat): (i: nat)
    requires base != [] && base[0] <= value
    ensures i < |base| && base[i] <= value
    ensures i + 1 < |base| ==> value < base[i + 1]
    decreases |base|, value
  {
    if |base| == 1 || value < base[1] then 0 else 1 + CodeIndex(base[1..], value)
  }

  /** The four numbers deflate uses for a match, or the byte of a literal. */
  function TokenValues(t: Token): (v: seq<nat>)
    requires t.Match? ==> 3 <= t.length && 1 <= t.distance
  {
    match t
    case Literal(b) => [b]
    case Match(length, distance) =>
      var l, d := CodeIndex(LENGTHBASE, length), CodeIndex(DISTANCEBASE, distance);
      [257 + l, length - LENGTHBASE[l], d, distance - DISTANCEBASE[d]]
  }

  lemma MatchValues(length: nat, distance: nat, l: nat, d: nat)
    requires 3 <= length && 1 <= distance
    requires l == CodeIndex(LENGTHBASE, length) && d == CodeIndex(DISTANCEBASE, distance)
    ensures LENGTHBASE[l] <= length && DISTANCEBASE[d] <= distance
    ensures TokenValues(Match(length, distance)) == [257 + l, length - LENGTHBASE[l], d, distance - DISTANCEBASE[d]]
  {
    hide CodeIndex;
  }

  predicate Encodable(tokens: seq<Token>) {
    forall t :: t in tokens && t.Match? ==> 3 <= t.length <= 258 && 1 <= t.distance <= 32768
  }

  /** The whole symbol vector of a token sequence. */
  function Flatten(tokens: seq<Token>): seq<nat>
    requires Encodable(tokens)
  {
    if tokens == [] then [] else TokenValues(tokens[0]) + Flatten(tokens[1..])
  }

  lemma EncodableParts(tokens: seq<Token>, t: Token)
    requires Encodable(tokens + [t])
    ensures Encodable(tokens) && Encodable([t]) && t in tokens + [t]
  {
    assert t == (tokens + [t])[|tokens|];
    assert forall u :: u in tokens ==> u in tokens + [t];
  }

  lemma EncodableRest(tokens: seq<Token>)
    requires tokens != [] && Encodable(tokens)
    ensures Encodable(tokens[1..])
  {
  }

  lemma {:induction false} FlattenAppend(tokens: seq<Token>, t: Token)
    requires Encodable(tokens + [t])
    ensures Encodable(tokens) && t in tokens + [t]
    ensures Flatten(tokens + [t]) == Flatten(tokens) + TokenValues(t)
  {
    hide TokenValues, Encodable;
    EncodableParts(tokens, t);
    if tokens == [] {
      assert tokens + [t] == [t] && [t][1..] == [];
    } else {
      var rest := tokens[1..];
      assert (tokens + [t])[1..] == rest + [t];
      EncodableRest(tokens + [t]);
      FlattenAppend(rest, t);
      assert Flatten(tokens) == TokenValues(tokens[0]) + Flatten(rest);
    }
  }

  lemma LengthExtraFits(length: nat)
    requires 3 <= length <= 258
    ensures var l := CodeIndex(LENGTHBASE, length); length - LENGTHBASE[l] < Pow2(LENGTHEXTRA[l])
  {
    var l := CodeIndex(LENGTHBASE, length);
    if l < 28 { LengthTable(l); }
  }

  /** The length symbols share out the lengths without gap or overlap, four symbols for each number of extra bits; 258 has its own. */
  lemma LengthTable(l: nat)
    requires l < 29
    ensures |LENGTHBASE| == 29 == |LENGTHEXTRA| && LENGTHBASE[0] == 3 && LENGTHBASE[28] == 258
    ensures LENGTHEXTRA[l] == if l < 8 || l == 28 then 0 else l / 4 - 1
    ensures l < 27 ==> LENGTHBASE[l + 1] == LENGTHBASE[l] + Pow2(LENGTHEXTRA[l])
    ensures l == 27 ==> LENGTHBASE[l] + Pow2(LENGTHEXTRA[l]) == 259
  {
    hide Pow2;
    Pow2Small();
    OneValue();
  }

  /** A length or distance symbol can only stand for values that a token may have. */
  lemma LengthRange(l: nat)
    requires l < 29
    ensures 3 <= LENGTHBASE[l] && LENGTHBASE[l] + Pow2(LENGTHEXTRA[l]) <= 259
  {
    Pow2Small();
  }

  lemma DistanceRange(d: nat)
    requires d < 30
    ensures 1 <= DISTANCEBASE[d] && DISTANCEBASE[d] + Pow2(DISTANCEEXTRA[d]) <= 32769
  {
    Pow2Small();
  }

  lemma DistanceExtraFits(distance: nat)
    requires 1 <= distance <= 32768
    ensures var d := CodeIndex(DISTANCEBASE, distance); distance - DISTANCEBASE[d] < Pow2(DISTANCEEXTRA[d])
  {
    var d := CodeIndex(DISTANCEBASE, distance);
    DistanceTable(d);
  }

  /** The distance symbols share out 1 to 32768 likewise, two symbols for each number of extra bits. */
  lemma DistanceTable(d: nat)
    requires d < 30
    ensures |DISTANCEBASE| == 30 == |DISTANCEEXTRA| && DISTANCEBASE[0] == 1
    ensures DISTANCEEXTRA[d] == if d < 4 then 0 else d / 2 - 1
    ensures DISTANCEBASE[d] + Pow2(DISTANCEEXTRA[d]) == if d < 29 then DISTANCEBASE[d + 1] else 32769
  {
    if d < 10 { DistanceTable0(d); } else if d < 20 { DistanceTable1(d); } else { DistanceTable2(d); }
  }

  lemma DistanceTable0(d: nat)
    requires d < 10
    ensures DISTANCEEXTRA[d] == if d < 4 then 0 else d / 2 - 1
    ensures DISTANCEBASE[d] + Pow2(DISTANCEEXTRA[d]) == DISTANCEBASE[d + 1]
  {
    hide Pow2;
    Pow2Small();
    OneValue();
  }

  lemma DistanceTable1(d: nat)
    requires 10 <= d < 20
    ensures DISTANCEEXTRA[d] == d / 2 - 1 && DISTANCEBASE[d] + Pow2(DISTANCEEXTRA[d]) == DISTANCEBASE[d + 1]
  {
    hide Pow2;
    Pow2Small();
  }

  lemma DistanceTable2(d: nat)
    requires 20 <= d < 30
    ensures DISTANCEEXTRA[d] == d / 2 - 1
    ensures DISTANCEBASE[d] + Pow2(DISTANCEEXTRA[d]) == if d < 29 then DISTANCEBASE[d + 1] else 32769
  {
    hide Pow2;
    Pow2Small();
  }

  lemma OneValue()
    ensures Pow2(0) == 1
  {
  }

  /** The binary search of lodepng.c:1305-1321 finds exactly that entry. */
  method SearchCodeIndex(base: seq<nat>, value: nat) returns (index: nat)
    requires base != [] && base[0] <= value && Rising(base)
    ensures index == CodeIndex(base, value)
  {
    var left, right := 1, |base| - 1;
    while left <= right
      invariant 1 <= left <= |base| && 0 <= right < |base|
      invariant left <= right + 1 && base[left - 1] <= value
      invariant right + 1 < |base| ==> value < base[right]
    {
      var mid := (left + right) / 2;
      if base[mid] <= value {
        left := mid + 1;
      } else if base[mid - 1] > value {
        right := mid - 1;
      } else {
        CodeIndexUnique(base, value, mid - 1);
        return mid - 1;
      }
    }
    index := |base| - 1;
    CodeIndexUnique(base, value, index);
  }

  lemma {:induction false} CodeIndexUnique(base: seq<nat>, value: nat, i: nat)
    requires base != [] && base[0] <= value && i < |base| && Rising(base)
    requires base[i] <= value && (i + 1 < |base| ==> value < base[i + 1])
    ensures i == CodeIndex(base, value)
  {
    if i > 0 {
      RisingFrom(base, 1, i);
      CodeIndexUnique(base[1..], value, i - 1);
    }
  }

  ghost predicate Rising(base: seq<nat>) {
    forall i :: 0 <= i < |base| - 1 ==> base[i] < base[i + 1]
  }

  lemma {:induction false} RisingFrom(base: seq<nat>, i: nat, j: nat)
    requires Rising(base) && i <= j < |base|
    ensures base[i] <= base[j]
    decreases j - i
  {
    if i < j { RisingFrom(base, i, j - 1); }
  }

  lemma TablesRise()
    ensures Rising(LENGTHBASE) && Rising(DISTANCEBASE)
    ensures LENGTHBASE != [] && LENGTHBASE[0] == 3 && DISTANCEBASE != [] && DISTANCEBASE[0] == 1
  {
  }
}
