/** Huffman tables as JPEG files carry them (Annex C of T.81; compositor/jpge.cpp:366-397, compositor/jpgd.cpp:2229-2255). */
module JpegTables {
  import opened Bits
  import opened PrefixCode
  import opened Canonical

  /** How many codes there are of each length, and the symbols in the order of their codes. */
  datatype TableSpec = TableSpec(bits: seq<Byte>, val: seq<Byte>)

  /** The code lengths up to l, in order. */
  function SizesTo(bits: seq<Byte>, l: nat): seq<nat>
    requires l < |bits|
  {
    if l == 0 then [] else SizesTo(bits, l - 1) + Copies(l, bits[l])
  }

  function Sizes(bits: seq<Byte>): seq<nat>
    requires |bits| == 17
  {
    SizesTo(bits, 16)
  }

  /** Lengths from 1 to 16 that do not decrease. */
  ghost predicate Ascending(sizes: seq<nat>) {
    && (forall i :: 0 <= i < |sizes| ==> 1 <= sizes[i] <= 16)
    && forall i, j :: 0 <= i <= j < |sizes| ==> sizes[i] <= sizes[j]
  }

  lemma {:induction false} SizesToAscending(bits: seq<Byte>, l: nat)
    requires l < |bits|
    ensures forall i :: 0 <= i < |SizesTo(bits, l)| ==> 1 <= SizesTo(bits, l)[i] <= l
    ensures forall i, j :: 0 <= i <= j < |SizesTo(bits, l)| ==> SizesTo(bits, l)[i] <= SizesTo(bits, l)[j]
  {
    if l > 0 { SizesToAscending(bits, l - 1); }
  }

  lemma SizesAscending(bits: seq<Byte>)
    requires |bits| == 17
    ensures Ascending(Sizes(bits))
  {
    SizesToAscending(bits, 16);
  }

  ghost predicate Distinct(val: seq<Byte>) {
    forall p, q :: 0 <= p < q < |val| ==> val[p] != val[q]
  }

  /** A table with one symbol per code, at most 256 of them, whose lengths fit into a prefix code. */
  ghost predicate ValidTable(t: TableSpec) {
    && |t.bits| == 17 && |Sizes(t.bits)| == |t.val| <= 256
    && Distinct(t.val) && FittingLengths(Sizes(t.bits), 16)
  }

  /** The code of a symbol, empty if the table has none for it. */
  ghost function SymbolCode(t: TableSpec, symbol: nat): BitString
    requires ValidTable(t)
  {
    if exists p :: 0 <= p < |t.val| && t.val[p] == symbol then
      var p :| 0 <= p < |t.val| && t.val[p] == symbol;
      Codes(Sizes(t.bits))[p]
    else []
  }

  lemma SymbolCodeAt(t: TableSpec, p: nat)
    requires ValidTable(t) && p < |t.val|
    ensures SymbolCode(t, t.val[p]) == Codes(Sizes(t.bits))[p] && SymbolCode(t, t.val[p]) != []
  {
    hide FittingLengths, Codes, Sizes;
    UsedSymbol(t, p);
    NonemptySize(t.bits, p);
  }

  lemma UsedSymbol(t: TableSpec, p: nat)
    requires ValidTable(t) && p < |t.val|
    ensures SymbolCode(t, t.val[p]) == Codes(Sizes(t.bits))[p]
  {
    hide FittingLengths, Codes, Sizes;
    assert forall q :: 0 <= q < |t.val| && t.val[q] == t.val[p] ==> q == p;
  }

  lemma NonemptySize(bits: seq<Byte>, p: nat)
    requires |bits| == 17 && p < |Sizes(bits)|
    ensures 1 <= Sizes(bits)[p] <= 16 && Codes(Sizes(bits))[p] != []
  {
    hide Codes, SizesTo;
    SizesToAscending(bits, 16);
    assert |Codes(Sizes(bits))[p]| == Sizes(bits)[p];
  }

  /** No code of a symbol is a prefix of the code of another. */
  lemma SymbolCodesPrefixFree(t: TableSpec, a: nat, b: nat)
    requires ValidTable(t) && SymbolCode(t, a) != [] && SymbolCode(t, b) != [] && SymbolCode(t, a) <= SymbolCode(t, b)
    ensures a == b
  {
    hide FittingLengths, Codes;
    FittingPrefixFree(Sizes(t.bits), 16);
    var p :| 0 <= p < |t.val| && t.val[p] == a;
    var q :| 0 <= q < |t.val| && t.val[q] == b;
    SymbolCodeAt(t, p);
    SymbolCodeAt(t, q);
    assert Present(Codes(Sizes(t.bits)), p) && Present(Codes(Sizes(t.bits)), q);
  }

  /** The table has a code for every symbol below `limit` that was counted. */
  ghost predicate CodesForCounted(t: TableSpec, counts: seq<nat>, limit: nat)
    requires ValidTable(t)
  {
    forall s: nat :: s < limit && s < |counts| && counts[s] > 0 ==> SymbolCode(t, s) != []
  }

  // ---- The code lengths and codes, as both programs compute them ----

  /** Fills the list of code lengths, with a zero after it. */
  method ExpandSizes(bits: seq<Byte>) returns (huff_size: seq<nat>, last_p: nat)
    requires |bits| == 17
    ensures last_p == |Sizes(bits)| && huff_size == Sizes(bits) + [0]
  {
    huff_size := [];
    for l := 1 to 17
      invariant huff_size == SizesTo(bits, l - 1)
    {
      ghost var before := huff_size;
      for i := 0 to bits[l]
        invariant huff_size == before + Copies(l, i)
      {
        huff_size := huff_size + [l];
      }
    }
    last_p := |huff_size|;
    huff_size := huff_size + [0];
  }

  lemma {:induction false} NoneShorter(sizes: seq<nat>, l: nat, n: nat)
    requires n <= |sizes| && forall i :: 0 <= i < n ==> sizes[i] != l
    ensures CountUpTo(sizes, l, n) == 0
  {
    if n > 0 { NoneShorter(sizes, l, n - 1); }
  }

  lemma {:induction false} FirstCodeZero(sizes: seq<nat>, l: nat)
    requires forall i :: 0 <= i < |sizes| ==> l <= sizes[i]
    ensures FirstCode(sizes, l) == 0
  {
    if l > 0 {
      FirstCodeZero(sizes, l - 1);
      NoneShorter(sizes, l - 1, |sizes|);
    }
  }

  lemma {:induction false} CountRest(sizes: seq<nat>, l: nat, p: nat, n: nat)
    requires p <= n <= |sizes| && forall i :: p <= i < n ==> sizes[i] != l
    ensures CountUpTo(sizes, l, n) == CountUpTo(sizes, l, p)
  {
    if p < n { CountRest(sizes, l, p, n - 1); }
  }

  /** The codes before p are numbered; lengths below l lie before `start`, longer ones behind p. */
  ghost predicate Numbered(sizes: seq<nat>, codes: seq<nat>, start: nat, p: nat, l: nat) {
    && start <= p == |codes| <= |sizes|
    && (forall i :: 0 <= i < p ==> codes[i] == CodeNumber(sizes, i))
    && (forall i :: 0 <= i < start ==> sizes[i] < l)
    && (forall i :: start <= i < p ==> sizes[i] == l)
    && (forall i :: p <= i < |sizes| ==> l <= sizes[i])
  }

  lemma OneMore(sizes: seq<nat>, codes: seq<nat>, start: nat, p: nat, l: nat, code: nat)
    requires Numbered(sizes, codes, start, p, l) && p < |sizes| && sizes[p] == l
    requires code == FirstCode(sizes, l) + CountUpTo(sizes, l, p)
    ensures Numbered(sizes, codes + [code], start, p + 1, l)
    ensures code + 1 == FirstCode(sizes, l) + CountUpTo(sizes, l, p + 1)
  {
    hide FirstCode;
  }

  lemma LengthDone(sizes: seq<nat>, codes: seq<nat>, start: nat, p: nat, l: nat, code: nat)
    requires Numbered(sizes, codes, start, p, l) && Ascending(sizes) && (p < |sizes| ==> sizes[p] != l) && l > 0
    requires code == FirstCode(sizes, l) + CountUpTo(sizes, l, p)
    ensures Numbered(sizes, codes, p, p, l + 1)
    ensures 2 * code == FirstCode(sizes, l + 1) + CountUpTo(sizes, l + 1, p)
  {
    hide FirstCode, CodeNumber;
    forall i | p <= i < |sizes| ensures l < sizes[i] { assert sizes[p] <= sizes[i]; }
    CountRest(sizes, l, p, |sizes|);
    NextFirst(sizes, l);
    NoneShorter(sizes, l + 1, p);
  }

  /** Codes in ascending order, doubled at every change of length: the codes of Annex C. */
  method NumberCodes(huff_size: seq<nat>, last_p: nat) returns (huff_code: seq<nat>)
    requires |huff_size| == last_p + 1 && huff_size[last_p] == 0 && Ascending(huff_size[..last_p])
    ensures |huff_code| == last_p
    ensures forall p :: 0 <= p < last_p ==> huff_code[p] == CodeNumber(huff_size[..last_p], p)
  {
    hide FirstCode, CodeNumber, Numbered;
    ghost var sizes := huff_size[..last_p];
    var code, si, p := 0, huff_size[0], 0;
    huff_code := [];
    if last_p == 0 { return; }
    assert forall i :: 0 <= i < last_p ==> huff_size[i] == sizes[i];
    NothingNumbered(sizes, si);
    while huff_size[p] != 0
      invariant p <= last_p && si >= 1 && Numbered(sizes, huff_code, p, p, si)
      invariant code == FirstCode(sizes, si) + CountUpTo(sizes, si, p)
      decreases last_p - p, 17 - (si as int)
    {
      ghost var start := p;
      NextIsLonger(sizes, huff_code, p, si);
      while huff_size[p] == si
        invariant start <= p <= last_p && Numbered(sizes, huff_code, start, p, si)
        invariant code == FirstCode(sizes, si) + CountUpTo(sizes, si, p)
        decreases last_p - p
      {
        OneMore(sizes, huff_code, start, p, si, code);
        huff_code := huff_code + [code];
        p := p + 1;
        code := code + 1;
      }
      LengthDone(sizes, huff_code, start, p, si, code);
      code := code * 2;
      si := si + 1;
    }
    AllNumbered(sizes, huff_code, p, si);
  }

  lemma NothingNumbered(sizes: seq<nat>, l: nat)
    requires sizes != [] && Ascending(sizes) && l == sizes[0]
    ensures l >= 1 && Numbered(sizes, [], 0, 0, l) && FirstCode(sizes, l) + CountUpTo(sizes, l, 0) == 0
  {
    FirstCodeZero(sizes, l);
  }

  lemma NextIsLonger(sizes: seq<nat>, codes: seq<nat>, p: nat, l: nat)
    requires Numbered(sizes, codes, p, p, l) && p < |sizes| && Ascending(sizes)
    ensures l <= sizes[p] <= 16
  {
  }

  lemma AllNumbered(sizes: seq<nat>, codes: seq<nat>, p: nat, l: nat)
    requires Numbered(sizes, codes, p, p, l)
    ensures |codes| == p && forall i :: 0 <= i < p ==> codes[i] == CodeNumber(sizes, i)
  {
  }

  lemma NextFirst(sizes: seq<nat>, l: nat)
    ensures FirstCode(sizes, l + 1) == 2 * (FirstCode(sizes, l) + Count(sizes, l))
  {
  }

  /** The arrays that the encoder looks codes up in. */
  ghost predicate EncoderTable(codes: seq<nat>, code_sizes: seq<nat>, t: TableSpec)
    requires ValidTable(t)
  {
    && |codes| == 256 == |code_sizes|
    && forall symbol: Byte {:trigger code_sizes[symbol]} :: EncoderEntry(codes[symbol], code_sizes[symbol], t, symbol)
  }

  /** A symbol's code as a number and its length, which is 0 for a symbol without a code. */
  ghost predicate EncoderEntry(code: nat, size: nat, t: TableSpec, symbol: Byte)
    requires ValidTable(t)
  {
    size == |SymbolCode(t, symbol)| <= 16 && code < Pow2(size) && CodeBits(code, size) == SymbolCode(t, symbol)
  }

  /** compute_huffman_table. */
  method ComputeHuffmanTable(t: TableSpec) returns (codes: seq<nat>, code_sizes: seq<nat>)
    requires ValidTable(t)
    ensures EncoderTable(codes, code_sizes, t)
  {
    hide Codes, FittingLengths, CodeNumber, EncoderEntry, Sizes, Ascending;
    var huff_size, last_p := ExpandSizes(t.bits);
    assert huff_size[..last_p] == Sizes(t.bits);
    SizesAscending(t.bits);
    var huff_code := NumberCodes(huff_size, last_p);
    var codeOf := new nat[256](_ => 0);
    var sizeOf := new nat[256](_ => 0);
    for p := 0 to last_p
      invariant forall k :: 0 <= k < p ==> codeOf[t.val[k]] == huff_code[k] && sizeOf[t.val[k]] == huff_size[k]
      invariant forall symbol: Byte :: symbol !in t.val[..p] ==> codeOf[symbol] == 0 && sizeOf[symbol] == 0
    {
      codeOf[t.val[p]] := huff_code[p];
      sizeOf[t.val[p]] := huff_size[p];
      assert t.val[..p + 1] == t.val[..p] + [t.val[p]];
    }
    codes, code_sizes := codeOf[..], sizeOf[..];
    assert t.val[..last_p] == t.val;
    forall symbol: Byte ensures EncoderEntry(codes[symbol], code_sizes[symbol], t, symbol) {
      if p :| 0 <= p < |t.val| && t.val[p] == symbol {
        EntryOfCode(t, p);
      } else {
        EntryOfNone(t, symbol);
      }
    }
  }

  lemma EntryOfCode(t: TableSpec, p: nat)
    requires ValidTable(t) && p < |t.val|
    ensures EncoderEntry(CodeNumber(Sizes(t.bits), p), Sizes(t.bits)[p], t, t.val[p])
  {
    hide Sizes, Codes, CodeNumber, FittingLengths, SymbolCode;
    SymbolCodeAt(t, p);
    NonemptySize(t.bits, p);
    CodeAt(Sizes(t.bits), p);
    CodeFits(Sizes(t.bits), 16, p);
  }

  lemma EntryOfNone(t: TableSpec, symbol: Byte)
    requires ValidTable(t) && symbol !in t.val
    ensures EncoderEntry(0, 0, t, symbol)
  {
  }
}
