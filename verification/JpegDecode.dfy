/** Decoding one Huffman symbol with and without its extra bits (compositor/jpgd.cpp:492-562). */
module JpegDecode {
  import opened Bits
  import opened PrefixCode
  import opened Canonical
  import opened JpegBits
  import opened WordBits
  import opened JpegReader
  import opened JpegTables
  import opened JpegLookup

  // ---- Bits of the buffer ----

  /** A bit of the bit buffer, counted from its upper end. */
  lemma BufferBit(word: nat, s: BitString, i: nat)
    requires HoldsBits(word, 32, s) && i < |s| <= 32
    ensures Bit(word, 31 - i) == s[i]
  {
    hide HoldsBits, CodeValue, Pow2;
    var a, b := s[..i + 1], s[i + 1..];
    assert s == a + b;
    TopBits(word, 32, a, b);
    BitOfShift(word, 31 - i);
    assert a == s[..i] + [s[i]];
    CodeValuePush(s[..i], s[i]);
  }

  lemma {:induction false} BitOfShift(v: nat, k: nat)
    ensures (Shr(v, k) % 2 == 1) == Bit(v, k)
  {
    if k > 0 { BitOfShift(v / 2, k - 1); }
  }

  /** The first eight bits of the buffer are an index of the table. */
  lemma BufferIndex(word: nat, s: BitString)
    requires HoldsBits(word, 32, s) && |s| >= 8
    ensures Shr(word, 24) < 256 && CodeBits(Shr(word, 24), 8) == s[..8]
  {
    hide HoldsBits, CodeValue, Pow2, CodeBits;
    assert s == s[..8] + s[8..];
    TopBits(word, 32, s[..8], s[8..]);
    CodeValueBound(s[..8]);
    WordPower();
    CodeBitsOfCodeValue(s[..8]);
  }

  /** The low bits of the number of a bit string are its last bits. */
  lemma {:induction false} MaskOfBits(a: BitString, b: BitString)
    ensures Mask(CodeValue(a + b), |b|) == CodeValue(b)
  {
    if b != [] {
      var front, last := b[..|b| - 1], b[|b| - 1];
      assert a + b == a + front + [last] && b == front + [last];
      CodeValuePush(a + front, last);
      CodeValuePush(front, last);
      MaskOfBits(a, front);
    } else {
      assert a + b == a;
    }
  }

  lemma MaskStep(v: nat, n: nat)
    requires n > 0
    ensures Mask(v, n) == 2 * Mask(v / 2, n - 1) + B2N(v % 2 == 1)
    ensures CodeBits(v, n) == CodeBits(v / 2, n - 1) + [v % 2 == 1]
  {
  }

  lemma MaskOfNothing(v: nat)
    ensures Mask(v, 0) == 0 && CodeBits(v, 0) == [] && CodeValue([]) == 0
  {
  }

  lemma {:induction false} MaskOfCode(v: nat, n: nat)
    ensures Mask(v, n) == CodeValue(CodeBits(v, n))
  {
    hide CodeValue, CodeBits, Mask;
    if n > 0 {
      var front := CodeBits(v / 2, n - 1);
      MaskOfCode(v / 2, n - 1);
      CodeValuePush(front, v % 2 == 1);
      MaskStep(v, n);
    } else {
      MaskOfNothing(v);
    }
  }

  /** The extra bits packed into an entry are the bits behind the code. */
  lemma PackedBits(v: nat, size: nat, extra: nat)
    requires size + extra <= 8
    ensures Mask(Shr(v, 8 - (size + extra)), extra) == CodeValue(CodeBits(v, 8)[size..size + extra])
  {
    hide CodeBits, Mask, CodeValue;
    var w := Shr(v, 8 - (size + extra));
    CodeBitsPrefix(v, 8, size + extra);
    MaskOfCode(w, extra);
    LastBits(w, size, extra);
    assert CodeBits(v, 8)[size..size + extra] == CodeBits(v, 8)[..size + extra][size..];
  }

  lemma {:induction false} LastBits(v: nat, m: nat, n: nat)
    ensures CodeBits(v, m + n)[m..] == CodeBits(v, n)
  {
    if n > 0 { LastBits(v / 2, m, n - 1); }
  }

  // ---- What a walk through the tree finds ----

  /** Code p lies ahead. */
  ghost predicate CodeAhead(all: seq<BitString>, p: nat, u: seq<Byte>, bp: nat) {
    p < |all| && all[p] == Ahead(u, bp, |all[p]|)
  }

  lemma AheadPrefix(u: seq<Byte>, bp: nat, m: nat, n: nat)
    requires m <= n
    ensures Ahead(u, bp, n)[..m] == Ahead(u, bp, m)
  {
  }

  lemma LinkedAt(nodes: seq<BitString>, all: seq<BitString>, p: nat, k: nat)
    requires Linked(nodes, all) && p < |all|
    ensures 8 <= k < |all[p]| ==> all[p][..k] in nodes
  {
  }

  /** A short code ahead is the one that the table entry knows. */
  lemma TableEnd(nodes: seq<BitString>, all: seq<BitString>, val: seq<Byte>, u: seq<Byte>, bp: nat, p: nat)
    requires CodeList(all, val) && Linked(nodes, all) && CodeAhead(all, p, u, bp) && Ahead(u, bp, 8) !in nodes
    ensures |all[p]| <= 8 && FindPrefix(all, Ahead(u, bp, 8)) == p
  {
    hide CodeList, Ahead;
    if |all[p]| > 8 {
      AheadPrefix(u, bp, 8, |all[p]|);
      LinkedAt(nodes, all, p, 8);
      assert false;
    }
    AheadPrefix(u, bp, |all[p]|, 8);
    assert all[p] <= Ahead(u, bp, 8);
    var q := FindPrefix(all, Ahead(u, bp, 8));
    CommonExtension(all, val, q, p, Ahead(u, bp, 8));
  }

  /** A code ahead that is not found before the walk leaves the nodes is where it ends. */
  lemma WalkEnd(nodes: seq<BitString>, all: seq<BitString>, val: seq<Byte>, u: seq<Byte>, bp: nat, p: nat, j: nat)
    requires CodeList(all, val) && Linked(nodes, all) && NodesOk(nodes, all) && CodeAhead(all, p, u, bp)
    requires 8 <= j && Ahead(u, bp, j) in nodes && Ahead(u, bp, j + 1) !in nodes
    ensures |all[p]| == j + 1 && Find(all, Ahead(u, bp, j + 1)) == p
  {
    hide CodeList, Ahead, NodesOk;
    var m := Find(nodes, Ahead(u, bp, j));
    if |all[p]| <= j {
      AheadPrefix(u, bp, |all[p]|, j);
      NotBelowCode(nodes, all, val, m, p);
      assert false;
    }
    LinkedAt(nodes, all, p, j + 1);
    if |all[p]| > j + 1 {
      AheadPrefix(u, bp, j + 1, |all[p]|);
      assert false;
    }
    var q := Find(all, Ahead(u, bp, j + 1));
    CommonExtension(all, val, q, p, Ahead(u, bp, j + 1));
  }

  lemma HoldsParts(h: HuffTables, all: seq<BitString>, val: seq<Byte>)
    requires h.Holds(all, val, |val|)
    ensures |all| == |val| && CodeList(all, val) && Linked(h.nodes, all) && NodesOk(h.nodes, all)
    ensures LookOk(h.look_up[..], h.look_up2[..], h.nodes, all, val)
    ensures h.look_up.Length == 256 == h.look_up2.Length && h.code_size.Length == 256 && h.tree.Length == 512
    ensures |h.nodes| <= 256
  {
    assert all[..|val|] == all;
  }

  lemma NodeCell(h: HuffTables, all: seq<BitString>, val: seq<Byte>, m: nat, bit: bool)
    requires h.Holds(all, val, |val|) && m < |h.nodes|
    ensures CellOf(m, bit) < 512 == h.tree.Length && |all| == |val|
    ensures h.tree[CellOf(m, bit)] == TreeValue(h.nodes, all, val, h.nodes[m] + [bit])
  {
    hide LookOk, CodeList, Linked, TreeValue, NodesOk;
    ListLength(all, val);
    assert all[..|val|] == all;
    assert h.tree[..][CellOf(m, bit)] == TreeValue(h.nodes, all, val, h.nodes[m] + [bit]);
  }

  lemma NodeDepths(nodes: seq<BitString>, all: seq<BitString>, m: nat, path: BitString)
    requires NodesOk(nodes, all) && m < |nodes|
    ensures 8 <= |nodes[m]| < 16 && (path in nodes ==> |path| < 16)
  {
  }

  /** What a step of the walk reads: the next node, or where the walk ends. */
  lemma WalkStep(h: HuffTables, all: seq<BitString>, val: seq<Byte>, u: seq<Byte>, bp: nat, m: nat, bit: bool)
    requires h.Holds(all, val, |val|) && m < |h.nodes| && h.nodes[m] == Ahead(u, bp, |h.nodes[m]|)
    requires bit == Ahead(u, bp, 16)[|h.nodes[m]|]
    ensures 8 <= |h.nodes[m]| < 16 && CellOf(m, bit) < 512 == h.tree.Length
    ensures
      var path := Ahead(u, bp, |h.nodes[m]| + 1);
      && h.tree[CellOf(m, bit)] == TreeValue(h.nodes, all, val, path)
      && (path in h.nodes ==> |h.nodes[m]| + 1 < 16)
  {
    hide HuffTables.Holds, Ahead, TreeValue;
    HoldsParts(h, all, val);
    NodeCell(h, all, val, m, bit);
    NodeDepths(h.nodes, all, m, Ahead(u, bp, |h.nodes[m]| + 1));
    var j := |h.nodes[m]|;
    AheadPrefix(u, bp, j, j + 1);
    AheadPrefix(u, bp, j + 1, 16);
    assert Ahead(u, bp, j + 1) == h.nodes[m] + [bit];
  }

  // ---- huff_decode ----

  /** The tables hold all codes. */
  ghost predicate Complete(h: HuffTables, t: TableSpec)
    reads h`nodes, h.look_up, h.look_up2, h.tree
  {
    |t.bits| == 17 && ValidTable(t) && h.Holds(Codes(Sizes(t.bits)), t.val, |t.val|)
  }

  /** No code of the table lies ahead. */
  ghost predicate NoCodeAhead(t: TableSpec, u: seq<Byte>, bp: nat)
    requires |t.bits| == 17
  {
    forall p: nat {:trigger CodeAhead(Codes(Sizes(t.bits)), p, u, bp)} :: !CodeAhead(Codes(Sizes(t.bits)), p, u, bp)
  }

  /** The walk through the tree from the node of the first eight bits: the symbol and how many bits it took. */
  method Walk(h: HuffTables, r: BitReader, entry: int, ghost t: TableSpec) returns (symbol: Byte, length: nat)
    requires Complete(h, t) && r.Valid() && Ahead(r.u, r.bp, 8) in h.nodes
    requires entry == Entry(Find(h.nodes, Ahead(r.u, r.bp, 8)))
    ensures 8 < length <= 16
    ensures forall p: nat :: CodeAhead(Codes(Sizes(t.bits)), p, r.u, r.bp) ==>
      |t.val| == |Codes(Sizes(t.bits))| && symbol == t.val[p] && length == |Codes(Sizes(t.bits))[p]|
    ensures NoCodeAhead(t, r.u, r.bp) ==> symbol == 0
  {
    hide ValidTable, HuffTables.Holds, Codes, Sizes, Ahead, TreeValue, HoldsBits, Feeds, Bit, CodeAhead;
    ghost var all, val, u, bp := Codes(Sizes(t.bits)), t.val, r.u, r.bp;
    ghost var nodes := h.nodes;
    HoldsParts(h, all, val);
    var current := entry;
    var ofs: int := 23;
    ghost var m: nat := Find(nodes, Ahead(u, bp, 8));
    ghost var held := r.bits_left + 16;
    AheadPrefix(u, bp, 16, held);
    while true
      invariant 16 <= ofs <= 23 && m < |nodes| && nodes[m] == Ahead(u, bp, 31 - ofs) && current == Entry(m)
      invariant |nodes[m]| == 31 - ofs
      decreases ofs
    {
      var bit := Bit(r.bit_buf, ofs);
      ghost var j := 31 - ofs;
      BufferBit(r.bit_buf, Ahead(u, bp, held), j);
      assert Ahead(u, bp, held)[j] == Ahead(u, bp, 16)[j];
      WalkStep(h, all, val, u, bp, m, bit);
      var next := h.tree[-(current + (if bit then 1 else 0))];
      ofs := ofs - 1;
      ghost var path := Ahead(u, bp, j + 1);
      WalkValue(nodes, all, val, path);
      if next >= 0 {
        symbol := next;
        length := 8 + (23 - ofs);
        assert nodes[m] in nodes;
        WalkResult(nodes, all, val, u, bp, j, symbol);
        break;
      }
      current := next;
      m := Find(nodes, path);
    }
  }

  lemma WalkValue(nodes: seq<BitString>, all: seq<BitString>, val: seq<Byte>, path: BitString)
    requires |all| == |val|
    ensures TreeValue(nodes, all, val, path) >= 0 <==> path !in nodes
    ensures TreeValue(nodes, all, val, path) < 0 ==> TreeValue(nodes, all, val, path) == Entry(Find(nodes, path))
    ensures TreeValue(nodes, all, val, path) < 256
  {
  }

  lemma WalkResult(nodes: seq<BitString>, all: seq<BitString>, val: seq<Byte>, u: seq<Byte>, bp: nat, j: nat, symbol: int)
    requires CodeList(all, val) && |all| == |val| && Linked(nodes, all) && NodesOk(nodes, all)
    requires 8 <= j && Ahead(u, bp, j) in nodes && Ahead(u, bp, j + 1) !in nodes
    requires symbol == TreeValue(nodes, all, val, Ahead(u, bp, j + 1))
    ensures forall p: nat :: CodeAhead(all, p, u, bp) ==> symbol == val[p] && j + 1 == |all[p]|
    ensures (forall p: nat :: !CodeAhead(all, p, u, bp)) ==> symbol == 0
  {
    hide CodeList, Ahead, NodesOk, Linked;
    forall p: nat | CodeAhead(all, p, u, bp) ensures symbol == val[p] && j + 1 == |all[p]| {
      WalkEnd(nodes, all, val, u, bp, p, j);
    }
    var q := Find(all, Ahead(u, bp, j + 1));
    if q < |all| { assert CodeAhead(all, q, u, bp); }
  }

  /** The code of the symbol lies ahead. */
  ghost predicate SymbolAhead(t: TableSpec, symbol: nat, u: seq<Byte>, bp: nat)
    requires ValidTable(t)
  {
    SymbolCode(t, symbol) != [] && SymbolCode(t, symbol) == Ahead(u, bp, |SymbolCode(t, symbol)|)
  }

  lemma SymbolIsCode(t: TableSpec, symbol: nat, u: seq<Byte>, bp: nat) returns (p: nat)
    requires ValidTable(t) && SymbolAhead(t, symbol, u, bp)
    ensures CodeAhead(Codes(Sizes(t.bits)), p, u, bp) && p < |t.val| && t.val[p] == symbol
    ensures |Codes(Sizes(t.bits))[p]| == |SymbolCode(t, symbol)|
  {
    hide Codes, FittingLengths, Ahead, Sizes;
    p :| 0 <= p < |t.val| && t.val[p] == symbol;
    SymbolCodeAt(t, p);
  }

  lemma CodeIsSymbol(t: TableSpec, p: nat, u: seq<Byte>, bp: nat)
    requires ValidTable(t) && CodeAhead(Codes(Sizes(t.bits)), p, u, bp)
    ensures p < |t.val| && SymbolAhead(t, t.val[p], u, bp)
  {
    hide Codes, FittingLengths, Ahead, Sizes;
    SymbolCodeAt(t, p);
  }

  /** What a decoder makes of the bits ahead: the symbol whose code they begin with, and symbol 0 for no code. */
  ghost predicate Decodes(t: TableSpec, u: seq<Byte>, bp: nat, symbol: nat, length: nat)
    requires ValidTable(t)
  {
    && (forall s: nat {:trigger SymbolAhead(t, s, u, bp)} ::
          SymbolAhead(t, s, u, bp) ==> symbol == s && length == |SymbolCode(t, s)|)
    && ((forall s: nat {:trigger SymbolAhead(t, s, u, bp)} :: !SymbolAhead(t, s, u, bp)) ==> symbol == 0)
  }

  lemma DecodesByCode(t: TableSpec, u: seq<Byte>, bp: nat, symbol: nat, length: nat)
    requires ValidTable(t) && |Codes(Sizes(t.bits))| == |t.val|
    requires forall p: nat {:trigger CodeAhead(Codes(Sizes(t.bits)), p, u, bp)} ::
      CodeAhead(Codes(Sizes(t.bits)), p, u, bp) ==> p < |t.val| && symbol == t.val[p] && length == |Codes(Sizes(t.bits))[p]|
    requires NoCodeAhead(t, u, bp) ==> symbol == 0
    ensures Decodes(t, u, bp, symbol, length)
  {
    hide FittingLengths, Distinct, Codes, Sizes, SymbolAhead, CodeAhead;
    forall s: nat | SymbolAhead(t, s, u, bp) ensures symbol == s && length == |SymbolCode(t, s)| {
      var p := SymbolIsCode(t, s, u, bp);
    }
    if !NoCodeAhead(t, u, bp) {
      var p: nat :| CodeAhead(Codes(Sizes(t.bits)), p, u, bp);
      CodeIsSymbol(t, p, u, bp);
    }
  }

  /** What the entry for the first eight bits says. */
  lemma TableEntry(nodes: seq<BitString>, t: TableSpec, u: seq<Byte>, bp: nat, v: nat)
    requires ValidTable(t) && |Codes(Sizes(t.bits))| == |t.val| && v < 256 && CodeBits(v, 8) == Ahead(u, bp, 8)
    requires CodeList(Codes(Sizes(t.bits)), t.val) && Linked(nodes, Codes(Sizes(t.bits)))
    ensures
      var all, value := Codes(Sizes(t.bits)), LookValue2(nodes, Codes(Sizes(t.bits)), t.val, v);
      if Ahead(u, bp, 8) in nodes then value == Entry(Find(nodes, Ahead(u, bp, 8)))
      else
        var p := FindPrefix(all, Ahead(u, bp, 8));
        var symbol := if p < |all| then t.val[p] else 0;
        var length := if p < |all| then |all[p]| else 0;
        length <= 8 && value == Pack(symbol, length, v) && Decodes(t, u, bp, symbol, length)
  {
    hide FittingLengths, Distinct, Codes, Sizes, Ahead, CodeBits, Pack, Decodes, CodeList, Linked;
    var all := Codes(Sizes(t.bits));
    if Ahead(u, bp, 8) !in nodes {
      var p := FindPrefix(all, Ahead(u, bp, 8));
      var symbol := if p < |all| then t.val[p] else 0;
      var length := if p < |all| then |all[p]| else 0;
      PackOfNothing(v);
      if p < |all| { AheadPrefix(u, bp, |all[p]|, 8); }
      forall q: nat | CodeAhead(all, q, u, bp) ensures q < |t.val| && symbol == t.val[q] && length == |all[q]| {
        TableEnd(nodes, all, t.val, u, bp, q);
      }
      if p < |all| {
        assert all[p] == Ahead(u, bp, 8)[..|all[p]|];
        assert CodeAhead(all, p, u, bp);
      }
      DecodesByCode(t, u, bp, symbol, length);
    }
  }

  lemma PackOfNothing(v: nat)
    ensures Pack(0, 0, v) == 0
  {
  }

  /** The fields of an entry. */
  lemma Unpack(symbol: nat, size: nat, v: nat)
    requires symbol < 256 && size <= 8
    ensures
      var x, extra := Pack(symbol, size, v), symbol % 16;
      && x % 256 == symbol
      && (x / 0x8000 % 2 == 1 <==> extra != 0 && size + extra <= 8)
      && (x / 0x8000 % 2 == 1 ==>
            x / 256 % 32 == size + extra && x / 65536 == Mask(Shr(v, 8 - (size + extra)), extra))
      && (x / 0x8000 % 2 == 0 ==> x / 256 % 32 == size && x % 16 == extra)
  {
    hide Mask, Shr;
    var extra := symbol % 16;
    if extra != 0 && size + extra <= 8 {
      Fields(symbol, size + extra, Mask(Shr(v, 8 - (size + extra)), extra));
    } else {
      FieldsWithout(symbol, size);
    }
  }

  lemma FieldsWithout(symbol: nat, bits: nat)
    requires symbol < 256 && bits < 32
    ensures
      var x := symbol + bits * 256;
      x % 256 == symbol && x / 0x8000 % 2 == 0 && x / 256 % 32 == bits && x % 16 == symbol % 16
  {
    DivUnique(symbol + bits * 256, 256, bits, symbol);
  }

  lemma Fields(symbol: nat, bits: nat, extra: nat)
    requires symbol < 256 && bits < 32
    ensures
      var x := symbol + 0x8000 + extra * 65536 + bits * 256;
      x % 256 == symbol && x / 0x8000 % 2 == 1 && x / 256 % 32 == bits && x / 65536 == extra
  {
    var x := symbol + 0x8000 + extra * 65536 + bits * 256;
    DivUnique(x, 65536, extra, symbol + 0x8000 + bits * 256);
    DivUnique(x, 0x8000, 2 * extra + 1, symbol + bits * 256);
    DivUnique(2 * extra + 1, 2, extra, 1);
    DivUnique(x, 256, extra * 256 + 128 + bits, symbol);
    DivUnique(extra * 256 + 128 + bits, 32, 8 * extra + 4, bits);
  }

  /** Both reads of a code and its extra bits give the same, whichever way the buffer allows. */
  method ReadCodeAndExtra(r: BitReader, code_size: nat, num_extra_bits: nat) returns (extra_bits: nat)
    requires r.Valid() && code_size <= 8 && num_extra_bits <= 15
    modifies r`pos, r`tem_flag, r`taken, r`bit_buf, r`bits_left, r`bp
    ensures r.Valid() && r.bp == old(r.bp) + code_size + num_extra_bits
    ensures extra_bits == CodeValue(Ahead(r.u, old(r.bp) + code_size, num_extra_bits))
  {
    hide Feeds, HoldsBits, Ahead, CodeValue;
    var bits := code_size + num_extra_bits;
    if bits <= r.bits_left + 16 {
      AheadConcat(r.u, r.bp, code_size, num_extra_bits);
      MaskOfBits(Ahead(r.u, r.bp, code_size), Ahead(r.u, r.bp + code_size, num_extra_bits));
      var all := r.GetBits(bits);
      extra_bits := Mask(all, num_extra_bits);
    } else {
      var code := r.GetBits(code_size);
      extra_bits := r.GetBits(num_extra_bits);
    }
  }

  /** huff_decode with extra bits: one symbol and, as many as its low four bits say, the bits after its code. */
  method HuffDecodeExtra(h: HuffTables, r: BitReader, ghost t: TableSpec)
    returns (symbol: Byte, extra_bits: nat, ghost length: nat)
    requires Complete(h, t) && r.Valid()
    modifies r`pos, r`tem_flag, r`taken, r`bit_buf, r`bits_left, r`bp
    ensures r.Valid() && Decodes(t, r.u, old(r.bp), symbol, length)
    ensures r.bp == old(r.bp) + length + symbol % 16
    ensures extra_bits == CodeValue(Ahead(r.u, old(r.bp) + length, symbol % 16))
  {
    hide ValidTable, HuffTables.Holds, Codes, Sizes, Ahead, HoldsBits, Feeds, CodeBits, Pack, Decodes, LookValue2, CodeValue, Linked,
         CodeList, NodesOk;
    ghost var all, u, bp := Codes(Sizes(t.bits)), r.u, r.bp;
    HoldsParts(h, all, t.val);
    ghost var held := r.bits_left + 16;
    AheadPrefix(u, bp, 8, held);
    BufferIndex(r.bit_buf, Ahead(u, bp, held));
    var index := Shr(r.bit_buf, 24);
    TableEntry(h.nodes, t, u, bp, index);
    var entry := h.look_up2[index];
    assert entry == LookValue2(h.nodes, all, t.val, index);
    PackNonNegative();
    if entry < 0 {
      assert Ahead(u, bp, 8) in h.nodes;
      var taken;
      symbol, taken := Walk(h, r, entry, t);
      length := taken;
      DecodesByCode(t, u, bp, symbol, length);
      var code := r.GetBits(taken);
      extra_bits := r.GetBits(symbol % 16);
    } else {
      ghost var p := FindPrefix(all, Ahead(u, bp, 8));
      ghost var s: nat := if p < |all| then t.val[p] else 0;
      length := if p < |all| then |all[p]| else 0;
      Unpack(s, length, index);
      symbol := entry % 256;
      if entry / 0x8000 % 2 == 1 {
        PackedBits(index, length, s % 16);
        AheadConcat(u, bp, length, s % 16);
        AheadPrefix(u, bp, length + s % 16, 8);
        assert CodeBits(index, 8)[length..length + s % 16] == Ahead(u, bp, 8)[..length + s % 16][length..];
        extra_bits := entry / 65536;
        var code := r.GetBits(entry / 256 % 32);
      } else {
        extra_bits := ReadCodeAndExtra(r, entry / 256 % 32, entry % 16);
      }
    }
  }

  /** huff_decode without extra bits, which takes the length of a short code from the symbol it found. */
  method HuffDecode(h: HuffTables, r: BitReader, ghost t: TableSpec) returns (symbol: Byte, ghost length: nat)
    requires Complete(h, t) && r.Valid() && h.code_size.Length == 256
    requires forall p :: 0 <= p < |t.val| ==> |Sizes(t.bits)| == |t.val| && h.code_size[t.val[p]] == Sizes(t.bits)[p]
    requires forall symbol :: 0 <= symbol < 256 ==> h.code_size[symbol] <= 16
    modifies r`pos, r`tem_flag, r`taken, r`bit_buf, r`bits_left, r`bp
    ensures r.Valid() && Decodes(t, r.u, old(r.bp), symbol, length) && r.bp == old(r.bp) + length
  {
    hide ValidTable, HuffTables.Holds, Codes, Ahead, HoldsBits, Feeds, CodeBits, Decodes, LookValue, Linked, CodeList, NodesOk;
    ghost var all, u, bp := Codes(Sizes(t.bits)), r.u, r.bp;
    HoldsParts(h, all, t.val);
    ghost var held := r.bits_left + 16;
    AheadPrefix(u, bp, 8, held);
    BufferIndex(r.bit_buf, Ahead(u, bp, held));
    var index := Shr(r.bit_buf, 24);
    FirstEntry(h.nodes, t, u, bp, index);
    var entry := h.look_up[index];
    assert entry == LookValue(h.nodes, all, t.val, CodeBits(index, 8));
    PackNonNegative();
    if entry < 0 {
      var taken;
      symbol, taken := Walk(h, r, entry, t);
      length := taken;
      DecodesByCode(t, u, bp, symbol, length);
      var code := r.GetBits(taken);
    } else {
      symbol := entry;
      length := h.code_size[symbol];
      var code := r.GetBits(h.code_size[symbol]);
    }
  }

  /** The entry of the table without extra bits. */
  lemma FirstEntry(nodes: seq<BitString>, t: TableSpec, u: seq<Byte>, bp: nat, v: nat)
    requires ValidTable(t) && |Codes(Sizes(t.bits))| == |t.val| && v < 256 && CodeBits(v, 8) == Ahead(u, bp, 8)
    requires CodeList(Codes(Sizes(t.bits)), t.val) && Linked(nodes, Codes(Sizes(t.bits)))
    ensures
      var all, value := Codes(Sizes(t.bits)), LookValue(nodes, Codes(Sizes(t.bits)), t.val, CodeBits(v, 8));
      if Ahead(u, bp, 8) in nodes then value == Entry(Find(nodes, Ahead(u, bp, 8)))
      else
        var p := FindPrefix(all, Ahead(u, bp, 8));
        && value == (if p < |all| then t.val[p] else 0)
        && (p < |all| ==> Decodes(t, u, bp, value, Sizes(t.bits)[p]))
        && (p == |all| ==> forall length :: Decodes(t, u, bp, 0, length))
  {
    hide FittingLengths, Distinct, Codes, Ahead, CodeBits, Decodes, CodeList, Linked;
    var all := Codes(Sizes(t.bits));
    if Ahead(u, bp, 8) !in nodes {
      var p := FindPrefix(all, Ahead(u, bp, 8));
      if p < |all| { AheadPrefix(u, bp, |all[p]|, 8); }
      forall q: nat | CodeAhead(all, q, u, bp) ensures p == q { TableEnd(nodes, all, t.val, u, bp, q); }
      if p < |all| {
        assert all[p] == Ahead(u, bp, 8)[..|all[p]|];
        assert CodeAhead(all, p, u, bp);
        DecodesByCode(t, u, bp, t.val[p], |all[p]|);
      } else {
        forall length: nat ensures Decodes(t, u, bp, 0, length) { DecodesByCode(t, u, bp, 0, length); }
      }
    }
  }

  lemma PackNonNegative()
    ensures forall m: nat :: Entry(m) < 0
  {
  }
}
