/** The decoder's loop over one block (section F.2.2 of T.81; compositor/jpgd.cpp:1757, 1768-1853). */
module JpegBlockDecode {
  import opened Bits
  import opened PrefixCode
  import opened Canonical
  import opened JpegBits
  import opened WordBits
  import opened JpegReader
  import opened JpegTables
  import opened JpegLookup
  import opened JpegDecode
  import opened JpegBlocks
  import opened JpegZigzag

  /** The conversion to a 16-bit coefficient. */
  function Cast16(x: int): int { (x + 32768) % 65536 - 32768 }

  // ---- Reference: what a sequence of symbols makes of a cleared block ----

  /** A decoded symbol, its extra bits, and the length of its code. */
  datatype Sym = Sym(symbol: nat, extra: nat, length: nat)

  /** Coefficients in zigzag order, the next index, whether the block is over, and whether it is in error. */
  datatype State = State(coefs: seq<int>, k: nat, over: bool, error: bool)

  function ZeroBlock(): seq<int> { seq(64, i => 0) }

  function StepAc(st: State, x: Sym, q: seq<int>): (r: State)
    requires |st.coefs| == 64 == |q| && st.k < 64
    ensures |r.coefs| == 64
  {
    var s, run := x.symbol % 16, x.symbol / 16;
    if s != 0 then
      if st.k + run > 63 then st.(over := true, error := true)
      else State(st.coefs[st.k + run := Cast16(Extend(x.extra, s) * q[st.k + run])], st.k + run + 1, st.k + run + 1 >= 64, false)
    else if run == 15 then
      if st.k + 16 > 64 then st.(over := true, error := true)
      else st.(k := st.k + 16, over := st.k + 16 >= 64)
    else st.(over := true)
  }

  /** All symbols of a block, from a block of zeros with its first coefficient. */
  ghost function Replay(dc: int, q: seq<int>, trace: seq<Sym>): (r: State)
    requires |q| == 64
    ensures |r.coefs| == 64 && (!r.over ==> r.k < 64)
  {
    if trace == [] then State(ZeroBlock()[0 := dc], 1, false, false)
    else
      var st := Replay(dc, q, trace[..|trace| - 1]);
      if st.over then st else StepAc(st, trace[|trace| - 1], q)
  }

  lemma ReplayPush(dc: int, q: seq<int>, trace: seq<Sym>, x: Sym)
    requires |q| == 64 && !Replay(dc, q, trace).over
    ensures Replay(dc, q, trace + [x]) == StepAc(Replay(dc, q, trace), x, q)
  {
    assert (trace + [x])[..|trace|] == trace;
  }

  /** Behind the next index a replayed block is zero. */
  lemma {:induction false} ReplayZeros(dc: int, q: seq<int>, trace: seq<Sym>)
    requires |q| == 64
    ensures
      var st := Replay(dc, q, trace);
      1 <= st.k <= 64 && forall k :: st.k <= k < 64 ==> st.coefs[k] == 0
  {
    if trace != [] { ReplayZeros(dc, q, trace[..|trace| - 1]); }
  }

  /** The symbols are what the tables make of the stream, one after the other. */
  ghost predicate TraceOf(trace: seq<Sym>, t: TableSpec, u: seq<Byte>, bp: nat, end: nat)
    requires ValidTable(t)
  {
    if trace == [] then end == bp
    else
      var x := trace[|trace| - 1];
      && bp + x.length + x.symbol % 16 <= end
      && TraceOf(trace[..|trace| - 1], t, u, bp, end - (x.length + x.symbol % 16))
      && Decodes(t, u, end - (x.length + x.symbol % 16), x.symbol, x.length)
      && x.extra == CodeValue(Ahead(u, end - x.symbol % 16, x.symbol % 16))
  }

  lemma TracePush(trace: seq<Sym>, t: TableSpec, u: seq<Byte>, bp: nat, at: nat, x: Sym)
    requires ValidTable(t) && TraceOf(trace, t, u, bp, at) && bp <= at && Decodes(t, u, at, x.symbol, x.length)
    requires x.extra == CodeValue(Ahead(u, at + x.length, x.symbol % 16))
    ensures TraceOf(trace + [x], t, u, bp, at + x.length + x.symbol % 16)
  {
    hide ValidTable, Decodes, CodeValue, Ahead;
    assert (trace + [x])[..|trace|] == trace;
  }

  // ---- The block in memory ----

  /**
   * The block at base: zigzag positions before k are done, those from `prev` on are zero. Between k and prev
   * there may be coefficients of an earlier block.
   */
  ghost predicate BlockState(p: seq<int>, base: nat, coefs: seq<int>, k: nat, prev: nat) {
    && |coefs| == 64 && base + 64 <= |p|
    && (forall i: nat {:trigger Zag(i)} :: i < 64 ==> Zag(i) < 64)
    && (forall i: nat {:trigger Zag(i)} :: i < 64 && i < k ==> p[base + Zag(i)] == coefs[i])
    && (forall i: nat {:trigger Zag(i)} :: i < 64 && i >= k && i >= prev ==> p[base + Zag(i)] == 0)
  }

  lemma ZagInjective(i: nat, j: nat)
    requires i < 64 && j < 64 && i != j
    ensures Zag(i) != Zag(j)
  {
    hide Zag, Place;
    ZagPlace(i);
    ZagPlace(j);
  }

  /** Storing the next coefficient. */
  lemma StateStore(p: seq<int>, base: nat, coefs: seq<int>, k: nat, prev: nat, v: int)
    requires BlockState(p, base, coefs, k, prev) && k < 64
    ensures Zag(k) < 64
    ensures BlockState(p[base + Zag(k) := v], base, coefs[k := v], k + 1, prev)
  {
    hide Zag;
    forall i: nat | i < 64 && i != k ensures Zag(i) != Zag(k) { ZagInjective(i, k); }
  }

  /** Zeroing the next position, which is what an untouched block has there. */
  lemma StateZero(p: seq<int>, base: nat, coefs: seq<int>, k: nat, prev: nat)
    requires BlockState(p, base, coefs, k, prev) && k < 64 && coefs[k] == 0
    ensures Zag(k) < 64
    ensures BlockState(p[base + Zag(k) := 0], base, coefs, k + 1, prev)
  {
    StateStore(p, base, coefs, k, prev, 0);
    assert coefs[k := 0] == coefs;
  }

  /** Positions that are zero already need no write. */
  lemma StateSkip(p: seq<int>, base: nat, coefs: seq<int>, k: nat, n: nat, prev: nat)
    requires BlockState(p, base, coefs, k, prev) && k >= prev && n <= 64
    requires forall i :: k <= i < n ==> coefs[i] == 0
    ensures k <= n ==> BlockState(p, base, coefs, n, prev)
  {
    hide Zag;
  }

  /** The other positions of memory are untouched. */
  ghost predicate SameOutside(before: seq<int>, now: seq<int>, base: nat) {
    |before| == |now| && base + 64 <= |now| && now[..base] == before[..base] && now[base + 64..] == before[base + 64..]
  }

  /** Clears what an earlier block left between k and `end`; the rest up to `end` is zero already. */
  method ClearRun(p: array<int>, base: nat, k: nat, end: nat, prev_num_set: nat, ghost coefs: seq<int>)
    requires BlockState(p[..], base, coefs, k, prev_num_set) && k <= end <= 64
    requires forall i :: k <= i < end ==> coefs[i] == 0
    modifies p
    ensures BlockState(p[..], base, coefs, end, prev_num_set) && SameOutside(old(p[..]), p[..], base)
  {
    hide BlockState, Zag;
    StateBounds(p[..], base, coefs, k, prev_num_set);
    if k < prev_num_set {
      var n: nat := if end - k <= prev_num_set - k then end - k else prev_num_set - k;
      var kt: nat := k;
      while n != 0
        invariant k <= kt && kt + n == (if end <= prev_num_set then end else prev_num_set)
        invariant BlockState(p[..], base, coefs, kt, prev_num_set) && SameOutside(old(p[..]), p[..], base)
        decreases n
      {
        StateZero(p[..], base, coefs, kt, prev_num_set);
        ghost var was := p[..];
        p[base + Zag(kt)] := 0;
        assert p[..] == was[base + Zag(kt) := 0];
        n := n - 1;
        kt := kt + 1;
      }
      if prev_num_set < end { StateSkip(p[..], base, coefs, prev_num_set, end, prev_num_set); }
    } else {
      StateSkip(p[..], base, coefs, k, end, prev_num_set);
    }
  }

  lemma StateBounds(p: seq<int>, base: nat, coefs: seq<int>, k: nat, prev: nat)
    requires BlockState(p, base, coefs, k, prev)
    ensures base + 64 <= |p| && |coefs| == 64
  {
  }

  // ---- One symbol of the loop ----

  /** What the loop does with one symbol. `over` is the break or the end of the block. */
  method DecodeStep(p: array<int>, base: nat, q: seq<int>, k: nat, symbol: Byte, extra_bits: nat, prev_num_set: nat,
                    ghost coefs: seq<int>, ghost length: nat)
    returns (k': nat, over: bool, error: bool, ghost coefs': seq<int>)
    requires |q| == 64 && 1 <= k < 64 && BlockState(p[..], base, coefs, k, prev_num_set)
    requires forall i :: k <= i < 64 ==> coefs[i] == 0
    modifies p
    ensures SameOutside(old(p[..]), p[..], base)
    ensures |coefs| == 64 && State(coefs', k', over, error) == StepAc(State(coefs, k, false, false), Sym(symbol, extra_bits, length), q)
    ensures !error ==> BlockState(p[..], base, coefs', k', prev_num_set)
  {
    hide BlockState, Zag, Cast16, Extend;
    StateBounds(p[..], base, coefs, k, prev_num_set);
    k', over, error, coefs' := k, false, false, coefs;
    var r, s := symbol / 16, symbol % 16;
    if s != 0 {
      if r != 0 {
        if k + r > 63 { return k, true, true, coefs; }
        ClearRun(p, base, k, k + r, prev_num_set, coefs);
        k' := k + r;
      }
      var value := Cast16(Extend(extra_bits, s) * q[k']);
      StateStore(p[..], base, coefs, k', prev_num_set, value);
      ghost var was := p[..];
      p[base + Zag(k')] := value;
      assert p[..] == was[base + Zag(k') := value];
      coefs' := coefs[k' := value];
      k' := k' + 1;
      over := k' >= 64;
    } else if r == 15 {
      if k + 16 > 64 { return k, true, true, coefs; }
      ClearRun(p, base, k, k + 16, prev_num_set, coefs);
      k' := k + 16;
      over := k' >= 64;
    } else {
      over := true;
    }
  }

  // ---- The whole block ----

  /** The coded items of a block from zigzag index k on lie ahead. */
  ghost predicate ItemsAhead(t: TableSpec, c: seq<int>, k: nat, u: seq<Byte>, bp: nat)
    requires ValidTable(t) && k <= |c|
  {
    var bits := ItemsBits(t, AcItems(c, k));
    Ahead(u, bp, |bits|) == bits
  }

  /** The replayed block so far holds the numbers of the coded block, times the quantization table. */
  ghost predicate Matches(coefs: seq<int>, c: seq<int>, q: seq<int>, k: nat) {
    && |coefs| == 64 == |c| == |q| && k <= 64
    && (forall i :: 1 <= i < k ==> coefs[i] == Cast16(c[i] * q[i]))
    && (forall i :: k <= i < 64 ==> coefs[i] == 0)
  }

  /** If the items of a coded block lie ahead, the next symbol is its next item. */
  lemma NextItem(t: TableSpec, c: seq<int>, k: nat, u: seq<Byte>, bp: nat, symbol: nat, length: nat)
    requires ValidTable(t) && ValidBlock(c) && 1 <= k < 64 && AllCodable(t, AcItems(c, k))
    requires ItemsAhead(t, c, k, u, bp) && Decodes(t, u, bp, symbol, length)
    ensures AcItems(c, k) != []
    ensures
      var item := AcItems(c, k)[0];
      && symbol == item.symbol && length == |SymbolCode(t, item.symbol)| && item.symbol % 16 == item.nbits
      && CodeValue(Ahead(u, bp + length, item.nbits)) == item.value
      && Ahead(u, bp + length + item.nbits, |ItemsBits(t, AcItems(c, k)[1..])|) == ItemsBits(t, AcItems(c, k)[1..])
  {
    hide ValidTable, Decodes, CodeBits, CodeValue, AcItems, SymbolCode;
    AcItemsNonempty(c, k);
    var items := AcItems(c, k);
    var item, rest := items[0], ItemsBits(t, items[1..]);
    assert Codable(t, item);
    var code, extra := SymbolCode(t, item.symbol), CodeBits(item.value, item.nbits);
    assert ItemsBits(t, items) == code + extra + rest;
    AheadConcat(u, bp, |code|, |extra| + |rest|);
    AheadConcat(u, bp + |code|, |extra|, |rest|);
    SameParts(code, extra, rest, Ahead(u, bp, |code|), Ahead(u, bp + |code|, |extra|), Ahead(u, bp + |code| + |extra|, |rest|));
    assert SymbolAhead(t, item.symbol, u, bp);
    DecodesSymbol(t, u, bp, symbol, length, item.symbol);
    CodeValueOfCodeBits(item.value, item.nbits);
  }

  lemma AcItemsNonempty(c: seq<int>, k: nat)
    requires k < |c|
    ensures AcItems(c, k) != []
  {
  }

  lemma SameParts(a: BitString, b: BitString, c: BitString, x: BitString, y: BitString, z: BitString)
    requires a + b + c == x + (y + z) && |a| == |x| && |b| == |y|
    ensures a == x && b == y && c == z
  {
    assert (a + b + c)[..|a|] == a && (x + (y + z))[..|a|] == x;
    assert (a + b + c)[|a|..|a| + |b|] == b && (x + (y + z))[|a|..|a| + |b|] == y;
    assert (a + b + c)[|a| + |b|..] == c && (x + (y + z))[|a| + |b|..] == z;
  }

  lemma DecodesSymbol(t: TableSpec, u: seq<Byte>, bp: nat, symbol: nat, length: nat, s: nat)
    requires ValidTable(t) && Decodes(t, u, bp, symbol, length) && SymbolAhead(t, s, u, bp)
    ensures symbol == s && length == |SymbolCode(t, s)|
  {
  }

  /** One step of the decoder follows one item of the block. */
  lemma StepMatches(t: TableSpec, c: seq<int>, q: seq<int>, coefs: seq<int>, k: nat, symbol: nat, extra: nat, length: nat)
    requires ValidBlock(c) && |q| == 64 == |coefs| && 1 <= k < 64 && Matches(coefs, c, q, k)
    requires symbol == AcItems(c, k)[0].symbol && extra == AcItems(c, k)[0].value
    ensures
      var st := StepAc(State(coefs, k, false, false), Sym(symbol, extra, length), q);
      && !st.error && k <= st.k <= 64
      && (st.over ==> Matches(st.coefs, c, q, 64))
      && (!st.over ==> Matches(st.coefs, c, q, st.k))
      && AcItems(c, k)[1..] == (if st.over && st.k < 64 then [] else AcItems(c, st.k))
  {
    hide Cast16, Extend, ExtraBits, BitLength, Matches, StepAc;
    var z := ZeroRun(c, k);
    if k + z == 64 {
      ZerosMatch(c, q, coefs, k, 64);
      EndStep(q, coefs, k, extra, length);
    } else if z >= 16 {
      ZerosMatch(c, q, coefs, k, k + 16);
      ZerosStep(q, coefs, k, extra, length);
    } else {
      NumberMatches(c, q, coefs, k, z, length);
      ZerosThere(c, 64);
    }
  }

  lemma ZerosThere(c: seq<int>, k: nat)
    requires k == |c|
    ensures AcItems(c, k) == []
  {
  }

  lemma EndStep(q: seq<int>, coefs: seq<int>, k: nat, extra: nat, length: nat)
    requires |coefs| == 64 == |q| && 1 <= k < 64
    ensures StepAc(State(coefs, k, false, false), Sym(0, extra, length), q) == State(coefs, k, true, false)
  {
  }

  lemma ZerosStep(q: seq<int>, coefs: seq<int>, k: nat, extra: nat, length: nat)
    requires |coefs| == 64 == |q| && 1 <= k < 48
    ensures StepAc(State(coefs, k, false, false), Sym(0xF0, extra, length), q) == State(coefs, k + 16, false, false)
  {
  }

  /** Coefficients that are zero need no symbol of their own. */
  lemma ZerosMatch(c: seq<int>, q: seq<int>, coefs: seq<int>, k: nat, n: nat)
    requires Matches(coefs, c, q, k) && k <= n <= 64 && forall i :: k <= i < n ==> c[i] == 0
    ensures Matches(coefs, c, q, n)
  {
    hide Cast16;
    CastZero(q);
    forall i | k <= i < n ensures coefs[i] == Cast16(c[i] * q[i]) { assert 0 * q[i] == 0; }
  }

  /** The symbol of a number places it behind its run of zeros. */
  lemma NumberMatches(c: seq<int>, q: seq<int>, coefs: seq<int>, k: nat, z: nat, length: nat)
    requires ValidBlock(c) && |q| == 64 && 1 <= k && k + z < 64 && z < 16 && c[k + z] != 0 && Matches(coefs, c, q, k)
    requires forall i :: k <= i < k + z ==> c[i] == 0
    ensures
      var item := AcItem(z, c[k + z]);
      var st := StepAc(State(coefs, k, false, false), Sym(item.symbol, item.value, length), q);
      !st.error && st.k == k + z + 1 && st.over == (st.k >= 64) && Matches(st.coefs, c, q, k + z + 1)
  {
    hide Cast16, Extend, ExtraBits, BitLength;
    SymbolFits(z, c[k + z]);
    ExtendExtra(c[k + z]);
    ZerosMatch(c, q, coefs, k, k + z);
  }

  lemma CastZero(q: seq<int>)
    ensures Cast16(0) == 0 && forall i :: 0 <= i < |q| ==> 0 * q[i] == 0
  {
  }

  /**
   * The coefficients of one block after its first one. Whatever an earlier block left in memory, the block is
   * what the symbols make of a block of zeros; and if the bits of a coded block lie ahead, it is that block.
   */
  method DecodeAc(p: array<int>, base: nat, q: seq<int>, h: HuffTables, r: BitReader, prev_num_set: nat, dc: int,
                  ghost t: TableSpec, ghost c: seq<int>)
    returns (k: nat, error: bool, ghost trace: seq<Sym>)
    requires |q| == 64 && Complete(h, t) && r.Valid() && p != h.look_up && p != h.look_up2 && p != h.tree
    requires BlockState(p[..], base, ZeroBlock()[0 := dc], 1, prev_num_set)
    requires ValidBlock(c) ==> AllCodable(t, AcItems(c, 1))
    modifies p, r`pos, r`tem_flag, r`taken, r`bit_buf, r`bits_left, r`bp
    ensures r.Valid() && Complete(h, t) && SameOutside(old(p[..]), p[..], base)
    ensures TraceOf(trace, t, r.u, old(r.bp), r.bp) && old(r.bp) <= r.bp
    ensures var st := Replay(dc, q, trace); st.over && st.error == error && st.k == k
    ensures !error ==> 1 <= k <= 64 && BlockState(p[..], base, Replay(dc, q, trace).coefs, 64, k)
    ensures ValidBlock(c) && ItemsAhead(t, c, 1, r.u, old(r.bp)) ==>
      !error && Matches(Replay(dc, q, trace).coefs, c, q, 64) && r.bp == old(r.bp) + |ItemsBits(t, AcItems(c, 1))|
  {
    hide BlockState, Zag, Cast16, Extend, Complete, BitReader.Valid, ValidTable, TraceOf, Decodes, ItemsAhead, Matches, Replay,
         StepAc, AcItems, ItemsBits, AllCodable, CodeValue, Ahead;
    k, error, trace := 1, false, [];
    ghost var start, coefs, u := r.bp, ZeroBlock()[0 := dc], r.u;
    CompleteValid(h, t);
    ghost var ahead := ValidBlock(c) && ItemsAhead(t, c, 1, u, start);
    var over := false;
    StateBounds(p[..], base, coefs, 1, prev_num_set);
    AcStart(dc, q, t, u, start, c);
    while !over
      invariant r.Valid() && Complete(h, t) && start <= r.bp && TraceOf(trace, t, u, start, r.bp)
      invariant 1 <= k && (!over ==> k < 64) && SameOutside(old(p[..]), p[..], base)
      invariant Replay(dc, q, trace) == State(coefs, k, over, error)
      invariant !error ==> k <= 64 && BlockState(p[..], base, coefs, k, prev_num_set)
      invariant (ahead || !over) ==> !error
      invariant ahead && !over ==> AllCodable(t, AcItems(c, k)) && ItemsAhead(t, c, k, u, r.bp) && Matches(coefs, c, q, k)
      invariant ahead && !over ==> r.bp + |ItemsBits(t, AcItems(c, k))| == start + |ItemsBits(t, AcItems(c, 1))|
      invariant ahead && over ==> Matches(coefs, c, q, 64) && r.bp == start + |ItemsBits(t, AcItems(c, 1))|
      decreases !over, 64 - k
    {
      ghost var at := r.bp;
      var symbol, extra_bits;
      ghost var length;
      symbol, extra_bits, length := HuffDecodeExtra(h, r, t);
      ghost var x := Sym(symbol, extra_bits, length);
      TracePush(trace, t, u, start, at, x);
      ReplayPush(dc, q, trace, x);
      ReplayZeros(dc, q, trace);
      ghost var before, k0 := coefs, k;
      k, over, error, coefs := DecodeStep(p, base, q, k, symbol, extra_bits, prev_num_set, coefs, length);
      trace := trace + [x];
      if ahead {
        AheadStep(t, c, q, before, k0, u, at, x);
      }
      StepProgress(before, k0, x, q);
    }
    ReplayZeros(dc, q, trace);
    if !error {
      ClearRun(p, base, k, 64, prev_num_set, coefs);
      AllPlaced(p[..], base, coefs, k, prev_num_set);
    }
  }

  lemma AcStart(dc: int, q: seq<int>, t: TableSpec, u: seq<Byte>, bp: nat, c: seq<int>)
    requires |q| == 64 && ValidTable(t)
    ensures Replay(dc, q, []) == State(ZeroBlock()[0 := dc], 1, false, false) && TraceOf([], t, u, bp, bp)
    ensures ValidBlock(c) ==> Matches(ZeroBlock()[0 := dc], c, q, 1)
  {
  }

  lemma CompleteValid(h: HuffTables, t: TableSpec)
    requires Complete(h, t)
    ensures ValidTable(t)
  {
  }

  lemma StepProgress(coefs: seq<int>, k: nat, x: Sym, q: seq<int>)
    requires |coefs| == 64 == |q| && 1 <= k < 64
    ensures
      var st := StepAc(State(coefs, k, false, false), x, q);
      (!st.over ==> k < st.k < 64 && !st.error) && k <= st.k && (!st.error ==> st.k <= 64)
  {
    hide Cast16, Extend;
  }

  lemma AheadStep(t: TableSpec, c: seq<int>, q: seq<int>, coefs: seq<int>, k: nat, u: seq<Byte>, at: nat, x: Sym)
    requires ValidTable(t) && ValidBlock(c) && |q| == 64 == |coefs| && 1 <= k < 64 && Matches(coefs, c, q, k)
    requires AllCodable(t, AcItems(c, k)) && ItemsAhead(t, c, k, u, at)
    requires Decodes(t, u, at, x.symbol, x.length) && x.extra == CodeValue(Ahead(u, at + x.length, x.symbol % 16))
    ensures
      var st := StepAc(State(coefs, k, false, false), x, q);
      var next := at + x.length + x.symbol % 16;
      && !st.error && k <= st.k <= 64
      && (st.over ==> Matches(st.coefs, c, q, 64) && next == at + |ItemsBits(t, AcItems(c, k))|)
      && (!st.over ==> Matches(st.coefs, c, q, st.k) && AllCodable(t, AcItems(c, st.k)) && ItemsAhead(t, c, st.k, u, next))
      && (!st.over ==> next + |ItemsBits(t, AcItems(c, st.k))| == at + |ItemsBits(t, AcItems(c, k))|)
  {
    hide ValidTable, Decodes, Matches, CodeValue, Ahead, AcItems, StepAc, SymbolCode, CodeBits;
    NothingLeft(t, c);
    NextItem(t, c, k, u, at, x.symbol, x.length);
    StepMatches(t, c, q, coefs, k, x.symbol, x.extra, x.length);
    var items := AcItems(c, k);
    FirstItemLength(t, items);
  }

  lemma NothingLeft(t: TableSpec, c: seq<int>)
    requires ValidTable(t)
    ensures AcItems(c, |c|) == [] && ItemsBits(t, []) == []
  {
  }

  lemma FirstItemLength(t: TableSpec, items: seq<Item>)
    requires ValidTable(t) && items != []
    ensures |ItemsBits(t, items)| == |SymbolCode(t, items[0].symbol)| + items[0].nbits + |ItemsBits(t, items[1..])|
  {
  }

  /** With all positions done, the block in memory is the replayed one. */
  lemma AllPlaced(p: seq<int>, base: nat, coefs: seq<int>, k: nat, prev: nat)
    requires BlockState(p, base, coefs, 64, prev)
    ensures BlockState(p, base, coefs, 64, k)
  {
  }
}
