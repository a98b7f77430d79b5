/**
 * The LZ77 matcher of lodepng.c:1344-1627: circular hash chains, a second chain over runs of
 * zero bytes, zero skipping and lazy matching.
 */
module Lz77 {
  import opened Bits
  import opened Tokens

  const MAX_SUPPORTED_DEFLATE_LENGTH: nat := 258
  const HASH_NUM_VALUES: nat := 65536

  // ---- Positions in the circular buffers ----

  /** pos & (windowsize - 1), for the powers of two the source allows: pos modulo windowsize. */
  function Wrap(windowsize: nat, pos: nat): (w: nat)
    requires windowsize > 0
    ensures w < windowsize && w <= pos
    decreases pos
  {
    if pos < windowsize then pos else Wrap(windowsize, pos - windowsize)
  }

  /** The latest position not after `last` that the circular slot s stands for; negative if there is none. */
  function SlotPosition(windowsize: nat, last: nat, s: nat): int
    requires s < windowsize
  {
    var w := Wrap(windowsize, last);
    if s <= w then last - w + s else last - w - windowsize + s
  }

  predicate Reached(windowsize: nat, last: int, s: int) {
    0 <= s < windowsize && 0 <= last && 0 <= SlotPosition(windowsize, last, s)
  }

  lemma {:induction false} WrapIsModulo(windowsize: nat, pos: nat)
    requires windowsize > 0
    ensures Wrap(windowsize, pos) == pos % windowsize
    decreases pos
  {
    var q, r := pos / windowsize, pos % windowsize;
    assert pos == q * windowsize + r;
    if pos >= windowsize {
      WrapIsModulo(windowsize, pos - windowsize);
      assert pos - windowsize == (q - 1) * windowsize + r;
      DivUnique(pos - windowsize, windowsize, q - 1, r);
    } else {
      DivUnique(pos, windowsize, 0, pos);
    }
  }

  lemma {:induction false} NextSlot(windowsize: nat, last: nat)
    requires windowsize > 0
    ensures Wrap(windowsize, last + 1) == if Wrap(windowsize, last) + 1 == windowsize then 0 else Wrap(windowsize, last) + 1
    decreases last
  {
    if last >= windowsize { NextSlot(windowsize, last - windowsize); }
  }

  /** Entering the next position moves one slot only. */
  lemma SlotPositionNext(windowsize: nat, last: nat, s: nat)
    requires s < windowsize
    ensures SlotPosition(windowsize, last + 1, s)
         == if s == Wrap(windowsize, last + 1) then last + 1 else SlotPosition(windowsize, last, s)
  {
    NextSlot(windowsize, last);
  }

  /** Entering position pos, for the first time or again, reaches its own slot and keeps all others. */
  lemma Advance(windowsize: nat, last: int, pos: nat, s: nat)
    requires s < windowsize && -1 <= last && (pos == last + 1 || pos == last)
    ensures Reached(windowsize, pos, s) <==> Reached(windowsize, last, s) || s == Wrap(windowsize, pos)
    ensures s == Wrap(windowsize, pos) ==> SlotPosition(windowsize, pos, s) == pos
    ensures s != Wrap(windowsize, pos) && 0 <= last ==>
      SlotPosition(windowsize, pos, s) == SlotPosition(windowsize, last, s)
  {
    if last >= 0 && pos == last + 1 {
      SlotPositionNext(windowsize, last, s);
    } else if last < 0 {
      assert Wrap(windowsize, pos) == 0;
    }
  }

  /** A position of the last window is the one that its slot stands for. */
  lemma SlotOfPosition(windowsize: nat, last: nat, q: nat)
    requires windowsize > 0 && q <= last < q + windowsize
    ensures SlotPosition(windowsize, last, Wrap(windowsize, q)) == q
    decreases last
  {
    if q < last {
      SlotOfPosition(windowsize, last - 1, q);
      SlotPositionNext(windowsize, last - 1, Wrap(windowsize, q));
      OtherSlot(windowsize, last, q);
    }
  }

  lemma OtherSlot(windowsize: nat, last: nat, q: nat)
    requires windowsize > 0 && q < last < q + windowsize
    ensures Wrap(windowsize, q) != Wrap(windowsize, last)
  {
    WrapIsModulo(windowsize, q);
    WrapIsModulo(windowsize, last);
    OtherRemainder(windowsize, last, q);
  }

  lemma OtherRemainder(w: nat, last: nat, q: nat)
    requires w > 0 && q < last < q + w
    ensures q % w != last % w
  {
    var a, b := q / w, last / w;
    assert q == a * w + q % w && last == b * w + last % w;
    assert (b - a) * w == b * w - a * w;
    if q % w == last % w { MulBounds(b - a, w, last - q); }
  }

  // ---- Earlier positions of the same hash value ----

  /** The last position with this hash value. */
  ghost predicate Latest(hashes: seq<nat>, h: nat, p: nat) {
    p < |hashes| && hashes[p] == h && forall k :: p < k < |hashes| ==> hashes[k] != h
  }

  /** The last position before p with the hash value of p. */
  ghost predicate Before(hashes: seq<nat>, p: nat, q: nat) {
    q < p < |hashes| && hashes[q] == hashes[p] && forall k :: q < k < p ==> hashes[k] != hashes[p]
  }

  /** The heads lead to the last positions of their hash values, but for a position that is about to be entered once more. */
  ghost predicate HeadsLead(w: nat, last: int, head: seq<int>, hashes: seq<nat>, forgot: bool) {
    && |head| == HASH_NUM_VALUES && |hashes| == last + 1
    && (forall p :: 0 <= p < |hashes| ==> hashes[p] < HASH_NUM_VALUES)
    && (forgot ==> |hashes| > 0 && head[hashes[last]] == -1)
    && forall p: nat {:trigger hashes[p]} :: p < |hashes| && Latest(hashes, hashes[p], p) && !(forgot && p == last) ==>
         w > 0 && head[hashes[p]] == Wrap(w, p)
  }

  /** The chains of the positions in the window lead to the position before with the same hash value. */
  ghost predicate ChainsLead(w: nat, last: int, chain: seq<int>, hashes: seq<nat>) {
    && |chain| == w && |hashes| == last + 1
    && forall p: nat, q: nat :: Before(hashes, p, q) && last < p + w ==> w > 0 && chain[Wrap(w, p)] == Wrap(w, q)
  }

  /** The slots of the positions in the window hold their hash values. */
  ghost predicate ValuesLead(w: nat, last: int, val: seq<int>, hashes: seq<nat>) {
    && |val| == w && |hashes| == last + 1
    && forall p: nat {:trigger hashes[p]} :: p < |hashes| && last < p + w ==> w > 0 && val[Wrap(w, p)] == hashes[p]
  }

  /** Position pos is entered, for the first time or once more. */
  ghost predicate Entered(pos: nat, h: nat, hashes0: seq<nat>, again: bool, hashes1: seq<nat>) {
    if again then hashes1 == hashes0 && |hashes0| == pos + 1 && hashes0[pos] == h else hashes1 == hashes0 + [h] && |hashes0| == pos
  }

  lemma HeadsStillLead(w: nat, pos: nat, h: nat, head: seq<int>, hashes0: seq<nat>, again: bool, hashes1: seq<nat>)
    requires w > 0 && h < HASH_NUM_VALUES && Entered(pos, h, hashes0, again, hashes1) && HeadsLead(w, |hashes0| - 1, head, hashes0, again)
    ensures HeadsLead(w, pos, head[h := Wrap(w, pos)], hashes1, false)
  {
    var now := head[h := Wrap(w, pos)];
    assert forall k :: 0 <= k < |hashes0| ==> hashes1[k] == hashes0[k];
    forall p: nat | p < |hashes1| && Latest(hashes1, hashes1[p], p) ensures now[hashes1[p]] == Wrap(w, p) {
      if p < pos {
        assert hashes1[pos] == h;
        assert Latest(hashes0, hashes0[p], p);
      }
    }
  }

  lemma ChainsStillLead(w: nat, pos: nat, h: nat, head: seq<int>, chain: seq<int>, hashes0: seq<nat>, again: bool, hashes1: seq<nat>)
    requires w > 0 && h < HASH_NUM_VALUES && Entered(pos, h, hashes0, again, hashes1)
    requires HeadsLead(w, |hashes0| - 1, head, hashes0, again) && ChainsLead(w, |hashes0| - 1, chain, hashes0)
    ensures ChainsLead(w, pos, if head[h] != -1 then chain[Wrap(w, pos) := head[h]] else chain, hashes1)
  {
    var now := if head[h] != -1 then chain[Wrap(w, pos) := head[h]] else chain;
    forall p: nat, q: nat | Before(hashes1, p, q) && pos < p + w ensures now[Wrap(w, p)] == Wrap(w, q) {
      if p < pos {
        OtherSlot(w, pos, p);
        BeforeSame(hashes0, hashes1, p, q);
      } else if !again {
        LatestIsBefore(hashes0, h, q);
        assert hashes0[q] == h;
      }
    }
  }

  lemma ValuesStillLead(w: nat, pos: nat, h: nat, val: seq<int>, hashes0: seq<nat>, again: bool, hashes1: seq<nat>)
    requires w > 0 && Entered(pos, h, hashes0, again, hashes1) && ValuesLead(w, |hashes0| - 1, val, hashes0)
    ensures ValuesLead(w, pos, val[Wrap(w, pos) := h], hashes1)
  {
    forall p: nat | p < |hashes1| && pos < p + w ensures val[Wrap(w, pos) := h][Wrap(w, p)] == hashes1[p] {
      if p < pos {
        OtherSlot(w, pos, p);
        assert hashes1[p] == hashes0[p];
      }
    }
  }

  /** Which position comes before another does not change when more are entered. */
  lemma BeforeSame(hashes0: seq<nat>, hashes1: seq<nat>, p: nat, q: nat)
    requires p < |hashes0| && hashes0 <= hashes1
    ensures Before(hashes1, p, q) <==> Before(hashes0, p, q)
  {
    assert forall k :: 0 <= k <= p ==> hashes1[k] == hashes0[k];
  }

  lemma LatestIsBefore(hashes: seq<nat>, h: nat, q: nat)
    requires Before(hashes + [h], |hashes|, q)
    ensures Latest(hashes, h, q)
  {
    var all := hashes + [h];
    assert forall k :: 0 <= k < |hashes| ==> all[k] == hashes[k];
  }

  lemma HeadSizes(w: nat, last: int, head: seq<int>, chain: seq<int>, val: seq<int>, hashes: seq<nat>, forgot: bool)
    requires HeadsLead(w, last, head, hashes, forgot) && ChainsLead(w, last, chain, hashes) && ValuesLead(w, last, val, hashes)
    ensures |head| == HASH_NUM_VALUES && |chain| == w == |val| && |hashes| == last + 1
  {
  }

  lemma NothingLeads(w: nat, head: seq<int>, chain: seq<int>, val: seq<int>)
    requires |head| == HASH_NUM_VALUES && |chain| == w == |val|
    ensures HeadsLead(w, -1, head, [], false) && ChainsLead(w, -1, chain, []) && ValuesLead(w, -1, val, [])
  {
  }

  /** How many positions from q to before p have the hash value of p: the place of q in the chain of p. */
  function Rank(hashes: seq<nat>, p: nat, q: nat): nat
    requires q <= p < |hashes|
    decreases p - q
  {
    if q == p then 0 else Rank(hashes, p, q + 1) + if hashes[q] == hashes[p] then 1 else 0
  }

  /** A position before p with its hash value that is still in the window. */
  ghost predicate Earlier(hashes: seq<nat>, w: nat, p: nat, q: nat) {
    q < p < |hashes| && hashes[q] == hashes[p] && p - q < w
  }

  lemma {:induction false} RankGrows(hashes: seq<nat>, p: nat, a: nat, b: nat)
    requires a <= b <= p < |hashes|
    ensures Rank(hashes, p, a) >= Rank(hashes, p, b)
    ensures a < b && hashes[a] == hashes[p] ==> Rank(hashes, p, a) > Rank(hashes, p, b)
    decreases b - a
  {
    if a < b { RankGrows(hashes, p, a + 1, b); }
  }

  lemma RankSelf(hashes: seq<nat>, p: nat)
    requires p < |hashes|
    ensures Rank(hashes, p, p) == 0
  {
  }

  lemma {:induction false} RankStays(hashes: seq<nat>, p: nat, a: nat, b: nat)
    requires a <= b <= p < |hashes| && forall k :: a <= k < b ==> hashes[k] != hashes[p]
    ensures Rank(hashes, p, a) == Rank(hashes, p, b)
    decreases b - a
  {
    if a < b { RankStays(hashes, p, a + 1, b); }
  }

  lemma {:induction false} RankSame(hashes0: seq<nat>, hashes1: seq<nat>, p: nat, q: nat)
    requires q <= p < |hashes0| && hashes0 <= hashes1
    ensures Rank(hashes1, p, q) == Rank(hashes0, p, q)
    decreases p - q
  {
    assert hashes0[q] == hashes1[q] && hashes0[p] == hashes1[p];
    if q < p { RankSame(hashes0, hashes1, p, q + 1); }
  }

  /** The position before p with its hash value, if there is one. */
  lemma LastSame(hashes: seq<nat>, p: nat, n: nat) returns (found: bool, q: nat)
    requires n <= p < |hashes| && forall k :: n <= k < p ==> hashes[k] != hashes[p]
    ensures found ==> Before(hashes, p, q)
    ensures !found ==> forall k :: 0 <= k < p ==> hashes[k] != hashes[p]
  {
    if n == 0 { found, q := false, 0; }
    else if hashes[n - 1] == hashes[p] { found, q := true, n - 1; }
    else { found, q := LastSame(hashes, p, n - 1); }
  }

  /** The slot s is that of the position cur in the chain of p, behind m others. */
  ghost predicate OnChain(hashes: seq<nat>, w: nat, p: nat, cur: nat, s: int, m: nat) {
    w > 0 && Earlier(hashes, w, p, cur) && s == Wrap(w, cur) && Rank(hashes, p, cur) == m + 1
  }

  lemma ChainStep(hashes: seq<nat>, w: nat, p: nat, p0: nat, q: nat)
    requires p0 <= p < |hashes| && hashes[p0] == hashes[p] && Before(hashes, p0, q)
    ensures Rank(hashes, p, q) == Rank(hashes, p, p0) + 1
  {
    RankStays(hashes, p, q + 1, p0);
  }

  lemma ChainEnd(hashes: seq<nat>, w: nat, p: nat, p0: nat, found: bool, q: nat)
    requires p0 <= p < |hashes| && hashes[p0] == hashes[p]
    requires if found then Before(hashes, p0, q) && p - q >= w else forall k :: 0 <= k < p0 ==> hashes[k] != hashes[p0]
    ensures NoneBehind(hashes, w, p, Rank(hashes, p, p0))
  {
    hide Rank;
    forall k: nat | Earlier(hashes, w, p, k) ensures Rank(hashes, p, k) <= Rank(hashes, p, p0) {
      assert k >= p0;
      RankGrows(hashes, p, p0, k);
    }
  }

  /** No more than m positions are in the chain of p. */
  ghost predicate NoneBehind(hashes: seq<nat>, w: nat, p: nat, m: nat) {
    forall q: nat :: Earlier(hashes, w, p, q) ==> Rank(hashes, p, q) <= m
  }

  // ---- Runs of zero bytes ----

  /** From pos on there are n zero bytes before the end. */
  predicate ZeroRun(data: seq<Byte>, pos: int, n: int) {
    0 <= pos && 0 <= n && pos + n <= |data| && forall k :: pos <= k < pos + n ==> data[k] == 0
  }

  /** What the zero counter of the previous position, or of this one, tells about this position. */
  predicate CarriedZeros(data: seq<Byte>, pos: nat, n: nat) {
    n <= MAX_SUPPORTED_DEFLATE_LENGTH && (n == 0 || ZeroRun(data, pos, n - 1))
  }

  method CountZeros(data: seq<Byte>, pos: nat) returns (n: nat)
    requires pos <= |data|
    ensures n <= MAX_SUPPORTED_DEFLATE_LENGTH && ZeroRun(data, pos, n)
    ensures n < MAX_SUPPORTED_DEFLATE_LENGTH && pos + n < |data| ==> data[pos + n] != 0
  {
    var end := pos + MAX_SUPPORTED_DEFLATE_LENGTH;
    if end > |data| { end := |data|; }
    n := 0;
    while pos + n != end && data[pos + n] == 0
      invariant pos + n <= end && ZeroRun(data, pos, n)
      decreases end - n
    {
      n := n + 1;
    }
  }

  /** Exclusive or of the binary digits of two numbers. */
  function Xor(a: nat, b: nat): nat {
    if a == 0 then b else if b == 0 then a else (a + b) % 2 + 2 * Xor(a / 2, b / 2)
  }

  /** Shift and xor of up to three bytes, cut to sixteen bits. */
  function GetHash(data: seq<Byte>, pos: nat): (h: nat)
    ensures h < HASH_NUM_VALUES
  {
    hide Xor;
    var x :=
      if pos + 2 < |data| then Xor(Xor(data[pos], 0x10 * (data[pos + 1] as nat)), 0x100 * (data[pos + 2] as nat))
      else if pos >= |data| then 0
      else Xor(data[pos], if pos + 1 < |data| then 0x100 * (data[pos + 1] as nat) else 0);
    x % HASH_NUM_VALUES
  }

  class Hash {
    const windowsize: nat
    const head: array<int>
    const val: array<int>
    const chain: array<int>
    const headz: array<int>
    const chainz: array<int>
    const zeros: array<int>
    /** The hash values of all positions entered, and whether the last of them is about to be entered once more. */
    ghost var hashes: seq<nat>
    ghost var forgot: bool

    ghost predicate Shape() {
      && head.Length == HASH_NUM_VALUES && headz.Length == MAX_SUPPORTED_DEFLATE_LENGTH + 1
      && val.Length == chain.Length == chainz.Length == zeros.Length == windowsize
      && head != val && head != chain && head != headz && head != chainz && head != zeros
      && val != chain && val != headz && val != chainz && val != zeros
      && chain != headz && chain != chainz && chain != zeros
      && headz != chainz && headz != zeros && chainz != zeros
    }

    ghost function Repr(): set<object>
    {
      {this, head, val, chain, headz, chainz, zeros}
    }

    /**
     * Positions 0 to last have been entered. Every link leads to a slot that stands for one of
     * them, and the zero count of a slot is true of the position the slot stands for.
     */
    ghost predicate Reaches(data: seq<Byte>, last: int)
      reads head, val, chain, headz, chainz, zeros
    {
      && Shape() && -1 <= last
      && (forall h :: 0 <= h < HASH_NUM_VALUES ==> head[h] == -1 || Reached(windowsize, last, head[h]))
      && (forall z :: 0 <= z <= MAX_SUPPORTED_DEFLATE_LENGTH ==> headz[z] == -1 || Reached(windowsize, last, headz[z]))
      && (forall s :: 0 <= s < windowsize ==> SlotDescribes(data, last, s))
    }

    /** And the chains link each position to the one before it with the same hash value. */
    ghost predicate Linked(data: seq<Byte>, last: int)
      reads this, head, val, chain, headz, chainz, zeros
    {
      Reaches(data, last) && Chained(last)
    }

    ghost predicate Chained(last: int)
      requires Shape()
      reads this, head, chain, val
    {
      && HeadsLead(windowsize, last, head[..], hashes, forgot) && ChainsLead(windowsize, last, chain[..], hashes)
      && ValuesLead(windowsize, last, val[..], hashes)
    }

    /** The state between two runs of the encoder. */
    ghost predicate Describes(data: seq<Byte>, last: int)
      reads this, head, val, chain, headz, chainz, zeros
    {
      Linked(data, last) && !forgot
    }

    ghost predicate SlotDescribes(data: seq<Byte>, last: int, s: nat)
      requires Shape() && s < windowsize
      reads head, val, chain, headz, chainz, zeros
    {
      if Reached(windowsize, last, s) then
        && Reached(windowsize, last, chain[s]) && Reached(windowsize, last, chainz[s])
        && ZeroRun(data, SlotPosition(windowsize, last, s), zeros[s])
      else
        chain[s] == s && chainz[s] == s
    }

    /** hash_init; the zero counts start out arbitrary. */
    constructor (windowsize: nat)
      ensures this.windowsize == windowsize && fresh(Repr())
      ensures forall data: seq<Byte> :: Describes(data, -1)
    {
      this.windowsize := windowsize;
      head := new int[HASH_NUM_VALUES](_ => -1);
      val := new int[windowsize](_ => -1);
      chain := new int[windowsize](i => i);
      headz := new int[MAX_SUPPORTED_DEFLATE_LENGTH + 1](_ => -1);
      chainz := new int[windowsize](i => i);
      zeros := new int[windowsize];
      hashes, forgot := [], false;
      new;
      forall data: seq<Byte> ensures Describes(data, -1) { NothingEntered(data); }
    }

    lemma NothingEntered(data: seq<Byte>)
      requires Shape() && hashes == [] && !forgot
      requires (forall h :: 0 <= h < head.Length ==> head[h] == -1) && forall z :: 0 <= z < headz.Length ==> headz[z] == -1
      requires forall s :: 0 <= s < windowsize ==> chain[s] == s && chainz[s] == s
      ensures Describes(data, -1)
    {
      NothingLeads(windowsize, head[..], chain[..], val[..]);
    }

    /** The six stores of updateHashChain. */
    method LinkSlot(data: seq<Byte>, pos: nat, hashval: nat, numzeros: nat, ghost last: int)
      requires windowsize > 0 && Reaches(data, last) && (pos == last + 1 || pos == last)
      requires hashval < HASH_NUM_VALUES && numzeros <= MAX_SUPPORTED_DEFLATE_LENGTH && ZeroRun(data, pos, numzeros)
      modifies head, val, chain, headz, chainz, zeros
      ensures Reaches(data, pos)
      ensures head[..] == old(head[..])[hashval := Wrap(windowsize, pos)] && val[..] == old(val[..])[Wrap(windowsize, pos) := hashval]
      ensures chain[..] == if old(head[hashval]) != -1 then old(chain[..])[Wrap(windowsize, pos) := old(head[hashval])] else old(chain[..])
    {
      var wpos := Wrap(windowsize, pos);
      val[wpos] := hashval;
      if head[hashval] != -1 { chain[wpos] := head[hashval]; }
      head[hashval] := wpos;
      zeros[wpos] := numzeros;
      if headz[numzeros] != -1 { chainz[wpos] := headz[numzeros]; }
      headz[numzeros] := wpos;
      forall s: nat | s < windowsize
        ensures Reached(windowsize, pos, s) <==> Reached(windowsize, last, s) || s == wpos
      {
        Advance(windowsize, last, pos, s);
      }
      forall s: nat | s < windowsize
        ensures SlotDescribes(data, pos, s)
      {
        Advance(windowsize, last, pos, s);
        assert old(SlotDescribes(data, last, s));
      }
    }

    /** updateHashChain for the position after last, or for last itself once more. */
    method UpdateHashChain(data: seq<Byte>, pos: nat, hashval: nat, numzeros: nat, ghost last: int)
      requires windowsize > 0 && Linked(data, last) && (if forgot then pos == last && hashval == hashes[last] else pos == last + 1)
      requires hashval < HASH_NUM_VALUES && numzeros <= MAX_SUPPORTED_DEFLATE_LENGTH && ZeroRun(data, pos, numzeros)
      modifies Repr()
      ensures Describes(data, pos) && hashes == old(hashes)[..pos] + [hashval]
    {
      hide HeadsLead, ChainsLead, ValuesLead, Wrap, Reaches;
      ghost var oldHead, oldChain, oldVal, oldHashes, again := head[..], chain[..], val[..], hashes, forgot;
      ReachesShape(data, last);
      HeadSizes(windowsize, last, oldHead, oldChain, oldVal, oldHashes, again);
      LinkSlot(data, pos, hashval, numzeros, last);
      hashes, forgot := hashes[..pos] + [hashval], false;
      if again { assert hashes == oldHashes; } else { assert hashes == oldHashes + [hashval]; }
      HeadsStillLead(windowsize, pos, hashval, oldHead, oldHashes, again, hashes);
      ChainsStillLead(windowsize, pos, hashval, oldHead, oldChain, oldHashes, again, hashes);
      ValuesStillLead(windowsize, pos, hashval, oldVal, oldHashes, again, hashes);
      ReachesShape(data, pos);
    }

    lemma ReachesShape(data: seq<Byte>, last: int)
      requires Reaches(data, last)
      ensures Shape() && -1 <= last
    {
    }

    /** Hashes position pos and follows the zero counter: the steps the source repeats for every position. */
    method Enter(data: seq<Byte>, pos: nat, insize: nat, numzeros: nat, ghost last: int)
      returns (hashval: nat, numzeros': nat)
      requires pos < insize <= |data| && CarriedZeros(data[..insize], pos, numzeros)
      requires windowsize > 0 && Linked(data, last)
      requires if forgot then pos == last && GetHash(data[..insize], pos) == hashes[last] else pos == last + 1
      modifies Repr()
      ensures Describes(data, pos) && hashval == GetHash(data[..insize], pos)
      ensures old(hashes) <= hashes && |hashes| == pos + 1 && hashes[pos] == hashval
      ensures numzeros' <= MAX_SUPPORTED_DEFLATE_LENGTH && ZeroRun(data[..insize], pos, numzeros')
    {
      hashval := GetHash(data[..insize], pos);
      numzeros' := numzeros;
      if hashval == 0 {
        if numzeros' == 0 {
          numzeros' := CountZeros(data[..insize], pos);
        } else if pos + numzeros' > insize || data[pos + numzeros' - 1] != 0 {
          numzeros' := numzeros' - 1;
        }
      } else {
        numzeros' := 0;
      }
      assert ZeroRun(data, pos, numzeros');
      UpdateHashChain(data, pos, hashval, numzeros', last);
    }

    /** A lazy match was the better one: the same entries will be made again and must not be linked twice. */
    method Forget(data: seq<Byte>, hashval: nat, numzeros: nat, ghost last: int)
      requires Describes(data, last) && last >= 0 && hashval == hashes[last]
      requires hashval < HASH_NUM_VALUES && numzeros <= MAX_SUPPORTED_DEFLATE_LENGTH
      modifies head, headz, this`forgot
      ensures Linked(data, last) && forgot
    {
      ghost var oldHead := head[..];
      head[hashval] := -1;
      headz[numzeros] := -1;
      forgot := true;
      assert head[..] == oldHead[hashval := -1];
      forall s: nat | s < windowsize
        ensures SlotDescribes(data, last, s)
      {
        assert old(SlotDescribes(data, last, s));
      }
    }

    /** A reached slot links to reached slots, and its circular distance leads back to its position. */
    lemma SlotFacts(data: seq<Byte>, pos: nat, s: int)
      requires Linked(data, pos) && Reached(windowsize, pos, s)
      ensures Reached(windowsize, pos, chain[s]) && Reached(windowsize, pos, chainz[s])
      ensures
        var wpos := Wrap(windowsize, pos);
        var offset := if s <= wpos then wpos - s else wpos - s + windowsize;
        0 <= s < windowsize && 0 <= offset < windowsize && offset <= pos && ZeroRun(data, pos - offset, zeros[s])
    {
      assert SlotDescribes(data, pos, s);
    }

    /** How far the string at pos repeats at this distance; zeros known from the hash are skipped. */
    method TryOffset(data: seq<Byte>, pos: nat, insize: nat, offset: nat, s: int, numzeros: nat) returns (length: nat)
      requires Linked(data, pos) && Reached(windowsize, pos, s)
      requires offset ==
        if s <= Wrap(windowsize, pos) then Wrap(windowsize, pos) - s else Wrap(windowsize, pos) - s + windowsize
      requires 1 <= offset && pos < insize <= |data|
      requires numzeros <= MAX_SUPPORTED_DEFLATE_LENGTH && ZeroRun(data[..insize], pos, numzeros)
      ensures RepeatsAt(data, insize, pos, length, offset) && offset < windowsize
      ensures forall n: nat :: RepeatsAt(data, insize, pos, n, offset) ==> n <= length
    {
      SlotFacts(data, pos, s);
      var last := if insize < pos + MAX_SUPPORTED_DEFLATE_LENGTH then insize else pos + MAX_SUPPORTED_DEFLATE_LENGTH;
      var skip := 0;
      if numzeros >= 3 {
        skip := if zeros[s] > numzeros then numzeros else zeros[s];
        assert ZeroRun(data[..insize], pos, skip);
      }
      length := CompareStrings(data, pos, last, offset, skip);
    }

    /** The next slot to look at, and whether the search ends before it. */
    method NextSlotInChain(data: seq<Byte>, pos: nat, s: int, hashval: nat, numzeros: nat, length: nat)
      returns (stop: bool, next: int)
      requires Linked(data, pos) && Reached(windowsize, pos, s)
      ensures Reached(windowsize, pos, next)
      ensures numzeros < 3 && s != chain[s] && 0 <= chain[s] < windowsize && val[chain[s]] == hashval ==> !stop && next == chain[s]
    {
      SlotFacts(data, pos, s);
      if s == chain[s] { return true, s; }
      if numzeros >= 3 && length > numzeros {
        next := chainz[s];
        stop := zeros[next] != numzeros;
      } else {
        next := chain[s];
        stop := val[next] != hashval;
      }
    }

    /** The slot that p0 leads to is that of the position before with the same hash value, if that is still in the window. */
    lemma NextOnChain(data: seq<Byte>, pos: nat, p0: nat) returns (more: bool, cur: nat)
      requires windowsize > 0 && Describes(data, pos) && p0 <= pos < |hashes| && pos - p0 < windowsize && hashes[p0] == hashes[pos]
      ensures
        var s := chain[Wrap(windowsize, p0)];
        more ==> OnChain(hashes, windowsize, pos, cur, s, Rank(hashes, pos, p0)) && cur < p0 && 0 <= s < windowsize && val[s] == hashes[pos]
      ensures !more ==> NoneBehind(hashes, windowsize, pos, Rank(hashes, pos, p0))
    {
      hide Rank, Wrap;
      var found;
      found, cur := LastSame(hashes, p0, p0);
      more := found && pos - cur < windowsize;
      if more {
        assert chain[..][Wrap(windowsize, p0)] == Wrap(windowsize, cur);
        assert val[..][Wrap(windowsize, cur)] == hashes[cur];
        ChainStep(hashes, windowsize, pos, p0, cur);
      } else {
        ChainEnd(hashes, windowsize, pos, p0, found, cur);
      }
    }

    /** Searches the chain of the current position for the longest string that occurred before. */
    method FindMatch(data: seq<Byte>, pos: nat, insize: nat, hashval: nat, numzeros: nat,
                     nicematch: nat, maxchainlength: nat, ghost settings: Settings)
      returns (length: nat, offset: nat)
      requires windowsize > 0 && Describes(data, pos) && hashes[pos] == hashval
      requires pos < insize <= |data| && ZeroRun(data[..insize], pos, numzeros)
      requires numzeros <= MAX_SUPPORTED_DEFLATE_LENGTH
      requires windowsize == settings.windowsize && maxchainlength == ChainLimit(windowsize)
      requires nicematch == if settings.nicematch > MAX_SUPPORTED_DEFLATE_LENGTH then MAX_SUPPORTED_DEFLATE_LENGTH else settings.nicematch
      ensures RepeatsAt(data, insize, pos, length, offset) && offset < windowsize && pos + length <= insize
      ensures maxchainlength > 0 ==> AtLeastOffered(data, insize, hashes, settings, pos, length, offset)
    {
      hide Rank, OnChain, Tried, AtLeastOffered, RepeatsAt, Wrap, Linked, NoneBehind, Reached, ZeroRun, Earlier;
      length, offset := 0, 0;
      NothingRepeated(data, insize, pos);
      LinkedShape(data, pos);
      var wpos := Wrap(windowsize, pos);
      Advance(windowsize, pos, pos, wpos);
      SlotFacts(data, pos, wpos);
      var hashpos := chain[wpos];
      var prev_offset := 0;
      var chainlength := 0;
      ghost var following, cur := NextOnChain(data, pos, pos);
      TriedNone(data, insize, hashes, windowsize, pos);
      if !following { AllTried(data, insize, hashes, settings, pos, 0, 0, 0); }
      while chainlength < maxchainlength
        invariant Describes(data, pos) && Reached(windowsize, pos, hashpos)
        invariant RepeatsAt(data, insize, pos, length, offset) && offset <= prev_offset < windowsize
        invariant following ==> OnChain(hashes, windowsize, pos, cur, hashpos, chainlength) && prev_offset < pos - cur
        invariant following ==> Tried(data, insize, hashes, windowsize, pos, chainlength, length, offset)
        invariant !following ==> AtLeastOffered(data, insize, hashes, settings, pos, length, offset)
        decreases maxchainlength - chainlength
      {
        chainlength := chainlength + 1;
        var current_offset := if hashpos <= wpos then wpos - hashpos else wpos - hashpos + windowsize;
        if following { OffsetOnChain(hashes, windowsize, pos, cur, hashpos, chainlength - 1); }
        SlotFacts(data, pos, hashpos);
        if current_offset < prev_offset { break; }
        prev_offset := current_offset;
        if current_offset > 0 {
          var current_length := TryOffset(data, pos, insize, current_offset, hashpos, numzeros);
          Trying(data, insize, hashes, settings, pos, following, cur, hashpos, chainlength, length, offset, current_length, current_offset);
          if current_length > length {
            length, offset := current_length, current_offset;
            if current_length >= nicematch { following := false; break; }
          }
        }
        following, cur := NextTried(data, pos, following, cur, hashpos, chainlength, insize, settings, length, offset, numzeros);
        var stop;
        stop, hashpos := NextSlotInChain(data, pos, hashpos, hashval, numzeros, length);
        if stop { break; }
      }
      if following { LimitTried(data, insize, hashes, settings, pos, chainlength, length, offset); }
      RepeatsInside(data, insize, pos, length, offset);
    }

    lemma LinkedShape(data: seq<Byte>, last: int)
      requires Linked(data, last)
      ensures Shape() && |hashes| == last + 1 && (last >= 0 ==> Rank(hashes, last, last) == 0)
    {
      hide Rank;
      if last >= 0 { RankSelf(hashes, last); }
    }

    /** What is to be tried next, unless enough has been. */
    lemma NextTried(data: seq<Byte>, pos: nat, follow: bool, tried: nat, s: int, m: nat, end: nat, settings: Settings,
                    length: nat, offset: nat, numzeros: nat) returns (following: bool, cur: nat)
      requires windowsize == settings.windowsize && Describes(data, pos) && 0 <= s < windowsize && m > 0
      requires follow ==> OnChain(hashes, windowsize, pos, tried, s, m - 1) && Tried(data, end, hashes, windowsize, pos, m, length, offset)
      requires !follow ==> AtLeastOffered(data, end, hashes, settings, pos, length, offset)
      requires end <= |data| && ZeroRun(data[..end], pos, numzeros)
      ensures following ==>
        && follow && numzeros < 3 && OnChain(hashes, windowsize, pos, cur, chain[s], m) && cur < tried && chain[s] != s
        && 0 <= chain[s] < windowsize && val[chain[s]] == hashes[pos]
      ensures !following ==> AtLeastOffered(data, end, hashes, settings, pos, length, offset)
    {
      hide Tried, AtLeastOffered, Wrap, Linked, Rank, ZeroRun;
      following, cur := false, tried;
      if follow && numzeros >= 3 {
        ThreeZeros(data, end, pos, numzeros);
        FirstTried(data, end, hashes, settings, pos, m, length, offset);
      } else if follow {
        following, cur := NextOnChain(data, pos, tried);
        if following {
          SlotOfPosition(windowsize, pos, tried);
          SlotOfPosition(windowsize, pos, cur);
        } else {
          AllTried(data, end, hashes, settings, pos, m, length, offset);
        }
      }
    }
  }

  /** The data at pos repeats, for that many bytes before the end, what stands `offset` bytes earlier. */
  ghost predicate RepeatsAt(data: seq<Byte>, end: nat, pos: nat, length: nat, offset: nat) {
    && pos + length <= end <= |data| && length <= MAX_SUPPORTED_DEFLATE_LENGTH
    && (length > 0 ==> 1 <= offset <= pos)
    && (forall k :: pos <= k < pos + length ==> data[k] == data[k - offset])
  }

  lemma NothingRepeated(data: seq<Byte>, end: nat, pos: nat)
    requires pos < end <= |data|
    ensures RepeatsAt(data, end, pos, 0, 0)
  {
  }

  lemma RepeatsInside(data: seq<Byte>, end: nat, pos: nat, length: nat, offset: nat)
    requires RepeatsAt(data, end, pos, length, offset)
    ensures pos + length <= end
  {
  }

  // ---- The strings on offer ----

  /** How many positions of the chain are looked at. */
  function ChainLimit(windowsize: nat): nat { if windowsize >= 8192 then windowsize else windowsize / 8 }

  ghost predicate ZerosAhead(data: seq<Byte>, end: nat, p: nat) {
    p + 3 <= end <= |data| && data[p] == 0 && data[p + 1] == 0 && data[p + 2] == 0
  }

  lemma ThreeZeros(data: seq<Byte>, end: nat, p: nat, n: nat)
    requires end <= |data| && ZeroRun(data[..end], p, n) && n >= 3
    ensures ZerosAhead(data, end, p)
  {
    var d := data[..end];
    assert d[p] == 0 && d[p + 1] == 0 && d[p + 2] == 0;
  }

  /** A position in the chain of p from which n bytes are repeated. */
  ghost predicate Rival(data: seq<Byte>, end: nat, hashes: seq<nat>, w: nat, p: nat, q: nat, n: nat) {
    Earlier(hashes, w, p, q) && RepeatsAt(data, end, p, n, p - q)
  }

  /**
   * Such a position within the limits of the search: the first of the chain, or any up to the limit, for at most nicematch bytes.
   * Where three zeros lie ahead the search leaves the chain for that of the same number of zeros.
   */
  ghost predicate Offered(data: seq<Byte>, end: nat, hashes: seq<nat>, settings: Settings, p: nat, q: nat, n: nat) {
    && Rival(data, end, hashes, settings.windowsize, p, q, n)
    && (Rank(hashes, p, q) == 1
        || (Rank(hashes, p, q) <= ChainLimit(settings.windowsize) && n <= settings.nicematch && !ZerosAhead(data, end, p)))
  }

  /** The match found is no shorter than what is offered, and no further away than what is as long. */
  ghost predicate AtLeastOffered(data: seq<Byte>, end: nat, hashes: seq<nat>, settings: Settings, p: nat, length: nat, offset: nat) {
    forall q: nat, n: nat :: Offered(data, end, hashes, settings, p, q, n) ==> n <= length && (n == length > 0 ==> offset <= p - q)
  }

  /** The same for the first m positions of the chain. */
  ghost predicate Tried(data: seq<Byte>, end: nat, hashes: seq<nat>, w: nat, p: nat, m: nat, length: nat, offset: nat) {
    forall q: nat, n: nat :: Rival(data, end, hashes, w, p, q, n) && Rank(hashes, p, q) <= m ==>
      n <= length && (n == length > 0 ==> offset <= p - q)
  }

  lemma RivalRank(data: seq<Byte>, end: nat, hashes: seq<nat>, w: nat, p: nat, q: nat, n: nat)
    requires Rival(data, end, hashes, w, p, q, n)
    ensures q < p < |hashes| && Rank(hashes, p, q) >= 1
  {
    hide RepeatsAt;
    RankGrows(hashes, p, q, p);
  }

  lemma TriedNone(data: seq<Byte>, end: nat, hashes: seq<nat>, w: nat, p: nat)
    requires p < |hashes|
    ensures Tried(data, end, hashes, w, p, 0, 0, 0)
  {
    hide Rival, Rank;
    forall q: nat, n: nat | Rival(data, end, hashes, w, p, q, n) ensures q < p && Rank(hashes, p, q) >= 1 {
      RivalRank(data, end, hashes, w, p, q, n);
    }
  }

  lemma OffsetOnChain(hashes: seq<nat>, w: nat, p: nat, cur: nat, s: int, m: nat)
    requires OnChain(hashes, w, p, cur, s, m)
    ensures p - cur == if s <= Wrap(w, p) then Wrap(w, p) - s else Wrap(w, p) - s + w
  {
    hide Wrap, Rank;
    SlotOfPosition(w, p, cur);
  }

  /** One more position of the chain is tried. */
  lemma OneMoreTried(data: seq<Byte>, end: nat, hashes: seq<nat>, w: nat, p: nat, cur: nat, s: int, m: nat,
                     length: nat, offset: nat, current: nat, at: nat)
    requires m > 0 && OnChain(hashes, w, p, cur, s, m - 1) && offset < at == p - cur
    requires Tried(data, end, hashes, w, p, m - 1, length, offset)
    requires forall n: nat :: RepeatsAt(data, end, p, n, at) ==> n <= current
    ensures Tried(data, end, hashes, w, p, m, if current > length then current else length, if current > length then at else offset)
  {
    hide RepeatsAt, Rank;
    forall q: nat, n: nat | Rival(data, end, hashes, w, p, q, n) && Rank(hashes, p, q) <= m ensures q == cur || Rank(hashes, p, q) <= m - 1 {
      if q < cur { RankGrows(hashes, p, q, cur); }
      if q > cur { RankGrows(hashes, p, cur, q); }
    }
  }

  /** A longer match keeps what is known. */
  lemma StillLonger(data: seq<Byte>, end: nat, hashes: seq<nat>, settings: Settings, p: nat, length: nat, offset: nat, current: nat, at: nat)
    requires AtLeastOffered(data, end, hashes, settings, p, length, offset)
    ensures current > length ==> AtLeastOffered(data, end, hashes, settings, p, current, at)
  {
    hide Offered;
  }

  /** One more position is tried, of the chain or behind it. */
  lemma Trying(data: seq<Byte>, end: nat, hashes: seq<nat>, settings: Settings, p: nat, following: bool, cur: nat, s: int, m: nat,
               length: nat, offset: nat, current: nat, at: nat)
    requires following ==>
      && m > 0 && OnChain(hashes, settings.windowsize, p, cur, s, m - 1) && offset < at == p - cur
      && Tried(data, end, hashes, settings.windowsize, p, m - 1, length, offset)
    requires !following ==> AtLeastOffered(data, end, hashes, settings, p, length, offset)
    requires RepeatsAt(data, end, p, current, at) && forall n: nat :: RepeatsAt(data, end, p, n, at) ==> n <= current
    ensures
      var length', offset' := if current > length then current else length, if current > length then at else offset;
      && (following ==> Tried(data, end, hashes, settings.windowsize, p, m, length', offset'))
      && (!following ==> AtLeastOffered(data, end, hashes, settings, p, length', offset'))
      && (current > length && (current >= settings.nicematch || current >= MAX_SUPPORTED_DEFLATE_LENGTH) ==>
            AtLeastOffered(data, end, hashes, settings, p, current, at))
  {
    hide OnChain, Tried, AtLeastOffered, RepeatsAt;
    if following {
      OneMoreTried(data, end, hashes, settings.windowsize, p, cur, s, m, length, offset, current, at);
      if current > length && (current >= settings.nicematch || current >= MAX_SUPPORTED_DEFLATE_LENGTH) {
        NiceEnough(data, end, hashes, settings, p, cur, s, m, current);
      }
    } else {
      StillLonger(data, end, hashes, settings, p, length, offset, current, at);
    }
  }

  lemma AllTried(data: seq<Byte>, end: nat, hashes: seq<nat>, settings: Settings, p: nat, m: nat, length: nat, offset: nat)
    requires Tried(data, end, hashes, settings.windowsize, p, m, length, offset) && NoneBehind(hashes, settings.windowsize, p, m)
    ensures AtLeastOffered(data, end, hashes, settings, p, length, offset)
  {
    hide RepeatsAt, Rank;
  }

  lemma LimitTried(data: seq<Byte>, end: nat, hashes: seq<nat>, settings: Settings, p: nat, m: nat, length: nat, offset: nat)
    requires Tried(data, end, hashes, settings.windowsize, p, m, length, offset) && m >= ChainLimit(settings.windowsize)
    ensures m > 0 ==> AtLeastOffered(data, end, hashes, settings, p, length, offset)
  {
    hide RepeatsAt, Rank;
  }

  lemma FirstTried(data: seq<Byte>, end: nat, hashes: seq<nat>, settings: Settings, p: nat, m: nat, length: nat, offset: nat)
    requires Tried(data, end, hashes, settings.windowsize, p, m, length, offset) && m > 0 && ZerosAhead(data, end, p)
    ensures AtLeastOffered(data, end, hashes, settings, p, length, offset)
  {
    hide RepeatsAt, Rank;
  }

  /** A match of nicematch bytes is the last one looked at. */
  lemma NiceEnough(data: seq<Byte>, end: nat, hashes: seq<nat>, settings: Settings, p: nat, cur: nat, s: int, m: nat, length: nat)
    requires m > 0 && OnChain(hashes, settings.windowsize, p, cur, s, m - 1)
    requires Tried(data, end, hashes, settings.windowsize, p, m, length, p - cur)
    requires length >= settings.nicematch || length >= MAX_SUPPORTED_DEFLATE_LENGTH
    ensures AtLeastOffered(data, end, hashes, settings, p, length, p - cur)
  {
    hide Rank;
    forall q: nat, n: nat | Offered(data, end, hashes, settings, p, q, n) && Rank(hashes, p, q) > m
      ensures n <= length && p - cur <= p - q
    {
      if q > cur { RankGrows(hashes, p, cur, q); }
    }
  }

  /** Extends a match that is known for `skip` zeros as far as it goes, up to `last`. */
  method CompareStrings(data: seq<Byte>, pos: nat, last: nat, offset: nat, skip: nat) returns (length: nat)
    requires 1 <= offset <= pos && pos <= last <= |data|
    requires pos + skip <= last && ZeroRun(data, pos, skip) && ZeroRun(data, pos - offset, skip)
    ensures pos + length <= last
    ensures forall k :: pos <= k < pos + length ==> data[k] == data[k - offset]
    ensures pos + length < last ==> data[pos + length] != data[pos + length - offset]
  {
    length := skip;
    while pos + length != last && data[pos + length] == data[pos + length - offset]
      invariant pos + length <= last
      invariant forall k :: pos <= k < pos + length ==> data[k] == data[k - offset]
      decreases last - length
    {
      length := length + 1;
    }
  }

  // ---- The encoder ----

  /** out encodes data[inpos..done] with distances below the window size. */
  ghost predicate Encoded(data: seq<Byte>, inpos: nat, done: nat, windowsize: nat, out: seq<nat>, tokens: seq<Token>) {
    && inpos <= done <= |data|
    && ValidTokens(tokens, inpos) && Expand(data[..inpos], tokens) == data[..done]
    && Encodable(tokens) && out == Flatten(tokens)
    && (forall t :: t in tokens && t.Match? ==> t.distance < windowsize)
  }

  lemma EncodedNothing(data: seq<Byte>, inpos: nat, windowsize: nat)
    requires inpos <= |data|
    ensures Encoded(data, inpos, inpos, windowsize, [], [])
  {
  }

  lemma EncodeLiteral(data: seq<Byte>, inpos: nat, done: nat, windowsize: nat, out: seq<nat>, tokens: seq<Token>)
    requires Encoded(data, inpos, done, windowsize, out, tokens) && done < |data|
    ensures Encoded(data, inpos, done + 1, windowsize, out + [data[done]], tokens + [Literal(data[done])])
  {
    hide Expand, ValidTokens, Flatten;
    var t := Literal(data[done]);
    ExpandAppend(data[..inpos], tokens, t);
    FlattenAppend(tokens, t);
    assert data[..done + 1] == data[..done] + [data[done]];
  }

  lemma EncodeMatch(data: seq<Byte>, inpos: nat, done: nat, windowsize: nat, out: seq<nat>, tokens: seq<Token>,
                    end: nat, length: nat, offset: nat)
    requires Encoded(data, inpos, done, windowsize, out, tokens)
    requires RepeatsAt(data, end, done, length, offset) && length >= 3 && offset < windowsize <= 32768
    ensures Encoded(data, inpos, done + length, windowsize,
                    out + TokenValues(Match(length, offset)), tokens + [Match(length, offset)])
  {
    hide Expand, Flatten, TokenValues, CopyBack, ValidTokens;
    var t := Match(length, offset);
    ExpandAppend(data[..inpos], tokens, t);
    FlattenAppend(tokens, t);
    CopyOfData(data, done, length, offset);
  }

  predicate IsPowerOfTwo(n: nat) {
    n == 1 || (n > 1 && n % 2 == 0 && IsPowerOfTwo(n / 2))
  }

  /** addLengthDistance: the four symbols of a match. */
  method AddLengthDistance(values: seq<nat>, length: nat, distance: nat) returns (r: seq<nat>)
    requires 3 <= length && 1 <= distance
    ensures r == values + TokenValues(Match(length, distance))
  {
    hide CodeIndex, TokenValues, Rising, LENGTHBASE, DISTANCEBASE;
    TablesRise();
    var length_code := SearchCodeIndex(LENGTHBASE, length);
    var dist_code := SearchCodeIndex(DISTANCEBASE, distance);
    MatchValues(length, distance, length_code, dist_code);
    var extra_length: nat := length - LENGTHBASE[length_code];
    var extra_distance: nat := distance - DISTANCEBASE[dist_code];
    var length_symbol: nat := length_code + 257;
    r := values + [length_symbol, extra_length, dist_code, extra_distance];
  }

  /** The parameters of one run of the encoder. */
  datatype Settings = Settings(windowsize: nat, minmatch: nat, nicematch: nat, lazymatching: bool)

  // ---- What the tokens make of the strings on offer ----

  /** At the next position more than one byte more can be repeated. */
  ghost predicate BetterNext(data: seq<Byte>, end: nat, p: nat, n: nat) {
    exists m: nat, o: nat :: RepeatsMore(data, end, p, n, m, o)
  }

  ghost predicate RepeatsMore(data: seq<Byte>, end: nat, p: nat, n: nat, m: nat, o: nat) {
    RepeatsAt(data, end, p + 1, m, o) && m > n + 1
  }

  /**
   * A match at p is as long as all that is offered. A literal is put out only if each offer is of fewer than three bytes or than
   * minmatch, of three from far away, or of less than the match at the next position.
   */
  ghost predicate Worthwhile(data: seq<Byte>, end: nat, hashes: seq<nat>, settings: Settings, p: nat, t: Token) {
    p < |hashes| &&
    forall q: nat, n: nat :: Offered(data, end, hashes, settings, p, q, n) ==>
      if t.Match? then n <= t.length
      else n < 3 || n < settings.minmatch || (n == 3 && p - q > 4096) || (settings.lazymatching && BetterNext(data, end, p, n))
  }

  /** All tokens from p to done are. Windows of fewer than eight bytes are not searched. */
  ghost predicate AllWorthwhile(data: seq<Byte>, end: nat, hashes: seq<nat>, settings: Settings, p: nat, done: nat, tokens: seq<Token>) {
    if tokens == [] then done == p
    else
      var t := tokens[|tokens| - 1];
      && Size(t) <= done && (settings.windowsize >= 8 ==> Worthwhile(data, end, hashes, settings, done - Size(t), t))
      && AllWorthwhile(data, end, hashes, settings, p, done - Size(t), tokens[..|tokens| - 1])
  }

  lemma OneMoreWorthwhile(data: seq<Byte>, end: nat, hashes: seq<nat>, settings: Settings, p: nat, done: nat, tokens: seq<Token>, t: Token)
    requires AllWorthwhile(data, end, hashes, settings, p, done, tokens)
    requires settings.windowsize >= 8 ==> Worthwhile(data, end, hashes, settings, done, t)
    ensures AllWorthwhile(data, end, hashes, settings, p, done + Size(t), tokens + [t])
  {
    hide Worthwhile;
    assert (tokens + [t])[..|tokens|] == tokens;
  }

  lemma OfferedSame(data: seq<Byte>, end: nat, hashes0: seq<nat>, hashes1: seq<nat>, settings: Settings, p: nat, q: nat, n: nat)
    requires p < |hashes0| && hashes0 <= hashes1
    ensures Offered(data, end, hashes1, settings, p, q, n) <==> Offered(data, end, hashes0, settings, p, q, n)
  {
    hide Rank, RepeatsAt;
    if q < p {
      assert hashes1[q] == hashes0[q] && hashes1[p] == hashes0[p];
      RankSame(hashes0, hashes1, p, q);
    }
  }

  lemma StillWorthwhile(data: seq<Byte>, end: nat, hashes0: seq<nat>, hashes1: seq<nat>, settings: Settings, p: nat, t: Token)
    requires Worthwhile(data, end, hashes0, settings, p, t) && hashes0 <= hashes1
    ensures Worthwhile(data, end, hashes1, settings, p, t)
  {
    hide Offered, BetterNext;
    forall q: nat, n: nat ensures Offered(data, end, hashes1, settings, p, q, n) ==> Offered(data, end, hashes0, settings, p, q, n) {
      OfferedSame(data, end, hashes0, hashes1, settings, p, q, n);
    }
  }

  lemma {:induction false} AllStillWorthwhile(data: seq<Byte>, end: nat, hashes0: seq<nat>, hashes1: seq<nat>, settings: Settings,
                                              p: nat, done: nat, tokens: seq<Token>)
    requires AllWorthwhile(data, end, hashes0, settings, p, done, tokens) && hashes0 <= hashes1
    ensures AllWorthwhile(data, end, hashes1, settings, p, done, tokens)
    decreases |tokens|
  {
    hide Worthwhile;
    if tokens != [] {
      var t := tokens[|tokens| - 1];
      AllStillWorthwhile(data, end, hashes0, hashes1, settings, p, done - Size(t), tokens[..|tokens| - 1]);
      if settings.windowsize >= 8 { StillWorthwhile(data, end, hashes0, hashes1, settings, done - Size(t), t); }
    }
  }

  lemma MatchWorthwhile(data: seq<Byte>, end: nat, hashes: seq<nat>, settings: Settings, p: nat, length: nat, offset: nat)
    requires p < |hashes| && AtLeastOffered(data, end, hashes, settings, p, length, offset)
    ensures Worthwhile(data, end, hashes, settings, p, Match(length, offset))
    ensures length < 3 || length < settings.minmatch || (length == 3 && offset > 4096) ==>
      forall b: Byte :: Worthwhile(data, end, hashes, settings, p, Literal(b))
  {
    hide Offered, BetterNext;
  }

  /** A match found at p that waits for the one at the next position. */
  ghost predicate Deferred(data: seq<Byte>, end: nat, hashes: seq<nat>, settings: Settings, p: nat, length: nat, offset: nat) {
    && settings.lazymatching && length >= 3 && offset < settings.windowsize && p < |hashes| && p + length <= end
    && RepeatsAt(data, end, p, length, offset)
    && (settings.windowsize >= 8 ==> AtLeastOffered(data, end, hashes, settings, p, length, offset))
  }

  lemma StillDeferred(data: seq<Byte>, end: nat, hashes0: seq<nat>, hashes1: seq<nat>, settings: Settings, p: nat, length: nat, offset: nat)
    requires Deferred(data, end, hashes0, settings, p, length, offset) && hashes0 <= hashes1
    ensures Deferred(data, end, hashes1, settings, p, length, offset)
  {
    hide Offered, RepeatsAt;
    forall q: nat, n: nat
      ensures Offered(data, end, hashes1, settings, p, q, n) ==> Offered(data, end, hashes0, settings, p, q, n)
    {
      OfferedSame(data, end, hashes0, hashes1, settings, p, q, n);
    }
  }

  lemma LazyLiteral(data: seq<Byte>, end: nat, hashes: seq<nat>, settings: Settings, from: nat, p: nat,
                    length: nat, offset: nat, m: nat, o: nat, tokens: seq<Token>)
    requires p < |data| && Deferred(data, end, hashes, settings, p, length, offset)
    requires RepeatsAt(data, end, p + 1, m, o) && m > length + 1
    requires AllWorthwhile(data, end, hashes, settings, from, p, tokens)
    ensures AllWorthwhile(data, end, hashes, settings, from, p + 1, tokens + [Literal(data[p])])
  {
    hide Offered, RepeatsAt, AllWorthwhile;
    forall n: nat | n <= length ensures BetterNext(data, end, p, n) { assert RepeatsMore(data, end, p, n, m, o); }
    OneMoreWorthwhile(data, end, hashes, settings, from, p, tokens, Literal(data[p]));
  }

  /** The hash values entered by one run of the encoder. */
  ghost predicate HashedFrom(hashes: seq<nat>, data: seq<Byte>, end: nat, from: nat) {
    end <= |data| && forall p :: from <= p < |hashes| ==> hashes[p] == GetHash(data[..end], p)
  }

  lemma HashedOne(before: seq<nat>, now: seq<nat>, data: seq<Byte>, end: nat, from: nat, pos: nat)
    requires HashedFrom(before, data, end, from) && before <= now && |now| == pos + 1 && now[pos] == GetHash(data[..end], pos)
    requires |before| >= pos
    ensures HashedFrom(now, data, end, from)
  {
    hide GetHash;
    assert forall p :: 0 <= p < |before| ==> now[p] == before[p];
  }

  lemma {:induction false} RankBound(hashes: seq<nat>, p: nat, q: nat)
    requires q <= p < |hashes|
    ensures Rank(hashes, p, q) <= p - q
    decreases p - q
  {
    if q < p { RankBound(hashes, p, q + 1); }
  }

  /** Positions with the same three bytes have the same hash value. */
  lemma SameHash(data: seq<Byte>, end: nat, p: nat, q: nat)
    requires q < p && p + 3 <= end <= |data| && data[p] == data[q] && data[p + 1] == data[q + 1] && data[p + 2] == data[q + 2]
    ensures GetHash(data[..end], p) == GetHash(data[..end], q)
  {
    hide Xor;
    var d := data[..end];
    assert d[p] == d[q] && d[p + 1] == d[q + 1] && d[p + 2] == d[q + 2];
  }

  /**
   * With a window of 8192 bytes or more the search is complete, except where three zeros lie ahead: whatever stretch of at least
   * three and at most nicematch bytes is repeated from within the window, from this run of the encoder, a match is as long.
   */
  lemma LongestInWindow(data: seq<Byte>, end: nat, hashes: seq<nat>, settings: Settings, inpos: nat, p: nat, t: Token, q: nat, n: nat)
    requires HashedFrom(hashes, data, end, inpos) && Worthwhile(data, end, hashes, settings, p, t)
    requires settings.windowsize >= 8192 && !ZerosAhead(data, end, p)
    requires inpos <= q < p && p - q < settings.windowsize && 3 <= n <= settings.nicematch && RepeatsAt(data, end, p, n, p - q)
    ensures t.Match? ==> n <= t.length
    ensures !t.Match? ==> n < settings.minmatch || (n == 3 && p - q > 4096) || (settings.lazymatching && BetterNext(data, end, p, n))
  {
    hide GetHash, Rank, BetterNext, ZerosAhead;
    SameHash(data, end, p, q);
    RankBound(hashes, p, q);
    assert Offered(data, end, hashes, settings, p, q, n);
  }

  /** Position pos is the next one to enter: the one behind the last, or the last once more. */
  ghost predicate NextIs(hash: Hash, last: int, pos: nat)
    reads hash
  {
    if hash.forgot then last == pos else last == pos - 1
  }

  /** Enters the next position. */
  method EnterNext(hash: Hash, data: seq<Byte>, ghost inpos: nat, pos: nat, insize: nat, numzeros: nat, ghost last: int)
    returns (hashval: nat, numzeros': nat)
    requires hash.windowsize > 0 && hash.Linked(data, last) && NextIs(hash, last, pos)
    requires inpos <= pos < insize <= |data|
    requires CarriedZeros(data[..insize], pos, numzeros) && HashedFrom(hash.hashes, data, insize, inpos)
    modifies hash.Repr()
    ensures hash.Describes(data, pos) && |hash.hashes| == pos + 1 && hash.hashes[pos] == hashval < HASH_NUM_VALUES
    ensures numzeros' <= MAX_SUPPORTED_DEFLATE_LENGTH && ZeroRun(data[..insize], pos, numzeros')
    ensures CarriedZeros(data[..insize], pos, numzeros') && CarriedZeros(data[..insize], pos + 1, numzeros')
    ensures old(hash.hashes) <= hash.hashes && HashedFrom(hash.hashes, data, insize, inpos)
  {
    hide Hash.Linked, HashedFrom, GetHash, CarriedZeros, ZeroRun;
    ghost var before := hash.hashes;
    LinkedSize(hash, data, last);
    if hash.forgot { HashedAt(hash.hashes, data, insize, inpos, pos); }
    hashval, numzeros' := hash.Enter(data, pos, insize, numzeros, last);
    HashedOne(before, hash.hashes, data, insize, inpos, pos);
    OneStep(data[..insize], pos, numzeros');
  }

  /** Enters the positions a match covers after its first one. */
  method EnterMatch(hash: Hash, data: seq<Byte>, ghost inpos: nat, pos: nat, insize: nat, length: nat, numzeros: nat, ghost last: int)
    returns (numzeros': nat)
    requires hash.windowsize > 0 && hash.Linked(data, last) && NextIs(hash, last, pos + 1)
    requires length >= 3 && inpos <= pos && pos + length <= insize <= |data|
    requires CarriedZeros(data[..insize], pos + 1, numzeros) && HashedFrom(hash.hashes, data, insize, inpos)
    modifies hash.Repr()
    ensures hash.Describes(data, pos + length - 1)
    ensures CarriedZeros(data[..insize], pos + length, numzeros')
    ensures old(hash.hashes) <= hash.hashes && HashedFrom(hash.hashes, data, insize, inpos)
  {
    hide Hash.Linked, HashedFrom, CarriedZeros, ZeroRun;
    numzeros' := numzeros;
    ghost var entered := last;
    for i := 1 to length
      invariant hash.Linked(data, entered) && NextIs(hash, entered, pos + i) && (i > 1 ==> !hash.forgot)
      invariant CarriedZeros(data[..insize], pos + i, numzeros')
      invariant old(hash.hashes) <= hash.hashes && HashedFrom(hash.hashes, data, insize, inpos)
    {
      var _, z := EnterNext(hash, data, inpos, pos + i, insize, numzeros', entered);
      numzeros' := z;
      entered := pos + i;
    }
  }

  lemma LinkedSize(hash: Hash, data: seq<Byte>, last: int)
    requires hash.Linked(data, last)
    ensures |hash.hashes| == last + 1 && -1 <= last
  {
  }

  lemma HashedAt(hashes: seq<nat>, data: seq<Byte>, end: nat, from: nat, p: nat)
    requires HashedFrom(hashes, data, end, from) && from <= p < |hashes|
    ensures end <= |data| && hashes[p] == GetHash(data[..end], p)
  {
    hide GetHash;
  }

  lemma OneStep(data: seq<Byte>, pos: nat, n: nat)
    requires n <= MAX_SUPPORTED_DEFLATE_LENGTH && ZeroRun(data, pos, n)
    ensures CarriedZeros(data, pos, n) && CarriedZeros(data, pos + 1, n)
  {
  }

  /** Puts out the match found at pos, or the byte there if the match is not worth it; moves past it. */
  method PutToken(hash: Hash, data: seq<Byte>, ghost inpos: nat, pos: nat, insize: nat, settings: Settings,
                  length: nat, offset: nat, numzeros: nat, ghost last: int, out: seq<nat>, ghost tokens: seq<Token>)
    returns (numzeros': nat, pos': nat, ghost last': int, out': seq<nat>, ghost tokens': seq<Token>)
    requires 0 < hash.windowsize == settings.windowsize <= 32768
    requires hash.Linked(data, last) && NextIs(hash, last, pos + 1) && last < insize <= |data|
    requires CarriedZeros(data[..insize], pos + 1, numzeros) && HashedFrom(hash.hashes, data, insize, inpos)
    requires RepeatsAt(data, insize, pos, length, offset) && offset < hash.windowsize
    requires Encoded(data, inpos, pos, hash.windowsize, out, tokens) && inpos <= pos < insize
    requires AllWorthwhile(data, insize, hash.hashes, settings, inpos, pos, tokens)
    requires settings.windowsize >= 8 ==> AtLeastOffered(data, insize, hash.hashes, settings, pos, length, offset)
    modifies hash.Repr()
    ensures pos < pos' <= insize
    ensures hash.Linked(data, last') && NextIs(hash, last', pos') && last' < insize
    ensures CarriedZeros(data[..insize], pos', numzeros')
    ensures old(hash.hashes) <= hash.hashes && HashedFrom(hash.hashes, data, insize, inpos)
    ensures Encoded(data, inpos, pos', hash.windowsize, out', tokens')
    ensures AllWorthwhile(data, insize, hash.hashes, settings, inpos, pos', tokens')
  {
    hide Hash.Linked, Encoded, TokenValues, AllWorthwhile, Worthwhile, AtLeastOffered, HashedFrom, CarriedZeros;
    LinkedSize(hash, data, last);
    if settings.windowsize >= 8 { MatchWorthwhile(data, insize, hash.hashes, settings, pos, length, offset); }
    if length < 3 || length < settings.minmatch || (length == 3 && offset > 4096) {
      EncodeLiteral(data, inpos, pos, hash.windowsize, out, tokens);
      OneMoreWorthwhile(data, insize, hash.hashes, settings, inpos, pos, tokens, Literal(data[pos]));
      numzeros', pos', last', out', tokens' := numzeros, pos + 1, last, out + [data[pos]], tokens + [Literal(data[pos])];
    } else {
      EncodeMatch(data, inpos, pos, hash.windowsize, out, tokens, insize, length, offset);
      OneMoreWorthwhile(data, insize, hash.hashes, settings, inpos, pos, tokens, Match(length, offset));
      out' := AddLengthDistance(out, length, offset);
      tokens' := tokens + [Match(length, offset)];
      ghost var before := hash.hashes;
      numzeros' := EnterMatch(hash, data, inpos, pos, insize, length, numzeros, last);
      pos' := pos + length;
      last' := pos' - 1;
      AllStillWorthwhile(data, insize, before, hash.hashes, settings, inpos, pos', tokens');
    }
  }

  /**
   * Encodes data[inpos..insize]. The tokens reproduce exactly that stretch from the bytes before it,
   * every distance stays below the window size, and no token is worse than what the position before with the same hash
   * value offers; errors 81 and 86 of the source cannot happen.
   */
  method EncodeLZ77(hash: Hash, data: seq<Byte>, inpos: nat, insize: nat, settings: Settings)
    returns (error: nat, out: seq<nat>, ghost tokens: seq<Token>)
    requires hash.windowsize == settings.windowsize && hash.Describes(data, inpos - 1)
    requires inpos <= insize <= |data|
    modifies hash.Repr()
    ensures error ==
      if settings.windowsize == 0 || settings.windowsize > 32768 then 60
      else if !IsPowerOfTwo(settings.windowsize) then 90
      else 0
    ensures error == 0 ==>
      hash.Describes(data, insize - 1) && Encoded(data, inpos, insize, settings.windowsize, out, tokens)
    ensures error == 0 ==>
      && AllWorthwhile(data, insize, hash.hashes, settings, inpos, insize, tokens)
      && old(hash.hashes) <= hash.hashes && HashedFrom(hash.hashes, data, insize, inpos)
  {
    hide Hash.Linked, Hash.Shape, Encoded, IsPowerOfTwo, RepeatsAt, AllWorthwhile, Worthwhile, AtLeastOffered, HashedFrom, CarriedZeros, ZeroRun;
    out, tokens := [], [];
    var windowsize := settings.windowsize;
    var maxchainlength := if windowsize >= 8192 then windowsize else windowsize / 8;
    var maxlazymatch := if windowsize >= 8192 then MAX_SUPPORTED_DEFLATE_LENGTH else 64;
    if windowsize == 0 || windowsize > 32768 { return 60, out, tokens; }
    if !IsPowerOfTwo(windowsize) { return 90, out, tokens; }
    error := 0;
    var nicematch := if settings.nicematch > MAX_SUPPORTED_DEFLATE_LENGTH then MAX_SUPPORTED_DEFLATE_LENGTH
                     else settings.nicematch;
    var numzeros, lazy, lazylength, lazyoffset := 0, false, 0, 0;
    var pos := inpos;
    ghost var last, done := inpos - 1, inpos;
    EncodedNothing(data, inpos, windowsize);
    StartOfRun(hash, data, inpos, insize, settings);
    while pos < insize
      invariant inpos <= pos <= insize
      invariant hash.Linked(data, last) && NextIs(hash, last, pos) && (lazy ==> !hash.forgot) && last < insize
      invariant CarriedZeros(data[..insize], pos, numzeros)
      invariant old(hash.hashes) <= hash.hashes && HashedFrom(hash.hashes, data, insize, inpos)
      invariant if lazy then done == pos - 1 else done == pos
      invariant lazy ==> Deferred(data, insize, hash.hashes, settings, done, lazylength, lazyoffset)
      invariant inpos <= done && Encoded(data, inpos, done, windowsize, out, tokens)
      invariant AllWorthwhile(data, insize, hash.hashes, settings, inpos, done, tokens)
      decreases 2 * (insize - pos) + if lazy then 2 else 1
    {
      ghost var before := hash.hashes;
      var hashval, z := EnterNext(hash, data, inpos, pos, insize, numzeros, last);
      AllStillWorthwhile(data, insize, before, hash.hashes, settings, inpos, done, tokens);
      if lazy { StillDeferred(data, insize, before, hash.hashes, settings, done, lazylength, lazyoffset); }
      numzeros, last := z, pos;
      var length, offset := hash.FindMatch(data, pos, insize, hashval, numzeros, nicematch, maxchainlength, settings);
      if settings.lazymatching {
        if !lazy && 3 <= length <= maxlazymatch && length < MAX_SUPPORTED_DEFLATE_LENGTH {
          lazy, lazylength, lazyoffset := true, length, offset;
          pos := pos + 1;
          continue;
        }
        if lazy {
          lazy := false;
          if pos == 0 { assert false; }
          if length > lazylength + 1 {
            EncodeLiteral(data, inpos, done, windowsize, out, tokens);
            LazyLiteral(data, insize, hash.hashes, settings, inpos, done, lazylength, lazyoffset, length, offset, tokens);
            out, tokens := out + [data[pos - 1]], tokens + [Literal(data[pos - 1])];
            done := pos;
          } else {
            length, offset := lazylength, lazyoffset;
            hash.Forget(data, hashval, numzeros, last);
            pos := pos - 1;
          }
        }
      }
      if length >= 3 && offset > windowsize { assert false; }
      numzeros, pos, last, out, tokens :=
        PutToken(hash, data, inpos, pos, insize, settings, length, offset, numzeros, last, out, tokens);
      done := pos;
    }
  }

  lemma StartOfRun(hash: Hash, data: seq<Byte>, inpos: nat, insize: nat, settings: Settings)
    requires hash.Describes(data, inpos - 1) && inpos <= insize <= |data|
    ensures HashedFrom(hash.hashes, data, insize, inpos) && AllWorthwhile(data, insize, hash.hashes, settings, inpos, inpos, [])
    ensures CarriedZeros(data[..insize], inpos, 0)
  {
  }
}
