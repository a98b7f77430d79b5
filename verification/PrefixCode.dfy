/** Prefix codes as tables of bit strings, with no reference to how the codes are computed. */
module PrefixCode {
  import opened Bits

  /** The code of every symbol; a symbol that is not used has the empty code. */
  type CodeTable = seq<BitString>

  datatype Option<+T> = None | Some(value: T)

  /** The numbers of the source's errors; 0 is none. */
  type ErrorCode = e: nat | e != 0 witness 1

  datatype Result<+T> = Ok(value: T) | Err(error: ErrorCode)

  predicate Present(code: CodeTable, s: nat) { s < |code| && code[s] != [] }

  ghost function Symbols(code: CodeTable): set<nat> {
    set s | 0 <= s < |code| && code[s] != []
  }

  ghost predicate PrefixFree(code: CodeTable) {
    forall a: nat, b: nat :: Present(code, a) && Present(code, b) && code[a] <= code[b] ==> a == b
  }

  /** Every long enough bit string starts with a code. */
  ghost predicate Covers(code: CodeTable, maxLen: nat) {
    && (forall s :: 0 <= s < |code| ==> |code[s]| <= maxLen)
    && (forall p: BitString {:trigger Reaches(code, p)} :: |p| == maxLen ==> Reaches(code, p))
  }

  ghost predicate Reaches(code: CodeTable, p: BitString) {
    exists s: nat :: Starts(code, s, p)
  }

  predicate Starts(code: CodeTable, s: nat, bits: BitString) {
    Present(code, s) && code[s] <= bits
  }

  // ---- Codes that leave some bit strings out ----

  /** Some code begins with the bits. */
  ghost predicate Touched(code: CodeTable, bits: BitString) {
    exists s: nat :: Present(code, s) && bits <= code[s]
  }

  /** The bits leave the code tree with their last bit: no code begins with them. */
  ghost predicate DeadEnd(code: CodeTable, bits: BitString) {
    bits != [] && (|bits| == 1 || InnerPath(code, bits[..|bits| - 1])) && !Touched(code, bits)
  }

  ghost predicate DeadAt(code: CodeTable, bits: BitString, n: nat) { n <= |bits| && DeadEnd(code, bits[..n]) }

  /**
   * Reading a symbol: the one whose code the bits begin with. Bits that no code begins with are
   * symbol 0, as soon as they leave the code tree; a complete code has none.
   */
  ghost function ReadSymbol(code: CodeTable, bits: BitString): (r: Option<(nat, BitString)>)
    ensures r.Some? ==> |r.value.1| <= |bits|
  {
    if exists s: nat :: Starts(code, s, bits) then
      var s: nat :| Starts(code, s, bits);
      Some((s, bits[|code[s]|..]))
    else if exists n: nat :: DeadAt(code, bits, n) then
      var n: nat :| DeadAt(code, bits, n);
      Some((0, bits[n..]))
    else None
  }

  lemma ReadCode(code: CodeTable, s: nat, bits: BitString)
    requires PrefixFree(code) && Starts(code, s, bits)
    ensures ReadSymbol(code, bits) == Some((s, bits[|code[s]|..]))
  {
    var t := ReadSymbol(code, bits).value.0;
    PrefixesCompare(code[s], code[t], bits);
  }

  /** Decoding what was encoded returns the symbol and leaves the rest of the bits. */
  lemma ReadEncoded(code: CodeTable, s: nat, rest: BitString)
    requires PrefixFree(code) && Present(code, s)
    ensures ReadSymbol(code, code[s] + rest) == Some((s, rest))
  {
    ReadCode(code, s, code[s] + rest);
    assert (code[s] + rest)[|code[s]|..] == rest;
  }

  lemma DeadOnce(code: CodeTable, bits: BitString, m: nat, n: nat)
    requires DeadAt(code, bits, n) && m < n
    ensures !DeadAt(code, bits, m)
  {
    if 0 < m {
      assert bits[..n][..n - 1] == bits[..n - 1] && bits[..m] <= bits[..n - 1];
      var s: nat :| Present(code, s) && bits[..n - 1] < code[s];
      assert Present(code, s) && bits[..m] <= code[s];
    }
  }

  lemma ReadDead(code: CodeTable, bits: BitString, n: nat)
    requires DeadAt(code, bits, n) && !exists s: nat :: Starts(code, s, bits)
    ensures ReadSymbol(code, bits) == Some((0, bits[n..]))
  {
    var m := |bits| - |ReadSymbol(code, bits).value.1|;
    assert DeadAt(code, bits, m);
    if m < n { DeadOnce(code, bits, m, n); } else if n < m { DeadOnce(code, bits, n, m); }
  }

  lemma PrefixesCompare(a: BitString, b: BitString, c: BitString)
    requires a <= c && b <= c
    ensures a <= b || b <= a
  {
  }

  // ---- Counting the inner nodes of the code tree ----

  ghost predicate InnerPath(code: CodeTable, p: BitString) {
    exists s: nat :: Present(code, s) && p < code[s]
  }

  /** The inner nodes of the code tree: the proper prefixes of codes. */
  ghost function InnerNodes(code: CodeTable): (nodes: set<BitString>)
    ensures forall p :: p in nodes <==> InnerPath(code, p)
  {
    InnerIsPrefix(code);
    set s, k | 0 <= s < |code| && 0 <= k < |code[s]| :: code[s][..k]
  }

  lemma InnerIsPrefix(code: CodeTable)
    ensures forall p :: InnerPath(code, p) <==> p in (set s, k | 0 <= s < |code| && 0 <= k < |code[s]| :: code[s][..k])
  {
    var nodes := set s, k | 0 <= s < |code| && 0 <= k < |code[s]| :: code[s][..k];
    forall p ensures InnerPath(code, p) <==> p in nodes {
      if s: nat :| Present(code, s) && p < code[s] { assert code[s][..|p|] == p; }
      if p in nodes {
        var s, k :| 0 <= s < |code| && 0 <= k < |code[s]| && p == code[s][..k];
        assert Present(code, s);
      }
    }
  }

  ghost function Below(paths: set<BitString>, p: BitString): set<BitString> {
    set q | q in paths && p <= q
  }

  ghost function SymbolsBelow(code: CodeTable, p: BitString): set<nat> {
    set s | 0 <= s < |code| && code[s] != [] && p <= code[s]
  }

  function Pad(p: BitString, n: nat): (r: BitString)
    ensures |p| <= n ==> |r| == n && p <= r
    decreases n - |p|
  {
    if |p| < n then Pad(p + [false], n) else p
  }

  /** A child of an inner path leads to at least one symbol. */
  lemma ChildReachesSymbol(code: CodeTable, maxLen: nat, p: BitString, bit: bool)
    requires PrefixFree(code) && Covers(code, maxLen) && InnerPath(code, p)
    ensures SymbolsBelow(code, p + [bit]) != {}
  {
    var s: nat :| Present(code, s) && p < code[s];
    var c := p + [bit];
    var long := Pad(c, maxLen);
    assert Reaches(code, long);
    var t: nat :| Starts(code, t, long);
    PrefixesCompare(c, code[t], long);
    var from, to := code[t], code[s];
    assert from <= c ==> from == c || from <= to;
    assert t in SymbolsBelow(code, c);
  }

  lemma BelowJoins(paths: set<BitString>, p: BitString)
    ensures |Below(paths, p)| <= 1 + |Below(paths, p + [false])| + |Below(paths, p + [true])|
  {
    var l, r := Below(paths, p + [false]), Below(paths, p + [true]);
    forall q | q in Below(paths, p) ensures q in {p} + l + r {
      ExtensionSplits(p, q);
    }
    SubsetCard(Below(paths, p), {p} + l + r);
  }

  lemma SymbolsJoin(code: CodeTable, p: BitString)
    ensures |SymbolsBelow(code, p + [false])| + |SymbolsBelow(code, p + [true])| <= |SymbolsBelow(code, p)|
  {
    var l, r := SymbolsBelow(code, p + [false]), SymbolsBelow(code, p + [true]);
    forall s | s in l ensures s !in r {
      assert code[s][|p|] == (p + [false])[|p|];
    }
    SubsetCard(l + r, SymbolsBelow(code, p));
  }

  lemma InnerPrefix(code: CodeTable, p: BitString, q: BitString)
    requires InnerPath(code, q)
    ensures p <= q ==> InnerPath(code, p)
  {
    var s: nat :| Present(code, s) && q < code[s];
    assert p <= q ==> p < code[s];
  }

  lemma {:induction false} NodesBelow(code: CodeTable, maxLen: nat, paths: set<BitString>, p: BitString)
    requires PrefixFree(code) && Covers(code, maxLen) && |p| <= maxLen
    requires forall q :: q in paths ==> InnerPath(code, q)
    ensures InnerPath(code, p) ==> |Below(paths, p)| < |SymbolsBelow(code, p)|
    ensures !InnerPath(code, p) ==> Below(paths, p) == {}
    decreases maxLen - |p|
  {
    if InnerPath(code, p) {
      var s: nat :| Present(code, s) && p < code[s];
      var l, r := p + [false], p + [true];
      NodesBelow(code, maxLen, paths, l);
      NodesBelow(code, maxLen, paths, r);
      ChildReachesSymbol(code, maxLen, p, false);
      ChildReachesSymbol(code, maxLen, p, true);
      BelowJoins(paths, p);
      SymbolsJoin(code, p);
    } else {
      forall q | q in paths ensures !(p <= q) {
        InnerPrefix(code, p, q);
      }
    }
  }

  lemma ExtensionSplits(p: BitString, q: BitString)
    requires p <= q
    ensures q == p || p + [false] <= q || p + [true] <= q
  {
    if q != p {
      assert |p| < |q|;
      assert q[..|p| + 1] == p + [q[|p|]];
      assert q[..|p| + 1] <= q;
      if q[|p|] {
        assert p + [true] <= q;
      } else {
        assert p + [false] <= q;
      }
    }
  }

  lemma SubsetCard<T>(a: set<T>, b: set<T>)
    requires a <= b
    ensures |a| <= |b|
  {
    if a != {} {
      var x :| x in a;
      SubsetCard(a - {x}, b - {x});
    }
  }

  /** A complete prefix code tree has fewer inner nodes than symbols. */
  lemma NodeCount(code: CodeTable, maxLen: nat, paths: set<BitString>)
    requires PrefixFree(code) && Covers(code, maxLen)
    requires forall q :: q in paths ==> InnerPath(code, q)
    ensures |paths| < |Symbols(code)|
  {
    NodesBelow(code, maxLen, paths, []);
    assert Below(paths, []) == paths;
    assert SymbolsBelow(code, []) == Symbols(code);
    if paths == {} {
      var p := Pad([], maxLen);
      assert Reaches(code, p);
      var s: nat :| Starts(code, s, p);
      assert s in Symbols(code);
    } else {
      var q :| q in paths;
      var s: nat :| Present(code, s) && q < code[s];
      assert InnerPath(code, []);
    }
  }

  lemma {:induction false} SymbolsBound(code: CodeTable)
    ensures |Symbols(code)| <= |code|
  {
    if code != [] {
      var front := code[..|code| - 1];
      SymbolsBound(front);
      SubsetCard(Symbols(code), Symbols(front) + {|code| - 1});
    }
  }
}
