/**
 * A stream with a dynamic block given byte by byte, with all three repeat codes, extra bits for a length and for a distance,
 * and what it stands for (sections 3.2.3 to 3.2.7 of RFC 1951; lodepng.c:962-1107, 1110-1200).
 */
module StandardDynamic {
  import opened Bits
  import opened BitStream
  import opened PrefixCode
  import opened Canonical
  import opened CodeTrees
  import opened Tokens
  import opened CodeLengths
  import opened Format
  import opened Blocks
  import opened Inflate
  import opened InflateFindings
  import opened StandardStreams

  const DYNAMIC_STREAM: seq<Byte> := [
    0x6d, 0xc4, 0x27, 0x01, 0x00, 0x00, 0x00, 0xc3, 0x30, 0xad, 0x3b, 0xfe, 0x39, 0xac, 0x81, 0x82, 0x24, 0xdd, 0x63, 0x01]

  /** Codes for "a" to "d", the end code, length symbol 269 and distance symbols 3 and 4. */
  function LitLen(): (s: seq<nat>)
    ensures |s| == 270
  {
    Front() + [2] + Copies(0, 12) + [2]
  }

  function Front(): (s: seq<nat>)
    ensures |s| == 256
  {
    Copies(0, 97) + [3] + Copies(3, 3) + Copies(0, 138) + Copies(0, 10) + Copies(0, 7)
  }

  const DISTANCES: seq<nat> := [0, 0, 0, 1, 1]

  const CODE_LENGTHS: seq<nat> := [0, 3, 3, 3, 0, 0, 0, 0, 0, 0, 0, 0, 0, 0, 0, 0, 3, 2, 2]

  const LENGTH_RUNS: seq<Run> := [
    LongZeros(97), Single(3), CopyPrevious(3), LongZeros(138), ShortZeros(10), ShortZeros(7), Single(2), LongZeros(12), Single(2),
    ShortZeros(3), Single(1), Single(1)]

  function StreamHeader(): Header { Header(LitLen(), DISTANCES, CODE_LENGTHS, 18, LENGTH_RUNS) }

  const TOKENS: seq<Token> := [Literal(97), Literal(98), Literal(99), Literal(100), Literal(97), Match(20, 5)]

  // ---- The three codes ----

  lemma LitLenAt(s: nat)
    requires s < 288
    ensures PadTo(LitLen(), 288)[s] == if 97 <= s <= 100 then 3 else if s == 256 || s == 269 then 2 else 0
  {
  }

  /** Codes of at most three bits: which are the first ones, from the numbers of codes of one and two bits. */
  lemma FirstCodes(lengths: seq<nat>, n1: nat, n2: nat)
    requires CountUpTo(lengths, 1, |lengths|) == n1 && CountUpTo(lengths, 2, |lengths|) == n2
    ensures FirstCode(lengths, 1) == 0 && FirstCode(lengths, 2) == 2 * n1 && FirstCode(lengths, 3) == 2 * (2 * n1 + n2)
  {
    hide CountUpTo;
    FirstIsZero(lengths);
    assert FirstCode(lengths, 2) == 2 * (FirstCode(lengths, 1) + Count(lengths, 1));
  }

  lemma NextCount(lengths: seq<nat>, l: nat, n: nat)
    requires n < |lengths|
    ensures CountUpTo(lengths, l, n + 1) == CountUpTo(lengths, l, n) + if lengths[n] == l then 1 else 0
  {
  }

  lemma LitLenCounts(l: nat)
    requires l in {1, 2, 3}
    ensures
      var ll := PadTo(LitLen(), 288);
      && CountUpTo(ll, l, 97) == 0 && CountUpTo(ll, l, 98) == (if l == 3 then 1 else 0) && CountUpTo(ll, l, 99) == (if l == 3 then 2 else 0)
      && CountUpTo(ll, l, 100) == (if l == 3 then 3 else 0) && CountUpTo(ll, l, 256) == (if l == 3 then 4 else 0)
      && CountUpTo(ll, l, 269) == (if l == 3 then 4 else if l == 2 then 1 else 0)
      && CountUpTo(ll, l, 288) == (if l == 3 then 4 else if l == 2 then 2 else 0)
  {
    hide CountUpTo, LitLen, PadTo;
    var ll := PadTo(LitLen(), 288);
    forall s | 0 <= s < 288 ensures ll[s] == if 97 <= s <= 100 then 3 else if s == 256 || s == 269 then 2 else 0 { LitLenAt(s); }
    NothingCounted(ll, l);
    CountConstant(ll, l, 0, 97, 0);
    CountConstant(ll, l, 97, 98, 3);
    CountConstant(ll, l, 97, 99, 3);
    CountConstant(ll, l, 97, 100, 3);
    CountConstant(ll, l, 97, 101, 3);
    CountConstant(ll, l, 101, 256, 0);
    NextCount(ll, l, 256);
    CountConstant(ll, l, 257, 269, 0);
    NextCount(ll, l, 269);
    CountConstant(ll, l, 270, 288, 0);
  }

  lemma LitLenCodes()
    ensures
      var code := Codes(PadTo(LitLen(), 288));
      && code[97] == CodeBits(4, 3) && code[98] == CodeBits(5, 3) && code[99] == CodeBits(6, 3) && code[100] == CodeBits(7, 3)
      && code[256] == CodeBits(0, 2) && code[269] == CodeBits(1, 2)
  {
    hide CountUpTo, LitLen, PadTo, FirstCode, CodeBits, Codes;
    var ll := PadTo(LitLen(), 288);
    LitLenCounts(1);
    LitLenCounts(2);
    LitLenCounts(3);
    FirstCodes(ll, 0, 2);
    CodeAt(ll, 97);
    CodeAt(ll, 98);
    CodeAt(ll, 99);
    CodeAt(ll, 100);
    CodeAt(ll, 256);
    CodeAt(ll, 269);
    LitLenAt(97);
    LitLenAt(98);
    LitLenAt(99);
    LitLenAt(100);
    LitLenAt(256);
    LitLenAt(269);
  }

  lemma DistanceCodes()
    ensures
      var d := PadTo(DISTANCES, 32);
      d[3] == 1 && d[4] == 1 && Codes(d)[3] == CodeBits(0, 1) && Codes(d)[4] == CodeBits(1, 1)
  {
    hide CountUpTo, FirstCode, CodeBits, Codes;
    var d := PadTo(DISTANCES, 32);
    FirstIsZero(d);
    NothingCounted(d, 1);
    CountConstant(d, 1, 0, 3, 0);
    NextCount(d, 1, 3);
    CodeAt(d, 3);
    CodeAt(d, 4);
  }

  lemma LengthCodeCounts(l: nat)
    requires l in {1, 2, 3}
    ensures
      var cl := CODE_LENGTHS;
      && CountUpTo(cl, l, 1) == 0 && CountUpTo(cl, l, 2) == (if l == 3 then 1 else 0) && CountUpTo(cl, l, 3) == (if l == 3 then 2 else 0)
      && CountUpTo(cl, l, 16) == (if l == 3 then 3 else 0) && CountUpTo(cl, l, 17) == (if l == 3 then 4 else 0)
      && CountUpTo(cl, l, 18) == (if l == 3 then 4 else if l == 2 then 1 else 0)
      && CountUpTo(cl, l, 19) == (if l == 3 then 4 else if l == 2 then 2 else 0)
  {
    hide CountUpTo;
    var cl := CODE_LENGTHS;
    NothingCounted(cl, l);
    NextCount(cl, l, 0);
    NextCount(cl, l, 1);
    NextCount(cl, l, 2);
    NextCount(cl, l, 3);
    CountConstant(cl, l, 4, 16, 0);
    NextCount(cl, l, 16);
    NextCount(cl, l, 17);
    NextCount(cl, l, 18);
  }

  lemma LengthCodes()
    ensures
      var code := Codes(CODE_LENGTHS);
      && code[1] == CodeBits(4, 3) && code[2] == CodeBits(5, 3) && code[3] == CodeBits(6, 3) && code[16] == CodeBits(7, 3)
      && code[17] == CodeBits(0, 2) && code[18] == CodeBits(1, 2)
  {
    hide CountUpTo, FirstCode, CodeBits, Codes;
    var cl := CODE_LENGTHS;
    LengthCodeCounts(1);
    LengthCodeCounts(2);
    LengthCodeCounts(3);
    FirstCodes(cl, 0, 2);
    CodeAt(cl, 1);
    CodeAt(cl, 2);
    CodeAt(cl, 3);
    CodeAt(cl, 16);
    CodeAt(cl, 17);
    CodeAt(cl, 18);
  }

  lemma LengthCodeComplete()
    ensures CompleteLengths(CODE_LENGTHS, 7)
  {
    hide KraftTo, Pow2;
    var cl := CODE_LENGTHS;
    Pow2Small();
    KraftStart(cl, 7);
    KraftOfUnused(cl, 7, 0, 1);
    KraftConstant(cl, 7, 3, 1, 4);
    KraftOfUnused(cl, 7, 4, 16);
    KraftConstant(cl, 7, 3, 16, 17);
    KraftConstant(cl, 7, 2, 17, 19);
  }

  lemma DistancesComplete()
    ensures CompleteLengths(DISTANCES, 15)
  {
    hide KraftTo, Pow2;
    var d := DISTANCES;
    Pow2Small();
    KraftStart(d, 15);
    KraftOfUnused(d, 15, 0, 3);
    KraftConstant(d, 15, 1, 3, 5);
  }

  lemma LitLenComplete()
    ensures CompleteLengths(LitLen(), 15) && LitLen()[256] == 2
  {
    hide KraftTo, Pow2;
    var ll := LitLen();
    Pow2Small();
    KraftStart(ll, 15);
    KraftOfUnused(ll, 15, 0, 97);
    KraftConstant(ll, 15, 3, 97, 101);
    KraftOfUnused(ll, 15, 101, 256);
    KraftConstant(ll, 15, 2, 256, 257);
    KraftOfUnused(ll, 15, 257, 269);
    KraftConstant(ll, 15, 2, 269, 270);
  }

  // ---- The runs ----

  /** The runs from k on turn these lengths into all lengths. */
  ghost predicate Makes(lengths: seq<nat>, runs: seq<Run>, k: nat, all: seq<nat>) {
    k <= |runs| && ValidRuns(runs[k..], |lengths|) && ExpandRuns(lengths, runs[k..]) == all
  }

  lemma RunAt(lengths: seq<nat>, runs: seq<Run>, k: nat, next: seq<nat>, all: seq<nat>)
    requires k < |runs| && ValidRun(runs[k], |lengths|) && next == ApplyRun(lengths, runs[k]) && Makes(next, runs, k + 1, all)
    ensures Makes(lengths, runs, k, all)
  {
    hide ApplyRun;
    assert runs[k..][0] == runs[k] && runs[k..][1..] == runs[k + 1..];
  }

  lemma NoRuns(runs: seq<Run>, all: seq<nat>)
    ensures Makes(all, runs, |runs|, all)
  {
  }

  /** The runs are of these kinds. */
  lemma RunAre()
    ensures
      var r := LENGTH_RUNS;
      && |r| == 12 && r[0] == LongZeros(97) && r[1] == Single(3) && r[2] == CopyPrevious(3) && r[3] == LongZeros(138)
      && r[4] == ShortZeros(10) && r[5] == ShortZeros(7) && r[6] == Single(2) && r[7] == LongZeros(12) && r[8] == Single(2)
      && r[9] == ShortZeros(3) && r[10] == Single(1) && r[11] == Single(1)
  {
  }

  lemma LastRuns(s: seq<nat>)
    ensures Makes(s, LENGTH_RUNS, 6, s + [2] + Copies(0, 12) + [2] + Copies(0, 3) + [1] + [1])
  {
    hide Makes, Copies, LENGTH_RUNS;
    RunAre();
    var r, t := LENGTH_RUNS, s + [2] + Copies(0, 12) + [2] + Copies(0, 3);
    var all := t + [1] + [1];
    NoRuns(r, all);
    RunAt(t + [1], r, 11, all, all);
    RunAt(t, r, 10, t + [1], all);
    RunAt(s + [2] + Copies(0, 12) + [2], r, 9, t, all);
    RunAt(s + [2] + Copies(0, 12), r, 8, s + [2] + Copies(0, 12) + [2], all);
    RunAt(s + [2], r, 7, s + [2] + Copies(0, 12), all);
    RunAt(s, r, 6, s + [2], all);
  }

  lemma FirstRuns(all: seq<nat>)
    requires Makes(Front(), LENGTH_RUNS, 6, all)
    ensures Makes([], LENGTH_RUNS, 0, all)
  {
    hide Makes, Copies, LENGTH_RUNS;
    RunAre();
    var r := LENGTH_RUNS;
    var s1: seq<nat> := Copies(0, 97);
    var s3 := s1 + [3] + Copies(3, 3);
    var s4 := s3 + Copies(0, 138);
    RunAt(s4 + Copies(0, 10), r, 5, s4 + Copies(0, 10) + Copies(0, 7), all);
    RunAt(s4, r, 4, s4 + Copies(0, 10), all);
    RunAt(s3, r, 3, s4, all);
    RunAt(s1 + [3], r, 2, s3, all);
    RunAt(s1, r, 1, s1 + [3], all);
    assert [] + s1 == s1;
    RunAt([], r, 0, s1, all);
  }

  lemma RunsExpand()
    ensures ValidRuns(LENGTH_RUNS, 0) && ExpandRuns([], LENGTH_RUNS) == LitLen() + DISTANCES
  {
    hide LENGTH_RUNS, ExpandRuns, ValidRuns, Makes, Front;
    LastRuns(Front());
    AllLengths();
    FirstRuns(LitLen() + DISTANCES);
    MakesAll(LENGTH_RUNS, LitLen() + DISTANCES);
  }

  lemma MakesAll(runs: seq<Run>, all: seq<nat>)
    requires Makes([], runs, 0, all)
    ensures ValidRuns(runs, 0) && ExpandRuns([], runs) == all
  {
    hide ValidRuns, ExpandRuns;
    assert runs[0..] == runs;
  }

  lemma AllLengths()
    ensures Front() + [2] + Copies(0, 12) + [2] + Copies(0, 3) + [1] + [1] == LitLen() + DISTANCES
  {
    hide Front;
    var ll := LitLen();
    assert Copies<nat>(0, 3) + [1] + [1] == DISTANCES;
    Regrouped(ll, Copies(0, 3), [1], [1]);
  }

  lemma Regrouped(a: seq<nat>, b: seq<nat>, c: seq<nat>, e: seq<nat>)
    ensures a + b + c + e == a + (b + c + e)
  {
  }

  // ---- The bits as numbers ----

  /** Fields in front of other bits. */
  lemma Prepend(s: BitString, v: nat, k: nat, p: nat, t: BitString, hi: nat, m: nat, all: nat)
    requires s == LowBits(v, k) && t == LowBits(hi, m) && p == Pow2(k) && v < p && all == v + hi * p
    ensures s + t == LowBits(all, k + m)
  {
    hide LowBits;
    Cut(all, k + m, k, p, v, hi);
  }

  /** The code length code lengths are the octal digits of a number, in the order 16, 17, 18, 0, 8, 7, 9, ... */
  function Octal(cl: seq<nat>, n: nat): nat
    requires |cl| == 19 && n <= 19
  {
    if n == 0 then 0 else Octal(cl, n - 1) + cl[CLCL_ORDER[n - 1]] * Pow2(3 * (n - 1))
  }

  lemma {:induction false} ClclIsOctal(cl: seq<nat>, n: nat)
    requires |cl| == 19 && n <= 19 && LengthsWithin(cl, 7)
    ensures Octal(cl, n) < Pow2(3 * n) && ClclBits(cl, n) == LowBits(Octal(cl, n), 3 * n)
  {
    hide LowBits, Pow2, CLCL_ORDER;
    if n == 0 {
      NoNumber();
    } else {
      OrderSize();
      ClclIsOctal(cl, n - 1);
      ClclOrderInverse(n - 1);
      var digit, p := cl[CLCL_ORDER[n - 1]], Pow2(3 * (n - 1));
      Cut(Octal(cl, n), 3 * n, 3 * (n - 1), p, Octal(cl, n - 1), digit);
      EightTimes(n - 1);
      MulMonotone(digit, 7, p);
    }
  }

  lemma OrderSize()
    ensures |CLCL_ORDER| == 19
  {
  }

  lemma NoNumber()
    ensures LowBits(0, 0) == [] && Pow2(0) == 1
  {
  }

  lemma EightTimes(n: nat)
    ensures Pow2(3 * (n + 1)) == 8 * Pow2(3 * n)
  {
    Pow2Add(3 * n, 3);
    assert Pow2(3) == 8;
  }

  lemma {:induction false} NoDigits(cl: seq<nat>, m: nat, n: nat)
    requires |cl| == 19 && m <= n <= 19 && |CLCL_ORDER| == 19 && forall i :: m <= i < n ==> CLCL_ORDER[i] < 19 && cl[CLCL_ORDER[i]] == 0
    ensures Octal(cl, n) == Octal(cl, m)
    decreases n
  {
    hide Pow2, CLCL_ORDER;
    if m < n { NoDigits(cl, m, n - 1); }
  }

  lemma Digit(cl: seq<nat>, n: nat, digit: nat, p: nat)
    requires |cl| == 19 && n < 19 && CLCL_ORDER[n] < 19 && cl[CLCL_ORDER[n]] == digit && p == Pow2(3 * n)
    ensures Octal(cl, n + 1) == Octal(cl, n) + digit * p
  {
    hide Pow2, CLCL_ORDER;
  }

  lemma LengthDigits()
    ensures Octal(CODE_LENGTHS, 18) == 0x18618000000093
  {
    hide Pow2, Octal;
    var cl := CODE_LENGTHS;
    OctalPowers();
    assert Octal(cl, 0) == 0 by { NoOctal(cl); }
    Digit(cl, 0, 3, 1);
    Digit(cl, 1, 2, 8);
    Digit(cl, 2, 2, 64);
    NoDigits(cl, 3, 13);
    Digit(cl, 13, 3, 0x80_0000_0000);
    NoDigits(cl, 14, 15);
    Digit(cl, 15, 3, 0x2000_0000_0000);
    NoDigits(cl, 16, 17);
    Digit(cl, 17, 3, 0x8_0000_0000_0000);
  }

  lemma NoOctal(cl: seq<nat>)
    requires |cl| == 19
    ensures Octal(cl, 0) == 0
  {
  }

  lemma OctalPowers()
    ensures Pow2(0) == 1 && Pow2(3) == 8 && Pow2(6) == 64
    ensures Pow2(39) == 0x80_0000_0000 && Pow2(45) == 0x2000_0000_0000 && Pow2(51) == 0x8_0000_0000_0000
  {
    hide Pow2;
    Pow2Small();
    OneValue();
    Pow2Add(15, 15);
    Pow2Add(30, 9);
    Pow2Add(30, 15);
    Pow2Add(45, 6);
  }

  /** The code of a symbol and its extra bits are one field. */
  lemma CodedField(code: BitString, c: nat, k: nat, v: nat, p: nat, extra: nat, e: nat, all: nat)
    requires code == CodeBits(c, k) && Reversed(c, k) == v && p == Pow2(k) && all == v + extra * p
    ensures code + LowBits(extra, e) == LowBits(all, k + e)
  {
    hide LowBits, CodeBits, Reversed;
    CodeIsReversed(c, k);
    Cut(all, k + e, k, p, v, extra);
  }

  lemma SmallReversed()
    ensures Reversed(0, 2) == 0 && Reversed(1, 2) == 2 && Reversed(4, 3) == 1 && Reversed(5, 3) == 5 && Reversed(6, 3) == 3 && Reversed(7, 3) == 7
    ensures Reversed(0, 1) == 0 && Reversed(1, 1) == 1
  {
    hide Pow2;
    Pow2Small();
    OneValue();
  }

  /** A run whose bits are a field. */
  ghost predicate RunIs(code: CodeTable, r: Run, v: nat, k: nat) {
    |code| == 19 && ValidRun(r, 1) && RunBits(code, r) == LowBits(v, k) && v < Pow2(k)
  }

  lemma RunField(code: CodeTable, r: Run, c: nat, n: nat, v: nat, p: nat, extra: nat, e: nat, all: nat, q: nat)
    requires |code| == 19 && ValidRun(r, 1) && code[RunSymbol(r)] == CodeBits(c, n) && Reversed(c, n) == v && p == Pow2(n)
    requires extra == (if r.Single? then 0 else RunSize(r) - RepeatBase(RunSymbol(r))) && e == ExtraBits(RunSymbol(r))
    requires all == v + extra * p && q == Pow2(n + e) && all < q
    ensures RunIs(code, r, all, n + e)
  {
    hide LowBits, CodeBits, Reversed, Pow2;
    CodedField(code[RunSymbol(r)], c, n, v, p, extra, e, all);
  }

  /** The runs from k on with what follows them are the n low bits of a number. */
  ghost predicate RunsAre(code: CodeTable, runs: seq<Run>, k: nat, rest: BitString, v: nat, n: nat) {
    |code| == 19 && k <= |runs| && Writable(runs[k..]) && RunsBits(code, runs[k..]) + rest == LowBits(v, n)
  }

  lemma NextRun(code: CodeTable, runs: seq<Run>, k: nat, rest: BitString, v: nat, n: nat, p: nat, hi: nat, m: nat, all: nat)
    requires k < |runs| && RunsAre(code, runs, k + 1, rest, hi, m) && RunIs(code, runs[k], v, n) && p == Pow2(n) && all == v + hi * p
    ensures RunsAre(code, runs, k, rest, all, n + m)
  {
    hide RunBits, LowBits, Pow2;
    var now, later := runs[k..], runs[k + 1..];
    assert now[0] == runs[k] && now[1..] == later;
    forall r | r in now ensures ValidRun(r, 1) { assert r == now[0] || r in now[1..]; }
    Prepend(RunBits(code, runs[k]), v, n, p, RunsBits(code, later) + rest, hi, m, all);
    assert RunsBits(code, now) + rest == RunBits(code, runs[k]) + (RunsBits(code, later) + rest);
  }

  lemma RunFields(code: CodeTable)
    requires code == Codes(CODE_LENGTHS)
    ensures RunIs(code, LongZeros(97), 346, 9) && RunIs(code, Single(3), 3, 3) && RunIs(code, CopyPrevious(3), 7, 5)
    ensures RunIs(code, LongZeros(138), 510, 9) && RunIs(code, ShortZeros(10), 28, 5) && RunIs(code, ShortZeros(7), 16, 5)
    ensures RunIs(code, Single(2), 5, 3) && RunIs(code, LongZeros(12), 6, 9) && RunIs(code, ShortZeros(3), 0, 5) && RunIs(code, Single(1), 1, 3)
  {
    hide RunIs, Codes, CodeBits, Reversed, Pow2;
    LengthCodes();
    SmallReversed();
    Pow2Small();
    OneValue();
    RunField(code, LongZeros(97), 1, 2, 2, 4, 86, 7, 346, 512);
    RunField(code, Single(3), 6, 3, 3, 8, 0, 0, 3, 8);
    RunField(code, CopyPrevious(3), 7, 3, 7, 8, 0, 2, 7, 32);
    RunField(code, LongZeros(138), 1, 2, 2, 4, 127, 7, 510, 512);
    RunField(code, ShortZeros(10), 0, 2, 0, 4, 7, 3, 28, 32);
    RunField(code, ShortZeros(7), 0, 2, 0, 4, 4, 3, 16, 32);
    RunField(code, Single(2), 5, 3, 5, 8, 0, 0, 5, 8);
    RunField(code, LongZeros(12), 1, 2, 2, 4, 1, 7, 6, 512);
    RunField(code, ShortZeros(3), 0, 2, 0, 4, 0, 3, 0, 32);
    RunField(code, Single(1), 4, 3, 1, 8, 0, 0, 1, 8);
  }

  /** All runs in front of 27 bits. */
  lemma RunsNumber(code: CodeTable, rest: BitString)
    requires code == Codes(CODE_LENGTHS) && rest == LowBits(0xb1ee9, 27)
    ensures RunsAre(code, LENGTH_RUNS, 0, rest, 0x2c7ba4905035873fc775a, 89)
  {
    hide RunIs, RunsAre, Codes, LowBits, Pow2, LENGTH_RUNS;
    var r := LENGTH_RUNS;
    RunAre();
    RunFields(code);
    Pow2Small();
    NoMoreRuns(code, r, rest, 0xb1ee9, 27);
    NextRun(code, r, 11, rest, 1, 3, 8, 0xb1ee9, 27, 0x58f749);
    NextRun(code, r, 10, rest, 1, 3, 8, 0x58f749, 30, 0x2c7ba49);
    NextRun(code, r, 9, rest, 0, 5, 32, 0x2c7ba49, 33, 0x58f74920);
    NextRun(code, r, 8, rest, 5, 3, 8, 0x58f74920, 38, 0x2c7ba4905);
    NextRun(code, r, 7, rest, 6, 9, 512, 0x2c7ba4905, 41, 0x58f74920a06);
    NextRun(code, r, 6, rest, 5, 3, 8, 0x58f74920a06, 50, 0x2c7ba4905035);
    NextRun(code, r, 5, rest, 16, 5, 32, 0x2c7ba4905035, 53, 0x58f74920a06b0);
    NextRun(code, r, 4, rest, 28, 5, 32, 0x58f74920a06b0, 58, 0xb1ee924140d61c);
    NextRun(code, r, 3, rest, 510, 9, 512, 0xb1ee924140d61c, 63, 0x163dd248281ac39fe);
    NextRun(code, r, 2, rest, 7, 5, 32, 0x163dd248281ac39fe, 72, 0x2c7ba4905035873fc7);
    NextRun(code, r, 1, rest, 3, 3, 8, 0x2c7ba4905035873fc7, 77, 0x163dd248281ac39fe3b);
    NextRun(code, r, 0, rest, 346, 9, 512, 0x163dd248281ac39fe3b, 80, 0x2c7ba4905035873fc775a);
  }

  lemma NoMoreRuns(code: CodeTable, runs: seq<Run>, rest: BitString, v: nat, n: nat)
    requires |code| == 19 && rest == LowBits(v, n)
    ensures RunsAre(code, runs, |runs|, rest, v, n)
  {
    hide LowBits;
    assert runs[|runs|..] == [] && [] + rest == rest;
  }

  // ---- The tokens ----

  /** The tokens from k on with what follows them are the n low bits of a number. */
  ghost predicate TokensAre(ll: CodeTable, d: CodeTable, tokens: seq<Token>, k: nat, rest: BitString, v: nat, n: nat) {
    && |ll| >= 286 && |d| >= 30 && k <= |tokens| && Encodable(tokens[k..])
    && TokensBits(ll, d, tokens[k..]) + rest == LowBits(v, n)
  }

  lemma NextToken(ll: CodeTable, d: CodeTable, tokens: seq<Token>, k: nat, rest: BitString, v: nat, n: nat, p: nat, hi: nat, m: nat, all: nat)
    requires k < |tokens| && TokensAre(ll, d, tokens, k + 1, rest, hi, m) && Encodable([tokens[k]])
    requires TokenBits(ll, d, tokens[k]) == LowBits(v, n) && v < p && p == Pow2(n) && all == v + hi * p
    ensures TokensAre(ll, d, tokens, k, rest, all, n + m)
  {
    hide TokenBits, TokensBits, LowBits, Pow2, Encodable;
    var now, later := tokens[k..], tokens[k + 1..];
    assert now == [tokens[k]] + later;
    TokenFirst(ll, d, now, tokens[k], later);
    Prepend(TokenBits(ll, d, tokens[k]), v, n, p, TokensBits(ll, d, later) + rest, hi, m, all);
    assert TokensBits(ll, d, now) + rest == TokenBits(ll, d, tokens[k]) + (TokensBits(ll, d, later) + rest);
  }

  lemma NoMoreTokens(ll: CodeTable, d: CodeTable, tokens: seq<Token>, rest: BitString, v: nat, n: nat)
    requires |ll| >= 286 && |d| >= 30 && rest == LowBits(v, n)
    ensures TokensAre(ll, d, tokens, |tokens|, rest, v, n)
  {
    hide LowBits;
    assert tokens[|tokens|..] == [] && [] + rest == rest;
  }

  lemma LiteralField(ll: CodeTable, d: CodeTable, b: Byte, c: nat, n: nat, v: nat)
    requires |ll| >= 286 && |d| >= 30 && ll[b] == CodeBits(c, n) && Reversed(c, n) == v
    ensures Encodable([Literal(b)]) && TokenBits(ll, d, Literal(b)) == LowBits(v, n)
  {
    hide LowBits, CodeBits, Reversed;
    CodeIsReversed(c, n);
  }

  /** Length symbol 269 with extra bits 01, distance symbol 4 with extra bit 0. */
  lemma MatchField(ll: CodeTable, d: CodeTable)
    requires |ll| >= 286 && |d| >= 30 && ll[269] == CodeBits(1, 2) && d[4] == CodeBits(1, 1)
    ensures Encodable([Match(20, 5)]) && TokenBits(ll, d, Match(20, 5)) == LowBits(22, 6)
  {
    hide LowBits, CodeBits, Reversed, Pow2, CodeIndex, TokenBits;
    Pow2Small();
    SmallReversed();
    SymbolsOf(20, 5, 12, 4);
    MatchIs(ll, d, 20, 5, 12, 4);
    CodedField(ll[269], 1, 2, 2, 4, 1, 2, 6);
    CodedField(d[4], 1, 1, 1, 2, 0, 1, 1);
    Cut(22, 6, 4, 16, 6, 1);
  }

  lemma TokensNumber(ll: CodeTable, d: CodeTable, rest: BitString)
    requires ll == Codes(PadTo(LitLen(), 288)) && d == Codes(PadTo(DISTANCES, 32)) && rest == LowBits(0, 6)
    ensures TokensAre(ll, d, TOKENS, 0, rest, 0xb1ee9, 27)
  {
    hide TokensAre, Codes, LowBits, CodeBits, Reversed, Pow2, LitLen, PadTo, TokenBits;
    LitLenCodes();
    DistanceCodes();
    SmallReversed();
    Pow2Small();
    MatchField(ll, d);
    LiteralField(ll, d, 97, 4, 3, 1);
    LiteralField(ll, d, 98, 5, 3, 5);
    LiteralField(ll, d, 99, 6, 3, 3);
    LiteralField(ll, d, 100, 7, 3, 7);
    NoMoreTokens(ll, d, TOKENS, rest, 0, 6);
    NextToken(ll, d, TOKENS, 5, rest, 22, 6, 64, 0, 6, 0x16);
    NextToken(ll, d, TOKENS, 4, rest, 1, 3, 8, 0x16, 12, 0xb1);
    NextToken(ll, d, TOKENS, 3, rest, 7, 3, 8, 0xb1, 15, 0x58f);
    NextToken(ll, d, TOKENS, 2, rest, 3, 3, 8, 0x58f, 18, 0x2c7b);
    NextToken(ll, d, TOKENS, 1, rest, 5, 3, 8, 0x2c7b, 21, 0x163dd);
    NextToken(ll, d, TOKENS, 0, rest, 1, 3, 8, 0x163dd, 24, 0xb1ee9);
  }

  const FIVE: seq<Byte> := [97, 98, 99, 100, 97]

  lemma TokensExpand()
    ensures Encodable(TOKENS) && ValidTokens(TOKENS, 0) && Expand([], TOKENS) == CopyBack(FIVE, 20, 5)
  {
    hide CopyBack;
    var t := TOKENS;
    assert t[1..][1..] == t[2..] && t[2..][1..] == t[3..] && t[3..][1..] == t[4..] && t[4..][1..] == t[5..] && t[5..][1..] == [];
    var copied := CopyBack(FIVE, 20, 5);
    assert ValidTokens(t[5..], 5) && Expand(FIVE, t[5..]) == copied;
    assert [97, 98, 99, 100] + [97] == FIVE;
    assert ValidTokens(t[4..], 4) && Expand([97, 98, 99, 100], t[4..]) == copied;
    assert [97, 98, 99] + [100] == [97, 98, 99, 100];
    assert ValidTokens(t[3..], 3) && Expand([97, 98, 99], t[3..]) == copied;
    assert [97, 98] + [99] == [97, 98, 99];
    assert ValidTokens(t[2..], 2) && Expand([97, 98], t[2..]) == copied;
    assert [97] + [98] == [97, 98];
    assert ValidTokens(t[1..], 1) && Expand([97], t[1..]) == copied;
    assert [] + [97] == [97];
  }

  lemma CopiesOfFive()
    ensures CopyBack(FIVE, 20, 5) == FIVE + FIVE + FIVE + FIVE + FIVE
  {
    hide CopyBack;
    var all := FIVE + FIVE + FIVE + FIVE + FIVE;
    CopyOfData(all, 5, 20, 5);
    assert all[..5] == FIVE && all[..25] == all;
  }

  // ---- The stream ----

  lemma DynamicBytes()
    ensures StreamBits(DYNAMIC_STREAM) == LowBits(0x163dd248281ac39fe3bad30c30000000127c46d, 160)
  {
    hide LowBits, StreamBits, BytesAre;
    var data := DYNAMIC_STREAM;
    NoMoreBytes(data);
    NextByte(data, 19, 0, 0, 0x1);
    NextByte(data, 18, 0x1, 8, 0x163);
    NextByte(data, 17, 0x163, 16, 0x163dd);
    NextByte(data, 16, 0x163dd, 24, 0x163dd24);
    NextByte(data, 15, 0x163dd24, 32, 0x163dd2482);
    NextByte(data, 14, 0x163dd2482, 40, 0x163dd248281);
    NextByte(data, 13, 0x163dd248281, 48, 0x163dd248281ac);
    NextByte(data, 12, 0x163dd248281ac, 56, 0x163dd248281ac39);
    NextByte(data, 11, 0x163dd248281ac39, 64, 0x163dd248281ac39fe);
    NextByte(data, 10, 0x163dd248281ac39fe, 72, 0x163dd248281ac39fe3b);
    NextByte(data, 9, 0x163dd248281ac39fe3b, 80, 0x163dd248281ac39fe3bad);
    NextByte(data, 8, 0x163dd248281ac39fe3bad, 88, 0x163dd248281ac39fe3bad30);
    NextByte(data, 7, 0x163dd248281ac39fe3bad30, 96, 0x163dd248281ac39fe3bad30c3);
    NextByte(data, 6, 0x163dd248281ac39fe3bad30c3, 104, 0x163dd248281ac39fe3bad30c300);
    NextByte(data, 5, 0x163dd248281ac39fe3bad30c300, 112, 0x163dd248281ac39fe3bad30c30000);
    NextByte(data, 4, 0x163dd248281ac39fe3bad30c30000, 120, 0x163dd248281ac39fe3bad30c3000000);
    NextByte(data, 3, 0x163dd248281ac39fe3bad30c3000000, 128, 0x163dd248281ac39fe3bad30c300000001);
    NextByte(data, 2, 0x163dd248281ac39fe3bad30c300000001, 136, 0x163dd248281ac39fe3bad30c30000000127);
    NextByte(data, 1, 0x163dd248281ac39fe3bad30c30000000127, 144, 0x163dd248281ac39fe3bad30c30000000127c4);
    NextByte(data, 0, 0x163dd248281ac39fe3bad30c30000000127c4, 152, 0x163dd248281ac39fe3bad30c30000000127c46d);
    AllBytes(data, 0x163dd248281ac39fe3bad30c30000000127c46d, 160);
  }

  lemma HeaderIsWritable()
    ensures WritableHeader(StreamHeader())
  {
    hide CompleteLengths, Codes, ExpandRuns, ValidRuns, RunsHaveCodes, LitLen;
    LengthCodeComplete();
    RunsExpand();
    RunsAreCoded();
  }

  lemma RunsAreCoded()
    ensures RunsHaveCodes(Codes(CODE_LENGTHS), LENGTH_RUNS) && Writable(LENGTH_RUNS)
  {
    hide Codes;
    forall r | r in LENGTH_RUNS ensures Present(Codes(CODE_LENGTHS), RunSymbol(r)) && ValidRun(r, 1) {
      assert |Codes(CODE_LENGTHS)[RunSymbol(r)]| == CODE_LENGTHS[RunSymbol(r)];
    }
  }

  lemma HeaderIsValid()
    ensures ValidHeader(StreamHeader())
    ensures HeaderLitLen(StreamHeader()) == Codes(PadTo(LitLen(), 288)) && HeaderDistance(StreamHeader()) == Codes(PadTo(DISTANCES, 32))
  {
    hide CompleteLengths, Codes, PadTo, LitLen, WritableHeader;
    HeaderIsWritable();
    DistancesComplete();
    LitLenComplete();
  }

  /** The header in front of the tokens. */
  lemma HeaderNumber(rest: BitString)
    requires rest == LowBits(0xb1ee9, 27)
    ensures WritableHeader(StreamHeader()) && HeaderBits(StreamHeader()) + rest == LowBits(0x2c7ba4905035873fc775a6186000000024f88d, 157)
  {
    hide WritableHeader, Codes, LowBits, Pow2, RunsBits, ClclBits, LENGTH_RUNS, CODE_LENGTHS, LengthsWithin, Octal;
    HeaderIsWritable();
    var h, code := StreamHeader(), Codes(CODE_LENGTHS);
    CountsOf();
    RunsNumber(code, rest);
    var runs := RunsBits(code, LENGTH_RUNS);
    assert LENGTH_RUNS[0..] == LENGTH_RUNS;
    ClclIsOctal(CODE_LENGTHS, 18);
    LengthDigits();
    Pow2Small();
    BigPower();
    var cl := ClclBits(CODE_LENGTHS, 18);
    Prepend(cl, 0x18618000000093, 54, 0x40_0000_0000_0000, runs + rest, 0x2c7ba4905035873fc775a, 89, 0xb1ee924140d61cff1dd698618000000093);
    var n := 0xb1ee924140d61cff1dd698618000000093;
    Prepend(LowBits(14, 4), 14, 4, 16, cl + (runs + rest), n, 143, 0xb1ee924140d61cff1dd698618000000093e);
    var t := LowBits(14, 4) + (cl + (runs + rest));
    Prepend(LowBits(4, 5), 4, 5, 32, t, 0xb1ee924140d61cff1dd698618000000093e, 147, 0x163dd248281ac39fe3bad30c30000000127c4);
    Prepend(LowBits(13, 5), 13, 5, 32, LowBits(4, 5) + t, 0x163dd248281ac39fe3bad30c30000000127c4, 152, 0x2c7ba4905035873fc775a6186000000024f88d);
    HeaderIs(h, code);
    RightNested(LowBits(13, 5), LowBits(4, 5), LowBits(14, 4), cl, runs, rest);
  }

  lemma CountsOf()
    ensures |CODE_LENGTHS| == 19 && LengthsWithin(CODE_LENGTHS, 7)
  {
  }

  lemma BigPower()
    ensures Pow2(54) == 0x40_0000_0000_0000
  {
    hide Pow2;
    OctalPowers();
    Pow2Add(51, 3);
  }

  lemma HeaderIs(h: Header, code: CodeTable)
    requires h == StreamHeader() && WritableHeader(h) && code == Codes(CODE_LENGTHS)
    ensures |CODE_LENGTHS| == 19 && |code| == 19 && Writable(LENGTH_RUNS)
    ensures HeaderBits(h) == LowBits(13, 5) + LowBits(4, 5) + LowBits(14, 4) + ClclBits(CODE_LENGTHS, 18) + RunsBits(code, LENGTH_RUNS)
  {
    hide Codes, LowBits, ClclBits, RunsBits, LitLen, RunsHaveCodes, CompleteLengths;
  }

  lemma RightNested(a: BitString, b: BitString, c: BitString, e: BitString, f: BitString, rest: BitString)
    ensures a + b + c + e + f + rest == a + (b + (c + (e + (f + rest))))
  {
  }

  lemma DynamicBlockBits()
    ensures
      ValidBlock(Dynamic(StreamHeader(), TOKENS), 0) &&
      StreamBits(DYNAMIC_STREAM) == BlockBits(Dynamic(StreamHeader(), TOKENS), true, 0) + LowBits(0, 4)
  {
    hide StreamHeader, ValidHeader, WritableHeader, Codes, LowBits, StreamBits, TokensBits, HeaderBits, PadTo, LitLen, Expand, ValidTokens,
         TokensHaveCodes, Pow2, CompleteLengths, FirstCode, CodeBits;
    HeaderIsValid();
    TokensExpand();
    TokensCoded();
    var h, ll, d, fill := StreamHeader(), Codes(PadTo(LitLen(), 288)), Codes(PadTo(DISTANCES, 32)), LowBits(0, 4);
    EndAndFill(ll, fill);
    TokensNumber(ll, d, ll[256] + fill);
    assert TOKENS[0..] == TOKENS;
    var tail := TokensBits(ll, d, TOKENS) + (ll[256] + fill);
    HeaderNumber(tail);
    Flags();
    Prepend([true, false, true], 5, 3, 8, HeaderBits(h) + tail, 0x2c7ba4905035873fc775a6186000000024f88d, 157,
            0x163dd248281ac39fe3bad30c30000000127c46d);
    DynamicBytes();
    Nested([true, false, true], HeaderBits(h), TokensBits(ll, d, TOKENS), ll[256], fill);
  }

  lemma Flags()
    ensures LowBits(5, 3) == [true, false, true] && Pow2(3) == 8
  {
  }

  lemma EndAndFill(ll: CodeTable, fill: BitString)
    requires ll == Codes(PadTo(LitLen(), 288)) && fill == LowBits(0, 4)
    ensures ll[256] + fill == LowBits(0, 6)
  {
    hide Codes, LowBits, PadTo, LitLen, Pow2, CodeBits, Reversed;
    LitLenCodes();
    SmallReversed();
    Pow2Small();
    CodedField(ll[256], 0, 2, 0, 4, 0, 4, 0);
  }

  lemma Nested(a: BitString, b: BitString, c: BitString, e: BitString, f: BitString)
    ensures a + (b + (c + e)) + f == a + (b + (c + (e + f)))
  {
  }

  lemma MatchCoded(ll: CodeTable, d: CodeTable, length: nat, distance: nat, l: nat, m: nat)
    requires 3 <= length <= 258 && 1 <= distance <= 32768 && l == CodeIndex(LENGTHBASE, length) && m == CodeIndex(DISTANCEBASE, distance)
    requires Present(ll, 257 + l) && Present(d, m)
    ensures Encodable([Match(length, distance)]) && TokenHasCodes(ll, d, Match(length, distance))
  {
    hide CodeIndex, LENGTHBASE, DISTANCEBASE;
  }

  lemma LiteralCoded(ll: CodeTable, d: CodeTable, b: Byte)
    requires Present(ll, b)
    ensures Encodable([Literal(b)]) && TokenHasCodes(ll, d, Literal(b))
  {
  }

  lemma HasCode(lengths: seq<nat>, s: nat)
    requires s < |lengths| && lengths[s] > 0
    ensures Present(Codes(lengths), s)
  {
    hide Codes;
    assert |Codes(lengths)[s]| == lengths[s];
  }

  lemma TokensCoded()
    ensures Encodable(TOKENS) && TokensHaveCodes(Codes(PadTo(LitLen(), 288)), Codes(PadTo(DISTANCES, 32)), TOKENS)
  {
    hide Codes, CodeIndex, LitLen, PadTo, TokenHasCodes;
    var ll, d := PadTo(LitLen(), 288), PadTo(DISTANCES, 32);
    SymbolsOf(20, 5, 12, 4);
    forall s: nat | s in {97, 98, 99, 100, 269} ensures Present(Codes(ll), s) {
      LitLenAt(s);
      HasCode(ll, s);
    }
    DistanceCodes();
    HasCode(d, 4);
    MatchCoded(Codes(ll), Codes(d), 20, 5, 12, 4);
    forall b: Byte | 97 <= b <= 100 ensures TokenHasCodes(Codes(ll), Codes(d), Literal(b)) { LiteralCoded(Codes(ll), Codes(d), b); }
  }

  lemma DynamicDecodes()
    ensures ReadBlocks(StreamBits(DYNAMIC_STREAM), []) == Ok(FIVE + FIVE + FIVE + FIVE + FIVE)
  {
    hide BlockBits, StreamBits, LowBits, ReadBlocks, Expand, ValidTokens, Encodable, StreamHeader, TokensHaveCodes, ValidHeader, CopyBack;
    DynamicBlockBits();
    TokensExpand();
    CopiesOfFive();
    OneBlockDecodes(Dynamic(StreamHeader(), TOKENS), StreamBits(DYNAMIC_STREAM), LowBits(0, 4));
  }

  /** "abcda", five times over. */
  method InflateDynamic() returns (error: nat, out: seq<Byte>)
    ensures error == 0 && out == [97, 98, 99, 100, 97, 97, 98, 99, 100, 97, 97, 98, 99, 100, 97, 97, 98, 99, 100, 97, 97, 98, 99, 100, 97]
  {
    hide ReadBlocks, StreamBits;
    DynamicDecodes();
    var decoder := new Inflator(DYNAMIC_STREAM);
    error := decoder.InflateStream();
    out := decoder.out;
  }
}
