/** The run-length code for code lengths of RFC 1951 section 3.2.7 (lodepng.c:1805-1848, 1031-1088). */
module CodeLengths {
  import opened Bits
  import opened PrefixCode
  import opened CodeTrees

  /** One symbol of the code length alphabet with its repeat count. */
  datatype Run =
    | Single(length: nat)
    | CopyPrevious(count: nat)
    | ShortZeros(count: nat)
    | LongZeros(count: nat)

  predicate ValidRun(r: Run, n: nat) {
    match r
    case Single(l) => l <= 15
    case CopyPrevious(c) => n > 0 && 3 <= c <= 6
    case ShortZeros(c) => 3 <= c <= 10
    case LongZeros(c) => 11 <= c <= 138
  }

  function RunSize(r: Run): nat {
    match r
    case Single(_) => 1
    case CopyPrevious(c) => c
    case ShortZeros(c) => c
    case LongZeros(c) => c
  }

  function ApplyRun(lengths: seq<nat>, r: Run): (s: seq<nat>)
    requires ValidRun(r, |lengths|)
    ensures |s| == |lengths| + RunSize(r)
  {
    match r
    case Single(l) => lengths + [l]
    case CopyPrevious(c) => lengths + Copies(lengths[|lengths| - 1], c)
    case ShortZeros(c) => lengths + Copies(0, c)
    case LongZeros(c) => lengths + Copies(0, c)
  }

  predicate ValidRuns(runs: seq<Run>, n: nat) {
    runs == [] || (ValidRun(runs[0], n) && ValidRuns(runs[1..], n + RunSize(runs[0])))
  }

  function ExpandRuns(lengths: seq<nat>, runs: seq<Run>): seq<nat>
    requires ValidRuns(runs, |lengths|)
    decreases |runs|
  {
    if runs == [] then lengths else ExpandRuns(ApplyRun(lengths, runs[0]), runs[1..])
  }

  lemma {:induction false} ExpandRunsAppend(lengths: seq<nat>, runs: seq<Run>, r: Run)
    requires ValidRuns(runs, |lengths|) && ValidRun(r, |ExpandRuns(lengths, runs)|)
    ensures ValidRuns(runs + [r], |lengths|)
    ensures ExpandRuns(lengths, runs + [r]) == ApplyRun(ExpandRuns(lengths, runs), r)
    decreases |runs|
  {
    if runs == [] {
      assert ([r])[1..] == [];
    } else {
      ExpandRunsAppend(ApplyRun(lengths, runs[0]), runs[1..], r);
      assert (runs + [r])[1..] == runs[1..] + [r];
    }
  }

  // ---- Symbols ----

  function RunSymbol(r: Run): nat {
    match r
    case Single(l) => l
    case CopyPrevious(_) => 16
    case ShortZeros(_) => 17
    case LongZeros(_) => 18
  }

  function ExtraBits(symbol: nat): nat {
    if symbol == 16 then 2 else if symbol == 17 then 3 else if symbol == 18 then 7 else 0
  }

  function RepeatBase(symbol: nat): nat { if symbol == 18 then 11 else 3 }

  /** The vector the source builds: the symbol, and after 16, 17 and 18 the extra value. */
  function RunValues(r: Run): seq<nat>
    requires r.Single? || RunSize(r) >= RepeatBase(RunSymbol(r))
  {
    if r.Single? then [r.length] else [RunSymbol(r), RunSize(r) - RepeatBase(RunSymbol(r))]
  }

  predicate Writable(runs: seq<Run>) {
    forall r :: r in runs ==> ValidRun(r, 1)
  }

  function FlattenRuns(runs: seq<Run>): seq<nat>
    requires Writable(runs)
  {
    if runs == [] then []
    else
      assert runs[0] in runs;
      RunValues(runs[0]) + FlattenRuns(runs[1..])
  }

  lemma {:induction false} FlattenRunsAppend(runs: seq<Run>, r: Run)
    requires Writable(runs) && ValidRun(r, 1)
    ensures Writable(runs + [r]) && FlattenRuns(runs + [r]) == FlattenRuns(runs) + RunValues(r)
  {
    assert Writable(runs + [r]);
    if runs == [] {
      assert runs + [r] == [r] && [r][1..] == [];
    } else {
      assert (runs + [r])[1..] == runs[1..] + [r];
      FlattenRunsAppend(runs[1..], r);
    }
  }

  // ---- Encoding ----

  /** e is the vector of runs that stand for the first n lengths. */
  ghost predicate RunsEncode(lengths: seq<nat>, n: nat, e: seq<nat>, runs: seq<Run>) {
    && n <= |lengths| && Writable(runs) && e == FlattenRuns(runs)
    && ValidRuns(runs, 0) && ExpandRuns([], runs) == lengths[..n]
  }

  /** e consists of runs that stand for all lengths. */
  ghost predicate StandsFor(e: seq<nat>, lengths: seq<nat>) { exists runs: seq<Run> :: RunsEncode(lengths, |lengths|, e, runs) }

  /** The value a run adds after the first n lengths. */
  function RunValue(lengths: seq<nat>, n: nat, r: Run): nat
    requires ValidRun(r, n) && n <= |lengths|
  {
    match r
    case Single(l) => l
    case CopyPrevious(_) => lengths[n - 1]
    case _ => 0
  }

  lemma EncodeNothing(lengths: seq<nat>)
    ensures RunsEncode(lengths, 0, [], [])
  {
  }

  lemma AddRun(lengths: seq<nat>, n: nat, e: seq<nat>, runs: seq<Run>, r: Run)
    requires RunsEncode(lengths, n, e, runs) && ValidRun(r, n) && n + RunSize(r) <= |lengths|
    requires forall k :: n <= k < n + RunSize(r) ==> lengths[k] == RunValue(lengths, n, r)
    ensures RunsEncode(lengths, n + RunSize(r), e + RunValues(r), runs + [r])
  {
    assert ApplyRun(lengths[..n], r) == lengths[..n + RunSize(r)];
    ExpandRunsAppend([], runs, r);
    FlattenRunsAppend(runs, r);
  }

  /** Repeats the value before position n, in portions of six and a rest of at least three if there is one. */
  method EncodeCopies(lengths: seq<nat>, n: nat, count: nat, e: seq<nat>, ghost runs: seq<Run>)
    returns (done: nat, e': seq<nat>, ghost runs': seq<Run>)
    requires 0 < n && n + count <= |lengths| && RunsEncode(lengths, n, e, runs)
    requires forall k :: n <= k < n + count ==> lengths[k] == lengths[n - 1]
    ensures done == if count % 6 >= 3 then count else count - count % 6
    ensures RunsEncode(lengths, n + done, e', runs')
  {
    hide RunsEncode;
    e', runs' := e, runs;
    var num, rest := count / 6, count % 6;
    for k := 0 to num
      invariant RunsEncode(lengths, n + 6 * k, e', runs')
    {
      AddRun(lengths, n + 6 * k, e', runs', CopyPrevious(6));
      e', runs' := e' + [16, 6 - 3], runs' + [CopyPrevious(6)];
    }
    done := 6 * num;
    if rest >= 3 {
      AddRun(lengths, n + done, e', runs', CopyPrevious(rest));
      e', runs' := e' + [16, rest - 3], runs' + [CopyPrevious(rest)];
      done := done + rest;
    }
  }

  /** Run-length encoding of any sequence of code lengths. */
  method EncodeRuns(lengths: seq<nat>) returns (e: seq<nat>, ghost runs: seq<Run>)
    requires forall k :: 0 <= k < |lengths| ==> lengths[k] <= 15
    ensures RunsEncode(lengths, |lengths|, e, runs)
    ensures StandsFor(e, lengths)
  {
    hide RunsEncode;
    e, runs := [], [];
    EncodeNothing(lengths);
    var i := 0;
    while i < |lengths|
      invariant i <= |lengths| && RunsEncode(lengths, i, e, runs)
    {
      var j := 0;
      while i + j + 1 < |lengths| && lengths[i + j + 1] == lengths[i]
        invariant i + j < |lengths| && forall k :: i <= k <= i + j ==> lengths[k] == lengths[i]
        decreases |lengths| - j
      {
        j := j + 1;
      }
      if lengths[i] == 0 && j >= 2 {
        j := j + 1;
        if j <= 10 {
          AddRun(lengths, i, e, runs, ShortZeros(j));
          e, runs := e + [17, j - 3], runs + [ShortZeros(j)];
        } else {
          if j > 138 { j := 138; }
          AddRun(lengths, i, e, runs, LongZeros(j));
          e, runs := e + [18, j - 11], runs + [LongZeros(j)];
        }
        i := i + j;
      } else {
        AddRun(lengths, i, e, runs, Single(lengths[i]));
        e, runs := e + [lengths[i]], runs + [Single(lengths[i])];
        i := i + 1;
        if j >= 3 {
          var done;
          done, e, runs := EncodeCopies(lengths, i, j, e, runs);
          i := i + done;
        }
      }
    }
  }

  // ---- The bits of runs, and reading them back ----

  function RunBits(code: CodeTable, r: Run): BitString
    requires |code| == 19 && ValidRun(r, 1)
  {
    code[RunSymbol(r)] +
    LowBits(if r.Single? then 0 else RunSize(r) - RepeatBase(RunSymbol(r)), ExtraBits(RunSymbol(r)))
  }

  function RunsBits(code: CodeTable, runs: seq<Run>): BitString
    requires |code| == 19 && Writable(runs)
  {
    if runs == [] then [] else RunBits(code, runs[0]) + RunsBits(code, runs[1..])
  }

  /**
   * Reference reading of one code length symbol: the lengths so far, extended, and the bits left; or the error.
   * A repeat may not come first (54), must have its extra bits (50) and may not pass the last length (13 to 15).
   */
  ghost function ReadRun(code: CodeTable, bits: BitString, lengths: seq<nat>, total: nat): (r: Result<(seq<nat>, BitString)>)
    requires |code| == 19
    ensures r.Ok? ==> |lengths| < |r.value.0| && |r.value.1| < |bits|
    ensures r.Ok? && |lengths| < total ==> |r.value.0| <= total
  {
    match NextSymbol(code, bits)
    case None => Err(11)
    case Some((symbol, rest)) =>
      var n := ExtraBits(symbol);
      if symbol <= 15 then Ok((lengths + [symbol], rest))
      else if symbol == 16 && lengths == [] then Err(54)
      else if |rest| < n then Err(50)
      else
        var count := RepeatBase(symbol) + Value(rest[..n]);
        var value := if symbol == 16 then lengths[|lengths| - 1] else 0;
        if |lengths| + count > total then Err(symbol - 3)
        else Ok((lengths + Copies(value, count), rest[n..]))
  }

  /** Reference reading of `total` code lengths. */
  ghost function ReadLengths(code: CodeTable, bits: BitString, lengths: seq<nat>, total: nat): (r: Result<(seq<nat>, BitString)>)
    requires |code| == 19
    ensures r.Ok? && |lengths| <= total ==> |r.value.0| == total
    ensures r.Ok? ==> |r.value.1| <= |bits|
    decreases total - |lengths|
  {
    if |lengths| >= total then Ok((lengths, bits))
    else
      match ReadRun(code, bits, lengths, total)
      case Err(e) => Err(e)
      case Ok((more, rest)) => ReadLengths(code, rest, more, total)
  }

  predicate RunsHaveCodes(code: CodeTable, runs: seq<Run>) {
    forall r :: r in runs ==> Present(code, RunSymbol(r))
  }

  lemma ReadRunBack(code: CodeTable, r: Run, rest: BitString, lengths: seq<nat>, total: nat)
    requires |code| == 19 && Readable(code) && ValidRun(r, 1) && ValidRun(r, |lengths|)
    requires Present(code, RunSymbol(r)) && |lengths| + RunSize(r) <= total
    ensures ReadRun(code, RunBits(code, r) + rest, lengths, total) == Ok((ApplyRun(lengths, r), rest))
  {
    hide NextSymbol, LowBits, Value, Readable;
    var s, n := RunSymbol(r), ExtraBits(RunSymbol(r));
    var v: nat := if r.Single? then 0 else RunSize(r) - RepeatBase(s);
    var tail := LowBits(v, n) + rest;
    assert RunBits(code, r) + rest == code[s] + tail;
    NextEncoded(code, s, tail);
    if !r.Single? {
      assert Pow2(2) == 4 && Pow2(3) == 8 && Pow2(7) == 128;
      ValueOfLowBits(v, n);
      assert tail[..n] == LowBits(v, n) && tail[n..] == rest;
    } else {
      assert tail == rest;
    }
  }

  /** Reading what the runs were written as gives back exactly the lengths, whatever follows them. */
  lemma {:induction false} ReadLengthsBack(code: CodeTable, runs: seq<Run>, rest: BitString, lengths: seq<nat>, total: nat)
    requires |code| == 19 && Readable(code) && Writable(runs) && RunsHaveCodes(code, runs)
    requires ValidRuns(runs, |lengths|) && |ExpandRuns(lengths, runs)| == total
    ensures ReadLengths(code, RunsBits(code, runs) + rest, lengths, total) == Ok((ExpandRuns(lengths, runs), rest))
    decreases |runs|
  {
    hide ReadRun, RunBits, Readable;
    if runs == [] {
      assert RunsBits(code, runs) + rest == rest;
    } else {
      ExpandRunsGrows(ApplyRun(lengths, runs[0]), runs[1..]);
      var tail := RunsBits(code, runs[1..]) + rest;
      assert RunsBits(code, runs) + rest == RunBits(code, runs[0]) + tail;
      assert runs[0] in runs;
      ReadRunBack(code, runs[0], tail, lengths, total);
      ReadLengthsBack(code, runs[1..], rest, ApplyRun(lengths, runs[0]), total);
    }
  }

  lemma {:induction false} ExpandRunsGrows(lengths: seq<nat>, runs: seq<Run>)
    requires ValidRuns(runs, |lengths|)
    ensures |lengths| <= |ExpandRuns(lengths, runs)|
    decreases |runs|
  {
    if runs != [] { ExpandRunsGrows(ApplyRun(lengths, runs[0]), runs[1..]); }
  }
}
