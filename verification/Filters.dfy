/** The scanline filters of PNG filter method 0 (lodepng.c:3747-3756, 3877-3949, 5049-5103). */
module Filters {
  import opened Bits
  import opened PrefixCode
  import opened Memory

  // ---- Reference: section 9 of the PNG specification ----

  function Abs(x: int): nat { if x < 0 then -x else x }

  /** Section 9.4: of left, above and upper left the one nearest to a + b - c, ties in that order. */
  function Nearest(a: Byte, b: Byte, c: Byte): Byte {
    var p := a + b - c;
    var pa, pb, pc := Abs(p - a), Abs(p - b), Abs(p - c);
    if pa <= pb && pa <= pc then a else if pb <= pc then b else c
  }

  /** The prediction of a filter type from the bytes to the left, above, and to the left above. */
  function Predict(filterType: nat, a: Byte, b: Byte, c: Byte): Byte {
    if filterType == 0 then 0
    else if filterType == 1 then a
    else if filterType == 2 then b
    else if filterType == 3 then (a + b) / 2
    else Nearest(a, b, c)
  }

  /** The byte one pixel before index i, zero before the first pixel. */
  function Left(line: seq<Byte>, i: nat, bytewidth: nat): Byte
    requires i < |line| + bytewidth
  {
    if i < bytewidth then 0 else line[i - bytewidth]
  }

  function FilterByte(line: seq<Byte>, prev: seq<Byte>, bytewidth: nat, filterType: nat, i: nat): Byte
    requires i < |line| == |prev|
  {
    (line[i] - Predict(filterType, Left(line, i, bytewidth), prev[i], Left(prev, i, bytewidth))) % 256
  }

  /** A filtered scanline. */
  function FilterRow(line: seq<Byte>, prev: seq<Byte>, bytewidth: nat, filterType: nat): (r: seq<Byte>)
    requires |line| == |prev|
    ensures |r| == |line|
  {
    seq(|line|, i requires 0 <= i < |line| => FilterByte(line, prev, bytewidth, filterType, i))
  }

  /** The first n reconstructed bytes of a filtered scanline. */
  function UnfilterTo(scan: seq<Byte>, prev: seq<Byte>, bytewidth: nat, filterType: nat, n: nat): (r: seq<Byte>)
    requires n <= |scan| == |prev| && bytewidth > 0
    ensures |r| == n
  {
    if n == 0 then [] else
      var r := UnfilterTo(scan, prev, bytewidth, filterType, n - 1);
      r + [ReconByte(scan, prev, bytewidth, filterType, n - 1, r)]
  }

  function ReconByte(scan: seq<Byte>, prev: seq<Byte>, bytewidth: nat, filterType: nat, i: nat, done: seq<Byte>): Byte
    requires i < |scan| == |prev| && |done| == i && bytewidth > 0
  {
    (scan[i] + Predict(filterType, Left(done, i, bytewidth), prev[i], Left(prev, i, bytewidth))) % 256
  }

  function UnfilterRow(scan: seq<Byte>, prev: seq<Byte>, bytewidth: nat, filterType: nat): (r: seq<Byte>)
    requires |scan| == |prev| && bytewidth > 0
    ensures |r| == |scan|
  {
    UnfilterTo(scan, prev, bytewidth, filterType, |scan|)
  }

  lemma AddBack(x: Byte, p: Byte)
    ensures ((x - p) % 256 + p) % 256 == x
    ensures ((x + p) % 256 - p) % 256 == x
  {
  }

  lemma {:induction false} UnfilterFilterTo(line: seq<Byte>, prev: seq<Byte>, bytewidth: nat, filterType: nat, n: nat)
    requires n <= |line| == |prev| && bytewidth > 0
    ensures UnfilterTo(FilterRow(line, prev, bytewidth, filterType), prev, bytewidth, filterType, n) == line[..n]
  {
    if n > 0 {
      UnfilterFilterTo(line, prev, bytewidth, filterType, n - 1);
      var i := n - 1;
      assert FilterRow(line, prev, bytewidth, filterType)[i] == FilterByte(line, prev, bytewidth, filterType, i);
      AddBack(line[i], Predict(filterType, Left(line, i, bytewidth), prev[i], Left(prev, i, bytewidth)));
      assert line[..n] == line[..i] + [line[i]];
    }
  }

  /** Unfiltering undoes filtering of a row, for every filter type and every previous row. */
  lemma UnfilterFilterRow(line: seq<Byte>, prev: seq<Byte>, bytewidth: nat, filterType: nat)
    requires |line| == |prev| && bytewidth > 0
    ensures UnfilterRow(FilterRow(line, prev, bytewidth, filterType), prev, bytewidth, filterType) == line
  {
    UnfilterFilterTo(line, prev, bytewidth, filterType, |line|);
    assert line[..|line|] == line;
  }

  lemma {:induction false} UnfilterToPrefix(scan: seq<Byte>, prev: seq<Byte>, bytewidth: nat, filterType: nat, m: nat, n: nat)
    requires m <= n <= |scan| == |prev| && bytewidth > 0
    ensures UnfilterTo(scan, prev, bytewidth, filterType, m) == UnfilterTo(scan, prev, bytewidth, filterType, n)[..m]
  {
    if m < n { UnfilterToPrefix(scan, prev, bytewidth, filterType, m, n - 1); }
  }

  /** Filtering undoes unfiltering: each filter is a bijection on rows. */
  lemma FilterUnfilterRow(scan: seq<Byte>, prev: seq<Byte>, bytewidth: nat, filterType: nat)
    requires |scan| == |prev| && bytewidth > 0
    ensures FilterRow(UnfilterRow(scan, prev, bytewidth, filterType), prev, bytewidth, filterType) == scan
  {
    hide FilterByte, UnfilterTo, ReconByte;
    var line := UnfilterRow(scan, prev, bytewidth, filterType);
    forall i | 0 <= i < |scan| ensures FilterByte(line, prev, bytewidth, filterType, i) == scan[i] {
      UnfilterToPrefix(scan, prev, bytewidth, filterType, i, |scan|);
      UnfilterToPrefix(scan, prev, bytewidth, filterType, i + 1, |scan|);
      LastRecon(scan, prev, bytewidth, filterType, i);
      assert line[..i + 1][i] == line[i];
      ByteBack(scan, line, prev, bytewidth, filterType, i);
    }
  }

  lemma LastRecon(scan: seq<Byte>, prev: seq<Byte>, bytewidth: nat, filterType: nat, i: nat)
    requires i < |scan| == |prev| && bytewidth > 0
    ensures UnfilterTo(scan, prev, bytewidth, filterType, i + 1)[i]
         == ReconByte(scan, prev, bytewidth, filterType, i, UnfilterTo(scan, prev, bytewidth, filterType, i))
  {
    hide ReconByte;
  }

  lemma ByteBack(scan: seq<Byte>, line: seq<Byte>, prev: seq<Byte>, bytewidth: nat, filterType: nat, i: nat)
    requires i < |scan| == |line| == |prev| && bytewidth > 0
    requires line[i] == ReconByte(scan, prev, bytewidth, filterType, i, line[..i])
    ensures FilterByte(line, prev, bytewidth, filterType, i) == scan[i]
  {
    hide Predict;
    assert Left(line[..i], i, bytewidth) == Left(line, i, bytewidth);
    AddBack(scan[i], Predict(filterType, Left(line, i, bytewidth), prev[i], Left(prev, i, bytewidth)));
  }

  // ---- The filter types by what they subtract ----

  /**
   * Sections 9.2 to 9.4, without the predictor: nothing, the byte to the left, the byte above, half of their sum rounded
   * down, or the one of the three that is nearest to left + above - corner, ties in the order left, above, corner.
   */
  predicate Subtracts(filterType: nat, left: Byte, above: Byte, corner: Byte, p: int) {
    var estimate := left + above - corner;
    var toLeft, toAbove, toCorner := Abs(estimate - left), Abs(estimate - above), Abs(estimate - corner);
    && (filterType == 0 ==> p == 0)
    && (filterType == 1 ==> p == left)
    && (filterType == 2 ==> p == above)
    && (filterType == 3 ==> 2 * p <= left + above <= 2 * p + 1)
    && (filterType == 4 ==>
          && p in {left, above, corner}
          && Abs(estimate - p) <= toLeft && Abs(estimate - p) <= toAbove && Abs(estimate - p) <= toCorner
          && (toLeft <= toAbove && toLeft <= toCorner ==> p == left)
          && (toLeft > toAbove && toAbove <= toCorner ==> p == above))
  }

  /** Byte i of the line is the filtered byte plus what the type says, modulo 256; outside of the image there are zeros. */
  ghost predicate UndoesAt(filterType: nat, bytewidth: nat, filtered: seq<Byte>, line: seq<Byte>, prev: seq<Byte>, i: nat)
    requires i < |filtered| == |line| == |prev|
  {
    var left, corner := if i < bytewidth then 0 else line[i - bytewidth], if i < bytewidth then 0 else prev[i - bytewidth];
    Subtracts(filterType, left, prev[i], corner, (line[i] as int - filtered[i]) % 256)
  }

  ghost predicate Undoes(filterType: nat, bytewidth: nat, filtered: seq<Byte>, line: seq<Byte>, prev: seq<Byte>) {
    && |filtered| == |line| == |prev|
    && forall i: nat :: i < |line| ==> UndoesAt(filterType, bytewidth, filtered, line, prev, i)
  }

  lemma PredictSubtracts(filterType: nat, a: Byte, b: Byte, c: Byte)
    ensures Subtracts(filterType, a, b, c, Predict(filterType, a, b, c))
  {
  }

  lemma FilterUndoes(line: seq<Byte>, prev: seq<Byte>, bytewidth: nat, filterType: nat)
    requires |line| == |prev|
    ensures Undoes(filterType, bytewidth, FilterRow(line, prev, bytewidth, filterType), line, prev)
  {
    hide Predict, Subtracts;
    var filtered := FilterRow(line, prev, bytewidth, filterType);
    forall i: nat | i < |line| ensures UndoesAt(filterType, bytewidth, filtered, line, prev, i) {
      var p := Predict(filterType, Left(line, i, bytewidth), prev[i], Left(prev, i, bytewidth));
      TakenAway(line[i], p);
      PredictSubtracts(filterType, Left(line, i, bytewidth), prev[i], Left(prev, i, bytewidth));
    }
  }

  lemma TakenAway(x: Byte, p: Byte)
    ensures (x - (x as int - p) % 256) % 256 == p
  {
  }

  lemma UnfilterUndoes(scan: seq<Byte>, prev: seq<Byte>, bytewidth: nat, filterType: nat)
    requires |scan| == |prev| && bytewidth > 0
    ensures Undoes(filterType, bytewidth, scan, UnfilterRow(scan, prev, bytewidth, filterType), prev)
  {
    hide UnfilterRow, FilterRow, Undoes;
    FilterUnfilterRow(scan, prev, bytewidth, filterType);
    FilterUndoes(UnfilterRow(scan, prev, bytewidth, filterType), prev, bytewidth, filterType);
  }

  // ---- The predictor of the source and its shortcuts ----

  /** paethPredictor: another order of comparisons than the specification, the same choice. */
  function PaethPredictor(a: Byte, b: Byte, c: Byte): (r: Byte)
    ensures r == Nearest(a, b, c)
  {
    var pa, pb, pc := Abs(b - c), Abs(a - c), Abs(a + b - c - c);
    if pc < pa && pc < pb then c else if pb < pa then b else a
  }

  /** The shortcuts at the left border and without a previous row. */
  lemma PaethShortcuts(x: Byte)
    ensures Nearest(0, x, 0) == x && Nearest(x, 0, 0) == x
  {
  }

  // ---- One scanline ----

  /** The previous row of the output, zeros if there is none. */
  ghost function PrevLine(mem: seq<Byte>, precon: Option<nat>, length: nat): (s: seq<Byte>)
    requires precon.Some? ==> precon.value + length <= |mem|
    ensures |s| == length
  {
    if precon.Some? then mem[precon.value..precon.value + length] else Copies<Byte>(0, length)
  }

  /** A scanline to be reconstructed: memory before, where it goes, and what it is made from. */
  datatype Row = Row(before: seq<Byte>, start: nat, scan: seq<Byte>, prev: seq<Byte>, bytewidth: nat, filterType: nat)
  {
    ghost predicate Valid() {
      |scan| == |prev| && bytewidth > 0 && start + |scan| <= |before|
    }

    /** The reconstructed row. */
    ghost function Line(): (s: seq<Byte>)
      requires Valid()
    {
      UnfilterRow(scan, prev, bytewidth, filterType)
    }

    ghost function After(): (s: seq<Byte>)
      requires Valid()
      ensures |s| == |before|
    {
      before[..start] + Line() + before[start + |scan|..]
    }
  }

  /** The state of an unfiltering loop: i bytes of the row are reconstructed. */
  ghost predicate Recon(r: Row, now: seq<Byte>, i: nat) {
    r.Valid() && i <= |r.scan|
    && Written(r.before, now, r.start, UnfilterTo(r.scan, r.prev, r.bytewidth, r.filterType, i))
  }

  /** The value that belongs at index i. */
  ghost function Expected(r: Row, i: nat): Byte
    requires r.Valid() && i < |r.scan|
  {
    ReconByte(r.scan, r.prev, r.bytewidth, r.filterType, i, UnfilterTo(r.scan, r.prev, r.bytewidth, r.filterType, i))
  }

  lemma ReconStart(r: Row)
    requires r.Valid()
    ensures Recon(r, r.before, 0)
  {
  }

  lemma ReconEnd(r: Row, now: seq<Byte>)
    requires Recon(r, now, |r.scan|)
    ensures now == r.After()
  {
  }

  lemma ReconStep(r: Row, now: seq<Byte>, i: nat, v: Byte)
    requires Recon(r, now, i) && i < |r.scan| && |now| == |r.before| && v == Expected(r, i)
    ensures Recon(r, now[r.start + i := v], i + 1)
  {
    hide Written, ReconByte;
    WrittenStep(r.before, now, r.start, UnfilterTo(r.scan, r.prev, r.bytewidth, r.filterType, i), v);
  }

  /** Where the row's bytes come from: the input, which may overlap the output from behind, and the row before. */
  ghost predicate Sources(r: Row, same: bool, input: seq<Byte>, so: nat, precon: Option<nat>) {
    && r.Valid() && so + |r.scan| <= |input|
    && (same ==> r.start <= so && input == r.before)
    && r.scan == input[so..so + |r.scan|]
    && (precon.Some? ==> precon.value + |r.scan| <= r.start)
    && r.prev == PrevLine(r.before, precon, |r.scan|)
  }

  /** The bytes to the left, above and to the left above, as a loop reads them. */
  ghost function LeftOf(r: Row, out: seq<Byte>, i: nat): Byte
    requires r.start + i < |out| && r.bytewidth > 0
  {
    if i < r.bytewidth then 0 else out[r.start + i - r.bytewidth]
  }

  ghost function Above(out: seq<Byte>, precon: Option<nat>, i: nat): Byte
    requires precon.Some? ==> precon.value + i < |out|
  {
    if precon.None? then 0 else out[precon.value + i]
  }

  ghost function AboveLeft(r: Row, out: seq<Byte>, precon: Option<nat>, i: nat): Byte
    requires r.bytewidth > 0 && (precon.Some? ==> precon.value + i < |out|)
  {
    if i < r.bytewidth || precon.None? then 0 else out[precon.value + i - r.bytewidth]
  }

  /** What a loop reads is what it needs: nothing has been overwritten too early. */
  lemma LoopReads(r: Row, out: array<Byte>, inp: array<Byte>, input: seq<Byte>, so: nat, precon: Option<nat>, i: nat)
    requires Sources(r, out == inp, input, so, precon) && Recon(r, out[..], i) && i < |r.scan|
    requires out != inp ==> inp[..] == input
    ensures r.bytewidth > 0 && so + i < inp.Length && r.start + i < out.Length
    ensures precon.Some? ==> precon.value + i < r.start
    ensures Expected(r, i)
         == (inp[so + i] + Predict(r.filterType, LeftOf(r, out[..], i), Above(out[..], precon, i), AboveLeft(r, out[..], precon, i)))
            % 256
  {
    hide Predict, Recon, LeftOf, Above, AboveLeft, UnfilterTo;
    ReconBounds(r, out[..], i);
    ReadsSource(r, out[..], out == inp, input, so, precon, i);
    assert inp[so + i] == r.scan[i];
    ReadsLeft(r, out[..], i);
    ReadsAbove(r, out[..], out == inp, input, so, precon, i, i);
    if r.bytewidth <= i { ReadsAbove(r, out[..], out == inp, input, so, precon, i, i - r.bytewidth); }
    NoRowAbove(r, out[..], out == inp, input, so, precon, i);
  }

  lemma ReadsSource(r: Row, out: seq<Byte>, same: bool, input: seq<Byte>, so: nat, precon: Option<nat>, i: nat)
    requires Sources(r, same, input, so, precon) && Recon(r, out, i) && i < |r.scan|
    ensures input[so + i] == r.scan[i] && |out| == |r.before|
    ensures same ==> so + i < |out| && out[so + i] == r.scan[i]
  {
    hide UnfilterTo, Written;
    var row := UnfilterTo(r.scan, r.prev, r.bytewidth, r.filterType, i);
    WrittenAt(r.before, out, r.start, row);
    WrittenFits(r.before, out, r.start, row);
    assert r.scan[i] == input[so..so + |r.scan|][i];
  }

  lemma ReadsLeft(r: Row, out: seq<Byte>, i: nat)
    requires Recon(r, out, i) && i < |r.scan|
    ensures |out| == |r.before|
    ensures LeftOf(r, out, i) == Left(UnfilterTo(r.scan, r.prev, r.bytewidth, r.filterType, i), i, r.bytewidth)
  {
    hide UnfilterTo, Written;
    var row := UnfilterTo(r.scan, r.prev, r.bytewidth, r.filterType, i);
    WrittenAt(r.before, out, r.start, row);
    WrittenFits(r.before, out, r.start, row);
    if r.bytewidth <= i { assert out[r.start + (i - r.bytewidth)] == row[i - r.bytewidth]; }
  }

  lemma ReadsAbove(r: Row, out: seq<Byte>, same: bool, input: seq<Byte>, so: nat, precon: Option<nat>, i: nat, k: nat)
    requires Sources(r, same, input, so, precon) && Recon(r, out, i) && k <= i < |r.scan|
    ensures precon.Some? ==> precon.value + |r.scan| <= r.start && precon.value + k < |out| && out[precon.value + k] == r.prev[k]
  {
    hide UnfilterTo, Written;
    var row := UnfilterTo(r.scan, r.prev, r.bytewidth, r.filterType, i);
    WrittenAt(r.before, out, r.start, row);
    WrittenFits(r.before, out, r.start, row);
    if precon.Some? { assert out[precon.value + k] == r.before[precon.value + k]; }
  }

  lemma NoRowAbove(r: Row, out: seq<Byte>, same: bool, input: seq<Byte>, so: nat, precon: Option<nat>, i: nat)
    requires Sources(r, same, input, so, precon) && |out| == |r.before| && i < |r.scan|
    requires precon.Some? ==> forall k: nat :: k == i || k == i - r.bytewidth ==> out[precon.value + k] == r.prev[k]
    ensures precon.Some? ==> precon.value + i < |out|
    ensures Above(out, precon, i) == r.prev[i] && AboveLeft(r, out, precon, i) == Left(r.prev, i, r.bytewidth)
  {
  }

  lemma SourcesValid(r: Row, same: bool, input: seq<Byte>, so: nat, precon: Option<nat>)
    requires Sources(r, same, input, so, precon)
    ensures r.Valid()
  {
  }

  lemma ReconBounds(r: Row, now: seq<Byte>, i: nat)
    requires Recon(r, now, i)
    ensures |now| == |r.before| && r.start + |r.scan| <= |r.before|
  {
  }

  /** Stores one reconstructed byte. */
  method PutRecon(ghost r: Row, out: array<Byte>, start: nat, i: nat, v: nat)
    requires Recon(r, out[..], i) && i < |r.scan| && start == r.start && v % 256 == Expected(r, i)
    modifies out
    ensures Recon(r, out[..], i + 1)
  {
    hide Recon, Expected, Row.Valid;
    ReconBounds(r, out[..], i);
    var b: Byte := v % 256;
    ReconStep(r, out[..], i, b);
    ghost var was := out[..];
    out[start + i] := b;
    assert out[..] == was[r.start + i := b];
  }

  /** Type 0, and type 2 without a previous row: plain copying. */
  method UnfilterCopy(ghost r: Row, out: array<Byte>, ro: nat, inp: array<Byte>, so: nat, ghost precon: Option<nat>, length: nat)
    requires Sources(r, out == inp, inp[..], so, precon) && out[..] == r.before && ro == r.start && length == |r.scan|
    requires r.filterType == 0 || (r.filterType == 2 && precon.None?)
    modifies out
    ensures out[..] == r.After()
  {
    hide Recon, Expected, Sources, Row.Valid, Row.After;
    SourcesValid(r, out == inp, inp[..], so, precon);
    ReconStart(r);
    for i := 0 to length
      invariant Recon(r, out[..], i)
    {
      LoopReads(r, out, inp, old(inp[..]), so, precon, i);
      PutRecon(r, out, ro, i, inp[so + i]);
    }
    ReconEnd(r, out[..]);
  }

  /** Type 1, Sub. */
  method UnfilterSub(ghost r: Row, out: array<Byte>, ro: nat, inp: array<Byte>, so: nat,
            precon: Option<nat>, bytewidth: nat, length: nat)
    requires Sources(r, out == inp, inp[..], so, precon) && out[..] == r.before
    requires ro == r.start && length == |r.scan| && bytewidth == r.bytewidth <= length
    requires r.filterType == 1
    modifies out
    ensures out[..] == r.After()
  {
    hide Recon, Expected, Sources, Row.Valid, Row.After;
    SourcesValid(r, out == inp, inp[..], so, precon);
    ReconStart(r);
    for i := 0 to bytewidth
      invariant Recon(r, out[..], i)
    {
      LoopReads(r, out, inp, old(inp[..]), so, precon, i);
      PutRecon(r, out, ro, i, inp[so + i]);
    }
    for i := bytewidth to length
      invariant Recon(r, out[..], i)
    {
      LoopReads(r, out, inp, old(inp[..]), so, precon, i);
      PutRecon(r, out, ro, i, (inp[so + i] as int) + out[ro + i - bytewidth]);
    }
    ReconEnd(r, out[..]);
  }

  /** Type 2, Up, with a previous row. */
  method UnfilterUp(ghost r: Row, out: array<Byte>, ro: nat, inp: array<Byte>, so: nat,
            precon: Option<nat>, bytewidth: nat, length: nat)
    requires Sources(r, out == inp, inp[..], so, precon) && out[..] == r.before
    requires ro == r.start && length == |r.scan| && bytewidth == r.bytewidth <= length
    requires r.filterType == 2 && precon.Some?
    modifies out
    ensures out[..] == r.After()
  {
    hide Recon, Expected, Sources, Row.Valid, Row.After;
    SourcesValid(r, out == inp, inp[..], so, precon);
    ReconStart(r);
    for i := 0 to length
      invariant Recon(r, out[..], i)
    {
      LoopReads(r, out, inp, old(inp[..]), so, precon, i);
      PutRecon(r, out, ro, i, (inp[so + i] as int) + out[precon.value + i]);
    }
    ReconEnd(r, out[..]);
  }

  /** Type 3, Average. */
  method UnfilterAverage(ghost r: Row, out: array<Byte>, ro: nat, inp: array<Byte>, so: nat,
            precon: Option<nat>, bytewidth: nat, length: nat)
    requires Sources(r, out == inp, inp[..], so, precon) && out[..] == r.before
    requires ro == r.start && length == |r.scan| && bytewidth == r.bytewidth <= length
    requires r.filterType == 3
    modifies out
    ensures out[..] == r.After()
  {
    hide Recon, Expected, Sources, Row.Valid, Row.After;
    SourcesValid(r, out == inp, inp[..], so, precon);
    ReconStart(r);
    if precon.Some? {
      for i := 0 to bytewidth
        invariant Recon(r, out[..], i)
      {
        LoopReads(r, out, inp, old(inp[..]), so, precon, i);
        PutRecon(r, out, ro, i, (inp[so + i] as int) + out[precon.value + i] / 2);
      }
      for i := bytewidth to length
        invariant Recon(r, out[..], i)
      {
        LoopReads(r, out, inp, old(inp[..]), so, precon, i);
        PutRecon(r, out, ro, i, (inp[so + i] as int) + ((out[ro + i - bytewidth] as int) + out[precon.value + i]) / 2);
      }
    } else {
      for i := 0 to bytewidth
        invariant Recon(r, out[..], i)
      {
        LoopReads(r, out, inp, old(inp[..]), so, precon, i);
        PutRecon(r, out, ro, i, inp[so + i]);
      }
      for i := bytewidth to length
        invariant Recon(r, out[..], i)
      {
        LoopReads(r, out, inp, old(inp[..]), so, precon, i);
        PutRecon(r, out, ro, i, (inp[so + i] as int) + out[ro + i - bytewidth] / 2);
      }
    }
    ReconEnd(r, out[..]);
  }

  /** Type 4, Paeth, with its shortcuts. */
  method UnfilterPaeth(ghost r: Row, out: array<Byte>, ro: nat, inp: array<Byte>, so: nat,
            precon: Option<nat>, bytewidth: nat, length: nat)
    requires Sources(r, out == inp, inp[..], so, precon) && out[..] == r.before
    requires ro == r.start && length == |r.scan| && bytewidth == r.bytewidth <= length
    requires r.filterType == 4
    modifies out
    ensures out[..] == r.After()
  {
    hide Recon, Expected, Sources, Row.Valid, Row.After, Nearest;
    SourcesValid(r, out == inp, inp[..], so, precon);
    ReconStart(r);
    if precon.Some? {
      for i := 0 to bytewidth
        invariant Recon(r, out[..], i)
      {
        LoopReads(r, out, inp, old(inp[..]), so, precon, i);
        PaethShortcuts(out[precon.value + i]);
        PutRecon(r, out, ro, i, (inp[so + i] as int) + out[precon.value + i]);
      }
      for i := bytewidth to length
        invariant Recon(r, out[..], i)
      {
        LoopReads(r, out, inp, old(inp[..]), so, precon, i);
        PutRecon(r, out, ro, i, (inp[so + i] as int) + PaethPredictor(out[ro + i - bytewidth], out[precon.value + i], out[precon.value + i - bytewidth]));
      }
    } else {
      for i := 0 to bytewidth
        invariant Recon(r, out[..], i)
      {
        LoopReads(r, out, inp, old(inp[..]), so, precon, i);
        PaethShortcuts(0);
        PutRecon(r, out, ro, i, inp[so + i]);
      }
      for i := bytewidth to length
        invariant Recon(r, out[..], i)
      {
        LoopReads(r, out, inp, old(inp[..]), so, precon, i);
        PaethShortcuts(out[ro + i - bytewidth]);
        PutRecon(r, out, ro, i, (inp[so + i] as int) + out[ro + i - bytewidth]);
      }
    }
    ReconEnd(r, out[..]);
  }

  lemma AfterUndoes(r: Row, now: seq<Byte>)
    requires r.Valid() && now == r.After()
    ensures
      && r.start + |r.scan| <= |now|
      && Undoes(r.filterType, r.bytewidth, r.scan, now[r.start..r.start + |r.scan|], r.prev)
  {
    hide UnfilterRow, Undoes;
    UnfilterUndoes(r.scan, r.prev, r.bytewidth, r.filterType);
    assert now[r.start..r.start + |r.scan|] == r.Line();
  }

  /** unfilterScanline: one row, reconstructed in memory that may overlap its input from behind. */
  method UnfilterScanline(ghost r: Row, out: array<Byte>, ro: nat, inp: array<Byte>, so: nat,
                          precon: Option<nat>, bytewidth: nat, filterType: nat, length: nat)
    returns (error: nat)
    requires Sources(r, out == inp, inp[..], so, precon) && out[..] == r.before
    requires ro == r.start && length == |r.scan| && bytewidth == r.bytewidth <= length && filterType == r.filterType
    modifies out
    ensures error == if filterType <= 4 then 0 else 36
    ensures out[..] == if error == 0 then r.After() else r.before
    ensures error == 0 ==> ro + length <= out.Length && Undoes(filterType, bytewidth, r.scan, out[ro..ro + length], r.prev)
  {
    hide Sources, Row.Valid, Row.After, Undoes;
    SourcesValid(r, out == inp, inp[..], so, precon);
    error := 0;
    if filterType == 0 || (filterType == 2 && precon.None?) {
      UnfilterCopy(r, out, ro, inp, so, precon, length);
    } else if filterType == 1 {
      UnfilterSub(r, out, ro, inp, so, precon, bytewidth, length);
    } else if filterType == 2 {
      UnfilterUp(r, out, ro, inp, so, precon, bytewidth, length);
    } else if filterType == 3 {
      UnfilterAverage(r, out, ro, inp, so, precon, bytewidth, length);
    } else if filterType == 4 {
      UnfilterPaeth(r, out, ro, inp, so, precon, bytewidth, length);
    } else {
      error := 36;
    }
    if error == 0 { AfterUndoes(r, out[..]); }
  }

  // ---- The encoder's side (lodepng.c:5049-5103) ----

  /** The state of a filtering loop: i bytes of the filtered row are stored. */
  ghost predicate Filtered(r: Row, now: seq<Byte>, i: nat) {
    && r.Valid() && i <= |r.scan|
    && Written(r.before, now, r.start, FilterRow(r.scan, r.prev, r.bytewidth, r.filterType)[..i])
  }

  ghost function AfterFilter(r: Row): (s: seq<Byte>)
    requires r.Valid()
    ensures |s| == |r.before|
  {
    r.before[..r.start] + FilterRow(r.scan, r.prev, r.bytewidth, r.filterType) + r.before[r.start + |r.scan|..]
  }

  lemma FilteredStart(r: Row)
    requires r.Valid()
    ensures Filtered(r, r.before, 0)
  {
  }

  lemma FilteredEnd(r: Row, now: seq<Byte>)
    requires Filtered(r, now, |r.scan|)
    ensures now == AfterFilter(r)
  {
    var row := FilterRow(r.scan, r.prev, r.bytewidth, r.filterType);
    assert row[..|row|] == row;
  }

  lemma FilteredStep(r: Row, now: seq<Byte>, i: nat, v: Byte)
    requires Filtered(r, now, i) && i < |r.scan| && v == FilterByte(r.scan, r.prev, r.bytewidth, r.filterType, i)
    ensures |now| == |r.before| && r.start + i < |now|
    ensures Filtered(r, now[r.start + i := v], i + 1)
  {
    hide Written, FilterByte;
    var row := FilterRow(r.scan, r.prev, r.bytewidth, r.filterType);
    WrittenAt(r.before, now, r.start, row[..i]);
    WrittenStep(r.before, now, r.start, row[..i], v);
    assert row[..i] + [v] == row[..i + 1];
  }

  method PutFiltered(ghost r: Row, out: array<Byte>, start: nat, i: nat, v: int)
    requires Filtered(r, out[..], i) && i < |r.scan| && start == r.start
    requires v % 256 == FilterByte(r.scan, r.prev, r.bytewidth, r.filterType, i)
    modifies out
    ensures Filtered(r, out[..], i + 1)
  {
    hide Filtered, FilterByte, Row.Valid;
    var b: Byte := v % 256;
    FilteredStep(r, out[..], i, b);
    ghost var was := out[..];
    out[start + i] := b;
    assert out[..] == was[r.start + i := b];
  }

  /** The scanline to be filtered and the one before it, in the image. */
  ghost predicate Lines(r: Row, image: seq<Byte>, so: nat, prevline: Option<nat>) {
    && r.Valid() && so + |r.scan| <= |image| && r.scan == image[so..so + |r.scan|]
    && (prevline.Some? ==> prevline.value + |r.scan| <= |image|)
    && r.prev == PrevLine(image, prevline, |r.scan|)
  }

  lemma LinesRead(r: Row, image: seq<Byte>, so: nat, prevline: Option<nat>, i: nat)
    requires Lines(r, image, so, prevline) && i < |r.scan|
    ensures r.bytewidth > 0 && so + i < |image| && (prevline.Some? ==> prevline.value + i < |image|)
    ensures
      var left := if i < r.bytewidth then 0 else image[so + i - r.bytewidth];
      FilterByte(r.scan, r.prev, r.bytewidth, r.filterType, i)
      == (image[so + i] - Predict(r.filterType, left, Above(image, prevline, i), AboveLeft(r, image, prevline, i))) % 256
  {
    hide Predict;
    if i >= r.bytewidth {
      var k := i - r.bytewidth;
      assert r.scan[k] == image[so + k];
      assert r.prev[k] == AboveLeft(r, image, prevline, i);
    }
  }

  lemma LinesValid(r: Row, image: seq<Byte>, so: nat, prevline: Option<nat>)
    requires Lines(r, image, so, prevline)
    ensures r.Valid()
  {
  }

  /** Type 0, None. */
  method FilterNone(ghost r: Row, out: array<Byte>, oo: nat, image: array<Byte>, so: nat,
            prevline: Option<nat>, bytewidth: nat, length: nat)
    requires out != image && Lines(r, image[..], so, prevline) && out[..] == r.before
    requires oo == r.start && length == |r.scan| && bytewidth == r.bytewidth <= length
    requires r.filterType == 0
    modifies out
    ensures out[..] == AfterFilter(r)
  {
    hide Filtered, FilterByte, Lines, Row.Valid, AfterFilter;
    LinesValid(r, image[..], so, prevline);
    FilteredStart(r);
    for i := 0 to length
      invariant Filtered(r, out[..], i)
    {
      LinesRead(r, image[..], so, prevline, i);
      PutFiltered(r, out, oo, i, image[so + i]);
    }
    FilteredEnd(r, out[..]);
  }

  /** Type 1, Sub. */
  method FilterSub(ghost r: Row, out: array<Byte>, oo: nat, image: array<Byte>, so: nat,
            prevline: Option<nat>, bytewidth: nat, length: nat)
    requires out != image && Lines(r, image[..], so, prevline) && out[..] == r.before
    requires oo == r.start && length == |r.scan| && bytewidth == r.bytewidth <= length
    requires r.filterType == 1
    modifies out
    ensures out[..] == AfterFilter(r)
  {
    hide Filtered, FilterByte, Lines, Row.Valid, AfterFilter;
    LinesValid(r, image[..], so, prevline);
    FilteredStart(r);
    for i := 0 to bytewidth
      invariant Filtered(r, out[..], i)
    {
      LinesRead(r, image[..], so, prevline, i);
      PutFiltered(r, out, oo, i, image[so + i]);
    }
    for i := bytewidth to length
      invariant Filtered(r, out[..], i)
    {
      LinesRead(r, image[..], so, prevline, i);
      PutFiltered(r, out, oo, i, (image[so + i] as int) - image[so + i - bytewidth]);
    }
    FilteredEnd(r, out[..]);
  }

  /** Type 2, Up. */
  method FilterUp(ghost r: Row, out: array<Byte>, oo: nat, image: array<Byte>, so: nat,
            prevline: Option<nat>, bytewidth: nat, length: nat)
    requires out != image && Lines(r, image[..], so, prevline) && out[..] == r.before
    requires oo == r.start && length == |r.scan| && bytewidth == r.bytewidth <= length
    requires r.filterType == 2
    modifies out
    ensures out[..] == AfterFilter(r)
  {
    hide Filtered, FilterByte, Lines, Row.Valid, AfterFilter;
    LinesValid(r, image[..], so, prevline);
    FilteredStart(r);
    if prevline.Some? {
      for i := 0 to length
        invariant Filtered(r, out[..], i)
      {
        LinesRead(r, image[..], so, prevline, i);
        PutFiltered(r, out, oo, i, (image[so + i] as int) - image[prevline.value + i]);
      }
    } else {
      for i := 0 to length
        invariant Filtered(r, out[..], i)
      {
        LinesRead(r, image[..], so, prevline, i);
        PutFiltered(r, out, oo, i, image[so + i]);
      }
    }
    FilteredEnd(r, out[..]);
  }

  /** Type 3, Average. */
  method FilterAverage(ghost r: Row, out: array<Byte>, oo: nat, image: array<Byte>, so: nat,
            prevline: Option<nat>, bytewidth: nat, length: nat)
    requires out != image && Lines(r, image[..], so, prevline) && out[..] == r.before
    requires oo == r.start && length == |r.scan| && bytewidth == r.bytewidth <= length
    requires r.filterType == 3
    modifies out
    ensures out[..] == AfterFilter(r)
  {
    hide Filtered, FilterByte, Lines, Row.Valid, AfterFilter;
    LinesValid(r, image[..], so, prevline);
    FilteredStart(r);
    if prevline.Some? {
      for i := 0 to bytewidth
        invariant Filtered(r, out[..], i)
      {
        LinesRead(r, image[..], so, prevline, i);
        PutFiltered(r, out, oo, i, (image[so + i] as int) - image[prevline.value + i] / 2);
      }
      for i := bytewidth to length
        invariant Filtered(r, out[..], i)
      {
        LinesRead(r, image[..], so, prevline, i);
        PutFiltered(r, out, oo, i, (image[so + i] as int) - ((image[so + i - bytewidth] as int) + image[prevline.value + i]) / 2);
      }
    } else {
      for i := 0 to bytewidth
        invariant Filtered(r, out[..], i)
      {
        LinesRead(r, image[..], so, prevline, i);
        PutFiltered(r, out, oo, i, image[so + i]);
      }
      for i := bytewidth to length
        invariant Filtered(r, out[..], i)
      {
        LinesRead(r, image[..], so, prevline, i);
        PutFiltered(r, out, oo, i, (image[so + i] as int) - image[so + i - bytewidth] / 2);
      }
    }
    FilteredEnd(r, out[..]);
  }

  /** Type 4, Paeth, with its shortcuts. */
  method FilterPaeth(ghost r: Row, out: array<Byte>, oo: nat, image: array<Byte>, so: nat,
            prevline: Option<nat>, bytewidth: nat, length: nat)
    requires out != image && Lines(r, image[..], so, prevline) && out[..] == r.before
    requires oo == r.start && length == |r.scan| && bytewidth == r.bytewidth <= length
    requires r.filterType == 4
    modifies out
    ensures out[..] == AfterFilter(r)
  {
    hide Filtered, FilterByte, Lines, Row.Valid, AfterFilter, Nearest;
    LinesValid(r, image[..], so, prevline);
    FilteredStart(r);
    if prevline.Some? {
      for i := 0 to bytewidth
        invariant Filtered(r, out[..], i)
      {
        LinesRead(r, image[..], so, prevline, i);
        PaethShortcuts(image[prevline.value + i]);
        PutFiltered(r, out, oo, i, (image[so + i] as int) - image[prevline.value + i]);
      }
      for i := bytewidth to length
        invariant Filtered(r, out[..], i)
      {
        LinesRead(r, image[..], so, prevline, i);
        PutFiltered(r, out, oo, i, (image[so + i] as int) - PaethPredictor(image[so + i - bytewidth], image[prevline.value + i], image[prevline.value + i - bytewidth]));
      }
    } else {
      for i := 0 to bytewidth
        invariant Filtered(r, out[..], i)
      {
        LinesRead(r, image[..], so, prevline, i);
        PaethShortcuts(0);
        PutFiltered(r, out, oo, i, image[so + i]);
      }
      for i := bytewidth to length
        invariant Filtered(r, out[..], i)
      {
        LinesRead(r, image[..], so, prevline, i);
        PaethShortcuts(image[so + i - bytewidth]);
        PutFiltered(r, out, oo, i, (image[so + i] as int) - image[so + i - bytewidth]);
      }
    }
    FilteredEnd(r, out[..]);
  }

  lemma AfterFilterUndoes(r: Row, now: seq<Byte>)
    requires r.Valid() && now == AfterFilter(r)
    ensures
      && r.start + |r.scan| <= |now|
      && Undoes(r.filterType, r.bytewidth, now[r.start..r.start + |r.scan|], r.scan, r.prev)
  {
    hide FilterRow, Undoes;
    FilterUndoes(r.scan, r.prev, r.bytewidth, r.filterType);
    assert now[r.start..r.start + |r.scan|] == FilterRow(r.scan, r.prev, r.bytewidth, r.filterType);
  }

  /** filterScanline: writes nothing for a filter type above 4. */
  method FilterScanline(ghost r: Row, out: array<Byte>, oo: nat, image: array<Byte>, so: nat,
                        prevline: Option<nat>, length: nat, bytewidth: nat, filterType: nat)
    requires out != image && Lines(r, image[..], so, prevline) && out[..] == r.before
    requires oo == r.start && length == |r.scan| && bytewidth == r.bytewidth <= length && filterType == r.filterType
    modifies out
    ensures r.Valid() && out[..] == if filterType <= 4 then AfterFilter(r) else r.before
    ensures filterType <= 4 ==> oo + length <= out.Length && Undoes(filterType, bytewidth, out[oo..oo + length], r.scan, r.prev)
  {
    hide Lines, Row.Valid, AfterFilter, Undoes;
    LinesValid(r, image[..], so, prevline);
    if filterType == 0 {
      FilterNone(r, out, oo, image, so, prevline, bytewidth, length);
    } else if filterType == 1 {
      FilterSub(r, out, oo, image, so, prevline, bytewidth, length);
    } else if filterType == 2 {
      FilterUp(r, out, oo, image, so, prevline, bytewidth, length);
    } else if filterType == 3 {
      FilterAverage(r, out, oo, image, so, prevline, bytewidth, length);
    } else if filterType == 4 {
      FilterPaeth(r, out, oo, image, so, prevline, bytewidth, length);
    }
    if filterType <= 4 { AfterFilterUndoes(r, out[..]); }
  }
}
