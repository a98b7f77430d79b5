/** Filtering and unfiltering of a whole image or Adam7 pass (lodepng.c:3951-3980, 5114-5332). */
module ImageFilter {
  import opened Bits
  import opened PrefixCode
  import opened Memory
  import opened Filters
  import opened FilterCosts

  /** The bytes of a scanline, and the distance at which the filters look to the left. */
  function LineBytes(w: nat, bpp: nat): nat { (w * bpp + 7) / 8 }

  function ByteWidth(bpp: nat): nat { (bpp + 7) / 8 }

  lemma ByteWidthFits(w: nat, bpp: nat)
    requires w > 0
    ensures ByteWidth(bpp) <= LineBytes(w, bpp)
  {
    MulAtLeast(w, bpp);
  }

  /** Where the row above starts in memory. */
  function PrevStart(io: nat, y: nat, n: nat): Option<nat>
    requires y > 0 ==> n <= RowAt(y, n)
  {
    if y == 0 then None else Some(io + RowAt(y, n) - n)
  }

  // ---- Reference ----

  /** The last row of the rows done so far, zeros before the first one. */
  function LastRow(done: seq<Byte>, n: nat): (s: seq<Byte>)
    ensures |s| == n
  {
    if |done| < n then Copies<Byte>(0, n) else done[|done| - n..]
  }

  /** The image in h filtered scanlines of n bytes, each after its filter type; none if a type is above 4. */
  ghost function UnfilterImage(stream: seq<Byte>, n: nat, bytewidth: nat, h: nat): (r: Option<seq<Byte>>)
    requires bytewidth > 0 && RowAt(h, n + 1) <= |stream|
    ensures r.Some? ==> |r.value| == RowAt(h, n)
  {
    if h == 0 then Some([]) else
      RowInside(h - 1, n + 1, h);
      NextRow(h - 1, n);
      match UnfilterImage(stream, n, bytewidth, h - 1)
      case None => None
      case Some(done) =>
        var p := RowAt(h - 1, n + 1);
        if stream[p] > 4 then None
        else Some(done + UnfilterRow(stream[p + 1..p + 1 + n], LastRow(done, n), bytewidth, stream[p]))
  }

  /** Row y of the stream is row y of the image, filtered with its type; a type above 4 says nothing about the row. */
  ghost predicate RowFiltered(stream: seq<Byte>, image: seq<Byte>, types: seq<Byte>, n: nat, bytewidth: nat, y: nat) {
    var p := RowAt(y, n + 1);
    && y < |types| && RowAt(y, n) + n <= |image| && p + n + 1 <= |stream|
    && stream[p] == types[y]
    && (types[y] <= 4 ==>
          stream[p + 1..p + 1 + n] == FilterRow(image[RowAt(y, n)..RowAt(y, n) + n], LastRow(image[..RowAt(y, n)], n), bytewidth, types[y]))
  }

  ghost predicate FilteredImage(stream: seq<Byte>, image: seq<Byte>, types: seq<Byte>, n: nat, bytewidth: nat, h: nat) {
    && |stream| == RowAt(h, n + 1) && |image| == RowAt(h, n) && |types| == h
    && forall y: nat {:trigger RowFiltered(stream, image, types, n, bytewidth, y)} ::
         y < h ==> RowFiltered(stream, image, types, n, bytewidth, y)
  }

  predicate LegalTypes(types: seq<Byte>) { forall y :: 0 <= y < |types| ==> types[y] <= 4 }

  lemma {:induction false} UnfilterRows(stream: seq<Byte>, image: seq<Byte>, types: seq<Byte>, n: nat, bytewidth: nat,
                                        h: nat, k: nat)
    requires FilteredImage(stream, image, types, n, bytewidth, h) && k <= h && bytewidth > 0
    ensures RowAt(k, n + 1) <= |stream| && RowAt(k, n) <= |image|
    ensures UnfilterImage(stream, n, bytewidth, k) == if LegalTypes(types[..k]) then Some(image[..RowAt(k, n)]) else None
  {
    hide RowAt, RowFiltered, UnfilterRow, FilterRow, LastRow;
    NextRow(0, n);
    NextRow(0, n + 1);
    if k > 0 {
      UnfilterRows(stream, image, types, n, bytewidth, h, k - 1);
      RowInside(k - 1, n + 1, h);
      RowInside(k - 1, n, h);
      NextRow(k - 1, n + 1);
      NextRow(k - 1, n);
      assert types[..k] == types[..k - 1] + [types[k - 1]];
      OneRowBack(stream, image, types, n, bytewidth, k - 1);
      if LegalTypes(types[..k]) {
        assert LegalTypes(types[..k - 1]);
        var y := k - 1;
        assert image[..RowAt(y, n)] + image[RowAt(y, n)..RowAt(y, n) + n] == image[..RowAt(k, n)];
      } else {
        assert !LegalTypes(types[..k - 1]) || types[k - 1] > 4;
      }
    }
  }

  lemma OneRowBack(stream: seq<Byte>, image: seq<Byte>, types: seq<Byte>, n: nat, bytewidth: nat, y: nat)
    requires RowFiltered(stream, image, types, n, bytewidth, y) && bytewidth > 0
    ensures y < |types| && RowAt(y, n) + n <= |image| && RowAt(y, n + 1) + n + 1 <= |stream| && stream[RowAt(y, n + 1)] == types[y]
    ensures types[y] <= 4 ==>
      UnfilterRow(stream[RowAt(y, n + 1) + 1..RowAt(y, n + 1) + 1 + n], LastRow(image[..RowAt(y, n)], n), bytewidth, types[y])
      == image[RowAt(y, n)..RowAt(y, n) + n]
  {
    UnfilterFilterRow(image[RowAt(y, n)..RowAt(y, n) + n], LastRow(image[..RowAt(y, n)], n), bytewidth, types[y]);
  }

  /** An image filtered row by row is given back if and only if every filter type is one of the five. */
  lemma UnfilterFilteredImage(stream: seq<Byte>, image: seq<Byte>, types: seq<Byte>, n: nat, bytewidth: nat, h: nat)
    requires FilteredImage(stream, image, types, n, bytewidth, h) && bytewidth > 0
    ensures UnfilterImage(stream, n, bytewidth, h) == if LegalTypes(types) then Some(image) else None
  {
    UnfilterRows(stream, image, types, n, bytewidth, h, h);
    assert types[..h] == types && image[..RowAt(h, n)] == image;
  }

  /** Row y by section 9.2 of the PNG specification: its type comes first, the row above is that of the image, zeros above the first row. */
  ghost predicate RowUndoes(stream: seq<Byte>, image: seq<Byte>, n: nat, bytewidth: nat, y: nat) {
    var p, at := RowAt(y, n + 1), RowAt(y, n);
    && p + n + 1 <= |stream| && at + n <= |image| && (y > 0 ==> n <= at)
    && stream[p] <= 4
    && Undoes(stream[p], bytewidth, stream[p + 1..p + 1 + n], image[at..at + n], if y == 0 then Copies<Byte>(0, n) else image[at - n..at])
  }

  ghost predicate AllUndo(stream: seq<Byte>, image: seq<Byte>, n: nat, bytewidth: nat, h: nat) {
    forall y: nat :: y < h ==> RowUndoes(stream, image, n, bytewidth, y)
  }

  lemma {:induction false} RowsUndone(stream: seq<Byte>, n: nat, bytewidth: nat, h: nat)
    requires bytewidth > 0 && RowAt(h, n + 1) <= |stream|
    ensures
      var r := UnfilterImage(stream, n, bytewidth, h);
      r.Some? ==> AllUndo(stream, r.value, n, bytewidth, h)
  {
    hide RowAt, UnfilterRow, Undoes;
    if h > 0 && UnfilterImage(stream, n, bytewidth, h).Some? {
      NextRow(h - 1, n + 1);
      RowsUndone(stream, n, bytewidth, h - 1);
      var done, image := UnfilterImage(stream, n, bytewidth, h - 1).value, UnfilterImage(stream, n, bytewidth, h).value;
      forall y: nat | y < h - 1 ensures RowUndoes(stream, image, n, bytewidth, y) { RowKept(stream, done, image, n, bytewidth, y); }
      LastUndone(stream, n, bytewidth, h, done, image);
    }
  }

  lemma RowKept(stream: seq<Byte>, done: seq<Byte>, image: seq<Byte>, n: nat, bytewidth: nat, y: nat)
    requires RowUndoes(stream, done, n, bytewidth, y) && done <= image
    ensures RowUndoes(stream, image, n, bytewidth, y)
  {
    hide RowAt, Undoes;
    var at := RowAt(y, n);
    assert image[at..at + n] == done[at..at + n];
    if y > 0 { assert image[at - n..at] == done[at - n..at]; }
  }

  lemma LastUndone(stream: seq<Byte>, n: nat, bytewidth: nat, h: nat, done: seq<Byte>, image: seq<Byte>)
    requires bytewidth > 0 && h > 0 && RowAt(h - 1, n + 1) + n + 1 <= |stream| && |done| == RowAt(h - 1, n)
    requires stream[RowAt(h - 1, n + 1)] <= 4
    requires
      var p := RowAt(h - 1, n + 1);
      image == done + UnfilterRow(stream[p + 1..p + 1 + n], LastRow(done, n), bytewidth, stream[p])
    ensures RowUndoes(stream, image, n, bytewidth, h - 1)
  {
    hide RowAt, UnfilterRow, Undoes;
    var p, at := RowAt(h - 1, n + 1), RowAt(h - 1, n);
    if h > 1 { NextRow(h - 2, n); } else { NextRow(0, n); }
    UnfilterUndoes(stream[p + 1..p + 1 + n], LastRow(done, n), bytewidth, stream[p]);
    assert image[at..at + n] == UnfilterRow(stream[p + 1..p + 1 + n], LastRow(done, n), bytewidth, stream[p]);
    if h > 1 { assert image[at - n..at] == LastRow(done, n); } else if n == 0 { assert LastRow(done, n) == Copies<Byte>(0, n); }
  }

  // ---- unfilter ----

  /** The rows before y are reconstructed at oo; the rest of the memory is as it was. */
  ghost predicate RowsDone(before: seq<Byte>, now: seq<Byte>, oo: nat, stream: seq<Byte>, n: nat, bytewidth: nat, y: nat) {
    && bytewidth > 0 && RowAt(y, n + 1) <= |stream|
    && var r := UnfilterImage(stream, n, bytewidth, y);
       r.Some? && Written(before, now, oo, r.value)
  }

  /** The row that unfilter works on next. */
  ghost function RowJob(now: seq<Byte>, oo: nat, stream: seq<Byte>, n: nat, bytewidth: nat, y: nat, done: seq<Byte>): Row
    requires RowAt(y, n + 1) + n + 1 <= |stream|
  {
    var p := RowAt(y, n + 1);
    Row(now, oo + RowAt(y, n), stream[p + 1..p + 1 + n], LastRow(done, n), bytewidth, stream[p])
  }

  /** The filtered row is still in the input when it is needed. */
  lemma RowStillThere(before: seq<Byte>, now: seq<Byte>, same: bool, oo: nat, input: seq<Byte>, io: nat,
                      stream: seq<Byte>, done: seq<Byte>, p: nat, n: nat)
    requires Written(before, now, oo, done) && p + n <= |stream| && io + |stream| <= |input|
    requires same ==> input == now && stream == before[io..io + |stream|] && oo + |done| <= io + p
    requires !same ==> stream == input[io..io + |stream|]
    ensures input[io + p..io + p + n] == stream[p..p + n]
  {
    hide Written;
    WrittenAt(before, now, oo, done);
    if same {
      assert now[io + p..io + p + n] == before[io + p..io + p + n];
      SliceOfSlice(before, io, |stream|, p, n);
    } else {
      SliceOfSlice(input, io, |stream|, p, n);
    }
  }

  /** The row before is in the output. */
  lemma RowBefore(before: seq<Byte>, now: seq<Byte>, oo: nat, done: seq<Byte>, n: nat)
    requires Written(before, now, oo, done) && 0 < n
    ensures |done| >= n ==> oo + |done| <= |now| && now[oo + |done| - n..oo + |done|] == LastRow(done, n)
    ensures |done| < n ==> LastRow(done, n) == Copies<Byte>(0, n)
  {
  }

  /** The parts of the next row's sources. */
  lemma JobSources(now: seq<Byte>, oo: nat, stream: seq<Byte>, n: nat, bytewidth: nat, y: nat, done: seq<Byte>,
                   same: bool, input: seq<Byte>, so: nat)
    requires bytewidth > 0 && RowAt(y, n + 1) + n + 1 <= |stream| && so + n <= |input| && oo + RowAt(y, n) + n <= |now|
    requires (same ==> oo + RowAt(y, n) <= so && input == now) && (y > 0 ==> n <= RowAt(y, n))
    requires input[so..so + n] == stream[RowAt(y, n + 1) + 1..RowAt(y, n + 1) + 1 + n]
    requires LastRow(done, n) == PrevLine(now, PrevStart(oo, y, n), n)
    ensures Sources(RowJob(now, oo, stream, n, bytewidth, y, done), same, input, so, PrevStart(oo, y, n))
  {
    hide RowAt, LastRow, PrevLine;
  }

  lemma RowSources(before: seq<Byte>, now: seq<Byte>, same: bool, oo: nat, input: seq<Byte>, io: nat,
                   stream: seq<Byte>, n: nat, bytewidth: nat, h: nat, y: nat)
    requires RowsDone(before, now, oo, stream, n, bytewidth, y) && y < h && |stream| == RowAt(h, n + 1) && n > 0
    requires io + |stream| <= |input| && oo + RowAt(h, n) <= |before|
    requires same ==> oo <= io && input == now && stream == before[io..io + |stream|]
    requires !same ==> stream == input[io..io + |stream|]
    ensures RowAt(y, n + 1) + n + 1 <= |stream| && io + RowAt(y, n + 1) + n + 1 <= |input| && oo + RowAt(y, n) + n <= |before|
    ensures input[io + RowAt(y, n + 1)] == stream[RowAt(y, n + 1)] && |now| == |before|
    ensures y > 0 ==> n <= RowAt(y, n)
    ensures
      var done := UnfilterImage(stream, n, bytewidth, y).value;
      Sources(RowJob(now, oo, stream, n, bytewidth, y, done), same, input, io + RowAt(y, n + 1) + 1, PrevStart(oo, y, n))
  {
    hide RowAt, UnfilterImage, Written, LastRow, Sources, RowJob, PrevLine, RowsDone;
    RowsDoneParts(before, now, oo, stream, n, bytewidth, y);
    var done := UnfilterImage(stream, n, bytewidth, y).value;
    RowInside(y, n + 1, h);
    RowInside(y, n, h);
    var p := RowAt(y, n + 1);
    if y > 0 { NextRow(y - 1, n); }
    BehindRows(y, n, oo, io, same);
    RowStillThere(before, now, same, oo, input, io, stream, done, p + 1, n);
    RowStillThere(before, now, same, oo, input, io, stream, done, p, 1);
    assert input[io + p] == input[io + p..io + p + 1][0] == stream[p..p + 1][0];
    PrevLineIs(before, now, oo, done, n, y);
    JobSources(now, oo, stream, n, bytewidth, y, done, same, input, io + p + 1);
  }

  lemma RowsDoneParts(before: seq<Byte>, now: seq<Byte>, oo: nat, stream: seq<Byte>, n: nat, bytewidth: nat, y: nat)
    requires RowsDone(before, now, oo, stream, n, bytewidth, y)
    ensures bytewidth > 0 && RowAt(y, n + 1) <= |stream|
    ensures
      var r := UnfilterImage(stream, n, bytewidth, y);
      r.Some? && |r.value| == RowAt(y, n) && Written(before, now, oo, r.value) && |now| == |before| && oo + |r.value| <= |now|
  {
    hide RowAt, UnfilterImage, Written;
    var done := UnfilterImage(stream, n, bytewidth, y).value;
    WrittenAt(before, now, oo, done);
    WrittenFits(before, now, oo, done);
  }

  lemma BehindRows(y: nat, n: nat, oo: nat, io: nat, same: bool)
    requires same ==> oo <= io
    ensures same ==> oo + RowAt(y, n) <= io + RowAt(y, n + 1)
  {
    hide RowAt;
    RowAtStep(y, n);
  }

  lemma PrevLineIs(before: seq<Byte>, now: seq<Byte>, oo: nat, done: seq<Byte>, n: nat, y: nat)
    requires Written(before, now, oo, done) && |now| == |before| && oo + |done| <= |now| && |done| == RowAt(y, n) && 0 < n
    requires y > 0 ==> n <= RowAt(y, n)
    ensures LastRow(done, n) == PrevLine(now, PrevStart(oo, y, n), n)
  {
    hide RowAt, Written;
    NextRow(0, n);
    RowBefore(before, now, oo, done, n);
  }

  lemma RowFinished(before: seq<Byte>, now: seq<Byte>, oo: nat, stream: seq<Byte>, n: nat, bytewidth: nat, y: nat)
    requires RowsDone(before, now, oo, stream, n, bytewidth, y) && RowAt(y, n + 1) + n + 1 <= |stream| && n > 0
    requires oo + RowAt(y, n) + n <= |before|
    ensures RowAt(y + 1, n + 1) <= |stream|
    ensures
      var r := RowJob(now, oo, stream, n, bytewidth, y, UnfilterImage(stream, n, bytewidth, y).value);
      && r.Valid()
      && (r.filterType <= 4 ==> RowsDone(before, r.After(), oo, stream, n, bytewidth, y + 1))
      && (r.filterType > 4 ==> UnfilterImage(stream, n, bytewidth, y + 1).None?)
  {
    hide RowAt, UnfilterRow, LastRow;
    NextRow(y, n + 1);
    var done := UnfilterImage(stream, n, bytewidth, y).value;
    var r := RowJob(now, oo, stream, n, bytewidth, y, done);
    WrittenAt(before, now, oo, done);
    if r.filterType <= 4 {
      AppendWritten(before, now, oo, done, r.Line());
    }
  }

  /** Once a row cannot be unfiltered, the image cannot. */
  lemma {:induction false} NoneStays(stream: seq<Byte>, n: nat, bytewidth: nat, k: nat, h: nat)
    requires bytewidth > 0 && k <= h && RowAt(h, n + 1) <= |stream|
    ensures RowAt(k, n + 1) <= |stream|
    ensures UnfilterImage(stream, n, bytewidth, k).None? ==> UnfilterImage(stream, n, bytewidth, h).None?
  {
    hide RowAt, UnfilterRow, LastRow;
    if k < h {
      NextRow(h - 1, n + 1);
      NoneStays(stream, n, bytewidth, k, h - 1);
    }
  }

  /** Reconstructs row y behind the rows before it. */
  method UnfilterNextRow(out: array<Byte>, oo: nat, inp: array<Byte>, io: nat, y: nat, linebytes: nat, bytewidth: nat,
                         prevline: Option<nat>, ghost h: nat, ghost before: seq<Byte>, ghost stream: seq<Byte>)
    returns (error: nat)
    requires 0 < bytewidth <= linebytes && y < h && |stream| == RowAt(h, linebytes + 1)
    requires RowsDone(before, out[..], oo, stream, linebytes, bytewidth, y)
    requires io + |stream| <= inp.Length && oo + RowAt(h, linebytes) <= |before| == out.Length
    requires out == inp ==> oo <= io && stream == before[io..io + |stream|]
    requires out != inp ==> stream == inp[io..io + |stream|]
    requires y > 0 ==> linebytes <= RowAt(y, linebytes)
    requires prevline == PrevStart(oo, y, linebytes)
    modifies out
    ensures RowAt(y + 1, linebytes + 1) <= |stream|
    ensures error == 0 ==> RowsDone(before, out[..], oo, stream, linebytes, bytewidth, y + 1)
    ensures error != 0 ==> error == 36 && UnfilterImage(stream, linebytes, bytewidth, y + 1).None?
  {
    hide RowAt, UnfilterImage, RowsDone, Written, Sources, Row.After, Row.Valid, LastRow;
    RowSources(before, out[..], out == inp, oo, inp[..], io, stream, linebytes, bytewidth, h, y);
    RowFinished(before, out[..], oo, stream, linebytes, bytewidth, y);
    AllRows(before, out[..], oo, stream, linebytes, bytewidth, y);
    var outindex := linebytes * y;
    var inindex := (1 + linebytes) * y;
    Offsets(y, linebytes);
    var filterType := inp[io + inindex];
    ghost var row := RowJob(out[..], oo, stream, linebytes, bytewidth, y,
                            UnfilterImage(stream, linebytes, bytewidth, y).value);
    error := UnfilterScanline(row, out, oo + outindex, inp, io + inindex + 1, prevline, bytewidth, filterType, linebytes);
  }

  /**
   * unfilter: error 36 exactly when a filter type is above 4, else the image, written at oo.
   * Output and input may be the same memory, the output not behind the input.
   */
  method Unfilter(out: array<Byte>, oo: nat, inp: array<Byte>, io: nat, w: nat, h: nat, bpp: nat)
    returns (error: nat, ghost image: seq<Byte>)
    requires bpp > 0 && (h > 0 ==> w > 0)
    requires io + RowAt(h, LineBytes(w, bpp) + 1) <= inp.Length && oo + RowAt(h, LineBytes(w, bpp)) <= out.Length
    requires out == inp ==> oo <= io
    modifies out
    ensures
      var n := LineBytes(w, bpp);
      var result := UnfilterImage(old(inp[io..io + RowAt(h, n + 1)]), n, ByteWidth(bpp), h);
      && error == (if result.Some? then 0 else 36)
      && (error == 0 ==> result == Some(image) && Written(old(out[..]), out[..], oo, image))
  {
    hide RowAt, UnfilterImage, RowsDone, Written, Sources, Row.After, Row.Valid, LineBytes;
    var bytewidth := ByteWidth(bpp);
    var linebytes := LineBytes(w, bpp);
    ghost var before, stream := out[..], inp[io..io + RowAt(h, linebytes + 1)];
    var prevline: Option<nat> := None;
    image := [];
    NoRows(before, oo, stream, linebytes, bytewidth);
    for y := 0 to h
      invariant RowAt(y, linebytes + 1) <= |stream| && RowsDone(before, out[..], oo, stream, linebytes, bytewidth, y)
      invariant y > 0 ==> linebytes <= RowAt(y, linebytes)
      invariant prevline == PrevStart(oo, y, linebytes)
    {
      ByteWidthFits(w, bpp);
      error := UnfilterNextRow(out, oo, inp, io, y, linebytes, bytewidth, prevline, h, before, stream);
      if error != 0 {
        NoneStays(stream, linebytes, bytewidth, y + 1, h);
        return;
      }
      Offsets(y, linebytes);
      prevline := Some(oo + linebytes * y);
      NextRow(y, linebytes);
    }
    error := 0;
    AllRows(before, out[..], oo, stream, linebytes, bytewidth, h);
    image := UnfilterImage(stream, linebytes, bytewidth, h).value;
  }

  lemma NoRows(before: seq<Byte>, oo: nat, stream: seq<Byte>, n: nat, bytewidth: nat)
    requires bytewidth > 0 && oo <= |before|
    ensures RowsDone(before, before, oo, stream, n, bytewidth, 0)
  {
    assert UnfilterImage(stream, n, bytewidth, 0) == Some([]);
  }

  lemma AllRows(before: seq<Byte>, now: seq<Byte>, oo: nat, stream: seq<Byte>, n: nat, bytewidth: nat, h: nat)
    requires RowsDone(before, now, oo, stream, n, bytewidth, h)
    ensures UnfilterImage(stream, n, bytewidth, h).Some?
    ensures Written(before, now, oo, UnfilterImage(stream, n, bytewidth, h).value)
  {
  }

  // ---- filter ----

  datatype FilterSettings = FilterSettings(strategy: FilterStrategy, filter_palette_zero: bool, predefined_filters: seq<Byte>)

  /** The strategy in force: no filtering for palette images and small bit depths, if the settings say so. */
  function InForce(settings: FilterSettings, palette: bool, bitdepth: nat): FilterStrategy {
    if settings.filter_palette_zero && (palette || bitdepth < 8) then Zero else settings.strategy
  }

  /** Which filter types a strategy may write. */
  ghost predicate TypesAllowed(strategy: FilterStrategy, predefined: seq<Byte>, types: seq<Byte>) {
    && (strategy != Predefined ==> LegalTypes(types))
    && (strategy == Zero ==> forall y :: 0 <= y < |types| ==> types[y] == 0)
    && (strategy == Predefined ==> types <= predefined)
  }

  lemma ExtendRowFiltered(stream: seq<Byte>, a: seq<Byte>, image: seq<Byte>, b: seq<Byte>, types: seq<Byte>, c: seq<Byte>,
                          n: nat, bytewidth: nat, y: nat)
    requires RowFiltered(stream, image, types, n, bytewidth, y)
    ensures RowFiltered(stream + a, image + b, types + c, n, bytewidth, y)
  {
    hide RowAt, LastRow, FilterRow;
    var p := RowAt(y, n + 1);
    var q := RowAt(y, n);
    assert (stream + a)[p + 1..p + 1 + n] == stream[p + 1..p + 1 + n];
    assert (image + b)[q..q + n] == image[q..q + n] && (image + b)[..q] == image[..q];
  }

  lemma AppendFiltered(stream: seq<Byte>, image: seq<Byte>, types: seq<Byte>, n: nat, bytewidth: nat, y: nat,
                       t: Byte, row: seq<Byte>, line: seq<Byte>)
    requires FilteredImage(stream, image, types, n, bytewidth, y) && |row| == n == |line|
    requires t <= 4 ==> row == FilterRow(line, LastRow(image, n), bytewidth, t)
    ensures FilteredImage(stream + [t] + row, image + line, types + [t], n, bytewidth, y + 1)
  {
    hide RowAt, RowFiltered, LastRow, FilterRow;
    NextRow(y, n);
    NextRow(y, n + 1);
    var s := stream + ([t] + row);
    assert s == stream + [t] + row;
    forall k: nat | k < y + 1 ensures RowFiltered(s, image + line, types + [t], n, bytewidth, k) {
      if k < y {
        ExtendRowFiltered(stream, [t] + row, image, line, types, [t], n, bytewidth, k);
      } else {
        NewRowFiltered(stream, image, types, n, bytewidth, y, t, row, line);
      }
    }
  }

  lemma NewRowFiltered(stream: seq<Byte>, image: seq<Byte>, types: seq<Byte>, n: nat, bytewidth: nat, y: nat,
                       t: Byte, row: seq<Byte>, line: seq<Byte>)
    requires |stream| == RowAt(y, n + 1) && |image| == RowAt(y, n) && |types| == y && |row| == n == |line|
    requires t <= 4 ==> row == FilterRow(line, LastRow(image, n), bytewidth, t)
    ensures RowFiltered(stream + ([t] + row), image + line, types + [t], n, bytewidth, y)
  {
    hide RowAt, LastRow, FilterRow;
    var s := stream + ([t] + row);
    assert s[|stream| + 1..|stream| + 1 + n] == row;
    assert (image + line)[|image|..|image| + n] == line && (image + line)[..|image|] == image;
  }

  /** What is done before row y: types, stream and memory. */
  ghost predicate Progress(before: seq<Byte>, now: seq<Byte>, oo: nat, image: seq<Byte>, stream: seq<Byte>,
                           types: seq<Byte>, n: nat, bytewidth: nat, y: nat) {
    && RowAt(y, n) <= |image| && Written(before, now, oo, stream)
    && FilteredImage(stream, image[..RowAt(y, n)], types, n, bytewidth, y)
  }

  /** The row that filter works on next: its bytes and the ones above. */
  ghost function LineJob(before: seq<Byte>, start: nat, image: seq<Byte>, n: nat, bytewidth: nat, y: nat, t: Byte): Row
    requires RowAt(y, n) + n <= |image|
  {
    Row(before, start, image[RowAt(y, n)..RowAt(y, n) + n], LastRow(image[..RowAt(y, n)], n), bytewidth, t)
  }

  lemma LineSources(mem: seq<Byte>, start: nat, input: seq<Byte>, io: nat, image: seq<Byte>, n: nat, bytewidth: nat, h: nat,
                    y: nat, t: Byte)
    requires y < h && |image| == RowAt(h, n) && io + |image| <= |input| && image == input[io..io + |image|]
    requires bytewidth > 0 && n > 0 && start + n <= |mem|
    ensures RowAt(y, n) + n <= |image| && (y > 0 ==> n <= RowAt(y, n))
    ensures Lines(LineJob(mem, start, image, n, bytewidth, y, t), input, io + RowAt(y, n), PrevStart(io, y, n))
  {
    hide RowAt;
    RowInside(y, n, h);
    var q := RowAt(y, n);
    SliceOfSlice(input, io, |image|, q, n);
    NextRow(0, n);
    if y > 0 {
      NextRow(y - 1, n);
      SliceOfSlice(input, io, |image|, q - n, n);
      assert image[..q][q - n..] == image[q - n..q];
    }
  }

  /** One more row written behind the stream. */
  lemma ProgressStep(before: seq<Byte>, now: seq<Byte>, after: seq<Byte>, oo: nat, image: seq<Byte>, stream: seq<Byte>,
                     types: seq<Byte>, n: nat, bytewidth: nat, y: nat, t: Byte, row: seq<Byte>)
    requires Progress(before, now, oo, image, stream, types, n, bytewidth, y)
    requires RowAt(y, n) + n <= |image| && |row| == n && oo + |stream| + 1 + n <= |before| == |now|
    requires t <= 4 ==>
      row == FilterRow(image[RowAt(y, n)..RowAt(y, n) + n], LastRow(image[..RowAt(y, n)], n), bytewidth, t)
    requires after == now[..oo + |stream|] + ([t] + row) + now[oo + |stream| + 1 + n..]
    ensures Progress(before, after, oo, image, stream + ([t] + row), types + [t], n, bytewidth, y + 1)
  {
    hide RowAt, RowFiltered, FilterRow, LastRow, Written;
    NextRow(y, n);
    var q := RowAt(y, n);
    AppendFiltered(stream, image[..q], types, n, bytewidth, y, t, row, image[q..q + n]);
    assert image[..q] + image[q..q + n] == image[..q + n];
    assert stream + [t] + row == stream + ([t] + row);
    AppendWritten(before, now, oo, stream, [t] + row);
  }

  /** Filters row y straight into the output: the loops of the zero and predefined strategies. */
  method FilterInto(out: array<Byte>, oo: nat, input: array<Byte>, io: nat, y: nat, linebytes: nat, bytewidth: nat,
                    prevline: Option<nat>, t: Byte, ghost h: nat, ghost before: seq<Byte>, ghost image: seq<Byte>,
                    ghost stream: seq<Byte>, ghost types: seq<Byte>)
    returns (ghost stream': seq<Byte>)
    requires out != input && 0 < bytewidth <= linebytes && y < h
    requires |image| == RowAt(h, linebytes) && io + |image| <= input.Length && image == input[io..io + |image|]
    requires |before| == out.Length && oo + RowAt(h, linebytes + 1) <= out.Length
    requires y > 0 ==> linebytes <= RowAt(y, linebytes)
    requires prevline == PrevStart(io, y, linebytes)
    requires Progress(before, out[..], oo, image, stream, types, linebytes, bytewidth, y)
    modifies out
    ensures Progress(before, out[..], oo, image, stream', types + [t], linebytes, bytewidth, y + 1)
  {
    hide RowAt, Progress, LastRow, FilterRow, Lines, AfterFilter;
    var outindex := (1 + linebytes) * y;
    var inindex := linebytes * y;
    Offsets(y, linebytes);
    ghost var now := out[..];
    ProgressLength(before, now, oo, image, stream, types, linebytes, bytewidth, y);
    RowInside(y, linebytes + 1, h);
    out[oo + outindex] := t;
    LineSources(out[..], oo + outindex + 1, input[..], io, image, linebytes, bytewidth, h, y, t);
    ghost var row := LineJob(out[..], oo + outindex + 1, image, linebytes, bytewidth, y, t);
    FilterScanline(row, out, oo + outindex + 1, input, io + inindex, prevline, linebytes, bytewidth, t);
    stream' := stream + ([t] + out[oo + outindex + 1..oo + outindex + 1 + linebytes]);
    RowAppended(before, now, out[..], oo, image, stream, types, linebytes, bytewidth, y, t, row);
  }

  /** A row filtered into the memory behind the stream. */
  lemma RowAppended(before: seq<Byte>, now: seq<Byte>, after: seq<Byte>, oo: nat, image: seq<Byte>, stream: seq<Byte>,
                    types: seq<Byte>, n: nat, bytewidth: nat, y: nat, t: Byte, row: Row)
    requires Progress(before, now, oo, image, stream, types, n, bytewidth, y) && RowAt(y, n) + n <= |image|
    requires row.Valid() && oo + |stream| + 1 + n <= |before| == |now| && row.before == now[oo + |stream| := t]
    requires row == LineJob(row.before, oo + |stream| + 1, image, n, bytewidth, y, t)
    requires after == if t <= 4 then AfterFilter(row) else row.before
    ensures |after| == |now|
    ensures
      var p := oo + |stream| + 1;
      Progress(before, after, oo, image, stream + ([t] + after[p..p + n]), types + [t], n, bytewidth, y + 1)
  {
    hide RowAt, Progress, LastRow, FilterRow, AfterFilter, Row.Valid;
    RowPut(now, oo + |stream|, t, row, after);
    ProgressStep(before, now, after, oo, image, stream, types, n, bytewidth, y, t, after[oo + |stream| + 1..oo + |stream| + 1 + n]);
  }

  lemma ProgressLength(before: seq<Byte>, now: seq<Byte>, oo: nat, image: seq<Byte>, stream: seq<Byte>,
                       types: seq<Byte>, n: nat, bytewidth: nat, y: nat)
    requires Progress(before, now, oo, image, stream, types, n, bytewidth, y)
    ensures |stream| == RowAt(y, n + 1) && |types| == y && |now| == |before|
  {
  }

  lemma FilteredSlice(r: Row)
    requires r.Valid()
    ensures AfterFilter(r)[r.start..r.start + |r.scan|] == FilterRow(r.scan, r.prev, r.bytewidth, r.filterType)
  {
  }

  /** A filter type and its row, as they stand in memory. */
  lemma RowPut(now: seq<Byte>, p: nat, t: Byte, r: Row, after: seq<Byte>)
    requires r.Valid() && p < |now| && r.before == now[p := t] && r.start == p + 1
    requires after == if r.filterType <= 4 then AfterFilter(r) else r.before
    ensures p + 1 + |r.scan| <= |now| == |after|
    ensures after == now[..p] + ([t] + after[p + 1..p + 1 + |r.scan|]) + now[p + 1 + |r.scan|..]
    ensures r.filterType <= 4 ==> after[p + 1..p + 1 + |r.scan|] == FilterRow(r.scan, r.prev, r.bytewidth, r.filterType)
  {
    hide FilterRow;
  }

  /** The first filter type whose row costs least. */
  ghost predicate LeastType(strategy: FilterStrategy, line: seq<Byte>, prev: seq<Byte>, bytewidth: nat, t: Byte)
    requires |line| == |prev|
  {
    t <= 4 && forall k: nat :: k <= 4 ==>
      var best, other := FilterCost(strategy, line, prev, bytewidth, t), FilterCost(strategy, line, prev, bytewidth, k);
      best <= other && (k < t ==> best < other)
  }

  ghost function FilterCost(strategy: FilterStrategy, line: seq<Byte>, prev: seq<Byte>, bytewidth: nat, t: nat): real
    requires |line| == |prev| && t <= 4
  {
    AttemptCost(strategy, FilterRow(line, prev, bytewidth, t), t)
  }

  /** Every row has the first filter type that costs least. */
  ghost predicate LeastTypes(strategy: FilterStrategy, image: seq<Byte>, types: seq<Byte>, n: nat, bytewidth: nat) {
    forall y: nat :: y < |types| && RowAt(y, n) + n <= |image| ==>
      LeastType(strategy, image[RowAt(y, n)..RowAt(y, n) + n], LastRow(image[..RowAt(y, n)], n), bytewidth, types[y])
  }

  /** The strategies that compare rows by a measure of their own. */
  predicate Weighs(strategy: FilterStrategy) { strategy == MinSum || strategy == Entropy }

  /** One filtering attempt, in a buffer of its own. */
  method Attempt(input: array<Byte>, so: nat, prevline: Option<nat>, linebytes: nat, bytewidth: nat, t: Byte,
                 ghost line: seq<Byte>, ghost prev: seq<Byte>)
    returns (attempt: seq<Byte>)
    requires 0 < bytewidth <= linebytes == |line| == |prev| && t <= 4
    requires forall mem: seq<Byte> ::
      |mem| == linebytes ==> Lines(Row(mem, 0, line, prev, bytewidth, t), input[..], so, prevline)
    ensures attempt == FilterRow(line, prev, bytewidth, t)
  {
    hide Lines, FilterRow;
    var buffer := new Byte[linebytes];
    ghost var row := Row(buffer[..], 0, line, prev, bytewidth, t);
    FilterScanline(row, buffer, 0, input, so, prevline, linebytes, bytewidth, t);
    attempt := buffer[..];
    FilteredSlice(row);
    assert attempt == attempt[0..linebytes];
  }

  /** Tries the five filters on a row and keeps the first one of least cost. */
  method LeastCost(strategy: FilterStrategy, input: array<Byte>, so: nat, prevline: Option<nat>, linebytes: nat, bytewidth: nat,
                   ghost line: seq<Byte>, ghost prev: seq<Byte>)
    returns (bestType: Byte, attempt: seq<Byte>)
    requires 0 < bytewidth <= linebytes == |line| == |prev|
    requires forall mem: seq<Byte>, t: nat ::
      |mem| == linebytes ==> Lines(Row(mem, 0, line, prev, bytewidth, t), input[..], so, prevline)
    ensures bestType <= 4 && LeastType(strategy, line, prev, bytewidth, bestType)
    ensures attempt == FilterRow(line, prev, bytewidth, bestType)
  {
    hide Lines, FilterRow, AttemptCost;
    bestType := 0;
    var smallest := 0.0;
    var attempts: seq<seq<Byte>> := [];
    for t := 0 to 5
      invariant |attempts| == t && bestType <= 4
      invariant forall k :: 0 <= k < t ==> attempts[k] == FilterRow(line, prev, bytewidth, k)
      invariant t > 0 ==> bestType < t && smallest == FilterCost(strategy, line, prev, bytewidth, bestType)
      invariant forall k: nat :: k < t ==>
        var other := FilterCost(strategy, line, prev, bytewidth, k);
        smallest <= other && (k < bestType ==> smallest < other)
    {
      var tried := Attempt(input, so, prevline, linebytes, bytewidth, t, line, prev);
      var cost := Measure(strategy, tried, t);
      attempts := attempts + [tried];
      if t == 0 || cost < smallest {
        bestType := t;
        smallest := cost;
      }
    }
    attempt := attempts[bestType];
  }

  lemma LineOf(input: seq<Byte>, io: nat, image: seq<Byte>, n: nat, bytewidth: nat, h: nat, y: nat)
    requires y < h && |image| == RowAt(h, n) && io + |image| <= |input| && image == input[io..io + |image|]
    requires bytewidth > 0 && n > 0
    ensures RowAt(y, n) + n <= |image| && (y > 0 ==> n <= RowAt(y, n))
    ensures
      var line, prev := image[RowAt(y, n)..RowAt(y, n) + n], LastRow(image[..RowAt(y, n)], n);
      forall mem: seq<Byte>, t: nat :: |mem| == n ==>
        Lines(Row(mem, 0, line, prev, bytewidth, t), input, io + RowAt(y, n), PrevStart(io, y, n))
  {
    hide RowAt, Lines, LastRow;
    RowInside(y, n, h);
    if y > 0 {
      NextRow(y - 1, n);
    }
    var line, prev := image[RowAt(y, n)..RowAt(y, n) + n], LastRow(image[..RowAt(y, n)], n);
    forall mem: seq<Byte>, t: nat | |mem| == n
      ensures Lines(Row(mem, 0, line, prev, bytewidth, t), input, io + RowAt(y, n), PrevStart(io, y, n))
    {
      AnyType(mem, input, io, image, n, bytewidth, h, y, t);
    }
  }

  lemma AnyType(mem: seq<Byte>, input: seq<Byte>, io: nat, image: seq<Byte>, n: nat, bytewidth: nat, h: nat, y: nat, t: nat)
    requires y < h && |image| == RowAt(h, n) && io + |image| <= |input| && image == input[io..io + |image|]
    requires bytewidth > 0 && n == |mem| > 0
    ensures RowAt(y, n) + n <= |image| && (y > 0 ==> n <= RowAt(y, n))
    ensures Lines(Row(mem, 0, image[RowAt(y, n)..RowAt(y, n) + n], LastRow(image[..RowAt(y, n)], n), bytewidth, t),
                  input, io + RowAt(y, n), PrevStart(io, y, n))
  {
    hide RowAt, LastRow;
    LineSources(mem, 0, input, io, image, n, bytewidth, h, y, 0);
  }

  /** Copies a chosen attempt into the output, after its filter type. */
  method StoreAttempt(out: array<Byte>, start: nat, t: Byte, attempt: seq<Byte>)
    requires start + 1 + |attempt| <= out.Length
    modifies out
    ensures out[..] == old(out[..start]) + ([t] + attempt) + old(out[start + 1 + |attempt|..])
  {
    hide Written;
    ghost var before := out[..];
    out[start] := t;
    WrittenFirst(before, out[..], start, t);
    assert [t] + attempt[..0] == [t];
    for x := 0 to |attempt|
      invariant Written(before, out[..], start, [t] + attempt[..x])
    {
      ghost var now := out[..];
      WrittenStep(before, now, start, [t] + attempt[..x], attempt[x]);
      assert [t] + attempt[..x] + [attempt[x]] == [t] + attempt[..x + 1];
      out[start + 1 + x] := attempt[x];
      assert out[..] == now[start + 1 + x := attempt[x]];
    }
    assert attempt[..|attempt|] == attempt;
    WrittenIs(before, out[..], start, [t] + attempt);
  }

  lemma LeastTypesPush(strategy: FilterStrategy, image: seq<Byte>, types: seq<Byte>, t: Byte, n: nat, bytewidth: nat, y: nat)
    requires RowAt(y, n) + n <= |image|
    requires LeastType(strategy, image[RowAt(y, n)..RowAt(y, n) + n], LastRow(image[..RowAt(y, n)], n), bytewidth, t)
    ensures |types| == y && LeastTypes(strategy, image, types, n, bytewidth) ==> LeastTypes(strategy, image, types + [t], n, bytewidth)
  {
    hide RowAt, LastRow, LeastType;
  }

  /** Filters row y by trying: the loops of the minimum sum, entropy and brute force strategies. */
  method FilterAdaptive(out: array<Byte>, oo: nat, input: array<Byte>, io: nat, y: nat, linebytes: nat, bytewidth: nat,
                        prevline: Option<nat>, strategy: FilterStrategy, ghost h: nat, ghost before: seq<Byte>,
                        ghost image: seq<Byte>, ghost stream: seq<Byte>, ghost types: seq<Byte>)
    returns (ghost stream': seq<Byte>, t: Byte)
    requires out != input && 0 < bytewidth <= linebytes && y < h
    requires |image| == RowAt(h, linebytes) && io + |image| <= input.Length && image == input[io..io + |image|]
    requires |before| == out.Length && oo + RowAt(h, linebytes + 1) <= out.Length
    requires y > 0 ==> linebytes <= RowAt(y, linebytes)
    requires prevline == PrevStart(io, y, linebytes)
    requires Progress(before, out[..], oo, image, stream, types, linebytes, bytewidth, y)
    modifies out
    ensures t <= 4 && Progress(before, out[..], oo, image, stream', types + [t], linebytes, bytewidth, y + 1)
    ensures Weighs(strategy) && |types| == y && LeastTypes(strategy, image, types, linebytes, bytewidth) ==>
      LeastTypes(strategy, image, types + [t], linebytes, bytewidth)
  {
    hide RowAt, Progress, LastRow, FilterRow, Lines, LeastType, LeastTypes;
    var outindex := y * (linebytes + 1);
    var inindex := y * linebytes;
    Offsets(y, linebytes);
    ghost var now := out[..];
    ProgressLength(before, now, oo, image, stream, types, linebytes, bytewidth, y);
    RowInside(y, linebytes + 1, h);
    LineOf(input[..], io, image, linebytes, bytewidth, h, y);
    ghost var line, prev := image[RowAt(y, linebytes)..RowAt(y, linebytes) + linebytes], LastRow(image[..RowAt(y, linebytes)], linebytes);
    var attempt;
    if Weighs(strategy) {
      t, attempt := LeastCost(strategy, input, io + inindex, prevline, linebytes, bytewidth, line, prev);
      LeastTypesPush(strategy, image, types, t, linebytes, bytewidth, y);
    } else {
      // The sizes that brute force compares are left open: it may keep any attempt.
      t :| 0 <= t <= 4;
      attempt := Attempt(input, io + inindex, prevline, linebytes, bytewidth, t, line, prev);
    }
    StoreAttempt(out, oo + outindex, t, attempt);
    stream' := stream + ([t] + attempt);
    ProgressStep(before, now, out[..], oo, image, stream, types, linebytes, bytewidth, y, t, attempt);
  }

  /** filter: every strategy leaves a stream of filtered rows; only a predefined one may hold types above 4. */
  method Filter(out: array<Byte>, oo: nat, input: array<Byte>, io: nat, w: nat, h: nat, bpp: nat,
                palette: bool, bitdepth: nat, settings: FilterSettings)
    returns (error: nat, ghost types: seq<Byte>)
    requires out != input && (h > 0 ==> w > 0)
    requires io + RowAt(h, LineBytes(w, bpp)) <= input.Length && oo + RowAt(h, LineBytes(w, bpp) + 1) <= out.Length
    requires InForce(settings, palette, bitdepth) == Predefined ==> h <= |settings.predefined_filters|
    modifies out
    ensures error ==
      if bpp == 0 then 31 else if InForce(settings, palette, bitdepth) == UnknownStrategy then 88 else 0
    ensures error == 0 ==>
      var n := LineBytes(w, bpp);
      var stream := out[oo..oo + RowAt(h, n + 1)];
      && Written(old(out[..]), out[..], oo, stream)
      && FilteredImage(stream, input[io..io + RowAt(h, n)], types, n, ByteWidth(bpp), h)
      && TypesAllowed(InForce(settings, palette, bitdepth), settings.predefined_filters, types)
      && (Weighs(InForce(settings, palette, bitdepth)) ==>
            LeastTypes(InForce(settings, palette, bitdepth), input[io..io + RowAt(h, n)], types, n, ByteWidth(bpp)))
  {
    hide RowAt, Progress, LineBytes, FilteredImage, Written, LeastType;
    var linebytes := LineBytes(w, bpp);
    var bytewidth := ByteWidth(bpp);
    var strategy := InForce(settings, palette, bitdepth);
    var prevline: Option<nat> := None;
    types := [];
    if bpp == 0 { return 31, []; }
    if strategy == UnknownStrategy { return 88, []; }
    ghost var before := out[..];
    ghost var image := input[io..io + RowAt(h, linebytes)];
    ghost var stream: seq<Byte> := [];
    ProgressStart(before, oo, image, linebytes, bytewidth);
    for y := 0 to h
      invariant |types| == y && TypesAllowed(strategy, settings.predefined_filters, types)
      invariant Progress(before, out[..], oo, image, stream, types, linebytes, bytewidth, y)
      invariant Weighs(strategy) ==> LeastTypes(strategy, image, types, linebytes, bytewidth)
      invariant y > 0 ==> linebytes <= RowAt(y, linebytes)
      invariant prevline == PrevStart(io, y, linebytes)
    {
      ByteWidthFits(w, bpp);
      var t: Byte := 0;
      if strategy == Zero || strategy == Predefined {
        if strategy == Predefined { t := settings.predefined_filters[y]; }
        stream := FilterInto(out, oo, input, io, y, linebytes, bytewidth, prevline, t, h, before, image, stream, types);
      } else {
        stream, t := FilterAdaptive(out, oo, input, io, y, linebytes, bytewidth, prevline, strategy, h, before, image, stream, types);
      }
      types := types + [t];
      Offsets(y, linebytes);
      NextRow(y, linebytes);
      prevline := Some(io + linebytes * y);
    }
    error := 0;
    ProgressEnd(before, out[..], oo, image, stream, types, linebytes, bytewidth, h);
  }

  lemma ProgressStart(before: seq<Byte>, oo: nat, image: seq<Byte>, n: nat, bytewidth: nat)
    requires oo <= |before|
    ensures Progress(before, before, oo, image, [], [], n, bytewidth, 0)
  {
    NextRow(0, n);
    NextRow(0, n + 1);
  }

  lemma ProgressEnd(before: seq<Byte>, now: seq<Byte>, oo: nat, image: seq<Byte>, stream: seq<Byte>,
                    types: seq<Byte>, n: nat, bytewidth: nat, h: nat)
    requires Progress(before, now, oo, image, stream, types, n, bytewidth, h) && |image| == RowAt(h, n)
    requires oo + RowAt(h, n + 1) <= |now|
    ensures now[oo..oo + RowAt(h, n + 1)] == stream && Written(before, now, oo, stream)
    ensures FilteredImage(stream, image, types, n, bytewidth, h)
  {
    assert image[..RowAt(h, n)] == image;
  }
}
