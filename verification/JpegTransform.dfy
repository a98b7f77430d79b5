/** From the coefficients that the decoder left in its slots to samples (compositor/jpgd.cpp:1495-1506). */
module JpegTransform {
  import opened Bits
  import opened Memory
  import opened JpegZigzag
  import opened JpegBlockDecode
  import opened JpegScan
  import opened JpegIdct

  function SlotOf(p: seq<int>, slot: nat): (block: seq<int>)
    requires 64 * slot + 64 <= |p|
    ensures |block| == 64
  {
    p[64 * slot..64 * slot + 64]
  }

  /** What the decoder keeps about a slot, partly cleared as it is, is what the sparse transform relies on. */
  lemma SlotIsSparse(p: seq<int>, slot: nat, max_zag: nat)
    requires SlotOk(p, slot, max_zag) && 64 * slot + 64 <= |p|
    ensures 1 <= max_zag <= 64 && Sparse(SlotOf(p, slot), max_zag)
  {
    hide Zag;
  }

  /** The slots before k are transformed, into consecutive groups of 64 samples. */
  ghost predicate SlotsDone(p: seq<int>, samples: seq<Byte>, at: nat, k: nat) {
    && 64 * k <= |p| && at + 64 * k <= |samples|
    && forall slot: nat {:trigger SlotOf(p, slot)} :: slot < k ==>
         Transformed(SlotOf(p, slot), samples[at + 64 * slot..at + 64 * slot + 64])
  }

  lemma OneMoreSlot(p: seq<int>, before: seq<Byte>, now: seq<Byte>, at: nat, k: nat)
    requires SlotsDone(p, before, at, k) && 64 * k + 64 <= |p| && BlockDone(before, now, at + 64 * k, SlotOf(p, k))
    ensures SlotsDone(p, now, at, k + 1)
  {
    hide Transformed, SlotOf;
    forall slot: nat | slot < k ensures now[at + 64 * slot..at + 64 * slot + 64] == before[at + 64 * slot..at + 64 * slot + 64] {
      var n := at + 64 * k;
      assert now[..n] == now[0..0 + n] && before[..n] == before[0..0 + n];
      SliceOfSlice(now, 0, n, at + 64 * slot, 64);
      SliceOfSlice(before, 0, n, at + 64 * slot, 64);
    }
  }

  /** transform_mcu: every slot of the MCU goes through the full transform, the rest of the samples stays as it is. */
  method TransformMcu(coefficients: array<int>, max_zag: array<nat>, samples: array<Byte>, at: nat)
    requires SlotsOk(coefficients[..], max_zag[..]) && at + coefficients.Length <= samples.Length
    modifies samples
    ensures SlotsDone(coefficients[..], samples[..], at, max_zag.Length)
    ensures samples[..at] == old(samples[..at]) && samples[at + coefficients.Length..] == old(samples[at + coefficients.Length..])
  {
    hide SlotOk, Sparse, BlockDone, SlotsDone, SlotOf;
    ghost var p, start := coefficients[..], samples[..];
    NoSlots(p, start, at);
    for mcu_block := 0 to max_zag.Length
      invariant coefficients[..] == p && SlotsDone(p, samples[..], at, mcu_block)
      invariant |start| == samples.Length && samples[..at] == start[..at]
      invariant samples[at + coefficients.Length..] == start[at + coefficients.Length..]
    {
      SlotAt(p, max_zag[..], mcu_block);
      SlotIsSparse(p, mcu_block, max_zag[mcu_block]);
      ghost var before := samples[..];
      Idct(SlotOf(coefficients[..], mcu_block), samples, at + 64 * mcu_block, max_zag[mcu_block]);
      OneMoreSlot(p, before, samples[..], at, mcu_block);
      OutsideKept(before, samples[..], at + 64 * mcu_block, SlotOf(p, mcu_block), at, at + coefficients.Length);
    }
  }

  lemma NoSlots(p: seq<int>, samples: seq<Byte>, at: nat)
    requires at <= |samples|
    ensures SlotsDone(p, samples, at, 0)
  {
  }

  lemma OutsideKept(before: seq<Byte>, now: seq<Byte>, base: nat, block: seq<int>, from: nat, to: nat)
    requires BlockDone(before, now, base, block) && from <= base && base + 64 <= to <= |now|
    ensures |now| == |before| && now[..from] == before[..from] && now[to..] == before[to..]
  {
    hide Transformed;
    assert now[..from] == now[..base][..from] && before[..from] == before[..base][..from];
    assert now[to..] == now[base + 64..][to - base - 64..] && before[to..] == before[base + 64..][to - base - 64..];
  }
}
