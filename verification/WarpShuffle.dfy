/** Shuffles of a wavefront, and the mask-local shuffles built on them. A shuffle that reads a
  * lane outside the wavefront, or one that does not take part, delivers an arbitrary value. */
module WarpShuffle {
  import opened Bits
  import opened LaneMask

  /** `__shfl` over the full width: the value of lane `src` if that lane takes part. */
  function Shfl<T>(active: Mask, regs: seq<T>, src: int, garbage: T): T
    requires |active| == |regs|
  {
    if 0 <= src < |regs| && active[src] then regs[src] else garbage
  }

  /** `__shfl_down` over the full width. */
  function ShflDown<T>(active: Mask, regs: seq<T>, lane: nat, delta: nat, garbage: T): T
    requires |active| == |regs| && lane < |regs|
  {
    Shfl(active, regs, if lane + delta >= |regs| then lane else lane + delta, garbage)
  }

  /** `__shfl_up` over the full width. */
  function ShflUp<T>(active: Mask, regs: seq<T>, lane: nat, delta: nat, garbage: T): T
    requires |active| == |regs| && lane < |regs|
  {
    Shfl(active, regs, if lane < delta then lane else lane - delta, garbage)
  }

  /** `__shfl_xor` over the full width, when every lane takes part. */
  function ShflXor<T>(regs: seq<T>, lane: nat, laneMask: nat): T
    requires lane < |regs|
  {
    var src := Xor(lane, laneMask);
    if src >= |regs| then regs[lane] else regs[src]
  }

  /** The remainder that `__shfl_local_sync` takes: `src` is converted to 32 unsigned bits. */
  function LocalRank(src: int, size: nat): nat
    requires size > 0
  {
    src % TWO_32 % size
  }

  function ShflLocal<T>(mask: Mask, regs: seq<T>, src: int, garbage: T): T
    requires |mask| == |regs| && Size(mask) > 0
  {
    var rank := LocalRank(src, Size(mask));
    var lane := if Size(mask) == |mask| then rank else FindUp(mask, 0, rank + 1);
    Shfl(mask, regs, lane, garbage)
  }

  function ShflDownLocal<T>(mask: Mask, regs: seq<T>, lane: nat, delta: nat, garbage: T): T
    requires |mask| == |regs| && lane < |mask| && mask[lane]
  {
    if Size(mask) == |mask| then ShflDown(mask, regs, lane, delta, garbage)
    else
      var found := FindUp(mask, lane, delta + 1);
      Shfl(mask, regs, if found == -1 then lane else found, garbage)
  }

  function ShflUpLocal<T>(mask: Mask, regs: seq<T>, lane: nat, delta: nat, garbage: T): T
    requires |mask| == |regs| && lane < |mask| && mask[lane]
  {
    if Size(mask) == |mask| then ShflUp(mask, regs, lane, delta, garbage)
    else
      var found := FindDown(mask, lane + 1, delta + 1);
      Shfl(mask, regs, if found == -1 then lane else found, garbage)
  }

  // ---------------------------------------------------------------- one lane's view

  /** Down by `delta` reads the rank `delta` higher, or the lane's own value past the last rank;
    * whatever an invalid shuffle would deliver never shows. */
  lemma DownReadsHigherRank<T>(mask: Mask, regs: seq<T>, lane: nat, delta: nat, garbage: T)
    requires |mask| == |regs| && lane < |mask| && mask[lane]
    ensures var s, r := Gather(mask, regs), Rank(mask, lane);
      r < |s| && ShflDownLocal(mask, regs, lane, delta, garbage)
                 == if r + delta < |s| then s[r + delta] else s[r]
  {
    GatherAtLane(mask, regs, lane);
    if Size(mask) == |mask| {
      FullMaskRanks(mask, lane);
      if lane + delta < |mask| {
        FullMaskRanks(mask, lane + delta);
      }
    } else {
      var found := FindUp(mask, lane, delta + 1);
      if found != -1 {
        GatherAtLane(mask, regs, found);
      }
    }
  }

  /** Up by `delta` reads the rank `delta` lower, or the lane's own value before the first. */
  lemma UpReadsLowerRank<T>(mask: Mask, regs: seq<T>, lane: nat, delta: nat, garbage: T)
    requires |mask| == |regs| && lane < |mask| && mask[lane]
    ensures var s, r := Gather(mask, regs), Rank(mask, lane);
      r < |s| && ShflUpLocal(mask, regs, lane, delta, garbage)
                 == if r < delta then s[r] else s[r - delta]
  {
    GatherAtLane(mask, regs, lane);
    if Size(mask) == |mask| {
      FullMaskRanks(mask, lane);
      if delta <= lane {
        FullMaskRanks(mask, lane - delta);
      }
    } else {
      var found := FindDown(mask, lane + 1, delta + 1);
      if found != -1 {
        GatherAtLane(mask, regs, found);
      }
    }
  }

  /** The mask-local shuffle reads a rank of the mask, whatever `src` is. */
  lemma LocalReadsRank<T>(mask: Mask, regs: seq<T>, src: int, garbage: T)
    requires |mask| == |regs| && Size(mask) > 0
    ensures ShflLocal(mask, regs, src, garbage)
         == Gather(mask, regs)[LocalRank(src, Size(mask))]
  {
    var rank := LocalRank(src, Size(mask));
    LaneOfRank(mask, rank);
  }

  /** A negative source goes through the unsigned conversion. */
  lemma NegativeSource(src: int, size: int)
    requires 0 - TWO_32 <= src < 0 < size
    ensures LocalRank(src, size) == (src + TWO_32) % size
  {
    assert src % TWO_32 == src + TWO_32;
  }

  lemma DividingSizeWraps(size: int, src: int)
    requires 0 - TWO_32 <= src < 0 < size && TWO_32 % size == 0
    ensures LocalRank(src, size) == src % size
  {
    NegativeSource(src, size);
    AddMultiple(src, TWO_32 / size, size);
  }

  lemma OtherSizesDoNot(size: int)
    requires 0 < size <= 64 && TWO_32 % size != 0
    ensures LocalRank(0 - size, size) != (0 - size) % size
  {
    NegativeSource(0 - size, size);
    AddMultiple(TWO_32, -1, size);
    AddMultiple(0, -1, size);
  }

  /** For a source that is not negative the rank is the plain remainder. A negative source wraps
    * to the floored remainder for every `src` exactly when the mask's size divides 2^32. */
  lemma LocalRankWraps(size: int)
    requires 0 < size <= 64
    ensures forall src: nat :: src < TWO_32 / 2 ==> LocalRank(src, size) == src % size
    ensures (forall src: int :: 0 - TWO_32 / 2 <= src < 0 ==> LocalRank(src, size) == src % size)
       <==> TWO_32 % size == 0
  {
    if TWO_32 % size == 0 {
      forall src: int | 0 - TWO_32 / 2 <= src < 0
        ensures LocalRank(src, size) == src % size
      {
        DividingSizeWraps(size, src);
      }
    } else {
      OtherSizesDoNot(size);
    }
  }

  // ---------------------------------------------------------------- the whole wavefront

  /** All lanes of the mask shuffle down together; the other lanes keep their registers. */
  function DownAll<T>(mask: Mask, regs: seq<T>, delta: nat, garbage: nat -> T): (r: seq<T>)
    requires |mask| == |regs|
    ensures |r| == |mask|
  {
    seq(|mask|, lane requires 0 <= lane < |mask| =>
      if mask[lane] then ShflDownLocal(mask, regs, lane, delta, garbage(lane)) else regs[lane])
  }

  function UpAll<T>(mask: Mask, regs: seq<T>, delta: nat, garbage: nat -> T): (r: seq<T>)
    requires |mask| == |regs|
    ensures |r| == |mask|
  {
    seq(|mask|, lane requires 0 <= lane < |mask| =>
      if mask[lane] then ShflUpLocal(mask, regs, lane, delta, garbage(lane)) else regs[lane])
  }

  lemma DownShiftsRanks<T>(mask: Mask, regs: seq<T>, delta: nat, garbage: nat -> T, i: nat)
    requires |mask| == |regs| && i < Size(mask)
    ensures var s := Gather(mask, regs);
      Gather(mask, DownAll(mask, regs, delta, garbage))[i] == if i + delta < |s| then s[i + delta] else s[i]
  {
    LaneOfRank(mask, i);
    var lane := RankToLane(mask, i);
    DownReadsHigherRank(mask, regs, lane, delta, garbage(lane));
  }

  lemma UpShiftsRanks<T>(mask: Mask, regs: seq<T>, delta: nat, garbage: nat -> T, i: nat)
    requires |mask| == |regs| && i < Size(mask)
    ensures var s := Gather(mask, regs);
      Gather(mask, UpAll(mask, regs, delta, garbage))[i] == if i < delta then s[i] else s[i - delta]
  {
    LaneOfRank(mask, i);
    var lane := RankToLane(mask, i);
    UpReadsLowerRank(mask, regs, lane, delta, garbage(lane));
  }

  /** On the values in rank order, down is a shift towards rank 0 and up a shift away from it. */
  lemma LocalShufflesShiftRanks<T>(mask: Mask, regs: seq<T>, delta: nat, garbage: nat -> T, i: nat)
    requires |mask| == |regs| && i < Size(mask)
    ensures var s := Gather(mask, regs);
      && Gather(mask, DownAll(mask, regs, delta, garbage))[i]
         == (if i + delta < |s| then s[i + delta] else s[i])
      && Gather(mask, UpAll(mask, regs, delta, garbage))[i]
         == (if i < delta then s[i] else s[i - delta])
  {
    DownShiftsRanks(mask, regs, delta, garbage, i);
    UpShiftsRanks(mask, regs, delta, garbage, i);
  }

  /** Shuffling down and then up by the same distance restores every rank on which neither
    * shuffle falls back to the lane's own value. */
  lemma UpAfterDown<T>(mask: Mask, regs: seq<T>, delta: nat, g: nat -> T, h: nat -> T, i: nat)
    requires |mask| == |regs| && delta <= i < Size(mask)
    ensures Gather(mask, UpAll(mask, DownAll(mask, regs, delta, g), delta, h))[i]
         == Gather(mask, regs)[i]
  {
    UpShiftsRanks(mask, DownAll(mask, regs, delta, g), delta, h, i);
    DownShiftsRanks(mask, regs, delta, g, i - delta);
  }
}
