/** Lane masks of a wavefront: ranks, and the search for the n-th set lane. */
module LaneMask {

  /** One bit per lane. */
  type Mask = seq<bool>

  /** The number of set lanes below `lane` (the masked bit count of lane `lane`). */
  function Rank(mask: Mask, lane: nat): (r: nat)
    requires lane <= |mask|
    ensures r <= lane
  {
    if lane == 0 then 0 else Rank(mask, lane - 1) + if mask[lane - 1] then 1 else 0
  }

  function Size(mask: Mask): nat {
    Rank(mask, |mask|)
  }

  lemma {:induction false} RankMonotone(mask: Mask, a: nat, b: nat)
    requires a <= b <= |mask|
    ensures Rank(mask, a) <= Rank(mask, b)
    ensures a < b && mask[a] ==> Rank(mask, a) < Rank(mask, b)
    decreases b - a
  {
    if a < b {
      RankMonotone(mask, a + 1, b);
    }
  }

  /** The `n`-th set lane from `base` upwards, or -1: `__fns` with a positive count. */
  function FindUp(mask: Mask, base: nat, n: nat): (lane: int)
    requires base <= |mask| && n > 0
    ensures lane == -1 <==> Size(mask) < Rank(mask, base) + n
    ensures lane != -1 ==> base <= lane < |mask| && mask[lane]
    ensures lane != -1 ==> Rank(mask, lane) == Rank(mask, base) + n - 1
    decreases |mask| - base
  {
    if base == |mask| then -1
    else if !mask[base] then FindUp(mask, base + 1, n)
    else if n == 1 then
      RankMonotone(mask, base, |mask|);
      base
    else FindUp(mask, base + 1, n - 1)
  }

  /** The `n`-th set lane below `end`, counted downwards, or -1: `__fns` with the negative count
    * `-n`, whose base lane is `end - 1`. */
  function FindDown(mask: Mask, end: nat, n: nat): (lane: int)
    requires end <= |mask| && n > 0
    ensures lane == -1 <==> Rank(mask, end) < n
    ensures lane != -1 ==> 0 <= lane < end && mask[lane]
    ensures lane != -1 ==> Rank(mask, lane) == Rank(mask, end) - n
  {
    if end == 0 then -1
    else if !mask[end - 1] then FindDown(mask, end - 1, n)
    else if n == 1 then end - 1
    else FindDown(mask, end - 1, n - 1)
  }

  /** `__thread_rank_to_lane_id`. */
  function RankToLane(mask: Mask, i: int): int {
    if i < 0 || i >= Size(mask) then -1
    else if Size(mask) == |mask| then i
    else FindUp(mask, 0, i + 1)
  }

  lemma {:induction false} FullMaskRanks(mask: Mask, lane: nat)
    requires lane <= |mask| && Size(mask) == |mask|
    ensures Rank(mask, lane) == lane
    ensures lane < |mask| ==> mask[lane]
    decreases |mask| - lane
  {
    if lane < |mask| {
      FullMaskRanks(mask, lane + 1);
    }
  }

  /** Two set lanes of equal rank are the same lane. */
  lemma RankInjective(mask: Mask, a: nat, b: nat)
    requires a < |mask| && b < |mask| && mask[a] && mask[b]
    requires Rank(mask, a) == Rank(mask, b)
    ensures a == b
  {
    if a < b {
      RankMonotone(mask, a, b);
    } else if b < a {
      RankMonotone(mask, b, a);
    }
  }

  /** Every rank below the size belongs to a set lane, and reading its rank gives it back. */
  lemma LaneOfRank(mask: Mask, i: nat)
    requires i < Size(mask)
    ensures 0 <= RankToLane(mask, i) < |mask| && mask[RankToLane(mask, i)]
    ensures Rank(mask, RankToLane(mask, i)) == i
  {
    if Size(mask) == |mask| {
      FullMaskRanks(mask, i);
    }
  }

  /** The other direction: the lane of a set lane's rank is that lane. */
  lemma RankOfLane(mask: Mask, lane: nat)
    requires lane < |mask| && mask[lane]
    ensures Rank(mask, lane) < Size(mask) && RankToLane(mask, Rank(mask, lane)) == lane
  {
    RankMonotone(mask, lane, |mask|);
    LaneOfRank(mask, Rank(mask, lane));
    RankInjective(mask, lane, RankToLane(mask, Rank(mask, lane)));
  }

  /** Ranks order the set lanes as their numbers do, in both directions. */
  lemma RankToLaneMonotone(mask: Mask, i: nat, j: nat)
    requires i < Size(mask) && j < Size(mask)
    ensures i < j <==> RankToLane(mask, i) < RankToLane(mask, j)
  {
    LaneOfRank(mask, i);
    LaneOfRank(mask, j);
    var a, b := RankToLane(mask, i), RankToLane(mask, j);
    if a < b {
      RankMonotone(mask, a, b);
    } else {
      RankMonotone(mask, b, a);
    }
  }

  /** A rank that names no lane yields -1, and only such a rank does. */
  lemma NoLane(mask: Mask, i: int)
    ensures RankToLane(mask, i) == -1 <==> i < 0 || i >= Size(mask)
  {
    if 0 <= i < Size(mask) {
      LaneOfRank(mask, i);
    }
  }

  /** The registers of the set lanes in rank order. */
  function Gather<T>(mask: Mask, regs: seq<T>): (s: seq<T>)
    requires |regs| == |mask|
    ensures |s| == Size(mask)
    ensures forall i :: 0 <= i < |s| ==>
      0 <= RankToLane(mask, i) < |mask| && s[i] == regs[RankToLane(mask, i)]
  {
    seq(Size(mask), i requires 0 <= i < Size(mask) => LaneOfRank(mask, i); regs[RankToLane(mask, i)])
  }

  lemma GatherAtLane<T>(mask: Mask, regs: seq<T>, lane: nat)
    requires |regs| == |mask| && lane < |mask| && mask[lane]
    ensures Rank(mask, lane) < Size(mask) && Gather(mask, regs)[Rank(mask, lane)] == regs[lane]
  {
    RankOfLane(mask, lane);
  }

  /** Under a full mask the rank order is the lane order. */
  lemma GatherFull<T>(mask: Mask, regs: seq<T>)
    requires |regs| == |mask| && Size(mask) == |mask|
    ensures Gather(mask, regs) == regs
  {
  }
}
