/** Reductions over the lanes of a mask. */
module WarpReduce {
  import opened Bits
  import opened Wrappers
  import opened LaneMask
  import opened WarpShuffle

  ghost predicate AssociativeAt<T>(op: (T, T) -> T, x: T, y: T, z: T) {
    op(op(x, y), z) == op(x, op(y, z))
  }

  ghost predicate Associative<T(!new)>(op: (T, T) -> T) {
    forall x, y, z :: AssociativeAt(op, x, y, z)
  }

  ghost predicate CommutativeAt<T>(op: (T, T) -> T, x: T, y: T) {
    op(x, y) == op(y, x)
  }

  ghost predicate Commutative<T(!new)>(op: (T, T) -> T) {
    forall x, y :: CommutativeAt(op, x, y)
  }

  // ---------------------------------------------------------------- folds

  /** `op` on two partial results, of which either may be empty. */
  function Combine<T>(op: (T, T) -> T, x: Option<T>, y: Option<T>): Option<T> {
    match (x, y)
    case (None, _) => y
    case (_, None) => x
    case (Some(a), Some(b)) => Some(op(a, b))
  }

  function Fold<T>(op: (T, T) -> T, s: seq<T>): Option<T> {
    if s == [] then None else Combine(op, Some(s[0]), Fold(op, s[1..]))
  }

  lemma FoldSingle<T>(op: (T, T) -> T, s: seq<T>)
    requires |s| == 1
    ensures Fold(op, s) == Some(s[0])
  {
  }

  lemma {:induction false} FoldConcat<T(!new)>(op: (T, T) -> T, a: seq<T>, b: seq<T>)
    requires Associative(op)
    ensures Fold(op, a + b) == Combine(op, Fold(op, a), Fold(op, b))
  {
    if a == [] {
      assert a + b == b;
    } else {
      FoldConcat(op, a[1..], b);
      assert (a + b)[1..] == a[1..] + b;
      CombineAssociative(op, Some(a[0]), Fold(op, a[1..]), Fold(op, b));
    }
  }

  lemma CombineAssociative<T(!new)>(
    op: (T, T) -> T, x: Option<T>, y: Option<T>, z: Option<T>)
    requires Associative(op)
    ensures Combine(op, Combine(op, x, y), z) == Combine(op, x, Combine(op, y, z))
  {
    match (x, y, z)
    case (Some(a), Some(b), Some(c)) => assert AssociativeAt(op, a, b, c);
    case _ =>
  }

  lemma CombineCommutative<T(!new)>(op: (T, T) -> T, x: Option<T>, y: Option<T>)
    requires Commutative(op)
    ensures Combine(op, x, y) == Combine(op, y, x)
  {
    match (x, y)
    case (Some(a), Some(b)) => assert CommutativeAt(op, a, b);
    case _ =>
  }

  /** Elementwise `op` of two equally long sequences. */
  function Zip<T>(op: (T, T) -> T, a: seq<T>, b: seq<T>): (r: seq<T>)
    requires |a| == |b|
    ensures |r| == |a| && forall i :: 0 <= i < |r| ==> r[i] == op(a[i], b[i])
  {
    seq(|a|, i requires 0 <= i < |a| => op(a[i], b[i]))
  }

  lemma {:induction false} FoldZip<T(!new)>(op: (T, T) -> T, a: seq<T>, b: seq<T>)
    requires Associative(op) && Commutative(op) && |a| == |b|
    ensures Fold(op, Zip(op, a, b)) == Combine(op, Fold(op, a), Fold(op, b))
  {
    if a == [] {
    } else {
      FoldZip(op, a[1..], b[1..]);
      assert Zip(op, a, b)[1..] == Zip(op, a[1..], b[1..]);
      Exchange(op, a[0], b[0], Fold(op, a[1..]), Fold(op, b[1..]));
    }
  }

  lemma Exchange<T(!new)>(op: (T, T) -> T, a: T, b: T, x: Option<T>, y: Option<T>)
    requires Associative(op) && Commutative(op)
    ensures Combine(op, Some(op(a, b)), Combine(op, x, y))
         == Combine(op, Combine(op, Some(a), x), Combine(op, Some(b), y))
  {
    var p, q := Some(a), Some(b);
    CombineAssociative(op, p, q, Combine(op, x, y));
    CombineAssociative(op, q, x, y);
    CombineCommutative(op, q, x);
    CombineAssociative(op, x, q, y);
    CombineAssociative(op, p, x, Combine(op, q, y));
  }

  // ---------------------------------------------------------------- the halving tree

  /** One round of the tree on the values in rank order: the lower half takes in the upper half,
    * except that rank 0 sits out an odd round. */
  function Halve<T>(op: (T, T) -> T, s: seq<T>): (r: seq<T>)
    requires |s| > 1
    ensures |r| == |s| - |s| / 2
  {
    var h := |s| / 2;
    var sits := |s| % 2 == 1;
    seq(|s| - h, i requires 0 <= i < |s| - h => if sits && i == 0 then s[0] else op(s[i], s[i + h]))
  }

  lemma HalveEven<T(!new)>(op: (T, T) -> T, s: seq<T>)
    requires Associative(op) && Commutative(op) && |s| > 1 && |s| % 2 == 0
    ensures Fold(op, Halve(op, s)) == Fold(op, s)
  {
    var h := |s| / 2;
    var a, b := s[..h], s[h..];
    assert Halve(op, s) == Zip(op, a, b);
    assert s == a + b;
    FoldZip(op, a, b);
    FoldConcat(op, a, b);
  }

  lemma HalveOddParts<T>(op: (T, T) -> T, s: seq<T>, h: nat)
    requires h > 0 && |s| == 2 * h + 1
    ensures Halve(op, s) == [s[0]] + Zip(op, s[1..h + 1], s[h + 1..])
    ensures s == [s[0]] + (s[1..h + 1] + s[h + 1..])
  {
    assert |s| / 2 == h;
    var tail := Zip(op, s[1..h + 1], s[h + 1..]);
    forall i | 0 < i <= h
      ensures Halve(op, s)[i] == tail[i - 1]
    {
      assert s[1..h + 1][i - 1] == s[i] && s[h + 1..][i - 1] == s[i + h];
    }
  }

  lemma HalveOdd<T(!new)>(op: (T, T) -> T, s: seq<T>)
    requires Associative(op) && Commutative(op) && |s| > 1 && |s| % 2 == 1
    ensures Fold(op, Halve(op, s)) == Fold(op, s)
  {
    var h := |s| / 2;
    var x, a, b := [s[0]], s[1..h + 1], s[h + 1..];
    HalveOddParts(op, s, h);
    FoldConcat(op, x, Zip(op, a, b));
    FoldConcat(op, x, a + b);
    assert Fold(op, Zip(op, a, b)) == Fold(op, a + b) by {
      FoldZip(op, a, b);
      FoldConcat(op, a, b);
    }
  }

  /** The lanes still in the loop: those whose rank is below the current size. */
  function Active(mask: Mask, size: nat): (r: Mask)
    ensures |r| == |mask|
  {
    seq(|mask|, lane requires 0 <= lane < |mask| => mask[lane] && Rank(mask, lane) < size)
  }

  /** What the shuffle of a round delivers to the lane of rank `tid`. */
  function HalvingShuffle<T>(mask: Mask, regs: seq<T>, size: nat, tid: nat, garbage: T): T
    requires |regs| == |mask|
  {
    var src := tid + size / 2;
    var from := if size == |mask| then src else FindUp(mask, 0, src + 1);
    Shfl(Active(mask, size), regs, from, garbage)
  }

  /** What one active lane computes in a round. */
  function HalvingLane<T>(op: (T, T) -> T, mask: Mask, regs: seq<T>, size: nat, lane: nat, garbage: T): T
    requires |regs| == |mask| && lane < |mask|
  {
    var tid := Rank(mask, lane);
    var tp := HalvingShuffle(mask, regs, size, tid, garbage);
    if size % 2 == 1 && tid == 0 then regs[lane] else op(regs[lane], tp)
  }

  /** The lanes that stay in the loop get what `Halve` says; the garbage of a lane that reads
    * past the active ranks stays in lanes that leave the loop. */
  lemma HalvingLaneCorrect<T>(
    op: (T, T) -> T, mask: Mask, regs: seq<T>, size: nat, lane: nat, garbage: T)
    requires |regs| == |mask| && lane < |mask| && mask[lane]
    requires 1 < size <= Size(mask) < |mask| && Rank(mask, lane) < size - size / 2
    ensures HalvingLane(op, mask, regs, size, lane, garbage)
         == Halve(op, Gather(mask, regs)[..size])[Rank(mask, lane)]
  {
    if size % 2 == 0 || Rank(mask, lane) > 0 {
      HalvingPair(op, mask, regs, size, lane, garbage, size / 2);
    } else {
      GatherAtLane(mask, regs, lane);
      HalveAt(op, Gather(mask, regs)[..size], 0, size / 2);
    }
  }

  lemma HalvingPair<T>(
    op: (T, T) -> T, mask: Mask, regs: seq<T>, size: nat, lane: nat, garbage: T, h: nat)
    requires |regs| == |mask| && lane < |mask| && mask[lane] && h == size / 2
    requires 1 < size <= Size(mask) < |mask| && Rank(mask, lane) < size - h
    requires size % 2 == 0 || Rank(mask, lane) > 0
    ensures HalvingLane(op, mask, regs, size, lane, garbage)
         == Halve(op, Gather(mask, regs)[..size])[Rank(mask, lane)]
  {
    var t := Rank(mask, lane);
    PairInside(size, t, h);
    GatherAtLane(mask, regs, lane);
    HalvingLanePairs(op, mask, regs, size, lane, garbage, t, h);
    HalveOfPrefix(op, Gather(mask, regs), size, t, h);
  }

  /** A lane that takes part in the round combines with the lane `h` ranks higher. */
  lemma HalvingLanePairs<T>(
    op: (T, T) -> T, mask: Mask, regs: seq<T>, size: nat, lane: nat, garbage: T, t: nat, h: nat)
    requires |regs| == |mask| && lane < |mask| && mask[lane] && h == size / 2 && t == Rank(mask, lane)
    requires size <= Size(mask) < |mask| && t + h < size && (size % 2 == 0 || t > 0)
    ensures HalvingLane(op, mask, regs, size, lane, garbage) == op(regs[lane], Gather(mask, regs)[t + h])
  {
    ReadsUpperHalf(mask, regs, size, t + h, garbage);
  }

  lemma HalveOfPrefix<T>(op: (T, T) -> T, s: seq<T>, size: nat, t: nat, h: nat)
    requires 1 < size <= |s| && h == size / 2 && t < size - h && (size % 2 == 0 || t > 0)
    ensures t + h < size
    ensures Halve(op, s[..size])[t] == op(s[t], s[t + h])
  {
    PairInside(size, t, h);
    var prefix := s[..size];
    assert prefix[t] == s[t] && prefix[t + h] == s[t + h];
    HalveAt(op, prefix, t, h);
  }

  lemma PairInside(size: nat, t: nat, h: nat)
    requires h == size / 2 && t < size - h && (size % 2 == 0 || t > 0)
    ensures t + h < size
  {
  }

  lemma HalveAt<T>(op: (T, T) -> T, s: seq<T>, t: nat, h: nat)
    requires |s| > 1 && h == |s| / 2 && t < |s| - h
    ensures if |s| % 2 == 1 && t == 0 then Halve(op, s)[t] == s[t]
            else t + h < |s| && Halve(op, s)[t] == op(s[t], s[t + h])
  {
  }

  /** Searching for an active rank finds a lane that takes part in the round. */
  lemma ReadsUpperHalf<T>(mask: Mask, regs: seq<T>, size: nat, src: nat, garbage: T)
    requires |regs| == |mask| && src < size <= Size(mask)
    ensures Shfl(Active(mask, size), regs, FindUp(mask, 0, src + 1), garbage)
         == Gather(mask, regs)[src]
  {
    var from := FindUp(mask, 0, src + 1);
    GatherAtLane(mask, regs, from);
    assert Active(mask, size)[from];
  }

  /** A round turns the values of the active ranks into their `Halve`. */
  lemma HalvingRound<T>(
    op: (T, T) -> T, mask: Mask, before: seq<T>, after: seq<T>, size: nat, garbage: nat -> T)
    requires |before| == |after| == |mask| && 1 < size <= Size(mask) < |mask|
    requires forall lane :: 0 <= lane < |mask| && mask[lane] && Rank(mask, lane) < size ==>
      after[lane] == HalvingLane(op, mask, before, size, lane, garbage(lane))
    ensures Gather(mask, after)[..size - size / 2] == Halve(op, Gather(mask, before)[..size])
  {
    var halved := Halve(op, Gather(mask, before)[..size]);
    forall i | 0 <= i < size - size / 2
      ensures Gather(mask, after)[i] == halved[i]
    {
      LaneOfRank(mask, i);
      var lane := RankToLane(mask, i);
      HalvingLaneCorrect(op, mask, before, size, lane, garbage(lane));
    }
  }

  // ---------------------------------------------------------------- the butterfly

  /** The registers of the lanes `first`, `first + stride`, `first + 2 * stride`, ... */
  function Class<T>(regs: seq<T>, first: nat, stride: nat): seq<T>
    requires stride > 0
    decreases |regs| - first
  {
    if first >= |regs| then [] else [regs[first]] + Class(regs, first + stride, stride)
  }

  /** A class splits into the two classes of twice its stride. */
  lemma {:induction false} FoldClassSplit<T(!new)>(
    op: (T, T) -> T, regs: seq<T>, first: nat, stride: nat)
    requires Associative(op) && Commutative(op) && stride > 0
    ensures Fold(op, Class(regs, first, stride))
         == Combine(op, Fold(op, Class(regs, first, 2 * stride)),
                        Fold(op, Class(regs, first + stride, 2 * stride)))
    decreases |regs| - first
  {
    if first < |regs| {
      FoldClassSplit(op, regs, first + stride, stride);
      FoldCons(op, regs, first, stride);
      FoldCons(op, regs, first, 2 * stride);
      var x := Fold(op, Class(regs, first + stride, 2 * stride));
      var y := Fold(op, Class(regs, first + 2 * stride, 2 * stride));
      assert first + stride + stride == first + 2 * stride;
      Rotate3(op, Some(regs[first]), x, y);
    }
  }

  lemma FoldCons<T>(op: (T, T) -> T, regs: seq<T>, first: nat, stride: nat)
    requires stride > 0 && first < |regs|
    ensures Fold(op, Class(regs, first, stride))
         == Combine(op, Some(regs[first]), Fold(op, Class(regs, first + stride, stride)))
  {
    var c := Class(regs, first, stride);
    assert c[1..] == Class(regs, first + stride, stride);
  }

  lemma Rotate3<T(!new)>(op: (T, T) -> T, a: Option<T>, x: Option<T>, y: Option<T>)
    requires Associative(op) && Commutative(op)
    ensures Combine(op, a, Combine(op, x, y)) == Combine(op, Combine(op, a, y), x)
  {
    CombineCommutative(op, x, y);
    CombineAssociative(op, a, y, x);
  }

  lemma {:induction false} ClassAll<T>(regs: seq<T>, first: nat)
    requires first <= |regs|
    ensures Class(regs, first, 1) == regs[first..]
    decreases |regs| - first
  {
    if first < |regs| {
      ClassAll(regs, first + 1);
    }
  }

  /** After the masks from `2^(k-1)` down to `2^j`, a lane holds the fold of the lanes that agree
    * with it on the `j` bits not yet exchanged. */
  ghost predicate Exchanged<T>(op: (T, T) -> T, start: seq<T>, regs: seq<T>, j: nat) {
    && |regs| == |start|
    && forall lane :: 0 <= lane < |regs| ==>
         Some(regs[lane]) == Fold(op, Class(start, Low(lane, j), Pow2(j)))
  }

  lemma ExchangeStarts<T>(op: (T, T) -> T, start: seq<T>, k: nat)
    requires |start| == Pow2(k)
    ensures Exchanged(op, start, start, k)
  {
    forall lane | 0 <= lane < |start|
      ensures Some(start[lane]) == Fold(op, Class(start, Low(lane, k), Pow2(k)))
    {
      FitsIsBelow(lane, k);
      LowOfWord(lane, k);
      assert Class(start, lane, Pow2(k)) == [start[lane]];
    }
  }

  lemma ExchangePair<T(!new)>(op: (T, T) -> T, a: T, b: T, x: Option<T>, y: Option<T>)
    requires Commutative(op)
    requires (Some(a) == x && Some(b) == y) || (Some(a) == y && Some(b) == x)
    ensures Some(op(a, b)) == Combine(op, x, y)
  {
    CombineCommutative(op, x, y);
  }

  lemma ExchangeStep<T(!new)>(
    op: (T, T) -> T, start: seq<T>, regs: seq<T>, j: nat, k: nat, lane: nat)
    requires Associative(op) && Commutative(op)
    requires Exchanged(op, start, regs, j + 1)
    requires j < k && lane < |regs| == Pow2(k)
    ensures Some(op(regs[lane], ShflXor(regs, lane, Pow2(j))))
         == Fold(op, Class(start, Low(lane, j), Pow2(j)))
  {
    var other, low, m := Xor(lane, Pow2(j)), Low(lane, j), Pow2(j);
    XorStaysInside(lane, j, k);
    FoldClassSplit(op, start, low, m);
    XorBit(lane, j);
    ExchangePair(op, regs[lane], regs[other],
                 Fold(op, Class(start, low, 2 * m)), Fold(op, Class(start, low + m, 2 * m)));
  }

  /** One round: every lane takes in the lane that differs in the bits of `xorMask`. */
  function ExchangeAll<T>(op: (T, T) -> T, regs: seq<T>, xorMask: nat): (r: seq<T>)
    ensures |r| == |regs|
  {
    seq(|regs|, lane requires 0 <= lane < |regs| => op(regs[lane], ShflXor(regs, lane, xorMask)))
  }

  /** The rounds for the masks from `2^(j-1)` down to 1. */
  function Rounds<T>(op: (T, T) -> T, regs: seq<T>, j: nat): (r: seq<T>)
    ensures |r| == |regs|
    decreases j
  {
    if j == 0 then regs else Rounds(op, ExchangeAll(op, regs, Pow2(j - 1)), j - 1)
  }

  lemma {:induction false} RoundsFold<T(!new)>(
    op: (T, T) -> T, start: seq<T>, regs: seq<T>, j: nat, k: nat)
    requires Associative(op) && Commutative(op)
    requires j <= k && |regs| == Pow2(k) && Exchanged(op, start, regs, j)
    ensures Exchanged(op, start, Rounds(op, regs, j), 0)
    decreases j
  {
    if j > 0 {
      var next := ExchangeAll(op, regs, Pow2(j - 1));
      forall lane | 0 <= lane < |next|
        ensures Some(next[lane]) == Fold(op, Class(start, Low(lane, j - 1), Pow2(j - 1)))
      {
        ExchangeStep(op, start, regs, j - 1, k, lane);
      }
      RoundsFold(op, start, next, j - 1, k);
    }
  }

  lemma XorStaysInside(lane: nat, j: nat, k: nat)
    requires lane < Pow2(k) && j < k
    ensures Xor(lane, Pow2(j)) < Pow2(k)
  {
    FitsIsBelow(lane, k);
    FitsIsBelow(Pow2(j), k);
    Pow2Smaller(j, k);
    XorFits(lane, Pow2(j), k);
    FitsIsBelow(Xor(lane, Pow2(j)), k);
  }

  /** All rounds over a power-of-two width leave every lane with the fold of all lanes. */
  lemma ButterflyFolds<T(!new)>(op: (T, T) -> T, start: seq<T>, k: nat, lane: nat)
    requires Associative(op) && Commutative(op) && lane < |start| == Pow2(k)
    ensures Some(Rounds(op, start, k)[lane]) == Fold(op, start)
  {
    ExchangeStarts(op, start, k);
    RoundsFold(op, start, start, k, k);
    ClassAll(start, 0);
    assert start[0..] == start;
  }

  // ---------------------------------------------------------------- the methods

  /** The full-wavefront reduction: xor shuffles over a power-of-two width. */
  method Butterfly<T>(regs: array<T>, op: (T, T) -> T, ghost k: nat)
    requires regs.Length == Pow2(k)
    modifies regs
    ensures regs[..] == Rounds(op, old(regs[..]), k)
  {
    ghost var j: nat := k;
    var xorMask := regs.Length / 2;
    while xorMask > 0
      invariant xorMask == Pow2(j) / 2
      invariant Rounds(op, regs[..], j) == Rounds(op, old(regs[..]), k)
    {
      j := j - 1;
      assert xorMask == Pow2(j);
      var before := regs[..];
      forall lane | 0 <= lane < regs.Length {
        regs[lane] := op(before[lane], ShflXor(before, lane, xorMask));
      }
      assert regs[..] == ExchangeAll(op, before, xorMask);
      xorMask := xorMask / 2;
    }
  }

  /** The reduction over a mask. `garbage` supplies what invalid shuffles deliver, round by round
    * and lane by lane; the result does not depend on it. */
  method ReduceSync<T(!new)>(
    mask: Mask, regs: array<T>, op: (T, T) -> T, garbage: (nat, nat) -> T, ghost k: nat)
    requires Associative(op) && Commutative(op)
    requires |mask| == regs.Length == Pow2(k) && Size(mask) > 0
    modifies regs
    ensures forall lane :: 0 <= lane < |mask| && mask[lane] ==>
      Some(regs[lane]) == Fold(op, Gather(mask, old(regs[..])))
    ensures forall lane :: 0 <= lane < |mask| && !mask[lane] ==> regs[lane] == old(regs[lane])
  {
    var size := Size(mask);
    ghost var total := Fold(op, Gather(mask, regs[..]));
    if size == 1 {
      forall lane | 0 <= lane < |mask| && mask[lane]
        ensures Some(regs[lane]) == total
      {
        GatherAtLane(mask, regs[..], lane);
        FoldSingle(op, Gather(mask, regs[..]));
      }
      return;
    }
    if size == |mask| {
      GatherFull(mask, regs[..]);
      forall lane | 0 <= lane < |mask|
        ensures mask[lane]
      {
        FullMaskRanks(mask, lane);
      }
      Butterfly(regs, op, k);
      forall lane | 0 <= lane < |mask|
        ensures Some(regs[lane]) == total
      {
        ButterflyFolds(op, old(regs[..]), k, lane);
      }
      return;
    }
    var round := 0;
    assert Gather(mask, regs[..])[..size] == Gather(mask, regs[..]);
    while size > 1
      invariant 1 <= size <= Size(mask)
      invariant Fold(op, Gather(mask, regs[..])[..size]) == total
      invariant forall lane :: 0 <= lane < |mask| && !mask[lane] ==> regs[lane] == old(regs[lane])
    {
      var before := regs[..];
      forall lane | 0 <= lane < |mask| && mask[lane] && Rank(mask, lane) < size {
        regs[lane] := HalvingLane(op, mask, before, size, lane, garbage(round, lane));
      }
      HalvingRound(op, mask, before, regs[..], size, lane => garbage(round, lane));
      assert (size + 1) / 2 == size - size / 2;
      if size % 2 == 0 {
        HalveEven(op, Gather(mask, before)[..size]);
      } else {
        HalveOdd(op, Gather(mask, before)[..size]);
      }
      size := (size + 1) / 2;
      round := round + 1;
    }
    // every lane of the mask has left the loop and reads rank 0
    var first := FindUp(mask, 0, 1);
    var last := regs[..];
    GatherAtLane(mask, last, first);
    FoldSingle(op, Gather(mask, last)[..1]);
    forall lane | 0 <= lane < |mask| && mask[lane] {
      regs[lane] := Shfl(mask, last, first, garbage(round, lane));
    }
  }
}
