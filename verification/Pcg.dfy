/** The PCG32 generator: its 64-bit congruential step, its 32-bit permuted output, and the
  * bounded draw with its rejection loop. */
module Pcg {
  import opened Bits
  import opened PcgPeriod
  import opened PcgOutput
  import opened PcgBounded

  /** The first `n` draws from `s` all fall below the threshold. */
  ghost predicate AllRejected(s: nat, inc: nat, threshold: nat, n: nat) {
    n == 0
    || (AllRejected(s, inc, threshold, n - 1) && Output(Orbit(s, inc, n - 1)) < threshold)
  }

  /** Draw number `n` from `s` is the first that the rejection loop accepts. */
  ghost predicate FirstAccepted(s: nat, inc: nat, threshold: nat, n: nat) {
    AllRejected(s, inc, threshold, n) && Output(Orbit(s, inc, n)) >= threshold
  }

  /** A bounded draw from `s` that takes `n + 1` steps, returns `r` and leaves state `next`. */
  ghost predicate BoundedDraw(s: nat, inc: nat, bound: nat, n: nat, r: nat, next: nat)
    requires 0 < bound < TWO_32
  {
    && FirstAccepted(s, inc, Threshold(bound), n)
    && r == Output(Orbit(s, inc, n)) % bound
    && next == Orbit(s, inc, n + 1)
  }

  lemma Accepted(s: nat, inc: nat, bound: nat, n: nat, x: nat)
    requires 0 < bound < TWO_32 && AllRejected(s, inc, Threshold(bound), n)
    requires x == Output(Orbit(s, inc, n)) && x >= Threshold(bound)
    ensures BoundedDraw(s, inc, bound, n, x % bound, Step(Orbit(s, inc, n), inc))
  {
  }

  /** A rejected draw is not the one that outputs the largest word. */
  lemma Rejected(s: nat, inc: nat, bound: nat, n: nat, last: nat)
    requires 0 < bound < TWO_32 && AllRejected(s, inc, Threshold(bound), n) && n <= last
    requires Output(Orbit(s, inc, n)) < Threshold(bound) && Output(Orbit(s, inc, last)) == TWO_32 - 1
    ensures AllRejected(s, inc, Threshold(bound), n + 1) && n < last
  {
  }

  lemma {:induction false} RejectedAt(s: nat, inc: nat, threshold: nat, n: nat, m: nat)
    requires AllRejected(s, inc, threshold, n) && m < n
    ensures Output(Orbit(s, inc, m)) < threshold
  {
    if m < n - 1 {
      RejectedAt(s, inc, threshold, n - 1, m);
    }
  }

  /** A bounded draw stops at the first draw of the period that is counted as returning anything, and
    * returns what that draw is counted for. */
  lemma StopsAtFirstCounted(s: nat, inc: nat, bound: nat, n: nat, r: nat, next: nat)
    requires s < TWO_64 && 0 < bound < TWO_32 && n < TWO_64 && BoundedDraw(s, inc, bound, n, r, next)
    ensures n in DrawsReturning(s, inc, bound, r)
    ensures forall m: nat, d: nat :: m < n && d < bound ==> m !in DrawsReturning(s, inc, bound, d)
  {
    DrawReturns(s, inc, bound, r, n, Threshold(bound));
    forall m: nat, d: nat | m < n && d < bound
      ensures m !in DrawsReturning(s, inc, bound, d)
    {
      RejectedAt(s, inc, Threshold(bound), n, m);
      DrawReturns(s, inc, bound, d, m, Threshold(bound));
    }
  }

  class Pcg32 {
    var state: nat
    var inc: nat

    /** Both fields are 64-bit words and, as seeding establishes, the increment is odd. */
    ghost predicate Valid()
      reads this
    {
      state < TWO_64 && inc < TWO_64 && inc % 2 == 1
    }

    /** Seeding: afterwards the generator is on the stream `initseq`, two steps from zero. */
    constructor SRandom(initstate: nat, initseq: nat)
      requires initstate < TWO_64 && initseq < TWO_64
      ensures Valid()
      ensures inc == StreamIncrement(initseq) && state == Seeded(initstate, inc)
      ensures inc == 1 + 2 * (initseq % 0x8000_0000_0000_0000)
      ensures state == ((initstate + inc) * 6364136223846793005 + inc) % 0x1_0000_0000_0000_0000
    {
      state := 0;
      inc := StreamIncrement(initseq);
      SeedsOddIncrement(initseq);
      new;
      Absorb(initstate);
      SeedingIs(initstate, initseq, inc, state);
    }

    /** The rest of seeding: a step, the initial state added in, and a second step. */
    method Absorb(initstate: nat)
      requires Valid() && initstate < TWO_64
      modifies `state
      ensures Valid()
      ensures state == Step(Word(Step(old(state), inc) + initstate), inc)
    {
      var discarded := Random();
      WordBound(state + initstate);
      state := Word(state + initstate);
      discarded := Random();
    }

    /** One draw: the output comes from the state before the step. */
    method Random() returns (r: nat)
      requires Valid()
      modifies `state
      ensures Valid()
      ensures r == Output(old(state)) && r < TWO_32
      ensures state == Step(old(state), inc)
      ensures state == (old(state) * 6364136223846793005 + inc) % 0x1_0000_0000_0000_0000
    {
      var oldstate := state;
      StepBound(oldstate, inc);
      StepIs(oldstate, inc);
      state := Word(oldstate * MULTIPLIER + inc);
      var xorshifted := XorShifted(oldstate);
      var rot := Shr(oldstate, 59);
      r := Rotate(xorshifted, rot);
      assert r == Output(oldstate);
      OutputBound(oldstate);
    }

    /** A draw below `bound`: the first accepted output, reduced. The loop ends within one
      * period, because some state of the period outputs the largest 32-bit word. */
    method BoundedRand(bound: nat) returns (r: nat)
      requires Valid() && 0 < bound < TWO_32
      modifies `state
      ensures Valid() && r < bound
      ensures exists n: nat :: n < TWO_64 && BoundedDraw(old(state), inc, bound, n, r, state)
    {
      var threshold := Threshold(bound);
      ghost var s := state;
      ghost var last := ReachesLargestOutput(s, inc);
      ghost var n: nat := 0;
      while true
        invariant Valid() && threshold == Threshold(bound)
        invariant n <= last && state == Orbit(s, inc, n)
        invariant AllRejected(s, inc, threshold, n)
        decreases last - n
      {
        var x := Random();
        if x >= threshold {
          Accepted(s, inc, bound, n, x);
          r := x % bound;
          return;
        }
        Rejected(s, inc, bound, n, last);
        n := n + 1;
      }
    }
  }
}
