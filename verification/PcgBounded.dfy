/** Bounded draws from PCG32: which outputs the rejection loop accepts, and how often each value
  * is returned. */
module PcgBounded {
  import opened Bits
  import opened Counting
  import opened PcgPeriod
  import opened PcgOutput

  /** `-bound % bound` on 32-bit words. */
  function Threshold(bound: nat): (t: nat)
    requires 0 < bound < TWO_32
    ensures t < bound
  {
    Neg32(bound) % bound
  }

  lemma ThresholdIsRemainder(bound: nat)
    requires 0 < bound < TWO_32
    ensures Threshold(bound) == TWO_32 % bound
    ensures TWO_32 == TWO_32 / bound * bound + Threshold(bound)
  {
    NegatedWord(bound);
    SubtractDivisor(TWO_32, bound);
  }

  lemma SubtractDivisor(n: nat, d: nat)
    requires 0 < d <= n
    ensures (n - d) % d == n % d && n == n / d * d + n % d
  {
    var q, r := n / d, n % d;
    assert (q - 1) * d == q * d - d;
    DivModUnique(n - d, d, q - 1, r);
  }

  // ---------------------------------------------------------------- accepted outputs

  /** The numbers from `low` up to `high` that leave remainder `d`. */
  ghost function Residues(low: nat, high: nat, bound: nat, d: nat): set<int>
    requires bound > 0
  {
    set r | r in Below(high) && r >= low && r % bound == d
  }

  /** The least number from `low` on that leaves remainder `d`. */
  function FirstResidue(low: nat, bound: nat, d: nat): (r: nat)
    requires d < bound
    ensures low <= r < low + bound && r % bound == d
  {
    var u, v := (d - low) % bound, (d - low) / bound;
    assert low + u == -v * bound + d;
    DivModUnique(low + u, bound, -v, d);
    low + u
  }

  lemma InResidues(low: nat, high: nat, bound: nat, d: nat, x: nat)
    requires bound > 0
    ensures x in Residues(low, high, bound, d) <==> low <= x < high && x % bound == d
  {
  }

  /** A window of `q * bound` consecutive numbers holds each remainder `q` times. */
  lemma ResidueCount(low: nat, high: nat, bound: nat, d: nat, q: nat)
    requires d < bound && high == low + q * bound
    ensures |Residues(low, high, bound, d)| == q
  {
    var first := FirstResidue(low, bound, d);
    var f := (j: int) => first + j * bound;
    var g := (r: int) => (r - first) / bound;
    forall j | j in Below(q)
      ensures f(j) in Residues(low, high, bound, d) && g(f(j)) == j
    {
      ResidueAt(low, bound, first, q, j);
    }
    forall r | r in Residues(low, high, bound, d)
      ensures g(r) in Below(q) && f(g(r)) == r
    {
      ResidueIndex(low, bound, first, q, r);
    }
    BijectionSize(f, g, q, Residues(low, high, bound, d));
  }

  lemma ResidueAt(low: nat, bound: nat, first: nat, q: nat, j: nat)
    requires bound > 0 && low <= first < low + bound && j < q
    ensures low <= first + j * bound < low + q * bound
    ensures (first + j * bound) % bound == first % bound
    ensures (first + j * bound - first) / bound == j
  {
    MulLe(0, j, bound);
    MulLe(j, q - 1, bound);
    assert (q - 1) * bound == q * bound - bound;
    AddMultiple(first, j, bound);
    DivModUnique(j * bound, bound, j, 0);
  }

  lemma ResidueIndex(low: nat, bound: nat, first: nat, q: nat, r: int)
    requires bound > 0 && low <= first < low + bound
    requires low <= r < low + q * bound && r % bound == first % bound
    ensures 0 <= (r - first) / bound < q
    ensures first + (r - first) / bound * bound == r
  {
    var k := r / bound - first / bound;
    assert r - first == k * bound;
    DivModUnique(r - first, bound, k, 0);
    if k < 0 {
      MulLe(k, -1, bound);
    } else if k >= q {
      MulLe(q, k, bound);
    }
  }

  /** The outputs that the loop accepts and reduces to `d`. */
  ghost function AcceptedOutputs(bound: nat, d: nat): set<int>
    requires 0 < bound < TWO_32
  {
    Residues(Threshold(bound), TWO_32, bound, d)
  }

  // ---------------------------------------------------------------- uniformity

  /** The draws of one period from state `s` that are accepted and return `d`. */
  ghost function DrawsReturning(s: nat, inc: nat, bound: nat, d: nat): set<int>
    requires 0 < bound < TWO_32
  {
    Meeting(Compose(OutputOf(), DrawStates(s, inc)), Below(TWO_64), AcceptedOutputs(bound, d))
  }

  lemma DrawIsCounted(s: nat, inc: nat, bound: nat, d: nat, n: nat)
    requires 0 < bound < TWO_32 && n < TWO_64
    ensures n in DrawsReturning(s, inc, bound, d) <==> Output(Orbit(s, inc, n)) in AcceptedOutputs(bound, d)
  {
    var f, draws, values := Compose(OutputOf(), DrawStates(s, inc)), Below(TWO_64), AcceptedOutputs(bound, d);
    assert DrawsReturning(s, inc, bound, d) == Meeting(f, draws, values);
    assert n in draws;
    InMeeting(f, draws, values, n);
    DrawOutput(s, inc, n);
  }

  lemma DrawOutput(s: nat, inc: nat, n: nat)
    ensures Compose(OutputOf(), DrawStates(s, inc))(n) == Output(Orbit(s, inc, n))
  {
  }

  lemma DrawReturns(s: nat, inc: nat, bound: nat, d: nat, n: nat, t: nat)
    requires s < TWO_64 && d < bound < TWO_32 && n < TWO_64 && t == Threshold(bound)
    ensures n in DrawsReturning(s, inc, bound, d) <==>
      Output(Orbit(s, inc, n)) >= t && Output(Orbit(s, inc, n)) % bound == d
  {
    OrbitBound(s, inc, n);
    OutputBound(Orbit(s, inc, n));
    DrawIsCounted(s, inc, bound, d, n);
    InResidues(t, TWO_32, bound, d, Output(Orbit(s, inc, n)));
  }

  /** Bounded draws are exactly unbiased: within one period every value below the bound is
    * returned by the same number of draws. */
  lemma BoundedDrawsUnbiased(s: nat, inc: nat, bound: nat, d: nat)
    requires s < TWO_64 && inc % 2 == 1 && d < bound < TWO_32
    ensures |AcceptedOutputs(bound, d)| == TWO_32 / bound
    ensures |DrawsReturning(s, inc, bound, d)| == TWO_32 / bound * TWO_32
  {
    var values := AcceptedOutputs(bound, d);
    ThresholdIsRemainder(bound);
    ResidueCount(Threshold(bound), TWO_32, bound, d, TWO_32 / bound);
    forall r | r in values
      ensures |StatesWithOutput(r)| == TWO_32
    {
      OutputUniform(r);
    }
    NoRepeats(s, inc);
    PermutedCount(OutputOf(), DrawStates(s, inc), Below(TWO_64), values, TWO_32);
  }
}
