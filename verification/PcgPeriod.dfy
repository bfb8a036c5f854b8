/** The congruential step of PCG32 has full period: from any state and with any odd increment
  * it visits each of the 2^64 states exactly once before it repeats. */
module PcgPeriod {
  import opened Bits
  import opened Counting

  const MULTIPLIER: nat := 6364136223846793005

  /** Truncation to a 64-bit word. */
  function Word(x: nat): nat {
    Low(x, 64)
  }

  lemma WordIsMod(x: nat)
    ensures Word(x) == x % TWO_64
  {
    WordSizes();
    ShrLowArithmetic(x, 64);
  }

  lemma WordBound(x: nat)
    ensures Word(x) < TWO_64
  {
    WordSizes();
    LowBound(x, 64);
  }

  function Step(s: nat, inc: nat): nat {
    Word(s * MULTIPLIER + inc)
  }

  lemma StepBound(s: nat, inc: nat)
    ensures Step(s, inc) < TWO_64
  {
    WordBound(s * MULTIPLIER + inc);
  }

  /** The state after `n` steps. */
  function Orbit(s: nat, inc: nat, n: nat): nat {
    if n == 0 then s else Step(Orbit(s, inc, n - 1), inc)
  }

  /** `(initseq << 1) | 1` in 64 bits. */
  function StreamIncrement(initseq: nat): nat {
    Or(Shl(initseq, 1, 64), 1)
  }

  /** The state that seeding leaves on the stream with increment `inc`. */
  function Seeded(initstate: nat, inc: nat): nat {
    Step(Word(Step(0, inc) + initstate), inc)
  }

  // ---------------------------------------------------------------- divisibility by 2^k

  /** `2^k` divides `x`, one factor of two at a time. */
  predicate TwosDivide(k: nat, x: int) {
    k == 0 || (x % 2 == 0 && TwosDivide(k - 1, x / 2))
  }

  lemma {:induction false} TwosDivideMod(k: nat, x: int)
    ensures TwosDivide(k, x) <==> x % Pow2(k) == 0
  {
    if k == 0 {
    } else {
      var p := Pow2(k - 1);
      TwosDivideMod(k - 1, x / 2);
      var h := x / 2;
      assert x == (h / p) * Pow2(k) + (x % 2 + 2 * (h % p));
      DivModUnique(x, Pow2(k), h / p, x % 2 + 2 * (h % p));
    }
  }

  /** An odd factor contributes no power of two. */
  lemma {:induction false} OddFactor(k: nat, odd: int, x: int)
    requires odd % 2 == 1
    ensures TwosDivide(k, odd * x) <==> TwosDivide(k, x)
  {
    if k == 0 {
    } else {
      var o, h := odd / 2, x / 2;
      assert odd == 2 * o + 1;
      if x % 2 == 0 {
        assert odd * x == 2 * (odd * h);
        OddFactor(k - 1, odd, h);
      } else {
        assert x == 2 * h + 1;
        assert odd * x == 2 * (o * x + h) + 1;
      }
    }
  }

  // ---------------------------------------------------------------- the geometric sum

  /** `1 + a + ... + a^(n-1)`. */
  function Geometric(a: int, n: nat): int {
    if n == 0 then 0 else a * Geometric(a, n - 1) + 1
  }

  function Power(a: int, n: nat): int {
    if n == 0 then 1 else a * Power(a, n - 1)
  }

  lemma {:induction false} GeometricAdd(a: int, m: nat, n: nat)
    ensures Geometric(a, m + n) == Power(a, n) * Geometric(a, m) + Geometric(a, n)
  {
    if n == 0 {
    } else {
      GeometricAdd(a, m, n - 1);
      var p, g := Power(a, n - 1), Geometric(a, m);
      assert a * (p * g) == a * p * g;
    }
  }

  lemma {:induction false} PowerMod4(a: int, n: nat)
    requires a % 4 == 1
    ensures Power(a, n) % 4 == 1
  {
    if n == 0 {
    } else {
      PowerMod4(a, n - 1);
      OneMod4(a, Power(a, n - 1));
    }
  }

  lemma OneMod4(x: int, y: int)
    requires x % 4 == 1 && y % 4 == 1
    ensures x * y % 4 == 1
  {
    var q, r := x / 4, y / 4;
    OneMod4Product(q, r);
    DivModUnique(x * y, 4, 4 * (q * r) + q + r, 1);
  }

  lemma OneMod4Product(q: int, r: int)
    ensures (4 * q + 1) * (4 * r + 1) == (4 * (q * r) + q + r) * 4 + 1
  {
  }

  lemma {:induction false} GeometricParity(a: int, n: nat)
    requires a % 2 == 1
    ensures Geometric(a, n) % 2 == n % 2
  {
    if n == 0 {
    } else {
      GeometricParity(a, n - 1);
      ParityStep(a, Geometric(a, n - 1), n);
    }
  }

  lemma ParityStep(a: int, g: int, n: nat)
    requires a % 2 == 1 && n > 0 && g % 2 == (n - 1) % 2
    ensures (a * g + 1) % 2 == n % 2
  {
    OddTimes(a, g);
  }

  lemma OddTimes(a: int, g: int)
    requires a % 2 == 1
    ensures a * g % 2 == g % 2
  {
    var p := a / 2;
    assert a * g == 2 * (p * g) + g;
  }

  /** For `a = 1 mod 4`, the sum of the first `n` powers of `a` carries exactly the powers of
    * two that `n` carries. */
  lemma {:induction false} GeometricTwos(a: int, k: nat, n: nat)
    requires a % 4 == 1
    ensures TwosDivide(k, Geometric(a, n)) <==> TwosDivide(k, n)
  {
    if k == 0 || n % 2 == 1 {
      GeometricParity(a, n);
    } else {
      var m := n / 2;
      var o := GeometricDouble(a, m);
      TwosDivideDouble(k, o * Geometric(a, m));
      OddFactor(k - 1, o, Geometric(a, m));
      GeometricTwos(a, k - 1, m);
    }
  }

  lemma TwosDivideDouble(k: nat, x: int)
    requires k > 0
    ensures TwosDivide(k, 2 * x) <==> TwosDivide(k - 1, x)
  {
  }

  lemma GeometricDouble(a: int, m: nat) returns (odd: int)
    requires a % 4 == 1
    ensures odd % 2 == 1 && Geometric(a, 2 * m) == 2 * (odd * Geometric(a, m))
  {
    GeometricAdd(a, m, m);
    PowerMod4(a, m);
    odd := HalfOfSuccessor(Power(a, m), Geometric(a, m));
  }

  lemma HalfOfSuccessor(p: int, g: int) returns (odd: int)
    requires p % 4 == 1
    ensures odd % 2 == 1 && p * g + g == 2 * (odd * g)
  {
    var q := p / 4;
    odd := 2 * q + 1;
    assert p == 4 * q + 1;
    assert (4 * q + 1) * g + g == 2 * ((2 * q + 1) * g);
  }

  // ---------------------------------------------------------------- the orbit

  /** The orbit without reduction modulo 2^64. */
  function Unreduced(s: int, inc: int, n: nat): int {
    if n == 0 then s else Unreduced(s, inc, n - 1) * MULTIPLIER + inc
  }

  lemma ModStep(x: int, a: int, inc: int, m: int)
    requires m > 0
    ensures (x % m * a + inc) % m == (x * a + inc) % m
  {
    var q, r := x / m, x % m;
    var y := r * a + inc;
    calc {
      x * a + inc;
      (q * m + r) * a + inc;
      y + (q * a) * m;
    }
    DivModUnique(x * a + inc, m, y / m + q * a, y % m);
  }

  lemma {:induction false} OrbitIsUnreduced(s: nat, inc: nat, n: nat)
    requires s < TWO_64
    ensures Orbit(s, inc, n) == Unreduced(s, inc, n) % TWO_64
  {
    if n == 0 {
    } else {
      OrbitIsUnreduced(s, inc, n - 1);
      var x, y := Orbit(s, inc, n - 1), Unreduced(s, inc, n - 1);
      ModStep(y, MULTIPLIER, inc, TWO_64);
      WordIsMod(x * MULTIPLIER + inc);
    }
  }

  lemma {:induction false} UnreducedClosedForm(s: int, inc: int, n: nat)
    ensures Unreduced(s, inc, n) - s == ((MULTIPLIER - 1) * s + inc) * Geometric(MULTIPLIER, n)
  {
    if n == 0 {
    } else {
      UnreducedClosedForm(s, inc, n - 1);
      ClosedFormStep(s, inc, MULTIPLIER, Unreduced(s, inc, n - 1), Geometric(MULTIPLIER, n - 1));
    }
  }

  lemma ClosedFormStep(s: int, inc: int, a: int, x: int, g: int)
    requires x - s == ((a - 1) * s + inc) * g
    ensures x * a + inc - s == ((a - 1) * s + inc) * (a * g + 1)
  {
    var d := (a - 1) * s + inc;
    calc {
      d * (a * g + 1);
      a * (d * g) + d;
      a * (x - s) + (a - 1) * s + inc;
      x * a + inc - s;
    }
  }

  lemma SameMod(x: int, y: int, m: int)
    requires m > 0
    ensures x % m == y % m <==> (x - y) % m == 0
  {
    var p, q := x / m, y / m;
    if x % m == y % m {
      assert x - y == (p - q) * m;
      DivModUnique(x - y, m, p - q, 0);
    }
    if (x - y) % m == 0 {
      var r := (x - y) / m;
      assert x == (r + q) * m + y % m;
      DivModUnique(x, m, r + q, y % m);
    }
  }

  lemma OddFactorMod(odd: int, x: int, m: int)
    requires odd % 2 == 1 && m == Pow2(64)
    ensures odd * x % m == 0 <==> x % m == 0
  {
    TwosDivideMod(64, odd * x);
    OddFactor(64, odd, x);
    TwosDivideMod(64, x);
  }

  lemma GeometricMod(a: int, n: nat, m: int)
    requires a % 4 == 1 && m == Pow2(64)
    ensures Geometric(a, n) % m == 0 <==> n % m == 0
  {
    TwosDivideMod(64, Geometric(a, n));
    GeometricTwos(a, 64, n);
    TwosDivideMod(64, n);
  }

  lemma OddGap(a: int, s: int, inc: int)
    requires a % 2 == 1 && inc % 2 == 1
    ensures ((a - 1) * s + inc) % 2 == 1
  {
    var h := (a - 1) / 2;
    assert (a - 1) * s == 2 * (h * s) by { assert a - 1 == 2 * h; }
  }

  /** The distance travelled in `n` steps is a multiple of 2^64 exactly when `n` is. */
  lemma TravelMod(s: nat, inc: nat, n: nat, m: int)
    requires inc % 2 == 1 && m == Pow2(64)
    ensures (Unreduced(s, inc, n) - s) % m == 0 <==> n % m == 0
  {
    UnreducedClosedForm(s, inc, n);
    OddGap(MULTIPLIER, s, inc);
    OddFactorMod((MULTIPLIER - 1) * s + inc, Geometric(MULTIPLIER, n), m);
    GeometricMod(MULTIPLIER, n, m);
  }

  /** The generator is back at `s` exactly after the multiples of 2^64 steps. */
  lemma ReturnTime(s: nat, inc: nat, n: nat)
    requires s < TWO_64 && inc % 2 == 1
    ensures Orbit(s, inc, n) == s <==> n % TWO_64 == 0
  {
    WordSizes();
    OrbitIsUnreduced(s, inc, n);
    SameWord(Unreduced(s, inc, n), s, TWO_64);
    TravelMod(s, inc, n, TWO_64);
  }

  lemma SameWord(x: int, s: nat, m: nat)
    requires s < m
    ensures x % m == s <==> (x - s) % m == 0
  {
    SameMod(x, s, m);
    DivModUnique(s, m, 0, s);
  }

  lemma {:induction false} OrbitAdd(s: nat, inc: nat, i: nat, j: nat)
    ensures Orbit(s, inc, i + j) == Orbit(Orbit(s, inc, i), inc, j)
  {
    if j == 0 {
    } else {
      OrbitAdd(s, inc, i, j - 1);
    }
  }

  lemma OrbitBound(s: nat, inc: nat, n: nat)
    requires s < TWO_64
    ensures Orbit(s, inc, n) < TWO_64
  {
    if n > 0 {
      WordBound(Orbit(s, inc, n - 1) * MULTIPLIER + inc);
    }
  }

  /** No state repeats within 2^64 steps. */
  lemma NoEarlyRepeat(s: nat, inc: nat, i: nat, j: nat)
    requires s < TWO_64 && inc % 2 == 1
    requires i < j < TWO_64
    ensures Orbit(s, inc, i) != Orbit(s, inc, j)
  {
    OrbitBound(s, inc, i);
    OrbitAdd(s, inc, i, j - i);
    DivModUnique(j - i, TWO_64, 0, j - i);
    ReturnTime(Orbit(s, inc, i), inc, j - i);
  }

  /** Draw number `i` against the state it starts from. */
  ghost function DrawStates(s: nat, inc: nat): int -> int {
    i => if i < 0 then 0 else Orbit(s, inc, i)
  }

  /** The period visits `y`. */
  ghost predicate Visits(s: nat, inc: nat, y: nat) {
    exists i: nat :: i < TWO_64 && Orbit(s, inc, i) == y
  }

  lemma NoRepeats(s: nat, inc: nat)
    requires s < TWO_64 && inc % 2 == 1
    ensures Injective(DrawStates(s, inc), Below(TWO_64))
    ensures forall i :: i in Below(TWO_64) ==> DrawStates(s, inc)(i) in Below(TWO_64)
  {
    var f, all := DrawStates(s, inc), Below(TWO_64);
    forall i, j | i in all && j in all && f(i) == f(j)
      ensures i == j
    {
      if i < j {
        NoEarlyRepeat(s, inc, i, j);
      } else if j < i {
        NoEarlyRepeat(s, inc, j, i);
      }
    }
    forall i | i in all
      ensures f(i) in all
    {
      OrbitBound(s, inc, i);
    }
  }

  /** Full period: the first 2^64 draws start from every 64-bit state. */
  lemma FullPeriod(s: nat, inc: nat, y: nat)
    requires s < TWO_64 && inc % 2 == 1 && y < TWO_64
    ensures Visits(s, inc, y)
  {
    var f, all := DrawStates(s, inc), Below(TWO_64);
    NoRepeats(s, inc);
    InjectionIsOnto(f, all, y);
    var i :| i in all && f(i) == y;
    assert Orbit(s, inc, i) == y;
  }

  // ---------------------------------------------------------------- seeding

  /** Shifting in a one: the low `w` bits of `x`, doubled, plus one. */
  lemma ShiftInOne(x: nat, w: nat)
    ensures Or(Shl(x, 1, w + 1), 1) == 1 + 2 * Low(x, w)
  {
    var h := Low(x, w);
    assert Concat(x, 0, 1) == 2 * Concat(x, 0, 0);
    Halves(0, x);
    Halves(0, h);
    OrComm(h, 0);
    OrZero(h);
  }

  lemma OddWord(x: nat, w: nat)
    ensures var v := Or(Shl(x, 1, w + 1), 1);
      v == 1 + 2 * Low(x, w) && v % 2 == 1 && v < Pow2(w + 1)
  {
    var h := Low(x, w);
    ShiftInOne(x, w);
    LowBound(x, w);
    Halves(1, h);
    assert 1 + 2 * h < 2 * Pow2(w);
  }

  /** Seeding always leaves an odd increment, made of the low 63 bits of the sequence number. */
  lemma SeedsOddIncrement(initseq: nat)
    ensures StreamIncrement(initseq) == 1 + 2 * Low(initseq, 63)
    ensures StreamIncrement(initseq) % 2 == 1 && StreamIncrement(initseq) < TWO_64
  {
    OddWord(initseq, 63);
    WordSizes();
  }

  lemma SameStep(s: int, t: int, a: int, inc: int, m: int)
    requires m > 0 && (s * a + inc) % m == (t * a + inc) % m
    ensures a * (s - t) % m == 0
  {
    SameMod(s * a + inc, t * a + inc, m);
    assert (s * a + inc) - (t * a + inc) == a * (s - t);
  }

  lemma SmallMultiple(d: int, m: int)
    requires -m < d < m && d % m == 0
    ensures d == 0
  {
  }

  /** One step loses no information, so distinct states stay distinct. */
  lemma StepInjective(s: nat, t: nat, inc: nat)
    requires s < TWO_64 && t < TWO_64
    requires Step(s, inc) == Step(t, inc)
    ensures s == t
  {
    WordIsMod(s * MULTIPLIER + inc);
    WordIsMod(t * MULTIPLIER + inc);
    SameStep(s, t, MULTIPLIER, inc, TWO_64);
    WordSizes();
    OddFactorMod(MULTIPLIER, s - t, TWO_64);
    SmallMultiple(s - t, TWO_64);
  }

  lemma SeededInjective(state1: nat, state2: nat, inc: nat)
    requires state1 < TWO_64 && state2 < TWO_64
    requires Seeded(state1, inc) == Seeded(state2, inc)
    ensures state1 == state2
  {
    var z := Step(0, inc);
    WordBound(z + state1);
    WordBound(z + state2);
    StepInjective(Word(z + state1), Word(z + state2), inc);
    WordIsMod(z + state1);
    WordIsMod(z + state2);
    SameMod(z + state1, z + state2, TWO_64);
    SmallMultiple(state1 - state2, TWO_64);
  }

  /** Seeding is injective: two seeds that leave the generator in the same state on the same
    * stream agree on the initial state and on the low 63 bits of the sequence number. */
  lemma SeedingInjective(state1: nat, state2: nat, seq1: nat, seq2: nat)
    requires state1 < TWO_64 && state2 < TWO_64
    requires StreamIncrement(seq1) == StreamIncrement(seq2)
    requires Seeded(state1, StreamIncrement(seq1)) == Seeded(state2, StreamIncrement(seq2))
    ensures state1 == state2 && Low(seq1, 63) == Low(seq2, 63)
  {
    SeedsOddIncrement(seq1);
    SeedsOddIncrement(seq2);
    SeededInjective(state1, state2, StreamIncrement(seq1));
  }

  lemma StepIs(s: nat, inc: nat)
    ensures Step(s, inc) == (s * 6364136223846793005 + inc) % 0x1_0000_0000_0000_0000
  {
    WordIsMod(s * MULTIPLIER + inc);
  }

  lemma StepOfSum(x: nat, inc: nat)
    ensures Step(Word(x), inc) == (x * 6364136223846793005 + inc) % 0x1_0000_0000_0000_0000
  {
    WordIsMod(x);
    StepIs(Word(x), inc);
    ModStep(x, MULTIPLIER, inc, TWO_64);
  }

  lemma HalfWord(x: nat)
    ensures Low(x, 63) == x % 0x8000_0000_0000_0000
  {
    WordSizes();
    assert Pow2(64) == 2 * Pow2(63);
    ShrLowArithmetic(x, 63);
  }

  /** Seeding in integers: the increment is twice the sequence number, cut to 63 bits, plus one; the
    * step from zero leaves the increment itself, the initial state is added, and one more step taken. */
  lemma SeedingIs(initstate: nat, initseq: nat, inc: nat, state: nat)
    requires inc == StreamIncrement(initseq) && state == Seeded(initstate, inc)
    ensures inc == 1 + 2 * (initseq % 0x8000_0000_0000_0000)
    ensures state == ((initstate + inc) * 6364136223846793005 + inc) % 0x1_0000_0000_0000_0000
  {
    SeedsOddIncrement(initseq);
    HalfWord(initseq);
    FirstStep(inc);
    StepOfSum(inc + initstate, inc);
  }

  lemma FirstStep(inc: nat)
    requires inc < TWO_64
    ensures Step(0, inc) == inc
  {
    StepIs(0, inc);
    DivModUnique(inc, TWO_64, 0, inc);
  }
}
