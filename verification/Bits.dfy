/** Machine words as natural numbers. Shifts, fields and the bitwise operators are defined one
  * bit at a time, so they work at every width; the last section gives their arithmetic meaning. */
module Bits {

  const TWO_32: nat := 0x1_0000_0000
  const TWO_64: nat := 0x1_0000_0000_0000_0000

  /** `x >> k` on an unsigned word. */
  function Shr(x: nat, k: nat): nat {
    if k == 0 then x else Shr(x / 2, k - 1)
  }

  /** The low `k` bits of `x`: truncation to a `k`-bit word. */
  function Low(x: nat, k: nat): nat {
    if k == 0 then 0 else x % 2 + 2 * Low(x / 2, k - 1)
  }

  /** `hi` above the `k` low bits of `lo`. */
  function Concat(hi: nat, lo: nat, k: nat): nat {
    if k == 0 then hi else lo % 2 + 2 * Concat(hi, lo / 2, k - 1)
  }

  /** `x << k` on an unsigned word of `w` bits: the bits pushed past the top are lost. */
  function Shl(x: nat, k: nat, w: nat): nat {
    Low(Concat(x, 0, k), w)
  }

  /** `x` is a word of `k` bits. */
  predicate Fits(x: nat, k: nat) {
    Shr(x, k) == 0
  }

  function Xor(a: nat, b: nat): nat
    decreases a + b
  {
    if a == 0 && b == 0 then 0
    else (if a % 2 != b % 2 then 1 else 0) + 2 * Xor(a / 2, b / 2)
  }

  function Or(a: nat, b: nat): nat
    decreases a + b
  {
    if a == 0 && b == 0 then 0
    else (if a % 2 == 1 || b % 2 == 1 then 1 else 0) + 2 * Or(a / 2, b / 2)
  }

  function And(a: nat, b: nat): nat
    decreases a + b
  {
    if a == 0 && b == 0 then 0
    else (if a % 2 == 1 && b % 2 == 1 then 1 else 0) + 2 * And(a / 2, b / 2)
  }

  function PopCount(x: nat): nat {
    if x == 0 then 0 else x % 2 + PopCount(x / 2)
  }

  // ---------------------------------------------------------------- shifts and fields

  /** Splitting a word into its lowest bit and the rest. */
  lemma Halves(b: nat, h: nat)
    requires b < 2
    ensures (b + 2 * h) % 2 == b && (b + 2 * h) / 2 == h
  {
  }

  lemma {:induction false} ShrShr(x: nat, i: nat, j: nat)
    ensures Shr(Shr(x, i), j) == Shr(x, i + j)
  {
    if i == 0 {
    } else {
      ShrShr(x / 2, i - 1, j);
    }
  }

  /** A field can be read back from the word it was put in. */
  lemma {:induction false} Join(hi: nat, lo: nat, k: nat)
    requires Fits(lo, k)
    ensures Shr(Concat(hi, lo, k), k) == hi && Low(Concat(hi, lo, k), k) == lo
  {
    if k == 0 {
    } else {
      Halves(lo % 2, Concat(hi, lo / 2, k - 1));
      Join(hi, lo / 2, k - 1);
    }
  }

  lemma {:induction false} Unjoin(x: nat, k: nat)
    ensures Concat(Shr(x, k), Low(x, k), k) == x && Fits(Low(x, k), k)
  {
    if k == 0 {
    } else {
      Halves(x % 2, Low(x / 2, k - 1));
      Unjoin(x / 2, k - 1);
    }
  }

  lemma JoinFits(hi: nat, lo: nat, i: nat, j: nat)
    requires Fits(hi, i) && Fits(lo, j)
    ensures Fits(Concat(hi, lo, j), j + i)
  {
    Join(hi, lo, j);
    ShrShr(Concat(hi, lo, j), j, i);
  }

  /** Dropping low bits leaves a shorter word. */
  lemma ShrFits(x: nat, i: nat, j: nat)
    ensures Fits(Shr(x, j), i) <==> Fits(x, j + i)
  {
    ShrShr(x, j, i);
  }

  lemma {:induction false} FitsMore(x: nat, i: nat, j: nat)
    requires Fits(x, i) && i <= j
    ensures Fits(x, j)
  {
    ShrShr(x, i, j - i);
    ShrZero(j - i);
  }

  lemma {:induction false} ShrZero(k: nat)
    ensures Shr(0, k) == 0
  {
    if k == 0 {
    } else {
      ShrZero(k - 1);
    }
  }

  lemma {:induction false} LowOfWord(x: nat, k: nat)
    requires Fits(x, k)
    ensures Low(x, k) == x
  {
    if k == 0 {
    } else {
      LowOfWord(x / 2, k - 1);
    }
  }

  lemma {:induction false} ConcatConcat(hi: nat, mid: nat, lo: nat, i: nat, j: nat)
    ensures Concat(Concat(hi, mid, i), lo, j) == Concat(hi, Concat(mid, lo, j), i + j)
    decreases j
  {
    if j == 0 {
    } else {
      Halves(lo % 2, Concat(mid, lo / 2, j - 1));
      ConcatConcat(hi, mid, lo / 2, i, j - 1);
    }
  }

  /** Shifting left by `j` in `i + j` bits keeps the low `i` bits. */
  lemma ShlSplit(hi: nat, lo: nat, i: nat, j: nat)
    requires Fits(lo, i)
    ensures Shl(Concat(hi, lo, i), j, i + j) == Concat(lo, 0, j)
  {
    ConcatConcat(hi, lo, 0, i, j);
    ShrZero(j);
    JoinFits(lo, 0, i, j);
    Join(hi, Concat(lo, 0, j), i + j);
  }

  /** A right shift that stays inside the low part moves only the low part. */
  lemma {:induction false} ShrSplit(hi: nat, lo: nat, i: nat, k: nat)
    ensures Shr(Concat(hi, lo, i + k), k) == Concat(hi, Shr(lo, k), i)
    decreases k
  {
    if k == 0 {
    } else {
      ShrSplit(hi, lo / 2, i, k - 1);
    }
  }

  // ---------------------------------------------------------------- single bits

  predicate Bit(x: nat, k: nat) {
    Shr(x, k) % 2 == 1
  }

  lemma BitOfShr(x: nat, j: nat, k: nat)
    ensures Bit(Shr(x, j), k) == Bit(x, j + k)
  {
    ShrShr(x, j, k);
  }

  lemma {:induction false} BitOfConcat(hi: nat, lo: nat, k: nat, j: nat)
    ensures Bit(Concat(hi, lo, k), j) == if j < k then Bit(lo, j) else Bit(hi, j - k)
    decreases k
  {
    if k == 0 {
    } else {
      Halves(lo % 2, Concat(hi, lo / 2, k - 1));
      if j > 0 {
        BitOfConcat(hi, lo / 2, k - 1, j - 1);
      }
    }
  }

  lemma BitOfLow(x: nat, k: nat, j: nat)
    requires j < k
    ensures Bit(Low(x, k), j) == Bit(x, j)
  {
    Unjoin(x, k);
    BitOfConcat(Shr(x, k), x, k, j);
    BitOfConcat(Shr(x, k), Low(x, k), k, j);
  }

  lemma BitOfXor(a: nat, b: nat, k: nat)
    ensures Bit(Xor(a, b), k) == (Bit(a, k) != Bit(b, k))
  {
    XorShr(a, b, k);
    Halves(if Shr(a, k) % 2 != Shr(b, k) % 2 then 1 else 0, Xor(Shr(a, k) / 2, Shr(b, k) / 2));
  }

  lemma {:induction false} BitOfAnd(a: nat, b: nat, k: nat)
    ensures Bit(And(a, b), k) == (Bit(a, k) && Bit(b, k))
    decreases k
  {
    Halves(if a % 2 == 1 && b % 2 == 1 then 1 else 0, And(a / 2, b / 2));
    if k == 0 {
    } else {
      BitOfAnd(a / 2, b / 2, k - 1);
    }
  }

  lemma {:induction false} BitOfOr(a: nat, b: nat, k: nat)
    ensures Bit(Or(a, b), k) == (Bit(a, k) || Bit(b, k))
    decreases k
  {
    Halves(if a % 2 == 1 || b % 2 == 1 then 1 else 0, Or(a / 2, b / 2));
    if k == 0 {
    } else {
      BitOfOr(a / 2, b / 2, k - 1);
    }
  }

  // ---------------------------------------------------------------- exclusive or

  lemma {:induction false} XorShr(a: nat, b: nat, k: nat)
    ensures Shr(Xor(a, b), k) == Xor(Shr(a, k), Shr(b, k))
    decreases k
  {
    if k == 0 {
    } else {
      Halves(if a % 2 != b % 2 then 1 else 0, Xor(a / 2, b / 2));
      XorShr(a / 2, b / 2, k - 1);
    }
  }

  lemma {:induction false} XorLow(a: nat, b: nat, k: nat)
    ensures Low(Xor(a, b), k) == Xor(Low(a, k), Low(b, k))
    decreases k
  {
    if k == 0 {
    } else {
      Halves(if a % 2 != b % 2 then 1 else 0, Xor(a / 2, b / 2));
      XorLow(a / 2, b / 2, k - 1);
      XorStep(a % 2, b % 2, Low(a / 2, k - 1), Low(b / 2, k - 1));
    }
  }

  lemma XorStep(u: nat, v: nat, x: nat, y: nat)
    requires u < 2 && v < 2
    ensures Xor(u + 2 * x, v + 2 * y) == (if u != v then 1 else 0) + 2 * Xor(x, y)
  {
  }

  lemma {:induction false} XorCancel(a: nat, b: nat)
    ensures Xor(a, Xor(a, b)) == b
    decreases a + b
  {
    if a == 0 && b == 0 {
    } else {
      XorCancel(a / 2, b / 2);
    }
  }

  lemma XorFits(a: nat, b: nat, k: nat)
    requires Fits(a, k) && Fits(b, k)
    ensures Fits(Xor(a, b), k)
  {
    XorShr(a, b, k);
  }

  // ---------------------------------------------------------------- or, and, population count

  lemma {:induction false} OrSelf(x: nat)
    ensures Or(x, x) == x
  {
    if x == 0 {
    } else {
      OrSelf(x / 2);
    }
  }

  lemma {:induction false} OrZero(x: nat)
    ensures Or(0, x) == x
  {
    if x == 0 {
    } else {
      OrZero(x / 2);
    }
  }

  lemma {:induction false} OrComm(a: nat, b: nat)
    ensures Or(a, b) == Or(b, a)
    decreases a + b
  {
    if a == 0 && b == 0 {
    } else {
      OrComm(a / 2, b / 2);
    }
  }

  /** Or-ing a word of `k` bits under bits shifted past it joins the two. */
  lemma {:induction false} OrDisjoint(lo: nat, hi: nat, k: nat)
    requires Fits(lo, k)
    ensures Or(lo, Concat(hi, 0, k)) == Concat(hi, lo, k)
    decreases k
  {
    if k == 0 {
      OrZero(hi);
    } else {
      OrDisjoint(lo / 2, hi, k - 1);
    }
  }

  lemma {:induction false} AndZero(x: nat)
    ensures And(x, 0) == 0
  {
    if x == 0 {
    } else {
      AndZero(x / 2);
    }
  }

  lemma {:induction false} AndSelf(x: nat)
    ensures And(x, x) == x
  {
    if x == 0 {
    } else {
      AndSelf(x / 2);
    }
  }

  /** Masking with `2^k - 1` keeps the low `k` bits. */
  lemma {:induction false} AndLowMask(x: nat, k: nat)
    ensures And(x, Pow2(k) - 1) == Low(x, k)
    decreases k
  {
    if k == 0 {
      AndZero(x);
    } else {
      Halves(1, Pow2(k - 1) - 1);
      AndLowMask(x / 2, k - 1);
    }
  }

  lemma {:induction false} PopCountLowMask(k: nat)
    ensures PopCount(Pow2(k) - 1) == k
  {
    if k == 0 {
    } else {
      Halves(1, Pow2(k - 1) - 1);
      PopCountLowMask(k - 1);
    }
  }

  ghost predicate IsPow2(s: nat) {
    exists k: nat :: s == Pow2(k)
  }

  /** The test `s & (s - 1)` is zero exactly for the powers of two. */
  lemma {:induction false} ClearLowestBit(s: nat)
    requires s > 0
    ensures And(s, s - 1) == 0 <==> IsPow2(s)
  {
    if s == 1 {
      assert s == Pow2(0);
    } else if s % 2 == 1 {
      AndSelf(s / 2);
      if k: nat :| s == Pow2(k) {
        assert false;
      }
    } else {
      var h := s / 2;
      ClearLowestBit(h);
      if k: nat :| h == Pow2(k) {
        assert s == Pow2(k + 1);
      }
      if k: nat :| s == Pow2(k) {
        assert h == Pow2(k - 1);
      }
    }
  }

  /** Flipping bit `j` leaves the bits below it alone and moves the word between the two
    * residues that extend them. */
  lemma {:induction false} XorBit(x: nat, j: nat)
    ensures var m, low := Pow2(j), Low(x, j);
      || (Low(x, j + 1) == low && Low(Xor(x, m), j + 1) == low + m)
      || (Low(x, j + 1) == low + m && Low(Xor(x, m), j + 1) == low)
    decreases j
  {
    if j == 0 {
      Halves(if x % 2 != 1 then 1 else 0, Xor(x / 2, 0));
      assert Low(x, 1) == x % 2 && Low(Xor(x, 1), 1) == Xor(x, 1) % 2;
    } else {
      var h, m := x / 2, Pow2(j - 1);
      XorEven(x, m);
      Halves(x % 2, Xor(h, m));
      XorBit(h, j - 1);
    }
  }

  lemma XorEven(x: nat, m: nat)
    ensures Xor(x, 2 * m) == x % 2 + 2 * Xor(x / 2, m)
  {
  }

  // ---------------------------------------------------------------- arithmetic meaning

  function Pow2(k: nat): (p: nat)
    ensures p > 0
  {
    if k == 0 then 1 else 2 * Pow2(k - 1)
  }

  lemma {:induction false} Pow2Smaller(j: nat, k: nat)
    requires j < k
    ensures Pow2(j) < Pow2(k)
    decreases k
  {
    if j < k - 1 {
      Pow2Smaller(j, k - 1);
    }
  }

  lemma {:induction false} Pow2Add(i: nat, j: nat)
    ensures Pow2(i + j) == Pow2(i) * Pow2(j)
  {
    if i == 0 {
    } else {
      Pow2Add(i - 1, j);
    }
  }

  lemma Pow2Double(k: nat, v: nat)
    requires Pow2(k) == v
    ensures Pow2(k + k) == v * v
  {
    Pow2Add(k, k);
  }

  lemma WordSizes()
    ensures Pow2(5) == 32 && Pow2(32) == 0x1_0000_0000 && Pow2(64) == 0x1_0000_0000_0000_0000
  {
    Pow2Double(2, 4);
    Pow2Double(4, 0x10);
    Pow2Double(8, 0x100);
    Pow2Double(16, 0x1_0000);
    Pow2Double(32, 0x1_0000_0000);
  }

  lemma MulLe(a: int, b: int, d: int)
    requires a <= b && d >= 0
    ensures a * d <= b * d
  {
  }

  /** Quotient and remainder are determined by their defining equation. */
  lemma DivModUnique(x: int, d: int, q: int, r: int)
    requires d > 0 && 0 <= r < d && x == q * d + r
    ensures x / d == q && x % d == r
  {
    var q', r' := x / d, x % d;
    assert (q - q') * d == r' - r;
    if q > q' {
      MulLe(1, q - q', d);
    } else if q < q' {
      MulLe(1, q' - q, d);
    }
  }

  lemma DivMod(x: nat, d: nat)
    requires d > 0
    ensures x == x / d * d + x % d && x % d < d
  {
  }

  /** Adding a multiple keeps the remainder. */
  lemma AddMultiple(x: int, k: int, d: int)
    requires d > 0
    ensures (x + k * d) % d == x % d
  {
    var q, r := x / d, x % d;
    assert x + k * d == (q + k) * d + r;
    DivModUnique(x + k * d, d, q + k, r);
  }

  lemma FactorPositive(a: nat, b: nat)
    requires a * b > 0
    ensures a > 0
  {
  }

  /** A product may be cut to a word before or after multiplying. */
  lemma CutProduct(x: nat, y: nat, word: nat)
    requires word > 0
    ensures x % word * y % word == x * y % word
  {
    var q, r := x / word, x % word;
    var p, s := r * y / word, r * y % word;
    SplitProduct(x, y, word, q, r, p, s);
    DivModUnique(x * y, word, q * y + p, s);
  }

  lemma SplitProduct(x: nat, y: nat, word: nat, q: nat, r: nat, p: nat, s: nat)
    requires x == q * word + r && r * y == p * word + s
    ensures x * y == (q * y + p) * word + s
  {
    assert x * y == q * word * y + r * y;
  }

  lemma {:induction false} ConcatIsSum(hi: nat, lo: nat, k: nat)
    requires lo < Pow2(k)
    ensures Concat(hi, lo, k) == hi * Pow2(k) + lo
    decreases k
  {
    if k == 0 {
    } else {
      ConcatIsSum(hi, lo / 2, k - 1);
      assert hi * Pow2(k) == 2 * (hi * Pow2(k - 1));
    }
  }

  lemma {:induction false} LowBound(x: nat, k: nat)
    ensures Low(x, k) < Pow2(k)
    decreases k
  {
    if k == 0 {
    } else {
      LowBound(x / 2, k - 1);
    }
  }

  /** Shifting right is division, truncating is the remainder. */
  lemma ShrLowArithmetic(x: nat, k: nat)
    ensures Shr(x, k) == x / Pow2(k) && Low(x, k) == x % Pow2(k)
  {
    Unjoin(x, k);
    LowBound(x, k);
    ConcatIsSum(Shr(x, k), Low(x, k), k);
    DivModUnique(x, Pow2(k), Shr(x, k), Low(x, k));
  }

  lemma {:induction false} FitsIsBelow(x: nat, k: nat)
    ensures Fits(x, k) <==> x < Pow2(k)
    decreases k
  {
    if k == 0 {
    } else {
      FitsIsBelow(x / 2, k - 1);
    }
  }
}
