/** The output permutation of PCG32, and its exact uniformity over the 2^64 states. */
module PcgOutput {
  import opened Bits
  import opened Counting
  import opened PcgPeriod

  /** The 32 bits left by the xorshift. */
  function XorShifted(s: nat): nat {
    Low(Shr(Xor(Shr(s, 18), s), 27), 32)
  }

  /** `-x` on 32-bit words. */
  function Neg32(x: nat): nat {
    Truncated(x);
    Low(TWO_32 - Low(x, 32), 32)
  }

  lemma Truncated(x: nat)
    ensures Low(x, 32) < TWO_32
  {
    WordSizes();
    LowBound(x, 32);
  }

  /** A right rotation of a 32-bit word, as the shift pair that the code writes. */
  function Rotate(x: nat, rot: nat): nat {
    Or(Shr(x, rot), Shl(x, And(Neg32(rot), 31), 32))
  }

  /** The output drawn from state `s`. */
  function Output(s: nat): nat {
    Rotate(XorShifted(s), Shr(s, 59))
  }

  // ---------------------------------------------------------------- rotation

  lemma NegatedRotation(rot: nat)
    requires rot < 32
    ensures And(Neg32(rot), 31) == if rot == 0 then 0 else 32 - rot
  {
    var x := Neg32(rot);
    assert x % 32 == if rot == 0 then 0 else 32 - rot by {
      NegatedWord(rot);
    }
    assert Pow2(5) == 32 by {
      WordSizes();
    }
    AndLowMask(x, 5);
    ShrLowArithmetic(x, 5);
  }

  lemma NegatedWord(x: nat)
    requires x < TWO_32
    ensures Neg32(x) == if x == 0 then 0 else TWO_32 - x
  {
    WordSizes();
    FitsIsBelow(x, 32);
    LowOfWord(x, 32);
    if x > 0 {
      FitsIsBelow(TWO_32 - x, 32);
      LowOfWord(TWO_32 - x, 32);
    } else {
      ShrLowArithmetic(TWO_32, 32);
    }
  }

  /** The rotation moves the low `rot` bits to the top. */
  lemma RotateSplit(hi: nat, lo: nat, rot: nat)
    requires 0 < rot < 32 && Fits(hi, 32 - rot) && Fits(lo, rot)
    ensures Rotate(Concat(hi, lo, rot), rot) == Concat(lo, hi, 32 - rot)
  {
    var x, left := Concat(hi, lo, rot), 32 - rot;
    NegatedRotation(rot);
    assert Rotate(x, rot) == Or(Shr(x, rot), Shl(x, left, 32));
    Join(hi, lo, rot);
    ShlSplit(hi, lo, rot, left);
    OrDisjoint(hi, lo, left);
  }

  lemma RotateZero(x: nat)
    requires Fits(x, 32)
    ensures Rotate(x, 0) == x
  {
    NegatedRotation(0);
    LowOfWord(x, 32);
    OrSelf(x);
  }

  /** The inverse rotation. */
  function RotateLeft(r: nat, rot: nat): nat
    requires rot < 32
  {
    if rot == 0 then r else Concat(Low(r, 32 - rot), Shr(r, 32 - rot), rot)
  }

  lemma RightThenLeft(x: nat, rot: nat)
    requires rot < 32 && Fits(x, 32)
    ensures Fits(Rotate(x, rot), 32) && RotateLeft(Rotate(x, rot), rot) == x
  {
    if rot == 0 {
      RotateZero(x);
    } else {
      var hi, lo := Shr(x, rot), Low(x, rot);
      Unjoin(x, rot);
      ShrFits(x, 32 - rot, rot);
      RotateSplit(hi, lo, rot);
      JoinFits(lo, hi, rot, 32 - rot);
      Join(lo, hi, 32 - rot);
    }
  }

  lemma LeftThenRight(r: nat, rot: nat)
    requires rot < 32 && Fits(r, 32)
    ensures Fits(RotateLeft(r, rot), 32) && Rotate(RotateLeft(r, rot), rot) == r
  {
    if rot == 0 {
      RotateZero(r);
    } else {
      var hi, lo := Shr(r, 32 - rot), Low(r, 32 - rot);
      Unjoin(r, 32 - rot);
      ShrFits(r, rot, 32 - rot);
      RotateSplit(lo, hi, rot);
      JoinFits(lo, hi, 32 - rot, rot);
    }
  }

  lemma RotateBits(x: nat, rot: nat, b: nat)
    requires rot < 32 && b < 32 && Fits(x, 32)
    ensures Bit(Rotate(x, rot), b) == Bit(x, if b + rot < 32 then b + rot else b + rot - 32)
  {
    if rot == 0 {
      RotateZero(x);
    } else {
      var hi, lo := Shr(x, rot), Low(x, rot);
      Unjoin(x, rot);
      ShrFits(x, 32 - rot, rot);
      RotateSplit(hi, lo, rot);
      BitOfConcat(lo, hi, 32 - rot, b);
      if b < 32 - rot {
        BitOfShr(x, rot, b);
      } else {
        BitOfLow(x, rot, b - (32 - rot));
      }
    }
  }

  lemma XorShiftedBits(s: nat, p: nat)
    requires p < 32
    ensures Fits(XorShifted(s), 32) && Bit(XorShifted(s), p) == (Bit(s, 27 + p) != Bit(s, 45 + p))
  {
    var x := Xor(Shr(s, 18), s);
    Unjoin(Shr(x, 27), 32);
    BitOfLow(Shr(x, 27), 32, p);
    BitOfShr(x, 27, p);
    BitOfXor(Shr(s, 18), s, 27 + p);
    BitOfShr(s, 18, 27 + p);
  }

  /** The output bit by bit: bit `b` is the exclusive or of two bits of the state that lie 18 apart,
    * found by turning `b` by the state's top five bits. */
  lemma OutputBits(s: nat, b: nat)
    requires s < TWO_64 && b < 32
    ensures var p := (b + Shr(s, 59)) % 32; Bit(Output(s), b) == (Bit(s, 27 + p) != Bit(s, 45 + p))
  {
    var rot := Shr(s, 59);
    Widths(s);
    ShrFits(s, 5, 59);
    FiveBits(rot);
    var p := if b + rot < 32 then b + rot else b + rot - 32;
    assert (b + rot) % 32 == p;
    XorShiftedBits(s, p);
    RotateBits(XorShifted(s), rot, b);
  }

  // ---------------------------------------------------------------- the xorshift

  /** The top five bits of the state, moved to where the xorshift meets the top of the middle
    * bits, above the 14 bits that the middle contributes itself. */
  function Mix(rot: nat, m: nat): nat {
    Xor(Concat(rot, Shr(m, 18), 14), m)
  }

  function Unmix(rot: nat, x: nat): nat {
    Xor(Concat(rot, Xor(Shr(rot, 4), Shr(x, 18)), 14), x)
  }

  lemma Spread(rot: nat, h: nat)
    requires Fits(rot, 5) && Fits(h, 14)
    ensures Fits(Concat(rot, h, 14), 32)
    ensures Shr(Concat(rot, h, 14), 18) == Shr(rot, 4)
  {
    JoinFits(rot, h, 5, 14);
    FitsMore(Concat(rot, h, 14), 19, 32);
    Join(rot, h, 14);
    ShrShr(Concat(rot, h, 14), 14, 4);
  }

  lemma MixThenUnmix(rot: nat, m: nat)
    requires Fits(rot, 5) && Fits(m, 32)
    ensures Fits(Mix(rot, m), 32) && Unmix(rot, Mix(rot, m)) == m
  {
    var h := Shr(m, 18);
    ShrFits(m, 14, 18);
    Spread(rot, h);
    var t := Concat(rot, h, 14);
    XorFits(t, m, 32);
    XorShr(t, m, 18);
    XorCancel(Shr(rot, 4), h);
    XorCancel(t, m);
  }

  lemma UnmixThenMix(rot: nat, x: nat)
    requires Fits(rot, 5) && Fits(x, 32)
    ensures Fits(Unmix(rot, x), 32) && Mix(rot, Unmix(rot, x)) == x
  {
    var top, low := Shr(rot, 4), Shr(x, 18);
    var h := Xor(top, low);
    ShrFits(rot, 1, 4);
    FitsMore(top, 1, 14);
    ShrFits(x, 14, 18);
    XorFits(top, low, 14);
    Spread(rot, h);
    var t := Concat(rot, h, 14);
    XorFits(t, x, 32);
    XorShr(t, x, 18);
    XorCancel(top, low);
    XorCancel(t, x);
  }

  // ---------------------------------------------------------------- states by their fields

  /** The state with rotation bits `rot`, middle bits `m` and low bits `low`. */
  function Assemble(rot: nat, m: nat, low: nat): nat {
    Concat(Concat(rot, m, 32), low, 27)
  }

  lemma AssembleFields(rot: nat, m: nat, low: nat)
    requires Fits(rot, 5) && Fits(m, 32) && Fits(low, 27)
    ensures Fits(Assemble(rot, m, low), 64) && Low(Assemble(rot, m, low), 27) == low
    ensures Shr(Assemble(rot, m, low), 27) == Concat(rot, m, 32)
    ensures Shr(Assemble(rot, m, low), 59) == rot
  {
    var y := Concat(rot, m, 32);
    JoinFits(rot, m, 5, 32);
    JoinFits(y, low, 37, 27);
    Join(y, low, 27);
    Join(rot, m, 32);
    ShrShr(Assemble(rot, m, low), 27, 32);
  }

  lemma DisassembleState(s: nat) returns (rot: nat, m: nat, low: nat)
    requires Fits(s, 64)
    ensures Fits(rot, 5) && Fits(m, 32) && Fits(low, 27) && s == Assemble(rot, m, low)
  {
    var y := Shr(s, 27);
    rot, m, low := Shr(y, 32), Low(y, 32), Low(s, 27);
    Unjoin(s, 27);
    Unjoin(y, 32);
    ShrFits(s, 37, 27);
    ShrFits(y, 5, 32);
  }

  /** The shifts commute with the exclusive or, so only the bits from 27 up matter. */
  lemma XorShiftedOfHigh(s: nat, y: nat)
    requires y == Shr(s, 27)
    ensures XorShifted(s) == Xor(Low(Shr(y, 18), 32), Low(y, 32))
  {
    XorShr(Shr(s, 18), s, 27);
    ShrShr(s, 18, 27);
    ShrShr(s, 27, 18);
    XorLow(Shr(y, 18), y, 32);
  }

  lemma XorShiftedIsMix(rot: nat, m: nat, low: nat)
    requires Fits(rot, 5) && Fits(m, 32) && Fits(low, 27)
    ensures XorShifted(Assemble(rot, m, low)) == Mix(rot, m)
  {
    var y := Concat(rot, m, 32);
    AssembleFields(rot, m, low);
    XorShiftedOfHigh(Assemble(rot, m, low), y);
    Join(rot, m, 32);
    ShrSplit(rot, m, 14, 18);
    ShrFits(m, 14, 18);
    Spread(rot, Shr(m, 18));
    LowOfWord(Shr(y, 18), 32);
  }

  lemma FiveBits(rot: nat)
    ensures Fits(rot, 5) <==> rot < 32
  {
    WordSizes();
    FitsIsBelow(rot, 5);
  }

  lemma OutputOfAssembled(rot: nat, m: nat, low: nat)
    requires Fits(rot, 5) && Fits(m, 32) && Fits(low, 27)
    ensures Output(Assemble(rot, m, low)) == Rotate(Mix(rot, m), rot)
  {
    AssembleFields(rot, m, low);
    XorShiftedIsMix(rot, m, low);
  }

  // ---------------------------------------------------------------- uniformity of the output

  /** The state that outputs `r` with rotation bits `rot` and the 27 unused bits `low`. */
  function Preimage(r: nat, rot: nat, low: nat): nat
    requires rot < 32
  {
    Assemble(rot, Unmix(rot, RotateLeft(r, rot)), low)
  }

  lemma PreimageOutputs(r: nat, rot: nat, low: nat)
    requires Fits(r, 32) && rot < 32 && Fits(low, 27)
    ensures Fits(Preimage(r, rot, low), 64) && Output(Preimage(r, rot, low)) == r
    ensures Shr(Preimage(r, rot, low), 59) == rot && Low(Preimage(r, rot, low), 27) == low
  {
    FiveBits(rot);
    var x := RotateLeft(r, rot);
    LeftThenRight(r, rot);
    UnmixThenMix(rot, x);
    OutputOfAssembled(rot, Unmix(rot, x), low);
    AssembleFields(rot, Unmix(rot, x), low);
  }

  lemma EveryStateIsPreimage(s: nat) returns (rot: nat, low: nat)
    requires Fits(s, 64)
    ensures Fits(Output(s), 32) && rot < 32 && Fits(low, 27)
    ensures s == Preimage(Output(s), rot, low)
  {
    var m: nat;
    rot, m, low := DisassembleState(s);
    FiveBits(rot);
    MixThenUnmix(rot, m);
    OutputOfAssembled(rot, m, low);
    RightThenLeft(Mix(rot, m), rot);
  }

  /** The `k`-th state that outputs `r`, for `k` below 2^32, and the way back. */
  ghost function PreimageAt(r: nat): int -> int {
    k => if 0 <= k && Shr(k, 27) < 32 then Preimage(r, Shr(k, 27), Low(k, 27)) else -1
  }

  ghost function PreimageIndex(): int -> int {
    s => if s < 0 then -1 else Concat(Shr(s, 59), Low(s, 27), 27)
  }

  ghost function OutputOf(): int -> int {
    s => if s < 0 then -1 else Output(s)
  }

  ghost function StatesWithOutput(r: int): set<int> {
    Fibre(OutputOf(), Below(TWO_64), r)
  }

  lemma PreimageAtOutputs(r: nat, k: nat)
    requires Fits(r, 32) && Fits(k, 32)
    ensures 0 <= PreimageAt(r)(k) && Fits(PreimageAt(r)(k), 64)
    ensures OutputOf()(PreimageAt(r)(k)) == r
    ensures PreimageIndex()(PreimageAt(r)(k)) == k
  {
    var rot, low := Shr(k, 27), Low(k, 27);
    ShrFits(k, 5, 27);
    FiveBits(rot);
    Unjoin(k, 27);
    PreimageOutputs(r, rot, low);
  }

  lemma PreimageIndexInverse(s: nat)
    requires Fits(s, 64)
    ensures 0 <= PreimageIndex()(s) && Fits(PreimageIndex()(s), 32)
    ensures PreimageAt(Output(s))(PreimageIndex()(s)) == s
  {
    var rot, low := EveryStateIsPreimage(s);
    PreimageOutputs(Output(s), rot, low);
    FiveBits(rot);
    JoinFits(rot, low, 5, 27);
    Join(rot, low, 27);
  }

  lemma Widths(x: nat)
    ensures Fits(x, 32) <==> x < TWO_32
    ensures Fits(x, 64) <==> x < TWO_64
  {
    WordSizes();
    FitsIsBelow(x, 32);
    FitsIsBelow(x, 64);
  }

  /** Every 32-bit word is the output of exactly 2^32 of the 2^64 states. */
  lemma OutputUniform(r: nat)
    requires r < TWO_32
    ensures |StatesWithOutput(r)| == TWO_32
  {
    var f, g, states := PreimageAt(r), PreimageIndex(), StatesWithOutput(r);
    Widths(r);
    forall k | k in Below(TWO_32)
      ensures f(k) in states && g(f(k)) == k
    {
      Widths(k);
      PreimageAtOutputs(r, k);
      Widths(f(k));
    }
    forall s | s in states
      ensures g(s) in Below(TWO_32) && f(g(s)) == s
    {
      Widths(s);
      PreimageIndexInverse(s);
      Widths(g(s));
    }
    BijectionSize(f, g, TWO_32, states);
  }

  lemma OutputBound(s: nat)
    requires s < TWO_64
    ensures Output(s) < TWO_32
  {
    Widths(s);
    var _, _ := EveryStateIsPreimage(s);
    Widths(Output(s));
  }

  /** Some draw of every period outputs the largest 32-bit word. */
  lemma ReachesLargestOutput(s: nat, inc: nat) returns (n: nat)
    requires s < TWO_64 && inc % 2 == 1
    ensures n < TWO_64 && Orbit(s, inc, n) < TWO_64
    ensures Output(Orbit(s, inc, n)) == TWO_32 - 1
  {
    var y := Preimage(TWO_32 - 1, 0, 0);
    Widths(TWO_32 - 1);
    ShrZero(27);
    PreimageOutputs(TWO_32 - 1, 0, 0);
    Widths(y);
    FullPeriod(s, inc, y);
    n :| n < TWO_64 && Orbit(s, inc, n) == y;
  }
}
