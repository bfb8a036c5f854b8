/** Views of multi-dimensional arrays: unravelling an index without division where it can,
  * recognising contiguous strides, and reshaping. */
module Mdspan {
  import opened Bits
  import opened Wrappers
  import opened IndexSpace

  // ---------------------------------------------------------------- population count

  /** Subtracting one and masking removes exactly one set bit. */
  lemma {:induction false} PopCountClear(v: nat)
    requires v > 0
    ensures PopCount(And(v, v - 1)) == PopCount(v) - 1 && And(v, v - 1) < v
  {
    if v % 2 == 1 {
      AndSelf(v / 2);
      assert (v - 1) / 2 == v / 2;
    } else {
      assert (v - 1) / 2 == v / 2 - 1;
      PopCountClear(v / 2);
    }
  }

  method NativePopCount(v: nat) returns (c: nat)
    ensures c == PopCount(v)
  {
    c := 0;
    var rest := v;
    while rest != 0
      invariant c + PopCount(rest) == PopCount(v)
      decreases rest
    {
      PopCountClear(rest);
      c := c + 1;
      rest := And(rest, rest - 1);
    }
  }

  // ---------------------------------------------------------------- unravelling

  datatype Digit = Digit(coordinate: nat, rest: nat)

  function DivideDown(idx: nat, s: nat): Digit
    requires s > 0
  {
    DivMod(idx, s);
    var t := idx / s;
    Digit(idx - t * s, t)
  }

  /** One dimension of extent `s`: masking and shifting for a power of two, dividing otherwise.
    * For `s` zero the shift would be by the whole word, which has no defined result. */
  function StepDown(idx: nat, s: nat): Option<Digit> {
    if s == 0 then None
    else if And(s, s - 1) != 0 then Some(DivideDown(idx, s))
    else Some(Digit(And(idx, s - 1), Shr(idx, PopCount(s - 1))))
  }

  /** Both branches divide. */
  lemma StepDivides(idx: nat, s: nat)
    requires s > 0
    ensures StepDown(idx, s) == Some(Digit(idx % s, idx / s))
  {
    ClearLowestBit(s);
    if And(s, s - 1) == 0 {
      var k: nat :| s == Pow2(k);
      AndLowMask(idx, k);
      PopCountLowMask(k);
      ShrLowArithmetic(idx, k);
    } else {
      DivMod(idx, s);
    }
  }

  /** The coordinates that the loop computes with extents cut to words below `word`. */
  function UnravelBits(idx: nat, shape: seq<nat>, word: nat): (r: Option<seq<nat>>)
    requires |shape| > 0 && word > 0
    ensures r.Some? ==> |r.value| == |shape|
    decreases |shape|
  {
    if |shape| == 1 then Some([idx])
    else
      match StepDown(idx, shape[|shape| - 1] % word)
      case None => None
      case Some(d) =>
        match UnravelBits(d.rest, shape[..|shape| - 1], word)
        case None => None
        case Some(c) => Some(c + [d.coordinate])
  }

  function Append<T>(front: Option<seq<T>>, back: seq<T>): Option<seq<T>> {
    match front
    case None => None
    case Some(c) => Some(c + back)
  }

  lemma NextDimension(idx: nat, shape: seq<nat>, word: nat, index: seq<nat>)
    requires |shape| > 1 && word > 0
    ensures Append(UnravelBits(idx, shape, word), index) ==
      match StepDown(idx, shape[|shape| - 1] % word) {
        case None => None
        case Some(d) => Append(UnravelBits(d.rest, shape[..|shape| - 1], word), [d.coordinate] + index)
      }
  {
    match StepDown(idx, shape[|shape| - 1] % word)
    case None =>
    case Some(d) =>
      match UnravelBits(d.rest, shape[..|shape| - 1], word) {
        case None =>
        case Some(c) => assert c + [d.coordinate] + index == c + ([d.coordinate] + index);
      }
  }

  method UnravelIndexImpl(idx: nat, shape: seq<nat>, word: nat) returns (r: Option<seq<nat>>)
    requires |shape| > 0 && word > 0
    ensures r == UnravelBits(idx, shape, word)
  {
    var rest := idx;
    var index: seq<nat> := [];
    var dim := |shape| - 1;
    ghost var whole := UnravelBits(idx, shape, word);
    assert shape[..dim + 1] == shape;
    assert whole.Some? ==> whole.value + [] == whole.value;
    while dim > 0
      invariant 0 <= dim < |shape|
      invariant whole == Append(UnravelBits(rest, shape[..dim + 1], word), index)
    {
      NextDimension(rest, shape[..dim + 1], word, index);
      assert shape[..dim + 1][..dim] == shape[..dim];
      var step := StepDown(rest, shape[dim] % word);
      if step.None? {
        return None;
      }
      index := [step.value.coordinate] + index;
      rest := step.value.rest;
      dim := dim - 1;
    }
    r := Some([rest] + index);
  }

  /** Every extent after the first fits the word, or the index at that point is below what is left
    * of the extent. */
  predicate Survives(idx: nat, shape: seq<nat>, word: nat)
    requires |shape| > 0 && Positive(shape) && word > 0
    decreases |shape|
  {
    |shape| == 1 ||
    var d := shape[|shape| - 1];
    (d < word || idx < d % word) && Survives(idx / d, shape[..|shape| - 1], word)
  }

  lemma {:induction false} FittingSurvives(idx: nat, shape: seq<nat>, word: nat)
    requires |shape| > 0 && Positive(shape) && word > 0
    requires forall k :: 0 < k < |shape| ==> shape[k] < word
    ensures Survives(idx, shape, word)
    decreases |shape|
  {
    if |shape| > 1 {
      FittingSurvives(idx / shape[|shape| - 1], shape[..|shape| - 1], word);
    }
  }

  /** Cutting the extent changes the step exactly when the index reaches what is left of it. */
  lemma CutStep(idx: nat, d: nat, word: nat)
    requires d > 0 && idx < word
    ensures StepDown(idx, d % word) == Some(Digit(idx % d, idx / d)) <==> d < word || idx < d % word
    ensures StepDown(idx, d % word).Some? && StepDown(idx, d % word).value.coordinate == idx % d ==>
      d < word || idx < d % word
    ensures idx / d < word
  {
    if d < word {
      DivModUnique(d, word, 0, d);
      StepDivides(idx, d);
      QuotientBelow(idx, d, word);
    } else {
      DivModUnique(idx, d, 0, idx);
      if d % word > 0 {
        StepDivides(idx, d % word);
        if idx < d % word {
          DivModUnique(idx, d % word, 0, idx);
        }
      }
    }
  }

  lemma QuotientBelow(x: nat, d: nat, word: nat)
    requires d > 0 && x < word
    ensures x / d < word
  {
    MulLe(1, d, x / d);
  }

  lemma SameLast<T>(a: seq<T>, x: T, b: seq<T>, y: T)
    requires a + [x] == b + [y]
    ensures a == b && x == y
  {
    assert |a| == |b| && a == (a + [x])[..|a|] && b == (b + [y])[..|b|];
    assert (a + [x])[|a|] == (b + [y])[|b|];
  }

  lemma {:induction false} SurvivingUnravels(idx: nat, shape: seq<nat>, word: nat)
    requires |shape| > 0 && Positive(shape) && idx < word && Survives(idx, shape, word)
    ensures UnravelBits(idx, shape, word) == Some(Unravel(idx, shape))
    decreases |shape|
  {
    if |shape| > 1 {
      CutStep(idx, shape[|shape| - 1], word);
      SurvivingUnravels(idx / shape[|shape| - 1], shape[..|shape| - 1], word);
    }
  }

  /** The last coordinate comes from the last step, the others from the rest of the loop. */
  lemma BitsStep(idx: nat, shape: seq<nat>, word: nat, s: nat, c: seq<nat>, r: nat)
    requires |shape| > 1 && word > 0 && s == shape[|shape| - 1] % word
    requires UnravelBits(idx, shape, word) == Some(c + [r])
    ensures var step := StepDown(idx, s);
      && step.Some? && step.value.coordinate == r
      && UnravelBits(step.value.rest, shape[..|shape| - 1], word) == Some(c)
  {
    var step := StepDown(idx, s).value;
    SameLast(UnravelBits(step.rest, shape[..|shape| - 1], word).value, step.coordinate, c, r);
  }

  lemma {:induction false} UnravelledSurvives(idx: nat, shape: seq<nat>, word: nat)
    requires |shape| > 0 && Positive(shape) && idx < word
    requires UnravelBits(idx, shape, word) == Some(Unravel(idx, shape))
    ensures Survives(idx, shape, word)
    decreases |shape|
  {
    if |shape| > 1 {
      var d, front := shape[|shape| - 1], shape[..|shape| - 1];
      var q, r := QuotRem(idx, d);
      BitsStep(idx, shape, word, d % word, Unravel(q, front), r);
      CutStep(idx, d, word);
      UnravelledSurvives(q, front, word);
    }
  }

  /** The loop gives an in-range coordinate with row-major number `idx` exactly when the extents
    * survive being cut to the word. */
  lemma UnravelBitsIff(idx: nat, shape: seq<nat>, word: nat)
    requires |shape| > 0 && Positive(shape) && idx < word && idx < Size(shape)
    ensures Survives(idx, shape, word) <==>
      var r := UnravelBits(idx, shape, word);
      r.Some? && InRange(r.value, shape) && Linear(r.value, shape) == idx
  {
    UnravelLinear(idx, shape);
    var r := UnravelBits(idx, shape, word);
    if Survives(idx, shape, word) {
      SurvivingUnravels(idx, shape, word);
    } else if r.Some? && InRange(r.value, shape) && Linear(r.value, shape) == idx {
      LinearUnravel(r.value, shape);
      UnravelledSurvives(idx, shape, word);
    }
  }

  /** The index is unravelled in 64 bits only if it needs them. */
  function UnravelIndex(idx: int, is64: bool, shape: seq<nat>): Option<seq<nat>>
    requires |shape| > 0
  {
    if is64 && idx % TWO_64 >= TWO_32 then UnravelBits(idx % TWO_64, shape, TWO_64)
    else UnravelBits(idx % TWO_32, shape, TWO_32)
  }

  /** The index is taken as an unsigned word `u` of its own width, a negative one too. For an array
    * with more than `u` elements whose extents after the first fit the word that is chosen, the
    * coordinate is in range and its row-major number is `u`. */
  lemma UnravelIndexCorrect(idx: int, is64: bool, shape: seq<nat>, u: nat)
    requires u == idx % if is64 then TWO_64 else TWO_32
    requires |shape| > 0 && Positive(shape) && u < Size(shape)
    requires forall k :: 0 < k < |shape| ==> shape[k] < if u < TWO_32 then TWO_32 else TWO_64
    ensures var r := UnravelIndex(idx, is64, shape);
      r.Some? && InRange(r.value, shape) && Linear(r.value, shape) == u
  {
    var word := if u < TWO_32 then TWO_32 else TWO_64;
    SmallWord(idx);
    FittingSurvives(u, shape, word);
    UnravelBitsIff(u, shape, word);
  }

  /** A 64-bit word below 2^32 is the 32-bit one. */
  lemma SmallWord(idx: int)
    ensures idx % TWO_64 < TWO_32 ==> idx % TWO_32 == idx % TWO_64
  {
    var q, r := idx / TWO_64, idx % TWO_64;
    if r < TWO_32 {
      DivModUnique(idx, TWO_32, q * TWO_32, r);
    }
  }

  lemma WordIndex(idx: nat, word: nat)
    requires idx < word
    ensures idx % word == idx
  {
  }

  /** The 32-bit and the 64-bit loop agree where both extents and index fit 32 bits. */
  lemma PathsAgree(idx: nat, shape: seq<nat>)
    requires |shape| > 0 && Positive(shape) && idx < TWO_32
    requires forall k :: 0 < k < |shape| ==> shape[k] < TWO_32
    ensures UnravelBits(idx, shape, TWO_32) == UnravelBits(idx, shape, TWO_64)
  {
    FittingSurvives(idx, shape, TWO_32);
    FittingSurvives(idx, shape, TWO_64);
    SurvivingUnravels(idx, shape, TWO_32);
    SurvivingUnravels(idx, shape, TWO_64);
  }

  /** A small index into a very wide row is misread: element 5 of a row of 2^32 + 3 elements is
    * taken for column 2 of a second row that does not exist. */
  lemma WideRowMisread()
    ensures UnravelIndex(5, true, [1, TWO_32 + 3]) == Some([1, 2])
    ensures Linear([0, 5], [1, TWO_32 + 3]) == 5 && InRange([0, 5], [1, TWO_32 + 3])
  {
    var shape := [1, TWO_32 + 3];
    StepDivides(5, 3);
    WordIndex(5, TWO_64);
    WordIndex(5, TWO_32);
    assert (TWO_32 + 3) % TWO_32 == 3;
    assert shape[..1] == [1] && [0, 5][..1] == [0] && [1][..0] == [] && [0][..0] == [];
    assert UnravelBits(1, shape[..1], TWO_32) == Some([1]);
    assert UnravelBits(5, shape, TWO_32) == Some([1] + [2]) && [1] + [2] == [1, 2];
    assert Linear([0], [1]) == 0;
  }
}
