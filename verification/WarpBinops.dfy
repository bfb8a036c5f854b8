/** The binary operations that the reductions are used with, on machine words: each meets what the
  * reduction asks of its operation, and the reductions compute what their names say. */
module WarpBinops {
  import opened Bits
  import opened Wrappers
  import opened WarpReduce

  /** Unsigned words below `m`; signed words wrap in the same way. */
  function AddOp(m: nat): (nat, nat) -> nat
    requires m > 0
  {
    (x: nat, y: nat) => WordSum(x, y, m)
  }

  function WordSum(x: nat, y: nat, m: nat): nat
    requires m > 0
  {
    (x + y) % m
  }

  function MultiplyOp(m: nat): (nat, nat) -> nat
    requires m > 0
  {
    (x: nat, y: nat) => x * y % m
  }

  function MinOp(): (int, int) -> int {
    (x: int, y: int) => if x < y then x else y
  }

  function MaxOp(): (int, int) -> int {
    (x: int, y: int) => if x > y then x else y
  }

  function AndOp(): (nat, nat) -> nat {
    (x: nat, y: nat) => And(x, y)
  }

  function OrOp(): (nat, nat) -> nat {
    (x: nat, y: nat) => Or(x, y)
  }

  function XorOp(): (nat, nat) -> nat {
    (x: nat, y: nat) => Xor(x, y)
  }

  lemma WordSumCommutes(x: nat, y: nat, m: nat)
    requires m > 0
    ensures WordSum(x, y, m) == WordSum(y, x, m)
  {
  }

  /** Cutting a sum to a word before adding to it does not matter. */
  lemma CutSum(x: nat, y: nat, z: nat, s: nat, m: nat)
    requires m > 0 && s == x + y + z
    ensures WordSum(WordSum(x, y, m), z, m) == s % m
  {
    var u, v := WordSum(x, y, m), WordSum(x, y, m) + z;
    var q, p := (x + y) / m, v / m;
    assert s == (q + p) * m + v % m;
    DivModUnique(s, m, q + p, v % m);
  }

  lemma WordSumAssociates(x: nat, y: nat, z: nat, m: nat)
    requires m > 0
    ensures WordSum(WordSum(x, y, m), z, m) == WordSum(x, WordSum(y, z, m), m)
  {
    CutSum(x, y, z, x + y + z, m);
    CutSum(y, z, x, x + y + z, m);
    WordSumCommutes(x, WordSum(y, z, m), m);
  }

  lemma AddOpFolds(m: nat)
    requires m > 0
    ensures Associative(AddOp(m)) && Commutative(AddOp(m))
  {
    var op := AddOp(m);
    forall x: nat, y: nat, z: nat
      ensures AssociativeAt(op, x, y, z)
    {
      WordSumAssociates(x, y, z, m);
    }
    forall x: nat, y: nat
      ensures CommutativeAt(op, x, y)
    {
      WordSumCommutes(x, y, m);
    }
  }

  lemma MulRotates(x: nat, y: nat, z: nat)
    ensures x * y * z == y * z * x
  {
  }

  lemma MultiplyAssociates(x: nat, y: nat, z: nat, m: nat)
    requires m > 0
    ensures x * y % m * z % m == x * (y * z % m) % m
  {
    CutProduct(x * y, z, m);
    CutProduct(y * z, x, m);
    MulRotates(x, y, z);
    MulSwaps(x, y * z % m);
  }

  lemma MulSwaps(x: nat, y: nat)
    ensures x * y == y * x
  {
  }

  lemma MultiplyOpFolds(m: nat)
    requires m > 0
    ensures Associative(MultiplyOp(m)) && Commutative(MultiplyOp(m))
  {
    var op := MultiplyOp(m);
    forall x: nat, y: nat, z: nat
      ensures AssociativeAt(op, x, y, z)
    {
      MultiplyAssociates(x, y, z, m);
    }
    forall x: nat, y: nat
      ensures CommutativeAt(op, x, y)
    {
      MulSwaps(x, y);
    }
  }

  lemma MinMaxFold()
    ensures Associative(MinOp()) && Commutative(MinOp())
    ensures Associative(MaxOp()) && Commutative(MaxOp())
  {
    forall x, y, z
      ensures AssociativeAt(MinOp(), x, y, z) && AssociativeAt(MaxOp(), x, y, z)
    {
    }
    forall x, y
      ensures CommutativeAt(MinOp(), x, y) && CommutativeAt(MaxOp(), x, y)
    {
    }
  }

  predicate Odd(x: nat) {
    x % 2 == 1
  }

  /** A number is its lowest bit and the rest. */
  lemma SameDigits(x: nat, y: nat)
    requires Odd(x) == Odd(y) && x / 2 == y / 2
    ensures x == y
  {
  }

  /** The bitwise operations act on each bit by itself. */
  lemma AndDigits(x: nat, y: nat)
    ensures Odd(And(x, y)) == (Odd(x) && Odd(y)) && And(x, y) / 2 == And(x / 2, y / 2)
  {
    Halves(if x % 2 == 1 && y % 2 == 1 then 1 else 0, And(x / 2, y / 2));
  }

  lemma OrDigits(x: nat, y: nat)
    ensures Odd(Or(x, y)) == (Odd(x) || Odd(y)) && Or(x, y) / 2 == Or(x / 2, y / 2)
  {
    Halves(if x % 2 == 1 || y % 2 == 1 then 1 else 0, Or(x / 2, y / 2));
  }

  lemma XorDigits(x: nat, y: nat)
    ensures Odd(Xor(x, y)) == (Odd(x) != Odd(y)) && Xor(x, y) / 2 == Xor(x / 2, y / 2)
  {
    Halves(if x % 2 != y % 2 then 1 else 0, Xor(x / 2, y / 2));
  }

  lemma {:induction false} AndCommutes(x: nat, y: nat)
    ensures And(x, y) == And(y, x)
    decreases x + y
  {
    if x > 0 || y > 0 {
      AndCommutes(x / 2, y / 2);
      AndDigits(x, y);
      AndDigits(y, x);
      SameDigits(And(x, y), And(y, x));
    }
  }

  lemma {:induction false} AndAssociates(x: nat, y: nat, z: nat)
    ensures And(And(x, y), z) == And(x, And(y, z))
    decreases x + y + z
  {
    if x > 0 || y > 0 || z > 0 {
      AndAssociates(x / 2, y / 2, z / 2);
      AndDigits(x, y);
      AndDigits(y, z);
      AndDigits(And(x, y), z);
      AndDigits(x, And(y, z));
      SameDigits(And(And(x, y), z), And(x, And(y, z)));
    }
  }

  lemma {:induction false} OrCommutes(x: nat, y: nat)
    ensures Or(x, y) == Or(y, x)
    decreases x + y
  {
    if x > 0 || y > 0 {
      OrCommutes(x / 2, y / 2);
      OrDigits(x, y);
      OrDigits(y, x);
      SameDigits(Or(x, y), Or(y, x));
    }
  }

  lemma {:induction false} OrAssociates(x: nat, y: nat, z: nat)
    ensures Or(Or(x, y), z) == Or(x, Or(y, z))
    decreases x + y + z
  {
    if x > 0 || y > 0 || z > 0 {
      OrAssociates(x / 2, y / 2, z / 2);
      OrDigits(x, y);
      OrDigits(y, z);
      OrDigits(Or(x, y), z);
      OrDigits(x, Or(y, z));
      SameDigits(Or(Or(x, y), z), Or(x, Or(y, z)));
    }
  }

  lemma {:induction false} XorCommutes(x: nat, y: nat)
    ensures Xor(x, y) == Xor(y, x)
    decreases x + y
  {
    if x > 0 || y > 0 {
      XorCommutes(x / 2, y / 2);
      XorDigits(x, y);
      XorDigits(y, x);
      SameDigits(Xor(x, y), Xor(y, x));
    }
  }

  lemma {:induction false} XorAssociates(x: nat, y: nat, z: nat)
    ensures Xor(Xor(x, y), z) == Xor(x, Xor(y, z))
    decreases x + y + z
  {
    if x > 0 || y > 0 || z > 0 {
      XorAssociates(x / 2, y / 2, z / 2);
      XorDigits(x, y);
      XorDigits(y, z);
      XorDigits(Xor(x, y), z);
      XorDigits(x, Xor(y, z));
      SameDigits(Xor(Xor(x, y), z), Xor(x, Xor(y, z)));
    }
  }

  lemma BitwiseOpsFold()
    ensures Associative(AndOp()) && Commutative(AndOp())
    ensures Associative(OrOp()) && Commutative(OrOp())
    ensures Associative(XorOp()) && Commutative(XorOp())
  {
    forall x: nat, y: nat, z: nat
      ensures AssociativeAt(AndOp(), x, y, z) && AssociativeAt(OrOp(), x, y, z) && AssociativeAt(XorOp(), x, y, z)
    {
      AndAssociates(x, y, z);
      OrAssociates(x, y, z);
      XorAssociates(x, y, z);
    }
    forall x: nat, y: nat
      ensures CommutativeAt(AndOp(), x, y) && CommutativeAt(OrOp(), x, y) && CommutativeAt(XorOp(), x, y)
    {
      AndCommutes(x, y);
      OrCommutes(x, y);
      XorCommutes(x, y);
    }
  }

  // ---------------------------------------------------------------- what the reductions compute

  function Sum(s: seq<nat>): nat {
    if s == [] then 0 else s[0] + Sum(s[1..])
  }

  function Product(s: seq<nat>): nat {
    if s == [] then 1 else s[0] * Product(s[1..])
  }

  lemma CutAddend(x: nat, y: nat, m: nat)
    requires m > 0
    ensures (x + y % m) % m == (x + y) % m
  {
    var q, r := y / m, y % m;
    assert x + y == x + r + q * m;
    AddMultiple(x + r, q, m);
  }

  /** A reduction of words with wrapping addition is their sum, cut to the word once. */
  lemma {:induction false} FoldedSum(s: seq<nat>, m: nat)
    requires m > 0 && s != [] && forall i :: 0 <= i < |s| ==> s[i] < m
    ensures Fold(AddOp(m), s) == Some(Sum(s) % m)
  {
    if |s| == 1 {
      FoldSingle(AddOp(m), s);
      DivModUnique(s[0], m, 0, s[0]);
    } else {
      FoldedSum(s[1..], m);
      CutAddend(s[0], Sum(s[1..]), m);
    }
  }

  lemma {:induction false} FoldedProduct(s: seq<nat>, m: nat)
    requires m > 0 && s != [] && forall i :: 0 <= i < |s| ==> s[i] < m
    ensures Fold(MultiplyOp(m), s) == Some(Product(s) % m)
  {
    if |s| == 1 {
      FoldSingle(MultiplyOp(m), s);
      OneFactor(s);
      DivModUnique(s[0], m, 0, s[0]);
    } else {
      FoldedProduct(s[1..], m);
      CutFactor(s[0], Product(s[1..]), m);
    }
  }

  lemma OneFactor(s: seq<nat>)
    requires |s| == 1
    ensures Product(s) == s[0]
  {
    assert s[1..] == [];
  }

  lemma CutFactor(x: nat, y: nat, m: nat)
    requires m > 0
    ensures x * (y % m) % m == x * y % m
  {
    CutProduct(y, x, m);
    MulSwaps(x, y % m);
    MulSwaps(x, y);
  }

  ghost predicate LeastOf(v: int, s: seq<int>) {
    v in s && forall i :: 0 <= i < |s| ==> v <= s[i]
  }

  ghost predicate GreatestOf(v: int, s: seq<int>) {
    v in s && forall i :: 0 <= i < |s| ==> v >= s[i]
  }

  lemma {:induction false} FoldedMinMax(s: seq<int>)
    requires s != []
    ensures Fold(MinOp(), s).Some? && LeastOf(Fold(MinOp(), s).value, s)
    ensures Fold(MaxOp(), s).Some? && GreatestOf(Fold(MaxOp(), s).value, s)
  {
    if |s| > 1 {
      FoldedMinMax(s[1..]);
      assert s == [s[0]] + s[1..];
    }
  }

  /** An odd number of the words have bit `k` set. */
  predicate OddlyMany(s: seq<nat>, k: nat) {
    s != [] && Bit(s[0], k) != OddlyMany(s[1..], k)
  }

  /** Bit by bit: in the conjunction of words a bit is set if all have it, in the disjunction if some
    * word has it, in the exclusive or if an odd number have it. */
  lemma {:induction false} FoldedBits(s: seq<nat>, k: nat)
    requires s != []
    ensures Fold(AndOp(), s).Some? && Fold(OrOp(), s).Some? && Fold(XorOp(), s).Some?
    ensures Bit(Fold(AndOp(), s).value, k) <==> forall i :: 0 <= i < |s| ==> Bit(s[i], k)
    ensures Bit(Fold(OrOp(), s).value, k) <==> exists i :: 0 <= i < |s| && Bit(s[i], k)
    ensures Bit(Fold(XorOp(), s).value, k) <==> OddlyMany(s, k)
  {
    if |s| > 1 {
      FoldedBits(s[1..], k);
      assert s == [s[0]] + s[1..];
      BitOfAnd(s[0], Fold(AndOp(), s[1..]).value, k);
      BitOfOr(s[0], Fold(OrOp(), s[1..]).value, k);
      BitOfXor(s[0], Fold(XorOp(), s[1..]).value, k);
    }
  }
}
