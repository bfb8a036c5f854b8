/** How many records a newly made inverted list can hold, and how many elements that takes. */
module IvfCapacity {
  import opened Bits
  import opened Wrappers

  /** Records per interleaved group. */
  const GROUP: nat := 32
  /** Bytes per chunk of a product-quantised record. */
  const PQ_CHUNK: nat := 16

  /** The least multiple of `d` not below `x`. */
  function RoundUp(x: nat, d: nat): (r: nat)
    requires d > 0
    ensures x <= r < x + d
  {
    if x % d == 0 then x else x - x % d + d
  }

  lemma RoundUpOf(x: nat, d: nat, q: nat, r: nat)
    requires d > 0 && r < d && x == q * d + r
    ensures RoundUp(x, d) == if r == 0 then q * d else (q + 1) * d
  {
    DivModUnique(x, d, q, r);
  }

  /** A sum of two words wraps at most once. */
  lemma WrapsOnce(y: nat, word: nat)
    requires word > 0 && y < 2 * word
    ensures y % word == if y < word then y else y - word
  {
    DivModUnique(y, word, if y < word then 0 else 1, if y < word then y else y - word);
  }

  /** The same in machine words below `word`: rounding past the top is detected and refused. */
  function RoundUpSafe(x: nat, d: nat, word: nat): (r: Option<nat>)
    requires 0 < d < word && x < word
    ensures r == if RoundUp(x, d) < word then Some(RoundUp(x, d)) else None
  {
    if x % d == 0 then Some(x)
    else
      WrapsOnce(x - x % d + d, word);
      var up := (x - x % d + d) % word;
      if up < x then None else Some(up)
  }

  /** The least power of two not below `x`, searched upwards from the power `b`. */
  function BoundByPow2(x: nat, b: nat): (r: nat)
    requires b > 0
    ensures r >= x && r >= b
    ensures r == b || r < 2 * x
    decreases x - b
  {
    if b >= x then b else BoundByPow2(x, 2 * b)
  }

  /** The capacity for `n` rows in unbounded arithmetic. */
  function Capacity(n: nat, alignMax: nat): (capacity: nat)
    requires alignMax > 0
  {
    if n >= alignMax then RoundUp(n, alignMax)
    else
      var wanted := if n > GROUP then n else GROUP;
      var bound := BoundByPow2(wanted, 1);
      if bound < alignMax then bound else alignMax
  }

  // ---------------------------------------------------------------- what the capacity is

  /** `p` is the least power of two not below `x`. */
  ghost predicate LeastPow2(p: nat, x: nat) {
    IsPow2(p) && p >= x && forall q: nat :: IsPow2(q) && q >= x ==> p <= q
  }

  /** From the alignment on, the least multiple of it that holds `n` rows; below, the least power of
    * two that holds them and 32, or the alignment if that is less. */
  ghost predicate IsCapacity(c: nat, n: nat, alignMax: nat)
    requires alignMax > 0
  {
    if n >= alignMax then c % alignMax == 0 && n <= c < n + alignMax
    else
      var wanted := if n > 32 then n else 32;
      exists p: nat :: LeastPow2(p, wanted) && c == if p < alignMax then p else alignMax
  }

  /** Between a power of two and its double there is no other. */
  lemma NextPow2(b: nat, q: nat)
    requires IsPow2(b) && IsPow2(q) && b < q
    ensures IsPow2(2 * b) && 2 * b <= q
  {
    var i: nat :| b == Pow2(i);
    var j: nat :| q == Pow2(j);
    assert 2 * b == Pow2(i + 1);
    if j < i {
      Pow2Smaller(j, i);
    } else if i + 1 < j {
      Pow2Smaller(i + 1, j);
    }
  }

  /** Doubling a power of two that is too small skips none that is large enough. */
  lemma DoublingSkipsNone(x: nat, b: nat)
    requires IsPow2(b) && b < x && forall q: nat :: IsPow2(q) && q >= x ==> b <= q
    ensures IsPow2(2 * b) && forall q: nat :: IsPow2(q) && q >= x ==> 2 * b <= q
  {
    var i: nat :| b == Pow2(i);
    assert 2 * b == Pow2(i + 1);
    forall q: nat | IsPow2(q) && q >= x
      ensures 2 * b <= q
    {
      NextPow2(b, q);
    }
  }

  lemma OneIsLeast()
    ensures IsPow2(1) && forall q: nat :: IsPow2(q) ==> 1 <= q
  {
    assert 1 == Pow2(0);
  }

  lemma {:induction false} SearchFindsLeast(x: nat, b: nat)
    requires IsPow2(b) && forall q: nat :: IsPow2(q) && q >= x ==> b <= q
    ensures LeastPow2(BoundByPow2(x, b), x)
    decreases x - b
  {
    if b < x {
      DoublingSkipsNone(x, b);
      SearchFindsLeast(x, 2 * b);
    }
  }

  lemma BoundIsLeast(x: nat)
    ensures LeastPow2(BoundByPow2(x, 1), x)
  {
    OneIsLeast();
    SearchFindsLeast(x, 1);
  }

  lemma RoundUpIsMultiple(x: nat, d: nat)
    requires d > 0
    ensures RoundUp(x, d) % d == 0
  {
    DivMod(x, d);
    RoundUpIsMultipleOf(x, d, x / d, x % d);
  }

  lemma RoundUpIsMultipleOf(x: nat, d: nat, q: nat, r: nat)
    requires r < d && x == q * d + r
    ensures RoundUp(x, d) % d == 0
  {
    RoundUpOf(x, d, q, r);
    DivModUnique(q * d, d, q, 0);
    DivModUnique((q + 1) * d, d, q + 1, 0);
  }

  lemma CapacityIs(n: nat, alignMax: nat)
    requires alignMax > 0
    ensures IsCapacity(Capacity(n, alignMax), n, alignMax)
  {
    RoundUpIsMultiple(n, alignMax);
    BoundIsLeast(if n > 32 then n else 32);
  }

  // ---------------------------------------------------------------- how it is chosen

  /** The search in 32-bit words, which stops before a doubling that would overflow; zero means that no
    * word is large enough. */
  method BoundByPowerOfTwo(x: nat) returns (bound: nat)
    requires x < TWO_32
    ensures x <= 0x8000_0000 ==> LeastPow2(bound, x)
    ensures x > 0x8000_0000 ==> bound == 0
  {
    if x != 0 && And(x, x - 1) == 0 {
      ClearLowestBit(x);
      TopPow2(x);
      return x;
    }
    var limited := if x < 0x7FFF_FFFF then x else 0x7FFF_FFFF;
    bound := 1;
    OneIsLeast();
    while bound < limited
      invariant IsPow2(bound) && bound <= 0x8000_0000
      invariant forall q: nat :: IsPow2(q) && q >= x ==> bound <= q
      decreases limited - bound
    {
      DoublingSkipsNone(x, bound);
      TopPow2(2 * bound);
      bound := bound * 2 % TWO_32;
    }
    if bound < x {
      bound := 0;
    }
  }

  /** No 32-bit word above 2^31 is a power of two. */
  lemma TopPow2(x: nat)
    requires IsPow2(x) && x < TWO_32
    ensures x <= 0x8000_0000
  {
    WordSizes();
    assert Pow2(32) == 2 * Pow2(31);
    assert IsPow2(Pow2(31));
    if x > 0x8000_0000 {
      NextPow2(Pow2(31), x);
    }
  }

  /** The capacity that the list constructor chooses; None when it throws. */
  method ChosenCapacity(n: nat, alignMax: nat) returns (r: Option<nat>)
    requires 0 < alignMax <= 0x8000_0000 && n < TWO_32
    ensures r.None? <==> RoundUp(n, alignMax) >= TWO_32
    ensures r.Some? ==> IsCapacity(r.value, n, alignMax) && r.value == Capacity(n, alignMax)
  {
    CapacityIs(n, alignMax);
    var capacity := RoundUpSafe(n, alignMax, TWO_32);
    if capacity.None? {
      return None;
    }
    r := capacity;
    if n < alignMax {
      var wanted := if n > GROUP then n else GROUP;
      BoundIsLeast(wanted);
      var bound := BoundByPowerOfTwo(wanted);
      r := Some(if bound < alignMax then bound else alignMax);
    }
  }

  lemma CapacityFits(n: nat, alignMax: nat)
    requires alignMax > 0
    ensures Capacity(n, alignMax) >= n
  {
  }

  lemma {:induction false} DoublingKeepsWholeGroups(x: nat, k: nat)
    requires k > 0
    ensures BoundByPow2(x, k * GROUP) % GROUP == 0
    decreases x - k
  {
    if k * GROUP < x {
      DoublingKeepsWholeGroups(x, 2 * k);
    }
  }

  lemma BoundIsWholeGroups(x: nat)
    requires x >= GROUP
    ensures BoundByPow2(x, 1) % GROUP == 0
  {
    assert BoundByPow2(x, 1) == BoundByPow2(x, 4);
    assert BoundByPow2(x, 4) == BoundByPow2(x, 16);
    assert BoundByPow2(x, 16) == BoundByPow2(x, 1 * GROUP);
    DoublingKeepsWholeGroups(x, 1);
  }

  /** With either alignment, a list has room for what was asked, consists of whole groups, and is
    * never more than twice as long as asked, or one group. */
  lemma CapacityIsWholeGroups(n: nat, alignMax: nat)
    requires alignMax == GROUP || alignMax == 1024
    ensures n <= Capacity(n, alignMax) && Capacity(n, alignMax) % GROUP == 0
    ensures GROUP <= Capacity(n, alignMax) && (n > GROUP ==> Capacity(n, alignMax) <= 2 * n)
  {
    BoundIsWholeGroups(if n > GROUP then n else GROUP);
  }

  // ---------------------------------------------------------------- list specifications

  /** What the two kinds of list store: raw vectors, or product-quantised codes. */
  datatype Spec =
    | Flat(dim: nat, conservative: bool)
    | Pq(bits: nat, dim: nat, conservative: bool)
  {
    predicate Valid() {
      Pq? ==> 4 <= bits <= 8
    }

    function AlignMax(): nat {
      if conservative then GROUP else 1024
    }

    /** Elements (Flat) or bytes (Pq) of one record. */
    function RecordSize(): nat
      requires Valid()
    {
      match this
      case Flat(dim, _) => dim
      case Pq(bits, dim, _) => CeilDiv(dim, PQ_CHUNK * 8 / bits) * PQ_CHUNK
    }

    /** The product of the list extents for `n` rows, unbounded. */
    function DataSize(n: nat): nat
      requires Valid()
    {
      match this
      case Flat(dim, _) => n * dim
      case Pq(bits, dim, _) => CeilDiv(n, GROUP) * CeilDiv(dim, PQ_CHUNK * 8 / bits) * GROUP * PQ_CHUNK
    }

    /** The same as the code computes it, in the 32-bit index type of the extents: what is allocated
      * for a capacity, and what is copied for an old size. */
    function BufferSize(n: nat): nat
      requires Valid()
    {
      DataSize(n) % TWO_32
    }
  }

  /** Division rounding up, in a form that cannot overflow. */
  function CeilDiv(n: nat, d: nat): (r: nat)
    requires d > 0
  {
    if n > d then 1 + (n - d + d - 1) / d else if n > 0 then 1 else 0
  }

  lemma CeilDivIsRoundUp(n: nat, d: nat)
    requires d > 0
    ensures CeilDiv(n, d) * d == RoundUp(n, d)
  {
    if n > d {
      BelowMultiple(n, d, n / d, n % d);
    } else if n == d {
      RoundUpOf(n, d, 1, 0);
    } else {
      RoundUpOf(n, d, 0, n);
    }
  }

  lemma BelowMultiple(n: nat, d: nat, q: nat, r: nat)
    requires n > d > 0 && n == q * d + r && r < d
    ensures CeilDiv(n, d) * d == RoundUp(n, d)
  {
    RoundUpOf(n, d, q, r);
    DivModUnique(n - 1, d, if r == 0 then q - 1 else q, if r == 0 then d - 1 else r - 1);
  }

  /** A quantised list holds whole groups, a raw one exactly the rows asked for. */
  lemma DataSizeIs(spec: Spec, n: nat)
    requires spec.Valid()
    ensures spec.DataSize(n) == (if spec.Flat? then n else RoundUp(n, GROUP)) * spec.RecordSize()
  {
    CeilDivIsRoundUp(n, GROUP);
  }

  /** With `codes` the most codes that fit a chunk of 16 bytes, a quantised record is the least number of
    * chunks that hold `dim` codes. */
  lemma PqRecordSizeIs(bits: nat, dim: nat, conservative: bool, codes: nat, chunks: nat)
    requires 4 <= bits <= 8 && codes * bits <= 128 < (codes + 1) * bits
    requires chunks * codes >= dim && (chunks > 0 ==> (chunks - 1) * codes < dim)
    ensures Pq(bits, dim, conservative).RecordSize() == chunks * 16
  {
    DivModUnique(128, bits, codes, 128 - codes * bits);
    FactorPositive(codes + 1, bits);
    CeilDivIs(dim, codes, chunks);
  }

  lemma CeilDivIs(n: nat, d: nat, q: nat)
    requires d > 0 && q * d >= n && (q > 0 ==> (q - 1) * d < n)
    ensures CeilDiv(n, d) == q
  {
    CeilDivIsRoundUp(n, d);
    var c := CeilDiv(n, d);
    if c < q {
      MulLe(c, q - 1, d);
    } else if c > q {
      MulLe(q + 1, c, d);
    }
  }

  lemma RoundUpMonotone(m: nat, n: nat, d: nat)
    requires d > 0 && m <= n
    ensures RoundUp(m, d) <= RoundUp(n, d)
  {
    CeilDivIsRoundUp(m, d);
    CeilDivIsRoundUp(n, d);
    MultiplesOrdered(CeilDiv(m, d), CeilDiv(n, d), d, n);
  }

  /** A multiple within `d` of `n` is not above one that reaches `n`. */
  lemma MultiplesOrdered(p: nat, q: nat, d: nat, n: nat)
    requires p * d < n + d && n <= q * d
    ensures p * d <= q * d
  {
    if p > q {
      MulLe(q + 1, p, d);
    } else {
      MulLe(p, q, d);
    }
  }

  lemma DataSizeMonotone(spec: Spec, m: nat, n: nat)
    requires spec.Valid() && m <= n
    ensures spec.DataSize(m) <= spec.DataSize(n)
  {
    DataSizeIs(spec, m);
    DataSizeIs(spec, n);
    RoundUpMonotone(m, n, GROUP);
    MulLe(m, n, spec.RecordSize());
    MulLe(RoundUp(m, GROUP), RoundUp(n, GROUP), spec.RecordSize());
  }

  // ---------------------------------------------------------------- resizing in place

  /** Whether a resize from `passed` to `target` rows leaves a list in place: the new size fits,
    * and either the list does not grow or the compare-and-swap from the old size succeeds. */
  predicate StaysInPlace(size: nat, capacity: nat, target: nat, passed: nat) {
    target <= capacity && (target <= passed || size == passed)
  }

  /** The size afterwards; a list that does not grow past `passed` is left alone. */
  function SizeInPlace(size: nat, target: nat, passed: nat): nat {
    if target <= passed then size else target
  }
}
