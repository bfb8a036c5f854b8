/** The row stride of an aligned dataset: the least one that is long enough and whose byte length is
  * a multiple of both the alignment and the element size. */
module RowAlignment {
  import opened Bits
  import opened Wrappers
  import opened IvfCapacity

  // ---------------------------------------------------------------- aligned strides

  predicate Divides(d: nat, x: nat)
    requires d > 0
  {
    x % d == 0
  }

  /** The least positive multiple of `b`, from `k * b` on, that `a` divides. */
  function LcmFrom(a: nat, b: nat, k: nat): (l: nat)
    requires 0 < k <= a && b > 0
    decreases a - k
  {
    if k == a || Divides(a, k * b) then k * b else LcmFrom(a, b, k + 1)
  }

  function Lcm(a: nat, b: nat): nat
    requires a > 0 && b > 0
  {
    LcmFrom(a, b, 1)
  }

  lemma MultipleOf(k: nat, d: nat)
    requires d > 0
    ensures Divides(d, k * d) && k * d / d == k
  {
    DivModUnique(k * d, d, k, 0);
  }

  lemma {:induction false} LcmFromIsCommon(a: nat, b: nat, k: nat)
    requires 0 < k <= a && b > 0
    ensures Divides(a, LcmFrom(a, b, k)) && Divides(b, LcmFrom(a, b, k))
    ensures 0 < b <= LcmFrom(a, b, k) <= a * b
    decreases a - k
  {
    if k == a || Divides(a, k * b) {
      MultipleOf(k, b);
      MultipleOf(b, a);
      MulLe(1, k, b);
      MulLe(k, a, b);
    } else {
      LcmFromIsCommon(a, b, k + 1);
    }
  }

  lemma {:induction false} LcmFromIsLeast(a: nat, b: nat, k: nat, q: nat)
    requires 0 < k <= a && b > 0 && k <= q && Divides(a, q * b)
    ensures LcmFrom(a, b, k) <= q * b
    decreases a - k
  {
    if k == a || Divides(a, k * b) {
      MulLe(k, q, b);
    } else {
      LcmFromIsLeast(a, b, k + 1, q);
    }
  }

  lemma Quotient(d: nat, x: nat) returns (i: nat)
    requires d > 0 && Divides(d, x)
    ensures x == i * d
  {
    i := x / d;
  }

  lemma DividesDifference(d: nat, x: nat, q: nat, l: nat, rest: nat)
    requires d > 0 && Divides(d, x) && Divides(d, l) && x == q * l + rest
    ensures Divides(d, rest)
  {
    var i := Quotient(d, x);
    var j := Quotient(d, l);
    DifferenceOfMultiples(d, i, q, j, rest);
  }

  lemma DifferenceOfMultiples(d: nat, i: nat, q: nat, j: nat, rest: nat)
    requires d > 0 && i * d == q * (j * d) + rest
    ensures Divides(d, rest)
  {
    var k: int := i - q * j;
    assert rest == k * d;
    if k < 0 {
      MulLe(k, -1, d);
    }
    MultipleOf(k, d);
  }

  /** Every common multiple is a multiple of the least one. */
  lemma LcmDivides(a: nat, b: nat, m: nat)
    requires a > 0 && b > 0 && Divides(a, m) && Divides(b, m)
    ensures Lcm(a, b) > 0 && Divides(Lcm(a, b), m)
  {
    LcmFromIsCommon(a, b, 1);
    var q, rest := Split(m, Lcm(a, b));
    DividesDifference(a, m, q, Lcm(a, b), rest);
    DividesDifference(b, m, q, Lcm(a, b), rest);
    if rest > 0 {
      var i := Quotient(b, rest);
      FactorPositive(i, b);
      LcmFromIsLeast(a, b, 1, i);
    }
  }

  lemma Split(m: nat, l: nat) returns (q: nat, rest: nat)
    requires l > 0
    ensures m == q * l + rest && rest < l && (Divides(l, m) <==> rest == 0)
  {
    q, rest := m / l, m % l;
  }

  /** The least stride that is not below the row length and whose byte length is aligned. */
  function LeastStride(cols: nat, size: nat, align: nat): nat
    requires size > 0 && align > 0
  {
    RoundUp(cols * size, LcmOf(align, size)) / size
  }

  function LcmOf(a: nat, b: nat): (l: nat)
    requires a > 0 && b > 0
    ensures 0 < l <= a * b
  {
    LcmFromIsCommon(a, b, 1);
    Lcm(a, b)
  }

  lemma RoundUpIsLeast(x: nat, d: nat, m: nat)
    requires d > 0 && m >= x && Divides(d, m)
    ensures RoundUp(x, d) <= m
  {
    var q, r := Split(x, d);
    RoundUpOf(x, d, q, r);
    var n := Quotient(d, m);
    if n <= q {
      MulLe(n, q, d);
    } else {
      MulLe(q + 1, n, d);
    }
  }

  lemma RoundUpDivides(x: nat, d: nat)
    requires d > 0
    ensures Divides(d, RoundUp(x, d))
  {
    RoundUpIsMultiple(x, d);
  }

  lemma DividesTrans(a: nat, l: nat, m: nat)
    requires a > 0 && l > 0 && Divides(a, l) && Divides(l, m)
    ensures Divides(a, m)
  {
    var i := Quotient(a, l);
    var j := Quotient(l, m);
    MultipleOf(j * i, a);
    assert m == j * i * a;
  }

  lemma StrideBytes(cols: nat, size: nat, align: nat)
    requires size > 0 && align > 0
    ensures LeastStride(cols, size, align) * size == RoundUp(cols * size, LcmOf(align, size))
    ensures Divides(align, LeastStride(cols, size, align) * size)
  {
    LcmFromIsCommon(align, size, 1);
    var l := LcmOf(align, size);
    var bytes := RoundUp(cols * size, l);
    RoundUpDivides(cols * size, l);
    DividesTrans(size, l, bytes);
    DividesTrans(align, l, bytes);
    var k := Quotient(size, bytes);
    MultipleOf(k, size);
  }

  lemma CancelFactor(a: nat, b: nat, d: nat)
    requires d > 0 && a * d <= b * d
    ensures a <= b
  {
    if a > b {
      MulLe(b + 1, a, d);
    }
  }

  /** The stride is aligned, not below the row length, and the least such. */
  lemma LeastStrideIsLeast(cols: nat, size: nat, align: nat, other: nat)
    requires size > 0 && align > 0 && other >= cols && Divides(align, other * size)
    ensures cols <= LeastStride(cols, size, align) <= other
    ensures Divides(align, LeastStride(cols, size, align) * size)
  {
    var s := LeastStride(cols, size, align);
    StrideBytes(cols, size, align);
    CancelFactor(cols, s, size);
    MultipleOf(other, size);
    LcmDivides(align, size, other * size);
    MulLe(cols, other, size);
    RoundUpIsLeast(cols * size, LcmOf(align, size), other * size);
    CancelFactor(s, other, size);
  }

  lemma LeastStrideBounds(cols: nat, size: nat, align: nat)
    requires size > 0 && align > 0
    ensures cols <= LeastStride(cols, size, align) < cols + align
  {
    var s := LeastStride(cols, size, align);
    StrideBytes(cols, size, align);
    CancelFactor(cols, s, size);
    if s >= cols + align {
      MulLe(cols + align, s, size);
      SumTimes(cols, align, size);
    }
    CancelFactor(cols, s, size);
  }

  lemma SumTimes(a: nat, b: nat, c: nat)
    ensures (a + b) * c == a * c + b * c
  {
  }

  datatype DatasetError = RoundUpOverflow | RowTooLong | PitchTooSmall

  /** The stride that the aligned dataset asks for: the byte length is computed in 64 bits, the
    * stride cut to 32, and a stride below the row length refused. */
  function AlignedStride(cols: nat, size: nat, align: nat): Result<nat, DatasetError>
    requires 0 < size < TWO_32 && 0 < align < TWO_32
  {
    LcmInWord(align, size);
    StrideFor(cols, cols * size % TWO_64, LcmOf(align, size), size)
  }

  function StrideFor(cols: nat, bytes: nat, lcm: nat, size: nat): Result<nat, DatasetError>
    requires bytes < TWO_64 && 0 < lcm < TWO_64 && size > 0
  {
    match RoundUpSafe(bytes, lcm, TWO_64)
    case None => Failure(RoundUpOverflow)
    case Some(rounded) => CutStride(cols, rounded / size)
  }

  function CutStride(cols: nat, stride: nat): Result<nat, DatasetError> {
    if cols > stride % TWO_32 then Failure(RowTooLong) else Success(stride % TWO_32)
  }

  lemma LcmInWord(a: nat, b: nat)
    requires 0 < a < TWO_32 && 0 < b < TWO_32
    ensures LcmOf(a, b) < TWO_64
  {
    ProductBelow(a, b, TWO_32);
  }

  lemma ProductBelow(a: nat, b: nat, w: nat)
    requires a < w && b < w
    ensures a * b < w * w
  {
    MulLe(a, w, b);
    MulLe(b + 1, w, w);
  }

  /** Truncation never yields a stride that passes: the call succeeds exactly when the least aligned
    * stride is a 32-bit word, and then with that stride. */
  lemma AlignedStrideIff(cols: nat, size: nat, align: nat)
    requires 0 < size < TWO_32 && 0 < align < TWO_32
    ensures AlignedStride(cols, size, align).Success? <==> LeastStride(cols, size, align) < TWO_32
    ensures AlignedStride(cols, size, align).Success? ==>
      AlignedStride(cols, size, align).value == LeastStride(cols, size, align)
  {
    LcmInWord(align, size);
    LeastStrideBounds(cols, size, align);
    if cols * size >= TWO_64 {
      ManyColumns(cols, size, TWO_32);
      TooManyColumns(cols, size, align);
    } else {
      FewColumns(cols, size, align);
    }
  }

  /** The byte length as the code has it, rounded up, does not fit in 64 bits. */
  predicate BytesOverflow(cols: nat, size: nat, align: nat)
    requires 0 < size < TWO_32 && 0 < align < TWO_32
  {
    RoundUp(cols * size % TWO_64, LcmOf(align, size)) >= TWO_64
  }

  lemma StrideErrors(cols: nat, size: nat, align: nat)
    requires 0 < size < TWO_32 && 0 < align < TWO_32
    ensures AlignedStride(cols, size, align) == Failure(RoundUpOverflow) <==> BytesOverflow(cols, size, align)
    ensures AlignedStride(cols, size, align) == Failure(RowTooLong) <==>
      LeastStride(cols, size, align) >= TWO_32 && !BytesOverflow(cols, size, align)
  {
    LcmInWord(align, size);
    AlignedStrideIff(cols, size, align);
    StrideForErrors(cols, cols * size % TWO_64, LcmOf(align, size), size);
  }

  lemma StrideForErrors(cols: nat, bytes: nat, lcm: nat, size: nat)
    requires bytes < TWO_64 && 0 < lcm < TWO_64 && size > 0
    ensures StrideFor(cols, bytes, lcm, size) == Failure(RoundUpOverflow) <==> RoundUp(bytes, lcm) >= TWO_64
    ensures StrideFor(cols, bytes, lcm, size) != Failure(PitchTooSmall)
  {
    forall stride: nat
      ensures CutStride(cols, stride) != Failure(RoundUpOverflow)
      ensures CutStride(cols, stride) != Failure(PitchTooSmall)
    {
    }
  }

  lemma TooManyColumns(cols: nat, size: nat, align: nat)
    requires 0 < size < TWO_32 && 0 < align < TWO_32 && cols >= TWO_32
    ensures AlignedStride(cols, size, align).Failure?
  {
    forall stride: nat
      ensures CutStride(cols, stride).Failure?
    {
    }
  }

  lemma FewColumns(cols: nat, size: nat, align: nat)
    requires 0 < size < TWO_32 && 0 < align < TWO_32 && cols * size < TWO_64
    ensures AlignedStride(cols, size, align).Success? <==> LeastStride(cols, size, align) < TWO_32
    ensures AlignedStride(cols, size, align).Success? ==>
      AlignedStride(cols, size, align).value == LeastStride(cols, size, align)
  {
    BytesDoNotWrap(cols, size, align, cols * size);
    StrideOfBytes(cols, size, align, cols * size);
  }

  lemma StrideOfBytes(cols: nat, size: nat, align: nat, bytes: nat)
    requires 0 < size < TWO_32 && 0 < align < TWO_32 && bytes == cols * size < TWO_64
    ensures LcmOf(align, size) < TWO_64
    ensures var s, r := LeastStride(cols, size, align), StrideFor(cols, bytes, LcmOf(align, size), size);
      (r == Success(s) <==> s < TWO_32) && (r.Success? <==> s < TWO_32)
  {
    LcmInWord(align, size);
    LeastStrideBounds(cols, size, align);
    StrideBytes(cols, size, align);
    StrideFits(cols, size, align);
    ExactStride(cols, bytes, LcmOf(align, size), size, LeastStride(cols, size, align));
  }

  lemma BytesDoNotWrap(cols: nat, size: nat, align: nat, bytes: nat)
    requires 0 < size < TWO_32 && 0 < align < TWO_32 && bytes == cols * size < TWO_64
    ensures LcmOf(align, size) < TWO_64
    ensures AlignedStride(cols, size, align) == StrideFor(cols, bytes, LcmOf(align, size), size)
  {
    LcmInWord(align, size);
    WrapsOnce(bytes, TWO_64);
  }

  lemma ExactStride(cols: nat, bytes: nat, lcm: nat, size: nat, s: nat)
    requires bytes < TWO_64 && 0 < lcm < TWO_64 && size > 0
    requires RoundUp(bytes, lcm) == s * size && s >= cols
    requires s < TWO_32 ==> s * size < TWO_64
    requires s >= TWO_32 && cols < TWO_32 ==> s % TWO_32 < cols
    ensures StrideFor(cols, bytes, lcm, size) == Success(s) <==> s < TWO_32
    ensures StrideFor(cols, bytes, lcm, size).Success? <==> s < TWO_32
  {
    MultipleOf(s, size);
    if s < TWO_32 {
      WrapsOnce(s, TWO_32);
    }
  }

  lemma StrideFits(cols: nat, size: nat, align: nat)
    requires 0 < size < TWO_32 && 0 < align < TWO_32 && cols * size < TWO_64
    ensures var s := LeastStride(cols, size, align);
      && (s < TWO_32 ==> s * size < TWO_64 && s % TWO_32 == s)
      && (s >= TWO_32 && cols < TWO_32 ==> s % TWO_32 < cols)
  {
    var s := LeastStride(cols, size, align);
    LeastStrideBounds(cols, size, align);
    if s < TWO_32 {
      ProductBelow(s, size, TWO_32);
    } else if cols < TWO_32 {
      WrapsOnce(s, TWO_32);
    }
  }

  lemma ManyColumns(cols: nat, size: nat, w: nat)
    requires cols * size >= w * w && size < w
    ensures cols >= w
  {
    if cols < w {
      ProductBelow(cols, size, w);
    }
  }
}
