/** Row-major datasets with a required row stride: borrowed from the source when its layout already
  * fits, copied into zero-padded rows otherwise. */
module StridedDataset {
  import opened Bits
  import opened Wrappers
  import opened RowAlignment

  /** A matrix view; `accessible` tells whether the device can read its memory. */
  datatype Source<!T> = Source(memory: nat -> T, rows: nat, cols: nat, stride0: nat, stride1: nat, accessible: bool)
  {
    function At(i: nat, j: nat): T {
      memory(i * stride0 + j * stride1)
    }

    /** The stride between rows; a source without one is taken to be dense. */
    function RowStride(): nat {
      (if stride0 > 0 then stride0 else cols) % TWO_32
    }

    predicate Borrowable(required: nat) {
      accessible && stride1 <= 1 && required == RowStride()
    }
  }

  /** Element `b` of a row of `stride` elements. */
  function Offset(a: nat, b: nat, stride: nat): nat {
    a * stride + b
  }

  datatype Dataset<!T> =
    | Borrowed(memory: nat -> T, rows: nat, cols: nat, stride: nat)
    | Owned(data: seq<T>, rows: nat, cols: nat, stride: nat)
  {
    predicate Valid() {
      cols <= stride && (Owned? ==> |data| == rows * stride)
    }

    function At(i: nat, j: nat): T
      requires Valid() && i < rows && j < stride
    {
      match this
      case Borrowed(memory, _, _, _) => memory(Offset(i, j, stride))
      case Owned(data, _, _, _) => OffsetInRows(i, j, rows, stride); data[Offset(i, j, stride)]
    }

    /** The leading dimension that the dataset reports. */
    function LeadingDimension(): nat {
      (if stride > 0 then stride else cols) % TWO_32
    }
  }

  /** The device's two-dimensional copy refuses a source whose rows overlap. */
  predicate CopyRefused<T>(src: Source<T>) {
    src.rows > 0 && src.RowStride() < src.cols
  }

  lemma OffsetInRows(a: nat, b: nat, rows: nat, stride: nat)
    requires a < rows && b < stride
    ensures Offset(a, b, stride) < rows * stride
  {
    MulLe(a + 1, rows, stride);
  }

  /** Rows do not overlap. */
  lemma RowsApart(a: nat, b: nat, i: nat, j: nat, stride: nat)
    requires a != i && b < stride && j < stride
    ensures Offset(a, b, stride) != Offset(i, j, stride)
  {
    if a < i {
      MulLe(a + 1, i, stride);
    } else {
      MulLe(i + 1, a, stride);
    }
  }

  method CopyRow<T>(out: array<T>, base: nat, memory: nat -> T, from: nat, n: nat)
    requires base + n <= out.Length
    modifies out
    ensures forall p :: base <= p < base + n ==> out[p] == memory(from + (p - base))
    ensures forall p :: 0 <= p < out.Length && !(base <= p < base + n) ==> out[p] == old(out[p])
  {
    var k := 0;
    while k < n
      invariant 0 <= k <= n
      invariant forall p :: base <= p < base + k ==> out[p] == memory(from + (p - base))
      invariant forall p :: 0 <= p < out.Length && !(base <= p < base + k) ==> out[p] == old(out[p])
    {
      out[base + k] := memory(from + k);
      k := k + 1;
    }
  }

  /** One row of the two-dimensional copy. */
  method NextRowCopied<T>(out: array<T>, src: Source<T>, stride: nat, i: nat, zero: T)
    requires i < src.rows && src.cols <= stride && RowsAre(out[..], src, stride, i, zero)
    modifies out
    ensures RowsAre(out[..], src, stride, i + 1, zero)
  {
    ghost var before := out[..];
    var base, from := i * stride, i * src.RowStride();
    RowInside(i, src.rows, src.cols, stride);
    CopyRow(out, base, src.memory, from, src.cols);
    NextRow(before, out[..], src, stride, i, zero, base, from);
  }

  /** The two-dimensional copy of `rows` rows into zeroed rows of `stride` elements. */
  method CopyRows<T>(src: Source<T>, stride: nat, zero: T) returns (out: array<T>)
    requires src.cols <= stride
    ensures fresh(out) && out.Length == src.rows * stride
    ensures RowsAre(out[..], src, stride, src.rows, zero)
  {
    out := new T[src.rows * stride](_ => zero);
    var i := 0;
    BlankRows(out[..], src, stride, zero);
    while i < src.rows
      invariant 0 <= i <= src.rows
      invariant RowsAre(out[..], src, stride, i, zero)
    {
      NextRowCopied(out, src, stride, i, zero);
      i := i + 1;
    }
  }

  lemma RowInside(i: nat, rows: nat, cols: nat, stride: nat)
    requires i < rows && cols <= stride
    ensures i * stride + cols <= rows * stride
  {
    MulLe(i + 1, rows, stride);
  }

  /** The first `n` rows hold the source's rows, and everything else is zero. */
  ghost predicate RowsAre<T>(s: seq<T>, src: Source<T>, stride: nat, n: nat, zero: T) {
    && |s| == src.rows * stride
    && forall a, b | 0 <= a < src.rows && 0 <= b < stride :: RowIs(s, src, stride, n, zero, a, b)
  }

  ghost predicate RowIs<T>(s: seq<T>, src: Source<T>, stride: nat, n: nat, zero: T, a: nat, b: nat) {
    && Offset(a, b, stride) < |s|
    && s[Offset(a, b, stride)] ==
       if a < n && b < src.cols then src.memory(Offset(a, b, src.RowStride())) else zero
  }

  lemma BlankRows<T>(s: seq<T>, src: Source<T>, stride: nat, zero: T)
    requires |s| == src.rows * stride && forall p :: 0 <= p < |s| ==> s[p] == zero
    ensures RowsAre(s, src, stride, 0, zero)
  {
    forall a, b | 0 <= a < src.rows && 0 <= b < stride
      ensures RowIs(s, src, stride, 0, zero, a, b)
    {
      OffsetInRows(a, b, src.rows, stride);
    }
  }

  lemma NextRow<T>(s: seq<T>, t: seq<T>, src: Source<T>, stride: nat, i: nat, zero: T, base: nat, from: nat)
    requires RowsAre(s, src, stride, i, zero) && |t| == |s| && i < src.rows && src.cols <= stride
    requires base == i * stride && from == i * src.RowStride()
    requires forall p :: 0 <= p < |s| && base <= p < base + src.cols ==> t[p] == src.memory(from + (p - base))
    requires forall p :: 0 <= p < |s| && !(base <= p < base + src.cols) ==> t[p] == s[p]
    ensures RowsAre(t, src, stride, i + 1, zero)
  {
    var n := i + 1;
    forall a, b | 0 <= a < src.rows && 0 <= b < stride
      ensures RowIs(t, src, stride, n, zero, a, b)
    {
      assert RowIs(s, src, stride, i, zero, a, b);
      if a != i && base <= Offset(a, b, stride) < base + src.cols {
        RowsApart(a, b, i, Offset(a, b, stride) - base, stride);
      }
    }
  }

  method MakeStridedDataset<T>(src: Source<T>, required: nat, zero: T) returns (r: Result<Dataset<T>, DatasetError>)
    ensures r == Failure(RowTooLong) <==> src.cols > required
    ensures r == Failure(PitchTooSmall) <==>
      src.cols <= required && src.rows > 0 && (if src.stride0 > 0 then src.stride0 else src.cols) % TWO_32 < src.cols
    ensures r.Failure? ==> r.error == RowTooLong || r.error == PitchTooSmall
    ensures r.Success? ==>
      && r.value.Valid() && r.value.stride == required
      && r.value.rows == src.rows && r.value.cols == src.cols
      && (r.value.Borrowed? <==>
            && src.accessible && src.stride1 <= 1
            && required == (if src.stride0 > 0 then src.stride0 else src.cols) % TWO_32)
      && (required < TWO_32 ==> r.value.LeadingDimension() == required)
      && (forall i, j | 0 <= i < src.rows && 0 <= j < src.cols ::
            r.value.At(i, j) == src.memory(Offset(i, j, src.RowStride())))
      && (r.value.Owned? ==> forall i, j | 0 <= i < src.rows && src.cols <= j < required ::
            r.value.At(i, j) == zero)
  {
    if src.cols > required {
      return Failure(RowTooLong);
    }
    if src.accessible && src.stride1 <= 1 && required == src.RowStride() {
      return Success(Borrowed(src.memory, src.rows, src.cols, required));
    }
    if src.rows > 0 && src.RowStride() < src.cols {
      return Failure(PitchTooSmall);
    }
    var out := CopyRows(src, required, zero);
    r := Success(Owned(out[..], src.rows, src.cols, required));
    forall i, j | 0 <= i < src.rows && 0 <= j < required
      ensures r.value.At(i, j) ==
        if j < src.cols then src.memory(Offset(i, j, src.RowStride())) else zero
    {
      assert RowIs(out[..], src, required, src.rows, zero, i, j);
    }
  }

  method MakeAlignedDataset<T>(src: Source<T>, size: nat, align: nat, zero: T)
      returns (r: Result<Dataset<T>, DatasetError>)
    requires 0 < size < TWO_32 && 0 < align < TWO_32
    ensures r == Failure(PitchTooSmall) <==> LeastStride(src.cols, size, align) < TWO_32 && CopyRefused(src)
    ensures r == Failure(RoundUpOverflow) <==> BytesOverflow(src.cols, size, align)
    ensures r.Success? <==> LeastStride(src.cols, size, align) < TWO_32 && !CopyRefused(src)
    ensures r.Success? ==>
      && r.value.Valid() && r.value.stride == LeastStride(src.cols, size, align)
      && r.value.rows == src.rows && r.value.cols == src.cols
      && (r.value.Borrowed? <==> src.Borrowable(r.value.stride))
      && (forall i, j | 0 <= i < src.rows && 0 <= j < src.cols ::
            r.value.At(i, j) == src.memory(Offset(i, j, src.RowStride())))
      && (r.value.Owned? ==> forall i, j | 0 <= i < src.rows && src.cols <= j < r.value.stride ::
            r.value.At(i, j) == zero)
  {
    AlignedStrideIff(src.cols, size, align);
    StrideErrors(src.cols, size, align);
    var stride := AlignedStride(src.cols, size, align);
    if stride.Failure? {
      return Failure(stride.error);
    }
    r := MakeStridedDataset(src, stride.value, zero);
  }

  // ---------------------------------------------------------------- agreement with the source

  /** Row `i`, column `j` of the source is where both the borrowed and the copied rows look for it. */
  ghost predicate Agrees<T>(src: Source<T>) {
    forall i, j | 0 <= i < src.rows && 0 <= j < src.cols ::
      src.memory(Offset(i, j, src.RowStride())) == src.At(i, j)
  }

  /** With more than one column the elements of a row must be adjacent, and with more than one row
    * the row stride must be positive and fit in 32 bits (or be zero with no row length left). */
  predicate LayoutFits<T>(src: Source<T>) {
    src.rows > 0 && src.cols > 0 ==>
      && (src.cols > 1 ==> src.stride1 == 1)
      && (src.rows > 1 ==> 0 < src.stride0 < TWO_32 || (src.stride0 == 0 && src.cols % TWO_32 == 0))
  }

  lemma RowStrideIs<T>(src: Source<T>)
    ensures src.stride0 == src.RowStride() <==>
      0 < src.stride0 < TWO_32 || (src.stride0 == 0 && src.cols % TWO_32 == 0)
  {
  }

  lemma FittingLayoutAgrees<T>(src: Source<T>)
    requires LayoutFits(src)
    ensures Agrees(src)
  {
    RowStrideIs(src);
    forall i, j | 0 <= i < src.rows && 0 <= j < src.cols
      ensures src.memory(Offset(i, j, src.RowStride())) == src.At(i, j)
    {
      assert src.cols == 1 ==> j * src.stride1 == 0;
      assert src.rows == 1 ==> i * src.stride0 == 0 && i * src.RowStride() == 0;
    }
  }

  /** Whatever the memory holds, the dataset that is made, borrowed or copied, agrees with the source
    * at every element exactly when the layout fits. */
  lemma AgreesIff<T(!new)>(src: Source<T>, x: T, y: T)
    requires x != y
    ensures (forall m: nat -> T :: Agrees(src.(memory := m))) <==> LayoutFits(src)
  {
    if LayoutFits(src) {
      forall m: nat -> T
        ensures Agrees(src.(memory := m))
      {
        FittingLayoutAgrees(src.(memory := m));
      }
    } else {
      RowStrideIs(src);
      if src.cols > 1 && src.stride1 != 1 {
        Disagrees(src, 0, 1, x, y);
      } else {
        Disagrees(src, 1, 0, x, y);
      }
    }
  }

  lemma Disagrees<T(!new)>(src: Source<T>, i: nat, j: nat, x: T, y: T)
    requires x != y && i < src.rows && j < src.cols
    requires Offset(i, j, src.RowStride()) != i * src.stride0 + j * src.stride1
    ensures !forall m: nat -> T :: Agrees(src.(memory := m))
  {
    var p := i * src.stride0 + j * src.stride1;
    var m := q => if q == p then x else y;
    var t := src.(memory := m);
    assert t.At(i, j) == x && t.memory(Offset(i, j, t.RowStride())) == y;
    assert !Agrees(t);
  }

  /** With a column stride of two, the copy takes the gap after the first element for the second. */
  lemma WideColumnsMisread<T>(src: Source<T>)
    requires src.rows == 1 && src.cols == 2 && src.stride0 == 4 && src.stride1 == 2
    requires src.memory(1) != src.memory(2)
    ensures !CopyRefused(src) && !src.Borrowable(2) && !Agrees(src)
  {
    assert src.memory(Offset(0, 1, src.RowStride())) != src.At(0, 1);
  }
}
