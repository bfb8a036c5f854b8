/** The general matrix product on row- and column-major views, lowered to one column-major
  * multiplication by choosing its operand order, transpose flags and leading dimensions. */
module Gemm {
  import opened Bits
  import opened Wrappers

  datatype Layout = RowMajor | ColMajor

  /** The scalars that matrices are made of. */
  datatype Arithmetic<!T(!new)> = Arithmetic(zero: T, one: T, add: (T, T) -> T, mul: (T, T) -> T)
  {
    ghost predicate Commutes() {
      forall a, b :: MulCommutes(a, b)
    }

    ghost predicate MulCommutes(a: T, b: T) {
      mul(a, b) == mul(b, a)
    }
  }

  /** A contiguous matrix view. */
  datatype Matrix<T> = Matrix(data: seq<T>, rows: nat, cols: nat, layout: Layout)
  {
    predicate Valid() {
      |data| == rows * cols
    }

    function Index(i: nat, j: nat): nat {
      if layout.RowMajor? then i * cols + j else i + j * rows
    }

    function At(i: nat, j: nat): T
      requires Valid() && i < rows && j < cols
    {
      IndexInside(i, j);
      data[Index(i, j)]
    }

    lemma IndexInside(i: nat, j: nat)
      requires i < rows && j < cols
      ensures Index(i, j) < rows * cols
    {
      if layout.RowMajor? {
        MulLe(i + 1, rows, cols);
      } else {
        MulLe(j + 1, cols, rows);
      }
    }

    /** The stored stride between columns (column-major) or rows (row-major). */
    function LeadingDimension(): nat {
      if layout.ColMajor? then rows else cols
    }
  }

  // ---------------------------------------------------------------- the column-major multiply

  /** An operand as the multiply sees it: column-major with leading dimension `ld`, optionally
    * transposed. */
  datatype Operand<T> = Operand(data: seq<T>, transposed: bool, ld: nat)
  {
    function Index(i: nat, l: nat): nat {
      if transposed then l + i * ld else i + l * ld
    }

    ghost predicate Covers(rows: nat, cols: nat) {
      forall i, l | 0 <= i < rows && 0 <= l < cols :: Index(i, l) < |data|
    }

    ghost function At(i: nat, l: nat): T
      requires Index(i, l) < |data|
    {
      data[Index(i, l)]
    }
  }

  ghost function Product<T(!new)>(s: Arithmetic<T>, a: Operand<T>, b: Operand<T>, i: nat, j: nat, k: nat): T
    requires forall l | 0 <= l < k :: a.Index(i, l) < |a.data| && b.Index(l, j) < |b.data|
  {
    if k == 0 then s.zero else s.add(Product(s, a, b, i, j, k - 1), s.mul(a.At(i, k - 1), b.At(k - 1, j)))
  }

  /** `c := alpha * a * b + beta * c` on the `m` by `n` matrix that is stored column-major in `c` with
    * leading dimension `ldc`; what lies outside that matrix stays. */
  ghost function Multiply<T(!new)>(s: Arithmetic<T>, a: Operand<T>, b: Operand<T>, m: nat, n: nat, k: nat,
                                   alpha: T, beta: T, c: seq<T>, ldc: nat): (r: seq<T>)
    requires a.Covers(m, k) && b.Covers(k, n) && m <= ldc && |c| == ldc * n
    ensures |r| == |c|
  {
    seq(|c|, p requires 0 <= p < |c| => Entry(s, a, b, m, n, k, alpha, beta, c, ldc, p))
  }

  ghost function Entry<T(!new)>(s: Arithmetic<T>, a: Operand<T>, b: Operand<T>, m: nat, n: nat, k: nat,
                                alpha: T, beta: T, c: seq<T>, ldc: nat, p: nat): T
    requires a.Covers(m, k) && b.Covers(k, n) && |c| == ldc * n && p < |c|
  {
    FactorPositive(ldc, n);
    if p % ldc < m && p / ldc < n then
      s.add(s.mul(alpha, Product(s, a, b, p % ldc, p / ldc, k)), s.mul(beta, c[p]))
    else c[p]
  }

  // ---------------------------------------------------------------- the lowering

  datatype GemmError = RowsOfXAndZ | ColumnsOfYAndZ | ColumnsOfXAndRowsOfY

  /** The operand that stands for a matrix, transposed when its layout is not the wanted one. */
  function OperandFor<T>(x: Matrix<T>, wanted: Layout): Operand<T> {
    Operand(x.data, x.layout != wanted, x.LeadingDimension())
  }

  /** The scalars that the multiply uses when none are given. */
  function Scalar<T>(given: Option<T>, otherwise: T): T {
    match given
    case None => otherwise
    case Some(v) => v
  }

  /** A column-major result takes the product as it is; a row-major one, read column-major, is its
    * own transpose, and takes the product of the operands transposed and in the other order. */
  ghost function Gemm<T(!new)>(s: Arithmetic<T>, x: Matrix<T>, y: Matrix<T>, z: Matrix<T>,
                               alpha: Option<T>, beta: Option<T>): (r: Result<Matrix<T>, GemmError>)
    requires x.Valid() && y.Valid() && z.Valid()
    ensures r.Success? <==> x.rows == z.rows && y.cols == z.cols && x.cols == y.rows
    ensures r == Failure(RowsOfXAndZ) <==> x.rows != z.rows
    ensures r == Failure(ColumnsOfYAndZ) <==> x.rows == z.rows && y.cols != z.cols
    ensures r.Success? ==> r.value.Valid() && r.value == z.(data := r.value.data)
  {
    if x.rows != z.rows then Failure(RowsOfXAndZ)
    else if y.cols != z.cols then Failure(ColumnsOfYAndZ)
    else if x.cols != y.rows then Failure(ColumnsOfXAndRowsOfY)
    else if z.layout.ColMajor? then
      OperandCovers(x, ColMajor);
      OperandCovers(y, ColMajor);
      Success(z.(data := Multiply(s, OperandFor(x, ColMajor), OperandFor(y, ColMajor), z.rows, z.cols, x.cols,
                                  Scalar(alpha, s.one), Scalar(beta, s.zero), z.data, z.rows)))
    else
      OperandCovers(x, RowMajor);
      OperandCovers(y, RowMajor);
      Success(z.(data := Multiply(s, OperandFor(y, RowMajor), OperandFor(x, RowMajor), z.cols, z.rows, x.cols,
                                  Scalar(alpha, s.one), Scalar(beta, s.zero), z.data, z.cols)))
  }

  /** Reading a matrix column-major with its leading dimension, transposed if it is row-major, gives
    * the matrix; reading it as if row-major were wanted gives its transpose. */
  lemma OperandCovers<T>(x: Matrix<T>, wanted: Layout)
    requires x.Valid()
    ensures wanted.ColMajor? ==> OperandFor(x, wanted).Covers(x.rows, x.cols)
    ensures wanted.RowMajor? ==> OperandFor(x, wanted).Covers(x.cols, x.rows)
    ensures forall i, j | 0 <= i < x.rows && 0 <= j < x.cols ::
      (if wanted.ColMajor? then OperandFor(x, wanted).Index(i, j) else OperandFor(x, wanted).Index(j, i))
      == x.Index(i, j)
  {
    var a := OperandFor(x, wanted);
    forall i, j | 0 <= i < x.rows && 0 <= j < x.cols
      ensures (if wanted.ColMajor? then a.Index(i, j) else a.Index(j, i)) == x.Index(i, j) < |x.data|
    {
      x.IndexInside(i, j);
    }
  }

  /** The sum over `l` of `x[i, l] * y[l, j]`. */
  ghost function Dot<T(!new)>(s: Arithmetic<T>, x: Matrix<T>, y: Matrix<T>, i: nat, j: nat, k: nat): T
    requires x.Valid() && y.Valid() && i < x.rows && j < y.cols && k <= x.cols && k <= y.rows
  {
    if k == 0 then s.zero else s.add(Dot(s, x, y, i, j, k - 1), s.mul(x.At(i, k - 1), y.At(k - 1, j)))
  }

  lemma {:induction false} ProductIsDot<T(!new)>(s: Arithmetic<T>, x: Matrix<T>, y: Matrix<T>, i: nat, j: nat, k: nat)
    requires x.Valid() && y.Valid() && i < x.rows && j < y.cols && k <= x.cols && k <= y.rows
    ensures forall l | 0 <= l < k ::
      OperandFor(x, ColMajor).Index(i, l) < |x.data| && OperandFor(y, ColMajor).Index(l, j) < |y.data|
    ensures Product(s, OperandFor(x, ColMajor), OperandFor(y, ColMajor), i, j, k) == Dot(s, x, y, i, j, k)
  {
    OperandCovers(x, ColMajor);
    OperandCovers(y, ColMajor);
    if k == 0 {
    } else {
      ProductIsDot(s, x, y, i, j, k - 1);
    }
  }

  /** The transpose of a product is the product of the transposes in the other order. */
  lemma {:induction false} TransposedProductIsDot<T(!new)>(s: Arithmetic<T>, x: Matrix<T>, y: Matrix<T>,
                                                           i: nat, j: nat, k: nat)
    requires s.Commutes()
    requires x.Valid() && y.Valid() && i < x.rows && j < y.cols && k <= x.cols && k <= y.rows
    ensures forall l | 0 <= l < k ::
      OperandFor(y, RowMajor).Index(j, l) < |y.data| && OperandFor(x, RowMajor).Index(l, i) < |x.data|
    ensures Product(s, OperandFor(y, RowMajor), OperandFor(x, RowMajor), j, i, k) == Dot(s, x, y, i, j, k)
  {
    OperandCovers(x, RowMajor);
    OperandCovers(y, RowMajor);
    if k == 0 {
    } else {
      TransposedProductIsDot(s, x, y, i, j, k - 1);
      assert s.MulCommutes(x.At(i, k - 1), y.At(k - 1, j));
    }
  }

  predicate Conform<T>(x: Matrix<T>, y: Matrix<T>, z: Matrix<T>) {
    x.rows == z.rows && y.cols == z.cols && x.cols == y.rows
  }

  /** What the multiply puts at row `i`, column `j` of its column-major result. */
  lemma MultiplyAt<T(!new)>(s: Arithmetic<T>, a: Operand<T>, b: Operand<T>, m: nat, n: nat, k: nat,
                            alpha: T, beta: T, c: seq<T>, ldc: nat, i: nat, j: nat)
    requires a.Covers(m, k) && b.Covers(k, n) && m <= ldc && |c| == ldc * n && i < m && j < n
    ensures i + j * ldc < |c|
    ensures Multiply(s, a, b, m, n, k, alpha, beta, c, ldc)[i + j * ldc]
         == s.add(s.mul(alpha, Product(s, a, b, i, j, k)), s.mul(beta, c[i + j * ldc]))
  {
    MulLe(j + 1, n, ldc);
    DivModUnique(i + j * ldc, ldc, j, i);
  }

  /** In every layout, each element of the result is `alpha` times the dot product of a row of `x`
    * and a column of `y`, plus `beta` times the old element. An absent `alpha` counts as one, an
    * absent `beta` as zero. */
  lemma GemmIsProduct<T(!new)>(s: Arithmetic<T>, x: Matrix<T>, y: Matrix<T>, z: Matrix<T>,
                               alpha: Option<T>, beta: Option<T>, i: nat, j: nat)
    requires s.Commutes()
    requires x.Valid() && y.Valid() && z.Valid() && Conform(x, y, z) && i < z.rows && j < z.cols
    ensures Gemm(s, x, y, z, alpha, beta).value.At(i, j)
         == s.add(s.mul(if alpha.Some? then alpha.value else s.one, Dot(s, x, y, i, j, x.cols)),
                  s.mul(if beta.Some? then beta.value else s.zero, z.At(i, j)))
  {
    if z.layout.ColMajor? {
      ColMajorGemm(s, x, y, z, Scalar(alpha, s.one), Scalar(beta, s.zero), i, j);
    } else {
      RowMajorGemm(s, x, y, z, Scalar(alpha, s.one), Scalar(beta, s.zero), i, j);
    }
    z.IndexInside(i, j);
  }

  /** The four ways to pass scalars, one by one. */
  lemma ScalarsApply<T(!new)>(s: Arithmetic<T>, x: Matrix<T>, y: Matrix<T>, z: Matrix<T>,
                              a: T, b: T, i: nat, j: nat)
    requires s.Commutes()
    requires x.Valid() && y.Valid() && z.Valid() && Conform(x, y, z) && i < z.rows && j < z.cols
    ensures Gemm(s, x, y, z, Some(a), Some(b)).value.At(i, j)
         == s.add(s.mul(a, Dot(s, x, y, i, j, x.cols)), s.mul(b, z.At(i, j)))
    ensures Gemm(s, x, y, z, Some(a), None).value.At(i, j)
         == s.add(s.mul(a, Dot(s, x, y, i, j, x.cols)), s.mul(s.zero, z.At(i, j)))
    ensures Gemm(s, x, y, z, None, Some(b)).value.At(i, j)
         == s.add(s.mul(s.one, Dot(s, x, y, i, j, x.cols)), s.mul(b, z.At(i, j)))
    ensures Gemm(s, x, y, z, None, None).value.At(i, j)
         == s.add(s.mul(s.one, Dot(s, x, y, i, j, x.cols)), s.mul(s.zero, z.At(i, j)))
  {
    GemmIsProduct(s, x, y, z, Some(a), Some(b), i, j);
    GemmIsProduct(s, x, y, z, Some(a), None, i, j);
    GemmIsProduct(s, x, y, z, None, Some(b), i, j);
    GemmIsProduct(s, x, y, z, None, None, i, j);
  }

  lemma ColMajorGemm<T(!new)>(s: Arithmetic<T>, x: Matrix<T>, y: Matrix<T>, z: Matrix<T>,
                              alpha: T, beta: T, i: nat, j: nat)
    requires x.Valid() && y.Valid() && z.Valid() && Conform(x, y, z) && i < z.rows && j < z.cols
    requires z.layout.ColMajor?
    ensures OperandFor(x, ColMajor).Covers(x.rows, x.cols) && OperandFor(y, ColMajor).Covers(y.rows, y.cols)
    ensures z.Index(i, j) < |z.data|
    ensures Multiply(s, OperandFor(x, ColMajor), OperandFor(y, ColMajor), z.rows, z.cols, x.cols,
                     alpha, beta, z.data, z.rows)[z.Index(i, j)]
         == s.add(s.mul(alpha, Dot(s, x, y, i, j, x.cols)), s.mul(beta, z.data[z.Index(i, j)]))
  {
    OperandCovers(x, ColMajor);
    OperandCovers(y, ColMajor);
    MultiplyAt(s, OperandFor(x, ColMajor), OperandFor(y, ColMajor), z.rows, z.cols, x.cols,
               alpha, beta, z.data, z.rows, i, j);
    ProductIsDot(s, x, y, i, j, x.cols);
  }

  lemma RowMajorGemm<T(!new)>(s: Arithmetic<T>, x: Matrix<T>, y: Matrix<T>, z: Matrix<T>,
                              alpha: T, beta: T, i: nat, j: nat)
    requires s.Commutes()
    requires x.Valid() && y.Valid() && z.Valid() && Conform(x, y, z) && i < z.rows && j < z.cols
    requires z.layout.RowMajor?
    ensures OperandFor(x, RowMajor).Covers(x.cols, x.rows) && OperandFor(y, RowMajor).Covers(y.cols, y.rows)
    ensures z.Index(i, j) < |z.data|
    ensures Multiply(s, OperandFor(y, RowMajor), OperandFor(x, RowMajor), z.cols, z.rows, x.cols,
                     alpha, beta, z.data, z.cols)[z.Index(i, j)]
         == s.add(s.mul(alpha, Dot(s, x, y, i, j, x.cols)), s.mul(beta, z.data[z.Index(i, j)]))
  {
    OperandCovers(x, RowMajor);
    OperandCovers(y, RowMajor);
    MultiplyAt(s, OperandFor(y, RowMajor), OperandFor(x, RowMajor), z.cols, z.rows, x.cols,
               alpha, beta, z.data, z.cols, j, i);
    TransposedProductIsDot(s, x, y, i, j, x.cols);
  }

  ghost predicate SameMatrix<T(!new)>(a: Matrix<T>, b: Matrix<T>)
    requires a.Valid() && b.Valid()
  {
    a.rows == b.rows && a.cols == b.cols
    && forall i, j | 0 <= i < a.rows && 0 <= j < a.cols :: a.At(i, j) == b.At(i, j)
  }

  lemma {:induction false} SameDot<T(!new)>(s: Arithmetic<T>, x: Matrix<T>, y: Matrix<T>, u: Matrix<T>, v: Matrix<T>,
                                            i: nat, j: nat, k: nat)
    requires x.Valid() && y.Valid() && u.Valid() && v.Valid() && SameMatrix(x, u) && SameMatrix(y, v)
    requires i < x.rows && j < y.cols && k <= x.cols && k <= y.rows
    ensures Dot(s, x, y, i, j, k) == Dot(s, u, v, i, j, k)
  {
    if k == 0 {
    } else {
      SameDot(s, x, y, u, v, i, j, k - 1);
    }
  }

  /** The layouts of the three matrices do not matter: the same matrices in any other layouts give
    * the same result, or the same error. */
  lemma LayoutsDoNotMatter<T(!new)>(s: Arithmetic<T>, x: Matrix<T>, y: Matrix<T>, z: Matrix<T>,
                                    u: Matrix<T>, v: Matrix<T>, w: Matrix<T>, alpha: Option<T>, beta: Option<T>)
    requires s.Commutes()
    requires x.Valid() && y.Valid() && z.Valid() && u.Valid() && v.Valid() && w.Valid()
    requires SameMatrix(x, u) && SameMatrix(y, v) && SameMatrix(z, w)
    ensures var a, b := Gemm(s, x, y, z, alpha, beta), Gemm(s, u, v, w, alpha, beta);
      || (a.Failure? && a == b)
      || (a.Success? && b.Success? && a.value.Valid() && b.value.Valid() && SameMatrix(a.value, b.value))
  {
    if Conform(x, y, z) {
      var a, b := Gemm(s, x, y, z, alpha, beta).value, Gemm(s, u, v, w, alpha, beta).value;
      forall i, j | 0 <= i < z.rows && 0 <= j < z.cols
        ensures a.At(i, j) == b.At(i, j)
      {
        GemmIsProduct(s, x, y, z, alpha, beta, i, j);
        GemmIsProduct(s, u, v, w, alpha, beta, i, j);
        SameDot(s, x, y, u, v, i, j, x.cols);
      }
    }
  }

  function Reals(): Arithmetic<real> {
    Arithmetic(0.0, 1.0, (a: real, b: real) => a + b, (a: real, b: real) => a * b)
  }

  lemma RealsCommute()
    ensures Reals().Commutes()
  {
    forall a: real, b: real
      ensures Reals().MulCommutes(a, b)
    {
    }
  }

  /** Over the reals, `gemm` without scalars overwrites `z` with the product. */
  lemma DefaultsGiveProduct(x: Matrix<real>, y: Matrix<real>, z: Matrix<real>, i: nat, j: nat)
    requires x.Valid() && y.Valid() && z.Valid() && Conform(x, y, z) && i < z.rows && j < z.cols
    ensures Gemm(Reals(), x, y, z, None, None).value.At(i, j) == Dot(Reals(), x, y, i, j, x.cols)
  {
    RealsCommute();
    GemmIsProduct(Reals(), x, y, z, None, None, i, j);
  }

  /** Zero and one are what their names say. */
  ghost predicate Neutral<T(!new)>(s: Arithmetic<T>) {
    forall a ::
      s.add(a, s.zero) == a && s.add(s.zero, a) == a && s.mul(s.one, a) == a && s.mul(s.zero, a) == s.zero
  }

  ghost predicate IsUnit<T(!new)>(s: Arithmetic<T>, x: Matrix<T>) {
    x.Valid() && x.rows == x.cols
    && forall i, j | 0 <= i < x.rows && 0 <= j < x.cols :: x.At(i, j) == if i == j then s.one else s.zero
  }

  /** A row of the unit matrix picks one element of a column. */
  lemma {:induction false} UnitDot<T(!new)>(s: Arithmetic<T>, x: Matrix<T>, y: Matrix<T>, i: nat, j: nat, k: nat)
    requires Neutral(s) && IsUnit(s, x) && y.Valid()
    requires i < x.rows && j < y.cols && k <= x.cols && x.cols == y.rows
    ensures Dot(s, x, y, i, j, k) == if i < k then y.At(i, j) else s.zero
  {
    if k == 0 {
    } else {
      UnitDot(s, x, y, i, j, k - 1);
    }
  }

  /** Multiplying by the unit matrix adds multiples of `y` and of the old `z`, in whatever layouts. */
  lemma UnitTimesMatrix<T(!new)>(s: Arithmetic<T>, x: Matrix<T>, y: Matrix<T>, z: Matrix<T>,
                                 a: T, b: T, i: nat, j: nat)
    requires s.Commutes() && Neutral(s) && IsUnit(s, x) && y.Valid() && z.Valid() && Conform(x, y, z)
    requires i < z.rows && j < z.cols
    ensures Gemm(s, x, y, z, Some(a), Some(b)).value.At(i, j) == s.add(s.mul(a, y.At(i, j)), s.mul(b, z.At(i, j)))
  {
    ScalarsApply(s, x, y, z, a, b, i, j);
    UnitDot(s, x, y, i, j, x.cols);
  }
}
