/** Contiguous strides, and reshaping and flattening of contiguous views. */
module MdspanViews {
  import opened Bits
  import opened Wrappers
  import opened IndexSpace

  const TWO_16: nat := 0x1_0000

  // ---------------------------------------------------------------- contiguity

  /** The strides are the suffix products as the loop computes them, in words below `word`. */
  predicate CContiguous(e: seq<nat>, strides: seq<nat>, word: nat)
    requires word > 0
  {
    |strides| == |e| && forall r :: 0 <= r < |e| ==> strides[r] == Size(e[r + 1..]) % word
  }

  predicate FContiguous(e: seq<nat>, strides: seq<nat>, word: nat)
    requires word > 0
  {
    |strides| == |e| && forall r :: 0 <= r < |e| ==> strides[r] == Size(e[..r]) % word
  }

  lemma {:induction false} SizeFront(e: seq<nat>)
    requires |e| > 0
    ensures Size(e) == Size(e[1..]) * e[0]
  {
    var n := |e| - 1;
    if n == 0 {
      assert e[..0] == [] && e[1..] == [];
    } else {
      SizeFront(e[..n]);
      assert e[..n][1..] == e[1..][..n - 1];
      Regroup(Size(e[..n][1..]), e[0], e[n]);
    }
  }

  lemma Regroup(a: nat, b: nat, c: nat)
    ensures a * b * c == a * c * b
  {
  }

  method IsCContiguous(e: seq<nat>, strides: seq<nat>, word: nat) returns (b: bool)
    requires |strides| == |e| && word > 1
    ensures b == CContiguous(e, strides, word)
  {
    var stride := 1;
    var r := |e|;
    assert e[|e|..] == [];
    while r > 0
      invariant 0 <= r <= |e|
      invariant stride == Size(e[r..]) % word
      invariant forall k :: r <= k < |e| ==> strides[k] == Size(e[k + 1..]) % word
    {
      if stride != strides[r - 1] {
        return false;
      }
      SizeFront(e[r - 1..]);
      assert e[r - 1..][1..] == e[r..];
      CutProduct(Size(e[r..]), e[r - 1], word);
      stride := stride * e[r - 1] % word;
      r := r - 1;
    }
    b := true;
  }

  method IsFContiguous(e: seq<nat>, strides: seq<nat>, word: nat) returns (b: bool)
    requires |strides| == |e| && word > 1
    ensures b == FContiguous(e, strides, word)
  {
    var stride := 1;
    var r := 0;
    assert e[..0] == [];
    while r < |e|
      invariant 0 <= r <= |e|
      invariant stride == Size(e[..r]) % word
      invariant forall k :: 0 <= k < r ==> strides[k] == Size(e[..k]) % word
    {
      if stride != strides[r] {
        return false;
      }
      assert e[..r + 1][..r] == e[..r];
      CutProduct(Size(e[..r]), e[r], word);
      stride := stride * e[r] % word;
      r := r + 1;
    }
    b := true;
  }

  lemma WordProduct(x: nat, word: nat)
    requires word > 0
    ensures x % word == x <==> x < word
  {
    if x < word {
      DivModUnique(x, word, 0, x);
    }
  }

  /** Every product that is a stride is a word. */
  predicate Fit(products: seq<nat>, word: nat) {
    forall r :: 0 <= r < |products| ==> products[r] < word
  }

  function Cut(products: seq<nat>, word: nat): (s: seq<nat>)
    requires word > 0
    ensures |s| == |products| && forall r :: 0 <= r < |s| ==> s[r] == products[r] % word
  {
    seq(|products|, r requires 0 <= r < |products| => products[r] % word)
  }

  lemma CutIsSameIff(products: seq<nat>, word: nat)
    requires word > 0
    ensures Cut(products, word) == products <==> Fit(products, word)
  {
    forall r | 0 <= r < |products|
      ensures Cut(products, word)[r] == products[r] <==> products[r] < word
    {
      WordProduct(products[r], word);
    }
  }

  /** The test recognises exactly the suffix products when these fit the index type; when one does
    * not, it takes other strides for them. */
  lemma CContiguousIff(e: seq<nat>, word: nat)
    requires word > 0
    ensures (forall strides :: CContiguous(e, strides, word) <==> SuffixProducts(strides, e)) <==>
      Fit(Suffixes(e), word)
  {
    var suffixes := Suffixes(e);
    CutIsSameIff(suffixes, word);
    forall strides
      ensures SuffixProducts(strides, e) <==> strides == suffixes
      ensures CContiguous(e, strides, word) <==> strides == Cut(suffixes, word)
    {
      assert |strides| == |e| ==> forall r :: 0 <= r < |e| ==> suffixes[r] == Size(e[r + 1..]);
    }
    assert CContiguous(e, Cut(suffixes, word), word);
  }

  function Prefixes(e: seq<nat>): seq<nat> {
    seq(|e|, r requires 0 <= r < |e| => Size(e[..r]))
  }

  lemma FContiguousIff(e: seq<nat>, word: nat)
    requires word > 0
    ensures (forall strides :: FContiguous(e, strides, word) <==> PrefixProducts(strides, e)) <==>
      Fit(Prefixes(e), word)
  {
    var prefixes := Prefixes(e);
    CutIsSameIff(prefixes, word);
    forall strides
      ensures PrefixProducts(strides, e) <==> strides == prefixes
      ensures FContiguous(e, strides, word) <==> strides == Cut(prefixes, word)
    {
      assert |strides| == |e| ==> forall r :: 0 <= r < |e| ==> prefixes[r] == Size(e[..r]);
    }
    assert FContiguous(e, Cut(prefixes, word), word);
  }

  /** Rank three, spelled out. */
  lemma ThreeExtents(a: nat, b: nat, c: nat, strides: seq<nat>, word: nat)
    requires |strides| == 3 && word > 0
    ensures SuffixProducts(strides, [a, b, c]) <==> strides == [b * c, c, 1]
    ensures CContiguous([a, b, c], strides, word) <==> strides == [b * c % word, c % word, 1 % word]
    ensures PrefixProducts(strides, [a, b, c]) <==> strides == [1, a, a * b]
    ensures FContiguous([a, b, c], strides, word) <==> strides == [1 % word, a % word, a * b % word]
  {
    var e := [a, b, c];
    SizeOfTwo(b, c);
    SizeOfTwo(c, c);
    SizeOfTwo(a, b);
    assert e[0 + 1..] == [b, c] && e[1 + 1..] == [c] && e[2 + 1..] == [];
    assert e[..0] == [] && e[..1] == [a] && e[..2] == [a, b];
  }

  /** Whenever two extents multiply to a multiple of the word, a stride of zero is taken for their
    * product. */
  lemma ZeroStrideAccepted(a: nat, b: nat, c: nat, word: nat)
    requires 1 < b < word && 1 < c < word && b * c % word == 0
    ensures CContiguous([a, b, c], [0, c, 1], word) && !SuffixProducts([0, c, 1], [a, b, c])
    ensures FContiguous([b, c, a], [1, b, 0], word) && !PrefixProducts([1, b, 0], [b, c, a])
  {
    ThreeExtents(a, b, c, [0, c, 1], word);
    ThreeExtents(b, c, a, [1, b, 0], word);
    WordProduct(1, word);
    WordProduct(b, word);
    WordProduct(c, word);
    MulLe(1, b, c);
  }

  /** With 32-bit strides 65536 times 65536 is such a product. */
  lemma ZeroStrideInput()
    ensures CContiguous([2, TWO_16, TWO_16], [0, TWO_16, 1], TWO_32)
    ensures !SuffixProducts([0, TWO_16, 1], [2, TWO_16, TWO_16])
    ensures FContiguous([TWO_16, TWO_16, 2], [1, TWO_16, 0], TWO_32)
    ensures !PrefixProducts([1, TWO_16, 0], [TWO_16, TWO_16, 2])
  {
    ZeroStrideAccepted(2, TWO_16, TWO_16, TWO_32);
  }

  lemma SizeOfTwo(a: nat, b: nat)
    ensures Size([a]) == a && Size([a, b]) == a * b
  {
    assert [a, b][..1] == [a] && [a][..0] == [];
  }

  /** With such strides every coordinate has its own offset below the size, and every offset below
    * the size is that of the coordinate it unravels to. */
  lemma COffsetBijection(e: seq<nat>, strides: seq<nat>, c: seq<nat>, p: nat)
    requires |e| > 0 && SuffixProducts(strides, e) && InRange(c, e) && p < Size(e)
    ensures Positive(e) && Offset(c, strides) < Size(e) && Unravel(Offset(c, strides), e) == c
    ensures InRange(Unravel(p, e), e) && Offset(Unravel(p, e), strides) == p
  {
    SuffixOffset(c, strides, e);
    LinearBelowSize(c, e);
    LinearUnravel(c, e);
    UnravelLinear(p, e);
    SuffixOffset(Unravel(p, e), strides, e);
  }

  lemma FOffsetBijection(e: seq<nat>, strides: seq<nat>, c: seq<nat>, p: nat)
    requires PrefixProducts(strides, e) && InRange(c, e) && p < Size(e)
    ensures Positive(e) && Offset(c, strides) < Size(e) && UnravelF(Offset(c, strides), e) == c
    ensures InRange(UnravelF(p, e), e) && Offset(UnravelF(p, e), strides) == p
  {
    PrefixOffset(c, strides, e);
    LinearUnravelF(c, e);
    UnravelLinearF(p, e);
    PrefixOffset(UnravelF(p, e), strides, e);
  }

  // ---------------------------------------------------------------- reshaping

  lemma CutNotAbove(x: nat, word: nat)
    requires word > 0
    ensures x % word <= x
  {
    DivMod(x, word);
  }

  /** A row-major view: `exhaustive` tells whether its elements fill the memory they span, and its
    * index type holds the words below `word`. `data` is the memory behind its handle. */
  datatype View<T> = View(data: seq<T>, extents: seq<nat>, exhaustive: bool, word: nat)
  {
    predicate Valid() {
      0 < word <= TWO_64 && Size(extents) <= |data| && Fit(extents, word)
    }

    /** What `size()` reports: the number of elements, cut to the index type. */
    function Count(): nat
      requires Valid()
    {
      Size(extents) % word
    }

    /** The number of elements is a word of the index type. */
    predicate Counted() {
      Size(extents) < word
    }

    /** The element at a coordinate; the offset is computed in the index type. */
    function At(c: seq<nat>): T
      requires Valid() && InRange(c, extents)
    {
      LinearBelowSize(c, extents);
      CutNotAbove(Linear(c, extents), word);
      data[Linear(c, extents) % word]
    }
  }

  datatype ViewError = NotContiguous | SizeMismatch

  /** Reshaping to extents of an index type with words below `word`: the new size is computed in 64
    * bits, the old one is what the view reports. */
  function Reshaped<T>(v: View<T>, shape: seq<nat>, word: nat): Result<View<T>, ViewError>
    requires v.Valid()
  {
    if !v.exhaustive then Failure(NotContiguous)
    else if Size(shape) % TWO_64 != v.Count() then Failure(SizeMismatch)
    else Success(View(v.data, shape, true, word))
  }

  method Reshape<T>(v: View<T>, shape: seq<nat>, word: nat) returns (r: Result<View<T>, ViewError>)
    requires v.Valid()
    ensures r == Reshaped(v, shape, word)
    ensures r == Failure(NotContiguous) <==> !v.exhaustive
    ensures r == Failure(SizeMismatch) <==> v.exhaustive && Size(shape) % TWO_64 != Size(v.extents) % v.word
  {
    if !v.exhaustive {
      return Failure(NotContiguous);
    }
    var newSize := 1;
    var i := 0;
    assert shape[..0] == [];
    while i < |shape|
      invariant 0 <= i <= |shape|
      invariant newSize == Size(shape[..i]) % TWO_64
    {
      assert shape[..i + 1][..i] == shape[..i];
      CutProduct(Size(shape[..i]), shape[i], TWO_64);
      newSize := newSize * shape[i] % TWO_64;
      i := i + 1;
    }
    assert shape[..|shape|] == shape;
    if newSize != v.Count() {
      return Failure(SizeMismatch);
    }
    r := Success(View(v.data, shape, true, word));
  }

  /** The shape is accepted for this view exactly when it has as many elements. */
  ghost predicate AcceptedRightly<T>(v: View<T>, shape: seq<nat>)
    requires v.Valid()
  {
    Reshaped(v, shape, TWO_64).Success? <==> Size(shape) == Size(v.extents)
  }

  /** The shape is accepted rightly for every contiguous view whose count fits its index type. */
  ghost predicate ShapeIsSound<T(!new)>(shape: seq<nat>) {
    forall v: View<T> :: v.Valid() && v.exhaustive && v.Counted() ==> AcceptedRightly(v, shape)
  }

  /** The view accepts rightly every shape whose size fits 64 bits. */
  ghost predicate ViewIsSound<T(!new)>(v: View<T>)
    requires v.Valid()
  {
    forall shape: seq<nat> :: Size(shape) < TWO_64 ==> AcceptedRightly(v, shape)
  }

  lemma FittingIsRight<T>(v: View<T>, shape: seq<nat>)
    requires v.Valid() && v.exhaustive && v.Counted() && Size(shape) < TWO_64
    ensures AcceptedRightly(v, shape)
  {
    WordProduct(Size(shape), TWO_64);
    WordProduct(Size(v.extents), v.word);
  }

  lemma ShapeSoundIff<T(!new)>(shape: seq<nat>, x: T)
    ensures ShapeIsSound<T>(shape) <==> Size(shape) < TWO_64
  {
    if Size(shape) < TWO_64 {
      forall v: View<T> | v.Valid() && v.exhaustive && v.Counted()
        ensures AcceptedRightly(v, shape)
      {
        FittingIsRight(v, shape);
      }
    } else {
      var n := Size(shape) % TWO_64;
      var v := View(seq(n, _ => x), [n], true, TWO_64);
      OneExtent([n]);
      WordProduct(n, TWO_64);
      assert v.Valid() && v.Counted() && !AcceptedRightly(v, shape);
    }
  }

  lemma ViewSoundIff<T(!new)>(v: View<T>)
    requires v.Valid() && v.exhaustive
    ensures ViewIsSound(v) <==> v.Counted()
  {
    if v.Counted() {
      forall shape: seq<nat> | Size(shape) < TWO_64
        ensures AcceptedRightly(v, shape)
      {
        FittingIsRight(v, shape);
      }
    } else {
      var n := v.Count();
      OneExtent([n]);
      WordProduct(n, TWO_64);
      assert Size([n]) < TWO_64 && !AcceptedRightly(v, [n]);
    }
  }

  /** Acceptance means equal size exactly when both counts fit: the new one 64 bits, for all views
    * that fit, and the view's own its index type, for all shapes that fit. */
  lemma ReshapeSoundIff<T(!new)>(v: View<T>, shape: seq<nat>, x: T)
    requires v.Valid() && v.exhaustive
    ensures ShapeIsSound<T>(shape) && ViewIsSound(v) <==> Size(shape) < TWO_64 && v.Counted()
    ensures Size(shape) < TWO_64 && v.Counted() ==> AcceptedRightly(v, shape)
  {
    ShapeSoundIff(shape, x);
    ViewSoundIff(v);
  }

  /** An empty view is reshaped to 2^64 elements. */
  lemma OverflowingShapeAccepted<T>(v: View<T>)
    requires v.Valid() && v.exhaustive && Size(v.extents) == 0
    ensures Reshaped(v, [TWO_32, TWO_32], TWO_64).Success? && Size([TWO_32, TWO_32]) == TWO_64
  {
    SizeOfTwo(TWO_32, TWO_32);
  }

  /** A view with 32-bit indexes and more than 2^32 elements is taken for one of 65536 elements, by
    * reshaping and by flattening. */
  lemma NarrowViewMiscounted<T>(v: View<T>)
    requires v.Valid() && v.exhaustive && v.word == TWO_32 && v.extents == [65537, 65536]
    ensures Size(v.extents) == 0x1_0001_0000
    ensures Reshaped(v, [65536], TWO_32).Success?
    ensures Reshaped(v, [0x1_0001_0000], TWO_64) == Failure(SizeMismatch)
    ensures Flattened(v).Success? && Flattened(v).value.extents == [65536]
  {
    SizeOfTwo(65537, 65536);
    OneExtent([65536]);
    OneExtent([0x1_0001_0000]);
  }

  /** Reshaping keeps every element at its row-major position, and reshaping back gives the view. */
  lemma ReshapeRoundTrip<T>(v: View<T>, shape: seq<nat>, word: nat, p: nat)
    requires v.Valid() && v.exhaustive && v.Counted() && Size(shape) == Size(v.extents)
    requires Size(shape) < word <= TWO_64 && Fit(shape, word)
    requires |v.extents| > 0 && |shape| > 0 && p < Size(shape)
    ensures Reshaped(v, shape, word).Success? && Reshaped(v, shape, word).value.Valid()
    ensures Reshaped(Reshaped(v, shape, word).value, v.extents, v.word) == Success(v)
    ensures Positive(shape) && Positive(v.extents)
    ensures InRange(Unravel(p, shape), shape) && InRange(Unravel(p, v.extents), v.extents)
    ensures Reshaped(v, shape, word).value.At(Unravel(p, shape)) == v.At(Unravel(p, v.extents))
  {
    FittingIsRight(v, shape);
    WordProduct(Size(shape), word);
    WordProduct(Size(shape), TWO_64);
    SizePositive(shape);
    SizePositive(v.extents);
    UnravelLinear(p, shape);
    UnravelLinear(p, v.extents);
    WordProduct(p, word);
    WordProduct(p, v.word);
  }

  function Flattened<T>(v: View<T>): Result<View<T>, ViewError>
    requires v.Valid()
  {
    if !v.exhaustive then Failure(NotContiguous)
    else Success(View(v.data, [v.Count()], true, v.word))
  }

  /** The flat view has all the elements exactly when their count fits the index type. */
  lemma FlattenCountIff<T>(v: View<T>)
    requires v.Valid() && v.exhaustive
    ensures Flattened(v).Success? && Flattened(v).value.Valid()
    ensures Size(Flattened(v).value.extents) == Size(v.extents) <==> v.Counted()
  {
    OneExtent([v.Count()]);
    WordProduct(Size(v.extents), v.word);
    DivMod(Size(v.extents), v.word);
  }

  /** It lists them in row-major order. */
  lemma FlattenKeepsOrder<T>(v: View<T>, c: seq<nat>)
    requires v.Valid() && v.exhaustive && v.Counted() && InRange(c, v.extents)
    ensures Flattened(v).Success? && Flattened(v).value.Valid()
    ensures InRange([Linear(c, v.extents)], Flattened(v).value.extents)
    ensures Flattened(v).value.At([Linear(c, v.extents)]) == v.At(c)
  {
    FlattenCountIff(v);
    LinearBelowSize(c, v.extents);
    OneExtent([v.Count()]);
  }

  /** Flattening loses nothing but the shape: reshaping the flat view to it gives the view back. */
  lemma FlattenThenReshape<T>(v: View<T>)
    requires v.Valid() && v.exhaustive && v.Counted()
    ensures Flattened(v).Success? && Flattened(v).value.Valid()
    ensures Reshaped(Flattened(v).value, v.extents, v.word) == Success(v)
  {
    FlattenCountIff(v);
    WordProduct(Size(v.extents), v.word);
    WordProduct(Size(v.extents), TWO_64);
  }

  /** A view with holes is neither reshaped nor flattened, whatever the sizes; a contiguous one is not
    * reshaped to another size when both sizes can be counted. */
  lemma Refusals<T>(v: View<T>, shape: seq<nat>, word: nat)
    requires v.Valid()
    ensures Reshaped(v, shape, word) == Failure(NotContiguous) <==> !v.exhaustive
    ensures Flattened(v) == Failure(NotContiguous) <==> !v.exhaustive
    ensures v.exhaustive && v.Counted() && Size(shape) < TWO_64 ==>
      (Reshaped(v, shape, word) == Failure(SizeMismatch) <==> Size(shape) != Size(v.extents))
  {
    WordProduct(Size(shape), TWO_64);
    WordProduct(Size(v.extents), v.word);
  }

  /** Every coordinate reads the element at its row-major number. */
  ghost predicate ReadsInOrder<T(!new)>(v: View<T>)
    requires v.Valid()
  {
    forall c | InRange(c, v.extents) :: ReadsOwn(v, c)
  }

  ghost predicate ReadsOwn<T(!new)>(v: View<T>, c: seq<nat>)
    requires v.Valid() && InRange(c, v.extents)
  {
    LinearBelowSize(c, v.extents);
    v.At(c) == v.data[Linear(c, v.extents)]
  }

  /** Whatever the memory holds, a view reads its elements in row-major order exactly when the number
    * of the last one is a word of its index type. */
  lemma ReadsInOrderIff<T(!new)>(v: View<T>, x: T, y: T)
    requires x != y && v.Valid()
    ensures (forall data: seq<T> | |data| == |v.data| :: ReadsInOrder(v.(data := data))) <==>
      Size(v.extents) <= v.word
  {
    if Size(v.extents) <= v.word {
      forall data: seq<T>, c | |data| == |v.data| && InRange(c, v.extents)
        ensures ReadsOwn(v.(data := data), c)
      {
        LinearBelowSize(c, v.extents);
        WordProduct(Linear(c, v.extents), v.word);
      }
    } else {
      SizePositive(v.extents);
      var c := Unravel(v.word, v.extents);
      var t := v.(data := seq(|v.data|, p => if p == v.word then y else x));
      UnravelLinear(v.word, v.extents);
      LinearBelowSize(c, v.extents);
      DivModUnique(v.word, v.word, 1, 0);
      assert !ReadsOwn(t, c);
    }
  }
}
