/** Multi-dimensional index spaces of any rank: row-major and column-major numbering of the
  * coordinates, and the strides that express them. */
module IndexSpace {
  import opened Bits

  function Size(e: seq<nat>): nat {
    if e == [] then 1 else Size(e[..|e| - 1]) * e[|e| - 1]
  }

  predicate Positive(e: seq<nat>) {
    forall k :: 0 <= k < |e| ==> e[k] > 0
  }

  predicate InRange(c: seq<nat>, e: seq<nat>) {
    |c| == |e| && forall k :: 0 <= k < |c| ==> c[k] < e[k]
  }

  // ---------------------------------------------------------------- row-major order

  /** The row-major number of a coordinate. */
  function Linear(c: seq<nat>, e: seq<nat>): nat
    requires |c| == |e|
  {
    if e == [] then 0
    else Linear(c[..|c| - 1], e[..|e| - 1]) * e[|e| - 1] + c[|c| - 1]
  }

  /** The coordinate with a given row-major number, by repeated division from the last dimension;
    * whatever is left over goes into the first. */
  function Unravel(idx: nat, e: seq<nat>): (c: seq<nat>)
    requires |e| > 0 && Positive(e)
    ensures |c| == |e|
    decreases |e|
  {
    if |e| == 1 then [idx]
    else Unravel(idx / e[|e| - 1], e[..|e| - 1]) + [idx % e[|e| - 1]]
  }

  lemma OneExtent(e: seq<nat>)
    requires |e| == 1
    ensures Size(e) == e[0] && forall c: seq<nat> :: |c| == 1 ==> Linear(c, e) == c[0]
  {
    assert e[..0] == [];
  }

  /** Unravelling gives a coordinate whose number is the index; it is in range when the index is. */
  lemma {:induction false} UnravelLinear(idx: nat, e: seq<nat>)
    requires |e| > 0 && Positive(e)
    ensures Linear(Unravel(idx, e), e) == idx
    ensures InRange(Unravel(idx, e), e) <==> idx < Size(e)
    decreases |e|
  {
    var n := |e| - 1;
    if n == 0 {
      OneExtent(e);
    } else {
      var q, r := QuotRem(idx, e[n]);
      UnravelLinear(q, e[..n]);
      ExtendRange(Unravel(q, e[..n]), r, e[..n], e[n]);
      assert e[..n] + [e[n]] == e;
      RangeOfQuotient(idx, q, r, Size(e[..n]), e[n]);
    }
  }

  lemma QuotRem(x: nat, d: nat) returns (q: nat, r: nat)
    requires d > 0
    ensures q == x / d && r == x % d && x == q * d + r && r < d
  {
    q, r := x / d, x % d;
  }

  lemma RangeOfQuotient(x: nat, q: nat, r: nat, a: nat, d: nat)
    requires x == q * d + r && r < d
    ensures q < a <==> x < a * d
  {
    if q < a {
      MulLe(q + 1, a, d);
    } else {
      MulLe(a, q, d);
    }
  }

  /** One more dimension: its coordinate is in range or not, and is the last digit of the number. */
  lemma ExtendRange(c: seq<nat>, x: nat, e: seq<nat>, d: nat)
    requires |c| == |e|
    ensures InRange(c + [x], e + [d]) <==> InRange(c, e) && x < d
    ensures Linear(c + [x], e + [d]) == Linear(c, e) * d + x
    ensures LinearF(c + [x], e + [d]) == x * Size(e) + LinearF(c, e)
  {
    assert (c + [x])[..|c|] == c && (e + [d])[..|e|] == e;
    if InRange(c + [x], e + [d]) {
      assert forall k :: 0 <= k < |c| ==> c[k] == (c + [x])[k] < (e + [d])[k] == e[k];
      assert (c + [x])[|c|] < (e + [d])[|e|];
    }
  }

  lemma {:induction false} LinearBelowSize(c: seq<nat>, e: seq<nat>)
    requires InRange(c, e)
    ensures Linear(c, e) < Size(e)
  {
    if e == [] {
    } else {
      var n := |e| - 1;
      LinearBelowSize(c[..n], e[..n]);
      RangeOfQuotient(Linear(c, e), Linear(c[..n], e[..n]), c[n], Size(e[..n]), e[n]);
    }
  }

  /** Unravelling the number of a coordinate gives the coordinate back. */
  lemma {:induction false} LinearUnravel(c: seq<nat>, e: seq<nat>)
    requires |e| > 0 && InRange(c, e)
    ensures Positive(e) && Unravel(Linear(c, e), e) == c
  {
    assert forall k :: 0 <= k < |e| ==> c[k] < e[k];
    var n := |e| - 1;
    if n == 0 {
      OneExtent(e);
    } else {
      LinearUnravel(c[..n], e[..n]);
      DivModUnique(Linear(c, e), e[n], Linear(c[..n], e[..n]), c[n]);
      assert c[..n] + [c[n]] == c;
    }
  }

  // ---------------------------------------------------------------- column-major order

  function LinearF(c: seq<nat>, e: seq<nat>): nat
    requires |c| == |e|
  {
    if e == [] then 0
    else c[|c| - 1] * Size(e[..|e| - 1]) + LinearF(c[..|c| - 1], e[..|e| - 1])
  }

  lemma {:induction false} SizePositive(e: seq<nat>)
    ensures Size(e) > 0 <==> Positive(e)
  {
    if e == [] {
    } else {
      var n := |e| - 1;
      SizePositive(e[..n]);
      if Positive(e) {
        MulLe(1, Size(e[..n]), e[n]);
      } else if Positive(e[..n]) {
        assert e[n] == 0 by {
          assert forall k :: 0 <= k < n ==> e[k] == e[..n][k] > 0;
        }
      }
    }
  }

  function UnravelF(idx: nat, e: seq<nat>): (c: seq<nat>)
    requires Positive(e)
    ensures |c| == |e|
    decreases |e|
  {
    if e == [] then []
    else
      SizePositive(e[..|e| - 1]);
      UnravelF(idx % Size(e[..|e| - 1]), e[..|e| - 1]) + [idx / Size(e[..|e| - 1])]
  }

  lemma {:induction false} UnravelLinearF(idx: nat, e: seq<nat>)
    requires Positive(e) && idx < Size(e)
    ensures InRange(UnravelF(idx, e), e) && LinearF(UnravelF(idx, e), e) == idx
    decreases |e|
  {
    if e == [] {
    } else {
      var n := |e| - 1;
      SizePositive(e[..n]);
      var q, r := QuotRem(idx, Size(e[..n]));
      UnravelLinearF(r, e[..n]);
      RangeOfQuotient(idx, q, r, e[n], Size(e[..n]));
      ExtendRange(UnravelF(r, e[..n]), q, e[..n], e[n]);
      assert e[..n] + [e[n]] == e;
    }
  }

  lemma {:induction false} LinearUnravelF(c: seq<nat>, e: seq<nat>)
    requires InRange(c, e)
    ensures Positive(e) && LinearF(c, e) < Size(e) && UnravelF(LinearF(c, e), e) == c
    decreases |e|
  {
    assert forall k :: 0 <= k < |e| ==> c[k] < e[k];
    if e == [] {
    } else {
      var n := |e| - 1;
      LinearUnravelF(c[..n], e[..n]);
      LastDigitF(LinearF(c[..n], e[..n]), Size(e[..n]), c[n], e[n]);
      assert c[..n] + [c[n]] == c;
    }
  }

  lemma LastDigitF(rest: nat, p: nat, x: nat, d: nat)
    requires rest < p && x < d
    ensures (x * p + rest) / p == x && (x * p + rest) % p == rest && x * p + rest < p * d
  {
    DivModUnique(x * p + rest, p, x, rest);
    MulLe(x + 1, d, p);
  }

  // ---------------------------------------------------------------- strides

  /** The offset of a coordinate under given strides. */
  function Offset(c: seq<nat>, strides: seq<nat>): nat
    requires |c| == |strides|
  {
    if c == [] then 0 else Offset(c[..|c| - 1], strides[..|c| - 1]) + c[|c| - 1] * strides[|c| - 1]
  }

  /** The products of the extents that follow each dimension. */
  predicate SuffixProducts(strides: seq<nat>, e: seq<nat>) {
    |strides| == |e| && forall r :: 0 <= r < |e| ==> strides[r] == Size(e[r + 1..])
  }

  /** The products of the extents that precede each dimension. */
  predicate PrefixProducts(strides: seq<nat>, e: seq<nat>) {
    |strides| == |e| && forall r :: 0 <= r < |e| ==> strides[r] == Size(e[..r])
  }

  lemma {:induction false} PrefixOffset(c: seq<nat>, strides: seq<nat>, e: seq<nat>)
    requires |c| == |e| && PrefixProducts(strides, e)
    ensures Offset(c, strides) == LinearF(c, e)
  {
    if e == [] {
    } else {
      var n := |e| - 1;
      forall r | 0 <= r < n
        ensures strides[..n][r] == Size(e[..n][..r])
      {
        assert e[..n][..r] == e[..r];
      }
      PrefixOffset(c[..n], strides[..n], e[..n]);
    }
  }

  /** Offsets under strides that share a factor. */
  lemma {:induction false} OffsetScales(c: seq<nat>, strides: seq<nat>, scaled: seq<nat>, d: nat)
    requires |c| == |strides| == |scaled| && forall r :: 0 <= r < |c| ==> scaled[r] == strides[r] * d
    ensures Offset(c, scaled) == Offset(c, strides) * d
  {
    if c == [] {
    } else {
      var n := |c| - 1;
      OffsetScales(c[..n], strides[..n], scaled[..n], d);
      Factor(Offset(c[..n], strides[..n]), c[n], strides[n], d);
    }
  }

  lemma Factor(a: nat, b: nat, s: nat, d: nat)
    ensures a * d + b * (s * d) == (a + b * s) * d
  {
  }

  lemma SizeOfSuffix(e: seq<nat>, r: nat)
    requires r < |e|
    ensures Size(e[r..]) == Size(e[r..|e| - 1]) * e[|e| - 1]
  {
    assert e[r..][..|e[r..]| - 1] == e[r..|e| - 1];
  }

  function Suffixes(e: seq<nat>): seq<nat> {
    seq(|e|, r requires 0 <= r < |e| => Size(e[r + 1..]))
  }

  lemma LastExtentScales(strides: seq<nat>, e: seq<nat>)
    requires SuffixProducts(strides, e) && |e| > 0
    ensures strides[|e| - 1] == 1
    ensures forall r :: 0 <= r < |e| - 1 ==> strides[r] == Suffixes(e[..|e| - 1])[r] * e[|e| - 1]
  {
    var n := |e| - 1;
    assert e[n + 1..] == [];
    forall r | 0 <= r < n
      ensures strides[r] == Suffixes(e[..n])[r] * e[n]
    {
      SizeOfSuffix(e, r + 1);
      assert e[..n][r + 1..] == e[r + 1..n];
    }
  }

  lemma {:induction false} SuffixOffset(c: seq<nat>, strides: seq<nat>, e: seq<nat>)
    requires |c| == |e| && SuffixProducts(strides, e)
    ensures Offset(c, strides) == Linear(c, e)
  {
    if e == [] {
    } else {
      var n := |e| - 1;
      LastExtentScales(strides, e);
      SuffixOffset(c[..n], Suffixes(e[..n]), e[..n]);
      OffsetScales(c[..n], Suffixes(e[..n]), strides[..n], e[n]);
    }
  }
}
