/** Counting by bijection. */
module Counting {

  predicate InRange(i: int, n: nat) {
    0 <= i < n
  }

  /** The naturals below `n`. */
  function Below(n: nat): set<int> {
    set i: int | 0 <= i < n && InRange(i, n)
  }

  lemma {:induction false} BelowSize(n: nat)
    ensures |Below(n)| == n
  {
    if n == 0 {
      assert Below(n) == {};
    } else {
      assert Below(n) == Below(n - 1) + {n - 1} by {
        forall i | i in Below(n)
          ensures i in Below(n - 1) + {n - 1}
        {
          assert i == n - 1 || InRange(i, n - 1);
        }
      }
      BelowSize(n - 1);
    }
  }

  ghost predicate Injective<S, T>(f: S -> T, s: set<S>) {
    forall i, j :: i in s && j in s && f(i) == f(j) ==> i == j
  }

  /** An injective image is as large as its source. */
  lemma {:induction false} ImageSize<S, T>(f: S -> T, s: set<S>, t: set<T>)
    requires Injective(f, s)
    requires forall i :: i in s ==> f(i) in t
    requires forall y :: y in t ==> exists i :: i in s && f(i) == y
    ensures |t| == |s|
    decreases |s|
  {
    if i :| i in s {
      ImageSize(f, s - {i}, t - {f(i)});
    } else {
      assert s == {} && t == {};
    }
  }

  /** A set that `f` and `g` put in bijection with the naturals below `n` has `n` members. */
  lemma BijectionSize<T>(f: int -> T, g: T -> int, n: nat, t: set<T>)
    requires forall i :: i in Below(n) ==> f(i) in t && g(f(i)) == i
    requires forall y :: y in t ==> g(y) in Below(n) && f(g(y)) == y
    ensures |t| == n
  {
    BelowSize(n);
    ImageSize(f, Below(n), t);
  }

  lemma SubsetSize<T>(a: set<T>, b: set<T>)
    requires a <= b && |a| == |b|
    ensures a == b
  {
    assert |b - a| == |b| - |a|;
    assert b == a + (b - a);
  }

  /** Pigeonhole: a set's injection into itself reaches every member. */
  lemma InjectionIsOnto<S>(f: S -> S, s: set<S>, y: S)
    requires forall i :: i in s ==> f(i) in s
    requires Injective(f, s)
    requires y in s
    ensures exists i :: i in s && f(i) == y
  {
    var image := set i | i in s :: f(i);
    ImageSize(f, s, image);
    SubsetSize(image, s);
    assert y in image;
  }

  /** The members of `s` on which `f` takes the value `v`. */
  ghost function Fibre<S, T>(f: S -> T, s: set<S>, v: T): set<S> {
    set i | i in s && f(i) == v
  }

  /** The members of `s` on which `f` takes a value in `values`. */
  ghost function Meeting<S, T>(f: S -> T, s: set<S>, values: set<T>): set<S> {
    set i | i in s && f(i) in values
  }

  lemma InMeeting<S, T>(f: S -> T, s: set<S>, values: set<T>, i: S)
    ensures i in Meeting(f, s, values) <==> i in s && f(i) in values
  {
  }

  /** When every value of `values` is taken exactly `n` times on `s`, together they are taken
    * `|values| * n` times. */
  lemma {:induction false} FibreCount<S, T>(f: S -> T, s: set<S>, values: set<T>, n: nat)
    requires forall v :: v in values ==> |Fibre(f, s, v)| == n
    ensures |Meeting(f, s, values)| == |values| * n
    decreases |values|
  {
    if v :| v in values {
      var rest := values - {v};
      FibreCount(f, s, rest, n);
      assert Meeting(f, s, values) == Fibre(f, s, v) + Meeting(f, s, rest);
      assert Fibre(f, s, v) !! Meeting(f, s, rest);
      assert |values| == |rest| + 1;
      assert |values| * n == |rest| * n + n;
    } else {
      assert values == {} && Meeting(f, s, values) == {};
    }
  }

  ghost function Compose<R, S, T>(f: S -> T, g: R -> S): R -> T {
    i => f(g(i))
  }

  /** Composing with a permutation `step` of `s` does not change how often `f` meets `values`. */
  lemma PermutedCount<S, T>(f: S -> T, step: S -> S, s: set<S>, values: set<T>, n: nat)
    requires forall v :: v in values ==> |Fibre(f, s, v)| == n
    requires Injective(step, s)
    requires forall i :: i in s ==> step(i) in s
    ensures |Meeting(Compose(f, step), s, values)| == |values| * n
  {
    var before, after := Meeting(Compose(f, step), s, values), Meeting(f, s, values);
    FibreCount(f, s, values, n);
    forall y | y in after
      ensures exists i :: i in before && step(i) == y
    {
      InjectionIsOnto(step, s, y);
    }
    ImageSize(step, before, after);
  }
}
