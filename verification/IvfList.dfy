/** The inverted list and its resize: an allocation, or a compare-and-swap in place. */
module IvfList {
  import opened Bits
  import opened Wrappers
  import opened IvfCapacity

  /** The marker in index slots that no record has filled. */
  const INVALID_RECORD: int := -1

  /** `CopyOverrun`: the copy would run past a buffer, which has no defined result. */
  datatype ListError = RoundUpOverflow | AllocationFailed | CopyOverrun

  /** `size` is shared by all indexes that hold the list. */
  class List<V(0)> {
    var size: nat
    const data: array<V>
    const indices: array<int>

    constructor (size: nat, capacity: nat, dataSize: nat)
      ensures this.size == size && fresh(data) && fresh(indices) && data as object != indices as object
      ensures data.Length == dataSize && indices.Length == capacity
      ensures indices[..] == seq(capacity, _ => INVALID_RECORD)
    {
      this.size := size;
      data := new V[dataSize];
      indices := new int[capacity](_ => INVALID_RECORD);
    }

    predicate Valid(spec: Spec)
      requires spec.Valid()
    {
      && data.Length == spec.BufferSize(indices.Length) && indices.Length % GROUP == 0
      && data as object != indices as object
    }

    /** The atomic `compare_exchange_strong` on the size. */
    method CompareExchange(expected: nat, desired: nat) returns (won: bool)
      modifies this`size
      ensures won == (old(size) == expected)
      ensures size == if won then desired else old(size)
    {
      won := size == expected;
      if won { size := desired; }
    }
  }

  /** The list constructor; `granted` tells whether the allocator has the memory. */
  method MakeList<V(0)>(spec: Spec, nRows: nat, granted: bool) returns (r: Result<List<V>, ListError>)
    requires spec.Valid() && nRows < TWO_32
    ensures r.Failure? <==> RoundUp(nRows, spec.AlignMax()) >= TWO_32 || !granted
    ensures r.Failure? ==>
      r.error == if RoundUp(nRows, spec.AlignMax()) >= TWO_32 then RoundUpOverflow else AllocationFailed
    ensures r.Success? ==>
      && fresh(r.value) && fresh(r.value.data) && fresh(r.value.indices)
      && r.value.Valid(spec) && r.value.size == nRows <= r.value.indices.Length
      && r.value.indices.Length == Capacity(nRows, spec.AlignMax())
      && IsCapacity(r.value.indices.Length, nRows, if spec.conservative then 32 else 1024)
      && forall k :: 0 <= k < r.value.indices.Length ==> r.value.indices[k] == -1
  {
    var capacity := ChosenCapacity(nRows, spec.AlignMax());
    CapacityIs(nRows, spec.AlignMax());
    if capacity.None? {
      return Failure(RoundUpOverflow);
    }
    if !granted {
      return Failure(AllocationFailed);
    }
    CapacityIsWholeGroups(nRows, spec.AlignMax());
    var l := new List<V>(nRows, capacity.value, spec.BufferSize(capacity.value));
    assert forall k :: 0 <= k < l.indices.Length ==> l.indices[..][k] == INVALID_RECORD;
    r := Success(l);
  }

  method CopyPrefix<T>(from: array<T>, to: array<T>, n: nat)
    requires n <= from.Length && n <= to.Length && from != to
    modifies to
    ensures to[..n] == from[..n] && to[n..] == old(to[n..])
  {
    var k := 0;
    while k < n
      invariant 0 <= k <= n
      invariant to[..k] == from[..k] && to[k..] == old(to[k..])
    {
      to[k] := from[k];
      k := k + 1;
    }
  }

  /** The prefix that the old size stands for fits both lists. */
  predicate CopyFits<V(0)>(from: List<V>, to: List<V>, spec: Spec, used: nat)
    requires spec.Valid()
  {
    && spec.BufferSize(used) <= from.data.Length && spec.BufferSize(used) <= to.data.Length
    && used <= from.indices.Length && used <= to.indices.Length
  }

  /** That prefix of the data, and the indices of `used` records, are as in the original. */
  ghost predicate IsCopy<V(0)>(from: List<V>, to: List<V>, spec: Spec, used: nat)
    requires spec.Valid()
    reads from.data, from.indices, to.data, to.indices
  {
    && CopyFits(from, to, spec, used)
    && to.data[..spec.BufferSize(used)] == from.data[..spec.BufferSize(used)]
    && to.indices[..used] == from.indices[..used]
  }

  /** Every index slot from `used` on holds the marker. */
  ghost predicate MarkedFrom<V(0)>(l: List<V>, used: nat)
    reads l.indices
  {
    forall k :: used <= k < l.indices.Length ==> l.indices[k] == INVALID_RECORD
  }

  method CopyRecords<V(0)>(from: List<V>, to: List<V>, spec: Spec, used: nat)
    requires spec.Valid() && from.Valid(spec) && to.Valid(spec) && CopyFits(from, to, spec, used)
    requires {from.data as object, from.indices as object} !! {to.data as object, to.indices as object}
    requires MarkedFrom(to, 0)
    modifies to.data, to.indices
    ensures IsCopy(from, to, spec, used) && MarkedFrom(to, used)
  {
    CopyPrefix(from.data, to.data, spec.BufferSize(used));
    ghost var marked := to.indices[used..];
    CopyPrefix(from.indices, to.indices, used);
    forall k | used <= k < to.indices.Length
      ensures to.indices[k] == INVALID_RECORD
    {
      assert to.indices[k] == to.indices[used..][k - used] == marked[k - used];
    }
  }

  /** The copy into a list made for `newUsed` rows would run past the old buffer or the new one. */
  predicate Overruns(spec: Spec, oldLength: nat, newUsed: nat, oldUsed: nat)
    requires spec.Valid()
  {
    || spec.BufferSize(oldUsed) > oldLength
    || spec.BufferSize(oldUsed) > spec.BufferSize(Capacity(newUsed, spec.AlignMax()))
  }

  /** The list afterwards: the same one, resized in place, or a new one that starts with a copy of
    * what the caller says it uses. The old list's contents are never touched. */
  method ResizeList<V(0)>(orig: List?<V>, spec: Spec, newUsed: nat, oldUsed: nat, granted: bool)
      returns (r: Result<List<V>, ListError>)
    requires spec.Valid() && newUsed < TWO_32
    requires orig != null ==> orig.Valid(spec) && oldUsed <= orig.indices.Length
    modifies if orig != null then {orig} else {}
    ensures orig != null ==>
      (r == Success(orig) <==> newUsed <= orig.indices.Length && (newUsed <= oldUsed || old(orig.size) == oldUsed))
    ensures orig != null ==>
      orig.size == if oldUsed < newUsed <= orig.indices.Length && old(orig.size) == oldUsed then newUsed
                   else old(orig.size)
    ensures orig != null && StaysInPlace(old(orig.size), orig.indices.Length, newUsed, oldUsed) ==>
      r == Success(orig) && orig.size == SizeInPlace(old(orig.size), newUsed, oldUsed)
    ensures orig != null && !StaysInPlace(old(orig.size), orig.indices.Length, newUsed, oldUsed) ==>
      && orig.size == old(orig.size)
      && (r.Success? ==> IsCopy(orig, r.value, spec, oldUsed) && MarkedFrom(r.value, oldUsed))
    ensures orig == null && r.Success? ==> MarkedFrom(r.value, 0)
    ensures orig == null || !StaysInPlace(old(orig.size), orig.indices.Length, newUsed, oldUsed) ==>
      && (r.Failure? <==> RoundUp(newUsed, spec.AlignMax()) >= TWO_32 || !granted
                          || (orig != null && Overruns(spec, orig.data.Length, newUsed, oldUsed)))
      && (r.Success? ==>
            && fresh(r.value) && fresh(r.value.data) && fresh(r.value.indices)
            && r.value.Valid(spec) && r.value.size == newUsed <= r.value.indices.Length
            && r.value.indices.Length == Capacity(newUsed, spec.AlignMax()))
  {
    var used := oldUsed;
    if orig != null {
      if newUsed <= orig.indices.Length {
        var won := newUsed <= oldUsed;
        if !won {
          won := orig.CompareExchange(oldUsed, newUsed);
        }
        if won {
          return Success(orig);
        }
      }
    } else {
      used := 0;
    }
    r := MakeList(spec, newUsed, granted);
    if r.Success? && orig != null {
      if spec.BufferSize(used) > orig.data.Length || spec.BufferSize(used) > r.value.data.Length {
        return Failure(CopyOverrun);
      }
      CopyRecords(orig, r.value, spec, used);
    }
  }
}
