/** What a reallocating resize keeps. The copy is a prefix of the old data, sized by the list
  * extents of the old size; whether it reaches every element of every old record depends on how
  * the records are interleaved. */
module IvfCoverage {
  import opened Bits
  import opened IvfCapacity
  import opened Codepacker
  import opened IvfList

  /** The chunk length `v` suits the specification. A quantised list is the same interleaving with
    * chunks of 16 bytes. */
  predicate Suits(spec: Spec, v: nat) {
    spec.Valid() && v > 0 && spec.RecordSize() % v == 0 && (spec.Pq? ==> v == PQ_CHUNK)
  }

  /** The byte of a quantised list at the given subscripts of its four extents. */
  function PqSpot(group: nat, chunk: nat, ingroup: nat, byte: nat, chunks: nat): nat {
    ((group * chunks + chunk) * GROUP + ingroup) * PQ_CHUNK + byte
  }

  lemma PqSpotIsSpot(i: nat, chunk: nat, byte: nat, chunks: nat)
    requires chunk < chunks && byte < PQ_CHUNK
    ensures PqSpot(i / GROUP, chunk, i % GROUP, byte, chunks)
         == Spot(i, chunk * PQ_CHUNK + byte, chunks * PQ_CHUNK, PQ_CHUNK)
  {
    SpotOfDigits(i / GROUP, chunks, chunk, i % GROUP, PQ_CHUNK, byte);
    DivMod(i, GROUP);
  }

  /** The prefix of the extents' product reaches every element of every record below the old size. */
  ghost predicate PrefixCovers(spec: Spec, v: nat, used: nat)
    requires Suits(spec, v)
  {
    forall k, c | 0 <= k < used && 0 <= c < spec.RecordSize() ::
      Spot(k, c, spec.RecordSize(), v) < spec.DataSize(used)
  }

  lemma WholeGroupsCover(spec: Spec, v: nat, used: nat)
    requires Suits(spec, v) && (spec.Pq? || used % GROUP == 0)
    ensures PrefixCovers(spec, v, used)
  {
    var size := spec.RecordSize();
    DataSizeIs(spec, used);
    RoundUpIsMultiple(used, GROUP);
    forall k, c | 0 <= k < used && 0 <= c < size
      ensures Spot(k, c, size, v) < spec.DataSize(used)
    {
      SpotInCapacity(k, c, size, v, RoundUp(used, GROUP));
    }
  }

  /** Records of a single chunk lie one after another. */
  lemma SingleChunkCovers(spec: Spec, v: nat, used: nat)
    requires Suits(spec, v) && spec.Flat? && spec.dim <= v
    ensures PrefixCovers(spec, v, used)
  {
    forall k, c | 0 <= k < used && 0 <= c < spec.dim
      ensures Spot(k, c, spec.dim, v) < spec.DataSize(used)
    {
      OnlyMultiple(spec.dim, v);
      SingleChunkSpot(k, c, v);
      RowsBelow(k, c, v, used);
    }
  }

  lemma OnlyMultiple(x: nat, v: nat)
    requires v > 0 && 0 < x <= v && x % v == 0
    ensures x == v
  {
    if x < v {
      DivModUnique(x, v, 0, x);
    }
  }

  lemma RowsBelow(k: nat, c: nat, v: nat, n: nat)
    requires k < n && c < v
    ensures k * v + c < n * v
  {
    MulLe(k + 1, n, v);
  }

  lemma SingleChunkSpot(k: nat, c: nat, v: nat)
    requires c < v
    ensures Spot(k, c, v, v) == k * v + c
  {
    DivMod(k, GROUP);
    SpotOfDigits(k / GROUP, 1, 0, k % GROUP, v, c);
  }

  /** The last component of the last record of a started group lies past the prefix. */
  lemma LastSpotIsMissed(used: nat, m: nat, v: nat)
    requires used % GROUP != 0 && m > 1 && v > 0
    ensures Spot(used - 1, m * v - 1, m * v, v) >= used * (m * v)
  {
    var g, r := used / GROUP, used % GROUP;
    DivMod(used, GROUP);
    SpotOfDigits(g, m, m - 1, r - 1, v, v - 1);
    assert (m - 1) * v + (v - 1) == m * v - 1;
    LastSpotBound(g, r, m, v);
  }

  lemma LastSpotBound(g: nat, r: nat, m: nat, v: nat)
    requires 0 < r < GROUP && m > 1 && v > 0
    ensures ((g * m + (m - 1)) * GROUP + (r - 1)) * v + (v - 1) >= (g * GROUP + r) * (m * v)
  {
    var left, right := (g * m + (m - 1)) * GROUP + (r - 1) + 1, (g * GROUP + r) * m;
    assert left - right == (m - 1) * (GROUP - r);
    MulLe(1, m - 1, GROUP - r);
    MulLe(right + 1, left, v);
    assert (right + 1) * v == (g * GROUP + r) * (m * v) + v;
  }

  lemma CoversIff(spec: Spec, v: nat, used: nat)
    requires Suits(spec, v)
    ensures PrefixCovers(spec, v, used) <==> spec.Pq? || used % GROUP == 0 || spec.dim <= v
  {
    if spec.Pq? || used % GROUP == 0 {
      WholeGroupsCover(spec, v, used);
    } else if spec.dim <= v {
      SingleChunkCovers(spec, v, used);
    } else {
      Missed(spec, v, used);
    }
  }

  lemma Missed(spec: Spec, v: nat, used: nat)
    requires Suits(spec, v) && spec.Flat? && used % GROUP != 0 && spec.dim > v
    ensures Spot(used - 1, spec.dim - 1, spec.dim, v) >= spec.DataSize(used)
  {
    WholeChunks(spec.dim, v);
    LastSpotIsMissed(used, spec.dim / v, v);
  }

  // ---------------------------------------------------------------- sizes that wrap

  /** Every element of every record below the capacity can be subscripted in the buffer. */
  ghost predicate BufferHasRoom(spec: Spec, v: nat, capacity: nat)
    requires Suits(spec, v)
  {
    forall k :: 0 <= k < capacity ==> HasRoom(spec.BufferSize(capacity), k, spec.RecordSize(), v)
  }

  lemma WholeGroupsSize(spec: Spec, capacity: nat)
    requires spec.Valid() && capacity % GROUP == 0
    ensures spec.DataSize(capacity) == capacity * spec.RecordSize()
  {
    DataSizeIs(spec, capacity);
  }

  lemma WordSize(spec: Spec, n: nat)
    requires spec.Valid()
    ensures spec.DataSize(n) < TWO_32 ==> spec.BufferSize(n) == spec.DataSize(n)
  {
  }

  /** A new list has room for its capacity exactly when its elements can be counted in 32 bits. */
  lemma BufferHasRoomIff(spec: Spec, v: nat, capacity: nat)
    requires Suits(spec, v) && capacity % GROUP == 0
    ensures BufferHasRoom(spec, v, capacity) <==> spec.DataSize(capacity) < TWO_32
  {
    WholeGroupsSize(spec, capacity);
    if spec.DataSize(capacity) < TWO_32 {
      WordSize(spec, capacity);
      forall k | 0 <= k < capacity
        ensures HasRoom(spec.BufferSize(capacity), k, spec.RecordSize(), v)
      {
        HoldsHasRoom(spec.BufferSize(capacity), spec.RecordSize(), v, capacity, k);
      }
    } else {
      NoRoom(spec.RecordSize(), v, capacity, spec.BufferSize(capacity));
    }
  }

  /** The element at spot `length` has no place in a buffer of that length. */
  lemma NoRoom(size: nat, v: nat, capacity: nat, length: nat)
    requires v > 0 && size % v == 0 && capacity % GROUP == 0
    requires length < TWO_32 <= capacity * size
    ensures exists k :: 0 <= k < capacity && !HasRoom(length, k, size, v)
  {
    assert size > 0;
    var k, c := Occupant(length, size, v, capacity);
    WordProductOf(length);
    assert Position(k, c, size, v) == length;
    assert !HasRoom(length, k, size, v);
  }

  lemma WordProductOf(x: nat)
    requires x < TWO_32
    ensures x % TWO_32 == x
  {
  }

  /** A list of 2^22 vectors of 1024 elements is given no buffer at all; one for one vector more has
    * a buffer too small for half of them, so that a copy of those overruns it. */
  lemma WrappedListInput()
    ensures var spec := Flat(1024, false);
      && Capacity(0x40_0000, spec.AlignMax()) == 0x40_0000
      && spec.DataSize(0x40_0000) == TWO_32 && spec.BufferSize(0x40_0000) == 0
      && Capacity(0x40_0001, spec.AlignMax()) == 0x40_0400 && spec.BufferSize(0x40_0400) == 0x10_0000
      && spec.BufferSize(0x20_0000) == 0x8000_0000
      && Overruns(spec, 0x8000_0000, 0x40_0001, 0x20_0000)
  {
  }

  /** A resize is refused for its copy exactly when some copied element lies outside the old buffer or
    * the new one. */
  lemma OverrunsIff(spec: Spec, oldLength: nat, newUsed: nat, oldUsed: nat)
    requires spec.Valid()
    ensures Overruns(spec, oldLength, newUsed, oldUsed) <==>
      var copied, length := spec.BufferSize(oldUsed), spec.BufferSize(Capacity(newUsed, spec.AlignMax()));
      exists p :: 0 <= p < copied && !Inside(p, oldLength, length)
  {
    var copied, length := spec.BufferSize(oldUsed), spec.BufferSize(Capacity(newUsed, spec.AlignMax()));
    if copied > 0 {
      assert Inside(copied - 1, oldLength, length) <==> copied <= oldLength && copied <= length;
    }
  }

  predicate Inside(p: nat, oldLength: nat, newLength: nat) {
    p < oldLength && p < newLength
  }

  /** Lists that can be counted in 32 bits are never refused for it. */
  lemma CountedListsAreCopied(spec: Spec, oldCapacity: nat, newUsed: nat, oldUsed: nat)
    requires spec.Valid() && oldUsed <= oldCapacity && oldUsed <= newUsed
    requires spec.DataSize(oldCapacity) < TWO_32 && spec.DataSize(Capacity(newUsed, spec.AlignMax())) < TWO_32
    ensures !Overruns(spec, spec.BufferSize(oldCapacity), newUsed, oldUsed)
  {
    CapacityFits(newUsed, spec.AlignMax());
    DataSizeMonotone(spec, oldUsed, oldCapacity);
    DataSizeMonotone(spec, oldUsed, Capacity(newUsed, spec.AlignMax()));
    WordSize(spec, oldUsed);
    WordSize(spec, oldCapacity);
    WordSize(spec, Capacity(newUsed, spec.AlignMax()));
  }

  // ---------------------------------------------------------------- decoded records

  ghost predicate SameRecord<V(!new)>(a: seq<V>, b: seq<V>, size: nat, v: nat, k: nat)
    requires v > 0
  {
    HasRoom(|a|, k, size, v) && HasRoom(|b|, k, size, v) && Unpacked(a, size, v, k) == Unpacked(b, size, v, k)
  }

  /** Two buffers for these capacities agree on the copied prefix. */
  ghost predicate Agree<V(!new)>(a: seq<V>, b: seq<V>, spec: Spec, used: nat, before: nat, after: nat)
    requires spec.Valid()
  {
    && |a| == spec.BufferSize(before) && |b| == spec.BufferSize(after)
    && forall p :: 0 <= p < spec.BufferSize(used) && p < |a| && p < |b| ==> a[p] == b[p]
  }

  /** Whatever the old list holds, the copy has the same records below the old size. */
  ghost predicate CopyKeepsRecords<V(!new)>(spec: Spec, v: nat, used: nat, before: nat, after: nat)
    requires Suits(spec, v)
  {
    forall a: seq<V>, b: seq<V>, k ::
      0 <= k < used && Agree(a, b, spec, used, before, after) ==>
        SameRecord(a, b, spec.RecordSize(), v, k)
  }

  /** A reallocation from one capacity to another is sound: the copy stays inside both buffers, keeps
    * the records below the old size, and the new list has room for its capacity. */
  ghost predicate ReallocationSound<V(!new)>(spec: Spec, v: nat, used: nat, before: nat, after: nat)
    requires Suits(spec, v)
  {
    && spec.BufferSize(used) <= spec.BufferSize(before) && spec.BufferSize(used) <= spec.BufferSize(after)
    && CopyKeepsRecords<V>(spec, v, used, before, after)
    && BufferHasRoom(spec, v, after)
  }

  /** A covered record has the same place in both buffers. */
  lemma CoveredIsSame<V(!new)>(a: seq<V>, b: seq<V>, spec: Spec, v: nat, used: nat, k: nat)
    requires Suits(spec, v) && k < used && PrefixCovers(spec, v, used) && spec.DataSize(used) < TWO_32
    requires spec.DataSize(used) <= |a| && spec.DataSize(used) <= |b|
    requires forall p :: 0 <= p < spec.DataSize(used) ==> a[p] == b[p]
    ensures SameRecord(a, b, spec.RecordSize(), v, k)
  {
    var size := spec.RecordSize();
    forall c | 0 <= c < size
      ensures Position(k, c, size, v) < spec.DataSize(used)
    {
      WordProductOf(Spot(k, c, size, v));
    }
  }

  lemma CoveredIsKept<V(!new)>(spec: Spec, v: nat, used: nat, before: nat, after: nat)
    requires Suits(spec, v) && PrefixCovers(spec, v, used) && spec.DataSize(used) < TWO_32
    requires spec.DataSize(used) <= spec.BufferSize(before) && spec.DataSize(used) <= spec.BufferSize(after)
    ensures CopyKeepsRecords<V>(spec, v, used, before, after)
  {
    WordSize(spec, used);
    forall a: seq<V>, b: seq<V>, k | 0 <= k < used && Agree(a, b, spec, used, before, after)
      ensures SameRecord(a, b, spec.RecordSize(), v, k)
    {
      CoveredIsSame(a, b, spec, v, used, k);
    }
  }

  lemma MissedIsLost<V(!new)>(spec: Spec, v: nat, used: nat, before: nat, after: nat, x: V, y: V)
    requires x != y && Suits(spec, v) && used <= after && after % GROUP == 0
    requires spec.DataSize(after) < TWO_32
    requires spec.Flat? && used % GROUP != 0 && spec.dim > v
    ensures !CopyKeepsRecords<V>(spec, v, used, before, after)
  {
    var size, data := spec.dim, spec.BufferSize(used);
    var a, b := Copies(spec.BufferSize(before), spec.BufferSize(after), data, x, y);
    DataSizeMonotone(spec, used, after);
    WordSize(spec, used);
    WholeGroupsSize(spec, after);
    Missed(spec, v, used);
    PositionIsSpot(used - 1, size - 1, size, v, after);
    MissedDiffers(a, b, size, v, used - 1, size - 1, data, x, y);
    assert Agree(a, b, spec, used, before, after);
    assert !SameRecord(a, b, size, v, used - 1);
  }

  /** Two buffers that agree on the first `data` elements only. */
  lemma Copies<V>(n: nat, m: nat, data: nat, x: V, y: V) returns (a: seq<V>, b: seq<V>)
    ensures |a| == n && |b| == m
    ensures forall p :: 0 <= p < n ==> a[p] == x
    ensures forall p :: 0 <= p < m ==> b[p] == if p < data then x else y
  {
    a := seq(n, p => x);
    b := seq(m, p => if p < data then x else y);
  }

  lemma MissedDiffers<V(!new)>(a: seq<V>, b: seq<V>, size: nat, v: nat, k: nat, c: nat, data: nat, x: V, y: V)
    requires x != y && v > 0 && c < size && Position(k, c, size, v) >= data
    requires forall p :: 0 <= p < |a| ==> a[p] == x
    requires forall p :: 0 <= p < |b| && p >= data ==> b[p] == y
    ensures !SameRecord(a, b, size, v, k)
  {
    if HasRoom(|a|, k, size, v) && HasRoom(|b|, k, size, v) {
      assert Unpacked(a, size, v, k)[c] == x && Unpacked(b, size, v, k)[c] == y;
    }
  }

  /** A reallocation is sound exactly when the new list's elements can be counted in 32 bits, the old
    * buffer reaches the old size, and the list is quantised, the old size is a whole number of groups,
    * or a record is a single chunk. */
  lemma ReallocationSoundIff<V(!new)>(spec: Spec, v: nat, used: nat, before: nat, after: nat, x: V, y: V)
    requires x != y && Suits(spec, v) && used <= before && used <= after && after % GROUP == 0
    ensures ReallocationSound<V>(spec, v, used, before, after) <==>
      && spec.DataSize(after) < TWO_32
      && spec.DataSize(used) <= spec.BufferSize(before)
      && (spec.Pq? || used % GROUP == 0 || spec.dim <= v)
  {
    BufferHasRoomIff(spec, v, after);
    if spec.DataSize(after) < TWO_32 {
      DataSizeMonotone(spec, used, after);
      WordSize(spec, used);
      WordSize(spec, after);
      CoversIff(spec, v, used);
      if spec.Pq? || used % GROUP == 0 || spec.dim <= v {
        if spec.DataSize(used) <= spec.BufferSize(before) {
          CoveredIsKept<V>(spec, v, used, before, after);
        }
      } else {
        MissedIsLost(spec, v, used, before, after, x, y);
      }
    }
  }

  /** When the old list can be counted in 32 bits too, its buffer does reach the old size. */
  lemma CountedListReaches(spec: Spec, used: nat, before: nat)
    requires spec.Valid() && used <= before && spec.DataSize(before) < TWO_32
    ensures spec.DataSize(used) <= spec.BufferSize(before)
  {
    DataSizeMonotone(spec, used, before);
    WordSize(spec, before);
  }

  /** What the reallocating resize returns holds every record and index below the old size, under
    * those conditions. */
  lemma CopiedListKeepsRecords<V(0, !new)>(from: List<V>, to: List<V>, spec: Spec, v: nat, used: nat, k: nat)
    requires Suits(spec, v) && from.Valid(spec) && to.Valid(spec) && IsCopy(from, to, spec, used)
    requires spec.Pq? || used % GROUP == 0 || spec.dim <= v
    requires spec.DataSize(to.indices.Length) < TWO_32 && k < used
    ensures SameRecord(from.data[..], to.data[..], spec.RecordSize(), v, k)
    ensures from.indices[k] == to.indices[k]
  {
    var a, b := from.data[..], to.data[..];
    DataSizeMonotone(spec, used, to.indices.Length);
    WordSize(spec, used);
    CoversIff(spec, v, used);
    forall p | 0 <= p < spec.DataSize(used)
      ensures a[p] == b[p]
    {
      assert a[p] == from.data[..spec.DataSize(used)][p] == to.data[..spec.DataSize(used)][p];
    }
    CoveredIsSame(a, b, spec, v, used, k);
    assert from.indices[k] == from.indices[..used][k] == to.indices[..used][k];
  }
}
