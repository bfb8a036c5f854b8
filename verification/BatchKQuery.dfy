/** Iterating over a ranked result in batches. A column holds the neighbours of one rank for every
  * query row; the search returns the first `n` columns of the full ranking, and the iterator keeps
  * such a prefix cached and slices its batches out of it. */
module BatchKQuery {

  function Min(a: int, b: int): int {
    if a < b then a else b
  }

  function Max(a: int, b: int): int {
    if a > b then a else b
  }

  class Query<T> {
    const ranking: seq<T>
    const batchSize: nat

    constructor (ranking: seq<T>, batchSize: nat)
      ensures this.ranking == ranking && this.batchSize == batchSize
    {
      this.ranking := ranking;
      this.batchSize := batchSize;
    }

    /** How many columns a search from `offset` asks for: twice the offset, or twice the batch if that is
      * more, unless the ranking ends before. */
    function LoadSize(offset: nat, next: nat): (n: nat)
      ensures offset < |ranking| ==> Min(offset + next, |ranking|) <= n <= |ranking|
      ensures n < |ranking| ==> n >= 2 * offset && n >= 2 * next
      ensures n <= 2 * offset || n <= 2 * next
    {
      Min(Max(offset * 2, next * 2), |ranking|)
    }

    /** The cache after moving to `offset` with a batch of `next` columns: searched again if it is too
      * short for that, unless the ranking has ended. It never shrinks. */
    function Cached(cache: seq<T>, offset: nat, next: nat): (r: seq<T>)
      ensures offset + next <= |cache| || offset >= |ranking| ==> r == cache
      ensures offset + next > |cache| && offset < |ranking| ==> r == ranking[..LoadSize(offset, next)]
      ensures cache <= ranking ==> cache <= r
    {
      if offset + next <= |cache| || offset >= |ranking| then cache else ranking[..LoadSize(offset, next)]
    }

    method LoadBatch(offset: nat, next: nat, output: seq<T>) returns (r: seq<T>)
      ensures r == if offset >= |ranking| then output else ranking[..LoadSize(offset, next)]
    {
      if offset >= |ranking| {
        return output;
      }
      r := ranking[..LoadSize(offset, next)];
    }

    method SliceBatch(input: seq<T>, offset: nat, size: nat) returns (r: seq<T>)
      requires offset <= |ranking|
      requires offset < |ranking| ==> Min(offset + size, |ranking|) <= |input|
      ensures |r| == Min(size, |ranking| - offset)
      ensures forall k :: 0 <= k < |r| ==> r[k] == input[offset + k]
      ensures input <= ranking ==> r == ranking[offset..offset + |r|]
    {
      var n := Min(size, |ranking| - offset);
      if n == 0 {
        return [];
      }
      r := input[offset..offset + n];
    }
  }

  /** The batch of at most `size` columns at `offset` of the full ranking. */
  function Batch<T>(ranking: seq<T>, offset: nat, size: nat): seq<T>
    requires offset <= |ranking|
  {
    ranking[offset..Min(offset + size, |ranking|)]
  }

  class Iterator<T> {
    const query: Query<T>
    var current: seq<T>
    var batches: seq<T>
    var offset: nat

    /** The cache is a prefix of the ranking, long enough for the current batch unless the iterator
      * is at the end; the current batch is the slice of the ranking at the offset. */
    ghost predicate Valid()
      reads this
    {
      && offset <= |query.ranking|
      && batches <= query.ranking
      && (offset < |query.ranking| ==> offset + |current| <= |batches|)
      && offset + |current| <= |query.ranking|
      && current == query.ranking[offset..offset + |current|]
    }

    constructor (query: Query<T>, offset: nat)
      requires offset <= |query.ranking|
      ensures Valid() && this.query == query && this.offset == offset
      ensures current == Batch(query.ranking, offset, query.batchSize)
      ensures batches == query.Cached([], offset, query.batchSize)
    {
      this.query := query;
      this.offset := offset;
      current := [];
      batches := [];
      new;
      batches := query.LoadBatch(offset, query.batchSize, batches);
      current := query.SliceBatch(batches, offset, query.batchSize);
    }

    constructor Copy(other: Iterator<T>)
      requires other.Valid()
      ensures Valid() && query == other.query && offset == other.offset
      ensures current == other.current && batches == other.batches
    {
      query := other.query;
      current, batches, offset := other.current, other.batches, other.offset;
    }

    /** Moves past the current batch, and makes the next one `next` columns long, or as long as the
      * ranking still allows. */
    method Advance(next: nat)
      requires Valid()
      modifies this
      ensures Valid()
      ensures offset == old(offset) + old(|current|)
      ensures current == Batch(query.ranking, offset, next)
      ensures batches == query.Cached(old(batches), offset, next)
    {
      offset := Min(offset + |current|, |query.ranking|);
      if offset + next > |batches| {
        batches := query.LoadBatch(offset, next, batches);
      }
      current := query.SliceBatch(batches, offset, next);
    }

    method Increment()
      requires Valid()
      modifies this
      ensures Valid()
      ensures offset == old(offset) + old(|current|)
      ensures current == Batch(query.ranking, offset, query.batchSize)
    {
      Advance(query.batchSize);
    }

    method PostIncrement() returns (previous: Iterator<T>)
      requires Valid()
      modifies this
      ensures Valid() && fresh(previous) && previous.Valid() && previous.query == query
      ensures previous.offset == old(offset) && previous.current == old(current)
      ensures offset == old(offset) + old(|current|)
      ensures current == Batch(query.ranking, offset, query.batchSize)
    {
      previous := new Iterator.Copy(this);
      Increment();
    }

    predicate Equals(other: Iterator<T>)
      reads this, other
    {
      query == other.query && offset == other.offset
    }
  }

  method Begin<T>(query: Query<T>) returns (it: Iterator<T>)
    ensures fresh(it) && it.Valid() && it.query == query && it.offset == 0
    ensures it.current == Batch(query.ranking, 0, query.batchSize)
  {
    it := new Iterator(query, 0);
  }

  method End<T>(query: Query<T>) returns (it: Iterator<T>)
    ensures fresh(it) && it.Valid() && it.query == query && it.offset == |query.ranking|
    ensures it.current == []
  {
    it := new Iterator(query, |query.ranking|);
  }

  /** Iterators of one query are equal exactly when they have the same part of the ranking ahead. */
  lemma EqualsIff<T>(a: Iterator<T>, b: Iterator<T>)
    requires a.Valid() && b.Valid()
    ensures a.Equals(b) <==> a.query == b.query && |a.query.ranking[a.offset..]| == |b.query.ranking[b.offset..]|
    ensures a.Equals(b) ==> a.query.ranking[a.offset..] == b.query.ranking[b.offset..]
  {
  }

  // ---------------------------------------------------------------- whole iterations

  function Concatenated<T>(batches: seq<seq<T>>): seq<T> {
    if batches == [] then [] else Concatenated(batches[..|batches| - 1]) + batches[|batches| - 1]
  }

  /** From begin to end, with a batch size chosen afresh at each step: the loop ends, no batch is
    * empty, and one after another the batches are the whole ranking. */
  method Collect<T>(query: Query<T>, sizes: nat -> nat) returns (batches: seq<seq<T>>)
    requires query.batchSize > 0 && forall i :: sizes(i) > 0
    ensures Concatenated(batches) == query.ranking
    ensures forall i :: 0 <= i < |batches| ==> batches[i] != []
  {
    batches := [];
    var it := Begin(query);
    var end := End(query);
    assert query.ranking[..0] == [];
    while !it.Equals(end)
      invariant it.Valid() && it.query == query && end.query == query && end.offset == |query.ranking|
      invariant it != end && fresh(it) && fresh(end)
      invariant it.offset < |query.ranking| ==> it.current != []
      invariant Concatenated(batches) == query.ranking[..it.offset]
      invariant forall i :: 0 <= i < |batches| ==> batches[i] != []
      decreases |query.ranking| - it.offset
    {
      assert query.ranking[..it.offset + |it.current|] == query.ranking[..it.offset] + it.current;
      assert (batches + [it.current])[..|batches|] == batches;
      batches := batches + [it.current];
      it.Advance(sizes(|batches|));
    }
    assert query.ranking[..|query.ranking|] == query.ranking;
  }

  /** Where an iterator over `size` columns is after asking for batches of these sizes. */
  function OffsetAfter(size: nat, sizes: seq<nat>): (offset: nat)
    ensures offset <= size
  {
    if sizes == [] then 0
    else
      var offset := OffsetAfter(size, sizes[..|sizes| - 1]);
      offset + Min(sizes[|sizes| - 1], size - offset)
  }

  function Sum(sizes: seq<nat>): nat {
    if sizes == [] then 0 else Sum(sizes[..|sizes| - 1]) + sizes[|sizes| - 1]
  }

  /** The end is reached exactly when the sizes asked for add up to the ranking: a batch of size
    * zero makes no progress, and iterating with batch size zero over a ranking never ends. */
  lemma {:induction false} EndReachedIff(size: nat, sizes: seq<nat>)
    ensures OffsetAfter(size, sizes) == Min(Sum(sizes), size)
    ensures OffsetAfter(size, sizes) == size <==> Sum(sizes) >= size
  {
    if sizes == [] {
    } else {
      EndReachedIff(size, sizes[..|sizes| - 1]);
    }
  }

  /** The iterator follows that walk: a run of the class with these sizes stops there. */
  method Walk<T>(query: Query<T>, sizes: seq<nat>) returns (it: Iterator<T>)
    requires sizes != [] ==> sizes[0] == query.batchSize
    ensures fresh(it) && it.Valid() && it.query == query
    ensures it.offset == OffsetAfter(|query.ranking|, sizes)
  {
    it := Begin(query);
    var i := 0;
    while i < |sizes|
      invariant 0 <= i <= |sizes| && fresh(it) && it.Valid() && it.query == query
      invariant it.offset == OffsetAfter(|query.ranking|, sizes[..i])
      invariant i < |sizes| ==> |it.current| == Min(sizes[i], |query.ranking| - it.offset)
    {
      assert sizes[..i + 1][..i] == sizes[..i];
      it.Advance(if i + 1 < |sizes| then sizes[i + 1] else query.batchSize);
      i := i + 1;
    }
    assert sizes[..|sizes|] == sizes;
  }
}
