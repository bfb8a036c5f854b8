/** Interleaved records of an IVF-flat list. Records sit in groups of 32; within a group, chunks of
  * `veclen` consecutive components of successive records lie next to each other. */
module Codepacker {
  import opened Bits
  import opened IvfCapacity

  /** The chunk length for elements of `size` bytes. */
  function VecLen(size: nat, dim: nat): (v: nat)
    requires size > 0
    ensures v > 0 && dim % v == 0
    ensures v > 1 ==> v * size <= 16
  {
    var v := if 16 / size > 1 then 16 / size else 1;
    if dim % v != 0 then 1 else v
  }

  /** With `w` the most elements that 16 bytes hold, chunks are `w` long if that divides the dimension,
    * and of single elements otherwise, or if 16 bytes hold none. */
  lemma VecLenIs(size: nat, dim: nat, w: nat)
    requires size > 0 && w * size <= 16 < (w + 1) * size
    ensures VecLen(size, dim) == if w > 0 && dim % w == 0 then w else 1
  {
    DivModUnique(16, size, w, 16 - w * size);
  }

  /** The greatest multiple of `d` not above `x`. */
  function RoundDown(x: nat, d: nat): (r: nat)
    requires d > 0
    ensures x == r + x % d
  {
    x / d * d
  }

  /** Where component `c` of record `i` lies, before truncation to a word. */
  function Spot(i: nat, c: nat, dim: nat, veclen: nat): nat
    requires veclen > 0
  {
    RoundDown(i, GROUP) * dim + RoundDown(c, veclen) * GROUP + i % GROUP * veclen + c % veclen
  }

  /** The subscript that the code computes, in 32 bits. */
  function Position(i: nat, c: nat, dim: nat, veclen: nat): nat
    requires veclen > 0
  {
    Spot(i, c, dim, veclen) % TWO_32
  }

  /** The block can be subscripted by every component of record `i`. */
  predicate HasRoom(length: nat, i: nat, dim: nat, veclen: nat)
    requires veclen > 0
  {
    forall c :: 0 <= c < dim ==> Position(i, c, dim, veclen) < length
  }

  /** The block after the first `n` components of `code` have been written, in order. */
  ghost function Packed<T>(block: seq<T>, code: seq<T>, dim: nat, veclen: nat, i: nat, n: nat): (r: seq<T>)
    requires veclen > 0 && n <= dim <= |code| && HasRoom(|block|, i, dim, veclen)
    ensures |r| == |block|
  {
    if n == 0 then block
    else Packed(block, code, dim, veclen, i, n - 1)[Position(i, n - 1, dim, veclen) := code[n - 1]]
  }

  ghost function Unpacked<T>(block: seq<T>, dim: nat, veclen: nat, i: nat): (r: seq<T>)
    requires veclen > 0 && HasRoom(|block|, i, dim, veclen)
    ensures |r| == dim
  {
    seq(dim, c requires 0 <= c < dim => block[Position(i, c, dim, veclen)])
  }

  // ---------------------------------------------------------------- the loops

  /** The subscript of the inner loop is the position of component `l + j`. */
  lemma Subscript(offset: nat, l: nat, j: nat, dim: nat, veclen: nat)
    requires veclen > 0 && l % veclen == 0 && j < veclen
    ensures (RoundDown(offset, GROUP) * dim + l * GROUP + offset % GROUP * veclen + j) % TWO_32
         == Position(offset, l + j, dim, veclen)
  {
    DivModUnique(l + j, veclen, l / veclen, j);
  }

  lemma NextChunk(l: nat, dim: nat, veclen: nat)
    requires veclen > 0 && l % veclen == 0 && dim % veclen == 0 && l < dim
    ensures l + veclen <= dim && (l + veclen) % veclen == 0
  {
    DivModUnique(l + veclen, veclen, l / veclen + 1, 0);
    if l / veclen + 1 > dim / veclen {
      MulLe(dim / veclen, l / veclen, veclen);
    } else {
      MulLe(l / veclen + 1, dim / veclen, veclen);
    }
  }

  method Pack1<T>(flatCode: array<T>, block: array<T>, dim: nat, veclen: nat, offset: nat)
    requires veclen > 0 && dim % veclen == 0
    requires dim <= flatCode.Length && flatCode != block
    requires HasRoom(block.Length, offset, dim, veclen)
    modifies block
    ensures block[..] == Packed(old(block[..]), flatCode[..], dim, veclen, offset, dim)
  {
    var groupOffset := RoundDown(offset, GROUP);
    var ingroupId := offset % GROUP * veclen;
    var l := 0;
    ghost var was := block[..];
    while l < dim
      invariant 0 <= l <= dim && l % veclen == 0
      invariant block[..] == Packed(was, flatCode[..], dim, veclen, offset, l)
    {
      NextChunk(l, dim, veclen);
      var j := 0;
      while j < veclen
        invariant 0 <= j <= veclen
        invariant block[..] == Packed(was, flatCode[..], dim, veclen, offset, l + j)
      {
        var at := (groupOffset * dim + l * GROUP + ingroupId + j) % TWO_32;
        assert at == Position(offset, l + j, dim, veclen) by {
          Subscript(offset, l, j, dim, veclen);
        }
        block[at] := flatCode[l + j];
        j := j + 1;
      }
      l := l + veclen;
    }
  }

  method Unpack1<T>(block: array<T>, flatCode: array<T>, dim: nat, veclen: nat, offset: nat)
    requires veclen > 0 && dim % veclen == 0
    requires dim <= flatCode.Length && flatCode != block
    requires HasRoom(block.Length, offset, dim, veclen)
    modifies flatCode
    ensures flatCode[..] == Unpacked(block[..], dim, veclen, offset) + old(flatCode[dim..])
  {
    var groupOffset := RoundDown(offset, GROUP);
    var ingroupId := offset % GROUP * veclen;
    var l := 0;
    ghost var r := Unpacked(block[..], dim, veclen, offset);
    while l < dim
      invariant 0 <= l <= dim && l % veclen == 0
      invariant forall k :: 0 <= k < l ==> flatCode[k] == r[k]
      invariant forall k :: l <= k < flatCode.Length ==> flatCode[k] == old(flatCode[k])
    {
      NextChunk(l, dim, veclen);
      var j := 0;
      while j < veclen
        invariant 0 <= j <= veclen
        invariant forall k :: 0 <= k < l + j ==> flatCode[k] == r[k]
        invariant forall k :: l + j <= k < flatCode.Length ==> flatCode[k] == old(flatCode[k])
      {
        var at := (groupOffset * dim + l * GROUP + ingroupId + j) % TWO_32;
        assert at == Position(offset, l + j, dim, veclen) by {
          Subscript(offset, l, j, dim, veclen);
        }
        flatCode[l + j] := block[at];
        j := j + 1;
      }
      l := l + veclen;
    }
  }

  // ---------------------------------------------------------------- the map is a bijection

  /** The interleaving, step by step: components of a chunk are adjacent, and the same chunk of the
    * next record in the group follows a chunk later. */
  lemma NextInGroup(i: nat, c: nat, dim: nat, veclen: nat)
    requires veclen > 0
    ensures Spot(0, 0, dim, veclen) == 0
    ensures c % veclen + 1 < veclen ==> Spot(i, c + 1, dim, veclen) == Spot(i, c, dim, veclen) + 1
    ensures i % 32 + 1 < 32 ==> Spot(i + 1, c, dim, veclen) == Spot(i, c, dim, veclen) + veclen
  {
    FirstSpot(dim, veclen);
    if c % veclen + 1 < veclen {
      NextWithin(c, veclen);
    }
    if i % 32 + 1 < 32 {
      NextWithin(i, 32);
      NextRow(i % 32, veclen);
    }
  }

  lemma FirstSpot(dim: nat, veclen: nat)
    requires veclen > 0
    ensures Spot(0, 0, dim, veclen) == 0
  {
    DivModUnique(0, veclen, 0, 0);
  }

  lemma NextWithin(x: nat, d: nat)
    requires d > 0 && x % d + 1 < d
    ensures RoundDown(x + 1, d) == RoundDown(x, d) && (x + 1) % d == x % d + 1
  {
    DivMod(x, d);
    DivModUnique(x + 1, d, x / d, x % d + 1);
  }

  lemma NextRow(r: nat, veclen: nat)
    ensures (r + 1) * veclen == r * veclen + veclen
  {
  }

  /** A record's next chunk follows a whole group of chunks later, and the same place in the next group
    * a group of records later. */
  lemma NextGroups(i: nat, c: nat, dim: nat, veclen: nat)
    requires veclen > 0
    ensures Spot(i, c + veclen, dim, veclen) == Spot(i, c, dim, veclen) + 32 * veclen
    ensures Spot(i + 32, c, dim, veclen) == Spot(i, c, dim, veclen) + 32 * dim
  {
    RoundDownNext(i, 32);
    RoundDownNext(c, veclen);
    AddGroup(RoundDown(i, 32), dim);
  }

  lemma AddGroup(x: nat, dim: nat)
    ensures (x + 32) * dim == x * dim + 32 * dim
  {
  }

  lemma RoundDownNext(x: nat, d: nat)
    requires d > 0
    ensures RoundDown(x + d, d) == RoundDown(x, d) + d && (x + d) % d == x % d
  {
    AddMultiple(x, 1, d);
  }

  /** The record and the component that lie at spot `p`, with `m` chunks in a record. */
  function RecordAt(p: nat, m: nat, veclen: nat): nat
    requires veclen > 0 && m > 0
  {
    p / veclen / GROUP / m * GROUP + p / veclen % GROUP
  }

  function ComponentAt(p: nat, m: nat, veclen: nat): nat
    requires veclen > 0 && m > 0
  {
    p / veclen / GROUP % m * veclen + p % veclen
  }

  /** A spot is a number in mixed radix: group, chunk, record within the group, component within
    * the chunk. */
  lemma MixedRadix(i: nat, c: nat, dim: nat, veclen: nat)
    requires veclen > 0 && dim % veclen == 0 && c < dim
    ensures dim == dim / veclen * veclen && c / veclen < dim / veclen
    ensures Spot(i, c, dim, veclen)
         == ((i / GROUP * (dim / veclen) + c / veclen) * GROUP + i % GROUP) * veclen + c % veclen
  {
    var m, g, k := dim / veclen, i / GROUP, c / veclen;
    if k >= m {
      MulLe(m, k, veclen);
    }
    Regroup(g, m, k, i % GROUP, veclen, c % veclen);
  }

  lemma Regroup(g: nat, m: nat, k: nat, r: nat, v: nat, j: nat)
    ensures g * GROUP * (m * v) + k * v * GROUP + r * v + j == ((g * m + k) * GROUP + r) * v + j
  {
    assert g * GROUP * (m * v) == g * m * GROUP * v;
    assert ((g * m + k) * GROUP + r) * v == g * m * GROUP * v + k * GROUP * v + r * v;
  }

  /** The digits of a number in the mixed radix. */
  lemma Digits(g: nat, m: nat, k: nat, r: nat, v: nat, j: nat)
    requires k < m && r < GROUP && j < v
    ensures var p := ((g * m + k) * GROUP + r) * v + j;
      && p / v == (g * m + k) * GROUP + r && p % v == j
      && p / v / GROUP == g * m + k && p / v % GROUP == r
      && p / v / GROUP / m == g && p / v / GROUP % m == k
  {
    DivModUnique(((g * m + k) * GROUP + r) * v + j, v, (g * m + k) * GROUP + r, j);
    DivModUnique((g * m + k) * GROUP + r, GROUP, g * m + k, r);
    DivModUnique(g * m + k, m, g, k);
  }

  /** Record and component can be read off a spot. */
  lemma SpotInverse(i: nat, c: nat, dim: nat, veclen: nat)
    requires veclen > 0 && dim % veclen == 0 && c < dim
    ensures dim / veclen > 0
    ensures RecordAt(Spot(i, c, dim, veclen), dim / veclen, veclen) == i
    ensures ComponentAt(Spot(i, c, dim, veclen), dim / veclen, veclen) == c
  {
    MixedRadix(i, c, dim, veclen);
    Digits(i / GROUP, dim / veclen, c / veclen, i % GROUP, veclen, c % veclen);
  }

  /** Every number is the spot of some component of some record. */
  lemma SpotOnto(p: nat, dim: nat, veclen: nat)
    requires veclen > 0 && dim % veclen == 0 && dim > 0
    ensures dim / veclen > 0
    ensures var i, c := RecordAt(p, dim / veclen, veclen), ComponentAt(p, dim / veclen, veclen);
      c < dim && Spot(i, c, dim, veclen) == p
  {
    WholeChunks(dim, veclen);
    OntoDigits(p, dim / veclen, veclen);
  }

  lemma OntoDigits(p: nat, m: nat, v: nat)
    requires m > 0 && v > 0
    ensures ComponentAt(p, m, v) < m * v
    ensures Spot(RecordAt(p, m, v), ComponentAt(p, m, v), m * v, v) == p
  {
    var a := p / v;
    DivMod(p, v);
    DivMod(a, GROUP);
    DivMod(a / GROUP, m);
    SpotFromDigits(p, a, a / GROUP, a / GROUP / m, m, a / GROUP % m, a % GROUP, v, p % v);
  }

  lemma SpotFromDigits(p: nat, a: nat, q: nat, g: nat, m: nat, k: nat, r: nat, v: nat, j: nat)
    requires p == a * v + j && a == q * GROUP + r && q == g * m + k
    requires k < m && r < GROUP && j < v
    ensures k * v + j < m * v && Spot(g * GROUP + r, k * v + j, m * v, v) == p
  {
    SpotOfDigits(g, m, k, r, v, j);
  }

  lemma WholeChunks(dim: nat, veclen: nat)
    requires veclen > 0 && dim % veclen == 0 && dim > 0
    ensures dim == dim / veclen * veclen && dim / veclen > 0
  {
  }

  lemma SpotOfDigits(g: nat, m: nat, k: nat, r: nat, v: nat, j: nat)
    requires k < m && r < GROUP && j < v
    ensures k * v + j < m * v
    ensures Spot(g * GROUP + r, k * v + j, m * v, v) == ((g * m + k) * GROUP + r) * v + j
  {
    MulLe(k + 1, m, v);
    DivModUnique(g * GROUP + r, GROUP, g, r);
    DivModUnique(k * v + j, v, k, j);
    Regroup(g, m, k, r, v, j);
  }

  /** The spots of the first `capacity` records, a multiple of the group, are exactly the numbers
    * below `capacity * dim`. */
  lemma SpotInCapacity(i: nat, c: nat, dim: nat, veclen: nat, capacity: nat)
    requires veclen > 0 && dim % veclen == 0 && c < dim && capacity % GROUP == 0
    ensures Spot(i, c, dim, veclen) < capacity * dim <==> i < capacity
  {
    SpotInGroup(i, c, dim, veclen);
    WholeGroups(capacity, dim);
    if i < capacity {
      GroupBelow(i, capacity);
      MulLe(i / GROUP + 1, capacity / GROUP, GROUP * dim);
    } else {
      GroupBelow(capacity, i + 1);
      MulLe(capacity / GROUP, i / GROUP, GROUP * dim);
    }
  }

  lemma WholeGroups(capacity: nat, dim: nat)
    requires capacity % GROUP == 0
    ensures capacity * dim == capacity / GROUP * (GROUP * dim)
  {
  }

  lemma GroupBelow(i: nat, capacity: nat)
    requires i < capacity
    ensures i / GROUP <= capacity / GROUP && (capacity % GROUP == 0 ==> i / GROUP + 1 <= capacity / GROUP)
    ensures i % GROUP == 0 ==> i / GROUP <= (capacity - 1) / GROUP
  {
  }

  lemma SpotInGroup(i: nat, c: nat, dim: nat, veclen: nat)
    requires veclen > 0 && dim % veclen == 0 && c < dim
    ensures i / GROUP * (GROUP * dim) <= Spot(i, c, dim, veclen) < (i / GROUP + 1) * (GROUP * dim)
  {
    MixedRadix(i, c, dim, veclen);
    GroupBounds(i / GROUP, dim / veclen, c / veclen, i % GROUP, veclen, c % veclen);
  }

  lemma GroupBounds(g: nat, m: nat, k: nat, r: nat, v: nat, j: nat)
    requires k < m && r < GROUP && j < v
    ensures g * (GROUP * (m * v)) <= ((g * m + k) * GROUP + r) * v + j < (g + 1) * (GROUP * (m * v))
  {
    Regroup(g, m, 0, 0, v, 0);
    Regroup(g + 1, m, 0, 0, v, 0);
    MulLe(g * m * GROUP, (g * m + k) * GROUP + r, v);
    RowBelow(g, m, k, r);
    MulLe((g * m + k) * GROUP + r + 1, (g + 1) * m * GROUP, v);
  }

  lemma RowBelow(g: nat, m: nat, k: nat, r: nat)
    requires k < m && r < GROUP
    ensures (g * m + k) * GROUP + r + 1 <= (g + 1) * m * GROUP
  {
    assert (g + 1) * m == g * m + m;
  }

  /** No two components of the first `capacity` records share a subscript. */
  ghost predicate Distinct(dim: nat, veclen: nat, capacity: nat)
    requires veclen > 0
  {
    forall i, c, k, d | 0 <= i < capacity && 0 <= c < dim && 0 <= k < capacity && 0 <= d < dim ::
      Position(i, c, dim, veclen) == Position(k, d, dim, veclen) ==> i == k && c == d
  }

  /** The 32-bit subscripts are distinct exactly when the list has at most 2^32 elements. */
  lemma DistinctIff(dim: nat, veclen: nat, capacity: nat)
    requires veclen > 0 && dim % veclen == 0 && dim > 0 && capacity % GROUP == 0
    ensures Distinct(dim, veclen, capacity) <==> capacity * dim <= TWO_32
  {
    if capacity * dim <= TWO_32 {
      forall i, c, k, d | 0 <= i < capacity && 0 <= c < dim && 0 <= k < capacity && 0 <= d < dim
        ensures Position(i, c, dim, veclen) == Position(k, d, dim, veclen) ==> i == k && c == d
      {
        PositionsDiffer(i, c, k, d, dim, veclen, capacity);
      }
    } else {
      PositionsCollide(dim, veclen, capacity);
    }
  }

  lemma PositionIsSpot(i: nat, c: nat, dim: nat, veclen: nat, capacity: nat)
    requires veclen > 0 && dim % veclen == 0 && capacity % GROUP == 0 && capacity * dim <= TWO_32
    requires i < capacity && c < dim
    ensures Position(i, c, dim, veclen) == Spot(i, c, dim, veclen) < capacity * dim
  {
    SpotInCapacity(i, c, dim, veclen, capacity);
  }

  lemma PositionsDiffer(i: nat, c: nat, k: nat, d: nat, dim: nat, veclen: nat, capacity: nat)
    requires veclen > 0 && dim % veclen == 0 && capacity % GROUP == 0 && capacity * dim <= TWO_32
    requires i < capacity && c < dim && k < capacity && d < dim
    ensures Position(i, c, dim, veclen) == Position(k, d, dim, veclen) ==> i == k && c == d
  {
    PositionIsSpot(i, c, dim, veclen, capacity);
    PositionIsSpot(k, d, dim, veclen, capacity);
    SpotInverse(i, c, dim, veclen);
    SpotInverse(k, d, dim, veclen);
  }

  /** In a longer list the element at spot 2^32 gets the subscript of the first one. */
  lemma PositionsCollide(dim: nat, veclen: nat, capacity: nat)
    requires veclen > 0 && dim % veclen == 0 && dim > 0 && capacity % GROUP == 0
    requires capacity * dim > TWO_32
    ensures !Distinct(dim, veclen, capacity)
  {
    var i, c := Occupant(0, dim, veclen, capacity);
    var k, d := Occupant(TWO_32, dim, veclen, capacity);
    assert Position(i, c, dim, veclen) == Position(k, d, dim, veclen);
  }

  lemma Occupant(p: nat, dim: nat, veclen: nat, capacity: nat) returns (i: nat, c: nat)
    requires veclen > 0 && dim % veclen == 0 && dim > 0 && capacity % GROUP == 0 && p < capacity * dim
    ensures i < capacity && c < dim && Spot(i, c, dim, veclen) == p
  {
    SpotOnto(p, dim, veclen);
    i, c := RecordAt(p, dim / veclen, veclen), ComponentAt(p, dim / veclen, veclen);
    SpotInCapacity(i, c, dim, veclen, capacity);
  }

  // ---------------------------------------------------------------- packing and unpacking

  /** The list has room for `capacity` records, and its subscripts do not wrap. */
  ghost predicate Holds(length: nat, dim: nat, veclen: nat, capacity: nat) {
    && veclen > 0 && dim % veclen == 0 && capacity % GROUP == 0
    && capacity * dim <= length && capacity * dim <= TWO_32
  }

  lemma HoldsHasRoom(length: nat, dim: nat, veclen: nat, capacity: nat, i: nat)
    requires Holds(length, dim, veclen, capacity) && i < capacity
    ensures HasRoom(length, i, dim, veclen)
  {
    forall c | 0 <= c < dim
      ensures Position(i, c, dim, veclen) < length
    {
      PositionIsSpot(i, c, dim, veclen, capacity);
    }
  }

  /** Writing record `i` changes its own components and nothing else of any record. */
  lemma {:induction false} PackedReads<T>(block: seq<T>, code: seq<T>, dim: nat, veclen: nat,
                                          capacity: nat, i: nat, n: nat, k: nat, c: nat)
    requires Holds(|block|, dim, veclen, capacity) && i < capacity && k < capacity
    requires n <= dim <= |code| && c < dim
    requires HasRoom(|block|, i, dim, veclen) && HasRoom(|block|, k, dim, veclen)
    ensures Packed(block, code, dim, veclen, i, n)[Position(k, c, dim, veclen)]
         == if k == i && c < n then code[c] else block[Position(k, c, dim, veclen)]
  {
    if n == 0 {
    } else {
      PackedReads(block, code, dim, veclen, capacity, i, n - 1, k, c);
      DistinctIff(dim, veclen, capacity);
    }
  }

  /** What is packed is unpacked, and packing one record disturbs no other. */
  lemma PackThenUnpack<T>(block: seq<T>, code: seq<T>, dim: nat, veclen: nat, capacity: nat, i: nat, k: nat)
    requires Holds(|block|, dim, veclen, capacity) && i < capacity && k < capacity && |code| == dim
    ensures HasRoom(|block|, i, dim, veclen) && HasRoom(|block|, k, dim, veclen)
    ensures Unpacked(Packed(block, code, dim, veclen, i, dim), dim, veclen, k)
         == if k == i then code else Unpacked(block, dim, veclen, k)
  {
    HoldsHasRoom(|block|, dim, veclen, capacity, i);
    HoldsHasRoom(|block|, dim, veclen, capacity, k);
    forall c | 0 <= c < dim
      ensures Packed(block, code, dim, veclen, i, dim)[Position(k, c, dim, veclen)]
           == if k == i then code[c] else block[Position(k, c, dim, veclen)]
    {
      PackedReads(block, code, dim, veclen, capacity, i, dim, k, c);
    }
  }

  datatype Record<T> = Record(offset: nat, code: seq<T>)

  predicate AllFit<T>(items: seq<Record<T>>, dim: nat, capacity: nat) {
    forall x :: 0 <= x < |items| ==> items[x].offset < capacity && |items[x].code| == dim
  }

  /** The block after packing the items one after another. */
  ghost function PackAll<T>(block: seq<T>, items: seq<Record<T>>, dim: nat, veclen: nat, capacity: nat): (r: seq<T>)
    requires Holds(|block|, dim, veclen, capacity) && AllFit(items, dim, capacity)
    ensures |r| == |block|
  {
    if items == [] then block
    else
      var last := items[|items| - 1];
      var before := PackAll(block, items[..|items| - 1], dim, veclen, capacity);
      HoldsHasRoom(|block|, dim, veclen, capacity, last.offset);
      Packed(before, last.code, dim, veclen, last.offset, dim)
  }

  /** Packing any records in any order: each record reads back as what was packed there last, and a
    * record that was never packed reads as before. */
  lemma {:induction false} PackAllReads<T>(block: seq<T>, items: seq<Record<T>>, dim: nat, veclen: nat,
                                           capacity: nat, k: nat)
    requires Holds(|block|, dim, veclen, capacity) && AllFit(items, dim, capacity) && k < capacity
    ensures HasRoom(|block|, k, dim, veclen)
    ensures Unpacked(PackAll(block, items, dim, veclen, capacity), dim, veclen, k)
         == LastPacked(items, k, Unpacked(block, dim, veclen, k))
  {
    HoldsHasRoom(|block|, dim, veclen, capacity, k);
    if items == [] {
    } else {
      var last, rest := items[|items| - 1], items[..|items| - 1];
      PackAllReads(block, rest, dim, veclen, capacity, k);
      PackThenUnpack(PackAll(block, rest, dim, veclen, capacity), last.code, dim, veclen, capacity, last.offset, k);
    }
  }

  function LastPacked<T>(items: seq<Record<T>>, k: nat, otherwise: seq<T>): seq<T> {
    if items == [] then otherwise
    else if items[|items| - 1].offset == k then items[|items| - 1].code
    else LastPacked(items[..|items| - 1], k, otherwise)
  }
}
