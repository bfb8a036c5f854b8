/** Indexes that share inverted lists. Any number of indexes are cloned and extended in any
  * interleaving; a compare-and-swap on the size of a shared list decides who grows it in place,
  * and whoever loses continues on a private copy of its prefix. Copies and writes happen one
  * record at a time, so the steps of different indexes interleave inside them. */
module IvfSharing {
  import opened Wrappers
  import opened IvfCapacity

  type ListId = nat
  type IndexId = nat

  /** `size` is the atomic high-water mark; a slot is None until it is written. */
  datatype SharedList<R> = SharedList(size: nat, slots: seq<Option<R>>)

  /** Growing: the slots up to `target` are the index's own to write.
    * Copying: the resize has decided to reallocate, and `buffer` holds what is copied so far. */
  datatype Phase<R> =
    | Idle
    | Growing(target: nat)
    | Copying(target: nat, passed: nat, buffer: seq<Option<R>>)

  /** `log` remembers which record the index put into which position. */
  datatype Index<R> = Index(list: Option<ListId>, used: nat, log: map<nat, R>, phase: Phase<R>)

  datatype World<R> = World(
    lists: map<ListId, SharedList<R>>,
    indexes: map<IndexId, Index<R>>,
    next: ListId,
    alignMax: nat)

  /** `Extend` carries the old size that the caller passes to the resize. */
  datatype Event<R> =
    | Create(i: IndexId)
    | Clone(i: IndexId, j: IndexId)
    | Extend(i: IndexId, target: nat, passed: nat)
    | CopySlot(i: IndexId)
    | Swap(i: IndexId)
    | Write(i: IndexId, p: nat, record: R)
    | Finish(i: IndexId)
    | Destroy(i: IndexId)

  predicate Stays<R>(l: SharedList<R>, target: nat, passed: nat) {
    StaysInPlace(l.size, |l.slots|, target, passed)
  }

  function Resized<R>(l: SharedList<R>, target: nat, passed: nat): SharedList<R> {
    l.(size := SizeInPlace(l.size, target, passed))
  }

  predicate Enabled<R>(w: World<R>, e: Event<R>) {
    match e
    case Create(i) => i !in w.indexes
    case Clone(i, j) => i in w.indexes && j !in w.indexes && w.indexes[i].phase.Idle?
    case Extend(i, target, passed) =>
      && i in w.indexes && w.indexes[i].phase.Idle? && w.indexes[i].used <= target
      && match w.indexes[i].list {
           case None => true
           case Some(l) => l in w.lists && w.indexes[i].used <= passed <= |w.lists[l].slots|
         }
    case CopySlot(i) =>
      && i in w.indexes && w.indexes[i].phase.Copying?
      && |w.indexes[i].phase.buffer| < w.indexes[i].phase.passed
      && w.indexes[i].list.Some? && w.indexes[i].list.value in w.lists
      && |w.indexes[i].phase.buffer| < |w.lists[w.indexes[i].list.value].slots|
    case Swap(i) =>
      && i in w.indexes && w.indexes[i].phase.Copying?
      && |w.indexes[i].phase.buffer| == w.indexes[i].phase.passed
      && w.alignMax > 0
      && w.indexes[i].phase.passed <= Capacity(w.indexes[i].phase.target, w.alignMax)
    case Write(i, p, _) =>
      && i in w.indexes && w.indexes[i].phase.Growing?
      && w.indexes[i].used <= p < w.indexes[i].phase.target
      && w.indexes[i].list.Some? && w.indexes[i].list.value in w.lists
      && p < |w.lists[w.indexes[i].list.value].slots|
    case Finish(i) =>
      && i in w.indexes && w.indexes[i].phase.Growing?
      && w.indexes[i].used <= w.indexes[i].phase.target
      && forall p :: w.indexes[i].used <= p < w.indexes[i].phase.target ==> p in w.indexes[i].log
    case Destroy(i) => i in w.indexes && w.indexes[i].phase.Idle?
  }

  function Put<R>(w: World<R>, i: IndexId, x: Index<R>): World<R> {
    w.(indexes := w.indexes[i := x])
  }

  function Apply<R>(w: World<R>, e: Event<R>): World<R>
    requires Enabled(w, e)
  {
    match e
    case Create(i) => Put(w, i, Index(None, 0, map[], Idle))
    case Clone(i, j) => Put(w, j, w.indexes[i])
    case Extend(i, target, passed) =>
      var x := w.indexes[i];
      (match x.list
       case None => Put(w, i, x.(phase := Copying(target, 0, [])))
       case Some(l) =>
         if Stays(w.lists[l], target, passed) then
           Put(w.(lists := w.lists[l := Resized(w.lists[l], target, passed)]), i,
               x.(phase := Growing(target)))
         else Put(w, i, x.(phase := Copying(target, passed, []))))
    case CopySlot(i) =>
      var x := w.indexes[i];
      var slot := w.lists[x.list.value].slots[|x.phase.buffer|];
      Put(w, i, x.(phase := x.phase.(buffer := x.phase.buffer + [slot])))
    case Swap(i) =>
      var x := w.indexes[i];
      var capacity := Capacity(x.phase.target, w.alignMax);
      var blank := seq(capacity - x.phase.passed, _ => None);
      var made := SharedList(x.phase.target, x.phase.buffer + blank);
      Put(w.(lists := w.lists[w.next := made], next := w.next + 1), i,
          x.(list := Some(w.next), phase := Growing(x.phase.target)))
    case Write(i, p, record) =>
      var x := w.indexes[i];
      var l := x.list.value;
      Put(w.(lists := w.lists[l := w.lists[l].(slots := w.lists[l].slots[p := Some(record)])]), i,
          x.(log := x.log[p := record]))
    case Finish(i) =>
      var x := w.indexes[i];
      Put(w, i, x.(used := x.phase.target, phase := Idle))
    case Destroy(i) => w.(indexes := w.indexes - {i})
  }

  // ---------------------------------------------------------------- the invariant

  /** The slots below its end are what an index may have written. */
  function End<R>(x: Index<R>): nat {
    if x.phase.Growing? && x.phase.target > x.used then x.phase.target else x.used
  }

  /** What index `i` finds at position `p` of its list. */
  function Read<R>(w: World<R>, i: IndexId, p: nat): Option<R>
    requires i in w.indexes
  {
    var x := w.indexes[i];
    if x.list.Some? && x.list.value in w.lists && p < |w.lists[x.list.value].slots|
    then w.lists[x.list.value].slots[p] else None
  }

  /** The index's own records are in place, and its list is big enough for it. */
  ghost predicate IndexInv<R>(w: World<R>, x: Index<R>) {
    && (forall p :: 0 <= p < x.used ==> p in x.log)
    && (forall p :: p in x.log ==> p < End(x))
    && (x.phase.Growing? ==> x.list.Some? && x.used <= x.phase.target)
    && (x.list == None ==> x.used == 0)
    && (x.list.Some? ==> ListInv(w, x, x.list.value))
    && (x.phase.Copying? ==> CopyInv(x))
  }

  ghost predicate ListInv<R>(w: World<R>, x: Index<R>, l: ListId) {
    && l in w.lists && End(x) <= |w.lists[l].slots|
    && forall p :: p in x.log ==> p < |w.lists[l].slots| && w.lists[l].slots[p] == Some(x.log[p])
  }

  ghost predicate CopyInv<R>(x: Index<R>)
    requires x.phase.Copying?
  {
    && x.used <= x.phase.passed <= x.phase.target && |x.phase.buffer| <= x.phase.passed
    && forall p :: 0 <= p < |x.phase.buffer| && p in x.log ==> x.phase.buffer[p] == Some(x.log[p])
  }

  /** While an index grows a shared list, every other sharer ends where the growth begins. */
  predicate Exclusive<R>(x: Index<R>, y: Index<R>) {
    x.list == y.list && x.phase.Growing? && x.phase.target > x.used ==> End(y) <= x.used
  }

  ghost predicate Inv<R>(w: World<R>) {
    && w.alignMax > 0
    && (forall l :: l in w.lists ==> l < w.next)
    && (forall i :: i in w.indexes ==> IndexInv(w, w.indexes[i]))
    && (forall i, j :: i in w.indexes && j in w.indexes && i != j ==>
          Exclusive(w.indexes[i], w.indexes[j]))
  }

  /** No other sharer of the list of `i` has, or may write, records beyond those of `i`. */
  ghost predicate NoneLonger<R>(w: World<R>, i: IndexId)
    requires i in w.indexes
  {
    forall j :: j in w.indexes && j != i && w.indexes[j].list == w.indexes[i].list ==>
      End(w.indexes[j]) <= w.indexes[i].used
  }

  /** A resize in place that grows the index is made by the longest sharer. */
  ghost predicate Safe<R>(w: World<R>, e: Event<R>) {
    e.Extend? && e.i in w.indexes && w.indexes[e.i].list.Some? && w.indexes[e.i].list.value in w.lists
    && Stays(w.lists[w.indexes[e.i].list.value], e.target, e.passed) && e.target > w.indexes[e.i].used ==>
      NoneLonger(w, e.i)
  }

  /** The size of a list is not below the end of any index that holds it. */
  ghost predicate SizeInv<R>(w: World<R>) {
    forall i :: i in w.indexes && w.indexes[i].list.Some? ==> Covered(w, w.indexes[i], w.indexes[i].list.value)
  }

  predicate Covered<R>(w: World<R>, x: Index<R>, l: ListId) {
    l in w.lists && End(x) <= w.lists[l].size
  }

  /** The caller passes its own size as the old size. */
  predicate Exact<R>(w: World<R>, e: Event<R>) {
    e.Extend? && e.i in w.indexes ==> e.passed == w.indexes[e.i].used
  }

  // ---------------------------------------------------------------- every step keeps it

  /** An index is as it was, and so is everything it can read, if its list's slots are. */
  lemma IndexFrame<R>(w: World<R>, v: World<R>, x: Index<R>)
    requires IndexInv(w, x)
    requires x.list.Some? && x.list.value in w.lists ==>
      x.list.value in v.lists
      && v.lists[x.list.value].slots == w.lists[x.list.value].slots
    ensures IndexInv(v, x)
  {
  }

  lemma CreateKeepsInv<R>(w: World<R>, i: IndexId)
    requires Inv(w) && Enabled(w, Create(i))
    ensures Inv(Apply(w, Create(i)))
  {
  }

  lemma CloneKeepsInv<R>(w: World<R>, i: IndexId, j: IndexId)
    requires Inv(w) && Enabled(w, Clone(i, j))
    ensures Inv(Apply(w, Clone(i, j)))
  {
  }

  lemma GrowKeepsInv<R>(w: World<R>, i: IndexId, l: ListId, target: nat, passed: nat)
    requires Inv(w) && i in w.indexes && w.indexes[i].phase.Idle?
    requires w.indexes[i].list == Some(l) && w.indexes[i].used <= target
    requires Stays(w.lists[l], target, passed) && (target > w.indexes[i].used ==> NoneLonger(w, i))
    ensures var made := Resized(w.lists[l], target, passed);
      Inv(Put(w.(lists := w.lists[l := made]), i, w.indexes[i].(phase := Growing(target))))
  {
    var made := Resized(w.lists[l], target, passed);
    var v := Put(w.(lists := w.lists[l := made]), i, w.indexes[i].(phase := Growing(target)));
    forall j | j in v.indexes
      ensures IndexInv(v, v.indexes[j])
    {
      if j != i {
        IndexFrame(w, v, w.indexes[j]);
      }
    }
    forall j, k | j in v.indexes && k in v.indexes && j != k
      ensures Exclusive(v.indexes[j], v.indexes[k])
    {
      if j != i && k != i {
        assert Exclusive(w.indexes[j], w.indexes[k]);
      } else if k == i {
        assert Exclusive(w.indexes[j], w.indexes[i]);
      }
    }
  }

  lemma StartCopyKeepsInv<R>(w: World<R>, i: IndexId, target: nat, passed: nat)
    requires Inv(w) && i in w.indexes && w.indexes[i].phase.Idle? && w.indexes[i].used <= passed <= target
    ensures Inv(Put(w, i, w.indexes[i].(phase := Copying(target, passed, []))))
  {
    PhaseKeepsInv(w, i, w.indexes[i].(phase := Copying(target, passed, [])));
  }

  lemma ExtendKeepsInv<R>(w: World<R>, i: IndexId, target: nat, passed: nat)
    requires Inv(w) && Enabled(w, Extend(i, target, passed)) && Safe(w, Extend(i, target, passed))
    ensures Inv(Apply(w, Extend(i, target, passed)))
  {
    match w.indexes[i].list
    case None => StartCopyKeepsInv(w, i, target, 0);
    case Some(l) =>
      if Stays(w.lists[l], target, passed) {
        GrowKeepsInv(w, i, l, target, passed);
      } else {
        StartCopyKeepsInv(w, i, target, passed);
      }
  }

  /** Changing the phase of one index, without changing where it ends. */
  lemma PhaseKeepsInv<R>(w: World<R>, i: IndexId, x: Index<R>)
    requires Inv(w) && i in w.indexes && IndexInv(w, x)
    requires x.list == w.indexes[i].list && End(x) <= End(w.indexes[i]) && !x.phase.Growing?
    ensures Inv(Put(w, i, x))
  {
    var v := Put(w, i, x);
    forall j | j in v.indexes
      ensures IndexInv(v, v.indexes[j])
    {
      if j != i {
        IndexFrame(w, v, w.indexes[j]);
      }
    }
    forall j, k | j in v.indexes && k in v.indexes && j != k
      ensures Exclusive(v.indexes[j], v.indexes[k])
    {
      if j != i {
        assert Exclusive(w.indexes[j], w.indexes[k]);
      }
    }
  }

  lemma CopySlotKeepsInv<R>(w: World<R>, i: IndexId)
    requires Inv(w) && Enabled(w, CopySlot(i))
    ensures Inv(Apply(w, CopySlot(i)))
  {
    PhaseKeepsInv(w, i, Apply(w, CopySlot(i)).indexes[i]);
  }

  /** The copy holds everything the index wrote, so the index can move onto it. */
  lemma SwapperKeepsInv<R>(w: World<R>, i: IndexId)
    requires i in w.indexes && IndexInv(w, w.indexes[i]) && Enabled(w, Swap(i))
    ensures var v := Apply(w, Swap(i)); IndexInv(v, v.indexes[i])
  {
    CapacityFits(w.indexes[i].phase.target, w.alignMax);
  }

  lemma SwapKeepsInv<R>(w: World<R>, i: IndexId)
    requires Inv(w) && Enabled(w, Swap(i))
    ensures Inv(Apply(w, Swap(i)))
  {
    var v := Apply(w, Swap(i));
    SwapperKeepsInv(w, i);
    forall j | j in v.indexes && j != i
      ensures IndexInv(v, v.indexes[j])
    {
      IndexFrame(w, v, w.indexes[j]);
    }
    forall j, k | j in v.indexes && k in v.indexes && j != k
      ensures Exclusive(v.indexes[j], v.indexes[k])
    {
      assert j != i && k != i ==> Exclusive(w.indexes[j], w.indexes[k]);
      assert IndexInv(w, w.indexes[j]) && IndexInv(w, w.indexes[k]);
    }
  }

  /** A write to a slot that an index has not written leaves the index as it was. */
  lemma WriteFrame<R>(w: World<R>, x: Index<R>, l: ListId, p: nat, record: R)
    requires IndexInv(w, x) && l in w.lists && p < |w.lists[l].slots|
    requires x.list == Some(l) ==> p !in x.log
    ensures IndexInv(w.(lists := w.lists[l := w.lists[l].(slots := w.lists[l].slots[p := Some(record)])]), x)
  {
  }

  lemma WriterKeepsInv<R>(w: World<R>, i: IndexId, p: nat, record: R)
    requires i in w.indexes && IndexInv(w, w.indexes[i]) && Enabled(w, Write(i, p, record))
    ensures var v := Apply(w, Write(i, p, record)); IndexInv(v, v.indexes[i])
  {
  }

  lemma WriteKeepsInv<R>(w: World<R>, i: IndexId, p: nat, record: R)
    requires Inv(w) && Enabled(w, Write(i, p, record))
    ensures Inv(Apply(w, Write(i, p, record)))
  {
    var v := Apply(w, Write(i, p, record));
    var l := w.indexes[i].list.value;
    WriterKeepsInv(w, i, p, record);
    forall j | j in v.indexes && j != i
      ensures IndexInv(v, v.indexes[j])
    {
      assert Exclusive(w.indexes[i], w.indexes[j]);
      WriteFrame(w, w.indexes[j], l, p, record);
      IndexFrame(w.(lists := v.lists), v, w.indexes[j]);
    }
    forall j, k | j in v.indexes && k in v.indexes && j != k
      ensures Exclusive(v.indexes[j], v.indexes[k])
    {
      assert Exclusive(w.indexes[j], w.indexes[k]);
    }
  }

  lemma FinishKeepsInv<R>(w: World<R>, i: IndexId)
    requires Inv(w) && Enabled(w, Finish(i))
    ensures Inv(Apply(w, Finish(i)))
  {
    PhaseKeepsInv(w, i, Apply(w, Finish(i)).indexes[i]);
  }

  /** Every step keeps the invariant, whatever old size a resize is given, as long as an index that
    * grows in place is the longest sharer. */
  lemma StepKeepsInv<R>(w: World<R>, e: Event<R>)
    requires Inv(w) && Enabled(w, e) && Safe(w, e)
    ensures Inv(Apply(w, e))
  {
    match e
    case Create(i) => CreateKeepsInv(w, i);
    case Clone(i, j) => CloneKeepsInv(w, i, j);
    case Extend(i, target, passed) => ExtendKeepsInv(w, i, target, passed);
    case CopySlot(i) => CopySlotKeepsInv(w, i);
    case Swap(i) => SwapKeepsInv(w, i);
    case Write(i, p, record) => WriteKeepsInv(w, i, p, record);
    case Finish(i) => FinishKeepsInv(w, i);
    case Destroy(i) =>
  }

  /** Given the index's own size, the compare-and-swap makes sure of that: it succeeds only at the
    * end of the longest sharer. */
  lemma ExactIsSafe<R>(w: World<R>, e: Event<R>)
    requires SizeInv(w) && Enabled(w, e) && Exact(w, e)
    ensures Safe(w, e)
  {
  }

  lemma ExtendKeepsSizes<R>(w: World<R>, i: IndexId, target: nat)
    requires Inv(w) && SizeInv(w) && i in w.indexes && Enabled(w, Extend(i, target, w.indexes[i].used))
    ensures SizeInv(Apply(w, Extend(i, target, w.indexes[i].used)))
  {
  }

  lemma ExactKeepsSizes<R>(w: World<R>, e: Event<R>)
    requires Inv(w) && SizeInv(w) && Enabled(w, e) && Exact(w, e)
    ensures SizeInv(Apply(w, e))
  {
    if e.Extend? {
      ExtendKeepsSizes(w, e.i, e.target);
    }
  }

  // ---------------------------------------------------------------- runs

  predicate Runs<R>(w: World<R>, es: seq<Event<R>>)
    decreases es
  {
    es == [] || (Enabled(w, es[0]) && Runs(Apply(w, es[0]), es[1..]))
  }

  ghost predicate SafeRun<R>(w: World<R>, es: seq<Event<R>>)
    requires Runs(w, es)
    decreases es
  {
    es == [] || (Safe(w, es[0]) && SafeRun(Apply(w, es[0]), es[1..]))
  }

  predicate ExactRun<R>(w: World<R>, es: seq<Event<R>>)
    requires Runs(w, es)
    decreases es
  {
    es == [] || (Exact(w, es[0]) && ExactRun(Apply(w, es[0]), es[1..]))
  }

  function After<R>(w: World<R>, es: seq<Event<R>>): World<R>
    requires Runs(w, es)
    decreases es
  {
    if es == [] then w else After(Apply(w, es[0]), es[1..])
  }

  lemma {:induction false} RunKeepsInv<R>(w: World<R>, es: seq<Event<R>>)
    requires Inv(w) && Runs(w, es) && SafeRun(w, es)
    ensures Inv(After(w, es))
    decreases es
  {
    if es == [] {
    } else {
      StepKeepsInv(w, es[0]);
      RunKeepsInv(Apply(w, es[0]), es[1..]);
    }
  }

  lemma {:induction false} ExactRunIsSafe<R>(w: World<R>, es: seq<Event<R>>)
    requires Inv(w) && SizeInv(w) && Runs(w, es) && ExactRun(w, es)
    ensures SafeRun(w, es)
    decreases es
  {
    if es == [] {
    } else {
      ExactIsSafe(w, es[0]);
      StepKeepsInv(w, es[0]);
      ExactKeepsSizes(w, es[0]);
      ExactRunIsSafe(Apply(w, es[0]), es[1..]);
    }
  }

  function Initial<R>(alignMax: nat): World<R> {
    World(map[], map[], 0, alignMax)
  }

  /** In every run in which only longest sharers grow in place, each index reads back, at each of
    * its positions, the record that it put there itself. */
  lemma SafeRunsKeepRecords<R>(alignMax: nat, es: seq<Event<R>>, i: IndexId, p: nat)
    requires alignMax > 0
    requires Runs(Initial(alignMax), es) && SafeRun(Initial(alignMax), es)
    requires var w := After(Initial(alignMax), es); i in w.indexes && p < w.indexes[i].used
    ensures var w := After(Initial(alignMax), es);
      p in w.indexes[i].log && Read(w, i, p) == Some(w.indexes[i].log[p])
  {
    RunKeepsInv<R>(Initial(alignMax), es);
  }

  /** Every run of exact resizes is such a run: the records of all sharers are safe. */
  lemma EveryIndexKeepsItsRecords<R>(alignMax: nat, es: seq<Event<R>>, i: IndexId, p: nat)
    requires alignMax > 0
    requires Runs(Initial(alignMax), es) && ExactRun(Initial(alignMax), es)
    requires var w := After(Initial(alignMax), es); i in w.indexes && p < w.indexes[i].used
    ensures var w := After(Initial(alignMax), es);
      p in w.indexes[i].log && Read(w, i, p) == Some(w.indexes[i].log[p])
  {
    ExactRunIsSafe<R>(Initial(alignMax), es);
    SafeRunsKeepRecords(alignMax, es, i, p);
  }

  /** At most one sharer of a list is growing it. */
  lemma OneGrows<R>(alignMax: nat, es: seq<Event<R>>, i: IndexId, j: IndexId)
    requires alignMax > 0
    requires Runs(Initial(alignMax), es) && SafeRun(Initial(alignMax), es)
    requires var w := After(Initial(alignMax), es);
      && i in w.indexes && j in w.indexes && w.indexes[i].list == w.indexes[j].list
      && w.indexes[i].phase.Growing? && w.indexes[i].phase.target > w.indexes[i].used
      && w.indexes[j].phase.Growing? && w.indexes[j].phase.target > w.indexes[j].used
    ensures i == j
  {
    RunKeepsInv<R>(Initial(alignMax), es);
  }

  /** Of two sharers of the same size, whichever resizes first wins the swap; the other copies. */
  lemma LoserCopies<R>(w: World<R>, i: IndexId, j: IndexId, target: nat, later: nat)
    requires Inv(w) && i in w.indexes && j in w.indexes && i != j
    requires w.indexes[i].list == w.indexes[j].list && w.indexes[i].list.Some?
    requires w.indexes[i].used == w.indexes[j].used < target && w.indexes[j].used < later
    requires Enabled(w, Extend(i, target, w.indexes[i].used))
    requires Enabled(w, Extend(j, later, w.indexes[j].used))
    ensures var v := Apply(w, Extend(i, target, w.indexes[i].used));
      v.indexes[i].phase.Growing? ==>
        && Enabled(v, Extend(j, later, w.indexes[j].used))
        && Apply(v, Extend(j, later, w.indexes[j].used)).indexes[j].phase.Copying?
  {
  }

  // ---------------------------------------------------------------- who grows

  /** Given its own size, an index with a list grows it in place exactly when the new size fits and
    * nothing is added or the list ends where the index does; otherwise it copies. */
  lemma ExactGrowsIff<R>(w: World<R>, i: IndexId, l: ListId, target: nat)
    requires i in w.indexes && w.indexes[i].list == Some(l) && l in w.lists
    requires Enabled(w, Extend(i, target, w.indexes[i].used))
    ensures var used, v := w.indexes[i].used, Apply(w, Extend(i, target, w.indexes[i].used));
      var fits := target <= |w.lists[l].slots| && (target == used || w.lists[l].size == used);
      && i in v.indexes && l in v.lists && v.lists[l].slots == w.lists[l].slots
      && v.indexes[i] == w.indexes[i].(phase := if fits then Growing(target) else Copying(target, used, []))
      && v.lists[l].size == (if fits && target > used then target else w.lists[l].size)
  {
  }

  /** Of two sharers of one size, where the list ends, whichever extends first grows it in place and
    * the other one copies, when there is room for both. */
  lemma FirstOfTwoGrows<R>(w: World<R>, i: IndexId, j: IndexId, l: ListId, target: nat, later: nat)
    requires i in w.indexes && j in w.indexes && i != j && l in w.lists
    requires w.indexes[i].list == w.indexes[j].list == Some(l)
    requires w.indexes[i].phase.Idle? && w.indexes[j].phase.Idle?
    requires w.indexes[i].used == w.indexes[j].used == w.lists[l].size
    requires w.lists[l].size < target <= |w.lists[l].slots| && w.lists[l].size < later <= |w.lists[l].slots|
    ensures var used := w.lists[l].size;
      && Enabled(w, Extend(i, target, used))
      && var v := Apply(w, Extend(i, target, used));
      && v.indexes[i].phase == Growing(target) && v.indexes[i].list == Some(l) && v.lists[l].size == target
      && Enabled(v, Extend(j, later, used))
      && Apply(v, Extend(j, later, used)).indexes[j].phase == Copying(later, used, [])
      && Apply(v, Extend(j, later, used)).lists == v.lists
  {
  }

  /** The list that ends a copy has the capacity for the new size, starts with the copied slots, and is
    * blank from there on. */
  lemma SwapMakesList<R>(w: World<R>, i: IndexId)
    requires Enabled(w, Swap(i))
    ensures var x, v := w.indexes[i], Apply(w, Swap(i));
      && v.indexes[i] == x.(list := Some(w.next), phase := Growing(x.phase.target)) && w.next in v.lists
      && var l := v.lists[w.next];
      && IsCapacity(|l.slots|, x.phase.target, w.alignMax) && l.size == x.phase.target
      && x.phase.buffer <= l.slots
      && forall p :: |x.phase.buffer| <= p < |l.slots| ==> l.slots[p] == None
  {
    CapacityIs(w.indexes[i].phase.target, w.alignMax);
  }

  /** The list of index `i` ends where the index does. */
  predicate Leads<R>(w: World<R>, i: IndexId) {
    i in w.indexes &&
    match w.indexes[i].list
    case None => !w.indexes[i].phase.Growing?
    case Some(l) => l in w.lists && w.lists[l].size == End(w.indexes[i])
  }

  /** The event extends no other index that shares the list of `i`, and does not destroy `i`. */
  predicate LeavesAlone<R>(w: World<R>, e: Event<R>, i: IndexId) {
    && e != Destroy(i)
    && (e.Extend? && e.i != i && e.i in w.indexes && i in w.indexes ==> w.indexes[e.i].list != w.indexes[i].list)
  }

  lemma StepKeepsLead<R>(w: World<R>, e: Event<R>, i: IndexId)
    requires Inv(w) && Enabled(w, e) && Exact(w, e) && Leads(w, i) && LeavesAlone(w, e, i)
    ensures Leads(Apply(w, e), i)
  {
    assert IndexInv(w, w.indexes[i]);
    if e.Swap? {
      assert w.indexes[i].list.Some? ==> w.indexes[i].list.value < w.next;
    }
  }

  predicate LeftAlone<R>(w: World<R>, es: seq<Event<R>>, i: IndexId)
    requires Runs(w, es)
    decreases es
  {
    es == [] || (LeavesAlone(w, es[0], i) && LeftAlone(Apply(w, es[0]), es[1..], i))
  }

  lemma {:induction false} RunKeepsLead<R>(w: World<R>, es: seq<Event<R>>, i: IndexId)
    requires Inv(w) && SizeInv(w) && Runs(w, es) && ExactRun(w, es)
    requires Leads(w, i) && LeftAlone(w, es, i)
    ensures Leads(After(w, es), i)
    decreases es
  {
    if es == [] {
    } else {
      StepKeepsLead(w, es[0], i);
      ExactIsSafe(w, es[0]);
      StepKeepsInv(w, es[0]);
      ExactKeepsSizes(w, es[0]);
      RunKeepsLead(Apply(w, es[0]), es[1..], i);
    }
  }

  /** An index whose list nobody else extends never copies while there is room: after any exact run
    * from its creation, with whatever other indexes and clones, an extension grows in place exactly
    * when the new size fits the list. */
  lemma LoneIndexGrows<R>(w: World<R>, es: seq<Event<R>>, i: IndexId, l: ListId, target: nat)
    requires Inv(w) && SizeInv(w) && Enabled(w, Create(i))
    requires var v := Apply(w, Create(i)); Runs(v, es) && ExactRun(v, es) && LeftAlone(v, es, i)
    requires var v := After(Apply(w, Create(i)), es);
      && i in v.indexes && v.indexes[i].list == Some(l)
      && Enabled(v, Extend(i, target, v.indexes[i].used))
    ensures var v := After(Apply(w, Create(i)), es);
      && l in v.lists
      && (Apply(v, Extend(i, target, v.indexes[i].used)).indexes[i].phase == Growing(target)
          <==> target <= |v.lists[l].slots|)
  {
    var v := Apply(w, Create(i));
    StepKeepsInv(w, Create(i));
    ExactKeepsSizes(w, Create(i));
    RunKeepsLead(v, es, i);
    ExactGrowsIff(After(v, es), i, l, target);
  }

  // ---------------------------------------------------------------- progress

  /** The slots that an index still has to copy exist. */
  ghost predicate CopyRoom<R>(w: World<R>) {
    forall i :: i in w.indexes && w.indexes[i].phase.Copying? ==> HasCopyRoom(w, w.indexes[i])
  }

  predicate HasCopyRoom<R>(w: World<R>, x: Index<R>)
    requires x.phase.Copying?
  {
    x.phase.passed == 0
    || (x.list.Some? && x.list.value in w.lists && x.phase.passed <= |w.lists[x.list.value].slots|)
  }

  lemma StepKeepsCopyRoom<R>(w: World<R>, e: Event<R>)
    requires CopyRoom(w) && Enabled(w, e) && forall l :: l in w.lists ==> l < w.next
    ensures CopyRoom(Apply(w, e))
  {
  }

  lemma {:induction false} RunKeepsCopyRoom<R>(w: World<R>, es: seq<Event<R>>)
    requires Inv(w) && CopyRoom(w) && Runs(w, es) && SafeRun(w, es)
    ensures CopyRoom(After(w, es))
    decreases es
  {
    if es == [] {
    } else {
      StepKeepsCopyRoom(w, es[0]);
      StepKeepsInv(w, es[0]);
      RunKeepsCopyRoom(Apply(w, es[0]), es[1..]);
    }
  }

  /** No index is ever stuck: an idle one can be extended to any larger size, with its exact or its
    * rounded old size if that is within the list; a copying one can copy its next slot or swap; a
    * growing one can write any position that it still lacks, or finish. */
  lemma NeverStuck<R>(alignMax: nat, es: seq<Event<R>>, i: IndexId, target: nat, p: nat, record: R)
    requires alignMax > 0
    requires Runs(Initial(alignMax), es) && SafeRun(Initial(alignMax), es)
    requires i in After(Initial(alignMax), es).indexes
    ensures var w := After(Initial(alignMax), es);
      var x := w.indexes[i];
      match x.phase
      case Idle => target >= x.used ==> Enabled(w, Extend(i, target, x.used)) && Enabled(w, Destroy(i))
      case Copying(_, _, _) => Enabled(w, CopySlot(i)) || Enabled(w, Swap(i))
      case Growing(end) =>
        && (x.used <= p < end ==> Enabled(w, Write(i, p, record)))
        && ((forall q :: x.used <= q < end ==> q in x.log) ==> Enabled(w, Finish(i)))
  {
    RunKeepsInv<R>(Initial(alignMax), es);
    RunKeepsCopyRoom<R>(Initial(alignMax), es);
    var w := After(Initial(alignMax), es);
    assert IndexInv(w, w.indexes[i]);
    if w.indexes[i].phase.Copying? {
      CapacityFits(w.indexes[i].phase.target, alignMax);
      AlignMaxStays<R>(Initial(alignMax), es);
      assert HasCopyRoom(w, w.indexes[i]);
    }
  }

  lemma {:induction false} AlignMaxStays<R>(w: World<R>, es: seq<Event<R>>)
    requires Runs(w, es)
    ensures After(w, es).alignMax == w.alignMax
    decreases es
  {
    if es == [] {
    } else {
      AlignMaxStays(Apply(w, es[0]), es[1..]);
    }
  }

  // ---------------------------------------------------------------- rounded old sizes

  /** Every index reads back every record that it has written. */
  ghost predicate AllReadable<R>(w: World<R>) {
    forall j, q :: j in w.indexes && q in w.indexes[j].log ==> Read(w, j, q) == Some(w.indexes[j].log[q])
  }

  /** That holds after every further run in which only longest sharers grow in place. */
  ghost predicate AlwaysReadable<R(!new)>(w: World<R>) {
    forall es: seq<Event<R>> :: Runs(w, es) && SafeRun(w, es) ==> AllReadable(After(w, es))
  }

  lemma InvIsReadable<R>(w: World<R>)
    requires Inv(w)
    ensures AllReadable(w)
  {
  }

  lemma SafeIsReadable<R(!new)>(w: World<R>, e: Event<R>)
    requires Inv(w) && Enabled(w, e) && Safe(w, e)
    ensures AlwaysReadable(Apply(w, e))
  {
    var v := Apply(w, e);
    StepKeepsInv(w, e);
    forall es: seq<Event<R>> | Runs(v, es) && SafeRun(v, es)
      ensures AllReadable(After(v, es))
    {
      RunKeepsInv(v, es);
      InvIsReadable(After(v, es));
    }
  }

  /** A write over another sharer's record loses it. */
  lemma OverwriteLoses<R>(w: World<R>, i: IndexId, j: IndexId, p: nat, record: R)
    requires Enabled(w, Write(i, p, record)) && j in w.indexes && j != i
    requires w.indexes[j].list == w.indexes[i].list
    requires p in w.indexes[j].log && w.indexes[j].log[p] != record
    ensures !AllReadable(Apply(w, Write(i, p, record)))
  {
    var v := Apply(w, Write(i, p, record));
    assert v.indexes[j] == w.indexes[j];
    assert Read(v, j, p) == Some(record);
  }

  lemma LastWriteLoses<R(!new)>(w: World<R>, i: IndexId, j: IndexId, p: nat, record: R)
    requires Enabled(w, Write(i, p, record)) && j in w.indexes && j != i
    requires w.indexes[j].list == w.indexes[i].list
    requires p in w.indexes[j].log && w.indexes[j].log[p] != record
    ensures Runs(w, [Write(i, p, record)]) && SafeRun(w, [Write(i, p, record)])
    ensures !AllReadable(After(w, [Write(i, p, record)]))
  {
    OverwriteLoses(w, i, j, p, record);
    SafeFront(w, Write(i, p, record), []);
    assert [Write(i, p, record)] + [] == [Write(i, p, record)];
  }

  lemma SafeFront<R>(w: World<R>, e: Event<R>, es: seq<Event<R>>)
    requires Enabled(w, e) && Safe(w, e) && Runs(Apply(w, e), es) && SafeRun(Apply(w, e), es)
    ensures Runs(w, [e] + es) && SafeRun(w, [e] + es) && After(w, [e] + es) == After(Apply(w, e), es)
  {
    assert ([e] + es)[1..] == es;
  }

  /** An index that grows from `p`, and a sharer that has or may write a record there. */
  ghost predicate Contested<R>(w: World<R>, i: IndexId, j: IndexId, p: nat) {
    && i in w.indexes && j in w.indexes && i != j && w.indexes[i].list == w.indexes[j].list
    && w.indexes[i].phase.Growing? && w.indexes[i].used == p < w.indexes[i].phase.target
    && w.indexes[i].list.Some? && w.indexes[i].list.value in w.lists
    && p < |w.lists[w.indexes[i].list.value].slots|
    && (p !in w.indexes[j].log ==> w.indexes[j].phase.Growing? && w.indexes[j].used <= p < w.indexes[j].phase.target)
  }

  /** If the sharer has its record there already, the next write loses it; if not, the sharer's
    * write and then the index's do. */
  lemma ContestedIsLost<R(!new)>(w: World<R>, i: IndexId, j: IndexId, p: nat, a: R, b: R)
    requires a != b && Contested(w, i, j, p)
    ensures !AlwaysReadable(w)
  {
    if p in w.indexes[j].log {
      var record := if w.indexes[j].log[p] == a then b else a;
      LastWriteLoses(w, i, j, p, record);
      assert !AllReadable(After(w, [Write(i, p, record)]));
    } else {
      var e: Event<R> := Write(j, p, a);
      var v := Apply(w, e);
      assert v.indexes[i] == w.indexes[i] && v.indexes[j].log[p] == a;
      LastWriteLoses(v, i, j, p, b);
      SafeFront(w, e, [Write(i, p, b)]);
      assert !AllReadable(After(w, [e] + [Write(i, p, b)]));
    }
  }

  lemma UnsafeIsContested<R>(w: World<R>, i: IndexId, target: nat, passed: nat) returns (j: IndexId)
    requires Inv(w) && Enabled(w, Extend(i, target, passed)) && !Safe(w, Extend(i, target, passed))
    ensures Contested(Apply(w, Extend(i, target, passed)), i, j, w.indexes[i].used)
  {
    j :| j in w.indexes && j != i && w.indexes[j].list == w.indexes[i].list
         && End(w.indexes[j]) > w.indexes[i].used;
    assert IndexInv(w, w.indexes[j]);
  }

  /** Whatever any number of other indexes are doing, and whatever old size a resize is given: after
    * a step the records stay readable in every run that follows in which only longest sharers grow
    * in place, exactly when the step itself is no growth in place by a shorter sharer. */
  lemma AlwaysReadableIff<R(!new)>(w: World<R>, e: Event<R>, a: R, b: R)
    requires a != b && Inv(w) && Enabled(w, e)
    ensures AlwaysReadable(Apply(w, e)) <==> Safe(w, e)
  {
    if Safe(w, e) {
      SafeIsReadable(w, e);
    } else {
      var j := UnsafeIsContested(w, e.i, e.target, e.passed);
      ContestedIsLost(Apply(w, e), e.i, j, w.indexes[e.i].used, a, b);
    }
  }

  /** The caller that rounds its size up to a whole group passes its own size exactly when that is
    * a multiple of the group. */
  lemma RoundedIsExact(used: nat)
    ensures RoundUp(used, GROUP) == used <==> used % GROUP == 0
  {
  }

  function RoundedExtend<R>(i: IndexId, used: nat): Event<R> {
    Extend(i, used + 1, RoundUp(used, GROUP))
  }

  function AppendOne<R>(i: IndexId, used: nat, record: R): seq<Event<R>> {
    [RoundedExtend(i, used), Write(i, used, record), Finish(i)]
  }

  /** An idle index that has `used` records in list `l`. */
  predicate Rests<R>(w: World<R>, i: IndexId, l: ListId, used: nat) {
    i in w.indexes && w.indexes[i].phase.Idle? && w.indexes[i].list == Some(l) && w.indexes[i].used == used
  }

  /** Inside a started group, appending one record with a rounded old size writes straight into
    * the list, whatever its size: the compare-and-swap is never asked. */
  lemma RoundedAppend<R>(w: World<R>, i: IndexId, l: ListId, used: nat, record: R)
    requires Rests(w, i, l, used) && l in w.lists
    requires used % GROUP != 0 && RoundUp(used, GROUP) <= |w.lists[l].slots|
    ensures Runs(w, AppendOne(i, used, record))
    ensures var v := After(w, AppendOne(i, used, record));
      && v.lists == w.lists[l := w.lists[l].(slots := w.lists[l].slots[used := Some(record)])]
      && v.indexes == w.indexes[i := Index(Some(l), used + 1, w.indexes[i].log[used := record], Idle)]
  {
    var e := RoundedExtend<R>(i, used);
    assert Apply(w, e).indexes[i].phase == Growing(used + 1) && Apply(w, e).lists == w.lists;
    RunOfThree(w, e, Write(i, used, record), Finish(i));
  }

  /** So two sharers of a started group that append with rounded old sizes overwrite each other:
    * the first then reads the second one's record where it put its own. */
  lemma RoundedResizesOverwrite<R>(w: World<R>, i: IndexId, j: IndexId, l: ListId, used: nat, b: R, c: R)
    requires i != j && Rests(w, i, l, used) && Rests(w, j, l, used) && l in w.lists
    requires used % GROUP != 0 && RoundUp(used, GROUP) <= |w.lists[l].slots|
    ensures Runs(w, AppendOne(i, used, b))
    ensures var v := After(w, AppendOne(i, used, b));
      && Rests(v, i, l, used + 1) && Read(v, i, used) == Some(b)
      && Runs(v, AppendOne(j, used, c))
      && Rests(After(v, AppendOne(j, used, c)), i, l, used + 1)
      && Read(After(v, AppendOne(j, used, c)), i, used) == Some(c)
  {
    RoundedAppend(w, i, l, used, b);
    var v := After(w, AppendOne(i, used, b));
    assert Rests(v, i, l, used + 1) && Rests(v, j, l, used) && l in v.lists;
    SharerOverwrites(v, i, j, l, used, c);
  }

  lemma SharerOverwrites<R>(v: World<R>, i: IndexId, j: IndexId, l: ListId, used: nat, c: R)
    requires i != j && Rests(v, i, l, used + 1) && Rests(v, j, l, used) && l in v.lists
    requires used % GROUP != 0 && RoundUp(used, GROUP) <= |v.lists[l].slots|
    ensures Runs(v, AppendOne(j, used, c))
    ensures Rests(After(v, AppendOne(j, used, c)), i, l, used + 1)
    ensures Read(After(v, AppendOne(j, used, c)), i, used) == Some(c)
  {
    RoundedAppend(v, j, l, used, c);
  }

  lemma SmallestCapacity()
    ensures Capacity(1, 1024) == GROUP
  {
  }

  function FirstList<R>(): World<R> {
    World(map[0 := SharedList(1, [] + seq(GROUP - 0, _ => None))],
          map[0 := Index(Some(0), 0, map[], Growing(1))], 1, 1024)
  }

  lemma FirstListArises<R>()
    ensures var es: seq<Event<R>> := [Create(0), Extend(0, 1, 0), Swap(0)];
      Runs(Initial(1024), es) && ExactRun(Initial(1024), es) && After(Initial(1024), es) == FirstList()
  {
    SmallestCapacity();
    RunOfThree<R>(Initial(1024), Create(0), Extend(0, 1, 0), Swap(0));
  }

  /** Such a pair of sharers is reachable, by exact steps alone: a one-record index and its clone. */
  lemma SharersArise<R>(a: R)
    ensures var es := [Create(0), Extend(0, 1, 0), Swap(0)] + [Write(0, 0, a), Finish(0), Clone(0, 1)];
      && Runs(Initial(1024), es) && ExactRun(Initial(1024), es)
      && var w := After(Initial(1024), es);
        Rests(w, 0, 0, 1) && Rests(w, 1, 0, 1) && 0 in w.lists && RoundUp(1, GROUP) <= |w.lists[0].slots|
  {
    FirstListArises<R>();
    RunOfThree<R>(FirstList(), Write(0, 0, a), Finish(0), Clone(0, 1));
    RunsOn<R>(Initial(1024), [Create(0), Extend(0, 1, 0), Swap(0)],
              [Write(0, 0, a), Finish(0), Clone(0, 1)]);
  }

  lemma RunOfThree<R>(w: World<R>, e: Event<R>, f: Event<R>, g: Event<R>)
    requires Enabled(w, e) && Enabled(Apply(w, e), f) && Enabled(Apply(Apply(w, e), f), g)
    ensures Runs(w, [e, f, g])
    ensures After(w, [e, f, g]) == Apply(Apply(Apply(w, e), f), g)
    ensures Exact(w, e) && Exact(Apply(w, e), f) && Exact(Apply(Apply(w, e), f), g) ==> ExactRun(w, [e, f, g])
  {
    var u := Apply(Apply(w, e), f);
    RunFront(u, g, []);
    RunFront(Apply(w, e), f, [g]);
    RunFront(w, e, [f, g]);
    assert [g] + [] == [g] && [f] + [g] == [f, g] && [e] + [f, g] == [e, f, g];
  }

  lemma RunFront<R>(w: World<R>, e: Event<R>, es: seq<Event<R>>)
    requires Enabled(w, e) && Runs(Apply(w, e), es)
    ensures Runs(w, [e] + es) && After(w, [e] + es) == After(Apply(w, e), es)
    ensures Exact(w, e) && ExactRun(Apply(w, e), es) ==> ExactRun(w, [e] + es)
  {
    assert ([e] + es)[1..] == es;
  }

  /** An exact run after an exact run is an exact run. */
  lemma {:induction false} RunsOn<R>(w: World<R>, es: seq<Event<R>>, fs: seq<Event<R>>)
    requires Runs(w, es) && ExactRun(w, es)
    requires Runs(After(w, es), fs) && ExactRun(After(w, es), fs)
    ensures Runs(w, es + fs) && ExactRun(w, es + fs)
    ensures After(w, es + fs) == After(After(w, es), fs)
    decreases es
  {
    if es == [] {
      assert es + fs == fs;
    } else {
      assert (es + fs)[1..] == es[1..] + fs;
      RunsOn(Apply(w, es[0]), es[1..], fs);
    }
  }
}
