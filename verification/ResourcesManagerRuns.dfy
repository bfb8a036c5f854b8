/** All interleavings of setters and getters from any number of threads, each locked section one
  * step. */
module ResourcesManagerRuns {
  import opened Wrappers
  import opened Bits
  import opened ResourcesManager

  datatype Event =
    | SetStreams(n: Option<nat>)
    | SetPools(pools: nat, streams: nat)
    | SetMaxMemPool(limit: Option<nat>)
    | SetInitMemPool(size: Option<nat>)
    | SetWorkspace(mr: MemoryResource, device: DeviceId)
    | Get(t: ThreadKey, d: DeviceId, plain: bool)

  function Apply(s: State, e: Event): State {
    match e
    case SetStreams(n) => s.Set(s.params.(streamCount := n))
    case SetPools(pools, streams) => s.Set(s.params.(poolCount := pools, poolSize := streams))
    case SetMaxMemPool(limit) => s.Set(s.params.(maxMemPoolSize := limit))
    case SetInitMemPool(size) => s.Set(s.params.(initMemPoolSize := size))
    case SetWorkspace(mr, device) => s.Set(s.params.(workspaces := WithWorkspace(s.params.workspaces, mr, device)))
    case Get(t, d, plain) => s.GetResources(t, d, plain)
  }

  function After(s: State, es: seq<Event>): State
    decreases |es|
  {
    if es == [] then s else After(Apply(s, es[0]), es[1..])
  }

  // ---------------------------------------------------------------- the invariant

  /** One component per device, each built from the parameters as they are now. */
  ghost predicate ComponentsInv(s: State) {
    && (s.components != [] ==> s.finalized)
    && (forall i, j :: 0 <= i < j < |s.components| ==> s.components[i].device != s.components[j].device)
    && (forall i :: 0 <= i < |s.components| ==> BuiltFrom(s.components[i], s.params))
  }

  predicate BuiltFrom(c: Component, p: Params) {
    c == Build(c.device, p, true) || c == Build(c.device, p, false)
  }

  /** The ids are the numbers from 1 to the counter, each given to one thread. */
  ghost predicate IdsInv(ids: map<ThreadKey, nat>, counter: nat) {
    && (forall t :: t in ids ==> 1 <= ids[t] <= counter)
    && (forall t, u :: t in ids && u in ids && ids[t] == ids[u] ==> t == u)
    && (forall n :: 1 <= n <= counter ==> HasHolder(ids, n))
  }

  ghost predicate HasHolder(ids: map<ThreadKey, nat>, n: nat) {
    exists t :: t in ids && ids[t] == n
  }

  /** Whatever a thread got for a device is what the component and the thread's id determine. */
  ghost predicate CacheInv(s: State) {
    forall t, d :: (t, d) in s.cache ==> CachedRight(s, t, d)
  }

  ghost predicate CachedRight(s: State, t: ThreadKey, d: DeviceId)
    requires (t, d) in s.cache
  {
    var k := Find(s.components, d);
    && k < |s.components|
    && s.cache[(t, d)] == ResourcesOf(s.components[k], s.IdOf(t))
    && (s.components[k].StreamCount() != 0 || s.components[k].pools != 0 ==> t in s.ids)
  }

  ghost predicate Inv(s: State) {
    ComponentsInv(s) && IdsInv(s.ids, s.counter) && CacheInv(s)
  }

  // ---------------------------------------------------------------- steps

  lemma FindAppended(cs: seq<Component>, c: Component, d: DeviceId)
    ensures Find(cs, d) < |cs| ==> Find(cs + [c], d) == Find(cs, d)
  {
    if Find(cs, d) < |cs| {
      var k := Find(cs + [c], d);
      assert forall j :: 0 <= j < |cs| ==> (cs + [c])[j] == cs[j];
      assert (cs + [c])[Find(cs, d)].device == d;
    }
  }

  lemma WithComponentKeepsInv(s: State, d: DeviceId, plain: bool)
    requires Inv(s)
    ensures Inv(s.WithComponent(d, plain))
    ensures Find(s.WithComponent(d, plain).components, d) < |s.WithComponent(d, plain).components|
  {
    var c := Build(d, s.params, plain);
    if Find(s.components, d) == |s.components| {
      AppendedIsFound(s.components, c);
      assert BuiltFrom(c, s.params);
    }
    forall u, e | (u, e) in s.cache
      ensures CachedRight(s.WithComponent(d, plain), u, e)
    {
      assert CachedRight(s, u, e);
      FindAppended(s.components, c, e);
    }
  }

  lemma FreshId(ids: map<ThreadKey, nat>, counter: nat, t: ThreadKey)
    requires IdsInv(ids, counter) && t !in ids
    ensures IdsInv(ids[t := counter + 1], counter + 1)
  {
    var more := ids[t := counter + 1];
    forall n | 1 <= n <= counter + 1
      ensures HasHolder(more, n)
    {
      if n == counter + 1 {
        assert t in more && more[t] == n;
      } else {
        assert HasHolder(ids, n);
        var u :| u in ids && ids[u] == n;
        assert u in more && more[u] == n;
      }
    }
  }

  lemma WithIdKeepsInv(s: State, t: ThreadKey)
    requires Inv(s)
    ensures Inv(s.WithId(t)) && t in s.WithId(t).ids
  {
    if t !in s.ids {
      FreshId(s.ids, s.counter, t);
    }
    forall u, e | (u, e) in s.cache
      ensures CachedRight(s.WithId(t), u, e)
    {
      assert CachedRight(s, u, e);
    }
  }

  lemma CachingKeepsInv(s: State, t: ThreadKey, k: nat)
    requires Inv(s) && k < |s.components| && k == Find(s.components, s.components[k].device)
    requires s.components[k].StreamCount() != 0 || s.components[k].pools != 0 ==> t in s.ids
    ensures var c := s.components[k]; Inv(s.(cache := s.cache[(t, c.device) := ResourcesOf(c, s.IdOf(t))]))
  {
    var c := s.components[k];
    var v := s.(cache := s.cache[(t, c.device) := ResourcesOf(c, s.IdOf(t))]);
    forall u, e | (u, e) in v.cache
      ensures CachedRight(v, u, e)
    {
      assert (u, e) in s.cache ==> CachedRight(s, u, e);
    }
  }

  lemma GetKeepsInv(s: State, t: ThreadKey, d: DeviceId, plain: bool)
    requires Inv(s)
    ensures Inv(s.GetResources(t, d, plain)) && (t, d) in s.GetResources(t, d, plain).cache
  {
    if (t, d) !in s.cache {
      WithComponentKeepsInv(s, d, plain);
      var v := s.WithComponent(d, plain);
      var k := Find(v.components, d);
      WithIdKeepsInv(v, t);
      if v.components[k].StreamCount() != 0 || v.components[k].pools != 0 {
        CachingKeepsInv(v.WithId(t), t, k);
      } else {
        CachingKeepsInv(v, t, k);
      }
    }
  }

  lemma CachedIsBuilt(s: State)
    requires Inv(s)
    ensures s.cache != map[] ==> s.components != []
  {
    forall u, e | (u, e) in s.cache
      ensures s.components != []
    {
      assert CachedRight(s, u, e);
    }
    if s.cache != map[] {
      var ue :| ue in s.cache;
      assert (ue.0, ue.1) in s.cache;
    }
  }

  lemma SetKeepsInv(s: State, p: Params)
    requires Inv(s)
    ensures Inv(s.Set(p))
  {
    CachedIsBuilt(s);
  }

  lemma StepKeepsInv(s: State, e: Event)
    requires Inv(s)
    ensures Inv(Apply(s, e))
  {
    match e
    case SetStreams(n) => SetKeepsInv(s, s.params.(streamCount := n));
    case SetPools(pools, streams) => SetKeepsInv(s, s.params.(poolCount := pools, poolSize := streams));
    case SetMaxMemPool(limit) => SetKeepsInv(s, s.params.(maxMemPoolSize := limit));
    case SetInitMemPool(size) => SetKeepsInv(s, s.params.(initMemPoolSize := size));
    case SetWorkspace(mr, d) => SetKeepsInv(s, s.params.(workspaces := WithWorkspace(s.params.workspaces, mr, d)));
    case Get(t, d, plain) => GetKeepsInv(s, t, d, plain);
  }

  lemma {:induction false} RunKeepsInv(s: State, es: seq<Event>)
    requires Inv(s)
    ensures Inv(After(s, es))
    decreases |es|
  {
    if es == [] {
    } else {
      StepKeepsInv(s, es[0]);
      RunKeepsInv(Apply(s, es[0]), es[1..]);
    }
  }

  // ---------------------------------------------------------------- what every run guarantees

  /** From the first build on, no setter changes the parameters, and no component is replaced. */
  lemma {:induction false} FrozenOnceBuilt(s: State, es: seq<Event>)
    requires s.finalized
    ensures After(s, es).finalized && After(s, es).params == s.params
    ensures s.components <= After(s, es).components
    decreases |es|
  {
    if es == [] {
    } else {
      StepFreezes(s, es[0]);
      FrozenOnceBuilt(Apply(s, es[0]), es[1..]);
    }
  }

  lemma StepFreezes(s: State, e: Event)
    requires s.finalized
    ensures Apply(s, e).finalized && Apply(s, e).params == s.params && s.components <= Apply(s, e).components
  {
    if e.Get? && (e.t, e.d) !in s.cache {
      var v := s.WithComponent(e.d, e.plain);
      assert v.finalized && v.params == s.params && s.components <= v.components;
    }
  }

  /** A thread that asks again for a device gets the same stream, pool and workspace. */
  lemma {:induction false} SameEveryTime(s: State, es: seq<Event>, t: ThreadKey, d: DeviceId)
    requires (t, d) in s.cache
    ensures (t, d) in After(s, es).cache && After(s, es).cache[(t, d)] == s.cache[(t, d)]
    decreases |es|
  {
    if es == [] {
    } else {
      StepKeepsCache(s, es[0], t, d);
      SameEveryTime(Apply(s, es[0]), es[1..], t, d);
    }
  }

  lemma StepKeepsCache(s: State, e: Event, t: ThreadKey, d: DeviceId)
    requires (t, d) in s.cache
    ensures (t, d) in Apply(s, e).cache && Apply(s, e).cache[(t, d)] == s.cache[(t, d)]
  {
    if e.Get? {
      var v := s.WithComponent(e.d, e.plain);
      assert v.cache == s.cache;
    }
  }

  lemma InitialInv()
    ensures Inv(Initial())
  {
  }

  /** In every run: what a thread holds for a device comes from that device's only component, which
    * was built from the frozen parameters. With `n` streams per device the thread's stream is its
    * round-robin number modulo `n`, on every device; without, it is the per-thread default. */
  lemma ResourcesAreDetermined(es: seq<Event>, t: ThreadKey, d: DeviceId)
    requires (t, d) in After(Initial(), es).cache
    ensures var s := After(Initial(), es);
      && s.finalized
      && (exists k :: 0 <= k < |s.components| && s.components[k].device == d && BuiltFrom(s.components[k], s.params)
            && s.cache[(t, d)].workspace == WorkspaceFor(s.params.workspaces, d)
            && forall j :: 0 <= j < |s.components| && s.components[j].device == d ==> j == k)
      && s.cache[(t, d)].stream == (match s.params.streamCount
           case None => PerThreadDefault
           case Some(n) => if n == 0 then PerThreadDefault else Numbered(d, s.IdOf(t) % n))
      && s.cache[(t, d)].pool ==
           (if s.params.poolSize == 0 || s.params.poolCount == 0 then NoPool
            else PoolNumber(d, s.IdOf(t) % s.params.poolCount))
  {
    InitialInv();
    RunKeepsInv(Initial(), es);
    var s := After(Initial(), es);
    assert CachedRight(s, t, d);
    var k := Find(s.components, d);
    assert BuiltFrom(s.components[k], s.params);
  }

  // ---------------------------------------------------------------- what the setters set

  lemma {:induction false} AfterOneMore(s: State, es: seq<Event>, e: Event)
    ensures After(s, es + [e]) == Apply(After(s, es), e)
    decreases |es|
  {
    if es == [] {
      assert [e][1..] == [] && es + [e] == [e];
      assert After(Apply(s, e), []) == Apply(s, e);
    } else {
      assert (es + [e])[1..] == es[1..] + [e];
      AfterOneMore(Apply(s, es[0]), es[1..], e);
    }
  }

  /** What the last event of a run that says something says. */
  function LastSaid<T>(es: seq<Event>, said: Event -> Option<T>, otherwise: T): T {
    if es == [] then otherwise
    else
      match said(es[|es| - 1])
      case Some(v) => v
      case None => LastSaid(es[..|es| - 1], said, otherwise)
  }

  function StreamsSaid(): Event -> Option<Option<nat>> {
    (e: Event) => if e.SetStreams? then Some(e.n) else None
  }

  function PoolsSaid(): Event -> Option<(nat, nat)> {
    (e: Event) => if e.SetPools? then Some((e.pools, e.streams)) else None
  }

  function MaxMemPoolSaid(): Event -> Option<Option<nat>> {
    (e: Event) => if e.SetMaxMemPool? then Some(e.limit) else None
  }

  function InitMemPoolSaid(): Event -> Option<Option<nat>> {
    (e: Event) => if e.SetInitMemPool? then Some(e.size) else None
  }

  function WorkspaceSaid(d: DeviceId): Event -> Option<Option<MemoryResource>> {
    (e: Event) => if e.SetWorkspace? && e.device == d then Some(Some(e.mr)) else None
  }

  predicate SettersOnly(es: seq<Event>) {
    forall i :: 0 <= i < |es| ==> !es[i].Get?
  }

  /** Before the first get every parameter is what its setter said last: the workspace resource of a
    * device, for example, what was last set for that device. Without a setter there are no streams,
    * no stream pools, no memory pool and no workspace resource. */
  lemma {:induction false} SettersTakeEffect(es: seq<Event>, d: DeviceId)
    requires SettersOnly(es)
    ensures var s := After(Initial(), es);
      && !s.finalized && s.components == [] && s.cache == map[]
      && s.params.streamCount == LastSaid(es, StreamsSaid(), None)
      && (s.params.poolCount, s.params.poolSize) == LastSaid(es, PoolsSaid(), (0, 16))
      && s.params.maxMemPoolSize == LastSaid(es, MaxMemPoolSaid(), Some(0))
      && s.params.initMemPoolSize == LastSaid(es, InitMemPoolSaid(), None)
      && WorkspaceFor(s.params.workspaces, d) == LastSaid(es, WorkspaceSaid(d), None)
  {
    if es == [] {
    } else {
      var front, e := es[..|es| - 1], es[|es| - 1];
      assert es == front + [e];
      AfterOneMore(Initial(), front, e);
      SettersTakeEffect(front, d);
      if e.SetWorkspace? {
        WorkspaceIsSet(After(Initial(), front).params.workspaces, e.mr, e.device, d);
      }
    }
  }

  /** The first get for a device in any run builds its component from the parameters as they are: a
    * memory pool exactly when the limit is not zero and the device's resource is the plain one. */
  lemma FirstGetBuilds(es: seq<Event>, t: ThreadKey, d: DeviceId, plain: bool)
    requires forall i :: 0 <= i < |After(Initial(), es).components| ==> After(Initial(), es).components[i].device != d
    ensures var s := After(Initial(), es);
      var v := Apply(s, Get(t, d, plain));
      && v.finalized && v.params == s.params && |v.components| == |s.components| + 1
      && s.components <= v.components
      && var c := v.components[|s.components|];
      && c.device == d && c.streams == s.params.streamCount && c.poolSize == s.params.poolSize
      && c.pools == (if s.params.poolSize == 0 then 0 else s.params.poolCount)
      && c.workspace == WorkspaceFor(s.params.workspaces, d)
      && (c.memoryPool.Some? <==> plain && s.params.maxMemPoolSize != Some(0))
      && (c.memoryPool.Some? ==> c.memoryPool.value == (s.params.initMemPoolSize, s.params.maxMemPoolSize))
      && (t, d) in v.cache
  {
    InitialInv();
    RunKeepsInv(Initial(), es);
    var s := After(Initial(), es);
    assert (t, d) in s.cache ==> CachedRight(s, t, d);
    GetKeepsInv(s, t, d, plain);
    AppendedIsFound(s.components, Build(d, s.params, plain));
  }

  /** On a cache miss a thread without an id draws the next one exactly when there is a stream or a
    * stream pool to choose; nothing else changes the ids. */
  lemma GetDrawsId(es: seq<Event>, t: ThreadKey, d: DeviceId, plain: bool)
    requires (t, d) !in After(Initial(), es).cache
    ensures var s := After(Initial(), es);
      var v := Apply(s, Get(t, d, plain));
      var streams := s.params.streamCount != None && s.params.streamCount != Some(0);
      var pools := s.params.poolSize != 0 && s.params.poolCount != 0;
      if t !in s.ids && (streams || pools) then v.counter == s.counter + 1 && v.ids == s.ids[t := s.counter + 1]
      else v.counter == s.counter && v.ids == s.ids
  {
    InitialInv();
    RunKeepsInv(Initial(), es);
    var s := After(Initial(), es);
    var c := GetAssigns(s, t, d, plain);
    ChoiceOf(c, s.params);
  }

  lemma GetAssigns(s: State, t: ThreadKey, d: DeviceId, plain: bool) returns (c: Component)
    requires Inv(s) && (t, d) !in s.cache
    ensures BuiltFrom(c, s.params)
    ensures var v := Apply(s, Get(t, d, plain));
      if t !in s.ids && (c.StreamCount() != 0 || c.pools != 0)
      then v.counter == s.counter + 1 && v.ids == s.ids[t := s.counter + 1]
      else v.counter == s.counter && v.ids == s.ids
  {
    WithComponentKeepsInv(s, d, plain);
    var w := s.WithComponent(d, plain);
    c := w.components[Find(w.components, d)];
    assert BuiltFrom(c, w.params) && w.params == s.params && w.ids == s.ids && w.counter == s.counter;
  }

  lemma ChoiceOf(c: Component, p: Params)
    requires BuiltFrom(c, p)
    ensures c.StreamCount() != 0 <==> p.streamCount != None && p.streamCount != Some(0)
    ensures c.pools != 0 <==> p.poolSize != 0 && p.poolCount != 0
  {
  }

  // ---------------------------------------------------------------- round robin

  /** How many of the ids from 1 to `n` are `k` modulo `count`. */
  function CountUpTo(n: nat, count: nat, k: nat): nat
    requires count > 0
  {
    if n == 0 then 0 else CountUpTo(n - 1, count, k) + if n % count == k then 1 else 0
  }

  lemma {:induction false} CountIs(n: nat, count: nat, k: nat)
    requires k < count
    ensures CountUpTo(n, count, k) == n / count + if 1 <= k <= n % count then 1 else 0
  {
    if n == 0 {
    } else {
      CountIs(n - 1, count, k);
      NextDivMod(n, count);
    }
  }

  lemma NextDivMod(n: nat, count: nat)
    requires n > 0 && count > 0
    ensures if n % count == 0 then n / count == (n - 1) / count + 1 && (n - 1) % count == count - 1
            else n / count == (n - 1) / count && n % count == (n - 1) % count + 1
  {
    var q, r := (n - 1) / count, (n - 1) % count;
    if r + 1 == count {
      DivModUnique(n, count, q + 1, 0);
    } else {
      DivModUnique(n, count, q, r + 1);
    }
  }

  /** The threads whose id is `k` modulo `count`: those that share stream number `k`. */
  ghost function Sharers(ids: map<ThreadKey, nat>, count: nat, k: nat): set<ThreadKey>
    requires count > 0
  {
    set t | t in ids && ids[t] % count == k
  }

  lemma WithoutLastHolder(ids: map<ThreadKey, nat>, n: nat, t: ThreadKey)
    requires IdsInv(ids, n) && n > 0 && t in ids && ids[t] == n
    ensures IdsInv(ids - {t}, n - 1)
  {
    var rest := ids - {t};
    forall m | 1 <= m <= n - 1
      ensures HasHolder(rest, m)
    {
      assert HasHolder(ids, m);
      var u :| u in ids && ids[u] == m;
      assert u in rest && rest[u] == m;
    }
  }

  lemma {:induction false} SharersAreCounted(ids: map<ThreadKey, nat>, n: nat, count: nat, k: nat)
    requires IdsInv(ids, n) && count > 0
    ensures |Sharers(ids, count, k)| == CountUpTo(n, count, k)
    decreases n
  {
    if n == 0 {
      assert Sharers(ids, count, k) == {};
    } else {
      assert HasHolder(ids, n);
      var t :| t in ids && ids[t] == n;
      WithoutLastHolder(ids, n, t);
      SharersAreCounted(ids - {t}, n - 1, count, k);
      OneSharerLess(ids, count, k, t);
    }
  }

  lemma OneSharerLess(ids: map<ThreadKey, nat>, count: nat, k: nat, t: ThreadKey)
    requires count > 0 && t in ids
    ensures |Sharers(ids, count, k)| == |Sharers(ids - {t}, count, k)| + if ids[t] % count == k then 1 else 0
  {
    var rest := Sharers(ids - {t}, count, k);
    assert Sharers(ids, count, k) == if ids[t] % count == k then rest + {t} else rest;
  }

  /** In every run, of all threads that hold a round-robin id, any two of the `count` streams are
    * shared by numbers of threads that differ by at most one. */
  lemma StreamsAreBalanced(es: seq<Event>, count: nat, j: nat, k: nat)
    requires j < count && k < count
    ensures var ids := After(Initial(), es).ids;
      |Sharers(ids, count, j)| <= |Sharers(ids, count, k)| + 1
  {
    InitialInv();
    RunKeepsInv(Initial(), es);
    var s := After(Initial(), es);
    SharersAreCounted(s.ids, s.counter, count, j);
    SharersAreCounted(s.ids, s.counter, count, k);
    CountIs(s.counter, count, j);
    CountIs(s.counter, count, k);
  }

  /** Only device `d` is used, and only its users hold ids. */
  ghost predicate OnlyDevice(s: State, d: DeviceId) {
    && (forall t, e :: (t, e) in s.cache ==> e == d)
    && (forall t :: t in s.ids ==> (t, d) in s.cache)
  }

  predicate GetsOnly(es: seq<Event>, d: DeviceId) {
    forall i :: 0 <= i < |es| && es[i].Get? ==> es[i].d == d
  }

  lemma StepStaysOnDevice(s: State, e: Event, d: DeviceId)
    requires OnlyDevice(s, d) && (e.Get? ==> e.d == d)
    ensures OnlyDevice(Apply(s, e), d)
  {
    if e.Get? && (e.t, d) !in s.cache {
      var v := s.WithComponent(d, e.plain);
      assert v.ids == s.ids && v.cache == s.cache;
    }
  }

  lemma {:induction false} RunStaysOnDevice(s: State, es: seq<Event>, d: DeviceId)
    requires OnlyDevice(s, d) && GetsOnly(es, d)
    ensures OnlyDevice(After(s, es), d)
    decreases |es|
  {
    if es == [] {
    } else {
      StepStaysOnDevice(s, es[0], d);
      RunStaysOnDevice(Apply(s, es[0]), es[1..], d);
    }
  }

  /** The threads that were given stream number `k` of device `d`. */
  ghost function UsersOf(s: State, d: DeviceId, k: nat): set<ThreadKey> {
    set td | td in s.cache && td.1 == d && s.cache[td].stream == Numbered(d, k) :: td.0
  }

  /** However many threads use a single device, its streams' loads differ by at most one. */
  lemma OneDeviceIsBalanced(es: seq<Event>, d: DeviceId, count: nat, j: nat, k: nat)
    requires GetsOnly(es, d) && j < count && k < count
    requires After(Initial(), es).params.streamCount == Some(count)
    ensures |UsersOf(After(Initial(), es), d, j)| <= |UsersOf(After(Initial(), es), d, k)| + 1
  {
    RunStaysOnDevice(Initial(), es, d);
    UsersAreSharers(es, d, count, j);
    UsersAreSharers(es, d, count, k);
    StreamsAreBalanced(es, count, j, k);
  }

  lemma UsersAreSharers(es: seq<Event>, d: DeviceId, count: nat, k: nat)
    requires OnlyDevice(After(Initial(), es), d) && k < count
    requires After(Initial(), es).params.streamCount == Some(count)
    ensures UsersOf(After(Initial(), es), d, k) == Sharers(After(Initial(), es).ids, count, k)
  {
    InitialInv();
    RunKeepsInv(Initial(), es);
    var s := After(Initial(), es);
    forall t | (t, d) in s.cache
      ensures t in s.ids && s.cache[(t, d)].stream == Numbered(d, s.ids[t] % count)
    {
      assert CachedRight(s, t, d);
      assert BuiltFrom(s.components[Find(s.components, d)], s.params);
    }
    forall t | t in Sharers(s.ids, count, k)
      ensures t in UsersOf(s, d, k)
    {
      assert (t, d) in s.cache;
    }
  }

  // ---------------------------------------------------------------- several devices

  /** Every get of the run is for one of the devices. */
  predicate GetsAmong(es: seq<Event>, ds: set<DeviceId>) {
    forall i :: 0 <= i < |es| && es[i].Get? ==> es[i].d in ds
  }

  /** On every device, any two of the `count` streams have loads that differ by at most one. */
  ghost predicate LoadsBalanced(s: State, count: nat) {
    forall d, j, k :: 0 <= j < count && 0 <= k < count ==> LoadsClose(s, d, j, k)
  }

  ghost predicate LoadsClose(s: State, d: DeviceId, j: nat, k: nat) {
    |UsersOf(s, d, j)| <= |UsersOf(s, d, k)| + 1
  }

  /** Whatever the run on these devices, it ends balanced when it ends with `count` streams. */
  ghost predicate AlwaysBalanced(ds: set<DeviceId>, count: nat) {
    forall es: seq<Event> | GetsAmong(es, ds) && After(Initial(), es).params.streamCount == Some(count) ::
      LoadsBalanced(After(Initial(), es), count)
  }

  lemma UnusedDeviceIsIdle(es: seq<Event>, d: DeviceId, e: DeviceId, k: nat)
    requires GetsOnly(es, d) && e != d
    ensures UsersOf(After(Initial(), es), e, k) == {}
  {
    RunStaysOnDevice(Initial(), es, d);
  }

  lemma OneDeviceLoads(es: seq<Event>, d: DeviceId, count: nat)
    requires GetsOnly(es, d) && After(Initial(), es).params.streamCount == Some(count)
    ensures LoadsBalanced(After(Initial(), es), count)
  {
    forall e, j, k | 0 <= j < count && 0 <= k < count
      ensures LoadsClose(After(Initial(), es), e, j, k)
    {
      if e == d {
        OneDeviceIsBalanced(es, d, count, j, k);
      } else {
        UnusedDeviceIsIdle(es, d, e, j);
      }
    }
  }

  lemma FewDevicesAreBalanced(ds: set<DeviceId>, count: nat)
    requires |ds| <= 1 || count == 1
    ensures AlwaysBalanced(ds, count)
  {
    forall es: seq<Event> | GetsAmong(es, ds) && After(Initial(), es).params.streamCount == Some(count)
      ensures LoadsBalanced(After(Initial(), es), count)
    {
      if |ds| <= 1 {
        var d := OnlyMember(ds);
        OneDeviceLoads(es, d, count);
      }
    }
  }

  lemma OnlyMember(ds: set<DeviceId>) returns (d: DeviceId)
    requires |ds| <= 1
    ensures forall e :: e in ds ==> e == d
  {
    d := 0;
    if ds != {} {
      d :| d in ds;
      assert |ds - {d}| == 0;
      assert ds == {d} + (ds - {d});
    }
  }

  lemma TwoMembers(ds: set<DeviceId>) returns (a: DeviceId, b: DeviceId)
    requires |ds| > 1
    ensures a in ds && b in ds && a != b
  {
    a :| a in ds;
    var rest := ds - {a};
    assert |rest| == |ds| - 1;
    b :| b in rest;
  }

  /** The first thread uses `a`, the next `n` use `b`. */
  function FillingRun(a: DeviceId, b: DeviceId, count: nat, n: nat): seq<Event> {
    if n == 0 then [SetStreams(Some(count)), Get(0, a, true)]
    else FillingRun(a, b, count, n - 1) + [Get(n, b, true)]
  }

  /** A thread without an id takes the next one when it asks for a device that has streams. */
  lemma FreshGet(s: State, t: ThreadKey, d: DeviceId, count: nat)
    requires Inv(s) && t !in s.ids && (t, d) !in s.cache && count > 0 && s.params.streamCount == Some(count)
    ensures var v := Apply(s, Get(t, d, true));
      && v.params == s.params && v.counter == s.counter + 1 && v.ids == s.ids[t := s.counter + 1]
      && v.cache.Keys == s.cache.Keys + {(t, d)}
  {
    WithComponentKeepsInv(s, d, true);
    var w := s.WithComponent(d, true);
    assert BuiltFrom(w.components[Find(w.components, d)], w.params);
  }

  /** Threads 0 to `n` have come in turn, the first for device `a` and the others for `b`. */
  ghost predicate Filled(s: State, a: DeviceId, b: DeviceId, count: nat, n: nat) {
    && Inv(s) && s.params.streamCount == Some(count) && s.counter == n + 1
    && (forall t :: t in s.ids <==> 0 <= t <= n)
    && (forall t :: t in s.ids ==> s.ids[t] == t + 1)
    && CachesOf(s.cache.Keys, a, b, n)
  }

  ghost predicate CachesOf(keys: set<(ThreadKey, DeviceId)>, a: DeviceId, b: DeviceId, n: nat) {
    forall t, d :: (t, d) in keys <==> 0 <= t <= n && d == if t == 0 then a else b
  }

  lemma NextCaches(keys: set<(ThreadKey, DeviceId)>, a: DeviceId, b: DeviceId, n: nat)
    requires CachesOf(keys, a, b, n)
    ensures CachesOf(keys + {(n + 1, b)}, a, b, n + 1)
  {
  }

  lemma FirstIsFilled(a: DeviceId, b: DeviceId, count: nat)
    requires count > 0
    ensures Filled(After(Initial(), FillingRun(a, b, count, 0)), a, b, count, 0)
  {
    var es: seq<Event> := [SetStreams(Some(count))];
    var s := Apply(Initial(), es[0]);
    InitialInv();
    AfterOneMore(Initial(), [], es[0]);
    assert [] + [es[0]] == es && FillingRun(a, b, count, 0) == es + [Get(0, a, true)];
    AfterOneMore(Initial(), es, Get(0, a, true));
    StepKeepsInv(Initial(), es[0]);
    FreshGet(s, 0, a, count);
    StepKeepsInv(s, Get(0, a, true));
  }

  lemma NextIsFilled(s: State, a: DeviceId, b: DeviceId, count: nat, n: nat)
    requires Filled(s, a, b, count, n) && count > 0
    ensures Filled(Apply(s, Get(n + 1, b, true)), a, b, count, n + 1)
  {
    assert n + 1 !in s.ids && (n + 1, b) !in s.cache.Keys;
    FreshGet(s, n + 1, b, count);
    StepKeepsInv(s, Get(n + 1, b, true));
    NextCaches(s.cache.Keys, a, b, n);
  }

  lemma {:induction false} FillingRunFills(a: DeviceId, b: DeviceId, count: nat, n: nat)
    requires count > 0
    ensures Filled(After(Initial(), FillingRun(a, b, count, n)), a, b, count, n)
  {
    if n == 0 {
      FirstIsFilled(a, b, count);
    } else {
      FillingRunFills(a, b, count, n - 1);
      AfterOneMore(Initial(), FillingRun(a, b, count, n - 1), Get(n, b, true));
      NextIsFilled(After(Initial(), FillingRun(a, b, count, n - 1)), a, b, count, n - 1);
    }
  }

  /** One thread on `a`, enough on `b` to go round all streams but one, and another on `a`. */
  function AlternatingRun(a: DeviceId, b: DeviceId, count: nat): seq<Event>
    requires count > 1
  {
    FillingRun(a, b, count, count - 1) + [Get(count, a, true)]
  }

  /** Both threads of `a` get its stream number 1, and nobody gets number 0. */
  lemma AlternatingLoads(a: DeviceId, b: DeviceId, count: nat)
    requires a != b && count > 1
    ensures var s := After(Initial(), AlternatingRun(a, b, count));
      s.params.streamCount == Some(count) && UsersOf(s, a, 0) == {} && UsersOf(s, a, 1) == {0, count}
  {
    var s := After(Initial(), FillingRun(a, b, count, count - 1));
    FillingRunFills(a, b, count, count - 1);
    AfterOneMore(Initial(), FillingRun(a, b, count, count - 1), Get(count, a, true));
    FreshGet(s, count, a, count);
    StepKeepsInv(s, Get(count, a, true));
    LastLoads(s, Apply(s, Get(count, a, true)), a, b, count);
  }

  lemma LastLoads(s: State, v: State, a: DeviceId, b: DeviceId, count: nat)
    requires a != b && count > 1 && Filled(s, a, b, count, count - 1) && Inv(v)
    requires v.params == s.params && v.ids == s.ids[count := count + 1]
    requires v.cache.Keys == s.cache.Keys + {(count, a)}
    ensures UsersOf(v, a, 0) == {} && UsersOf(v, a, 1) == {0, count}
  {
    Wraps(count);
    LastKeys(s.cache.Keys, v.cache.Keys, a, b, count);
    assert v.ids[0] == s.ids[0] == 1;
    OwnStream(v, 0, a, count);
    OwnStream(v, count, a, count);
    AllOnOne(v, a, {0, count});
  }

  lemma LastKeys(before: set<(ThreadKey, DeviceId)>, after: set<(ThreadKey, DeviceId)>,
                 a: DeviceId, b: DeviceId, count: nat)
    requires a != b && count > 1 && CachesOf(before, a, b, count - 1) && after == before + {(count, a)}
    ensures forall t :: (t, a) in after <==> t == 0 || t == count
  {
  }

  /** A thread's stream is its id, modulo the number of streams. */
  lemma OwnStream(s: State, t: ThreadKey, d: DeviceId, count: nat)
    requires Inv(s) && s.params.streamCount == Some(count) && count > 0 && t in s.ids && (t, d) in s.cache.Keys
    ensures (t, d) in s.cache && s.cache[(t, d)].stream == Numbered(d, s.ids[t] % count)
  {
    assert CachedRight(s, t, d);
    assert BuiltFrom(s.components[Find(s.components, d)], s.params);
  }

  /** If a device's users are `all` and hold its stream number 1, nobody holds number 0. */
  lemma AllOnOne(s: State, d: DeviceId, all: set<ThreadKey>)
    requires forall t :: (t, d) in s.cache.Keys <==> t in all
    requires forall t :: t in all ==> s.cache[(t, d)].stream == Numbered(d, 1)
    ensures UsersOf(s, d, 0) == {} && UsersOf(s, d, 1) == all
  {
    forall t | t in all
      ensures t in UsersOf(s, d, 1)
    {
      assert (t, d) in s.cache;
    }
  }

  lemma Wraps(count: nat)
    requires count > 1
    ensures 1 % count == 1 && (count + 1) % count == 1
  {
    DivModUnique(1, count, 0, 1);
    DivModUnique(count + 1, count, 1, 1);
  }

  lemma AlternatingGets(a: DeviceId, b: DeviceId, count: nat, n: nat)
    ensures GetsAmong(FillingRun(a, b, count, n), {a, b})
  {
  }

  lemma SeveralDevicesAreNot(ds: set<DeviceId>, count: nat)
    requires |ds| > 1 && count > 1
    ensures !AlwaysBalanced(ds, count)
  {
    var a, b := TwoMembers(ds);
    var es := AlternatingRun(a, b, count);
    AlternatingGets(a, b, count, count - 1);
    AlternatingLoads(a, b, count);
    assert GetsAmong(es, ds);
    assert !LoadsClose(After(Initial(), es), a, 1, 0);
    assert !LoadsBalanced(After(Initial(), es), count);
  }

  /** The streams of every device are always loaded within one of each other exactly when at most
    * one device is in use or there is a single stream: ids are drawn per thread, not per device. */
  lemma BalancedIff(ds: set<DeviceId>, count: nat)
    requires count > 0
    ensures AlwaysBalanced(ds, count) <==> |ds| <= 1 || count == 1
  {
    if |ds| <= 1 || count == 1 {
      FewDevicesAreBalanced(ds, count);
    } else {
      SeveralDevicesAreNot(ds, count);
    }
  }

  /** The smallest run that loses the balance: three threads, two devices, two streams. */
  lemma TwoDevicesUnbalanced()
    ensures AlternatingRun(0, 1, 2)
         == [SetStreams(Some(2)), Get(0, 0, true), Get(1, 1, true), Get(2, 0, true)]
    ensures UsersOf(After(Initial(), AlternatingRun(0, 1, 2)), 0, 0) == {}
    ensures UsersOf(After(Initial(), AlternatingRun(0, 1, 2)), 0, 1) == {0, 2}
  {
    AlternatingLoads(0, 1, 2);
  }
}
