/** The manager of per-device resources: parameters that may be set until the first resources are
  * built, components shared by all threads of a device, and a stream and a stream pool assigned to
  * each thread in round-robin fashion. */
module ResourcesManager {
  import opened Wrappers

  type ThreadKey = nat
  type DeviceId = nat
  type MemoryResource = nat

  const DEFAULT_POOL_SIZE: nat := 16

  datatype Workspace = Workspace(mr: MemoryResource, device: DeviceId)

  datatype Params = Params(
    streamCount: Option<nat>,
    poolCount: nat,
    poolSize: nat,
    initMemPoolSize: Option<nat>,
    maxMemPoolSize: Option<nat>,
    workspaces: seq<Workspace>)

  function DefaultParams(): Params {
    Params(None, 0, DEFAULT_POOL_SIZE, None, Some(0), [])
  }

  /** The first workspace resource that is registered for the device. */
  function WorkspaceFor(ws: seq<Workspace>, device: DeviceId): Option<MemoryResource> {
    if ws == [] then None
    else if ws[0].device == device then Some(ws[0].mr)
    else WorkspaceFor(ws[1..], device)
  }

  /** Replaces the device's workspace resource, or registers one. */
  function WithWorkspace(ws: seq<Workspace>, mr: MemoryResource, device: DeviceId): seq<Workspace> {
    if ws == [] then [Workspace(mr, device)]
    else if ws[0].device == device then [Workspace(mr, device)] + ws[1..]
    else [ws[0]] + WithWorkspace(ws[1..], mr, device)
  }

  lemma {:induction false} WorkspaceIsSet(ws: seq<Workspace>, mr: MemoryResource, device: DeviceId, other: DeviceId)
    ensures WorkspaceFor(WithWorkspace(ws, mr, device), other)
         == if other == device then Some(mr) else WorkspaceFor(ws, other)
  {
    if ws != [] && ws[0].device != device {
      WorkspaceIsSet(ws[1..], mr, device, other);
    }
  }

  /** What one device's threads share. A memory pool keeps the sizes it was asked for. */
  datatype Component = Component(
    device: DeviceId,
    streams: Option<nat>,
    pools: nat,
    poolSize: nat,
    memoryPool: Option<(Option<nat>, Option<nat>)>,
    workspace: Option<MemoryResource>)
  {
    function StreamCount(): nat {
      match streams
      case None => 0
      case Some(n) => n
    }
  }

  /** `plain` tells whether the device's current memory resource is the plain one, on which a pool
    * can be built. */
  function Build(device: DeviceId, p: Params, plain: bool): Component {
    Component(
      device,
      p.streamCount,
      if p.poolSize != 0 then p.poolCount else 0,
      p.poolSize,
      if p.maxMemPoolSize != Some(0) && plain then Some((p.initMemPoolSize, p.maxMemPoolSize)) else None,
      WorkspaceFor(p.workspaces, device))
  }

  datatype Stream = PerThreadDefault | Numbered(device: DeviceId, index: nat)

  datatype Pool = NoPool | PoolNumber(device: DeviceId, index: nat)

  datatype Resources = Resources(stream: Stream, pool: Pool, workspace: Option<MemoryResource>)

  /** `ids` holds the thread-local round-robin ids, `cache` the thread-local resources. */
  datatype State = State(
    params: Params,
    finalized: bool,
    components: seq<Component>,
    counter: nat,
    ids: map<ThreadKey, nat>,
    cache: map<(ThreadKey, DeviceId), Resources>)
  {
    /** Handing the thread an id, the first time it needs one. */
    function WithId(t: ThreadKey): State {
      if t in ids then this else this.(counter := counter + 1, ids := ids[t := counter + 1])
    }

    /** Sharing the device's component, building it if there is none. */
    function WithComponent(device: DeviceId, plain: bool): State {
      if Find(components, device) < |components| then this.(finalized := true)
      else this.(finalized := true, components := components + [Build(device, params, plain)])
    }

    /** The thread gets an id only if there is a stream or a pool to choose. */
    function Assigned(t: ThreadKey, c: Component): State {
      var s := if c.StreamCount() != 0 || c.pools != 0 then WithId(t) else this;
      s.(cache := s.cache[(t, c.device) := ResourcesOf(c, s.IdOf(t))])
    }

    function IdOf(t: ThreadKey): nat {
      if t in ids then ids[t] else 0
    }

    function GetResources(t: ThreadKey, device: DeviceId, plain: bool): State {
      if (t, device) in cache then this
      else
        var s := WithComponent(device, plain);
        var k := Find(s.components, device);
        if k < |s.components| then s.Assigned(t, s.components[k]) else s
    }

    function Set(p: Params): State {
      if finalized then this else this.(params := p)
    }
  }

  function Initial(): State {
    State(DefaultParams(), false, [], 0, map[], map[])
  }

  /** The position of the device's component, or the number of components. */
  function Find(cs: seq<Component>, device: DeviceId): (k: nat)
    ensures k <= |cs|
    ensures k < |cs| ==> cs[k].device == device
    ensures forall j :: 0 <= j < k ==> cs[j].device != device
  {
    if cs == [] || cs[0].device == device then 0 else 1 + Find(cs[1..], device)
  }

  function ResourcesOf(c: Component, id: nat): Resources {
    Resources(
      if c.StreamCount() != 0 then Numbered(c.device, id % c.StreamCount()) else PerThreadDefault,
      if c.pools != 0 then PoolNumber(c.device, id % c.pools) else NoPool,
      c.workspace)
  }

  // ---------------------------------------------------------------- the manager

  class Manager {
    var params: Params
    var finalized: bool
    var components: seq<Component>
    var counter: nat
    var ids: map<ThreadKey, nat>
    var cache: map<(ThreadKey, DeviceId), Resources>

    ghost function View(): State
      reads this
    {
      State(params, finalized, components, counter, ids, cache)
    }

    constructor ()
      ensures View() == Initial()
    {
      params, finalized, components := DefaultParams(), false, [];
      counter, ids, cache := 0, map[], map[];
    }

    method GetThreadId(t: ThreadKey) returns (id: nat)
      modifies this`counter, this`ids
      ensures View() == old(View()).WithId(t)
      ensures t in ids && id == ids[t]
    {
      if t !in ids {
        counter := counter + 1;
        ids := ids[t := counter];
      }
      id := ids[t];
    }

    method FindComponent(device: DeviceId) returns (k: nat)
      ensures k == Find(components, device)
    {
      k := 0;
      while k < |components| && components[k].device != device
        invariant 0 <= k <= |components|
        invariant forall j :: 0 <= j < k ==> components[j].device != device
      {
        k := k + 1;
      }
    }

    method GetStream(t: ThreadKey, c: Component) returns (s: Stream)
      modifies this`counter, this`ids
      ensures View() == if c.StreamCount() != 0 then old(View()).WithId(t) else old(View())
      ensures s == ResourcesOf(c, View().IdOf(t)).stream
    {
      s := PerThreadDefault;
      if c.StreamCount() != 0 {
        var id := GetThreadId(t);
        s := Numbered(c.device, id % c.StreamCount());
      }
    }

    method GetPool(t: ThreadKey, c: Component) returns (p: Pool)
      modifies this`counter, this`ids
      ensures View() == if c.pools != 0 then old(View()).WithId(t) else old(View())
      ensures p == ResourcesOf(c, View().IdOf(t)).pool
    {
      p := NoPool;
      if c.pools != 0 {
        var id := GetThreadId(t);
        p := PoolNumber(c.device, id % c.pools);
      }
    }

    method GetDeviceResources(t: ThreadKey, device: DeviceId, plain: bool) returns (r: Resources)
      modifies this
      ensures View() == old(View()).GetResources(t, device, plain)
      ensures (t, device) in cache && r == cache[(t, device)]
    {
      if (t, device) !in cache {
        finalized := true;
        var k := FindComponent(device);
        if k == |components| {
          AppendedIsFound(components, Build(device, params, plain));
          components := components + [Build(device, params, plain)];
        }
        var c := components[k];
        var stream := GetStream(t, c);
        var pool := GetPool(t, c);
        cache := cache[(t, device) := Resources(stream, pool, c.workspace)];
      }
      r := cache[(t, device)];
    }

    method SetStreamsPerDevice(n: Option<nat>)
      modifies this
      ensures View() == old(View()).Set(old(params).(streamCount := n))
    {
      if !finalized {
        params := params.(streamCount := n);
      }
    }

    method SetStreamPoolsPerDevice(pools: nat, streams: nat)
      modifies this
      ensures View() == old(View()).Set(old(params).(poolCount := pools, poolSize := streams))
    {
      if !finalized {
        params := params.(poolCount := pools, poolSize := streams);
      }
    }

    method SetMaxMemPoolSize(limit: Option<nat>)
      modifies this
      ensures View() == old(View()).Set(old(params).(maxMemPoolSize := limit))
    {
      if !finalized {
        params := params.(maxMemPoolSize := limit);
      }
    }

    method SetInitMemPoolSize(size: Option<nat>)
      modifies this
      ensures View() == old(View()).Set(old(params).(initMemPoolSize := size))
    {
      if !finalized {
        params := params.(initMemPoolSize := size);
      }
    }

    method SetWorkspaceMemoryResource(mr: MemoryResource, device: DeviceId)
      modifies this
      ensures View() ==
        old(View()).Set(old(params).(workspaces := WithWorkspace(old(params).workspaces, mr, device)))
    {
      if !finalized {
        var ws := params.workspaces;
        var k := 0;
        while k < |ws| && ws[k].device != device
          invariant 0 <= k <= |ws|
          invariant forall j :: 0 <= j < k ==> ws[j].device != device
        {
          k := k + 1;
        }
        WithWorkspaceAt(ws, mr, device, k);
        if k < |ws| {
          params := params.(workspaces := ws[k := Workspace(mr, device)]);
        } else {
          params := params.(workspaces := ws + [Workspace(mr, device)]);
        }
      }
    }
  }

  lemma {:induction false} WithWorkspaceAt(ws: seq<Workspace>, mr: MemoryResource, device: DeviceId, k: nat)
    requires k <= |ws| && (forall j :: 0 <= j < k ==> ws[j].device != device)
    requires k < |ws| ==> ws[k].device == device
    ensures WithWorkspace(ws, mr, device)
         == if k < |ws| then ws[k := Workspace(mr, device)] else ws + [Workspace(mr, device)]
  {
    if k > 0 {
      WithWorkspaceAt(ws[1..], mr, device, k - 1);
    }
  }

  lemma AppendedIsFound(cs: seq<Component>, c: Component)
    requires Find(cs, c.device) == |cs|
    ensures Find(cs + [c], c.device) == |cs|
  {
    var k := Find(cs + [c], c.device);
    assert (cs + [c])[|cs|] == c;
    assert forall j :: 0 <= j < |cs| ==> (cs + [c])[j] == cs[j];
  }
}
