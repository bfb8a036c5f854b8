/** Runs of the token registry: threads start, claim their token, look tokens up, cancel, check,
  * drop references and exit in any interleaving, and deleters run any time after the last
  * reference is gone. Thread ids are reused. */
module InterruptibleRuns {
  import opened Wrappers
  import opened Interruptible

  /** A thread by a key of its own; the id may have belonged to a thread that has exited. */
  type ThreadKey = nat

  datatype Thread = Thread(id: ThreadId, token: Option<TokenId>)

  /** `claims` records which thread claimed a token, for good; `current` the newest token made for
    * an id; `started` every thread that ever ran. */
  datatype World = World(
    store: Store,
    threads: map<ThreadKey, Thread>,
    started: set<ThreadKey>,
    claims: map<TokenId, ThreadKey>,
    current: map<ThreadId, TokenId>)

  const INITIAL := World(Store(map[], map[], 0), map[], {}, map[], map[])

  datatype Event =
    | Start(t: ThreadKey, id: ThreadId)
    | Claim(t: ThreadKey)
    | GetById(id: ThreadId)
    | Cancel(k: TokenId)
    | Check(t: ThreadKey)
    | Drop(k: TokenId)
    | Exit(t: ThreadKey)
    | Delete(k: TokenId)

  ghost predicate Owned(w: World, k: TokenId) {
    exists t :: t in w.threads && w.threads[t].token == Some(k)
  }

  /** `k` is referenced from outside thread-local storage. */
  ghost predicate Held(w: World, k: TokenId) {
    w.store.Live(k) && (Owned(w, k) ==> w.store.tokens[k].refs > 1)
  }

  ghost predicate Enabled(w: World, e: Event) {
    match e
    case Start(t, id) =>
      t !in w.started && forall u :: u in w.threads ==> w.threads[u].id != id
    case Claim(t) => t in w.threads && w.threads[t].token == None
    case GetById(_) => true
    case Cancel(k) => w.store.Live(k)
    case Check(t) => t in w.threads && w.threads[t].token.Some? && w.threads[t].token.value in w.store.tokens
    case Drop(k) => Held(w, k)
    case Exit(t) => t in w.threads && (w.threads[t].token.Some? ==> w.store.Live(w.threads[t].token.value))
    case Delete(k) => w.store.Expired(k)
  }

  function Created(w: World, claim: bool, id: ThreadId): map<ThreadId, TokenId> {
    if w.store.Creates(claim, id) then w.current[id := w.store.next] else w.current
  }

  ghost function Apply(w: World, e: Event): World
    requires Enabled(w, e)
  {
    match e
    case Start(t, id) =>
      w.(threads := w.threads[t := Thread(id, None)], started := w.started + {t})
    case Claim(t) =>
      var id := w.threads[t].id;
      var k := w.store.Returned(true, id);
      World(w.store.GetToken(true, id), w.threads[t := Thread(id, Some(k))], w.started,
            w.claims[k := t], Created(w, true, id))
    case GetById(id) =>
      w.(store := w.store.GetToken(false, id), current := Created(w, false, id))
    case Cancel(k) =>
      w.(store := w.store.SetFlag(k, false))
    case Check(t) => w.(store := w.store.SetFlag(w.threads[t].token.value, true))
    case Drop(k) => w.(store := w.store.Release(k))
    case Exit(t) =>
      var rest := w.(threads := w.threads - {t});
      if w.threads[t].token.None? then rest
      else rest.(store := w.store.Release(w.threads[t].token.value))
    case Delete(k) => w.(store := w.store.Delete(k))
  }

  // ---------------------------------------------------------------- the invariant

  /** The registry leads from an id to its newest token, and cannot lose a live one. */
  ghost predicate EntriesInv(s: Store, current: map<ThreadId, TokenId>) {
    && (forall k :: k in s.tokens ==> k < s.next)
    && (forall id :: id in s.entries ==>
          s.entries[id] in s.tokens && s.tokens[s.entries[id]].id == id)
    && (forall id :: id in s.entries ==> id in current && current[id] == s.entries[id])
    && (forall id :: id in current && s.Live(current[id]) ==> id in s.entries)
    && (forall id :: id in current ==> current[id] < s.next)
  }

  /** A running thread that has claimed finds its own live token under its id. */
  ghost predicate ThreadsInv(w: World) {
    && (forall t :: t in w.threads ==> t in w.started)
    && (forall t, u :: t in w.threads && u in w.threads && w.threads[t].id == w.threads[u].id ==> t == u)
    && (forall t :: t in w.threads && w.threads[t].token.Some? ==>
          OwnsToken(w, t, w.threads[t].token.value))
  }

  ghost predicate OwnsToken(w: World, t: ThreadKey, k: TokenId)
    requires t in w.threads
  {
    && w.store.Live(k)
    && w.threads[t].id in w.store.entries && w.store.entries[w.threads[t].id] == k
    && k in w.claims && w.claims[k] == t
  }

  /** The claim flags agree with the record of claims, and a thread claims once. */
  ghost predicate ClaimsInv(w: World) {
    && (forall k :: k in w.store.tokens ==> (w.store.tokens[k].claimed <==> k in w.claims))
    && (forall k :: k in w.claims ==> k < w.store.next && w.claims[k] in w.started)
    && (forall k, l :: k in w.claims && l in w.claims && w.claims[k] == w.claims[l] ==> k == l)
    && (forall k :: k in w.claims && w.claims[k] in w.threads ==> w.threads[w.claims[k]].token == Some(k))
  }

  ghost predicate Inv(w: World) {
    EntriesInv(w.store, w.current) && ThreadsInv(w) && ClaimsInv(w)
  }

  lemma GetTokenKeepsEntries(w: World, claim: bool, id: ThreadId)
    requires EntriesInv(w.store, w.current)
    ensures EntriesInv(w.store.GetToken(claim, id), Created(w, claim, id))
  {
  }

  lemma DeleteKeepsEntries(s: Store, current: map<ThreadId, TokenId>, k: TokenId)
    requires EntriesInv(s, current) && s.Expired(k)
    ensures EntriesInv(s.Delete(k), current)
  {
  }

  lemma ClaimIsNew(w: World, t: ThreadKey)
    requires Inv(w) && Enabled(w, Claim(t))
    ensures w.store.Returned(true, w.threads[t].id) !in w.claims
  {
  }

  lemma StartKeepsInv(w: World, t: ThreadKey, id: ThreadId)
    requires Inv(w) && Enabled(w, Start(t, id))
    ensures Inv(Apply(w, Start(t, id)))
  {
  }

  lemma ClaimKeepsInv(w: World, t: ThreadKey)
    requires Inv(w) && Enabled(w, Claim(t))
    ensures Inv(Apply(w, Claim(t)))
  {
    GetTokenKeepsEntries(w, true, w.threads[t].id);
    ClaimKeepsThreads(w, t);
    ClaimKeepsClaims(w, t);
  }

  lemma ClaimKeepsThreads(w: World, t: ThreadKey)
    requires Inv(w) && Enabled(w, Claim(t))
    ensures ThreadsInv(Apply(w, Claim(t)))
  {
    var v := Apply(w, Claim(t));
    forall u | u in v.threads && v.threads[u].token.Some?
      ensures OwnsToken(v, u, v.threads[u].token.value)
    {
      assert u == t || w.threads[u].id != w.threads[t].id;
    }
  }

  lemma ClaimKeepsClaims(w: World, t: ThreadKey)
    requires Inv(w) && Enabled(w, Claim(t))
    ensures ClaimsInv(Apply(w, Claim(t)))
  {
    ClaimIsNew(w, t);
  }

  lemma GetByIdKeepsInv(w: World, id: ThreadId)
    requires Inv(w)
    ensures Inv(Apply(w, GetById(id)))
  {
    var v := Apply(w, GetById(id));
    GetTokenKeepsEntries(w, false, id);
    assert ThreadsInv(v) by {
      forall u | u in v.threads && v.threads[u].token.Some?
        ensures OwnsToken(v, u, v.threads[u].token.value)
      {
        assert OwnsToken(w, u, w.threads[u].token.value);
      }
    }
    assert ClaimsInv(v);
  }

  lemma SetFlagKeepsInv(w: World, k: TokenId, go: bool)
    requires Inv(w) && k in w.store.tokens
    ensures Inv(w.(store := w.store.SetFlag(k, go)))
  {
  }

  lemma DropKeepsInv(w: World, k: TokenId)
    requires Inv(w) && Held(w, k)
    ensures Inv(Apply(w, Drop(k)))
  {
    var v := Apply(w, Drop(k));
    assert ThreadsInv(v) by {
      forall u | u in v.threads && v.threads[u].token.Some?
        ensures OwnsToken(v, u, v.threads[u].token.value)
      {
        assert OwnsToken(w, u, w.threads[u].token.value);
      }
    }
  }

  lemma ExitKeepsInv(w: World, t: ThreadKey)
    requires Inv(w) && Enabled(w, Exit(t))
    ensures Inv(Apply(w, Exit(t)))
  {
    var v := Apply(w, Exit(t));
    assert ThreadsInv(v) by {
      forall u | u in v.threads && v.threads[u].token.Some?
        ensures OwnsToken(v, u, v.threads[u].token.value)
      {
        assert OwnsToken(w, u, w.threads[u].token.value);
        assert w.threads[u].id != w.threads[t].id;
      }
    }
  }

  lemma DeleteKeepsInv(w: World, k: TokenId)
    requires Inv(w) && Enabled(w, Delete(k))
    ensures Inv(Apply(w, Delete(k)))
  {
    var v := Apply(w, Delete(k));
    DeleteKeepsEntries(w.store, w.current, k);
    assert ThreadsInv(v) by {
      forall u | u in v.threads && v.threads[u].token.Some?
        ensures OwnsToken(v, u, v.threads[u].token.value)
      {
        assert OwnsToken(w, u, w.threads[u].token.value);
      }
    }
  }

  /** Every step of every interleaving keeps the invariant. */
  lemma StepKeepsInv(w: World, e: Event)
    requires Inv(w) && Enabled(w, e)
    ensures Inv(Apply(w, e))
  {
    match e
    case Start(t, id) => StartKeepsInv(w, t, id);
    case Claim(t) => ClaimKeepsInv(w, t);
    case GetById(id) => GetByIdKeepsInv(w, id);
    case Cancel(k) => SetFlagKeepsInv(w, k, false);
    case Check(t) => SetFlagKeepsInv(w, w.threads[t].token.value, true);
    case Drop(k) => DropKeepsInv(w, k);
    case Exit(t) => ExitKeepsInv(w, t);
    case Delete(k) => DeleteKeepsInv(w, k);
  }

  // ---------------------------------------------------------------- runs

  /** Every event is enabled when its turn comes. */
  ghost predicate Runs(w: World, es: seq<Event>)
    decreases es
  {
    es == [] || (Enabled(w, es[0]) && Runs(Apply(w, es[0]), es[1..]))
  }

  ghost function After(w: World, es: seq<Event>): World
    requires Runs(w, es)
    decreases es
  {
    if es == [] then w else After(Apply(w, es[0]), es[1..])
  }

  lemma {:induction false} RunKeepsInv(w: World, es: seq<Event>)
    requires Inv(w) && Runs(w, es)
    ensures Inv(After(w, es))
    decreases es
  {
    if es == [] {
    } else {
      StepKeepsInv(w, es[0]);
      RunKeepsInv(Apply(w, es[0]), es[1..]);
    }
  }

  /** No thread is ever stuck: it can claim its token, and from then on check it, be cancelled through
    * it, and exit. Any id can be looked up, and what a lookup returns can be cancelled. */
  lemma NeverStuck(es: seq<Event>, t: ThreadKey, id: ThreadId)
    requires Runs(INITIAL, es)
    ensures var w := After(INITIAL, es);
      && (t in w.threads && w.threads[t].token.None? ==> Enabled(w, Claim(t)))
      && (t in w.threads && w.threads[t].token.Some? ==>
            Enabled(w, Check(t)) && Enabled(w, Cancel(w.threads[t].token.value)) && Enabled(w, Exit(t)))
      && Enabled(w, GetById(id))
      && Enabled(Apply(w, GetById(id)), Cancel(w.store.Returned(false, id)))
      && Enabled(Apply(w, GetById(id)), Drop(w.store.Returned(false, id)))
  {
    RunKeepsInv(INITIAL, es);
    var w := After(INITIAL, es);
    assert t in w.threads && w.threads[t].token.Some? ==> OwnsToken(w, t, w.threads[t].token.value);
    LookupIsHeld(w, id);
  }

  lemma LookupIsHeld(w: World, id: ThreadId)
    requires Inv(w)
    ensures Held(Apply(w, GetById(id)), w.store.Returned(false, id))
  {
  }

  // ---------------------------------------------------------------- the registry

  /** In every run, with deleters pending or not, an id whose newest token is live leads to that
    * token, and still does after whichever pending deleter runs next: no deleter erases the entry
    * of a live token. */
  lemma DeleterSparesLiveTokens(es: seq<Event>, id: ThreadId, k: TokenId)
    requires Runs(INITIAL, es)
    requires var w := After(INITIAL, es); id in w.current && w.store.Live(w.current[id])
    ensures var w := After(INITIAL, es); w.store.Lookup(id) == Some(w.current[id])
    ensures var w := After(INITIAL, es);
      Enabled(w, Delete(k)) ==> Apply(w, Delete(k)).store.Lookup(id) == Some(w.current[id])
  {
    RunKeepsInv(INITIAL, es);
    var w := After(INITIAL, es);
    LiveIsFound(w, id);
    if Enabled(w, Delete(k)) {
      LiveSurvivesDeleter(w, id, k);
    }
  }

  lemma LiveIsFound(w: World, id: ThreadId)
    requires Inv(w) && id in w.current && w.store.Live(w.current[id])
    ensures w.store.Lookup(id) == Some(w.current[id])
  {
  }

  lemma LiveSurvivesDeleter(w: World, id: ThreadId, k: TokenId)
    requires Inv(w) && id in w.current && w.store.Live(w.current[id]) && w.store.Expired(k)
    ensures Apply(w, Delete(k)).store.Lookup(id) == Some(w.current[id])
  {
    StepKeepsInv(w, Delete(k));
    LiveIsFound(Apply(w, Delete(k)), id);
  }

  /** In every reachable state without a deleter pending, the registered ids are exactly those
    * whose newest token is live, and each is registered with that token. */
  lemma RegistryExact(es: seq<Event>, id: ThreadId)
    requires Runs(INITIAL, es)
    requires forall k :: !After(INITIAL, es).store.Expired(k)
    ensures var w := After(INITIAL, es);
      && (id in w.store.entries <==> id in w.current && w.store.Live(w.current[id]))
      && (id in w.store.entries ==> w.store.entries[id] == w.current[id])
  {
    RunKeepsInv(INITIAL, es);
    var s := After(INITIAL, es).store;
    if id in s.entries {
      assert !s.Expired(s.entries[id]);
    }
  }

  // ---------------------------------------------------------------- claims

  lemma StepKeepsClaims(w: World, e: Event, k: TokenId)
    requires Inv(w) && Enabled(w, e) && k in w.claims
    ensures k in Apply(w, e).claims && Apply(w, e).claims[k] == w.claims[k]
  {
    if e.Claim? {
      ClaimIsNew(w, e.t);
    }
  }

  lemma {:induction false} ClaimsAreKept(w: World, es: seq<Event>, k: TokenId)
    requires Inv(w) && Runs(w, es) && k in w.claims
    ensures k in After(w, es).claims && After(w, es).claims[k] == w.claims[k]
    decreases es
  {
    if es == [] {
    } else {
      StepKeepsClaims(w, es[0], k);
      StepKeepsInv(w, es[0]);
      ClaimsAreKept(Apply(w, es[0]), es[1..], k);
    }
  }

  /** No token is claimed twice: a claim made later in any run returns another token, even when
    * the thread id is the same and the first token is still held. */
  lemma ClaimsAreDistinct(w: World, t: ThreadKey, es: seq<Event>, u: ThreadKey)
    requires Inv(w) && Enabled(w, Claim(t)) && Runs(Apply(w, Claim(t)), es)
    requires Enabled(After(Apply(w, Claim(t)), es), Claim(u))
    ensures var v := After(Apply(w, Claim(t)), es);
      w.store.Returned(true, w.threads[t].id) != v.store.Returned(true, v.threads[u].id)
  {
    var v := Apply(w, Claim(t));
    StepKeepsInv(w, Claim(t));
    RunKeepsInv(v, es);
    ClaimsAreKept(v, es, w.store.Returned(true, w.threads[t].id));
    ClaimIsNew(After(v, es), u);
  }

  /** Thread `t` holds the token `k` in its thread-local storage. */
  ghost predicate Owns(w: World, t: ThreadKey, k: TokenId) {
    t in w.threads && w.threads[t].token == Some(k)
  }

  /** A claimed token stays with its thread until the thread exits. */
  lemma {:induction false} TokenIsKept(w: World, es: seq<Event>, t: ThreadKey, k: TokenId)
    requires Inv(w) && Runs(w, es) && Exit(t) !in es && Owns(w, t, k)
    ensures Owns(After(w, es), t, k) && After(w, es).threads[t].id == w.threads[t].id
    decreases es
  {
    if es == [] {
    } else {
      assert es[0] in es;
      StepKeepsInv(w, es[0]);
      TokenIsKept(Apply(w, es[0]), es[1..], t, k);
    }
  }

  lemma OwnTokenIsRegistered(w: World, t: ThreadKey, k: TokenId)
    requires Inv(w) && Owns(w, t, k)
    ensures w.store.Live(k) && w.store.Lookup(w.threads[t].id) == Some(k)
  {
    assert OwnsToken(w, t, k);
  }

  /** From its claim until it exits, every lookup of a thread's id returns its own token. */
  lemma LookupFindsOwnToken(w: World, es: seq<Event>, t: ThreadKey, k: TokenId)
    requires Inv(w) && Runs(w, es) && Exit(t) !in es && Owns(w, t, k)
    ensures After(w, es).store.Returned(false, w.threads[t].id) == k
  {
    TokenIsKept(w, es, t, k);
    RunKeepsInv(w, es);
    OwnTokenIsRegistered(After(w, es), t, k);
  }

  // ---------------------------------------------------------------- cancels and checks

  /** Only a cancel of `k` clears the flag of a token that is not checked. */
  lemma StepFlag(w: World, e: Event, t: ThreadKey, k: TokenId)
    requires Inv(w) && Enabled(w, e) && Owns(w, t, k) && e != Exit(t) && e != Check(t)
    ensures k in w.store.tokens && k in Apply(w, e).store.tokens
    ensures Apply(w, e).store.tokens[k].go == (w.store.tokens[k].go && e != Cancel(k))
  {
    OwnTokenIsRegistered(w, t, k);
    if e.Check? && Owns(w, e.t, k) {
      OwnTokenIsRegistered(w, e.t, k);
    }
  }

  /** Between checks, the flag of a thread's token is clear exactly when a cancel has reached it. */
  lemma {:induction false} FlagTracksCancels(w: World, es: seq<Event>, t: ThreadKey, k: TokenId)
    requires Inv(w) && Runs(w, es) && Owns(w, t, k) && Exit(t) !in es && Check(t) !in es
    ensures k in w.store.tokens && k in After(w, es).store.tokens
    ensures After(w, es).store.tokens[k].go == (w.store.tokens[k].go && Cancel(k) !in es)
    decreases es
  {
    if es == [] {
      OwnTokenIsRegistered(w, t, k);
    } else {
      var e, v := es[0], Apply(w, es[0]);
      assert e in es && es == [e] + es[1..];
      StepFlag(w, e, t, k);
      StepKeepsInv(w, e);
      TokenIsKept(w, [e], t, k);
      FlagTracksCancels(v, es[1..], t, k);
    }
  }

  /** Two consecutive checks of a thread after one that left its flag set: each fails exactly when
    * a cancel came since the check before it. Any number of cancels between two checks makes
    * exactly one check fail. */
  lemma CancelsFailOneCheck(w: World, es: seq<Event>, later: seq<Event>, t: ThreadKey, k: TokenId)
    requires Inv(w) && Owns(w, t, k) && k in w.store.tokens && w.store.tokens[k].go
    requires Exit(t) !in es && Check(t) !in es && Exit(t) !in later && Check(t) !in later
    requires Runs(w, es) && Enabled(After(w, es), Check(t))
    requires Runs(Apply(After(w, es), Check(t)), later)
    ensures var first := After(w, es);
      var second := After(Apply(first, Check(t)), later);
      && k in first.store.tokens && k in second.store.tokens
      && (first.store.tokens[k].go <==> Cancel(k) !in es)
      && (second.store.tokens[k].go <==> Cancel(k) !in later)
  {
    FlagTracksCancels(w, es, t, k);
    TokenIsKept(w, es, t, k);
    RunKeepsInv(w, es);
    var first := After(w, es);
    StepKeepsInv(first, Check(t));
    FlagTracksCancels(Apply(first, Check(t)), later, t, k);
  }

  /** Some check of thread `t` in the run finds the flag of `k` clear: a synchronization that makes
    * these checks throws. */
  ghost predicate CheckFails(w: World, es: seq<Event>, t: ThreadKey, k: TokenId)
    requires Runs(w, es)
    decreases es
  {
    es != [] && (
      || (es[0] == Check(t) && k in w.store.tokens && !w.store.tokens[k].go)
      || CheckFails(Apply(w, es[0]), es[1..], t, k))
  }

  /** A cancel of `k` comes before some check of thread `t`. */
  ghost predicate CancelThenCheck(es: seq<Event>, t: ThreadKey, k: TokenId)
    decreases es
  {
    es != [] && ((es[0] == Cancel(k) && Check(t) in es[1..]) || CancelThenCheck(es[1..], t, k))
  }

  lemma CheckSetsFlag(w: World, t: ThreadKey, k: TokenId)
    requires Inv(w) && Enabled(w, Check(t)) && Owns(w, t, k)
    ensures k in w.store.tokens
    ensures Apply(w, Check(t)).store.tokens == w.store.tokens[k := w.store.tokens[k].(go := true)]
  {
  }

  /** However its checks, the cancels and everything else interleave: a synchronization throws
    * exactly when the flag was clear before its first check or a cancel precedes one of them. */
  lemma {:induction false} SynchronizeThrowsIff(w: World, es: seq<Event>, t: ThreadKey, k: TokenId)
    requires Inv(w) && Runs(w, es) && Owns(w, t, k) && Exit(t) !in es
    ensures k in w.store.tokens
    ensures CheckFails(w, es, t, k) <==>
      (!w.store.tokens[k].go && Check(t) in es) || CancelThenCheck(es, t, k)
    decreases es
  {
    OwnTokenIsRegistered(w, t, k);
    if es == [] {
    } else {
      var e, v := es[0], Apply(w, es[0]);
      assert e in es && es == [e] + es[1..];
      StepKeepsInv(w, e);
      TokenIsKept(w, [e], t, k);
      if e == Check(t) {
        CheckSetsFlag(w, t, k);
      } else {
        StepFlag(w, e, t, k);
      }
      SynchronizeThrowsIff(v, es[1..], t, k);
    }
  }

  // ---------------------------------------------------------------- cancels over whole runs

  /** The thread that claimed `k`, if any did, makes a check in `es`. */
  predicate Checked(es: seq<Event>, k: TokenId, claims: map<TokenId, ThreadKey>) {
    k in claims && Check(claims[k]) in es
  }

  /** A cancel of `k` comes with no check by its claimant after it. */
  ghost predicate Pending(es: seq<Event>, k: TokenId, claims: map<TokenId, ThreadKey>) {
    exists i :: 0 <= i < |es| && es[i] == Cancel(k) && !Checked(es[i..], k, claims)
  }

  lemma PendingFront(es: seq<Event>, k: TokenId, claims: map<TokenId, ThreadKey>)
    requires es != []
    ensures Pending(es, k, claims) <==>
      Pending(es[1..], k, claims) || (es[0] == Cancel(k) && !Checked(es[1..], k, claims))
    ensures Checked(es, k, claims) <==> (k in claims && es[0] == Check(claims[k])) || Checked(es[1..], k, claims)
  {
    assert es == [es[0]] + es[1..];
    forall i | 0 < i < |es|
      ensures es[i..] == es[1..][i - 1..] && es[i] == es[1..][i - 1]
    {
    }
    if Pending(es[1..], k, claims) {
      var j :| 0 <= j < |es[1..]| && es[1..][j] == Cancel(k) && !Checked(es[1..][j..], k, claims);
      assert es[j + 1] == Cancel(k) && !Checked(es[j + 1..], k, claims);
    }
    if es[0] == Cancel(k) && !Checked(es[1..], k, claims) {
      assert es[0..] == es;
    }
  }

  /** The flag of `k` in a store; a token that has not been made yet counts as set. */
  predicate Flag(s: Store, k: TokenId) {
    k in s.tokens ==> s.tokens[k].go
  }

  /** Cancels clear it, the claimant's checks set it, making the token leaves it set, and nothing else
    * changes it. `claims` are the claims that the run ends with. */
  lemma StepFlagOf(w: World, e: Event, k: TokenId, claims: map<TokenId, ThreadKey>)
    requires Inv(w) && Enabled(w, e) && (k in w.store.tokens || k >= w.store.next)
    requires forall l :: l in w.claims ==> l in claims && claims[l] == w.claims[l]
    requires forall l, m :: l in claims && m in claims && claims[l] == claims[m] ==> l == m
    requires e != Delete(k)
    ensures Flag(Apply(w, e).store, k) <==>
      e != Cancel(k) && ((k in claims && e == Check(claims[k])) || Flag(w.store, k))
    ensures k in Apply(w, e).store.tokens || k >= Apply(w, e).store.next
  {
    match e
    case Claim(t) => MadeIsSet(w.store, true, w.threads[t].id, k);
    case GetById(id) => MadeIsSet(w.store, false, id, k);
    case Check(t) => assert OwnsToken(w, t, w.threads[t].token.value);
    case _ =>
  }

  lemma MadeIsSet(s: Store, claim: bool, id: ThreadId, k: TokenId)
    requires k in s.tokens || k >= s.next
    requires forall l :: l in s.tokens ==> l < s.next
    ensures Flag(s.GetToken(claim, id), k) == Flag(s, k)
    ensures k in s.GetToken(claim, id).tokens || k >= s.GetToken(claim, id).next
  {
  }

  lemma {:induction false} DeletedStaysAway(w: World, es: seq<Event>, k: TokenId)
    requires Runs(w, es) && k < w.store.next && k !in w.store.tokens
    ensures k !in After(w, es).store.tokens
    decreases es
  {
    if es == [] {
    } else {
      DeletedStaysAway(Apply(w, es[0]), es[1..], k);
    }
  }

  lemma {:induction false} RunFlag(w: World, es: seq<Event>, k: TokenId)
    requires Inv(w) && Runs(w, es) && (k in w.store.tokens || k >= w.store.next)
    requires k in After(w, es).store.tokens
    ensures var claims := After(w, es).claims;
      After(w, es).store.tokens[k].go <==> !Pending(es, k, claims) && (Flag(w.store, k) || Checked(es, k, claims))
    decreases es
  {
    var claims := After(w, es).claims;
    if es == [] {
    } else {
      var e, v := es[0], Apply(w, es[0]);
      if e == Delete(k) {
        DeletedStaysAway(v, es[1..], k);
      } else {
        RunKeepsInv(w, es);
        forall l | l in w.claims
          ensures l in claims && claims[l] == w.claims[l]
        {
          ClaimsAreKept(w, es, l);
        }
        StepFlagOf(w, e, k, claims);
        StepKeepsInv(w, e);
        RunFlag(v, es[1..], k);
        PendingFront(es, k, claims);
      }
    }
  }

  /** In every run from the start, the flag of a stored token is clear exactly when a cancel of it came
    * after the last check by the thread that claimed it; without a cancel it is set. */
  lemma FlagIsClearIff(es: seq<Event>, k: TokenId)
    requires Runs(INITIAL, es) && k in After(INITIAL, es).store.tokens
    ensures !After(INITIAL, es).store.tokens[k].go <==> Pending(es, k, After(INITIAL, es).claims)
    ensures Cancel(k) !in es ==> After(INITIAL, es).store.tokens[k].go
  {
    RunFlag(INITIAL, es, k);
  }

  /** A synchronization that follows a run from the start throws exactly when a cancel of the thread's
    * token is pending and it makes a check, or another cancel precedes one of its checks; in particular
    * only if the token was cancelled, and not if the cancel came before an earlier check. */
  lemma ThrowsOnlyIfCancelled(es: seq<Event>, more: seq<Event>, t: ThreadKey, k: TokenId)
    requires Runs(INITIAL, es) && Owns(After(INITIAL, es), t, k)
    requires Runs(After(INITIAL, es), more) && Exit(t) !in more
    ensures CheckFails(After(INITIAL, es), more, t, k) <==>
      || (Check(t) in more && exists i :: 0 <= i < |es| && es[i] == Cancel(k) && Check(t) !in es[i..])
      || CancelThenCheck(more, t, k)
    ensures CheckFails(After(INITIAL, es), more, t, k) ==> Cancel(k) in es + more
  {
    var w := After(INITIAL, es);
    RunKeepsInv(INITIAL, es);
    OwnTokenIsRegistered(w, t, k);
    FlagIsClearIff(es, k);
    SynchronizeThrowsIff(w, more, t, k);
    assert w.claims[k] == t;
    if Pending(es, k, w.claims) {
      var i :| 0 <= i < |es| && es[i] == Cancel(k) && !Checked(es[i..], k, w.claims);
      assert es[i] == Cancel(k) && Check(t) !in es[i..];
    }
    if exists i :: 0 <= i < |es| && es[i] == Cancel(k) && Check(t) !in es[i..] {
      var i :| 0 <= i < |es| && es[i] == Cancel(k) && Check(t) !in es[i..];
      assert es[i] == Cancel(k) && !Checked(es[i..], k, w.claims);
    }
    if CancelThenCheck(more, t, k) {
      CancelIsInside(more, t, k);
    }
  }

  lemma {:induction false} CancelIsInside(es: seq<Event>, t: ThreadKey, k: TokenId)
    requires CancelThenCheck(es, t, k)
    ensures Cancel(k) in es
    decreases es
  {
    if es[0] != Cancel(k) {
      CancelIsInside(es[1..], t, k);
    }
  }

  // ---------------------------------------------------------------- references

  /** How many references to `k` the event hands out, or gives back. */
  ghost function Handed(w: World, e: Event, k: TokenId): int
    requires Enabled(w, e)
  {
    match e
    case Claim(t) => if Owns(Apply(w, e), t, k) then 1 else 0
    case GetById(id) => if Apply(w, e).store.Lookup(id) == Some(k) then 1 else 0
    case Drop(l) => if l == k then -1 else 0
    case Exit(t) => if Owns(w, t, k) then -1 else 0
    case _ => 0
  }

  ghost function HandedOver(w: World, es: seq<Event>, k: TokenId): int
    requires Runs(w, es)
    decreases es
  {
    if es == [] then 0 else Handed(w, es[0], k) + HandedOver(Apply(w, es[0]), es[1..], k)
  }

  /** The references to `k`; a token that is not stored has none. */
  function References(s: Store, k: TokenId): nat {
    if k in s.tokens then s.tokens[k].refs else 0
  }

  lemma StepCountsReferences(w: World, e: Event, k: TokenId)
    requires Inv(w) && Enabled(w, e)
    ensures References(Apply(w, e).store, k) == References(w.store, k) + Handed(w, e, k)
  {
    match e
    case Claim(t) => LookupCounts(w.store, true, w.threads[t].id, k);
    case GetById(id) => LookupCounts(w.store, false, id, k);
    case Exit(t) => assert w.threads[t].token.Some? ==> OwnsToken(w, t, w.threads[t].token.value);
    case _ =>
  }

  /** Every lookup hands out a reference to the token it returns, which it then leads to. */
  lemma LookupCounts(s: Store, claim: bool, id: ThreadId, k: TokenId)
    requires forall l :: l in s.tokens ==> l < s.next
    ensures var r, v := s.Returned(claim, id), s.GetToken(claim, id);
      v.Lookup(id) == Some(r) && References(v, k) == References(s, k) + if r == k then 1 else 0
  {
  }

  lemma {:induction false} RunCountsReferences(w: World, es: seq<Event>, k: TokenId)
    requires Inv(w) && Runs(w, es)
    ensures References(After(w, es).store, k) == References(w.store, k) + HandedOver(w, es, k)
    decreases es
  {
    if es == [] {
    } else {
      StepCountsReferences(w, es[0], k);
      StepKeepsInv(w, es[0]);
      RunCountsReferences(Apply(w, es[0]), es[1..], k);
    }
  }

  /** In every run from the start a token's count is that of the references handed out and not given
    * back, so a stored token awaits its deleter exactly when all are back. */
  lemma ReferencesAreCounted(es: seq<Event>, k: TokenId)
    requires Runs(INITIAL, es)
    ensures References(After(INITIAL, es).store, k) == HandedOver(INITIAL, es, k)
    ensures k in After(INITIAL, es).store.tokens ==>
      (Enabled(After(INITIAL, es), Delete(k)) <==> HandedOver(INITIAL, es, k) == 0)
  {
    RunCountsReferences(INITIAL, es, k);
  }

  // ---------------------------------------------------------------- cancels before the claim

  /** `k` is the token of `id`, live and not claimed by any thread yet. */
  ghost predicate Waiting(w: World, id: ThreadId, k: TokenId) {
    w.store.Lookup(id) == Some(k) && k !in w.claims
  }

  /** `k` can no longer be claimed: it was claimed before, or nothing refers to it. */
  ghost predicate Spent(w: World, k: TokenId) {
    k < w.store.next && (k in w.claims || !w.store.Live(k))
  }

  lemma StepWaiting(w: World, e: Event, id: ThreadId, k: TokenId)
    requires Inv(w) && Enabled(w, e) && Waiting(w, id, k) && !w.store.tokens[k].go
    ensures Spent(Apply(w, e), k)
         || (Waiting(Apply(w, e), id, k) && !Apply(w, e).store.tokens[k].go)
  {
    if e.Check? {
      WaitingIsUnowned(w, id, k, e.t);
    }
  }

  lemma WaitingIsUnowned(w: World, id: ThreadId, k: TokenId, t: ThreadKey)
    requires Inv(w) && Waiting(w, id, k)
    ensures !Owns(w, t, k)
  {
  }

  lemma StepSpent(w: World, e: Event, k: TokenId)
    requires Inv(w) && Enabled(w, e) && Spent(w, k)
    ensures Spent(Apply(w, e), k)
  {
    if k in w.claims {
      StepKeepsClaims(w, e, k);
    }
  }

  lemma {:induction false} RunWaiting(w: World, es: seq<Event>, id: ThreadId, k: TokenId)
    requires Inv(w) && Runs(w, es)
    requires Spent(w, k) || (Waiting(w, id, k) && !w.store.tokens[k].go)
    ensures Spent(After(w, es), k)
         || (Waiting(After(w, es), id, k) && !After(w, es).store.tokens[k].go)
    decreases es
  {
    if es == [] {
    } else {
      var e := es[0];
      if Spent(w, k) {
        StepSpent(w, e, k);
      } else {
        StepWaiting(w, e, id, k);
      }
      StepKeepsInv(w, e);
      RunWaiting(Apply(w, e), es[1..], id, k);
    }
  }

  /** The world after a cancel by id has found its token and cleared the flag. */
  ghost function Cancelled(w: World, id: ThreadId): World {
    var v := Apply(w, GetById(id));
    v.(store := v.store.SetFlag(w.store.Returned(false, id), false))
  }

  /** A cancel by id that comes before a thread with that id has claimed its token reaches the
    * thread exactly when, at the claim, the token it found is unclaimed and still referenced; then
    * the thread's first check fails. A token claimed by an earlier thread of the same id, or one
    * dropped before the claim, takes the cancel with it. */
  lemma EarlyCancel(w: World, id: ThreadId, es: seq<Event>, t: ThreadKey)
    requires Inv(w) && Runs(Cancelled(w, id), es)
    requires Enabled(After(Cancelled(w, id), es), Claim(t))
    requires After(Cancelled(w, id), es).threads[t].id == id
    ensures var k, v := w.store.Returned(false, id), After(Cancelled(w, id), es);
      var after := Apply(v, Claim(t));
      && (Owns(after, t, k) <==> v.store.Live(k) && k !in v.claims)
      && (Owns(after, t, k) ==> k in after.store.tokens && !after.store.tokens[k].go)
  {
    var k, v := w.store.Returned(false, id), Cancelled(w, id);
    CancelledIsWaiting(w, id);
    RunWaiting(v, es, id, k);
    RunKeepsInv(v, es);
    ClaimAfterCancel(After(v, es), id, t, k);
  }

  /** The same for the whole call, which drops its own reference at the end: it reaches the thread
    * exactly when its token is still unclaimed at the claim and some other holder has kept it live
    * until then. Without a live token to find, or if the one found is claimed already, the call is
    * lost whatever follows. */
  lemma CancelCall(w: World, id: ThreadId, es: seq<Event>, t: ThreadKey)
    requires Inv(w) && Runs(Called(w, id), es)
    requires Enabled(After(Called(w, id), es), Claim(t))
    requires After(Called(w, id), es).threads[t].id == id
    ensures var k, v := w.store.Returned(false, id), After(Called(w, id), es);
      var after := Apply(v, Claim(t));
      && (Owns(after, t, k) <==> v.store.Live(k) && k !in v.claims)
      && (Owns(after, t, k) ==> k in after.store.tokens && !after.store.tokens[k].go)
      && (Owns(after, t, k) ==> w.store.Lookup(id) == Some(k) && k !in w.claims)
  {
    var k, v := w.store.Returned(false, id), Cancelled(w, id);
    CallerHolds(w, id);
    CancelledIsWaiting(w, id);
    RunFront(v, Drop(k), es);
    EarlyCancel(w, id, [Drop(k)] + es, t);
    if w.store.Lookup(id).None? || k in w.claims {
      DropKeepsInv(v, k);
      LostAfterDrop(w, id);
      RunSpent(Called(w, id), es, k);
    }
  }

  /** The call can always drop its reference. */
  lemma CallerHolds(w: World, id: ThreadId)
    requires Inv(w)
    ensures Enabled(Cancelled(w, id), Drop(w.store.Returned(false, id)))
  {
  }

  /** The world after the whole call: lookup, clear and drop. */
  ghost function Called(w: World, id: ThreadId): World
    requires Inv(w)
  {
    CallerHolds(w, id);
    Apply(Cancelled(w, id), Drop(w.store.Returned(false, id)))
  }

  lemma LostAfterDrop(w: World, id: ThreadId)
    requires Inv(w)
    requires w.store.Lookup(id).None? || w.store.Returned(false, id) in w.claims
    ensures Spent(Called(w, id), w.store.Returned(false, id))
  {
  }

  lemma {:induction false} RunSpent(w: World, es: seq<Event>, k: TokenId)
    requires Inv(w) && Runs(w, es) && Spent(w, k)
    ensures Spent(After(w, es), k)
    decreases es
  {
    if es == [] {
    } else {
      StepSpent(w, es[0], k);
      StepKeepsInv(w, es[0]);
      RunSpent(Apply(w, es[0]), es[1..], k);
    }
  }

  lemma RunFront(w: World, e: Event, es: seq<Event>)
    requires Enabled(w, e) && Runs(Apply(w, e), es)
    ensures Runs(w, [e] + es) && After(w, [e] + es) == After(Apply(w, e), es)
  {
    assert ([e] + es)[1..] == es;
  }

  lemma CancelledIsWaiting(w: World, id: ThreadId)
    requires Inv(w)
    ensures Inv(Cancelled(w, id))
    ensures var k, v := w.store.Returned(false, id), Cancelled(w, id);
      Spent(v, k) || (Waiting(v, id, k) && !v.store.tokens[k].go)
  {
    GetByIdKeepsInv(w, id);
    SetFlagKeepsInv(Apply(w, GetById(id)), w.store.Returned(false, id), false);
  }

  lemma ClaimAfterCancel(w: World, id: ThreadId, t: ThreadKey, k: TokenId)
    requires Inv(w) && Enabled(w, Claim(t)) && w.threads[t].id == id
    requires Spent(w, k) || (Waiting(w, id, k) && !w.store.tokens[k].go)
    ensures var after := Apply(w, Claim(t));
      && (Owns(after, t, k) <==> w.store.Live(k) && k !in w.claims)
      && (Owns(after, t, k) ==> k in after.store.tokens && !after.store.tokens[k].go)
  {
    ClaimIsNew(w, t);
  }

  /** The cancel is lost when its caller keeps no reference: the token it cleared is gone before
    * the thread claims another, whose first check then succeeds. */
  lemma DroppedCancelIsLost()
    ensures var es := [Start(0, 7), GetById(7), Cancel(0), Drop(0), Delete(0), Claim(0)];
      Runs(INITIAL, es) && Owns(After(INITIAL, es), 0, 1) && After(INITIAL, es).store.tokens[1].go
  {
    var w := Apply(Apply(INITIAL, Start(0, 7)), GetById(7));
    var v := Apply(Apply(Apply(w, Cancel(0)), Drop(0)), Delete(0));
    assert v.store == Store(map[], map[], 1);
    RunFront(v, Claim(0), []);
    assert [Claim(0)] + [] == [Claim(0)];
    RunFront(Apply(Apply(w, Cancel(0)), Drop(0)), Delete(0), [Claim(0)]);
    RunFront(Apply(w, Cancel(0)), Drop(0), [Delete(0)] + [Claim(0)]);
    RunFront(w, Cancel(0), [Drop(0)] + ([Delete(0)] + [Claim(0)]));
    LostRunStarts(w, [Cancel(0)] + ([Drop(0)] + ([Delete(0)] + [Claim(0)])));
  }

  lemma LostRunStarts(w: World, es: seq<Event>)
    requires w == Apply(Apply(INITIAL, Start(0, 7)), GetById(7)) && Runs(w, es)
    ensures Runs(INITIAL, [Start(0, 7), GetById(7)] + es)
    ensures After(INITIAL, [Start(0, 7), GetById(7)] + es) == After(w, es)
  {
    RunFront(Apply(INITIAL, Start(0, 7)), GetById(7), es);
    RunFront(INITIAL, Start(0, 7), [GetById(7)] + es);
    assert [Start(0, 7)] + ([GetById(7)] + es) == [Start(0, 7), GetById(7)] + es;
  }
}
