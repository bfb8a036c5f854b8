/** Cancellation tokens and the registry that maps a thread id to its current token. Reference
  * counts, weak pointers and deleters are explicit: a token without references is expired, and
  * stays in the store until its deleter has run. */
module Interruptible {
  import opened Wrappers

  type ThreadId = nat
  type TokenId = nat

  /** `go` is the flag `continue_`: set while the thread may continue, cleared by a cancel. */
  datatype Token = Token(id: ThreadId, claimed: bool, go: bool, refs: nat)

  /** The store of tokens not yet deleted, and the registry of weak pointers to them. */
  datatype Store = Store(
    tokens: map<TokenId, Token>,
    entries: map<ThreadId, TokenId>,
    next: TokenId)
  {
    /** Locking a weak pointer to `k` succeeds. */
    predicate Live(k: TokenId) {
      k in tokens && tokens[k].refs > 0
    }

    predicate Expired(k: TokenId) {
      k in tokens && tokens[k].refs == 0
    }

    /** The token that the entry of `id` leads to, if locking it succeeds. */
    function Lookup(id: ThreadId): Option<TokenId> {
      if id in entries && Live(entries[id]) then Some(entries[id]) else None
    }

    /** Whether `get_token_impl` makes a new token. */
    predicate Creates(claim: bool, id: ThreadId) {
      var found := Lookup(id);
      found.None? || (claim && tokens[found.value].claimed)
    }

    function Returned(claim: bool, id: ThreadId): TokenId {
      if Creates(claim, id) then next else Lookup(id).value
    }

    /** The store after `get_token_impl<claim>(id)`. */
    function GetToken(claim: bool, id: ThreadId): Store {
      if Creates(claim, id) then
        Store(tokens[next := Token(id, claim, true, 1)], entries[id := next], next + 1)
      else
        var k := Lookup(id).value;
        var t := tokens[k];
        this.(tokens := tokens[k := t.(claimed := t.claimed || claim, refs := t.refs + 1)])
    }

    /** Dropping one reference to `k`. */
    function Release(k: TokenId): Store
      requires Live(k)
    {
      this.(tokens := tokens[k := tokens[k].(refs := tokens[k].refs - 1)])
    }

    /** The custom deleter of the expired token `k`. */
    function Delete(k: TokenId): Store
      requires Expired(k)
    {
      var id := tokens[k].id;
      var erase := id in entries && (!Live(entries[id]) || entries[id] == k);
      Store(tokens - {k}, if erase then entries - {id} else entries, next)
    }

    function SetFlag(k: TokenId, go: bool): Store
      requires k in tokens
    {
      this.(tokens := tokens[k := tokens[k].(go := go)])
    }
  }

  datatype Status = Ready | NotReady | Error

  datatype Outcome = Finished(status: Status) | Interrupted

  /** What `synchronize_impl` reports when check number `n` is the first that fails or is followed
    * by a query that does not say "not ready". */
  ghost predicate StopsAt(flags: nat -> bool, query: nat -> Status, n: nat, outcome: Outcome) {
    && (forall i: nat :: i < n ==> flags(i) && query(i) == NotReady)
    && if flags(n) then query(n) != NotReady && outcome == Finished(query(n))
       else outcome == Interrupted
  }

  /** So it is interrupted exactly when some check fails before any query has finished, and reports the
    * first finished query exactly when every check up to it succeeds. */
  lemma OutcomeIs(flags: nat -> bool, query: nat -> Status, n: nat, outcome: Outcome)
    requires StopsAt(flags, query, n, outcome)
    ensures outcome == Interrupted <==> exists m: nat :: !flags(m) && forall i: nat :: i < m ==> query(i) == NotReady
    ensures forall s :: outcome == Finished(s) <==>
      exists m: nat :: && query(m) == s != NotReady && (forall i: nat :: i < m ==> query(i) == NotReady)
                       && forall i: nat :: i <= m ==> flags(i)
  {
  }

  class Registry {
    var tokens: map<TokenId, Token>
    var entries: map<ThreadId, TokenId>
    var next: TokenId

    ghost function View(): Store
      reads this
    {
      Store(tokens, entries, next)
    }

    constructor ()
      ensures View() == Store(map[], map[], 0)
    {
      tokens, entries, next := map[], map[], 0;
    }

    /** One locked section: find or make the token of `id`, and claim it if asked to. */
    method GetTokenImpl(claim: bool, id: ThreadId) returns (store: TokenId)
      modifies this
      ensures View() == old(View()).GetToken(claim, id)
      ensures store == old(View()).Returned(claim, id)
      ensures var found := id in old(entries) && old(View()).Live(old(entries)[id]);
        if !found || (claim && old(tokens)[old(entries)[id]].claimed) then
          && store == old(next) && next == old(next) + 1
          && tokens == old(tokens)[store := Token(id, claim, true, 1)] && entries == old(entries)[id := store]
        else
          && store == old(entries)[id] && next == old(next) && entries == old(entries)
          && tokens.Keys == old(tokens).Keys && tokens[store].refs == old(tokens)[store].refs + 1
    {
      var found: Option<TokenId> := None;
      if id in entries {
        var weak := entries[id];
        if weak in tokens && tokens[weak].refs > 0 {
          found := Some(weak);
        }
      }
      if found == None || (claim && tokens[found.value].claimed) {
        store := next;
        tokens := tokens[store := Token(id, false, true, 1)];
        entries := entries[id := store];
        next := next + 1;
      } else {
        store := found.value;
        tokens := tokens[store := tokens[store].(refs := tokens[store].refs + 1)];
      }
      if claim {
        tokens := tokens[store := tokens[store].(claimed := true)];
      }
    }

    method Release(k: TokenId)
      requires View().Live(k)
      modifies `tokens
      ensures View() == old(View()).Release(k)
    {
      tokens := tokens[k := tokens[k].(refs := tokens[k].refs - 1)];
    }

    /** The garbage collector of the registry, run some time after the last reference is gone. */
    method Delete(k: TokenId)
      requires View().Expired(k)
      modifies this
      ensures View() == old(View()).Delete(k)
      ensures tokens == old(tokens) - {k} && next == old(next)
      ensures forall id :: id in entries <==>
        && id in old(entries)
        && (id == old(tokens)[k].id ==> old(entries)[id] != k && old(View()).Live(old(entries)[id]))
      ensures forall id :: id in entries ==> entries[id] == old(entries)[id]
    {
      var id := tokens[k].id;
      if id in entries {
        var stored := entries[id];
        var locked := stored in tokens && tokens[stored].refs > 0;
        if !locked || stored == k {
          entries := entries - {id};
        }
      }
      tokens := tokens - {k};
    }

    method Cancel(k: TokenId)
      requires k in tokens
      modifies `tokens
      ensures View() == old(View()).SetFlag(k, false)
    {
      tokens := tokens[k := tokens[k].(go := false)];
    }

    /** Test-and-set of the flag: whether the thread may continue, and the flag is set again. */
    method YieldNoThrow(k: TokenId) returns (go: bool)
      requires k in tokens
      modifies `tokens
      ensures go == old(tokens[k].go)
      ensures View() == old(View()).SetFlag(k, true)
    {
      go := tokens[k].go;
      tokens := tokens[k := tokens[k].(go := true)];
    }
  }

  /** The polling loop of a synchronization: `flags(i)` is what check `i` finds, which depends on
    * the cancels made in between, and `query(i)` is the answer of poll `i`. It stops at the first
    * failed check or finished query, whichever comes first. */
  method Synchronize(flags: nat -> bool, query: nat -> Status, ghost bound: nat)
    returns (outcome: Outcome)
    requires !flags(bound) || query(bound) != NotReady
    ensures exists n: nat :: n <= bound && StopsAt(flags, query, n, outcome)
  {
    var n: nat := 0;
    while true
      invariant n <= bound
      invariant forall i: nat :: i < n ==> flags(i) && query(i) == NotReady
      decreases bound - n
    {
      if !flags(n) {
        assert StopsAt(flags, query, n, Interrupted);
        return Interrupted;
      }
      if query(n) != NotReady {
        assert StopsAt(flags, query, n, Finished(query(n)));
        return Finished(query(n));
      }
      n := n + 1;
    }
  }
}
