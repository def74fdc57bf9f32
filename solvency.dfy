/**
 * Refund accounting. For every pool, the refunds already paid plus the
 * contributions still recorded add up to exactly its `raised`; in particular
 * the refunds of a pool never exceed what it raised. The payment to the
 * supplier on finalization is accounted for separately, in `Payout`.
 */
module Solvency {
  import opened Types
  import T = Transitions
  import H = History

  type Key = (U32, Address)

  ghost function Pick(keys: set<Key>): Key
    requires keys != {}
  {
    var k :| k in keys; k
  }

  /** The sum of the entries of `c` under `keys`. */
  ghost function Sum(c: map<Key, I128>, keys: set<Key>): int
    requires keys <= c.Keys
    decreases keys
  {
    if keys == {} then 0
    else var k := Pick(keys); c[k] + Sum(c, keys - {k})
  }

  lemma {:induction false} SumRemove(c: map<Key, I128>, keys: set<Key>, k: Key)
    requires keys <= c.Keys && k in keys
    ensures Sum(c, keys) == c[k] + Sum(c, keys - {k})
    decreases keys
  {
    var j := Pick(keys);
    if j != k {
      SumRemove(c, keys - {j}, k);
      SumRemove(c, keys - {k}, j);
      assert keys - {j} - {k} == keys - {k} - {j};
    }
  }

  lemma {:induction false} SumFrame(c: map<Key, I128>, d: map<Key, I128>, keys: set<Key>)
    requires keys <= c.Keys && keys <= d.Keys
    requires forall k :: k in keys ==> c[k] == d[k]
    ensures Sum(c, keys) == Sum(d, keys)
    decreases keys
  {
    if keys != {} {
      SumFrame(c, d, keys - {Pick(keys)});
    }
  }

  lemma {:induction false} SumNonNegative(c: map<Key, I128>, keys: set<Key>)
    requires keys <= c.Keys
    requires forall k :: k in keys ==> 0 <= c[k]
    ensures 0 <= Sum(c, keys)
    decreases keys
  {
    if keys != {} {
      SumNonNegative(c, keys - {Pick(keys)});
    }
  }

  /** The keys of `c` that belong to pool `poolId`. */
  ghost function KeysOf(c: map<Key, I128>, poolId: U32): set<Key> {
    set k | k in c.Keys && k.0 == poolId
  }

  /** What a pool still owes its contributors if it ends up refunding them all. */
  ghost function Outstanding(c: map<Key, I128>, poolId: U32): int {
    Sum(c, KeysOf(c, poolId))
  }

  /** Adding `delta` to one user's entry (0 when absent) adds `delta` to the pool's outstanding total. */
  lemma OutstandingAfterAdd(c: map<Key, I128>, k: Key, v: I128, delta: int)
    requires v == (if k in c then c[k] else 0) + delta
    ensures Outstanding(c[k := v], k.0) == Outstanding(c, k.0) + delta
  {
    var d := c[k := v];
    var keys := KeysOf(c, k.0);
    assert KeysOf(d, k.0) == keys + {k};
    SumRemove(d, keys + {k}, k);
    assert keys + {k} - {k} == keys - {k};
    SumFrame(c, d, keys - {k});
    if k in c {
      SumRemove(c, keys, k);
    } else {
      assert keys - {k} == keys;
    }
  }

  /** Deleting one user's entry takes its value off the pool's outstanding total. */
  lemma OutstandingAfterRemove(c: map<Key, I128>, k: Key)
    requires k in c
    ensures Outstanding(c - {k}, k.0) == Outstanding(c, k.0) - c[k]
  {
    var keys := KeysOf(c, k.0);
    assert KeysOf(c - {k}, k.0) == keys - {k};
    SumRemove(c, keys, k);
    SumFrame(c, c - {k}, keys - {k});
  }

  /** A pool's outstanding total depends only on its own entries. */
  lemma OutstandingFrame(c: map<Key, I128>, d: map<Key, I128>, poolId: U32)
    requires KeysOf(c, poolId) == KeysOf(d, poolId)
    requires forall k :: k in KeysOf(c, poolId) ==> c[k] == d[k]
    ensures Outstanding(c, poolId) == Outstanding(d, poolId)
  {
    SumFrame(c, d, KeysOf(c, poolId));
  }

  /** The amount an event refunds from pool `poolId`. */
  function RefundAmount(e: Event, poolId: U32): int {
    match e
    case Refunded(id, _, amount) => if id == poolId then amount else 0
    case _ => 0
  }

  /** The total the event stream records as refunded from pool `poolId`. */
  function RefundedTotal(events: seq<Event>, poolId: U32): int
    decreases |events|
  {
    if events == [] then 0
    else RefundedTotal(events[..|events| - 1], poolId) + RefundAmount(events[|events| - 1], poolId)
  }

  lemma RefundedTotalAppend(events: seq<Event>, e: Event, poolId: U32)
    ensures RefundedTotal(events + [e], poolId) == RefundedTotal(events, poolId) + RefundAmount(e, poolId)
  {
    assert (events + [e])[..|events|] == events;
  }

  /** A pool no event names has had nothing refunded. */
  lemma {:induction false} RefundedTotalUnnamed(events: seq<Event>, poolId: U32)
    requires forall i :: 0 <= i < |events| ==> events[i].id != poolId
    ensures RefundedTotal(events, poolId) == 0
    decreases |events|
  {
    if events != [] {
      RefundedTotalUnnamed(events[..|events| - 1], poolId);
    }
  }

  /** For every pool: refunds paid plus contributions still recorded equal `raised`. */
  ghost predicate Solvent(s: T.Store) {
    forall id :: id in s.pools ==>
      Outstanding(s.contributions, id) + RefundedTotal(s.events, id) == s.pools[id].raised
  }

  lemma CreatePoolKeepsSolvent(s: T.Store, now: U64, creator: Address, token: Address,
                               supplier: Address, goal: I128, deadline: U64)
    requires T.Valid(s) && Solvent(s)
    requires T.CreatePool(s, now, creator, token, supplier, goal, deadline).Ok?
    ensures Solvent(T.CreatePool(s, now, creator, token, supplier, goal, deadline).value.0)
  {
    var (t, newId) := T.CreatePool(s, now, creator, token, supplier, goal, deadline).value;
    T.CreatePoolPreservesValid(s, now, creator, token, supplier, goal, deadline);
    forall id | id in t.pools
      ensures Outstanding(t.contributions, id) + RefundedTotal(t.events, id) == t.pools[id].raised
    {
      RefundedTotalAppend(s.events, PoolCreated(newId, t.pools[newId]), id);
      if id == newId {
        assert KeysOf(s.contributions, id) == {};
        RefundedTotalUnnamed(s.events, id);
      }
    }
  }

  lemma ContributeKeepsSolvent(s: T.Store, now: U64, poolId: U32, user: Address, amount: I128)
    requires Solvent(s) && T.Contribute(s, now, poolId, user, amount).Ok?
    ensures Solvent(T.Contribute(s, now, poolId, user, amount).value)
  {
    var t := T.Contribute(s, now, poolId, user, amount).value;
    var k := (poolId, user);
    T.ContributeEffect(s, now, poolId, user, amount);
    assert t.contributions == s.contributions[k := T.ContributionOf(t, poolId, user)];
    forall id | id in t.pools
      ensures Outstanding(t.contributions, id) + RefundedTotal(t.events, id) == t.pools[id].raised
    {
      RefundedTotalAppend(s.events, Contributed(poolId, user, amount), id);
      if id == poolId {
        OutstandingAfterAdd(s.contributions, k, T.ContributionOf(t, poolId, user), amount);
      } else {
        OutstandingFrame(s.contributions, t.contributions, id);
      }
    }
  }

  lemma FinalizeKeepsSolvent(s: T.Store, now: U64, poolId: U32, creator: Address)
    requires Solvent(s) && T.Finalize(s, now, poolId, creator).Ok?
    ensures Solvent(T.Finalize(s, now, poolId, creator).value)
  {
    var t := T.Finalize(s, now, poolId, creator).value;
    forall id | id in t.pools
      ensures Outstanding(t.contributions, id) + RefundedTotal(t.events, id) == t.pools[id].raised
    {
      RefundedTotalAppend(s.events, Finalized(poolId, s.pools[poolId].raised), id);
    }
  }

  lemma RefundKeepsSolvent(s: T.Store, now: U64, poolId: U32, user: Address)
    requires Solvent(s) && T.Refund(s, now, poolId, user).Ok?
    ensures Solvent(T.Refund(s, now, poolId, user).value.0)
  {
    var (t, amount) := T.Refund(s, now, poolId, user).value;
    var k := (poolId, user);
    assert t.contributions == s.contributions - {k};
    forall id | id in t.pools
      ensures Outstanding(t.contributions, id) + RefundedTotal(t.events, id) == t.pools[id].raised
    {
      RefundedTotalAppend(s.events, Refunded(poolId, user, amount), id);
      if id == poolId {
        OutstandingAfterRemove(s.contributions, k);
      } else {
        OutstandingFrame(s.contributions, t.contributions, id);
      }
    }
  }

  lemma CommitKeepsSolvent(s: T.Store, inv: H.Invocation)
    requires T.Valid(s) && Solvent(s)
    ensures Solvent(H.Commit(s, inv))
  {
    var now := inv.now;
    match inv.call
    case Initialize =>
    case CreatePool(creator, token, supplier, goal, deadline) =>
      if T.CreatePool(s, now, creator, token, supplier, goal, deadline).Ok? {
        CreatePoolKeepsSolvent(s, now, creator, token, supplier, goal, deadline);
      }
    case Contribute(poolId, user, amount) =>
      if T.Contribute(s, now, poolId, user, amount).Ok? {
        ContributeKeepsSolvent(s, now, poolId, user, amount);
      }
    case Finalize(poolId, creator) =>
      if T.Finalize(s, now, poolId, creator).Ok? {
        FinalizeKeepsSolvent(s, now, poolId, creator);
      }
    case Refund(poolId, user) =>
      if T.Refund(s, now, poolId, user).Ok? {
        RefundKeepsSolvent(s, now, poolId, user);
      }
    case GetPool(_) =>
  }

  lemma {:induction false} RunKeepsSolvent(s: T.Store, invs: seq<H.Invocation>)
    requires T.Valid(s) && Solvent(s)
    ensures Solvent(H.Run(s, invs))
    decreases |invs|
  {
    if invs != [] {
      CommitKeepsSolvent(s, invs[0]);
      H.CommitKeepsValid(s, invs[0]);
      RunKeepsSolvent(H.Commit(s, invs[0]), invs[1..]);
    }
  }

  /**
   * In a valid, solvent storage each pool's refunds are non-negative and at
   * most its `raised`, and a user's recorded entry is at most what is left
   * after the refunds already paid.
   */
  lemma RefundsBounded(s: T.Store, poolId: U32, user: Address)
    requires T.Valid(s) && Solvent(s) && poolId in s.pools
    ensures 0 <= RefundedTotal(s.events, poolId) <= s.pools[poolId].raised
    ensures T.ContributionOf(s, poolId, user) <= s.pools[poolId].raised - RefundedTotal(s.events, poolId)
  {
    var keys := KeysOf(s.contributions, poolId);
    RefundedWithinRaised(s, poolId);
    if (poolId, user) in s.contributions {
      SumRemove(s.contributions, keys, (poolId, user));
      SumNonNegative(s.contributions, keys - {(poolId, user)});
    }
  }

  /** In a valid, solvent storage each pool's refunds lie between 0 and its `raised`. */
  lemma RefundedWithinRaised(s: T.Store, poolId: U32)
    requires T.Valid(s) && Solvent(s) && poolId in s.pools
    ensures 0 <= RefundedTotal(s.events, poolId) <= s.pools[poolId].raised
  {
    SumNonNegative(s.contributions, KeysOf(s.contributions, poolId));
    RefundedNonNegative(s.events, poolId);
  }

  /** Recorded refunds are never negative in a stream whose refunded amounts are positive. */
  lemma {:induction false} RefundedNonNegative(events: seq<Event>, poolId: U32)
    requires forall i :: 0 <= i < |events| && events[i].Refunded? ==> 0 < events[i].amount
    ensures 0 <= RefundedTotal(events, poolId)
    decreases |events|
  {
    if events != [] {
      RefundedNonNegative(events[..|events| - 1], poolId);
    }
  }

  /**
   * In every storage a deployed contract reaches, each pool's refunds paid
   * plus contributions still recorded equal its `raised`; so refunds never
   * exceed `raised`, and a user's recorded entry never exceeds what is left
   * after the refunds already paid.
   */
  lemma RefundsCoveredByRaised(invs: seq<H.Invocation>, poolId: U32, user: Address)
    requires poolId in H.Run(T.Empty(), invs).pools
    ensures var s := H.Run(T.Empty(), invs);
      && Outstanding(s.contributions, poolId) + RefundedTotal(s.events, poolId) == s.pools[poolId].raised
      && 0 <= RefundedTotal(s.events, poolId) <= s.pools[poolId].raised
      && T.ContributionOf(s, poolId, user) <= s.pools[poolId].raised - RefundedTotal(s.events, poolId)
  {
    T.EmptyValid();
    H.ReachableValid(invs);
    RunKeepsSolvent(T.Empty(), invs);
    RefundsBounded(H.Run(T.Empty(), invs), poolId, user);
  }
}
