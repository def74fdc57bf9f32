/**
 * The contract's instance storage as a value, and each entry point of
 * `CollectivePurchase` as a function from the storage before the invocation to
 * the storage after it. A panic aborts the invocation and discards its writes,
 * so a failing entry point yields `Err` and no new storage.
 */
module Transitions {
  import opened Wrappers
  import opened Types
  import EventLog

  /**
   * Instance storage: one field per `DataKey` variant (`NextPoolId`,
   * `Pools(id)`, `Contributions(id, user)`), plus the stream of events the
   * contract has published.
   */
  datatype Store = Store(
    nextPoolId: Option<U32>,
    pools: map<U32, Pool>,
    contributions: map<(U32, Address), I128>,
    events: seq<Event>)

  /** The storage of a freshly deployed contract. */
  function Empty(): Store {
    Store(None, map[], map[], [])
  }

  /** A user's recorded contribution to a pool; a missing entry reads as 0. */
  function ContributionOf(s: Store, poolId: U32, user: Address): I128 {
    if (poolId, user) in s.contributions then s.contributions[(poolId, user)] else 0
  }

  /** The id the next `CreatePool` hands out: the counter, or 1 when it is unset. */
  function NextId(s: Store): U32 {
    s.nextPoolId.GetOr(1)
  }

  /**
   * What every reachable storage satisfies: pool ids lie in [1, counter) and
   * match their keys, goals are positive, `raised` is non-negative, every stored
   * contribution is positive, belongs to an existing pool and is at most that
   * pool's `raised`, every event names an existing pool and moves a positive amount, and replaying the
   * event stream rebuilds the pools and the contributions.
   */
  ghost predicate Valid(s: Store) {
    && CounterBounds(s)
    && PoolsWellFormed(s)
    && ContributionsBounded(s)
    && EventsWellFormed(s)
    && ReplayConsistent(s)
  }

  ghost predicate CounterBounds(s: Store) {
    && (s.nextPoolId.None? ==> s.pools == map[] && s.contributions == map[] && s.events == [])
    && (s.nextPoolId.Some? ==> 1 <= s.nextPoolId.value)
    && (forall id :: id in s.pools ==> 1 <= id < NextId(s))
  }

  ghost predicate PoolsWellFormed(s: Store) {
    forall id :: id in s.pools ==>
      s.pools[id].id == id && 0 < s.pools[id].goal && 0 <= s.pools[id].raised
  }

  ghost predicate ContributionsBounded(s: Store) {
    forall k :: k in s.contributions ==>
      k.0 in s.pools && 0 < s.contributions[k] <= s.pools[k.0].raised
  }

  ghost predicate EventsWellFormed(s: Store) {
    forall i :: 0 <= i < |s.events| ==>
      && s.events[i].id in s.pools
      && ((s.events[i].Contributed? || s.events[i].Refunded?) ==> 0 < s.events[i].amount)
  }

  ghost predicate ReplayConsistent(s: Store) {
    && EventLog.ReplayPools(s.events) == s.pools
    && EventLog.ReplayContributions(s.events) == s.contributions
  }

  lemma EmptyValid()
    ensures Valid(Empty())
  {
  }

  // ---------------------------------------------------------------- initialize

  /** `initialize`: sets the counter to 1, and panics if it is already set. */
  function Initialize(s: Store): (r: Result<Store, Error>)
    ensures r.Ok? <==> s.nextPoolId.None?
    ensures r.Err? ==> r.error == AlreadyInitialized
    ensures r.Ok? ==> r.value.nextPoolId == Some(1) && NextId(r.value) == NextId(s)
    ensures r.Ok? ==> r.value.pools == s.pools && r.value.contributions == s.contributions
                      && r.value.events == s.events
  {
    if s.nextPoolId.Some? then Err(AlreadyInitialized)
    else Ok(s.(nextPoolId := Some(1)))
  }

  lemma InitializePreservesValid(s: Store)
    requires Valid(s) && Initialize(s).Ok?
    ensures Valid(Initialize(s).value)
  {
  }

  // --------------------------------------------------------------- create_pool

  /**
   * `create_pool`: stores a new pool under the current counter value (1 when
   * unset), with nothing raised and not finalized, and advances the counter.
   */
  function CreatePool(s: Store, now: U64, creator: Address, token: Address, supplier: Address,
                      goal: I128, deadline: U64): (r: Result<(Store, U32), Error>)
    ensures r.Ok? <==> 0 < goal && now < deadline && NextId(s) < U32_MAX
    ensures r.Err? ==> r.error == (if goal <= 0 then GoalNotPositive
                                   else if deadline <= now then DeadlineNotFuture
                                   else Overflow)
    ensures r.Ok? ==>
      var (t, id) := r.value;
      && id == NextId(s)
      && t.nextPoolId == Some(id + 1)
      && t.pools.Keys == s.pools.Keys + {id}
      && t.pools[id] == Pool(id, creator, token, supplier, goal, 0, deadline, false)
      && (forall k :: k in s.pools && k != id ==> t.pools[k] == s.pools[k])
      && t.contributions == s.contributions
      && t.events == s.events + [PoolCreated(id, t.pools[id])]
  {
    if goal <= 0 then Err(GoalNotPositive)
    else if deadline <= now then Err(DeadlineNotFuture)
    else
      var id := NextId(s);
      if id == U32_MAX then Err(Overflow)
      else
        var pool := Pool(id, creator, token, supplier, goal, 0, deadline, false);
        Ok((Store(Some(id + 1), s.pools[id := pool], s.contributions, s.events + [PoolCreated(id, pool)]), id))
  }

  /**
   * On a valid storage the id `create_pool` hands out is larger than every
   * existing id, so no existing pool is overwritten, and validity is kept.
   */
  lemma CreatePoolPreservesValid(s: Store, now: U64, creator: Address, token: Address,
                                 supplier: Address, goal: I128, deadline: U64)
    requires Valid(s)
    requires CreatePool(s, now, creator, token, supplier, goal, deadline).Ok?
    ensures var (t, id) := CreatePool(s, now, creator, token, supplier, goal, deadline).value;
      && Valid(t)
      && (forall k :: k in s.pools ==> k < id)
      && id !in s.pools
      && (forall k :: k in s.pools ==> k in t.pools && t.pools[k] == s.pools[k])
  {
    var (t, id) := CreatePool(s, now, creator, token, supplier, goal, deadline).value;
    EventLog.ReplayAppend(s.events, PoolCreated(id, t.pools[id]));
  }

  // ---------------------------------------------------------------- contribute

  /**
   * `contribute`: adds a positive `amount`, before the deadline, to an
   * unfinalized pool's `raised` and to the user's contribution entry.
   */
  function Contribute(s: Store, now: U64, poolId: U32, user: Address, amount: I128): (r: Result<Store, Error>)
    ensures r.Ok? ==> poolId in s.pools && !s.pools[poolId].finalized
                      && now <= s.pools[poolId].deadline && 0 < amount
    ensures poolId !in s.pools ==> r == Err(PoolNotFound)
    ensures poolId in s.pools ==>
      var p := s.pools[poolId];
      && (p.finalized ==> r == Err(AlreadyFinalized))
      && (!p.finalized && p.deadline < now ==> r == Err(DeadlinePassed))
      && (!p.finalized && now <= p.deadline && amount <= 0 ==> r == Err(AmountNotPositive))
    ensures (r.Err? && poolId in s.pools && !s.pools[poolId].finalized
             && now <= s.pools[poolId].deadline && 0 < amount) ==> r.error == Overflow
  {
    if poolId !in s.pools then Err(PoolNotFound)
    else
      var pool := s.pools[poolId];
      if pool.finalized then Err(AlreadyFinalized)
      else if now > pool.deadline then Err(DeadlinePassed)
      else if amount <= 0 then Err(AmountNotPositive)
      else if !InI128(pool.raised + amount) then Err(Overflow)
      else
        var contrib := ContributionOf(s, poolId, user) + amount;
        if !InI128(contrib) then Err(Overflow)
        else
          Ok(s.(pools := s.pools[poolId := pool.(raised := pool.raised + amount)],
                contributions := s.contributions[(poolId, user) := contrib],
                events := s.events + [Contributed(poolId, user, amount)]))
  }

  /**
   * A successful `contribute` raises the pool's `raised` and the user's entry
   * (0 when absent) by exactly `amount`, and touches no other pool, no other
   * entry and not the counter.
   */
  lemma ContributeEffect(s: Store, now: U64, poolId: U32, user: Address, amount: I128)
    requires Contribute(s, now, poolId, user, amount).Ok?
    ensures var t := Contribute(s, now, poolId, user, amount).value;
      && t.nextPoolId == s.nextPoolId
      && t.pools.Keys == s.pools.Keys
      && t.pools[poolId].raised == s.pools[poolId].raised + amount
      && t.pools[poolId] == s.pools[poolId].(raised := t.pools[poolId].raised)
      && (forall id :: id in s.pools && id != poolId ==> t.pools[id] == s.pools[id])
      && ContributionOf(t, poolId, user) == ContributionOf(s, poolId, user) + amount
      && t.contributions.Keys == s.contributions.Keys + {(poolId, user)}
      && (forall k :: k in s.contributions && k != (poolId, user) ==> t.contributions[k] == s.contributions[k])
      && t.events == s.events + [Contributed(poolId, user, amount)]
  {
  }

  /**
   * On a valid storage `contribute` panics only on the four checks of the
   * contract or when `raised` would leave i128: the user's entry is at most
   * `raised`, so its own checked addition never overflows first.
   */
  lemma ContributeSucceedsIff(s: Store, now: U64, poolId: U32, user: Address, amount: I128)
    requires Valid(s)
    ensures Contribute(s, now, poolId, user, amount).Ok? <==>
      && poolId in s.pools
      && !s.pools[poolId].finalized
      && now <= s.pools[poolId].deadline
      && 0 < amount
      && s.pools[poolId].raised + amount <= I128_MAX
  {
    if poolId in s.pools && (poolId, user) in s.contributions {
      assert s.contributions[(poolId, user)] <= s.pools[poolId].raised;
    }
  }

  lemma ContributePreservesValid(s: Store, now: U64, poolId: U32, user: Address, amount: I128)
    requires Valid(s) && Contribute(s, now, poolId, user, amount).Ok?
    ensures Valid(Contribute(s, now, poolId, user, amount).value)
  {
    var p := s.pools[poolId];
    ContributeWrites(s, now, poolId, user, amount, p.raised + amount, ContributionOf(s, poolId, user) + amount);
  }

  /** When all checks pass, `contribute` performs exactly the writes of `AfterContribution`. */
  lemma ContributeWrites(s: Store, now: U64, poolId: U32, user: Address, amount: I128, raised: int, contrib: int)
    requires Valid(s) && poolId in s.pools
    requires !s.pools[poolId].finalized && now <= s.pools[poolId].deadline && 0 < amount
    requires raised == s.pools[poolId].raised + amount && InI128(raised)
    requires contrib == ContributionOf(s, poolId, user) + amount && InI128(contrib)
    ensures Contribute(s, now, poolId, user, amount) == Ok(AfterContribution(s, poolId, user, amount, raised, contrib))
    ensures Valid(AfterContribution(s, poolId, user, amount, raised, contrib))
  {
    ValidAfterContribution(s, poolId, user, amount, raised, contrib);
  }

  /** The storage after the writes of a successful `contribute`. */
  function AfterContribution(s: Store, poolId: U32, user: Address, amount: I128, raised: I128, contrib: I128): Store
    requires poolId in s.pools
  {
    s.(pools := s.pools[poolId := s.pools[poolId].(raised := raised)],
       contributions := s.contributions[(poolId, user) := contrib],
       events := s.events + [Contributed(poolId, user, amount)])
  }

  /** The storage writes of a successful `contribute` keep a valid storage valid. */
  lemma ValidAfterContribution(s: Store, poolId: U32, user: Address, amount: I128, raised: I128, contrib: I128)
    requires Valid(s) && poolId in s.pools && 0 < amount
    requires raised == s.pools[poolId].raised + amount
    requires contrib == ContributionOf(s, poolId, user) + amount
    ensures Valid(AfterContribution(s, poolId, user, amount, raised, contrib))
  {
    var t := AfterContribution(s, poolId, user, amount, raised, contrib);
    assert CounterBounds(t) && PoolsWellFormed(t);
    assert ContributionsBounded(t) by {
      forall k | k in t.contributions
        ensures k.0 in t.pools && 0 < t.contributions[k] <= t.pools[k.0].raised
      {
        if k != (poolId, user) { assert t.contributions[k] == s.contributions[k]; }
      }
    }
    assert EventsWellFormed(t) by {
      forall i | 0 <= i < |t.events|
        ensures t.events[i].id in t.pools
        ensures (t.events[i].Contributed? || t.events[i].Refunded?) ==> 0 < t.events[i].amount
      {
        if i < |s.events| { assert t.events[i] == s.events[i]; }
      }
    }
    ReplayAfterContribution(s, poolId, user, amount, raised, contrib);
  }

  lemma ReplayAfterContribution(s: Store, poolId: U32, user: Address, amount: I128, raised: I128, contrib: I128)
    requires ReplayConsistent(s) && poolId in s.pools
    requires raised == s.pools[poolId].raised + amount
    requires contrib == ContributionOf(s, poolId, user) + amount
    ensures ReplayConsistent(AfterContribution(s, poolId, user, amount, raised, contrib))
  {
    var t := AfterContribution(s, poolId, user, amount, raised, contrib);
    var e := Contributed(poolId, user, amount);
    EventLog.ReplayAppend(s.events, e);
    assert EventLog.ApplyToPools(s.pools, e) == t.pools;
    assert EventLog.ApplyToContributions(s.contributions, e) == t.contributions;
  }

  // ------------------------------------------------------------------ finalize

  /**
   * `finalize`: the creator closes a pool that met its goal, before the
   * deadline; only `finalized` changes.
   */
  function Finalize(s: Store, now: U64, poolId: U32, creator: Address): (r: Result<Store, Error>)
    ensures r.Ok? <==>
      && poolId in s.pools
      && creator == s.pools[poolId].creator
      && !s.pools[poolId].finalized
      && now <= s.pools[poolId].deadline
      && s.pools[poolId].goal <= s.pools[poolId].raised
    ensures poolId !in s.pools ==> r == Err(PoolNotFound)
    ensures poolId in s.pools ==>
      var p := s.pools[poolId];
      && (creator != p.creator ==> r == Err(NotCreator))
      && (creator == p.creator && p.finalized ==> r == Err(AlreadyFinalized))
      && (creator == p.creator && !p.finalized && p.deadline < now ==> r == Err(DeadlinePassed))
      && ((creator == p.creator && !p.finalized && now <= p.deadline && p.raised < p.goal)
            ==> r == Err(GoalNotReached))
    ensures r.Ok? ==>
      var t := r.value;
      && t.nextPoolId == s.nextPoolId
      && t.pools.Keys == s.pools.Keys
      && t.pools[poolId] == s.pools[poolId].(finalized := true)
      && (forall id :: id in s.pools && id != poolId ==> t.pools[id] == s.pools[id])
      && t.contributions == s.contributions
      && t.events == s.events + [Finalized(poolId, s.pools[poolId].raised)]
  {
    if poolId !in s.pools then Err(PoolNotFound)
    else
      var pool := s.pools[poolId];
      if creator != pool.creator then Err(NotCreator)
      else if pool.finalized then Err(AlreadyFinalized)
      else if now > pool.deadline then Err(DeadlinePassed)
      else if pool.raised < pool.goal then Err(GoalNotReached)
      else
        Ok(s.(pools := s.pools[poolId := pool.(finalized := true)],
              events := s.events + [Finalized(poolId, pool.raised)]))
  }

  lemma FinalizePreservesValid(s: Store, now: U64, poolId: U32, creator: Address)
    requires Valid(s) && Finalize(s, now, poolId, creator).Ok?
    ensures Valid(Finalize(s, now, poolId, creator).value)
  {
    var t := Finalize(s, now, poolId, creator).value;
    EventLog.ReplayAppend(s.events, Finalized(poolId, s.pools[poolId].raised));
  }

  // -------------------------------------------------------------------- refund

  /**
   * `refund`: after the deadline of a pool that missed its goal and was not
   * finalized, pays a user back their whole recorded contribution and deletes
   * the entry; the pool record, `raised` included, is left as it was.
   */
  function Refund(s: Store, now: U64, poolId: U32, user: Address): (r: Result<(Store, I128), Error>)
    ensures r.Ok? <==>
      && poolId in s.pools
      && !s.pools[poolId].finalized
      && s.pools[poolId].deadline < now
      && s.pools[poolId].raised < s.pools[poolId].goal
      && 0 < ContributionOf(s, poolId, user)
    ensures poolId !in s.pools ==> r == Err(PoolNotFound)
    ensures poolId in s.pools ==>
      var p := s.pools[poolId];
      && (p.finalized ==> r == Err(PoolFinalized))
      && (!p.finalized && now <= p.deadline ==> r == Err(DeadlineNotPassed))
      && (!p.finalized && p.deadline < now && p.goal <= p.raised ==> r == Err(GoalReached))
      && ((!p.finalized && p.deadline < now && p.raised < p.goal && ContributionOf(s, poolId, user) <= 0)
            ==> r == Err(NoContribution))
    ensures r.Ok? ==>
      var (t, amount) := r.value;
      && amount == ContributionOf(s, poolId, user)
      && t.nextPoolId == s.nextPoolId
      && t.pools == s.pools
      && (poolId, user) !in t.contributions
      && t.contributions.Keys == s.contributions.Keys - {(poolId, user)}
      && (forall k :: k in t.contributions ==> t.contributions[k] == s.contributions[k])
      && t.events == s.events + [Refunded(poolId, user, amount)]
  {
    if poolId !in s.pools then Err(PoolNotFound)
    else
      var pool := s.pools[poolId];
      if pool.finalized then Err(PoolFinalized)
      else if now <= pool.deadline then Err(DeadlineNotPassed)
      else if pool.raised >= pool.goal then Err(GoalReached)
      else
        var amount := ContributionOf(s, poolId, user);
        if amount <= 0 then Err(NoContribution)
        else
          Ok((s.(contributions := s.contributions - {(poolId, user)},
                 events := s.events + [Refunded(poolId, user, amount)]), amount))
  }

  lemma RefundPreservesValid(s: Store, now: U64, poolId: U32, user: Address)
    requires Valid(s) && Refund(s, now, poolId, user).Ok?
    ensures Valid(Refund(s, now, poolId, user).value.0)
  {
    var (t, amount) := Refund(s, now, poolId, user).value;
    EventLog.ReplayAppend(s.events, Refunded(poolId, user, amount));
  }

  /** Once refunded, the same user's refund from the same pool panics. */
  lemma RefundNotRepeatable(s: Store, now: U64, later: U64, poolId: U32, user: Address)
    requires Refund(s, now, poolId, user).Ok?
    ensures Refund(Refund(s, now, poolId, user).value.0, later, poolId, user).Err?
  {
  }

  // ------------------------------------------------------------------ get_pool

  /** `get_pool`: the stored record, or a panic when the id is unknown. */
  function GetPool(s: Store, poolId: U32): (r: Result<Pool, Error>)
    ensures r.Ok? <==> poolId in s.pools
    ensures r.Ok? ==> r.value == s.pools[poolId]
    ensures r.Err? ==> r.error == PoolNotFound
  {
    if poolId in s.pools then Ok(s.pools[poolId]) else Err(PoolNotFound)
  }

  // ------------------------------------------------- finalize versus refund

  /**
   * For one pool at one instant, `finalize` and `refund` cannot both succeed:
   * the first needs the goal met before the deadline, the second the goal
   * missed after it.
   */
  lemma FinalizeRefundExclusive(s: Store, now: U64, poolId: U32, creator: Address, user: Address)
    ensures !(Finalize(s, now, poolId, creator).Ok? && Refund(s, now, poolId, user).Ok?)
  {
  }
}
