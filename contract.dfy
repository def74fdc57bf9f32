/**
 * The `CollectivePurchase` contract as an object: its instance storage is
 * held in fields that the entry points update step by step, and each entry
 * point is proved to do exactly what the matching function of `Transitions`
 * says, so the properties proved there hold of the object too.
 */
module Contract {
  import opened Wrappers
  import opened Types
  import T = Transitions

  class CollectivePurchase {
    /** `DataKey::NextPoolId`, absent until `initialize` or the first `create_pool`. */
    var nextPoolId: Option<U32>
    /** `DataKey::Pools(id)` for every stored id. */
    var pools: map<U32, Pool>
    /** `DataKey::Contributions(id, user)` for every stored pair. */
    var contributions: map<(U32, Address), I128>
    /** The events published so far, oldest first. */
    var events: seq<Event>

    function State(): T.Store
      reads this
    {
      T.Store(nextPoolId, pools, contributions, events)
    }

    ghost predicate Valid()
      reads this
    {
      T.Valid(State())
    }

    /** A freshly deployed contract: empty instance storage, no events. */
    constructor ()
      ensures Valid() && State() == T.Empty()
    {
      nextPoolId := None;
      pools := map[];
      contributions := map[];
      events := [];
      new;
      T.EmptyValid();
    }

    method Initialize() returns (r: Result<(), Error>)
      requires Valid()
      modifies this
      ensures Valid()
      ensures match T.Initialize(old(State()))
        case Ok(t) => r == Ok(()) && State() == t
        case Err(e) => r == Err(e) && State() == old(State())
    {
      if nextPoolId.Some? {
        return Err(AlreadyInitialized);
      }
      T.InitializePreservesValid(State());
      nextPoolId := Some(1);
      r := Ok(());
    }

    method CreatePool(now: U64, creator: Address, token: Address, supplier: Address,
                      goal: I128, deadline: U64) returns (r: Result<U32, Error>)
      requires Valid()
      modifies this
      ensures Valid()
      ensures match T.CreatePool(old(State()), now, creator, token, supplier, goal, deadline)
        case Ok((t, id)) => r == Ok(id) && State() == t
        case Err(e) => r == Err(e) && State() == old(State())
    {
      if goal <= 0 {
        return Err(GoalNotPositive);
      }
      if deadline <= now {
        return Err(DeadlineNotFuture);
      }
      var nextId := nextPoolId.GetOr(1);
      // The checked `next_id + 1` panics before any write survives.
      if nextId == U32_MAX {
        return Err(Overflow);
      }
      T.CreatePoolPreservesValid(State(), now, creator, token, supplier, goal, deadline);
      var pool := Pool(nextId, creator, token, supplier, goal, 0, deadline, false);
      pools := pools[nextId := pool];
      nextPoolId := Some(nextId + 1);
      events := events + [PoolCreated(nextId, pool)];
      r := Ok(nextId);
    }

    method Contribute(now: U64, poolId: U32, user: Address, amount: I128) returns (r: Result<(), Error>)
      requires Valid()
      modifies this
      ensures Valid()
      ensures match T.Contribute(old(State()), now, poolId, user, amount)
        case Ok(t) => r == Ok(()) && State() == t
        case Err(e) => r == Err(e) && State() == old(State())
    {
      if poolId !in pools {
        return Err(PoolNotFound);
      }
      var pool := pools[poolId];
      if pool.finalized {
        return Err(AlreadyFinalized);
      }
      if now > pool.deadline {
        return Err(DeadlinePassed);
      }
      if amount <= 0 {
        return Err(AmountNotPositive);
      }
      if !InI128(pool.raised + amount) {
        return Err(Overflow);
      }
      pool := pool.(raised := pool.raised + amount);
      var key := (poolId, user);
      var contrib: int := if key in contributions then contributions[key] else 0;
      contrib := contrib + amount;
      if !InI128(contrib) {
        return Err(Overflow);
      }
      ghost var before := State();
      T.ContributeWrites(before, now, poolId, user, amount, pool.raised, contrib);
      contributions := contributions[key := contrib];
      pools := pools[poolId := pool];
      events := events + [Contributed(poolId, user, amount)];
      r := Ok(());
      assert State() == T.AfterContribution(before, poolId, user, amount, pool.raised, contrib);
    }

    method Finalize(now: U64, poolId: U32, creator: Address) returns (r: Result<(), Error>)
      requires Valid()
      modifies this
      ensures Valid()
      ensures match T.Finalize(old(State()), now, poolId, creator)
        case Ok(t) => r == Ok(()) && State() == t
        case Err(e) => r == Err(e) && State() == old(State())
    {
      if poolId !in pools {
        return Err(PoolNotFound);
      }
      var pool := pools[poolId];
      if creator != pool.creator {
        return Err(NotCreator);
      }
      if pool.finalized {
        return Err(AlreadyFinalized);
      }
      if now > pool.deadline {
        return Err(DeadlinePassed);
      }
      if pool.raised < pool.goal {
        return Err(GoalNotReached);
      }
      T.FinalizePreservesValid(State(), now, poolId, creator);
      pool := pool.(finalized := true);
      pools := pools[poolId := pool];
      events := events + [Finalized(poolId, pool.raised)];
      r := Ok(());
    }

    method Refund(now: U64, poolId: U32, user: Address) returns (r: Result<(), Error>)
      requires Valid()
      modifies this
      ensures Valid()
      ensures match T.Refund(old(State()), now, poolId, user)
        case Ok((t, _)) => r == Ok(()) && State() == t
        case Err(e) => r == Err(e) && State() == old(State())
    {
      if poolId !in pools {
        return Err(PoolNotFound);
      }
      var pool := pools[poolId];
      if pool.finalized {
        return Err(PoolFinalized);
      }
      if now <= pool.deadline {
        return Err(DeadlineNotPassed);
      }
      if pool.raised >= pool.goal {
        return Err(GoalReached);
      }
      var key := (poolId, user);
      var amount := if key in contributions then contributions[key] else 0;
      if amount <= 0 {
        return Err(NoContribution);
      }
      T.RefundPreservesValid(State(), now, poolId, user);
      contributions := contributions - {key};
      events := events + [Refunded(poolId, user, amount)];
      r := Ok(());
    }

    /** `get_pool`: reads the stored record and changes nothing. */
    method GetPool(poolId: U32) returns (r: Result<Pool, Error>)
      ensures r.Ok? <==> poolId in pools
      ensures r.Ok? ==> r.value == pools[poolId]
      ensures r.Err? ==> r.error == PoolNotFound
      ensures r == T.GetPool(State(), poolId)
    {
      if poolId !in pools {
        return Err(PoolNotFound);
      }
      r := Ok(pools[poolId]);
    }
  }
}
