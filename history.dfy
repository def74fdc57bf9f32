/**
 * Sequences of invocations of the contract. Each invocation either commits
 * all its writes or, when it panics, none of them; the lemmas here state what
 * holds across any such history: storage stays valid, pool ids only grow,
 * `raised` never decreases, `finalized` is never cleared, finalize and refund
 * exclude each other, a user is refunded at most once, and the event stream
 * alone rebuilds the pools and the contribution entries.
 */
module History {
  import opened Wrappers
  import opened Types
  import EventLog
  import T = Transitions

  /** A call of one of the contract's entry points. */
  datatype Call =
    | Initialize
    | CreatePool(creator: Address, token: Address, supplier: Address, goal: I128, deadline: U64)
    | Contribute(poolId: U32, user: Address, amount: I128)
    | Finalize(poolId: U32, creator: Address)
    | Refund(poolId: U32, user: Address)
    | GetPool(poolId: U32)

  /** A call together with the ledger timestamp it runs at. */
  datatype Invocation = Invocation(now: U64, call: Call)

  /** What an entry point returns to its caller. */
  datatype Reply = Done | Created(id: U32) | Found(pool: Pool)

  /** Runs one invocation against the storage. */
  function Invoke(s: T.Store, inv: Invocation): (r: Result<(T.Store, Reply), Error>)
    ensures r.Ok? ==> s.events <= r.value.0.events && |r.value.0.events| <= |s.events| + 1
    ensures r.Ok? && inv.call.GetPool? ==>
      inv.call.poolId in s.pools && r.value == (s, Found(s.pools[inv.call.poolId]))
    ensures r.Ok? && inv.call.CreatePool? ==> r.value.1.Created?
  {
    match inv.call
    case Initialize =>
      (match T.Initialize(s)
       case Ok(t) => Ok((t, Done))
       case Err(e) => Err(e))
    case CreatePool(creator, token, supplier, goal, deadline) =>
      (match T.CreatePool(s, inv.now, creator, token, supplier, goal, deadline)
       case Ok((t, id)) => Ok((t, Created(id)))
       case Err(e) => Err(e))
    case Contribute(poolId, user, amount) =>
      (match T.Contribute(s, inv.now, poolId, user, amount)
       case Ok(t) => Ok((t, Done))
       case Err(e) => Err(e))
    case Finalize(poolId, creator) =>
      (match T.Finalize(s, inv.now, poolId, creator)
       case Ok(t) => Ok((t, Done))
       case Err(e) => Err(e))
    case Refund(poolId, user) =>
      (match T.Refund(s, inv.now, poolId, user)
       case Ok((t, _)) => Ok((t, Done))
       case Err(e) => Err(e))
    case GetPool(poolId) =>
      (match T.GetPool(s, poolId)
       case Ok(p) => Ok((s, Found(p)))
       case Err(e) => Err(e))
  }

  /**
   * The storage after an invocation: its writes if it succeeds, the old
   * storage if it panics (a panic rolls back every write of the invocation).
   */
  function Commit(s: T.Store, inv: Invocation): (t: T.Store)
    ensures Invoke(s, inv).Err? ==> t == s
    ensures Invoke(s, inv).Ok? ==> t == Invoke(s, inv).value.0
    ensures s.events <= t.events && |t.events| <= |s.events| + 1
  {
    match Invoke(s, inv)
    case Ok((t, _)) => t
    case Err(_) => s
  }

  /**
   * The storage after a whole history of invocations; the event stream is only
   * appended to, by at most one event per invocation.
   */
  function Run(s: T.Store, invs: seq<Invocation>): (r: T.Store)
    ensures s.events <= r.events && |r.events| <= |s.events| + |invs|
    decreases |invs|
  {
    if invs == [] then s else Run(Commit(s, invs[0]), invs[1..])
  }

  /**
   * How one pool record may change: its identity, parties, goal and deadline
   * never do, `raised` never decreases and `finalized` is never cleared.
   */
  predicate Grows(p: Pool, q: Pool) {
    && q.id == p.id && q.creator == p.creator && q.token == p.token && q.supplier == p.supplier
    && q.goal == p.goal && q.deadline == p.deadline
    && p.raised <= q.raised
    && (p.finalized ==> q.finalized)
  }

  /**
   * How the whole storage may change: the counter, once set, stays set and
   * never decreases, no pool disappears, every pool grows, and the event
   * stream is only appended to.
   */
  ghost predicate Evolves(s: T.Store, t: T.Store) {
    && (s.nextPoolId.Some? ==> t.nextPoolId.Some? && s.nextPoolId.value <= t.nextPoolId.value)
    && (forall id :: id in s.pools ==> id in t.pools && Grows(s.pools[id], t.pools[id]))
    && s.events <= t.events
  }

  /** Every invocation keeps the storage valid and lets it only evolve. */
  lemma CommitKeepsValid(s: T.Store, inv: Invocation)
    requires T.Valid(s)
    ensures T.Valid(Commit(s, inv)) && Evolves(s, Commit(s, inv))
  {
    CommitValid(s, inv);
    CommitEvolves(s, inv);
  }

  lemma CommitValid(s: T.Store, inv: Invocation)
    requires T.Valid(s)
    ensures T.Valid(Commit(s, inv))
  {
    var now := inv.now;
    match inv.call
    case Initialize =>
      if T.Initialize(s).Ok? { T.InitializePreservesValid(s); }
    case CreatePool(creator, token, supplier, goal, deadline) =>
      if T.CreatePool(s, now, creator, token, supplier, goal, deadline).Ok? {
        T.CreatePoolPreservesValid(s, now, creator, token, supplier, goal, deadline);
      }
    case Contribute(poolId, user, amount) =>
      if T.Contribute(s, now, poolId, user, amount).Ok? {
        T.ContributePreservesValid(s, now, poolId, user, amount);
      }
    case Finalize(poolId, creator) =>
      if T.Finalize(s, now, poolId, creator).Ok? {
        T.FinalizePreservesValid(s, now, poolId, creator);
      }
    case Refund(poolId, user) =>
      if T.Refund(s, now, poolId, user).Ok? {
        T.RefundPreservesValid(s, now, poolId, user);
      }
    case GetPool(_) =>
  }

  lemma CommitEvolves(s: T.Store, inv: Invocation)
    requires T.Valid(s)
    ensures Evolves(s, Commit(s, inv))
  {
    var now := inv.now;
    match inv.call
    case CreatePool(creator, token, supplier, goal, deadline) =>
      if T.CreatePool(s, now, creator, token, supplier, goal, deadline).Ok? {
        T.CreatePoolPreservesValid(s, now, creator, token, supplier, goal, deadline);
      }
    case Contribute(poolId, user, amount) =>
      if T.Contribute(s, now, poolId, user, amount).Ok? {
        T.ContributeEffect(s, now, poolId, user, amount);
      }
    case _ =>
  }

  lemma EvolvesTransitive(s: T.Store, t: T.Store, u: T.Store)
    requires Evolves(s, t) && Evolves(t, u)
    ensures Evolves(s, u)
  {
  }

  /** Any history keeps the storage valid and lets it only evolve. */
  lemma {:induction false} RunKeepsValid(s: T.Store, invs: seq<Invocation>)
    requires T.Valid(s)
    ensures T.Valid(Run(s, invs)) && Evolves(s, Run(s, invs))
    decreases |invs|
  {
    if invs != [] {
      var t := Commit(s, invs[0]);
      CommitKeepsValid(s, invs[0]);
      RunKeepsValid(t, invs[1..]);
      EvolvesTransitive(s, t, Run(t, invs[1..]));
    }
  }

  /** Every storage a deployed contract reaches is valid. */
  lemma ReachableValid(invs: seq<Invocation>)
    ensures T.Valid(Run(T.Empty(), invs))
  {
    T.EmptyValid();
    RunKeepsValid(T.Empty(), invs);
  }

  /**
   * The events the contract has published are enough to rebuild every pool
   * record and every contribution entry of its storage.
   */
  lemma EventLogRebuildsStorage(invs: seq<Invocation>)
    ensures var s := Run(T.Empty(), invs);
      && EventLog.ReplayPools(s.events) == s.pools
      && EventLog.ReplayContributions(s.events) == s.contributions
  {
    ReachableValid(invs);
  }

  /** After a successful `initialize`, every later `initialize` panics. */
  lemma InitializeOnlyOnce(s: T.Store, invs: seq<Invocation>)
    requires T.Valid(s) && T.Initialize(s).Ok?
    ensures T.Initialize(Run(T.Initialize(s).value, invs)) == Err(AlreadyInitialized)
  {
    T.InitializePreservesValid(s);
    RunKeepsValid(T.Initialize(s).value, invs);
  }

  /**
   * Pool ids handed out by two `create_pool` calls, with any history between
   * them, strictly increase; so a later pool never overwrites an earlier one.
   */
  lemma CreatedIdsIncrease(s: T.Store, first: Invocation, between: seq<Invocation>, second: Invocation)
    requires T.Valid(s)
    requires first.call.CreatePool? && Invoke(s, first).Ok?
    requires second.call.CreatePool? && Invoke(Run(Invoke(s, first).value.0, between), second).Ok?
    ensures Invoke(s, first).value.1.id < Invoke(Run(Invoke(s, first).value.0, between), second).value.1.id
  {
    var t := Invoke(s, first).value.0;
    var id1 := Invoke(s, first).value.1.id;
    CommitKeepsValid(s, first);
    assert id1 in t.pools;
    var u := Run(t, between);
    RunKeepsValid(t, between);
    assert id1 in u.pools;
  }

  /**
   * A finalized pool is closed for good: whatever happens afterwards, a
   * contribution, a second finalize and any refund on it all panic.
   */
  lemma FinalizedIsTerminal(s: T.Store, invs: seq<Invocation>, now: U64, poolId: U32,
                            user: Address, creator: Address, amount: I128)
    requires T.Valid(s) && poolId in s.pools && s.pools[poolId].finalized
    ensures var u := Run(s, invs);
      && T.Contribute(u, now, poolId, user, amount) == Err(AlreadyFinalized)
      && T.Finalize(u, now, poolId, creator).Err?
      && T.Refund(u, now, poolId, user) == Err(PoolFinalized)
  {
    RunKeepsValid(s, invs);
  }

  /**
   * Once some user has been refunded from a pool at time `now`, no later
   * `finalize` of that pool (at a time not before `now`) succeeds, whatever
   * happens in between.
   */
  lemma RefundedIsNeverFinalized(s: T.Store, now: U64, poolId: U32, user: Address,
                                 invs: seq<Invocation>, later: U64, creator: Address)
    requires T.Valid(s) && T.Refund(s, now, poolId, user).Ok?
    requires now <= later
    ensures T.Finalize(Run(T.Refund(s, now, poolId, user).value.0, invs), later, poolId, creator).Err?
  {
    var t := T.Refund(s, now, poolId, user).value.0;
    T.RefundPreservesValid(s, now, poolId, user);
    RunKeepsValid(t, invs);
  }

  /**
   * The invocations run in ledger order, starting no earlier than `t`: each
   * one at the time of the one before it or later.
   */
  predicate Chronological(invs: seq<Invocation>, t: int)
    decreases |invs|
  {
    invs == [] || (t <= invs[0].now && Chronological(invs[1..], invs[0].now))
  }

  /** The time of the last invocation of `invs`, or `t` when there is none. */
  function LastTime(invs: seq<Invocation>, t: int): int {
    if invs == [] then t else invs[|invs| - 1].now
  }

  /** Every invocation in `invs` runs at time `t` or later. */
  predicate NotBefore(invs: seq<Invocation>, t: int) {
    forall i :: 0 <= i < |invs| ==> t <= invs[i].now
  }

  /**
   * A pool past its deadline `t`, unfinalized and short of its goal, in which
   * the user holds no entry. Invocations at `t` or later cannot finalize it,
   * add to it or give the user an entry again.
   */
  ghost predicate Closed(s: T.Store, poolId: U32, user: Address, t: int) {
    && poolId in s.pools
    && s.pools[poolId].deadline < t
    && !s.pools[poolId].finalized
    && s.pools[poolId].raised < s.pools[poolId].goal
    && (poolId, user) !in s.contributions
  }

  lemma CommitKeepsClosed(s: T.Store, inv: Invocation, poolId: U32, user: Address, t: int)
    requires T.Valid(s) && Closed(s, poolId, user, t) && t <= inv.now
    ensures Closed(Commit(s, inv), poolId, user, t)
  {
    CommitEvolves(s, inv);
    match inv.call
    case Contribute(id, u, amount) =>
      if T.Contribute(s, inv.now, id, u, amount).Ok? {
        T.ContributeEffect(s, inv.now, id, u, amount);
      }
    case _ =>
  }

  lemma {:induction false} RunKeepsClosed(s: T.Store, invs: seq<Invocation>, poolId: U32, user: Address, t: int)
    requires T.Valid(s) && Closed(s, poolId, user, t) && NotBefore(invs, t)
    ensures Closed(Run(s, invs), poolId, user, t)
    decreases |invs|
  {
    if invs != [] {
      CommitKeepsClosed(s, invs[0], poolId, user, t);
      CommitKeepsValid(s, invs[0]);
      RunKeepsClosed(Commit(s, invs[0]), invs[1..], poolId, user, t);
    }
  }

  /**
   * A user is refunded from a pool at most once: after a refund at time
   * `now`, with every later invocation at `now` or after, the same refund
   * panics with "No contribution found".
   */
  lemma RefundAtMostOnce(s: T.Store, now: U64, poolId: U32, user: Address,
                         invs: seq<Invocation>, later: U64)
    requires T.Valid(s) && T.Refund(s, now, poolId, user).Ok?
    requires NotBefore(invs, now) && now <= later
    ensures T.Refund(Run(T.Refund(s, now, poolId, user).value.0, invs), later, poolId, user) == Err(NoContribution)
  {
    var t := T.Refund(s, now, poolId, user).value.0;
    T.RefundPreservesValid(s, now, poolId, user);
    RunKeepsClosed(t, invs, poolId, user, now);
  }

  /**
   * A pool that met its goal but was not finalized by its deadline `t`.
   * Invocations at `t` or later can neither finalize it nor refund from it.
   */
  ghost predicate Stranded(s: T.Store, poolId: U32, t: int) {
    && poolId in s.pools
    && s.pools[poolId].deadline < t
    && !s.pools[poolId].finalized
    && s.pools[poolId].goal <= s.pools[poolId].raised
  }

  lemma {:induction false} RunKeepsStranded(s: T.Store, invs: seq<Invocation>, poolId: U32, t: int)
    requires T.Valid(s) && Stranded(s, poolId, t) && NotBefore(invs, t)
    ensures Stranded(Run(s, invs), poolId, t)
    decreases |invs|
  {
    if invs != [] {
      CommitKeepsStranded(s, invs[0], poolId, t);
      CommitKeepsValid(s, invs[0]);
      RunKeepsStranded(Commit(s, invs[0]), invs[1..], poolId, t);
    }
  }

  lemma CommitKeepsStranded(s: T.Store, inv: Invocation, poolId: U32, t: int)
    requires T.Valid(s) && Stranded(s, poolId, t) && t <= inv.now
    ensures Stranded(Commit(s, inv), poolId, t)
  {
    CommitEvolves(s, inv);
  }

  /**
   * If a pool reaches its goal but its creator does not finalize it by the
   * deadline, its funds stay in the contract for good: from then on every
   * `finalize` of it panics and every `refund` from it panics with "Goal was
   * reached".
   */
  lemma MissedFinalizeStrandsFunds(s: T.Store, poolId: U32, t: U64, invs: seq<Invocation>,
                                   later: U64, creator: Address, user: Address)
    requires T.Valid(s) && Stranded(s, poolId, t)
    requires NotBefore(invs, t) && t <= later
    ensures T.Finalize(Run(s, invs), later, poolId, creator).Err?
    ensures T.Refund(Run(s, invs), later, poolId, user) == Err(GoalReached)
  {
    RunKeepsStranded(s, invs, poolId, t);
  }
}
