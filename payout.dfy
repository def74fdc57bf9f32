/**
 * Everything a pool pays out: the refunds to its contributors and the
 * transfer of `raised` to the supplier when it is finalized. A pool pays its
 * supplier exactly once, and only if it is finalized; and in a history whose
 * invocations run in ledger order, a finalized pool has refunded nothing, so
 * what a pool pays out in total never exceeds what it raised.
 */
module Payout {
  import opened Types
  import T = Transitions
  import H = History
  import S = Solvency

  /** The amount an event pays the supplier of pool `poolId`. */
  function SupplierAmount(e: Event, poolId: U32): int {
    match e
    case Finalized(id, raised) => if id == poolId then raised else 0
    case _ => 0
  }

  /** The total the event stream records as paid to the supplier of pool `poolId`. */
  function PaidToSupplier(events: seq<Event>, poolId: U32): int
    decreases |events|
  {
    if events == [] then 0
    else PaidToSupplier(events[..|events| - 1], poolId) + SupplierAmount(events[|events| - 1], poolId)
  }

  lemma PaidToSupplierAppend(events: seq<Event>, e: Event, poolId: U32)
    ensures PaidToSupplier(events + [e], poolId) == PaidToSupplier(events, poolId) + SupplierAmount(e, poolId)
  {
    assert (events + [e])[..|events|] == events;
  }

  /** A pool no event names has paid its supplier nothing. */
  lemma {:induction false} PaidToSupplierUnnamed(events: seq<Event>, poolId: U32)
    requires forall i :: 0 <= i < |events| ==> events[i].id != poolId
    ensures PaidToSupplier(events, poolId) == 0
    decreases |events|
  {
    if events != [] {
      PaidToSupplierUnnamed(events[..|events| - 1], poolId);
    }
  }

  /** Every pool has paid its supplier `raised` if it is finalized, and nothing otherwise. */
  ghost predicate SupplierPaidOnce(s: T.Store) {
    forall id :: id in s.pools ==>
      PaidToSupplier(s.events, id) == if s.pools[id].finalized then s.pools[id].raised else 0
  }

  lemma CreatePoolKeepsSupplierPaidOnce(s: T.Store, now: U64, creator: Address, token: Address,
                                        supplier: Address, goal: I128, deadline: U64)
    requires T.Valid(s) && SupplierPaidOnce(s)
    requires T.CreatePool(s, now, creator, token, supplier, goal, deadline).Ok?
    ensures SupplierPaidOnce(T.CreatePool(s, now, creator, token, supplier, goal, deadline).value.0)
  {
    var (t, newId) := T.CreatePool(s, now, creator, token, supplier, goal, deadline).value;
    T.CreatePoolPreservesValid(s, now, creator, token, supplier, goal, deadline);
    forall id | id in t.pools
      ensures PaidToSupplier(t.events, id) == if t.pools[id].finalized then t.pools[id].raised else 0
    {
      PaidToSupplierAppend(s.events, PoolCreated(newId, t.pools[newId]), id);
      if id == newId {
        PaidToSupplierUnnamed(s.events, id);
      }
    }
  }

  lemma ContributeKeepsSupplierPaidOnce(s: T.Store, now: U64, poolId: U32, user: Address, amount: I128)
    requires SupplierPaidOnce(s) && T.Contribute(s, now, poolId, user, amount).Ok?
    ensures SupplierPaidOnce(T.Contribute(s, now, poolId, user, amount).value)
  {
    var t := T.Contribute(s, now, poolId, user, amount).value;
    T.ContributeEffect(s, now, poolId, user, amount);
    forall id | id in t.pools
      ensures PaidToSupplier(t.events, id) == if t.pools[id].finalized then t.pools[id].raised else 0
    {
      PaidToSupplierAppend(s.events, Contributed(poolId, user, amount), id);
    }
  }

  lemma FinalizeKeepsSupplierPaidOnce(s: T.Store, now: U64, poolId: U32, creator: Address)
    requires SupplierPaidOnce(s) && T.Finalize(s, now, poolId, creator).Ok?
    ensures SupplierPaidOnce(T.Finalize(s, now, poolId, creator).value)
  {
    var t := T.Finalize(s, now, poolId, creator).value;
    forall id | id in t.pools
      ensures PaidToSupplier(t.events, id) == if t.pools[id].finalized then t.pools[id].raised else 0
    {
      PaidToSupplierAppend(s.events, Finalized(poolId, s.pools[poolId].raised), id);
    }
  }

  lemma RefundKeepsSupplierPaidOnce(s: T.Store, now: U64, poolId: U32, user: Address)
    requires SupplierPaidOnce(s) && T.Refund(s, now, poolId, user).Ok?
    ensures SupplierPaidOnce(T.Refund(s, now, poolId, user).value.0)
  {
    var (t, amount) := T.Refund(s, now, poolId, user).value;
    forall id | id in t.pools
      ensures PaidToSupplier(t.events, id) == if t.pools[id].finalized then t.pools[id].raised else 0
    {
      PaidToSupplierAppend(s.events, Refunded(poolId, user, amount), id);
    }
  }

  lemma CommitKeepsSupplierPaidOnce(s: T.Store, inv: H.Invocation)
    requires T.Valid(s) && SupplierPaidOnce(s)
    ensures SupplierPaidOnce(H.Commit(s, inv))
  {
    var now := inv.now;
    match inv.call
    case Initialize =>
    case CreatePool(creator, token, supplier, goal, deadline) =>
      if T.CreatePool(s, now, creator, token, supplier, goal, deadline).Ok? {
        CreatePoolKeepsSupplierPaidOnce(s, now, creator, token, supplier, goal, deadline);
      }
    case Contribute(poolId, user, amount) =>
      if T.Contribute(s, now, poolId, user, amount).Ok? {
        ContributeKeepsSupplierPaidOnce(s, now, poolId, user, amount);
      }
    case Finalize(poolId, creator) =>
      if T.Finalize(s, now, poolId, creator).Ok? {
        FinalizeKeepsSupplierPaidOnce(s, now, poolId, creator);
      }
    case Refund(poolId, user) =>
      if T.Refund(s, now, poolId, user).Ok? {
        RefundKeepsSupplierPaidOnce(s, now, poolId, user);
      }
    case GetPool(_) =>
  }

  /** Any history keeps every pool's supplier paid once, on finalization. */
  lemma {:induction false} RunKeepsSupplierPaidOnce(s: T.Store, invs: seq<H.Invocation>)
    requires T.Valid(s) && SupplierPaidOnce(s)
    ensures SupplierPaidOnce(H.Run(s, invs))
    decreases |invs|
  {
    if invs != [] {
      CommitKeepsSupplierPaidOnce(s, invs[0]);
      H.CommitKeepsValid(s, invs[0]);
      RunKeepsSupplierPaidOnce(H.Commit(s, invs[0]), invs[1..]);
    }
  }

  /**
   * Every pool that has refunded something was past its deadline before time
   * `t`, and is not finalized.
   */
  ghost predicate RefundsAfterDeadline(s: T.Store, t: int) {
    forall id :: id in s.pools && S.RefundedTotal(s.events, id) != 0 ==>
      s.pools[id].deadline < t && !s.pools[id].finalized
  }

  /**
   * An invocation at time `t` or later keeps that property, with its own time
   * as the new bound: a refund needs the deadline passed, and a pool past its
   * deadline can no longer be finalized.
   */
  lemma CreatePoolKeepsRefundsAfterDeadline(s: T.Store, now: U64, creator: Address, token: Address,
                                            supplier: Address, goal: I128, deadline: U64, t: int)
    requires T.Valid(s) && RefundsAfterDeadline(s, t) && t <= now
    requires T.CreatePool(s, now, creator, token, supplier, goal, deadline).Ok?
    ensures RefundsAfterDeadline(T.CreatePool(s, now, creator, token, supplier, goal, deadline).value.0, now)
  {
    var (u, newId) := T.CreatePool(s, now, creator, token, supplier, goal, deadline).value;
    T.CreatePoolPreservesValid(s, now, creator, token, supplier, goal, deadline);
    forall id | id in u.pools && S.RefundedTotal(u.events, id) != 0
      ensures u.pools[id].deadline < now && !u.pools[id].finalized
    {
      S.RefundedTotalAppend(s.events, PoolCreated(newId, u.pools[newId]), id);
      if id == newId {
        S.RefundedTotalUnnamed(s.events, id);
      }
    }
  }

  lemma ContributeKeepsRefundsAfterDeadline(s: T.Store, now: U64, poolId: U32, user: Address,
                                            amount: I128, t: int)
    requires RefundsAfterDeadline(s, t) && t <= now && T.Contribute(s, now, poolId, user, amount).Ok?
    ensures RefundsAfterDeadline(T.Contribute(s, now, poolId, user, amount).value, now)
  {
    var u := T.Contribute(s, now, poolId, user, amount).value;
    T.ContributeEffect(s, now, poolId, user, amount);
    forall id | id in u.pools && S.RefundedTotal(u.events, id) != 0
      ensures u.pools[id].deadline < now && !u.pools[id].finalized
    {
      S.RefundedTotalAppend(s.events, Contributed(poolId, user, amount), id);
    }
  }

  /** The step that needs ledger order: a pool that has refunded is past its deadline, so finalize fails on it. */
  lemma FinalizeKeepsRefundsAfterDeadline(s: T.Store, now: U64, poolId: U32, creator: Address, t: int)
    requires RefundsAfterDeadline(s, t) && t <= now && T.Finalize(s, now, poolId, creator).Ok?
    ensures RefundsAfterDeadline(T.Finalize(s, now, poolId, creator).value, now)
  {
    var u := T.Finalize(s, now, poolId, creator).value;
    forall id | id in u.pools && S.RefundedTotal(u.events, id) != 0
      ensures u.pools[id].deadline < now && !u.pools[id].finalized
    {
      S.RefundedTotalAppend(s.events, Finalized(poolId, s.pools[poolId].raised), id);
    }
  }

  lemma RefundKeepsRefundsAfterDeadline(s: T.Store, now: U64, poolId: U32, user: Address, t: int)
    requires RefundsAfterDeadline(s, t) && t <= now && T.Refund(s, now, poolId, user).Ok?
    ensures RefundsAfterDeadline(T.Refund(s, now, poolId, user).value.0, now)
  {
    var (u, amount) := T.Refund(s, now, poolId, user).value;
    forall id | id in u.pools && S.RefundedTotal(u.events, id) != 0
      ensures u.pools[id].deadline < now && !u.pools[id].finalized
    {
      S.RefundedTotalAppend(s.events, Refunded(poolId, user, amount), id);
    }
  }

  /**
   * An invocation at time `t` or later keeps that property, with its own time
   * as the new bound: a refund needs the deadline passed, and a pool past its
   * deadline can no longer be finalized.
   */
  lemma CommitKeepsRefundsAfterDeadline(s: T.Store, inv: H.Invocation, t: int)
    requires T.Valid(s) && RefundsAfterDeadline(s, t) && t <= inv.now
    ensures RefundsAfterDeadline(H.Commit(s, inv), inv.now)
  {
    var now := inv.now;
    match inv.call
    case Initialize =>
    case CreatePool(creator, token, supplier, goal, deadline) =>
      if T.CreatePool(s, now, creator, token, supplier, goal, deadline).Ok? {
        CreatePoolKeepsRefundsAfterDeadline(s, now, creator, token, supplier, goal, deadline, t);
      }
    case Contribute(poolId, user, amount) =>
      if T.Contribute(s, now, poolId, user, amount).Ok? {
        ContributeKeepsRefundsAfterDeadline(s, now, poolId, user, amount, t);
      }
    case Finalize(poolId, creator) =>
      if T.Finalize(s, now, poolId, creator).Ok? {
        FinalizeKeepsRefundsAfterDeadline(s, now, poolId, creator, t);
      }
    case Refund(poolId, user) =>
      if T.Refund(s, now, poolId, user).Ok? {
        RefundKeepsRefundsAfterDeadline(s, now, poolId, user, t);
      }
    case GetPool(_) =>
  }

  /** A history in ledger order keeps the property, bounded by its last invocation's time. */
  lemma {:induction false} RunKeepsRefundsAfterDeadline(s: T.Store, invs: seq<H.Invocation>, t: int)
    requires T.Valid(s) && RefundsAfterDeadline(s, t) && H.Chronological(invs, t)
    ensures RefundsAfterDeadline(H.Run(s, invs), H.LastTime(invs, t))
    decreases |invs|
  {
    if invs != [] {
      CommitKeepsRefundsAfterDeadline(s, invs[0], t);
      H.CommitKeepsValid(s, invs[0]);
      RunKeepsRefundsAfterDeadline(H.Commit(s, invs[0]), invs[1..], invs[0].now);
    }
  }

  /**
   * In every storage a deployed contract reaches through invocations in
   * ledger order, a finalized pool has refunded nothing and paid its supplier
   * exactly `raised`, an unfinalized one has paid its supplier nothing, and
   * the refunds plus the supplier payment of every pool never exceed what it
   * raised.
   */
  lemma PayoutCoveredByRaised(invs: seq<H.Invocation>, poolId: U32)
    requires H.Chronological(invs, 0)
    requires poolId in H.Run(T.Empty(), invs).pools
    ensures var s := H.Run(T.Empty(), invs);
      && (s.pools[poolId].finalized ==>
            S.RefundedTotal(s.events, poolId) == 0 && PaidToSupplier(s.events, poolId) == s.pools[poolId].raised)
      && (!s.pools[poolId].finalized ==> PaidToSupplier(s.events, poolId) == 0)
      && 0 <= S.RefundedTotal(s.events, poolId) + PaidToSupplier(s.events, poolId) <= s.pools[poolId].raised
  {
    var s := H.Run(T.Empty(), invs);
    T.EmptyValid();
    H.ReachableValid(invs);
    S.RunKeepsSolvent(T.Empty(), invs);
    RunKeepsSupplierPaidOnce(T.Empty(), invs);
    RunKeepsRefundsAfterDeadline(T.Empty(), invs, 0);
    S.RefundedWithinRaised(s, poolId);
  }
}
