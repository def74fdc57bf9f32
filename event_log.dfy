/**
 * Replaying the contract's event stream. Each event carries enough to redo the
 * storage write that accompanied it, so folding the stream from an empty store
 * rebuilds every pool record and every contribution entry.
 */
module EventLog {
  import opened Types

  /** The effect of one event on the pool records. */
  function ApplyToPools(pools: map<U32, Pool>, e: Event): map<U32, Pool> {
    match e
    case PoolCreated(id, pool) => pools[id := pool]
    case Contributed(id, _, amount) =>
      if id in pools && InI128(pools[id].raised + amount)
      then pools[id := pools[id].(raised := pools[id].raised + amount)]
      else pools
    case Finalized(id, _) =>
      if id in pools then pools[id := pools[id].(finalized := true)] else pools
    case Refunded(_, _, _) => pools
  }

  /** The effect of one event on the per-user contribution entries. */
  function ApplyToContributions(c: map<(U32, Address), I128>, e: Event): map<(U32, Address), I128> {
    match e
    case PoolCreated(_, _) => c
    case Contributed(id, user, amount) =>
      var prior := if (id, user) in c then c[(id, user)] else 0;
      if InI128(prior + amount) then c[(id, user) := prior + amount] else c
    case Finalized(_, _) => c
    case Refunded(id, user, _) => c - {(id, user)}
  }

  /** The pool records obtained by replaying `events` from an empty store. */
  function ReplayPools(events: seq<Event>): map<U32, Pool>
    decreases |events|
  {
    if events == [] then map[]
    else ApplyToPools(ReplayPools(events[..|events| - 1]), events[|events| - 1])
  }

  /** The contribution entries obtained by replaying `events` from an empty store. */
  function ReplayContributions(events: seq<Event>): map<(U32, Address), I128>
    decreases |events|
  {
    if events == [] then map[]
    else ApplyToContributions(ReplayContributions(events[..|events| - 1]), events[|events| - 1])
  }

  /** Replaying one more event is applying it to the replay of the prefix. */
  lemma ReplayAppend(events: seq<Event>, e: Event)
    ensures ReplayPools(events + [e]) == ApplyToPools(ReplayPools(events), e)
    ensures ReplayContributions(events + [e]) == ApplyToContributions(ReplayContributions(events), e)
  {
    assert (events + [e])[..|events|] == events;
  }
}
