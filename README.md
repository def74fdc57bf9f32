# CollectivePurchase: a verified model

`CollectivePurchase` is a Soroban smart contract for collective-purchase funding pools. A creator opens a pool with a funding goal, a deadline, a token and a supplier. Users contribute tokens until the deadline. If the goal is reached, the creator finalizes the pool by the deadline and the funds go to the supplier. If the goal is missed, each contributor can claim a refund once the deadline has passed.

The contract keeps three kinds of entries in its instance storage:

- the pool-id counter (`DataKey::NextPoolId`);
- the pool records (`DataKey::Pools(id)`);
- the per-user contribution totals (`DataKey::Contributions(id, user)`).

It has six entry points: `initialize`, `create_pool`, `contribute`, `finalize`, `refund` and `get_pool`. Each one is guarded by panics, and a panic aborts the invocation together with every write it made.

The model has eight modules:

- `Wrappers` (`wrappers.dfy`) holds the `Option` and `Result` datatypes.
- `Types` (`types.dfy`) holds the machine integers the contract uses (`u32`, `u64` and `i128`, as bounded subset types), the opaque `Address`, the `Pool` record, the published events (PC, CTR, FN, RF) and one error per panic message, plus `Overflow`. The two finalized panics stay apart: `AlreadyFinalized` is "Pool is already finalized" (contribute, finalize) and `PoolFinalized` is "Pool is finalized" (refund).
- `Transitions` (`transitions.dfy`) models instance storage as a value, `Store`, with one field per `DataKey` variant plus the stream of published events. Each entry point is a function from the storage before the call to `Ok(new storage)` or `Err(panic)`. A failing call produces no new storage, which is how the model expresses the rollback. `Valid` is the invariant every reachable storage satisfies, and each entry point preserves it.
- `EventLog` (`event_log.dfy`) replays the event stream.
- `History` (`history.dfy`) runs sequences of invocations, each at its own ledger timestamp. Its lemmas state what holds across any history:
  - pool ids strictly increase;
  - `raised` never decreases;
  - `finalized` is never cleared;
  - finalize and refund exclude each other, over time as well as at one instant;
  - a user is refunded at most once;
  - replaying the published events rebuilds the pools and the contribution entries (not the counter, which no event records).
- `Solvency` (`solvency.dfy`) proves a refund-accounting identity per pool: refunds already paid plus contribution entries still recorded equal `raised` exactly. It does not count the payment to the supplier; the entries of a finalized pool are recorded but no longer refundable.
- `Payout` (`payout.dfy`) adds the supplier payment. A pool pays its supplier `raised` once, when it is finalized, and nothing before. When the invocations run in ledger order (each at the time of the previous one or later), a finalized pool has refunded nothing, so refunds plus the supplier payment never exceed `raised`.
- `Contract` (`contract.dfy`) holds the contract as a class, `CollectivePurchase`. Its fields are the counter, the two maps and the event log. Its methods update them step by step, as the Rust code does, and each method is proved to leave exactly the storage that the matching `Transitions` function describes.

The models of `finalize` and `refund` show that a pool can get stuck. If a pool reaches its goal but is not finalized by its deadline, it can no longer be finalized (the deadline has passed) and no one can be refunded (the goal was reached). The tokens stay in the contract. `History.MissedFinalizeStrandsFunds` states this.

Overflow is modelled as a panic. The `next_id + 1` and `+=` on `i128` are taken to panic on overflow, which is what a Soroban build with `overflow-checks = true` does. Under `Valid`, the addition to a user's entry can never overflow before the addition to `raised` does (`Transitions.ContributeSucceedsIff`).

## Model

| member | source | states |
|---|---|---|
| `Transitions.EmptyValid` | src/lib.rs:19-24 | a freshly deployed contract (no counter, no pools, no contributions, no events) satisfies the storage invariant |
| `Transitions.Initialize` | src/lib.rs:32-37 | succeeds exactly when the counter is unset, and then sets it to 1 and changes nothing else; otherwise panics "Already initialized" |
| `Transitions.InitializePreservesValid` | src/lib.rs:32-37 | initialize keeps the storage invariant |
| `Transitions.CreatePool` | src/lib.rs:40-72 | succeeds exactly when goal > 0, deadline > now and the counter increment does not overflow u32, with the panic chosen in the source's order; returns the old counter value (1 if unset), advances the counter by one, and stores a pool with that id, the given parties, goal and deadline, raised 0 and finalized false; other pools, the contributions and all earlier events are unchanged, and a PC event is appended |
| `Transitions.CreatePoolPreservesValid` | src/lib.rs:53-66 | on a valid storage the new id is larger than every existing id, so no existing pool is overwritten, and the invariant is kept |
| `Transitions.Contribute` | src/lib.rs:75-97 | success implies the pool exists, is not finalized, now ≤ deadline and amount > 0; each failed check yields its own panic, in the order the source checks them; when all four checks pass, only an overflow can make it fail |
| `Transitions.ContributeEffect` | src/lib.rs:87-96 | on success the pool's raised and the user's entry (0 when absent) each grow by exactly amount; every other pool, every other user's entry and the counter are unchanged; one CTR event is appended |
| `Transitions.ContributeSucceedsIff` | src/lib.rs:78-91 | on a valid storage, contribute succeeds if and only if the pool exists, is not finalized, now ≤ deadline, amount > 0 and raised + amount fits in i128; so the second addition, to the user's entry, never overflows first |
| `Transitions.ContributeWrites` | src/lib.rs:87-93 | when every check passes, contribute's result is exactly the store with raised, the user's entry and the event log updated, and that store is valid |
| `Transitions.ValidAfterContribution` | src/lib.rs:88-93 | the three writes of a contribution keep the storage invariant |
| `Transitions.ContributePreservesValid` | src/lib.rs:75-97 | contribute keeps the storage invariant |
| `Transitions.Finalize` | src/lib.rs:100-118 | succeeds exactly when the pool exists, the caller is its creator, it is not finalized, now ≤ deadline and raised ≥ goal, each failure with the source's panic in order; on success only finalized flips to true (raised, goal, deadline and all other pools unchanged), and an FN event carrying raised is appended |
| `Transitions.FinalizePreservesValid` | src/lib.rs:113-117 | finalize keeps the storage invariant |
| `Transitions.Refund` | src/lib.rs:121-142 | succeeds exactly when the pool exists, is not finalized, now > deadline, raised < goal and the user's entry is > 0, each failure with the source's panic in order; on success it pays out the whole entry, deletes exactly that entry, and leaves the pools (raised included), the counter and all other entries unchanged; one RF event is appended |
| `Transitions.RefundPreservesValid` | src/lib.rs:129-141 | refund keeps the storage invariant |
| `Transitions.RefundNotRepeatable` | src/lib.rs:129-138 | right after a successful refund, the same user's refund from the same pool panics, whatever the time |
| `Transitions.GetPool` | src/lib.rs:145-147 | returns the stored record exactly when the id is present; otherwise panics "Pool not found" |
| `Transitions.FinalizeRefundExclusive` | src/lib.rs:102-127 | for one pool at one instant, finalize and refund never both succeed |
| `History.Invoke` | src/lib.rs:29-148 | dispatches a call to its entry point; a successful invocation only appends to the event log, by at most one event; get_pool leaves the storage untouched and returns the stored pool; create_pool returns an id |
| `History.Commit` | src/lib.rs:29-148 | a panicking invocation leaves the storage exactly as it was (all its writes rolled back); a successful one leaves its writes; either way the event log only grows, by at most one event |
| `History.Run` | src/lib.rs:29-148 | after any history of n invocations the event log is an extension of the old one by at most n events |
| `History.CommitKeepsValid` | src/lib.rs:29-148 | every invocation, committed or aborted, keeps the invariant; the counter never decreases, no pool disappears, a pool's identity, parties, goal and deadline never change, raised never decreases, finalized is never cleared, and the event log is append-only |
| `History.RunKeepsValid` | src/lib.rs:29-148 | the same holds across any sequence of invocations |
| `History.ReachableValid` | src/lib.rs:29-148 | every storage reached from deployment is valid |
| `History.EventLogRebuildsStorage` | src/lib.rs:65-141 | in every reachable storage, replaying the published PC/CTR/FN/RF events from nothing rebuilds exactly the stored pools and contribution entries |
| `History.InitializeOnlyOnce` | src/lib.rs:32-37 | after a successful initialize, initialize panics "Already initialized" after any later history |
| `History.CreatedIdsIncrease` | src/lib.rs:53-66 | ids returned by two create_pool calls, with any history between them, strictly increase |
| `History.FinalizedIsTerminal` | src/lib.rs:78-127 | once a pool is finalized, after any history every contribute to it panics "Pool is already finalized", every refund from it panics "Pool is finalized", and finalize panics |
| `History.RefundedIsNeverFinalized` | src/lib.rs:102-127 | after a refund from a pool at time t, no finalize of it at a time ≥ t succeeds, whatever happened in between |
| `History.RefundAtMostOnce` | src/lib.rs:124-138 | after a user's refund at time t, with every later invocation at t or after, that user's refund panics "No contribution found" |
| `History.MissedFinalizeStrandsFunds` | src/lib.rs:102-127 | a pool that met its goal but was not finalized by its deadline can, from then on, neither be finalized nor refund anyone ("Goal was reached") |
| `Solvency.CreatePoolKeepsSolvent` | src/lib.rs:53-66 | create_pool keeps every pool's refund identity: refunds paid plus recorded entries equal raised |
| `Solvency.ContributeKeepsSolvent` | src/lib.rs:87-92 | contribute keeps that identity (both sides grow by amount) |
| `Solvency.FinalizeKeepsSolvent` | src/lib.rs:113-114 | finalize keeps that identity (the supplier payment is accounted in `Payout`) |
| `Solvency.RefundKeepsSolvent` | src/lib.rs:130-138 | refund keeps that identity (the paid amount moves from recorded entries to refunded) |
| `Solvency.CommitKeepsSolvent` | src/lib.rs:29-148 | every invocation, committed or aborted, keeps that identity |
| `Solvency.RunKeepsSolvent` | src/lib.rs:29-148 | any history keeps that identity |
| `Solvency.RefundedWithinRaised` | src/lib.rs:124-138 | in a valid storage that satisfies the refund identity, a pool's refunds lie between 0 and its raised |
| `Solvency.RefundsBounded` | src/lib.rs:124-138 | in a valid, solvent storage, a pool's refunds are between 0 and raised, and a user's recorded entry is at most raised minus refunds already paid |
| `Solvency.RefundsCoveredByRaised` | src/lib.rs:29-148 | from deployment on, every pool's refunds paid plus recorded entries equal raised, so refunds never exceed what the pool raised |
| `Payout.CreatePoolKeepsSupplierPaidOnce` | src/lib.rs:53-69 | create_pool keeps "every pool has paid its supplier raised if finalized, nothing otherwise"; a new pool has paid nothing |
| `Payout.ContributeKeepsSupplierPaidOnce` | src/lib.rs:79-96 | contribute keeps it: it only reaches unfinalized pools and publishes no supplier payment |
| `Payout.FinalizeKeepsSupplierPaidOnce` | src/lib.rs:104-117 | finalize keeps it: it pays raised to the supplier of an unfinalized pool exactly when it marks it finalized |
| `Payout.RefundKeepsSupplierPaidOnce` | src/lib.rs:124-141 | refund keeps it: it changes no pool and pays no supplier |
| `Payout.CommitKeepsSupplierPaidOnce` | src/lib.rs:29-148 | every invocation keeps it |
| `Payout.RunKeepsSupplierPaidOnce` | src/lib.rs:29-148 | any history keeps it, so no supplier is ever paid twice |
| `Payout.CreatePoolKeepsRefundsAfterDeadline` | src/lib.rs:53-69 | create_pool at time ≥ t keeps "every pool that has refunded is unfinalized and past its deadline before the current time" |
| `Payout.ContributeKeepsRefundsAfterDeadline` | src/lib.rs:78-96 | contribute at time ≥ t keeps it |
| `Payout.FinalizeKeepsRefundsAfterDeadline` | src/lib.rs:102-114 | finalize at time ≥ t keeps it: a pool that has refunded is past its deadline, so the deadline check fails on it |
| `Payout.RefundKeepsRefundsAfterDeadline` | src/lib.rs:124-141 | refund keeps it: it only pays from an unfinalized pool whose deadline has passed |
| `Payout.CommitKeepsRefundsAfterDeadline` | src/lib.rs:29-148 | every invocation at time ≥ t keeps it, with its own time as the new bound |
| `Payout.RunKeepsRefundsAfterDeadline` | src/lib.rs:29-148 | a history in ledger order keeps it, bounded by its last invocation's time |
| `Payout.PayoutCoveredByRaised` | src/lib.rs:100-142 | from deployment, through invocations in ledger order: a finalized pool has refunded nothing and paid its supplier exactly raised, an unfinalized one has paid its supplier nothing, and refunds plus the supplier payment of every pool lie between 0 and raised |
| `Contract.CollectivePurchase.constructor` | src/lib.rs:26-27 | a deployed contract starts with empty instance storage and no events |
| `Contract.CollectivePurchase.Initialize` | src/lib.rs:32-37 | checks the counter and sets it; the resulting storage and reply are exactly those of `Transitions.Initialize`, and a panic leaves the storage unchanged |
| `Contract.CollectivePurchase.CreatePool` | src/lib.rs:40-72 | checks goal, deadline and the counter, writes the pool, the counter and the PC event; the resulting storage and returned id are exactly those of `Transitions.CreatePool` |
| `Contract.CollectivePurchase.Contribute` | src/lib.rs:75-97 | reads the pool, checks it, updates raised and the user's entry in place and writes them back; the resulting storage is exactly that of `Transitions.Contribute` |
| `Contract.CollectivePurchase.Finalize` | src/lib.rs:100-118 | reads the pool, checks it, sets finalized and writes it back; the resulting storage is exactly that of `Transitions.Finalize` |
| `Contract.CollectivePurchase.Refund` | src/lib.rs:121-142 | reads the pool and the user's entry, checks them and removes the entry; the resulting storage is exactly that of `Transitions.Refund` |
| `Contract.CollectivePurchase.GetPool` | src/lib.rs:145-147 | returns the stored pool exactly when the id is present, otherwise the "Pool not found" panic; its reply equals `Transitions.GetPool` on the current storage; changes nothing |

## Left out

- Authorization: `require_auth()` on the creator and the user (src/lib.rs:48, 76, 101, 122) is host authorization. The model assumes it succeeds.
- Token transfers: `transfer_from` and `transfer` on the pool's token (src/lib.rs:84-85, 110-111, 134-135) are calls into another contract. They are not modelled. Their failure would abort the invocation like any other panic. The amounts these calls move are still accounted for: contributions in and refunds out in `Solvency`, the transfer of `raised` to the supplier in `Payout`.
- The ledger clock: `env.ledger().timestamp()` is a `now` parameter of each call. The model does not require timestamps to increase across invocations.
- `History.RefundedIsNeverFinalized`: holds only for a later time ≥ the refund's time, because the model does not impose monotone ledger time.
- `History.RefundAtMostOnce`: holds only when every invocation between the two refunds runs at or after the first refund's time, for the same reason.
- `History.MissedFinalizeStrandsFunds`: holds only for invocations at or after the time at which the pool is already past its deadline, for the same reason.
- `Payout.PayoutCoveredByRaised`: holds only for histories whose invocations run in ledger order. With timestamps out of order, a pool can refund a contributor after its deadline and then be finalized at an earlier time, paying out more than it raised.
- Storage: host storage is modelled as three plain fields (counter, pools map, contributions map). Instance-storage TTL and the host's serialization of `#[contracttype]` values are not modelled.
- Events: each event is modelled as a constructor named after its `symbol_short!` tag (PC, CTR, FN, RF) that carries the pool id, the user (CTR, RF) and the data (the pool, the amount or `raised`), in an append-only sequence. Only the on-ledger encoding of the topics and the `symbol_short!` symbols is not modelled.
- Overflow: the panic-on-overflow reading of `next_id + 1` and `+=` on `i128` assumes overflow checks are enabled in the build profile. The build configuration is not part of this model. A build without them would wrap instead.
- Panic order inside `create_pool`: the model checks the counter increment before writing the pool, while the source writes the pool first (src/lib.rs:65-66). The panic rolls that write back, so the difference is not observable.
- The off-chain event-hydration and caching service of the repository (event paging, decoding, orphan buffering, range negotiation, snapshots, single-flight coordination) is not part of this model. None of its source is among the modelled files. `EventLog` only replays the contract's own events, to show that they determine the storage.
