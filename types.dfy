/**
 * The value types of the CollectivePurchase contract: the machine integers it
 * uses, the opaque Soroban address, the pool record, the events it publishes and
 * the panics that abort an invocation.
 */
module Types {

  const U32_MAX: int := 0xFFFF_FFFF
  const U64_MAX: int := 0xFFFF_FFFF_FFFF_FFFF
  const I128_MIN: int := -0x8000_0000_0000_0000_0000_0000_0000_0000
  const I128_MAX: int := 0x7FFF_FFFF_FFFF_FFFF_FFFF_FFFF_FFFF_FFFF

  type U32 = x: int | 0 <= x <= U32_MAX
  type U64 = x: int | 0 <= x <= U64_MAX
  type I128 = x: int | I128_MIN <= x <= I128_MAX

  predicate InI128(x: int) {
    I128_MIN <= x <= I128_MAX
  }

  /** A Soroban `Address`: opaque, compared only for equality. */
  type Address(==)

  /** A collective-purchase pool as stored under `DataKey::Pools(id)`. */
  datatype Pool = Pool(
    id: U32,
    creator: Address,
    token: Address,
    supplier: Address,
    goal: I128,
    raised: I128,
    deadline: U64,
    finalized: bool)

  /** The events the contract publishes, tagged PC, CTR, FN and RF on the ledger. */
  datatype Event =
    | PoolCreated(id: U32, pool: Pool)
    | Contributed(id: U32, user: Address, amount: I128)
    | Finalized(id: U32, raised: I128)
    | Refunded(id: U32, user: Address, amount: I128)

  /** One variant per panic of the contract, plus arithmetic overflow. */
  datatype Error =
    | AlreadyInitialized   // "Already initialized"
    | GoalNotPositive      // "Goal must be positive"
    | DeadlineNotFuture    // "Deadline must be in the future"
    | PoolNotFound         // "Pool not found"
    | AlreadyFinalized     // "Pool is already finalized"
    | PoolFinalized        // "Pool is finalized"
    | DeadlinePassed       // "Deadline has passed"
    | AmountNotPositive    // "Amount must be positive"
    | NotCreator           // "Only creator can finalize"
    | GoalNotReached       // "Goal not reached"
    | DeadlineNotPassed    // "Deadline not passed"
    | GoalReached          // "Goal was reached"
    | NoContribution       // "No contribution found"
    | Overflow             // a checked u32 or i128 addition that overflows
}
