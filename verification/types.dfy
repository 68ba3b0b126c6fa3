/** Values of the Bountify contract: asks and bids, bounties, the events it emits
    and the reasons a message aborts. */
module Types {

  /** An account of the chain (a 32-byte key in the runtime); only equality matters. */
  type AccountId = nat

  /** A reference to off-chain content; opaque and never validated. */
  type IpfsHash = string

  /** An amount of the chain's currency (`u128` in the source, unbounded here). */
  type Balance = nat

  /** A bounty identifier (`u32` in the source; kept below 2^32 by the contract's invariant). */
  type BountyId = nat

  const U32_MAX: nat := 0xFFFF_FFFF

  datatype Option<T> = None | Some(value: T) {

    /** Rust's `unwrap_or`: the default is a value, so the caller has already evaluated it. */
    function UnwrapOr(default: T): T {
      match this
      case Some(v) => v
      case None => default
    }
  }

  /** An ask (a bounty's own terms) or a bid. On an ask, the presence of `amount`
      fixes the bounty's mode: `Some` is commission mode, `None` auction mode. */
  datatype AskBid = AskBid(doer: AccountId, data: IpfsHash, amount: Option<Balance>)

  datatype Bounty = Bounty(id: BountyId, ask: AskBid, currentBid: Option<AskBid>)

  /** The records the contract emits, kept as an append-only log. */
  datatype Event =
    | Bid(id: BountyId, bidder: AccountId, bidAmount: Option<Balance>, bidData: IpfsHash)
    | Settle(id: BountyId, asker: AccountId, bidder: AccountId, amount: Balance)

  /** Every failure of the source is a panic; this names which one. */
  datatype Error =
    | NoActiveBounty            // `expect` on a missing id
    | TransferredValueMismatch  // create: value sent differs from the commission amount
    | NotAuctionMode            // bid with an amount on a commission bounty
    | StakeMismatch             // auction bid: value sent differs from the bid amount
    | BidTooLow                 // auction bid not above the current one
    | UnwrapOnNone              // `unwrap()` of a bid amount that is absent
    | TransferFailed            // the runtime refused a transfer
    | NotCommissionMode         // bid without amount, or force-set, on an auction bounty
    | NotAsker                  // settle or force-set by someone other than the asker
    | IndexOutOfBounds          // the lookup table write after `pop`

  /** The result of a message: it completes, or it panics and the runtime reverts it. */
  datatype Outcome = Ok | Fail(error: Error)
}
