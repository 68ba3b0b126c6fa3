# Bountify, modelled in Dafny

Bountify is an ink! smart contract for a bounty marketplace. An asker posts a
bounty that points at off-chain content. Other accounts then bid on it, and the
asker settles it. The amount on the ask fixes the bounty's mode for its whole
life:

- **Commission mode** (`ask.amount = Some(A)`): the asker escrows `A` at
  creation. Bids carry no amount, and each new bid simply replaces the
  current one. The asker may also force a bid of their choosing.
- **Auction mode** (`ask.amount = None`): each bid stakes a strictly larger
  amount, and the outbid stake is refunded at once. Settlement pays the
  winning stake to the asker.

The contract's storage has three parts:

- the map `active_bounties`;
- the `u32` counter `bounty_counter`;
- the dense table `bounty_lookup_table`, which lists the active ids.

Settle deletes a bounty from the map and removes its id from the table. The
removal finds the id's slot, pops the last entry, and writes the popped id
into that slot.

The project has six modules:

- `Types` (`types.dfy`): the values `AskBid`, `Bounty` and `Event`, the
  panic reasons `Error`, and `Outcome`.
- `LookupTable` (`lookup_table.dfy`): the removal loop and its specification
  `SwapRemoved`.
- `Storage` (`storage.dfy`): the invariant that ties the store, the table and
  the counter together, and the custody sum `Escrowed`. That sum is the
  funds held for active bounties: each commission escrow plus each live
  auction stake.
- `Queries` (`queries.dfy`): `get_bounties_for_user` as a function.
- `Contract` (`bountify.dfy`): the contract as a class with the storage
  fields. It also holds the part of the runtime the messages touch: the
  contract's balance, a ghost record of what each account has received from
  the contract, and a ghost append-only event log.
- `Scenarios` (`scenarios.dfy`): short runs from the default state.

Every failure in the source is a panic: an `assert!`, an `expect`, an
`unwrap`, or an index out of bounds. A panic reverts the message, including
the value sent with it. So each message returns `Ok` or `Fail(reason)`, and
on `Fail` nothing changes: not the storage, the balance, the payments or the
log. The caller and the value transferred with the call are parameters. A
transfer out of the contract fails exactly when the contract's balance is
below the amount.

The source differs from its evident design in three ways. The model keeps
the behaviour as written:

- **Settling a commission bounty that has a bid always aborts.**
  `unwrap_or(chosen_bid.amount.unwrap())` evaluates its argument first, and
  commission bids never carry an amount. This is `Bountify.Settle`'s
  `UnwrapOnNone` case, and `Scenarios.CommissionSettlement` shows it.
- **Settling the bounty in the last table slot always aborts.** This
  includes the only active bounty. The write after `pop` indexes one past
  the new end. See `LookupTable.SwapRemovedCorrect` and
  `Scenarios.SettleOnlyBounty`.
- **Commission escrow can be stranded.** Settling a bounty with no bid
  deletes it without any refund. `Bountify.Settle` states that the
  contract's unaccounted funds (`Stranded()`) grow by the bounty's stake.
  Value sent with an auction-mode creation, a commission bid, a force-set or
  a settle is stranded in the same way.

The code shows the intent in the first two cases. The `receiver` computation
at lib.rs:143-147 sends a commission payout to the chosen bidder. The loop at
lib.rs:162-169 is meant to move the last id into the freed slot. For the third
case the source has no refund path at all: when there is no bid, `settle`
goes straight from lib.rs:141 to the deletion at lib.rs:161. In all three
cases the model follows the code as written.

## Model

| member | source | states |
|---|---|---|
| `Contract.Bountify.Default` | lib.rs:41-53 | Default storage (empty store, counter 0, empty table) satisfies the invariant |
| `Contract.Bountify.GetAndIncrementBountyCounter` | lib.rs:212-216 | Returns the old counter and leaves it exactly one higher |
| `Contract.Bountify.CreateBounty` | lib.rs:55-75 | Fails, changing nothing, iff an amount is given and the value sent differs. On success, stores `(counter, (caller, content, amount), None)` under a never-used id, appends exactly that id to the table, advances the counter, and keeps the invariant. Value sent in auction mode is stranded |
| `Contract.Bountify.BidForBounty` | lib.rs:77-127 | Gives the exact failure reason for each case: absent id, wrong mode, stake ≠ value, or amount not above the current bid. On success, sets `current_bid` to `(caller, content, amount)` and leaves `id` and `ask` unchanged. The outbid bidder gets exactly its stake back, and one `Bid` record is logged. Custody is exact: an auction bid leaves the stranded funds unchanged |
| `Contract.Bountify.Settle` | lib.rs:129-170 | Fails on an absent id or a non-asker caller. Always fails (`UnwrapOnNone`) on a commission bounty with a bid. Otherwise succeeds iff the id is not in the last table slot. On success, deletes the bounty from the store and removes it from the table as `SwapRemoved` says. With no bid, it makes no transfer and logs no event, and the stake becomes stranded. In auction mode, it pays the winning stake to the asker and logs `Settle` |
| `Contract.Bountify.RemoveBounty` | lib.rs:161-169 | The deletion ending `settle` fails, changing nothing, iff the id is the last table entry. Otherwise the bounty leaves the store, the table becomes `SwapRemoved`, the invariant holds, and the custody sum drops by exactly that bounty's stake |
| `Contract.Bountify.ForceSetCurrentBid` | lib.rs:172-191 | Fails on an absent id, a non-asker caller or auction mode. Otherwise sets `current_bid := (bidder, bid_data, None)` and changes nothing else: no transfer, no event |
| `Contract.Bountify.GetBounties` | lib.rs:193-201 | Returns the bounty of each table slot, in table order, so each active bounty appears, and nothing else |
| `Contract.Bountify.GetBountiesForUser` | lib.rs:203-210 | Holds exactly the active bounties whose asker is the given account |
| `Queries.BountiesForUser` | lib.rs:205-209 | Every result is asked by the account and comes from a table slot. Every matching slot's bounty is in the result |
| `Queries.UserSlotsExact` | lib.rs:205-209 | The matching slots are exactly the slots whose bounty is asked by the account |
| `Queries.BountiesForUserInTableOrder` | lib.rs:205-209 | The k-th result is the bounty of the k-th matching slot, and the slots are in increasing order |
| `LookupTable.IndexOf` | lib.rs:162-163 | The slot where the search stops holds the id, and no earlier slot does |
| `LookupTable.RemoveFromTable` | lib.rs:162-169 | The search, pop and indexed-write loop computes `SwapRemoved`: `None` when the write is out of bounds |
| `LookupTable.SwapRemovedCorrect` | lib.rs:162-169 | On distinct ids, removal fails iff the target is last. Otherwise the table is one shorter, the target's slot holds the former last id, and every other slot is unchanged. The ids stay distinct and are the old ones minus the target |
| `Storage.ConsistentAfterCreate` | lib.rs:57-70 | A creation keeps the invariant: distinct table ids, table ids = store keys, each bounty's `id` = its key, all ids below the counter, bid shape fits the mode. The custody sum grows by the new stake |
| `Storage.ConsistentAfterBid` | lib.rs:103-118 | Replacing the current bid with one the mode admits keeps the invariant. It changes the custody sum by the stake difference |
| `Storage.ConsistentAfterRemoval` | lib.rs:161-169 | Deleting from the store and the table keeps the invariant and releases exactly the bounty's stake |
| `Storage.EscrowedAfterRemoval` | lib.rs:161-169 | The swap removal drops exactly the removed bounty's stake from the custody sum |
| `Storage.EscrowedUpdate` | lib.rs:103-108 | Rewriting one listed bounty changes the custody sum by the difference of its stakes |
| `Storage.StakeWithinEscrowed` | lib.rs:97-100 | A listed bounty's stake is covered by the custody sum, so refunds and payouts never exceed the balance |
| `Scenarios.CounterFromDefault` | lib.rs:225-231 | Three counter calls from the default state return 0, 1, 2 |
| `Scenarios.SettleOnlyBounty` | lib.rs:161-169 | Creating a single bounty and settling it aborts with the out-of-bounds write |
| `Scenarios.OutbidRefund` | lib.rs:91-108 | A 50 bid outbid by 75: all succeed, the first bidder has been paid back exactly 50, and the contract then holds only 75 |
| `Scenarios.AuctionBidRefusals` | lib.rs:84-95 | A bid equal to the current one fails, and so does one whose stake differs from the amount |
| `Scenarios.CommissionSettlement` | lib.rs:141-142 | An underpaid commission creation fails. Settling a commission bounty with a proposal aborts on the missing amount, and the escrow stays |
| `Scenarios.ModeAndAskerChecks` | lib.rs:179-183 | Force-set by a non-asker fails, and so does force-set on an auction bounty or an auction bid on a commission bounty. The asker's force-set succeeds. The auction-bid refusal exercises the mode assert at lib.rs:86 |

## Left out

- The ink! glue is not modelled: the contract and message attributes, the
  `SpreadAllocate`/`Default` derives, and `initialize_contract` in `new`.
  `Bountify.Default` only sets up the default storage on an account with a
  given endowment.
- types.rs is modelled only as the datatypes `AskBid` and `Bounty`. Its
  `PackedAllocate` storage-layout impls and its SCALE encoding are
  serialization plumbing.
- The `Mapping` storage backend and its persistence are out of scope. The
  store is a Dafny `map`.
- The runtime's real transfer rules are out of scope: existential deposit,
  fees, account existence. A transfer fails only when the contract's balance
  is short. Under the invariant that never happens, so the `TransferFailed`
  branches are unreachable in the model.
- Caller authentication, and how the transferred value reaches the contract,
  are out of scope. Both are parameters. The caller's own balance is not
  tracked, because the runtime debits it before the message runs.
- Event emission and topics are reduced to a ghost log of records.
- IPFS content is an opaque string and is never validated.
- `Contract.Bountify.GetAndIncrementBountyCounter`: it requires the counter
  to be below 2^32 − 1. Whether `bounty_counter += 1` wraps or panics at the
  `u32` limit depends on a build setting that is not part of this model.
- `Contract.Bountify.CreateBounty`: it requires the same bound, because it
  calls the counter helper.
- `Contract.Bountify.BidForBounty`, `Contract.Bountify.Settle`,
  `Contract.Bountify.GetBounties` and `Contract.Bountify.GetBountiesForUser`
  require the contract invariant. So the `unwrap` panics that the invariant
  rules out are not characterised on states that break it:
  - a stored auction bid with no amount;
  - a table id missing from the store.
- `u128` amounts are unbounded naturals. No sum in the contract overflows
  within the values it handles.
- A scenario where a successful auction settlement follows other messages on
  concrete state is not included. `Bountify.Settle`'s contract states that
  case.
