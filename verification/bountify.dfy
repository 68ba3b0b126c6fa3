/** The Bountify contract: its storage, its four state-changing messages, its two
    reads and the counter helper. The part of the runtime the messages touch
    (the contract's balance, transfers out of it, emitted events) is kept
    beside the storage. */
module Contract {
  import opened Types
  import opened LookupTable
  import opened Storage
  import opened Queries

  /** What an account has received from the contract so far. */
  function ReceivedBy(m: map<AccountId, Balance>, who: AccountId): Balance {
    if who in m then m[who] else 0
  }

  /** `m` after the contract pays `amount` to `who`. */
  function Credit(m: map<AccountId, Balance>, who: AccountId, amount: Balance): map<AccountId, Balance> {
    m[who := ReceivedBy(m, who) + amount]
  }

  class Bountify {
    // contract storage
    var activeBounties: map<BountyId, Bounty>
    var bountyCounter: nat
    var bountyLookupTable: seq<BountyId>

    // the runtime: the contract account's balance, what the contract has paid
    // to each account, and the events emitted
    var balance: Balance
    ghost var received: map<AccountId, Balance>
    ghost var events: seq<Event>

    /** The storage invariant, and the balance covers every escrow and live stake. */
    ghost predicate Valid()
      reads this
    {
      && Consistent(activeBounties, bountyCounter, bountyLookupTable)
      && Escrowed(bountyLookupTable, activeBounties) <= balance
    }

    /** Funds the contract holds that no active bounty accounts for. */
    ghost function Stranded(): nat
      reads this
      requires Valid()
    {
      balance - Escrowed(bountyLookupTable, activeBounties)
    }

    /** The default storage, on an account holding `endowment`. */
    constructor Default(endowment: Balance)
      ensures Valid()
      ensures activeBounties == map[] && bountyCounter == 0 && bountyLookupTable == []
      ensures balance == endowment && received == map[] && events == []
    {
      activeBounties, bountyCounter, bountyLookupTable := map[], 0, [];
      balance, received, events := endowment, map[], [];
    }

    /** Hands out the counter's value and advances it by one. */
    method GetAndIncrementBountyCounter() returns (id: BountyId)
      requires bountyCounter < U32_MAX
      modifies this`bountyCounter
      ensures id == old(bountyCounter) && bountyCounter == old(bountyCounter) + 1
    {
      id := bountyCounter;
      bountyCounter := bountyCounter + 1;
    }

    /** `create_bounty`, called by `caller` with `value` attached. */
    method CreateBounty(caller: AccountId, value: Balance, content: IpfsHash, amount: Option<Balance>)
      returns (r: Outcome)
      requires Valid() && bountyCounter < U32_MAX
      modifies this
      ensures Valid()
      ensures r.Fail? <==> amount.Some? && value != amount.value
      ensures r.Fail? ==> r.error == TransferredValueMismatch && unchanged(this)
      ensures r.Ok? ==>
        var id := old(bountyCounter);
        && id !in old(activeBounties)
        && activeBounties == old(activeBounties)[id := Bounty(id, AskBid(caller, content, amount), None)]
        && bountyLookupTable == old(bountyLookupTable) + [id]
        && bountyCounter == id + 1
        && balance == old(balance) + value
        && received == old(received) && events == old(events)
        && Stranded() == old(Stranded()) + (if amount.None? then value else 0)
    {
      // The source writes first and asserts after; the panic reverts the writes,
      // so checking first is the same.
      if amount.Some? && value != amount.value {
        return Fail(TransferredValueMismatch);
      }
      var store, table := activeBounties, bountyLookupTable;
      ghost var escrowed := Escrowed(table, store);
      var id := GetAndIncrementBountyCounter();
      var bounty := Bounty(id, AskBid(caller, content, amount), None);
      assert id !in store
          && Consistent(store[id := bounty], id + 1, table + [id])
          && Escrowed(table + [id], store[id := bounty]) == escrowed + Stake(bounty) by {
        ConsistentAfterCreate(store, id, table, bounty);
      }
      activeBounties := store[id := bounty];
      bountyLookupTable := table + [id];
      balance := balance + value;
      r := Ok;
    }

    /** `bid_for_bounty`: an auction bid when `amount` is present, a commission
        bid when it is absent. */
    method BidForBounty(caller: AccountId, value: Balance, id: BountyId, content: IpfsHash, amount: Option<Balance>)
      returns (r: Outcome)
      requires Valid()
      modifies this
      ensures Valid()
      ensures r.Fail? ==> unchanged(this)
      ensures id !in old(activeBounties) ==> r == Fail(NoActiveBounty)
      ensures id in old(activeBounties) ==>
        var b := old(activeBounties)[id];
        match amount
        case Some(a) =>
          r == (if b.ask.amount.Some? then Fail(NotAuctionMode)
                else if value != a then Fail(StakeMismatch)
                else if b.currentBid.Some? && a <= b.currentBid.value.amount.value then Fail(BidTooLow)
                else Ok)
        case None =>
          r == (if b.ask.amount.None? then Fail(NotCommissionMode) else Ok)
      ensures r.Ok? ==>
        var b := old(activeBounties)[id];
        && activeBounties == old(activeBounties)[id := b.(currentBid := Some(AskBid(caller, content, amount)))]
        && bountyLookupTable == old(bountyLookupTable)
        && bountyCounter == old(bountyCounter)
        && events == old(events) + [Event.Bid(id, caller, amount, content)]
        && match (amount, b.currentBid)
           case (Some(a), Some(previous)) =>
             // the outbid stake goes back, in full, to the previous bidder
             && a > previous.amount.value
             && balance == old(balance) + value - previous.amount.value
             && received == Credit(old(received), previous.doer, previous.amount.value)
             && Stranded() == old(Stranded())
           case (Some(_), None) =>
             && balance == old(balance) + value
             && received == old(received)
             && Stranded() == old(Stranded())
           case (None, _) =>
             // a commission bid moves no funds; any value sent is kept
             && balance == old(balance) + value
             && received == old(received)
             && Stranded() == old(Stranded()) + value
    {
      var store, table := activeBounties, bountyLookupTable;
      if id !in store {
        return Fail(NoActiveBounty);
      }
      var bounty := store[id];
      var funds := balance + value;
      ghost var paid := received;
      ghost var escrowed := Escrowed(table, store);
      match amount {
        case Some(a) =>
          if bounty.ask.amount.Some? {
            return Fail(NotAuctionMode);
          }
          if value != a {
            return Fail(StakeMismatch);
          }
          if bounty.currentBid.Some? {
            var previous := bounty.currentBid.value;
            if previous.amount.None? {
              return Fail(UnwrapOnNone);
            }
            if a <= previous.amount.value {
              return Fail(BidTooLow);
            }
            assert previous.amount.value == Stake(bounty) <= escrowed by {
              StakeWithinEscrowed(table, store, id);
            }
            if funds < previous.amount.value {
              return Fail(TransferFailed);
            }
            funds := funds - previous.amount.value;
            paid := Credit(paid, previous.doer, previous.amount.value);
          }
        case None =>
          if bounty.ask.amount.None? {
            return Fail(NotCommissionMode);
          }
      }
      var bid := AskBid(caller, content, amount);
      var updated := bounty.(currentBid := Some(bid));
      assert Consistent(store[id := updated], bountyCounter, table)
          && Escrowed(table, store[id := updated]) + Stake(bounty) == escrowed + Stake(updated) by {
        ConsistentAfterBid(store, bountyCounter, table, id, bid);
      }
      activeBounties := store[id := updated];
      balance := funds;
      received := paid;
      events := events + [Event.Bid(id, caller, amount, content)];
      r := Ok;
    }

    /** `settle`: pay out according to the bounty's mode, then delete it from
        the store and the lookup table. */
    method Settle(caller: AccountId, value: Balance, id: BountyId) returns (r: Outcome)
      requires Valid()
      modifies this
      ensures Valid()
      ensures r.Fail? ==> unchanged(this)
      ensures id !in old(activeBounties) ==> r == Fail(NoActiveBounty)
      ensures id in old(activeBounties) ==>
        var b, t := old(activeBounties)[id], old(bountyLookupTable);
        r == (if caller != b.ask.doer then Fail(NotAsker)
              // `unwrap_or` evaluates `chosen_bid.amount.unwrap()` first: a commission bid has none
              else if b.ask.amount.Some? && b.currentBid.Some? then Fail(UnwrapOnNone)
              // the write after `pop` misses when the target is the last entry
              else if t[|t| - 1] == id then Fail(IndexOutOfBounds)
              else Ok)
      ensures r.Ok? ==>
        && id in old(activeBounties)
        && var b := old(activeBounties)[id];
        && activeBounties == old(activeBounties) - {id}
        && SwapRemoved(old(bountyLookupTable), id) == Some(bountyLookupTable)
        && bountyCounter == old(bountyCounter)
        && match b.currentBid
           case None =>
             // no transfer and no event; a commission escrow is left behind
             && balance == old(balance) + value
             && received == old(received)
             && events == old(events)
             && Stranded() == old(Stranded()) + value + Stake(b)
           case Some(chosen) =>
             // only an auction bounty gets here: the asker receives the winning stake
             && b.ask.amount.None? && chosen.amount.Some?
             && balance == old(balance) + value - chosen.amount.value
             && received == Credit(old(received), b.ask.doer, chosen.amount.value)
             && events == old(events) + [Event.Settle(id, caller, chosen.doer, chosen.amount.value)]
             && Stranded() == old(Stranded()) + value
    {
      var store, table := activeBounties, bountyLookupTable;
      if id !in store {
        return Fail(NoActiveBounty);
      }
      var bounty := store[id];
      if bounty.ask.doer != caller {
        return Fail(NotAsker);
      }
      var funds := balance + value;
      ghost var paid, log := received, events;
      ghost var escrowed := Escrowed(table, store);
      assert WellShaped(bounty);
      match bounty.currentBid {
        case Some(chosen) =>
          if chosen.amount.None? {
            return Fail(UnwrapOnNone);
          }
          var amount := bounty.ask.amount.UnwrapOr(chosen.amount.value);
          var receiver := match bounty.ask.amount case Some(_) => chosen.doer case None => bounty.ask.doer;
          assert amount == Stake(bounty) <= escrowed by {
            StakeWithinEscrowed(table, store, id);
          }
          if funds < amount {
            return Fail(TransferFailed);
          }
          funds := funds - amount;
          paid := Credit(paid, receiver, amount);
          log := log + [Event.Settle(id, caller, chosen.doer, amount)];
        case None =>
      }
      var removed := RemoveBounty(id);
      if !removed {
        return Fail(IndexOutOfBounds);
      }
      assert Escrowed(bountyLookupTable, activeBounties) <= funds;
      balance, received, events := funds, paid, log;
      r := Ok;
    }

    /** The deletion that ends `settle`: the bounty leaves the store, and its id
        leaves the lookup table by the pop-and-write removal. When the id is
        the table's last entry the write misses and nothing changes (the
        message then aborts). */
    method RemoveBounty(id: BountyId) returns (removed: bool)
      requires Consistent(activeBounties, bountyCounter, bountyLookupTable) && id in activeBounties
      modifies this`activeBounties, this`bountyLookupTable
      ensures removed <==> old(bountyLookupTable)[|old(bountyLookupTable)| - 1] != id
      ensures !removed ==> unchanged(this)
      ensures removed ==>
        && activeBounties == old(activeBounties) - {id}
        && SwapRemoved(old(bountyLookupTable), id) == Some(bountyLookupTable)
        && Consistent(activeBounties, bountyCounter, bountyLookupTable)
        && Escrowed(bountyLookupTable, activeBounties) + Stake(old(activeBounties)[id])
           == Escrowed(old(bountyLookupTable), old(activeBounties))
    {
      var store, table := activeBounties, bountyLookupTable;
      var remaining := RemoveFromTable(table, id);
      SwapRemovedCorrect(table, id);
      if remaining.None? {
        return false;
      }
      ConsistentAfterRemoval(store, bountyCounter, table, id);
      activeBounties, bountyLookupTable := store - {id}, remaining.value;
      removed := true;
    }

    /** `force_set_current_bid`: the asker of a commission bounty names the bid. */
    method ForceSetCurrentBid(caller: AccountId, value: Balance, id: BountyId, bidder: AccountId, bidData: IpfsHash)
      returns (r: Outcome)
      requires Valid()
      modifies this
      ensures Valid()
      ensures r.Fail? ==> unchanged(this)
      ensures id !in old(activeBounties) ==> r == Fail(NoActiveBounty)
      ensures id in old(activeBounties) ==>
        var b := old(activeBounties)[id];
        r == (if caller != b.ask.doer then Fail(NotAsker)
              else if b.ask.amount.None? then Fail(NotCommissionMode)
              else Ok)
      ensures r.Ok? ==>
        var b := old(activeBounties)[id];
        && activeBounties == old(activeBounties)[id := b.(currentBid := Some(AskBid(bidder, bidData, None)))]
        && bountyLookupTable == old(bountyLookupTable)
        && bountyCounter == old(bountyCounter)
        && balance == old(balance) + value
        && received == old(received) && events == old(events)
        && Stranded() == old(Stranded()) + value
    {
      if id !in activeBounties {
        return Fail(NoActiveBounty);
      }
      var bounty := activeBounties[id];
      if bounty.ask.doer != caller {
        return Fail(NotAsker);
      }
      if bounty.ask.amount.None? {
        return Fail(NotCommissionMode);
      }
      var bid := AskBid(bidder, bidData, None);
      ConsistentAfterBid(activeBounties, bountyCounter, bountyLookupTable, id, bid);
      activeBounties := activeBounties[id := bounty.(currentBid := Some(bid))];
      balance := balance + value;
      r := Ok;
    }

    /** `get_bounties`: every active bounty, once each, in table order. */
    method GetBounties() returns (r: seq<Bounty>)
      requires Valid()
      ensures |r| == |bountyLookupTable|
      ensures forall k :: 0 <= k < |r| ==> r[k] == activeBounties[bountyLookupTable[k]]
      ensures forall b :: b in r <==> b in activeBounties.Values
    {
      r := [];
      for k := 0 to |bountyLookupTable|
        invariant |r| == k
        invariant forall j :: 0 <= j < k ==> r[j] == activeBounties[bountyLookupTable[j]]
      {
        r := r + [activeBounties[bountyLookupTable[k]]];
      }
      forall b | b in activeBounties.Values
        ensures b in r
      {
        var id :| id in activeBounties && activeBounties[id] == b;
        var k :| 0 <= k < |bountyLookupTable| && bountyLookupTable[k] == id;
        assert r[k] == b;
      }
    }

    /** `get_bounties_for_user`: the active bounties asked by `account`. */
    function GetBountiesForUser(account: AccountId): (r: seq<Bounty>)
      reads this
      requires Valid()
      ensures forall b :: b in r <==> b in activeBounties.Values && b.ask.doer == account
    {
      var r := BountiesForUser(activeBounties, bountyLookupTable, account);
      assert forall b :: b in activeBounties.Values ==> exists j :: 0 <= j < |bountyLookupTable| && b == activeBounties[bountyLookupTable[j]] by {
        forall b | b in activeBounties.Values
          ensures exists j :: 0 <= j < |bountyLookupTable| && b == activeBounties[bountyLookupTable[j]]
        {
          var id :| id in activeBounties && activeBounties[id] == b;
          var k :| 0 <= k < |bountyLookupTable| && bountyLookupTable[k] == id;
        }
      }
      r
    }
  }
}
