/** Runs of the contract from its default state, each fixing what a short
    sequence of messages returns. */
module Scenarios {
  import opened Types
  import opened Contract

  /** Three calls of the counter from the default state hand out 0, 1 and 2. */
  method CounterFromDefault() returns (first: BountyId, second: BountyId, third: BountyId)
    ensures first == 0 && second == 1 && third == 2
  {
    var c := new Bountify.Default(0);
    first := c.GetAndIncrementBountyCounter();
    second := c.GetAndIncrementBountyCounter();
    third := c.GetAndIncrementBountyCounter();
  }

  /** Settling the only active bounty always aborts: its id is the last entry
      of the lookup table. */
  method SettleOnlyBounty(asker: AccountId, content: IpfsHash) returns (created: Outcome, settled: Outcome)
    ensures created == Ok
    ensures settled == Fail(IndexOutOfBounds)
  {
    var c := new Bountify.Default(0);
    created := c.CreateBounty(asker, 0, content, None);
    settled := c.Settle(asker, 0, 0);
  }

  /** An auction bid of 50 outbid by one of 75: the contract then holds only
      the live stake, the 50 having gone back to its bidder. */
  method OutbidRefund(asker: AccountId, x: AccountId, y: AccountId, content: IpfsHash)
    returns (outcomes: seq<Outcome>, contractBalance: Balance, ghost refunded: Balance)
    ensures outcomes == [Ok, Ok, Ok]
    ensures contractBalance == 75
    ensures refunded == 50
  {
    var c := new Bountify.Default(0);
    var o0 := c.CreateBounty(asker, 0, content, None);
    var o1 := c.BidForBounty(x, 50, 0, content, Some(50));
    assert c.activeBounties[0].currentBid == Some(AskBid(x, content, Some(50))) && c.balance == 50;
    var o2 := c.BidForBounty(y, 75, 0, content, Some(75));
    outcomes := [o0, o1, o2];
    contractBalance := c.balance;
    refunded := ReceivedBy(c.received, x);
  }

  /** Auction bids must rise strictly and be paid in full. */
  method AuctionBidRefusals(asker: AccountId, x: AccountId, y: AccountId, content: IpfsHash)
    returns (outcomes: seq<Outcome>)
    ensures outcomes == [Ok, Ok, Fail(BidTooLow), Fail(StakeMismatch)]
  {
    var c := new Bountify.Default(0);
    var o0 := c.CreateBounty(asker, 0, content, None);
    var o1 := c.BidForBounty(x, 50, 0, content, Some(50));
    assert c.activeBounties[0].currentBid == Some(AskBid(x, content, Some(50)));
    var o2 := c.BidForBounty(y, 50, 0, content, Some(50));
    var o3 := c.BidForBounty(y, 70, 0, content, Some(75));
    outcomes := [o0, o1, o2, o3];
  }

  /** A commission bounty escrowing 100 (an underpaid creation is refused)
      and a proposal by `x`: settlement aborts on the proposal's missing
      amount, and the 100 stays with the contract. */
  method CommissionSettlement(asker: AccountId, x: AccountId, content: IpfsHash)
    returns (outcomes: seq<Outcome>, contractBalance: Balance)
    ensures outcomes == [Fail(TransferredValueMismatch), Ok, Ok, Fail(UnwrapOnNone)]
    ensures contractBalance == 100
  {
    var c := new Bountify.Default(0);
    var o0 := c.CreateBounty(asker, 99, content, Some(100));
    var o1 := c.CreateBounty(asker, 100, content, Some(100));
    var o2 := c.BidForBounty(x, 0, 0, content, None);
    var o3 := c.Settle(asker, 0, 0);
    outcomes := [o0, o1, o2, o3];
    contractBalance := c.balance;
  }

  /** Only the asker may force a bid, only in commission mode, and an auction
      bid on a commission bounty is refused. */
  method ModeAndAskerChecks(asker: AccountId, x: AccountId, content: IpfsHash)
    returns (outcomes: seq<Outcome>)
    requires asker != x
    ensures outcomes == [Ok, Ok, Fail(NotAsker), Fail(NotCommissionMode), Fail(NotAuctionMode), Ok]
  {
    var c := new Bountify.Default(0);
    var o0 := c.CreateBounty(asker, 100, content, Some(100));
    var o1 := c.CreateBounty(asker, 0, content, None);
    assert c.activeBounties[0].ask == AskBid(asker, content, Some(100));
    assert c.activeBounties[1].ask == AskBid(asker, content, None);
    var o2 := c.ForceSetCurrentBid(x, 0, 0, x, content);
    var o3 := c.ForceSetCurrentBid(asker, 0, 1, x, content);
    var o4 := c.BidForBounty(x, 10, 0, content, Some(10));
    var o5 := c.ForceSetCurrentBid(asker, 0, 0, x, content);
    outcomes := [o0, o1, o2, o3, o4, o5];
  }
}
