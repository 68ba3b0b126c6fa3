/** The store/table/counter invariant and the custody sum: how much of the
    contract's balance the active bounties account for. */
module Storage {
  import opened Types
  import opened LookupTable

  /** The bid shape that the bounty's mode admits: commission bids carry no
      amount, auction bids always carry one. */
  ghost predicate WellShaped(b: Bounty) {
    b.currentBid.Some? ==> (b.currentBid.value.amount.Some? <==> b.ask.amount.None?)
  }

  /** The table lists each active id once, the store is keyed by each bounty's
      own id, every id was handed out by the counter, and the counter fits a u32. */
  ghost predicate Consistent(store: map<BountyId, Bounty>, counter: nat, table: seq<BountyId>) {
    && Distinct(table)
    && (forall id :: id in table <==> id in store)
    && (forall id :: id in store ==> store[id].id == id && id < counter && WellShaped(store[id]))
    && counter <= U32_MAX
  }

  ghost predicate Covers(table: seq<BountyId>, store: map<BountyId, Bounty>) {
    forall id :: id in table ==> id in store
  }

  /** The funds the contract holds for one bounty: the asker's escrow in
      commission mode, the live stake of the current bid in auction mode. */
  function Stake(b: Bounty): Balance {
    match b.ask.amount
    case Some(a) => a
    case None =>
      match b.currentBid
      case Some(bid) => bid.amount.UnwrapOr(0)
      case None => 0
  }

  /** The funds held for all bounties of the table. */
  ghost function Escrowed(table: seq<BountyId>, store: map<BountyId, Bounty>): nat
    requires Covers(table, store)
  {
    if table == [] then 0
    else Escrowed(table[..|table| - 1], store) + Stake(store[table[|table| - 1]])
  }

  lemma {:induction false} EscrowedFrame(t: seq<BountyId>, s: map<BountyId, Bounty>, s': map<BountyId, Bounty>)
    requires Covers(t, s) && Covers(t, s')
    requires forall id :: id in t ==> Stake(s[id]) == Stake(s'[id])
    ensures Escrowed(t, s) == Escrowed(t, s')
  {
    if t != [] {
      EscrowedFrame(t[..|t| - 1], s, s');
    }
  }

  lemma EscrowedAppend(t: seq<BountyId>, x: BountyId, s: map<BountyId, Bounty>)
    requires Covers(t + [x], s)
    ensures Escrowed(t + [x], s) == Escrowed(t, s) + Stake(s[x])
  {
    assert (t + [x])[..|t|] == t;
  }

  /** Writing `x` over slot `i` trades that slot's stake for `x`'s. */
  lemma {:induction false} EscrowedReplaceAt(t: seq<BountyId>, i: nat, x: BountyId, s: map<BountyId, Bounty>)
    requires i < |t| && Covers(t, s) && x in s
    ensures Covers(t[i := x], s)
    ensures Escrowed(t[i := x], s) + Stake(s[t[i]]) == Escrowed(t, s) + Stake(s[x])
  {
    var n := |t| - 1;
    if i == n {
      assert t[i := x][..n] == t[..n];
    } else {
      assert t[i := x][..n] == t[..n][i := x];
      EscrowedReplaceAt(t[..n], i, x, s);
    }
  }

  /** Replacing the record of one listed bounty changes the sum by the
      difference of its stakes. */
  lemma {:induction false} EscrowedUpdate(t: seq<BountyId>, s: map<BountyId, Bounty>, id: BountyId, b: Bounty)
    requires Distinct(t) && Covers(t, s) && id in t
    ensures Escrowed(t, s[id := b]) + Stake(s[id]) == Escrowed(t, s) + Stake(b)
  {
    var n := |t| - 1;
    var p := t[..n];
    if t[n] == id {
      assert id !in p by {
        forall k | 0 <= k < |p| ensures p[k] != id { assert t[k] != t[n]; }
      }
      EscrowedFrame(p, s, s[id := b]);
    } else {
      assert id in p by {
        var k :| 0 <= k < |t| && t[k] == id;
        assert p[k] == id;
      }
      EscrowedUpdate(p, s, id, b);
    }
  }

  /** A listed bounty's stake is part of the sum. */
  lemma {:induction false} StakeWithinEscrowed(t: seq<BountyId>, s: map<BountyId, Bounty>, id: BountyId)
    requires Covers(t, s) && id in t
    ensures Stake(s[id]) <= Escrowed(t, s)
  {
    var n := |t| - 1;
    if t[n] != id {
      assert id in t[..n] by {
        var k :| 0 <= k < |t| && t[k] == id;
        assert t[..n][k] == id;
      }
      StakeWithinEscrowed(t[..n], s, id);
    }
  }

  /** Settle's removal drops exactly the removed bounty's stake from the sum. */
  lemma EscrowedAfterRemoval(t: seq<BountyId>, s: map<BountyId, Bounty>, id: BountyId)
    requires Distinct(t) && Covers(t, s) && id in t && SwapRemoved(t, id).Some?
    ensures Covers(SwapRemoved(t, id).value, s - {id})
    ensures Escrowed(SwapRemoved(t, id).value, s - {id}) + Stake(s[id]) == Escrowed(t, s)
  {
    SwapRemovedCorrect(t, id);
    var i, n, r := IndexOf(t, id), |t| - 1, SwapRemoved(t, id).value;
    EscrowedFrame(r, s, s - {id});
    EscrowedReplaceAt(t[..n], i, t[n], s);
    EscrowedAppend(t[..n], t[n], s);
    assert t[..n] + [t[n]] == t;
  }

  /** Creating a bounty under the counter's value keeps the invariant with the
      counter one higher and the id appended to the table. */
  lemma ConsistentAfterCreate(store: map<BountyId, Bounty>, counter: nat, table: seq<BountyId>, b: Bounty)
    requires Consistent(store, counter, table) && counter < U32_MAX
    requires b.id == counter && b.currentBid.None?
    ensures counter !in store
    ensures Consistent(store[counter := b], counter + 1, table + [counter])
    ensures Escrowed(table + [counter], store[counter := b]) == Escrowed(table, store) + Stake(b)
  {
    EscrowedFrame(table, store, store[counter := b]);
    EscrowedAppend(table, counter, store[counter := b]);
  }

  /** Replacing a bounty's current bid by one its mode admits keeps the invariant. */
  lemma ConsistentAfterBid(store: map<BountyId, Bounty>, counter: nat, table: seq<BountyId>, id: BountyId, bid: AskBid)
    requires Consistent(store, counter, table) && id in store
    requires WellShaped(store[id].(currentBid := Some(bid)))
    ensures Consistent(store[id := store[id].(currentBid := Some(bid))], counter, table)
    ensures Escrowed(table, store[id := store[id].(currentBid := Some(bid))]) + Stake(store[id])
         == Escrowed(table, store) + Stake(store[id].(currentBid := Some(bid)))
  {
    EscrowedUpdate(table, store, id, store[id].(currentBid := Some(bid)));
  }

  /** Settle's deletion from the store and the table keeps the invariant and
      releases exactly the bounty's stake. */
  lemma ConsistentAfterRemoval(store: map<BountyId, Bounty>, counter: nat, table: seq<BountyId>, id: BountyId)
    requires Consistent(store, counter, table) && id in store && SwapRemoved(table, id).Some?
    ensures Consistent(store - {id}, counter, SwapRemoved(table, id).value)
    ensures Escrowed(SwapRemoved(table, id).value, store - {id}) + Stake(store[id]) == Escrowed(table, store)
  {
    SwapRemovedCorrect(table, id);
    EscrowedAfterRemoval(table, store, id);
  }
}
