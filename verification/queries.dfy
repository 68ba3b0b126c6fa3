/** The read-only query `get_bounties_for_user`: a map and filter over the lookup table. */
module Queries {
  import opened Types
  import opened Storage

  /** The stored bounties reached through the table whose asker is `account`,
      in table order. */
  function BountiesForUser(store: map<BountyId, Bounty>, table: seq<BountyId>, account: AccountId): (r: seq<Bounty>)
    requires Covers(table, store)
    ensures forall k :: 0 <= k < |r| ==> r[k].ask.doer == account
    ensures forall k :: 0 <= k < |r| ==> exists j :: 0 <= j < |table| && r[k] == store[table[j]]
    ensures forall j :: 0 <= j < |table| && store[table[j]].ask.doer == account ==> store[table[j]] in r
    decreases |table|
  {
    if table == [] then []
    else
      var n := |table| - 1;
      var rest := BountiesForUser(store, table[..n], account);
      var b := store[table[n]];
      if b.ask.doer == account then rest + [b] else rest
  }

  /** The table slots whose bounty is asked by `account`, in increasing order. */
  ghost function UserSlots(store: map<BountyId, Bounty>, table: seq<BountyId>, account: AccountId): seq<nat>
    requires Covers(table, store)
    decreases |table|
  {
    if table == [] then []
    else
      var n := |table| - 1;
      UserSlots(store, table[..n], account) + (if store[table[n]].ask.doer == account then [n] else [])
  }

  /** The slots listed are exactly those whose bounty is asked by `account`. */
  lemma {:induction false} UserSlotsExact(store: map<BountyId, Bounty>, table: seq<BountyId>, account: AccountId)
    requires Covers(table, store)
    ensures forall k :: 0 <= k < |UserSlots(store, table, account)| ==> UserSlots(store, table, account)[k] < |table|
    ensures forall j :: 0 <= j < |table| ==> (j in UserSlots(store, table, account) <==> store[table[j]].ask.doer == account)
    decreases |table|
  {
    if table != [] {
      var n := |table| - 1;
      var p := table[..n];
      UserSlotsExact(store, p, account);
      var ps0, ps := UserSlots(store, p, account), UserSlots(store, table, account);
      assert n !in ps0;
      forall j | 0 <= j < n
        ensures j in ps <==> store[table[j]].ask.doer == account
      {
        assert p[j] == table[j];
        assert j in ps <==> j in ps0;
      }
    }
  }

  /** The query returns one bounty per matching slot, in table order: its k-th
      result is the bounty of the k-th slot whose asker is `account` (which
      slots those are is UserSlotsExact). */
  lemma {:induction false} BountiesForUserInTableOrder(store: map<BountyId, Bounty>, table: seq<BountyId>, account: AccountId)
    requires Covers(table, store)
    ensures var r, ps := BountiesForUser(store, table, account), UserSlots(store, table, account);
      && |ps| == |r|
      && (forall k :: 0 <= k < |ps| ==> ps[k] < |table| && r[k] == store[table[ps[k]]])
      && (forall k, l :: 0 <= k < l < |ps| ==> ps[k] < ps[l])
    decreases |table|
  {
    if table != [] {
      var n := |table| - 1;
      var p := table[..n];
      BountiesForUserInTableOrder(store, p, account);
      var ps0 := UserSlots(store, p, account);
      assert forall k :: 0 <= k < |ps0| ==> p[ps0[k]] == table[ps0[k]];
    }
  }
}
