/** The dense table of active ids and settle's removal loop over it. */
module LookupTable {
  import opened Types

  ghost predicate Distinct(t: seq<BountyId>) {
    forall i, j :: 0 <= i < j < |t| ==> t[i] != t[j]
  }

  /** The first slot holding `id`: the slot at which settle's search loop stops. */
  function IndexOf(t: seq<BountyId>, id: BountyId): (i: nat)
    requires id in t
    ensures i < |t| && t[i] == id
    ensures forall j :: 0 <= j < i ==> t[j] != id
  {
    if t[0] == id then 0 else 1 + IndexOf(t[1..], id)
  }

  /** The table after settle's removal, or None when that removal panics.
      The loop pops the last id first and then writes it into the found slot,
      so a target in the last slot makes the write index one past the end. */
  function SwapRemoved(t: seq<BountyId>, id: BountyId): Option<seq<BountyId>> {
    if id !in t then Some(t)
    else
      var i, n := IndexOf(t, id), |t| - 1;
      if i < n then Some(t[..n][i := t[n]]) else None
  }

  /** Settle's search-and-break loop: find the slot of `id`, pop the last id
      and write it into that slot. */
  method RemoveFromTable(table: seq<BountyId>, id: BountyId) returns (r: Option<seq<BountyId>>)
    ensures r == SwapRemoved(table, id)
  {
    var t := table;
    for i := 0 to |t|
      invariant t == table
      invariant forall j :: 0 <= j < i ==> t[j] != id
    {
      if t[i] == id {
        var last := t[|t| - 1];
        t := t[..|t| - 1];
        if i < |t| {
          t := t[i := last];
          return Some(t);
        }
        // the indexed write after `pop` is out of bounds: the message panics
        return None;
      }
    }
    return Some(t);
  }

  /** On a table of distinct ids, removal panics exactly when the target is the
      last entry; otherwise the table is one shorter, the target's slot holds
      the former last id, every other slot is unchanged, the ids stay distinct
      and they are the old ones minus the target. */
  lemma SwapRemovedCorrect(t: seq<BountyId>, id: BountyId)
    requires Distinct(t) && id in t
    ensures SwapRemoved(t, id).None? <==> t[|t| - 1] == id
    ensures SwapRemoved(t, id).Some? ==>
      var i, r := IndexOf(t, id), SwapRemoved(t, id).value;
      && |r| == |t| - 1
      && r[i] == t[|t| - 1]
      && (forall j :: 0 <= j < |r| && j != i ==> r[j] == t[j])
      && Distinct(r)
      && (forall x :: x in r <==> x in t && x != id)
  {
    var i, n := IndexOf(t, id), |t| - 1;
    if i < n {
      assert t[i] != t[n];
      var r := t[..n][i := t[n]];
      forall x | x in t && x != id
        ensures x in r
      {
        var k :| 0 <= k < |t| && t[k] == x;
        if k == n {
          assert r[i] == x;
        } else {
          assert r[k] == x;
        }
      }
      forall x | x in r
        ensures x in t && x != id
      {
        var k :| 0 <= k < |r| && r[k] == x;
        if k == i {
          assert x == t[n];
        } else {
          assert x == t[k];
        }
      }
      forall a, b | 0 <= a < b < |r|
        ensures r[a] != r[b]
      {
        var a', b' := if a == i then n else a, if b == i then n else b;
        assert r[a] == t[a'] && r[b] == t[b'] && a' != b';
      }
    }
  }
}
