/**
 * The position ledger: the trades table and the `active_trades` working list.
 * The table is modelled as the sequence of its rows in insertion order; its
 * primary keys are autoincremented from 1, so the row with key `k` sits at
 * position `k - 1`.
 */
module Ledger {
  import opened Wrappers
  import opened Trades
  import Valuation

  /** The row stored under primary key `id`, if any. */
  function Lookup(rows: seq<Trade>, id: int): Option<Trade> {
    if 1 <= id <= |rows| then Some(rows[id - 1]) else None
  }

  /** Every row carries the key of its position. */
  ghost predicate RowIdsMatch(rows: seq<Trade>) {
    forall k :: 0 <= k < |rows| ==> rows[k].id == k + 1
  }

  /** Ids of a list of legs, in list order. */
  function Ids(legs: seq<Leg>): (r: seq<int>)
    ensures |r| == |legs| && forall i :: 0 <= i < |legs| ==> r[i] == legs[i].id
  {
    seq(|legs|, i requires 0 <= i < |legs| => legs[i].id)
  }

  /** Keys of the ACTIVE rows, in key order. */
  function ActiveIds(rows: seq<Trade>): seq<int>
    decreases |rows|
  {
    if rows == [] then []
    else ActiveIds(rows[..|rows| - 1]) + (if rows[|rows| - 1].status == Active then [|rows|] else [])
  }

  ghost predicate StrictlyIncreasing(s: seq<int>) {
    forall i, j :: 0 <= i < j < |s| ==> s[i] < s[j]
  }

  /** The active keys are keys of the table, each listed once, in increasing order. */
  lemma {:induction false} ActiveIdsIncreasing(rows: seq<Trade>)
    ensures StrictlyIncreasing(ActiveIds(rows))
    ensures forall i :: 0 <= i < |ActiveIds(rows)| ==> 1 <= ActiveIds(rows)[i] <= |rows|
    decreases |rows|
  {
    if rows != [] {
      ActiveIdsIncreasing(rows[..|rows| - 1]);
    }
  }

  /** A key is an active key exactly when its row is ACTIVE. */
  lemma {:induction false} ActiveIdsExact(rows: seq<Trade>)
    ensures forall v :: v in ActiveIds(rows) <==> 1 <= v <= |rows| && rows[v - 1].status == Active
    decreases |rows|
  {
    if rows != [] {
      var n := |rows|;
      var prefix := rows[..n - 1];
      ActiveIdsExact(prefix);
      ActiveIdsIncreasing(prefix);
      forall k | 0 <= k < n - 1 ensures prefix[k] == rows[k] {
      }
    }
  }

  /** A table without active keys has no ACTIVE row. */
  lemma {:induction false} NoActiveIds(rows: seq<Trade>)
    requires ActiveIds(rows) == []
    ensures forall k :: 0 <= k < |rows| ==> rows[k].status != Active
    decreases |rows|
  {
    if rows != [] {
      var prefix := rows[..|rows| - 1];
      NoActiveIds(prefix);
      forall k | 0 <= k < |rows| - 1 ensures rows[k].status != Active {
        assert rows[k] == prefix[k];
      }
    }
  }

  /** Appending an ACTIVE row under the next key, and its leg at the end of the list, keeps the two in step. */
  lemma AppendActive(rows: seq<Trade>, legs: seq<Leg>, t: Trade, leg: Leg)
    requires RowIdsMatch(rows) && Ids(legs) == ActiveIds(rows)
    requires t.id == |rows| + 1 && t.status == Active && leg.id == t.id
    ensures RowIdsMatch(rows + [t]) && Ids(legs + [leg]) == ActiveIds(rows + [t])
  {
    var extended := rows + [t];
    assert extended[..|rows|] == rows;
    assert ActiveIds(extended) == ActiveIds(rows) + [t.id];
    forall k | 0 <= k < |extended| ensures extended[k].id == k + 1 {
      if k < |rows| {
        assert extended[k] == rows[k];
      }
    }
    assert Ids(legs + [leg]) == Ids(legs) + [leg.id];
  }

  /** The sequence without the value `v`. */
  function RemoveValue(s: seq<int>, v: int): seq<int>
    decreases |s|
  {
    if s == [] then []
    else RemoveValue(s[..|s| - 1], v) + (if s[|s| - 1] != v then [s[|s| - 1]] else [])
  }

  lemma {:induction false} RemoveAbsentValue(s: seq<int>, v: int)
    requires v !in s
    ensures RemoveValue(s, v) == s
    decreases |s|
  {
    if s != [] {
      var prefix := s[..|s| - 1];
      RemoveAbsentValue(prefix, v);
      assert s == prefix + [s[|s| - 1]];
    }
  }

  /**
   * Closing the row at position `k` takes its key out of the active keys and
   * leaves the other keys in order.
   */
  lemma {:induction false} ActiveIdsAfterClose(rows: seq<Trade>, k: int, closed: Trade)
    requires 0 <= k < |rows| && closed.status != Active
    ensures ActiveIds(rows[k := closed]) == RemoveValue(ActiveIds(rows), k + 1)
    decreases |rows|
  {
    var n := |rows|;
    if k == n - 1 {
      ActiveIdsAfterCloseLast(rows, closed);
    } else {
      var prefix := rows[..n - 1];
      var updated := rows[k := closed];
      var before := ActiveIds(prefix);
      assert updated[..n - 1] == prefix[k := closed];
      ActiveIdsAfterClose(prefix, k, closed);
      var tail := if rows[n - 1].status == Active then [n] else [];
      assert updated[n - 1] == rows[n - 1];
      assert ActiveIds(updated) == ActiveIds(prefix[k := closed]) + tail;
      assert ActiveIds(rows) == before + tail;
      if tail != [] {
        RemoveValueSnoc(before, n, k + 1);
      } else {
        assert before + tail == before;
      }
    }
  }

  /** Closing the last row drops the last key, which is the largest. */
  lemma ActiveIdsAfterCloseLast(rows: seq<Trade>, closed: Trade)
    requires rows != [] && closed.status != Active
    ensures ActiveIds(rows[|rows| - 1 := closed]) == RemoveValue(ActiveIds(rows), |rows|)
  {
    var n := |rows|;
    var prefix := rows[..n - 1];
    var before := ActiveIds(prefix);
    var updated := rows[n - 1 := closed];
    assert updated[..n - 1] == prefix;
    assert before + [] == before;
    assert ActiveIds(updated) == before;
    ActiveIdsIncreasing(prefix);
    assert n !in before;
    RemoveAbsentValue(before, n);
    if rows[n - 1].status == Active {
      assert ActiveIds(rows) == before + [n];
      RemoveValueSnoc(before, n, n);
    } else {
      assert ActiveIds(rows) == before;
    }
  }

  /** Removing a value from a sequence with one more element at the end. */
  lemma RemoveValueSnoc(s: seq<int>, x: int, v: int)
    ensures RemoveValue(s + [x], v) == RemoveValue(s, v) + (if x != v then [x] else [])
  {
    assert (s + [x])[..|s|] == s;
  }

  /** The margin blocked by the ACTIVE rows. */
  function ActiveMargin(rows: seq<Trade>): real
    decreases |rows|
  {
    if rows == [] then 0.0
    else ActiveMargin(rows[..|rows| - 1]) + (if rows[|rows| - 1].status == Active then rows[|rows| - 1].marginUsed else 0.0)
  }

  /** Closing a row stops counting its margin, and only its margin, if it was ACTIVE. */
  lemma {:induction false} ActiveMarginAfterClose(rows: seq<Trade>, k: int, closed: Trade)
    requires 0 <= k < |rows| && closed.status != Active
    ensures ActiveMargin(rows[k := closed]) ==
            ActiveMargin(rows) - (if rows[k].status == Active then rows[k].marginUsed else 0.0)
    decreases |rows|
  {
    var n := |rows|;
    var updated := rows[k := closed];
    if k == n - 1 {
      assert updated[..n - 1] == rows[..n - 1];
    } else {
      assert updated[..n - 1] == rows[..n - 1][k := closed];
      ActiveMarginAfterClose(rows[..n - 1], k, closed);
    }
  }

  /** A table without ACTIVE rows blocks no margin. */
  lemma {:induction false} NoActiveNoMargin(rows: seq<Trade>)
    requires forall k :: 0 <= k < |rows| ==> rows[k].status != Active
    ensures ActiveMargin(rows) == 0.0
    decreases |rows|
  {
    if rows != [] {
      var prefix := rows[..|rows| - 1];
      forall k | 0 <= k < |prefix| ensures prefix[k].status != Active {
        assert prefix[k] == rows[k];
      }
      NoActiveNoMargin(prefix);
    }
  }

  /** The legs whose id differs from `id`, in list order. */
  function RemoveId(legs: seq<Leg>, id: int): (r: seq<Leg>)
    ensures |r| <= |legs|
    decreases |legs|
  {
    if legs == [] then []
    else RemoveId(legs[..|legs| - 1], id) + (if legs[|legs| - 1].id != id then [legs[|legs| - 1]] else [])
  }

  /** The filtered list holds exactly the legs whose id differs from `id`. */
  lemma {:induction false} RemoveIdMembers(legs: seq<Leg>, id: int)
    ensures forall x :: x in RemoveId(legs, id) <==> x in legs && x.id != id
    decreases |legs|
  {
    if legs != [] {
      var prefix := legs[..|legs| - 1];
      RemoveIdMembers(prefix, id);
      assert legs == prefix + [legs[|legs| - 1]];
    }
  }

  /** The ids left by the filter are the list's ids without `id`, in order. */
  lemma {:induction false} IdsOfRemoveId(legs: seq<Leg>, id: int)
    ensures Ids(RemoveId(legs, id)) == RemoveValue(Ids(legs), id)
    decreases |legs|
  {
    if legs != [] {
      var prefix := legs[..|legs| - 1];
      var last := legs[|legs| - 1];
      IdsOfRemoveId(prefix, id);
      var kept := if last.id != id then [last] else [];
      assert Ids(RemoveId(prefix, id) + kept) == Ids(RemoveId(prefix, id)) + Ids(kept);
      assert Ids(legs)[..|legs| - 1] == Ids(prefix);
    }
  }

  ghost predicate DistinctIds(legs: seq<Leg>) {
    forall i, j :: 0 <= i < j < |legs| ==> legs[i].id != legs[j].id
  }

  /**
   * With distinct ids, removing the id of the leg at position `k` drops that
   * leg alone and keeps the others in their order.
   */
  lemma {:induction false} RemoveIdAt(legs: seq<Leg>, k: int)
    requires 0 <= k < |legs| && DistinctIds(legs)
    ensures RemoveId(legs, legs[k].id) == legs[..k] + legs[k + 1..]
    decreases |legs|
  {
    var n := |legs|;
    var prefix := legs[..n - 1];
    var last := legs[n - 1];
    var id := legs[k].id;
    if k == n - 1 {
      RemoveLastId(legs);
    } else {
      assert prefix[k] == legs[k];
      assert DistinctIds(prefix) by {
        forall i, j | 0 <= i < j < |prefix| ensures prefix[i].id != prefix[j].id {
          assert prefix[i] == legs[i] && prefix[j] == legs[j];
        }
      }
      RemoveIdAt(prefix, k);
      assert last.id != id;
      assert RemoveId(legs, id) == RemoveId(prefix, id) + [last];
      assert prefix[..k] + prefix[k + 1..] + [last] == legs[..k] + legs[k + 1..];
    }
  }

  /** With distinct ids, removing the id of the last leg drops that leg alone. */
  lemma RemoveLastId(legs: seq<Leg>)
    requires legs != [] && DistinctIds(legs)
    ensures RemoveId(legs, legs[|legs| - 1].id) == legs[..|legs| - 1]
  {
    var n := |legs|;
    var prefix := legs[..n - 1];
    var id := legs[n - 1].id;
    forall i | 0 <= i < |prefix| ensures prefix[i].id != id {
      assert prefix[i] == legs[i];
    }
    RemoveAbsentId(prefix, id);
    assert RemoveId(legs, id) == RemoveId(prefix, id) + [];
  }

  /** Removing an id no leg carries leaves the list as it is. */
  lemma {:induction false} RemoveAbsentId(legs: seq<Leg>, id: int)
    requires forall i :: 0 <= i < |legs| ==> legs[i].id != id
    ensures RemoveId(legs, id) == legs
    decreases |legs|
  {
    if legs != [] {
      RemoveAbsentId(legs[..|legs| - 1], id);
      assert legs == legs[..|legs| - 1] + [legs[|legs| - 1]];
    }
  }

  /** Revaluation keeps every leg's id in place. */
  lemma IdsOfRefreshAll(legs: seq<Leg>, cache: map<int, real>)
    ensures Ids(Valuation.RefreshAll(legs, cache)) == Ids(legs)
  {
  }

  /** Legs whose ids are increasing keys have distinct ids. */
  lemma IncreasingIdsDistinct(legs: seq<Leg>)
    requires StrictlyIncreasing(Ids(legs))
    ensures DistinctIds(legs)
  {
    forall i, j | 0 <= i < j < |legs| ensures legs[i].id != legs[j].id {
      assert Ids(legs)[i] < Ids(legs)[j];
    }
  }
}
