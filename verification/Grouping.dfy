/**
 Grouping a list of entries into turns: an entry either joins the turn before it or opens a new one.
 The wire converters differ only in their entries and in which entry joins.
 */
module Grouping {

  /** Whether an entry joins the (non-empty) turn before it. */
  type Joins<!E> = (seq<E>, E) -> bool

  function AddEntry<E>(joins: Joins<E>, turns: seq<seq<E>>, e: E): seq<seq<E>> {
    if turns != [] && joins(turns[|turns| - 1], e)
    then turns[|turns| - 1 := turns[|turns| - 1] + [e]]
    else turns + [[e]]
  }

  function Grouped<E>(joins: Joins<E>, entries: seq<E>): seq<seq<E>> {
    if entries == [] then []
    else AddEntry(joins, Grouped(joins, entries[..|entries| - 1]), entries[|entries| - 1])
  }

  function Flatten<E>(turns: seq<seq<E>>): seq<E> {
    if turns == [] then [] else Flatten(turns[..|turns| - 1]) + turns[|turns| - 1]
  }

  /** Inside a turn every entry joins what precedes it, and the first entry of a turn does not join the turn before. */
  ghost predicate WellGrouped<E>(joins: Joins<E>, turns: seq<seq<E>>) {
    && (forall i :: 0 <= i < |turns| ==> WholeTurn(joins, turns[i]))
    && (forall i :: 0 < i < |turns| ==> Boundary(joins, turns, i))
  }

  ghost predicate WholeTurn<E>(joins: Joins<E>, turn: seq<E>) {
    turn != [] && forall k :: 0 < k < |turn| ==> joins(turn[..k], turn[k])
  }

  ghost predicate Boundary<E>(joins: Joins<E>, turns: seq<seq<E>>, i: nat)
    requires 0 < i < |turns|
  {
    turns[i] != [] && !joins(turns[i - 1], turns[i][0])
  }

  lemma FlattenAdd<E>(joins: Joins<E>, turns: seq<seq<E>>, e: E)
    ensures Flatten(AddEntry(joins, turns, e)) == Flatten(turns) + [e]
  {
    var added := AddEntry(joins, turns, e);
    if turns != [] && joins(turns[|turns| - 1], e) {
      assert added[..|added| - 1] == turns[..|turns| - 1];
    } else {
      assert added[..|added| - 1] == turns;
    }
  }

  lemma AddKeepsGrouping<E>(joins: Joins<E>, turns: seq<seq<E>>, e: E)
    requires WellGrouped(joins, turns)
    ensures WellGrouped(joins, AddEntry(joins, turns, e))
  {
    var added := AddEntry(joins, turns, e);
    var last := |turns| - 1;
    forall i | 0 <= i < |added| ensures WholeTurn(joins, added[i]) {
      if turns != [] && i == last {
        assert WholeTurn(joins, turns[last]);
        if joins(turns[last], e) {
          forall k | 0 < k < |added[i]| ensures joins(added[i][..k], added[i][k]) {
            assert k < |turns[last]| ==> added[i][..k] == turns[last][..k];
            assert k == |turns[last]| ==> added[i][..k] == turns[last];
          }
        }
      } else if i < |turns| {
        assert WholeTurn(joins, turns[i]);
      }
    }
    forall i | 0 < i < |added| ensures Boundary(joins, added, i) {
      if i < |turns| {
        assert Boundary(joins, turns, i);
      }
    }
  }

  /** Grouping one entry more, or none. */
  lemma GroupedStep<E>(joins: Joins<E>, entries: seq<E>, added: seq<E>)
    requires |added| <= 1
    ensures Grouped(joins, entries + added)
         == if added == [] then Grouped(joins, entries) else AddEntry(joins, Grouped(joins, entries), added[0])
  {
    if added == [] {
      assert entries + added == entries;
    } else {
      assert (entries + added)[..|entries|] == entries;
    }
  }

  /** Grouping loses, duplicates and reorders nothing, and is well grouped. */
  lemma {:induction false} GroupedIsWellGrouped<E>(joins: Joins<E>, entries: seq<E>)
    ensures Flatten(Grouped(joins, entries)) == entries
    ensures WellGrouped(joins, Grouped(joins, entries))
  {
    if entries != [] {
      hide WellGrouped, Flatten, AddEntry;
      var before, e := entries[..|entries| - 1], entries[|entries| - 1];
      GroupedIsWellGrouped(joins, before);
      FlattenAdd(joins, Grouped(joins, before), e);
      AddKeepsGrouping(joins, Grouped(joins, before), e);
      assert entries == before + [e];
    }
  }

  /** It is the only well-grouped arrangement of its entries. */
  lemma {:induction false} GroupingIsUnique<E>(joins: Joins<E>, turns: seq<seq<E>>)
    requires WellGrouped(joins, turns)
    ensures turns == Grouped(joins, Flatten(turns))
    decreases |Flatten(turns)|, |turns|
  {
    if turns != [] {
      var last := |turns| - 1;
      assert WholeTurn(joins, turns[last]);
      var n := |turns[last]| - 1;
      var e := turns[last][n];
      var before := if n == 0 then turns[..last] else turns[last := turns[last][..n]];
      Unadd(joins, turns, before, e, last, n);
      assert Flatten(turns)[..|Flatten(turns)| - 1] == Flatten(before);
      GroupingIsUnique(joins, before);
    }
  }

  lemma Unadd<E>(joins: Joins<E>, turns: seq<seq<E>>, before: seq<seq<E>>, e: E, last: nat, n: nat)
    requires WellGrouped(joins, turns) && last == |turns| - 1 && n == |turns[last]| - 1
    requires e == turns[last][n]
    requires before == if n == 0 then turns[..last] else turns[last := turns[last][..n]]
    ensures WellGrouped(joins, before)
    ensures turns == AddEntry(joins, before, e)
    ensures Flatten(turns) == Flatten(before) + [e]
  {
    assert WholeTurn(joins, turns[last]);
    forall i | 0 <= i < |before| ensures WholeTurn(joins, before[i]) {
      assert WholeTurn(joins, turns[i]);
      if n > 0 && i == last {
        forall k | 0 < k < n ensures joins(before[i][..k], before[i][k]) {
          assert before[i][..k] == turns[i][..k];
        }
      }
    }
    forall i | 0 < i < |before| ensures Boundary(joins, before, i) {
      assert Boundary(joins, turns, i);
    }
    if n == 0 {
      assert turns[last] == [e];
      if last > 0 {
        assert Boundary(joins, turns, last);
      }
    } else {
      assert turns[last][..n] + [e] == turns[last];
    }
    FlattenAdd(joins, before, e);
  }
}
