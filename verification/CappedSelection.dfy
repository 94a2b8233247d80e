/**
 Selecting from a ranked list under two caps: at most six entries in all and at most two of a group.
 The greedy selection takes every entry that still fits; it is optimal, position by position.
 */
module CappedSelection {

  const MAX_LISTED_MODELS := 6
  const MAX_PER_RANK_GROUP := 2

  /** What the selection looks at: the id, which is listed once, and the group, which is capped. */
  datatype Entry<I, G> = Entry(id: I, group: G)

  predicate InRange<I(==), G(==)>(s: seq<Entry<I, G>>, picks: seq<nat>) {
    forall k :: 0 <= k < |picks| ==> picks[k] < |s|
  }

  /** How many of the picked positions hold an entry of the group. */
  function GroupCount<I(==), G(==)>(s: seq<Entry<I, G>>, picks: seq<nat>, group: G): nat
    requires InRange(s, picks)
  {
    if picks == [] then 0
    else
      var last := |picks| - 1;
      GroupCount(s, picks[..last], group) + (if s[picks[last]].group == group then 1 else 0)
  }

  function Groups<I(==), G(==)>(s: seq<Entry<I, G>>, picks: seq<nat>): (g: seq<G>)
    requires InRange(s, picks)
    ensures |g| == |picks|
  {
    seq(|picks|, k requires 0 <= k < |picks| && InRange(s, picks) => s[picks[k]].group)
  }

  lemma {:induction false} GroupCountIsMultiplicity<I, G>(s: seq<Entry<I, G>>, picks: seq<nat>, group: G)
    requires InRange(s, picks)
    ensures GroupCount(s, picks, group) == multiset(Groups(s, picks))[group]
  {
    if picks != [] {
      var last := |picks| - 1;
      assert Groups(s, picks) == Groups(s, picks[..last]) + [s[picks[last]].group];
      GroupCountIsMultiplicity(s, picks[..last], group);
    }
  }

  predicate Picked<I(==), G(==)>(s: seq<Entry<I, G>>, picks: seq<nat>, id: I)
    requires InRange(s, picks)
  {
    exists k :: 0 <= k < |picks| && s[picks[k]].id == id
  }

  /** The selection still has room, overall and in the entry's group, and does not have its id. */
  predicate Takes<I(==), G(==)>(s: seq<Entry<I, G>>, picks: seq<nat>, c: Entry<I, G>)
    requires InRange(s, picks)
  {
    |picks| < MAX_LISTED_MODELS && GroupCount(s, picks, c.group) < MAX_PER_RANK_GROUP && !Picked(s, picks, c.id)
  }

  /** The positions picked from the first i entries. */
  function Greedy<I(==), G(==)>(s: seq<Entry<I, G>>, i: nat): (picks: seq<nat>)
    requires i <= |s|
    ensures forall k :: 0 <= k < |picks| ==> picks[k] < i
    ensures |picks| <= MAX_LISTED_MODELS
  {
    if i == 0 then []
    else
      var picks := Greedy(s, i - 1);
      if Takes(s, picks, s[i - 1]) then picks + [i - 1] else picks
  }

  function Ids<I(==), G(==)>(s: seq<Entry<I, G>>, picks: seq<nat>): (ids: seq<I>)
    requires InRange(s, picks)
    ensures |ids| == |picks|
  {
    seq(|picks|, k requires 0 <= k < |picks| && InRange(s, picks) => s[picks[k]].id)
  }

  lemma PickedIsListed<I, G>(s: seq<Entry<I, G>>, picks: seq<nat>, id: I)
    requires InRange(s, picks)
    ensures Picked(s, picks, id) <==> id in Ids(s, picks)
  {
    var ids := Ids(s, picks);
    if Picked(s, picks, id) {
      var k :| 0 <= k < |picks| && s[picks[k]].id == id;
      assert ids[k] == id;
    }
  }

  lemma FullTakesNone<I, G>(s: seq<Entry<I, G>>, i: nat)
    requires i < |s| && |Greedy(s, i)| == MAX_LISTED_MODELS
    ensures Greedy(s, i + 1) == Greedy(s, i)
  {
    assert !Takes(s, Greedy(s, i), s[i]);
  }

  lemma {:induction false} FullStays<I, G>(s: seq<Entry<I, G>>, i: nat, j: nat)
    requires i <= j <= |s| && (|Greedy(s, i)| == MAX_LISTED_MODELS || i == j)
    ensures Greedy(s, j) == Greedy(s, i)
    decreases j - i
  {
    if i < j {
      FullStays(s, i, j - 1);
      FullTakesNone(s, j - 1);
    }
  }

  /** Entries with the same id are in the same group. */
  ghost predicate OneGroupPerId<I, G>(s: seq<Entry<I, G>>) {
    forall i, j :: 0 <= i < j < |s| && s[i].id == s[j].id ==> s[i].group == s[j].group
  }

  ghost predicate NoDuplicates<T>(ids: seq<T>) {
    forall i, j :: 0 <= i < j < |ids| ==> ids[i] != ids[j]
  }

  ghost predicate Increasing(sel: seq<nat>) {
    forall j, k :: 0 <= j < k < |sel| ==> sel[j] < sel[k]
  }

  /** A selection of entries, by position, with distinct ids and within both caps. */
  ghost predicate Legal<I, G(!new)>(s: seq<Entry<I, G>>, sel: seq<nat>) {
    && InRange(s, sel) && Increasing(sel) && NoDuplicates(Ids(s, sel))
    && |sel| <= MAX_LISTED_MODELS
    && forall g :: GroupCount(s, sel, g) <= MAX_PER_RANK_GROUP
  }

  /** The ids among the first i entries that are in the group. */
  ghost function Members<I, G>(s: seq<Entry<I, G>>, i: nat, group: G): set<I>
    requires i <= |s|
  {
    set j | 0 <= j < i && s[j].group == group :: s[j].id
  }

  lemma MembersStep<I, G>(s: seq<Entry<I, G>>, i: nat, group: G)
    requires i < |s|
    ensures Members(s, i + 1, group) == Members(s, i, group) + if s[i].group == group then {s[i].id} else {}
  {
  }

  lemma GroupCountStep<I, G>(s: seq<Entry<I, G>>, picks: seq<nat>, i: nat, group: G)
    requires InRange(s, picks) && i < |s|
    ensures InRange(s, picks + [i])
    ensures GroupCount(s, picks + [i], group) == GroupCount(s, picks, group) + (if s[i].group == group then 1 else 0)
  {
    assert (picks + [i])[..|picks|] == picks;
  }

  lemma RoomBefore<I, G>(s: seq<Entry<I, G>>, i: nat)
    requires i < |s|
    ensures |Greedy(s, i)| <= |Greedy(s, i + 1)|
  {
  }

  lemma StillPicked<I, G>(s: seq<Entry<I, G>>, i: nat, id: I)
    requires i < |s| && Picked(s, Greedy(s, i), id)
    ensures Picked(s, Greedy(s, i + 1), id)
  {
    var k :| 0 <= k < |Greedy(s, i)| && s[Greedy(s, i)[k]].id == id;
    assert s[Greedy(s, i + 1)[k]].id == id;
  }

  lemma StaysFull<I, G(!new)>(s: seq<Entry<I, G>>, i: nat, group: G)
    requires i < |s| && GroupCount(s, Greedy(s, i), group) == MAX_PER_RANK_GROUP
    ensures GroupCount(s, Greedy(s, i + 1), group) == MAX_PER_RANK_GROUP
  {
    GreedyIsLegal(s, i + 1);
    GreedyStep(s, i);
    GroupCountStep(s, Greedy(s, i), i, group);
    hide Greedy, GroupCount, Picked;
  }

  lemma JustPassedIsPickedOrFull<I, G(!new)>(s: seq<Entry<I, G>>, i: nat)
    requires i < |s| && |Greedy(s, i)| < MAX_LISTED_MODELS
    ensures Picked(s, Greedy(s, i + 1), s[i].id) || GroupCount(s, Greedy(s, i + 1), s[i].group) == MAX_PER_RANK_GROUP
  {
    var picks := Greedy(s, i);
    GreedyStep(s, i);
    GreedyIsLegal(s, i);
    hide Greedy, GroupCount;
    if Takes(s, picks, s[i]) {
      assert s[(picks + [i])[|picks|]].id == s[i].id;
    } else if GroupCount(s, picks, s[i].group) < MAX_PER_RANK_GROUP {
      StillPicked(s, i, s[i].id);
    }
  }

  /** While there is room, an entry that was passed is listed, or its group is at its cap. */
  lemma {:induction false} PassedIsPickedOrFull<I, G(!new)>(s: seq<Entry<I, G>>, i: nat, j: nat)
    requires j < i <= |s| && |Greedy(s, i)| < MAX_LISTED_MODELS
    ensures Picked(s, Greedy(s, i), s[j].id) || GroupCount(s, Greedy(s, i), s[j].group) == MAX_PER_RANK_GROUP
  {
    hide Greedy, GroupCount, Picked;
    RoomBefore(s, i - 1);
    if j == i - 1 {
      JustPassedIsPickedOrFull(s, j);
    } else {
      PassedIsPickedOrFull(s, i - 1, j);
      if Picked(s, Greedy(s, i - 1), s[j].id) {
        StillPicked(s, i - 1, s[j].id);
      } else {
        StaysFull(s, i - 1, s[j].group);
      }
    }
  }

  predicate TwoAt<I(==), G(==)>(s: seq<Entry<I, G>>, picks: seq<nat>, group: G, p: nat, q: nat)
    requires InRange(s, picks)
  {
    p < q < |picks| && s[picks[p]].group == group && s[picks[q]].group == group
  }

  lemma {:induction false} TwoAreThere<I, G>(s: seq<Entry<I, G>>, picks: seq<nat>, group: G)
    requires InRange(s, picks) && GroupCount(s, picks, group) >= 1
    ensures exists p :: 0 <= p < |picks| && s[picks[p]].group == group
    ensures GroupCount(s, picks, group) >= 2 ==> exists p: nat, q: nat :: TwoAt(s, picks, group, p, q)
  {
    var last := |picks| - 1;
    var less := picks[..last];
    if s[picks[last]].group != group {
      TwoAreThere(s, less, group);
      if p: nat, q: nat :| TwoAt(s, less, group, p, q) {
        assert TwoAt(s, picks, group, p, q);
      }
    } else if GroupCount(s, less, group) >= 1 {
      TwoAreThere(s, less, group);
      var p :| 0 <= p < |less| && s[less[p]].group == group;
      assert TwoAt(s, picks, group, p, last);
    }
  }

  lemma {:induction false} PicksStay<I, G>(s: seq<Entry<I, G>>, i: nat, j: nat)
    requires i <= j <= |s|
    ensures Greedy(s, i) <= Greedy(s, j)
  {
    if i < j {
      PicksStay(s, i, j - 1);
    }
  }

  lemma PickedForGood<I, G>(s: seq<Entry<I, G>>, i: nat, id: I)
    requires i <= |s|
    ensures Picked(s, Greedy(s, i), id) ==> Picked(s, Greedy(s, |s|), id)
  {
    PicksStay(s, i, |s|);
    assert forall k :: 0 <= k < |Greedy(s, i)| ==> Greedy(s, |s|)[k] == Greedy(s, i)[k];
  }

  /** An entry whose id is not listed was passed over for a cause: six before it, or two before it of its own group. */
  lemma PassedOverForACause<I, G>(s: seq<Entry<I, G>>, j: nat)
    requires j < |s| && !Picked(s, Greedy(s, |s|), s[j].id)
    ensures Greedy(s, j) <= Greedy(s, |s|)
    ensures |Greedy(s, j)| == 6 || exists p: nat, q: nat :: TwoAt(s, Greedy(s, j), s[j].group, p, q)
  {
    PicksStay(s, j, |s|);
    PickedForGood(s, j, s[j].id);
    PickedForGood(s, j + 1, s[j].id);
    var picks := Greedy(s, j);
    assert Greedy(s, j + 1) == if Takes(s, picks, s[j]) then picks + [j] else picks;
    assert s[(picks + [j])[|picks|]].id == s[j].id;
    hide Greedy;
    if |picks| < 6 {
      TwoAreThere(s, picks, s[j].group);
    }
  }

  /** A listed id is an id of its own group only. */
  lemma PickedIsMember<I, G>(s: seq<Entry<I, G>>, i: nat)
    requires i < |s| && OneGroupPerId(s) && Picked(s, Greedy(s, i), s[i].id)
    ensures s[i].id in Members(s, i, s[i].group)
  {
    hide Greedy;
    var k :| 0 <= k < |Greedy(s, i)| && s[Greedy(s, i)[k]].id == s[i].id;
    var j := Greedy(s, i)[k];
    assert s[j].group == s[i].group;
  }

  function Capped(n: nat): nat {
    if n < MAX_PER_RANK_GROUP then n else MAX_PER_RANK_GROUP
  }

  lemma NothingSaturates<I, G(!new)>(s: seq<Entry<I, G>>, group: G)
    ensures GroupCount(s, Greedy(s, 0), group) == Capped(|Members(s, 0, group)|)
  {
    assert Members(s, 0, group) == {};
  }

  /** While there is room, the greedy selection holds as many ids of each group as the group's cap allows. */
  lemma {:induction false} GreedySaturates<I, G(!new)>(s: seq<Entry<I, G>>, i: nat, group: G)
    requires i <= |s| && OneGroupPerId(s) && |Greedy(s, i)| < MAX_LISTED_MODELS
    ensures GroupCount(s, Greedy(s, i), group) == Capped(|Members(s, i, group)|)
  {
    hide *;
    if i == 0 {
      NothingSaturates(s, group);
    } else {
      RoomBefore(s, i - 1);
      GreedySaturates(s, i - 1, group);
      SaturatesStep(s, i - 1, group);
    }
  }

  /** An id met again in its group is not picked again. */
  lemma RepetitionIsSkipped<I, G(!new)>(s: seq<Entry<I, G>>, i: nat)
    requires i < |s| && |Greedy(s, i)| < MAX_LISTED_MODELS && s[i].id in Members(s, i, s[i].group)
    ensures !Takes(s, Greedy(s, i), s[i])
  {
    hide Greedy, GroupCount, Picked;
    var j :| 0 <= j < i && s[j].group == s[i].group && s[j].id == s[i].id;
    PassedIsPickedOrFull(s, i, j);
  }

  lemma SaturatesStep<I, G(!new)>(s: seq<Entry<I, G>>, i: nat, group: G)
    requires i < |s| && OneGroupPerId(s) && |Greedy(s, i)| < MAX_LISTED_MODELS
    requires GroupCount(s, Greedy(s, i), group) == Capped(|Members(s, i, group)|)
    ensures GroupCount(s, Greedy(s, i + 1), group) == Capped(|Members(s, i + 1, group)|)
  {
    hide Greedy, GroupCount, Picked, OneGroupPerId, Members;
    var members, id, picks := Members(s, i, group), s[i].id, Greedy(s, i);
    MembersStep(s, i, group);
    GreedyStep(s, i);
    GroupCountStep(s, picks, i, group);
    if s[i].group != group {
      assert members + {} == members;
    } else if id in members {
      RepetitionIsSkipped(s, i);
      assert members + {id} == members;
    } else if Picked(s, picks, id) {
      PickedIsMember(s, i);
    }
  }

  ghost function SelectedMembers<I, G>(s: seq<Entry<I, G>>, sel: seq<nat>, group: G): set<I>
    requires InRange(s, sel)
  {
    set k | 0 <= k < |sel| && s[sel[k]].group == group :: s[sel[k]].id
  }

  lemma SelectedStep<I, G>(s: seq<Entry<I, G>>, sel: seq<nat>, group: G)
    requires InRange(s, sel) && sel != []
    ensures var e := s[sel[|sel| - 1]];
            SelectedMembers(s, sel, group) == SelectedMembers(s, sel[..|sel| - 1], group) + if e.group == group then
                {e.id}
                else {}
  {
    var last := |sel| - 1;
    var before, e := sel[..last], s[sel[last]];
    assert sel == before + [sel[last]];
    assert forall k :: 0 <= k < last ==> before[k] == sel[k];
    forall x
        ensures x in SelectedMembers(s, sel, group)
        <==> x in SelectedMembers(s, before, group) || (e.group == group && x == e.id) {
      if x in SelectedMembers(s, before, group) {
        var k :| 0 <= k < |before| && s[before[k]].group == group && s[before[k]].id == x;
        assert s[sel[k]].id == x;
      }
      if x in SelectedMembers(s, sel, group) {
        var k :| 0 <= k < |sel| && s[sel[k]].group == group && s[sel[k]].id == x;
        assert k < last ==> s[before[k]].id == x;
      }
    }
  }

  /** With distinct ids, a group's count is the number of its ids. */
  lemma {:induction false} CountIsMembers<I, G>(s: seq<Entry<I, G>>, sel: seq<nat>, group: G)
    requires InRange(s, sel) && NoDuplicates(Ids(s, sel))
    ensures GroupCount(s, sel, group) == |SelectedMembers(s, sel, group)|
  {
    if sel == [] {
      assert SelectedMembers(s, sel, group) == {};
    } else {
      var last := |sel| - 1;
      var before, id := sel[..last], s[sel[last]].id;
      FewerDuplicates(s, sel, last);
      CountIsMembers(s, before, group);
      SelectedStep(s, sel, group);
      forall k | 0 <= k < last ensures s[before[k]].id != id {
        assert Ids(s, sel)[k] == s[before[k]].id && Ids(s, sel)[last] == id;
      }
      assert id !in SelectedMembers(s, before, group);
    }
  }

  lemma FewerDuplicates<I, G>(s: seq<Entry<I, G>>, sel: seq<nat>, m: nat)
    requires InRange(s, sel) && NoDuplicates(Ids(s, sel)) && m <= |sel|
    ensures NoDuplicates(Ids(s, sel[..m]))
  {
    assert forall k :: 0 <= k < m ==> Ids(s, sel[..m])[k] == Ids(s, sel)[k];
  }

  /** A selection of distinct ids from the first i entries has no more of a group than there are. */
  lemma SelectionIsAvailable<I, G>(s: seq<Entry<I, G>>, sel: seq<nat>, i: nat, group: G)
    requires i <= |s| && InRange(s, sel) && NoDuplicates(Ids(s, sel)) && forall k :: 0 <= k < |sel| ==> sel[k] < i
    ensures GroupCount(s, sel, group) <= |Members(s, i, group)|
  {
    CountIsMembers(s, sel, group);
    forall x | x in SelectedMembers(s, sel, group) ensures x in Members(s, i, group) {
      var k :| 0 <= k < |sel| && s[sel[k]].group == group && s[sel[k]].id == x;
    }
    SmallerSet(SelectedMembers(s, sel, group), Members(s, i, group));
  }

  lemma SmallerSet<T>(a: set<T>, b: set<T>)
    requires a <= b
    ensures |a| <= |b|
  {
    assert b == a + (b - a);
  }

  lemma {:induction false} PrefixHasFewer<I, G>(s: seq<Entry<I, G>>, sel: seq<nat>, m: nat, group: G)
    requires InRange(s, sel) && m <= |sel|
    ensures GroupCount(s, sel[..m], group) <= GroupCount(s, sel, group)
  {
    if m < |sel| {
      PrefixHasFewer(s, sel[..|sel| - 1], m, group);
      assert sel[..|sel| - 1][..m] == sel[..m];
    } else {
      assert sel[..m] == sel;
    }
  }

  lemma GroupKeepsUp<I, G(!new)>(s: seq<Entry<I, G>>, sel: seq<nat>, m: nat, i: nat, g: G)
    requires OneGroupPerId(s) && Legal(s, sel) && m <= |sel| && i <= |s| && |Greedy(s, i)| < MAX_LISTED_MODELS
    requires forall k :: 0 <= k < m ==> sel[k] < i
    ensures multiset(Groups(s, sel[..m]))[g] <= multiset(Groups(s, Greedy(s, i)))[g]
  {
    GreedySaturates(s, i, g);
    FewerDuplicates(s, sel, m);
    SelectionIsAvailable(s, sel[..m], i, g);
    PrefixHasFewer(s, sel, m, g);
    GroupCountIsMultiplicity(s, sel[..m], g);
    GroupCountIsMultiplicity(s, Greedy(s, i), g);
  }

  /** Of any legal selection, no more than the greedy selection's number lies in the first i entries. */
  lemma GreedyKeepsUp<I, G(!new)>(s: seq<Entry<I, G>>, sel: seq<nat>, m: nat, i: nat)
    requires OneGroupPerId(s) && Legal(s, sel) && m <= |sel| && i <= |s|
    requires forall k :: 0 <= k < m ==> sel[k] < i
    ensures m <= |Greedy(s, i)|
  {
    var greedy := Greedy(s, i);
    if |greedy| < MAX_LISTED_MODELS {
      var part := sel[..m];
      var mine, theirs := multiset(Groups(s, greedy)), multiset(Groups(s, part));
      forall g ensures theirs[g] <= mine[g] {
        GroupKeepsUp(s, sel, m, i, g);
      }
      SmallerMultiset(theirs, mine);
    }
  }

  lemma SmallerMultiset<T(!new)>(a: multiset<T>, b: multiset<T>)
    requires forall g :: a[g] <= b[g]
    ensures |a| <= |b|
  {
    assert b == a + (b - a);
  }

  lemma GreedyStep<I, G>(s: seq<Entry<I, G>>, i: nat)
    requires i < |s|
    ensures Greedy(s, i + 1) == if Takes(s, Greedy(s, i), s[i]) then Greedy(s, i) + [i] else Greedy(s, i)
  {
  }

  lemma GreedyExtends<I, G>(s: seq<Entry<I, G>>, i: nat)
    requires i < |s|
    ensures Greedy(s, i) <= Greedy(s, i + 1)
  {
  }

  lemma PrefixOfPrefix(a: seq<nat>, b: seq<nat>, c: seq<nat>)
    requires a <= b <= c
    ensures a <= c
  {
  }

  lemma {:induction false} GreedyGrows<I, G>(s: seq<Entry<I, G>>, i: nat, j: nat)
    requires i <= j <= |s|
    ensures Greedy(s, i) <= Greedy(s, j)
    decreases j
  {
    hide *;
    if i < j {
      GreedyGrows(s, i, j - 1);
      GreedyExtends(s, j - 1);
      PrefixOfPrefix(Greedy(s, i), Greedy(s, j - 1), Greedy(s, j));
    }
  }

  /** Taking an entry keeps every group within its cap. */
  lemma CapIsKept<I, G>(s: seq<Entry<I, G>>, picks: seq<nat>, i: nat, group: G)
    requires i < |s| && InRange(s, picks) && GroupCount(s, picks, group) <= MAX_PER_RANK_GROUP && Takes(s, picks, s[i])
    ensures InRange(s, picks + [i]) && GroupCount(s, picks + [i], group) <= MAX_PER_RANK_GROUP
  {
    GroupCountStep(s, picks, i, group);
    hide GroupCount, Picked;
  }

  lemma TakenStaysLegal<I, G(!new)>(s: seq<Entry<I, G>>, picks: seq<nat>, i: nat)
    requires i < |s| && Legal(s, picks) && Takes(s, picks, s[i]) && forall k :: 0 <= k < |picks| ==> picks[k] < i
    ensures Legal(s, picks + [i])
  {
    TakenIsNew(s, picks, i);
    hide GroupCount, Picked, Ids, NoDuplicates, Takes;
    assert |picks| < MAX_LISTED_MODELS by {
      RoomIsLeft(s, picks, i);
    }
    var more := picks + [i];
    forall group ensures GroupCount(s, more, group) <= MAX_PER_RANK_GROUP {
      CapIsKept(s, picks, i, group);
    }
  }

  lemma RoomIsLeft<I, G>(s: seq<Entry<I, G>>, picks: seq<nat>, i: nat)
    requires i < |s| && InRange(s, picks) && Takes(s, picks, s[i])
    ensures |picks| < MAX_LISTED_MODELS
  {
  }

  lemma NoneIsLegal<I, G(!new)>(s: seq<Entry<I, G>>)
    ensures Greedy(s, 0) == [] && Legal(s, [])
  {
  }

  /** The greedy selection is itself within the caps. */
  lemma {:induction false} GreedyIsLegal<I, G(!new)>(s: seq<Entry<I, G>>, i: nat)
    requires i <= |s|
    ensures Legal(s, Greedy(s, i))
  {
    hide *;
    if i == 0 {
      NoneIsLegal(s);
    } else {
      GreedyIsLegal(s, i - 1);
      GreedyStaysLegal(s, i - 1);
    }
  }

  lemma GreedyStaysLegal<I, G(!new)>(s: seq<Entry<I, G>>, i: nat)
    requires i < |s| && Legal(s, Greedy(s, i))
    ensures Legal(s, Greedy(s, i + 1))
  {
    hide Legal, Takes, Greedy, GroupCount, Picked;
    GreedyStep(s, i);
    if Takes(s, Greedy(s, i), s[i]) {
      TakenStaysLegal(s, Greedy(s, i), i);
    }
  }

  /**
   Every legal selection is no longer than the greedy one, and its k-th position never comes before the greedy
   k-th.
   */
  lemma GreedyIsEarliest<I, G(!new)>(s: seq<Entry<I, G>>, sel: seq<nat>)
    requires OneGroupPerId(s) && Legal(s, sel)
    ensures Legal(s, Greedy(s, |s|)) && |sel| <= |Greedy(s, |s|)|
    ensures forall k :: 0 <= k < |sel| ==> Greedy(s, |s|)[k] <= sel[k]
  {
    var best := Greedy(s, |s|);
    GreedyIsLegal(s, |s|);
    GreedyKeepsUp(s, sel, |sel|, |s|);
    forall k | 0 <= k < |sel| ensures best[k] <= sel[k] {
      GreedyKeepsUp(s, sel, k + 1, sel[k] + 1);
      GreedyGrows(s, sel[k] + 1, |s|);
      assert best[k] == Greedy(s, sel[k] + 1)[k];
    }
  }

  // ----- Where the groups of an id matter -----

  /** The greedy selection is optimal on this list. */
  ghost predicate Optimal<I(!new), G(!new)>(s: seq<Entry<I, G>>) {
    forall sel :: Legal(s, sel) ==>
        |sel| <= |Greedy(s, |s|)| && forall k :: 0 <= k < |sel| ==> Greedy(s, |s|)[k] <= sel[k]
  }

  /** x in two groups, the first of which has two more ids. */
  function TwoGroups<I, G>(x: I, y: I, z: I, a: G, b: G): seq<Entry<I, G>> {
    [Entry(x, a), Entry(y, a), Entry(z, a), Entry(x, b)]
  }

  lemma FirstIsTaken<I, G>(s: seq<Entry<I, G>>)
    requires |s| >= 1
    ensures Greedy(s, 1) == [0]
  {
    assert Greedy(s, 0) == [];
    GreedyStep(s, 0);
    assert [] + [0] == [0];
    hide Greedy;
  }

  lemma SecondIsTaken<I, G>(s: seq<Entry<I, G>>)
    requires |s| >= 2 && s[0].id != s[1].id
    ensures Greedy(s, 2) == [0, 1]
  {
    FirstIsTaken(s);
    GreedyStep(s, 1);
    hide Greedy;
    GroupCountStep(s, [], 0, s[1].group);
    assert [] + [0] == [0] && [0] + [1] == [0, 1];
  }

  lemma FullGroupIsSkipped<I, G>(s: seq<Entry<I, G>>)
    requires |s| >= 3 && Greedy(s, 2) == [0, 1] && s[0].group == s[1].group == s[2].group
    ensures Greedy(s, 3) == [0, 1]
  {
    GreedyStep(s, 2);
    hide Greedy;
    GroupCountStep(s, [], 0, s[2].group);
    GroupCountStep(s, [0], 1, s[2].group);
    assert [] + [0] == [0] && [0] + [1] == [0, 1];
  }

  lemma ListedIdIsSkipped<I, G>(s: seq<Entry<I, G>>)
    requires |s| >= 4 && Greedy(s, 3) == [0, 1] && s[3].id == s[0].id
    ensures Greedy(s, 4) == [0, 1]
  {
    GreedyStep(s, 3);
    hide Greedy, GroupCount;
    assert s[[0, 1][0]].id == s[3].id;
  }

  lemma GreedyListsTwo<I, G>(x: I, y: I, z: I, a: G, b: G)
    requires x != y && y != z && x != z && a != b
    ensures Greedy(TwoGroups(x, y, z, a, b), 4) == [0, 1]
  {
    hide Greedy;
    SecondIsTaken(TwoGroups(x, y, z, a, b));
    FullGroupIsSkipped(TwoGroups(x, y, z, a, b));
    ListedIdIsSkipped(TwoGroups(x, y, z, a, b));
  }

  lemma NoGroupHasThree<I, G(!new)>(s: seq<Entry<I, G>>, g: G)
    requires |s| == 4 && s[1].group == s[2].group && s[3].group != s[1].group
    ensures GroupCount(s, [1, 2, 3], g) <= MAX_PER_RANK_GROUP
  {
    GroupCountStep(s, [], 1, g);
    GroupCountStep(s, [1], 2, g);
    GroupCountStep(s, [1, 2], 3, g);
    assert [] + [1] == [1] && [1] + [2] == [1, 2] && [1, 2] + [3] == [1, 2, 3];
    assert GroupCount(s, [], g) == 0;
    hide GroupCount;
  }

  lemma ThreeAreLegal<I, G(!new)>(x: I, y: I, z: I, a: G, b: G)
    requires x != y && y != z && x != z && a != b
    ensures Legal(TwoGroups(x, y, z, a, b), [1, 2, 3])
  {
    hide GroupCount;
    var s := TwoGroups(x, y, z, a, b);
    assert Ids(s, [1, 2, 3]) == [y, z, x];
    forall g ensures GroupCount(s, [1, 2, 3], g) <= MAX_PER_RANK_GROUP {
      NoGroupHasThree(s, g);
    }
  }

  /**
   An id in two groups: the greedy selection lists x and y and then finds the first group full and x listed; y,
   z and x would be three.
   */
  lemma TwoGroupsOfOneIdMayCostAnEntry<I(!new), G(!new)>(x: I, y: I, z: I, a: G, b: G)
    requires x != y && y != z && x != z && a != b
    ensures !Optimal(TwoGroups(x, y, z, a, b))
  {
    GreedyListsTwo(x, y, z, a, b);
    ThreeAreLegal(x, y, z, a, b);
    hide Legal, Greedy;
    assert |[1, 2, 3]| > |Greedy(TwoGroups(x, y, z, a, b), 4)|;
  }

  ghost predicate Over<I(!new), G(!new)>(s: seq<Entry<I, G>>, catalogue: iset<Entry<I, G>>) {
    forall k :: 0 <= k < |s| ==> s[k] in catalogue
  }

  /** The entry's group has two more ids in the catalogue. */
  ghost predicate HasTwoMore<I(!new), G(!new)>(catalogue: iset<Entry<I, G>>, e: Entry<I, G>) {
    exists y, z :: y != z && y != e.id && z != e.id && Entry(y, e.group) in catalogue && Entry(z, e.group) in catalogue
  }

  /** No id is in two groups of which one has two more ids. */
  ghost predicate NoIdIsCostly<I(!new), G(!new)>(catalogue: iset<Entry<I, G>>) {
    forall e, f :: e in catalogue && f in catalogue && e.id == f.id && e.group != f.group ==> !HasTwoMore(catalogue, e)
  }

  lemma ACostlyList<I(!new), G(!new)>(catalogue: iset<Entry<I, G>>, e: Entry<I, G>, f: Entry<I, G>)
    returns (s: seq<Entry<I, G>>)
    requires e in catalogue && f in catalogue && e.id == f.id && e.group != f.group && HasTwoMore(catalogue, e)
    ensures Over(s, catalogue) && !Optimal(s)
  {
    hide Optimal;
    var y, z :| y != z && y != e.id && z != e.id && Entry(y, e.group) in catalogue && Entry(z, e.group) in catalogue;
    s := TwoGroups(e.id, y, z, e.group, f.group);
    TwoGroupsOfOneIdMayCostAnEntry(e.id, y, z, e.group, f.group);
    assert s[0] == e && s[3] == f;
  }

  /**
   A group of three ids or more stays itself; an id of a smaller one becomes a group of its own, as its cap
   never binds.
   */
  datatype Label<I, G> = Shared(group: G) | Own(id: I)

  ghost function LabelOf<I(!new), G(!new)>(catalogue: iset<Entry<I, G>>, e: Entry<I, G>): Label<I, G> {
    if HasTwoMore(catalogue, e) then Shared(e.group) else Own(e.id)
  }

  ghost function Relabelled<I(!new), G(!new)>(catalogue: iset<Entry<I, G>>, s: seq<Entry<I, G>>)
    : (r: seq<Entry<I, Label<I, G>>>)
    ensures |r| == |s| && forall k :: 0 <= k < |s| ==> r[k] == Entry(s[k].id, LabelOf(catalogue, s[k]))
  {
    seq(|s|, k requires 0 <= k < |s| => Entry(s[k].id, LabelOf(catalogue, s[k])))
  }

  /** Where one member of a group has two more, every member has. */
  lemma MembersShare<I(!new), G(!new)>(catalogue: iset<Entry<I, G>>, e: Entry<I, G>, f: Entry<I, G>)
    requires e in catalogue && f in catalogue && e.group == f.group && HasTwoMore(catalogue, e)
    ensures HasTwoMore(catalogue, f)
  {
    var y, z :| y != z && y != e.id && z != e.id && Entry(y, e.group) in catalogue && Entry(z, e.group) in catalogue;
    assert Entry(e.id, e.group) == e;
    if f.id == y {
      assert Entry(e.id, f.group) in catalogue && Entry(z, f.group) in catalogue;
    } else if f.id == z {
      assert Entry(e.id, f.group) in catalogue && Entry(y, f.group) in catalogue;
    } else {
      assert Entry(y, f.group) in catalogue && Entry(z, f.group) in catalogue;
    }
  }

  lemma RelabelledHasOneGroupPerId<I(!new), G(!new)>(catalogue: iset<Entry<I, G>>, s: seq<Entry<I, G>>)
    requires Over(s, catalogue) && NoIdIsCostly(catalogue)
    ensures OneGroupPerId(Relabelled(catalogue, s))
  {
    var r := Relabelled(catalogue, s);
    forall i, j | 0 <= i < j < |r| && r[i].id == r[j].id ensures r[i].group == r[j].group {
      hide HasTwoMore;
      if s[i].group == s[j].group {
        assert s[i] == s[j];
      }
    }
  }

  /** Two picks of a group that counts two. */
  lemma {:induction false} CountedAreThere<I, G>(s: seq<Entry<I, G>>, picks: seq<nat>, group: G)
    requires InRange(s, picks)
    ensures GroupCount(s, picks, group) >= 1 ==> exists k :: 0 <= k < |picks| && s[picks[k]].group == group
    ensures GroupCount(s, picks, group) >= 2 ==>
              exists j, k :: 0 <= j < k < |picks| && s[picks[j]].group == group && s[picks[k]].group == group
  {
    if picks != [] {
      var last := |picks| - 1;
      CountedAreThere(s, picks[..last], group);
      if GroupCount(s, picks[..last], group) >= 2 {
        var j, k :| 0 <= j < k < last && s[picks[..last][j]].group == group && s[picks[..last][k]].group == group;
        assert s[picks[j]].group == group && s[picks[k]].group == group;
      } else if GroupCount(s, picks[..last], group) >= 1 {
        var k :| 0 <= k < last && s[picks[..last][k]].group == group;
        assert s[picks[k]].group == group;
      }
    }
  }

  lemma {:induction false} SharedCountsAlike<I(!new), G(!new)>(catalogue: iset<Entry<I, G>>, s: seq<Entry<I, G>>,
                                                               picks: seq<nat>, e: Entry<I, G>)
    requires Over(s, catalogue) && e in catalogue && HasTwoMore(catalogue, e) && InRange(s, picks)
    ensures GroupCount(Relabelled(catalogue, s), picks, Shared(e.group)) == GroupCount(s, picks, e.group)
  {
    if picks != [] {
      hide HasTwoMore;
      var last := |picks| - 1;
      SharedCountsAlike(catalogue, s, picks[..last], e);
      var f := s[picks[last]];
      if f.group == e.group {
        MembersShare(catalogue, e, f);
      }
    }
  }

  /** An id of a small group counts once as a group of its own, and not at all before it is picked. */
  lemma OwnCountsOnce<I(!new), G(!new)>(catalogue: iset<Entry<I, G>>, s: seq<Entry<I, G>>, picks: seq<nat>, id: I)
    requires InRange(s, picks) && NoDuplicates(Ids(s, picks))
    ensures var count := GroupCount(Relabelled(catalogue, s), picks, Own(id));
            count <= 1 && (!Picked(s, picks, id) ==> count == 0)
  {
    hide HasTwoMore, GroupCount;
    var r, ids := Relabelled(catalogue, s), Ids(s, picks);
    CountedAreThere(r, picks, Own(id));
    assert forall k :: 0 <= k < |picks| ==> ids[k] == s[picks[k]].id;
  }

  /** An id of a small group that is not picked yet finds room in it. */
  lemma SmallGroupHasRoom<I(!new), G(!new)>(catalogue: iset<Entry<I, G>>, s: seq<Entry<I, G>>, picks: seq<nat>,
                                            e: Entry<I, G>)
    requires Over(s, catalogue) && !HasTwoMore(catalogue, e) && InRange(s, picks) && NoDuplicates(Ids(s, picks))
              && !Picked(s, picks, e.id)
    ensures GroupCount(s, picks, e.group) < MAX_PER_RANK_GROUP
  {
    hide GroupCount;
    CountedAreThere(s, picks, e.group);
    var ids := Ids(s, picks);
    assert forall k :: 0 <= k < |picks| ==> Entry(ids[k], s[picks[k]].group) == s[picks[k]];
  }

  lemma TakesAlike<I(!new), G(!new)>(catalogue: iset<Entry<I, G>>, s: seq<Entry<I, G>>, picks: seq<nat>, i: nat)
    requires Over(s, catalogue) && i < |s| && InRange(s, picks) && NoDuplicates(Ids(s, picks))
    ensures Takes(Relabelled(catalogue, s), picks, Relabelled(catalogue, s)[i]) <==> Takes(s, picks, s[i])
  {
    hide HasTwoMore, GroupCount;
    var r, e := Relabelled(catalogue, s), s[i];
    assert Picked(r, picks, e.id) <==> Picked(s, picks, e.id);
    if HasTwoMore(catalogue, e) {
      SharedCountsAlike(catalogue, s, picks, e);
    } else if !Picked(s, picks, e.id) {
      OwnCountsOnce(catalogue, s, picks, e.id);
      SmallGroupHasRoom(catalogue, s, picks, e);
    }
  }

  lemma GreedyStartsAlike<I(!new), G(!new)>(catalogue: iset<Entry<I, G>>, s: seq<Entry<I, G>>)
    ensures Greedy(Relabelled(catalogue, s), 0) == Greedy(s, 0)
  {
  }

  lemma GreedyStepsAlike<I(!new), G(!new)>(catalogue: iset<Entry<I, G>>, s: seq<Entry<I, G>>, i: nat)
    requires Over(s, catalogue) && i < |s| && Greedy(Relabelled(catalogue, s), i) == Greedy(s, i)
    ensures Greedy(Relabelled(catalogue, s), i + 1) == Greedy(s, i + 1)
  {
    hide Greedy, Takes, GroupCount, HasTwoMore, Picked, Ids, Relabelled, Over, NoDuplicates;
    GreedyStep(s, i);
    GreedyStep(Relabelled(catalogue, s), i);
    GreedyIdsAreDistinct(s, i);
    TakesAlike(catalogue, s, Greedy(s, i), i);
  }

  lemma {:induction false} GreedyAlike<I(!new), G(!new)>(catalogue: iset<Entry<I, G>>, s: seq<Entry<I, G>>, i: nat)
    requires Over(s, catalogue) && i <= |s|
    ensures Greedy(Relabelled(catalogue, s), i) == Greedy(s, i)
  {
    hide *;
    if i == 0 {
      GreedyStartsAlike(catalogue, s);
    } else {
      GreedyAlike(catalogue, s, i - 1);
      GreedyStepsAlike(catalogue, s, i - 1);
    }
  }

  lemma LegalAlike<I(!new), G(!new)>(catalogue: iset<Entry<I, G>>, s: seq<Entry<I, G>>, sel: seq<nat>)
    requires Over(s, catalogue) && Legal(s, sel)
    ensures Legal(Relabelled(catalogue, s), sel)
  {
    hide HasTwoMore, GroupCount;
    var r := Relabelled(catalogue, s);
    assert Ids(r, sel) == Ids(s, sel);
    forall group ensures GroupCount(r, sel, group) <= MAX_PER_RANK_GROUP {
      match group
      case Own(id) => OwnCountsOnce(catalogue, s, sel, id);
      case Shared(shared) =>
        CountedAreThere(r, sel, group);
        if GroupCount(r, sel, group) > MAX_PER_RANK_GROUP {
          var k :| 0 <= k < |sel| && r[sel[k]].group == group;
          SharedCountsAlike(catalogue, s, sel, s[sel[k]]);
        }
    }
  }

  /**
   Over a catalogue the greedy selection is optimal on every list exactly when no id is in two groups
   of which one has two more ids.
   */
  lemma ListsAreOptimalExactlyWhen<I(!new), G(!new)>(catalogue: iset<Entry<I, G>>)
    ensures (forall s :: Over(s, catalogue) ==> Optimal(s)) <==> NoIdIsCostly(catalogue)
  {
    if NoIdIsCostly(catalogue) {
      forall s: seq<Entry<I, G>> | Over(s, catalogue) ensures Optimal(s) {
        OptimalWithoutCostlyIds(catalogue, s);
      }
    } else {
      hide Optimal, HasTwoMore;
      var e, f :| e in catalogue && f in catalogue && e.id == f.id && e.group != f.group && HasTwoMore(catalogue, e);
      var s := ACostlyList(catalogue, e, f);
    }
  }

  lemma OptimalWithoutCostlyIds<I(!new), G(!new)>(catalogue: iset<Entry<I, G>>, s: seq<Entry<I, G>>)
    requires Over(s, catalogue) && NoIdIsCostly(catalogue)
    ensures Optimal(s)
  {
    hide OneGroupPerId, Legal, Greedy, NoIdIsCostly, HasTwoMore;
    RelabelledHasOneGroupPerId(catalogue, s);
    GreedyAlike(catalogue, s, |s|);
    forall sel | Legal(s, sel)
      ensures |sel| <= |Greedy(s, |s|)| && forall k :: 0 <= k < |sel| ==> Greedy(s, |s|)[k] <= sel[k]
    {
      LegalAlike(catalogue, s, sel);
      GreedyIsEarliest(Relabelled(catalogue, s), sel);
    }
  }

  lemma {:induction false} GreedyIdsAreDistinct<I, G>(s: seq<Entry<I, G>>, i: nat)
    requires i <= |s|
    ensures NoDuplicates(Ids(s, Greedy(s, i)))
  {
    if i > 0 {
      hide Greedy, Takes;
      GreedyIdsAreDistinct(s, i - 1);
      GreedyStep(s, i - 1);
      TakenIsNew(s, Greedy(s, i - 1), i - 1);
    }
  }

  lemma TakenIsNew<I, G>(s: seq<Entry<I, G>>, picks: seq<nat>, i: nat)
    requires i < |s| && InRange(s, picks) && NoDuplicates(Ids(s, picks))
    ensures InRange(s, picks + [i])
    ensures Takes(s, picks, s[i]) ==> NoDuplicates(Ids(s, picks + [i]))
  {
    PickedIsListed(s, picks, s[i].id);
    assert Ids(s, picks + [i]) == Ids(s, picks) + [s[i].id];
  }
}
