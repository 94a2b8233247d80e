/** Sorting by a three-way comparison, and the uniqueness of the result under a total order. */
module Ordering {

  type Comparison<!T> = (T, T) -> int

  /** Asserting Via(a, b, c) applies transitivity to the three. */
  ghost predicate Via<T>(a: T, b: T, c: T) {
    true
  }

  ghost predicate IsTotalOrder<T(!new)>(cmp: Comparison<T>) {
    && (forall a, b :: cmp(a, b) == -cmp(b, a))
    && (forall a, b, c {:trigger Via(a, b, c)} :: cmp(a, b) <= 0 && cmp(b, c) <= 0 ==> cmp(a, c) <= 0)
  }

  ghost predicate Sorted<T>(cmp: Comparison<T>, s: seq<T>) {
    forall i, j :: 0 <= i < j < |s| ==> cmp(s[i], s[j]) <= 0
  }

  /** Elements of s that compare equal are equal. */
  ghost predicate Strict<T>(cmp: Comparison<T>, s: multiset<T>) {
    forall a, b :: a in s && b in s && cmp(a, b) == 0 ==> a == b
  }

  /** Puts one element behind those that do not come after it. */
  method Insert<T(!new)>(cmp: Comparison<T>, r: seq<T>, e: T) returns (more: seq<T>)
    requires IsTotalOrder(cmp) && Sorted(cmp, r)
    ensures Sorted(cmp, more) && multiset(more) == multiset(r) + multiset{e}
  {
    hide Sorted, IsTotalOrder;
    var k := |r|;
    while k > 0 && cmp(r[k - 1], e) > 0
      invariant 0 <= k <= |r|
      invariant forall j :: k <= j < |r| ==> cmp(r[j], e) > 0
    {
      k := k - 1;
    }
    Inserted(cmp, r, k, e);
    InsertedMultiset(r, k, e);
    more := r[..k] + [e] + r[k..];
  }

  /** slices.SortFunc: some ordered arrangement of the same elements; nothing more is relied on. */
  method SortFunc<T(!new)>(cmp: Comparison<T>, s: seq<T>) returns (r: seq<T>)
    requires IsTotalOrder(cmp)
    ensures Sorted(cmp, r) && multiset(r) == multiset(s)
  {
    r := [];
    for i := 0 to |s|
      invariant Sorted(cmp, r) && multiset(r) == multiset(s[..i])
    {
      hide Sorted, IsTotalOrder;
      TakenMultiset(s, i);
      r := Insert(cmp, r, s[i]);
    }
    assert s[..|s|] == s;
  }

  lemma Inserted<T(!new)>(cmp: Comparison<T>, r: seq<T>, k: nat, e: T)
    requires IsTotalOrder(cmp) && Sorted(cmp, r) && k <= |r|
    requires k > 0 ==> cmp(r[k - 1], e) <= 0
    requires forall j :: k <= j < |r| ==> cmp(r[j], e) > 0
    ensures Sorted(cmp, r[..k] + [e] + r[k..])
  {
    var t := r[..k] + [e] + r[k..];
    forall i, j | 0 <= i < j < |t| ensures cmp(t[i], t[j]) <= 0 {
      if j == k && i < k - 1 {
        assert Via(r[i], r[k - 1], e);
      } else if i == k {
        assert cmp(r[j - 1], e) == -cmp(e, r[j - 1]);
      }
    }
  }

  lemma TakenMultiset<T>(s: seq<T>, i: nat)
    requires i < |s|
    ensures multiset(s[..i + 1]) == multiset(s[..i]) + multiset{s[i]}
  {
    assert s[..i + 1] == s[..i] + [s[i]];
  }

  lemma InsertedMultiset<T>(r: seq<T>, k: nat, e: T)
    requires k <= |r|
    ensures multiset(r[..k] + [e] + r[k..]) == multiset(r) + multiset{e}
  {
    assert r == r[..k] + r[k..];
  }

  /** Two ordered arrangements of the same elements are the same: the input order is forgotten. */
  lemma {:induction false} SortedArrangementIsUnique<T(!new)>(cmp: Comparison<T>, a: seq<T>, b: seq<T>)
    requires IsTotalOrder(cmp) && Sorted(cmp, a) && Sorted(cmp, b)
    requires multiset(a) == multiset(b) && Strict(cmp, multiset(a))
    ensures a == b
  {
    SameFirst(cmp, a, b);
    hide IsTotalOrder, Sorted, Strict;
    if a != [] {
      RestIsSorted(cmp, a);
      RestIsSorted(cmp, b);
      SortedArrangementIsUnique(cmp, a[1..], b[1..]);
      SameRest(a, b);
    }
  }

  lemma SameRest<T>(a: seq<T>, b: seq<T>)
    requires a != [] && b != [] && a[0] == b[0] && a[1..] == b[1..]
    ensures a == b
  {
    assert a == [a[0]] + a[1..];
    assert b == [b[0]] + b[1..];
  }

  lemma SameFirst<T(!new)>(cmp: Comparison<T>, a: seq<T>, b: seq<T>)
    requires IsTotalOrder(cmp) && Sorted(cmp, a) && Sorted(cmp, b)
    requires multiset(a) == multiset(b) && Strict(cmp, multiset(a))
    ensures |a| == |b| && (a != [] ==> a[0] == b[0])
  {
    assert |a| == |multiset(a)| && |b| == |multiset(b)|;
    if a != [] {
      assert a[0] in multiset(b) && b[0] in multiset(a);
      FirstIsLeast(cmp, b, a[0]);
      FirstIsLeast(cmp, a, b[0]);
      assert cmp(a[0], b[0]) == -cmp(b[0], a[0]);
    }
  }

  lemma RestMultiset<T>(a: seq<T>)
    requires a != []
    ensures multiset(a[1..]) == multiset(a) - multiset{a[0]}
  {
    assert a == [a[0]] + a[1..];
  }

  lemma RestIsSorted<T(!new)>(cmp: Comparison<T>, a: seq<T>)
    requires a != [] && Sorted(cmp, a) && Strict(cmp, multiset(a))
    ensures Sorted(cmp, a[1..]) && Strict(cmp, multiset(a[1..]))
    ensures multiset(a[1..]) == multiset(a) - multiset{a[0]}
  {
    RestMultiset(a);
    assert forall e :: e in multiset(a[1..]) ==> e in multiset(a);
  }

  lemma FirstIsLeast<T(!new)>(cmp: Comparison<T>, s: seq<T>, e: T)
    requires IsTotalOrder(cmp) && Sorted(cmp, s) && e in s
    ensures cmp(s[0], e) <= 0
  {
    var i :| 0 <= i < |s| && s[i] == e;
    if i == 0 {
      assert cmp(e, e) == -cmp(e, e);
    }
  }
}
