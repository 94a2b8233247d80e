/**
 Use-case ranking of recommended models (llmprovider/model_ranking.go): eligibility, the two profile
 orders, the group-capped greedy selection and the fill.

 Costs, ages and benchmark scores are exact reals. The pattern for unstable ids is a parameter.
 */
module ModelRanking {
  import opened Options
  import opened Ordering
  import opened CappedSelection

  const MAX_RANK_AGE_DAYS := 540
  const MIN_RANK_CONTEXT := 32768
  const MIN_RANK_EXPIRY_DAYS := 30
  const RANK_NORM_FLOOR := 0.01

  const PROVIDER_KILO := "kilo"
  const PROVIDER_OPENCODE_GO := "opencode-go"
  const REGION_GATED := {"deepseek-v4.1-flash", "deepseek-flash", "deepseek-v4-flash", "deepseek-v4-pro"}

  datatype Profile = Capable | Utility

  /** One usable model; an absent field is None (a context of 0 is unknown). */
  datatype Candidate = Candidate(
    id: string, group: string, small: bool,
    reasoning: Option<bool>, cost: Option<real>, ageDays: Option<int>, context: int, status: string,
    expiryDays: Option<int>, bench: Option<real>, preferred: Option<int>)
  {
    /** A provider quality signal. */
    predicate Signal() {
      bench.Some? || preferred.Some?
    }
  }

  // ----- Eligibility -----

  predicate OccursAt(s: string, p: string, i: nat) {
    i + |p| <= |s| && s[i..i + |p|] == p
  }

  predicate Contains(s: string, p: string) {
    exists i :: 0 <= i <= |s| && OccursAt(s, p, i)
  }

  predicate Eligible(c: Candidate, provider: string, unstable: string -> bool) {
    && c.reasoning != Some(false)
    && c.cost != Some(0.0)
    && (c.ageDays.Some? ==> c.ageDays.value <= MAX_RANK_AGE_DAYS)
    && !(0 < c.context < MIN_RANK_CONTEXT)
    && c.status != "deprecated" && c.status != "alpha"
    && (c.expiryDays.Some? ==> c.expiryDays.value > MIN_RANK_EXPIRY_DAYS)
    && !unstable(c.id)
    && !Contains(c.id, "-contributor")
    && !(provider == PROVIDER_OPENCODE_GO && c.id in REGION_GATED)
  }

  /** The managed tiers the utility profile never recommends. */
  predicate UtilityExcluded(profile: Profile, provider: string, id: string) {
    profile != Capable && provider == PROVIDER_KILO && "kilo-auto/" <= id
  }

  predicate Admitted(profile: Profile, provider: string, unstable: string -> bool, c: Candidate) {
    Eligible(c, provider, unstable) && !UtilityExcluded(profile, provider, c.id)
  }

  function Admit(profile: Profile, provider: string, unstable: string -> bool, cands: seq<Candidate>): seq<Candidate> {
    if cands == [] then []
    else
      var last := cands[|cands| - 1];
      Admit(profile, provider, unstable, cands[..|cands| - 1])
      + (if Admitted(profile, provider, unstable, last) then [last] else [])
  }

  // ----- Normalisers and orders -----

  function Max(a: real, b: real): real {
    if a >= b then a else b
  }

  function AgeMonths(days: int): real {
    days as real / 30.0
  }

  datatype Normalisers = Norm(maxCost: real, maxAge: real)

  type Norm = n: Normalisers | n.maxCost > 0.0 && n.maxAge > 0.0 witness Norm(1.0, 1.0)

  /** The largest known cost and age, never below the floor. */
  function NormOf(cands: seq<Candidate>): (n: Norm)
    ensures n.maxCost >= RANK_NORM_FLOOR && n.maxAge >= RANK_NORM_FLOOR
  {
    if cands == [] then Norm(RANK_NORM_FLOOR, RANK_NORM_FLOOR)
    else
      var n, c := NormOf(cands[..|cands| - 1]), cands[|cands| - 1];
      Norm(if c.cost.Some? then Max(n.maxCost, c.cost.value) else n.maxCost,
           if c.ageDays.Some? then Max(n.maxAge, AgeMonths(c.ageDays.value)) else n.maxAge)
  }

  /**
   The normalisers are upper bounds of the known costs and ages, and each is the floor or some candidate's own
   value.
   */
  ghost predicate AreMaxima(n: Norm, cands: multiset<Candidate>) {
    && (forall c :: c in cands && c.cost.Some? ==> c.cost.value <= n.maxCost)
    && (forall c :: c in cands && c.ageDays.Some? ==> AgeMonths(c.ageDays.value) <= n.maxAge)
    && n.maxCost >= 0.01 && n.maxAge >= 0.01
    && (n.maxCost == 0.01 || exists c :: c in cands && c.cost == Some(n.maxCost))
    && (n.maxAge == 0.01 || exists c ::
         c in cands && c.ageDays.Some? && AgeMonths(c.ageDays.value) == n.maxAge)
  }

  method NewRankNorm(cands: seq<Candidate>) returns (n: Norm)
    ensures n == NormOf(cands) && AreMaxima(n, multiset(cands))
  {
    NormIsMaximum(cands);
    n := Norm(RANK_NORM_FLOOR, RANK_NORM_FLOOR);
    for i := 0 to |cands|
      invariant n == NormOf(cands[..i])
    {
      assert cands[..i + 1][..i] == cands[..i];
      var c := cands[i];
      if c.cost.Some? {
        n := n.(maxCost := Max(n.maxCost, c.cost.value));
      }
      if c.ageDays.Some? {
        n := n.(maxAge := Max(n.maxAge, AgeMonths(c.ageDays.value)));
      }
    }
    assert cands[..|cands|] == cands;
  }

  function CostOf(n: Norm, c: Candidate): real {
    if c.cost.Some? then c.cost.value else n.maxCost
  }

  function AgeOf(n: Norm, c: Candidate): real {
    if c.ageDays.Some? then AgeMonths(c.ageDays.value) else n.maxAge
  }

  /** 0.8 x cost + 0.2 x age, each normalised by the set's maximum. */
  function Blend(n: Norm, c: Candidate): real
  {
    0.8 * CostOf(n, c) / n.maxCost + 0.2 * AgeOf(n, c) / n.maxAge
  }

  function BoolFirst(a: bool, b: bool): int {
    if a == b then 0 else if a then -1 else 1
  }

  function CompareReal(a: real, b: real): int {
    if a < b then -1 else if a > b then 1 else 0
  }

  /** Absent is larger than every value. */
  function ComparePreferred(a: Option<int>, b: Option<int>): int {
    match (a, b)
    case (Some(x), Some(y)) => if x < y then -1 else if x > y then 1 else 0
    case (Some(_), None) => -1
    case (None, Some(_)) => 1
    case (None, None) => 0
  }

  /** strings.Compare: lexicographic. */
  function CompareStrings(a: string, b: string): int {
    if a == [] && b == [] then 0
    else if a == [] then -1
    else if b == [] then 1
    else if a[0] < b[0] then -1
    else if a[0] > b[0] then 1
    else CompareStrings(a[1..], b[1..])
  }

  /** cmp.Or: the first comparison that decides. */
  function Or(first: int, then_: int): int {
    if first != 0 then first else then_
  }

  function RealOrZero(x: Option<real>): real {
    if x.Some? then x.value else 0.0
  }

  /** A quality signal first, then small, then the lower blend, then the id. */
  function UtilityOrder(n: Norm, a: Candidate, b: Candidate): int
  {
    Or(BoolFirst(a.Signal(), b.Signal()),
    Or(BoolFirst(a.small, b.small),
    Or(CompareReal(Blend(n, a), Blend(n, b)),
       CompareStrings(a.id, b.id))))
  }

  /** A quality signal first, then higher benchmark, lower preference index, not small, newer, costlier, then the id. */
  function CapableOrder(n: Norm, a: Candidate, b: Candidate): int {
    Or(BoolFirst(a.Signal(), b.Signal()),
    Or(CompareReal(RealOrZero(b.bench), RealOrZero(a.bench)),
    Or(ComparePreferred(a.preferred, b.preferred),
    Or(BoolFirst(!a.small, !b.small),
    Or(CompareReal(AgeOf(n, a), AgeOf(n, b)),
    Or(CompareReal(RealOrZero(b.cost), RealOrZero(a.cost)),
       CompareStrings(a.id, b.id)))))))
  }

  function Order(profile: Profile, n: Norm, a: Candidate, b: Candidate): int
  {
    if profile == Capable then CapableOrder(n, a, b) else UtilityOrder(n, a, b)
  }

  // ----- The orders are total -----

  lemma {:induction false} StringsAreOrdered(a: string, b: string)
    ensures CompareStrings(a, b) == -CompareStrings(b, a)
    ensures CompareStrings(a, b) == 0 <==> a == b
  {
    if a != [] && b != [] && a[0] == b[0] {
      StringsAreOrdered(a[1..], b[1..]);
      assert a == [a[0]] + a[1..] && b == [b[0]] + b[1..];
    }
  }

  lemma {:induction false} StringsAreTransitive(a: string, b: string, c: string)
    requires CompareStrings(a, b) <= 0 && CompareStrings(b, c) <= 0
    ensures CompareStrings(a, c) <= 0
    ensures CompareStrings(a, b) < 0 || CompareStrings(b, c) < 0 ==> CompareStrings(a, c) < 0
  {
    if a != [] && b != [] && c != [] && a[0] == b[0] == c[0] {
      StringsAreTransitive(a[1..], b[1..], c[1..]);
    }
  }

  /** Both profile orders are total, and two candidates compare equal only under one id. */
  lemma OrdersAreTotal(profile: Profile, n: Norm)
    ensures IsTotalOrder((a, b) => Order(profile, n, a, b))
    ensures forall a, b :: Order(profile, n, a, b) == 0 ==> a.id == b.id
  {
    forall a: Candidate, b: Candidate
      ensures Order(profile, n, a, b) == -Order(profile, n, b, a)
      ensures Order(profile, n, a, b) == 0 ==> a.id == b.id
    {
      StringsAreOrdered(a.id, b.id);
    }
    forall a: Candidate, b: Candidate, c: Candidate | Order(profile, n, a, b) <= 0 && Order(profile, n, b, c) <= 0
      ensures Order(profile, n, a, c) <= 0
    {
      OrderIsTransitive(profile, n, a, b, c);
    }
  }

  lemma OrderIsTransitive(profile: Profile, n: Norm, a: Candidate, b: Candidate, c: Candidate)
    requires Order(profile, n, a, b) <= 0 && Order(profile, n, b, c) <= 0
    ensures Order(profile, n, a, c) <= 0
  {
    hide CompareStrings;
    StringsAreOrdered(a.id, b.id);
    StringsAreOrdered(b.id, c.id);
    StringsAreOrdered(a.id, c.id);
    if CompareStrings(a.id, b.id) <= 0 && CompareStrings(b.id, c.id) <= 0 {
      StringsAreTransitive(a.id, b.id, c.id);
    }
  }

  // ----- What the orders prefer -----

  /** An id comes before another that it is a proper prefix of, or has a greater character where they first differ. */
  ghost predicate IdBefore(a: string, b: string) {
    a < b || exists i: nat :: DifferAt(a, b, i)
  }

  predicate DifferAt(a: string, b: string, i: nat) {
    i < |a| && i < |b| && a[..i] == b[..i] && a[i] < b[i]
  }

  lemma {:induction false} ComparedIsBefore(a: string, b: string)
    ensures CompareStrings(a, b) < 0 <==> IdBefore(a, b)
  {
    if a == [] || b == [] {
    } else if a[0] != b[0] {
      assert a[0] < b[0] ==> DifferAt(a, b, 0);
      assert forall i: nat :: 0 < i <= |a| ==> a[..i][0] == a[0];
      assert forall i: nat :: 0 < i <= |b| ==> b[..i][0] == b[0];
    } else {
      ComparedIsBefore(a[1..], b[1..]);
      assert a == [a[0]] + a[1..] && b == [b[0]] + b[1..];
      if i: nat :| DifferAt(a[1..], b[1..], i) {
        assert a[..i + 1] == [a[0]] + a[1..][..i] && b[..i + 1] == [b[0]] + b[1..][..i];
        assert DifferAt(a, b, i + 1);
      }
      if i: nat :| DifferAt(a, b, i) {
        assert a[1..][..i - 1] == a[..i][1..] && b[1..][..i - 1] == b[..i][1..];
        assert DifferAt(a[1..], b[1..], i - 1);
      }
    }
  }

  /** Four parts cost and one part age, each as a share of the largest; unknown counts as the largest. */
  function Burden(n: Norm, c: Candidate): real {
    4.0 * (if c.cost.Some? then c.cost.value else n.maxCost) / n.maxCost
    + (if c.ageDays.Some? then c.ageDays.value as real / 30.0 else n.maxAge) / n.maxAge
  }

  /** Utility: a signal before none, then small before not small, then the lower burden, then the id. */
  ghost predicate UtilityBefore(n: Norm, a: Candidate, b: Candidate) {
    var signalA, signalB := a.bench.Some? || a.preferred.Some?, b.bench.Some? || b.preferred.Some?;
    if signalA != signalB then signalA
    else if a.small != b.small then a.small
    else if Burden(n, a) != Burden(n, b) then Burden(n, a) < Burden(n, b)
    else IdBefore(a.id, b.id)
  }

  /** What an unknown score or cost counts as. */
  function OrZero(x: Option<real>): real {
    match x case Some(v) => v case None => 0.0
  }

  /**
   Capable: a signal before none, then the higher benchmark, then the lower preference index (any before
   none), then not small before small, then the newer (unknown is the oldest), then the dearer, then the id.
   */
  ghost predicate CapableBefore(n: Norm, a: Candidate, b: Candidate) {
    var signalA, signalB := a.bench.Some? || a.preferred.Some?, b.bench.Some? || b.preferred.Some?;
    var ageA := if a.ageDays.Some? then a.ageDays.value as real / 30.0 else n.maxAge;
    var ageB := if b.ageDays.Some? then b.ageDays.value as real / 30.0 else n.maxAge;
    if signalA != signalB then signalA
    else if OrZero(a.bench) != OrZero(b.bench) then OrZero(a.bench) > OrZero(b.bench)
    else if a.preferred != b.preferred then
      a.preferred.Some? && (b.preferred.Some? ==> a.preferred.value < b.preferred.value)
    else if a.small != b.small then b.small
    else if ageA != ageB then ageA < ageB
    else if OrZero(a.cost) != OrZero(b.cost) then OrZero(a.cost) > OrZero(b.cost)
    else IdBefore(a.id, b.id)
  }

  ghost predicate Before(profile: Profile, n: Norm, a: Candidate, b: Candidate) {
    if profile == Capable then CapableBefore(n, a, b) else UtilityBefore(n, a, b)
  }

  lemma BurdenIsBlend(n: Norm, c: Candidate)
    ensures Burden(n, c) == 5.0 * Blend(n, c)
  {
    var cost, age := CostOf(n, c), AgeOf(n, c);
    assert 0.8 * cost / n.maxCost == 0.8 * (cost / n.maxCost);
    assert 0.2 * age / n.maxAge == 0.2 * (age / n.maxAge);
    assert 4.0 * cost / n.maxCost == 4.0 * (cost / n.maxCost);
  }

  /** One candidate precedes another in its profile's order exactly when its fields say that it comes before. */
  lemma PrecedesExactlyWhenBefore(profile: Profile, n: Norm, a: Candidate, b: Candidate)
    ensures Order(profile, n, a, b) < 0 <==> Before(profile, n, a, b)
  {
    ComparedIsBefore(a.id, b.id);
    BurdenIsBlend(n, a);
    BurdenIsBlend(n, b);
    hide CompareStrings, IdBefore, Burden, Blend;
  }

  /**
   For utility, of two alike in signal and size the one that is no dearer and no older, and one of them less,
   comes first.
   */
  lemma CheaperAndNewerComesFirst(n: Norm, a: Candidate, b: Candidate)
    requires (a.bench.Some? || a.preferred.Some?) == (b.bench.Some? || b.preferred.Some?) && a.small == b.small
    requires a.cost.Some? && b.cost.Some? && a.ageDays.Some? && b.ageDays.Some?
    requires a.cost.value <= b.cost.value && a.ageDays.value <= b.ageDays.value
    requires a.cost.value < b.cost.value || a.ageDays.value < b.ageDays.value
    ensures Order(Utility, n, a, b) < 0
  {
    SharesGrow(a.cost.value, b.cost.value, n.maxCost);
    SharesGrow(a.ageDays.value as real / 30.0, b.ageDays.value as real / 30.0, n.maxAge);
    assert 4.0 * a.cost.value / n.maxCost == 4.0 * (a.cost.value / n.maxCost);
    assert 4.0 * b.cost.value / n.maxCost == 4.0 * (b.cost.value / n.maxCost);
    PrecedesExactlyWhenBefore(Utility, n, a, b);
  }

  lemma SharesGrow(x: real, y: real, most: real)
    requires x <= y && most > 0.0
    ensures x / most <= y / most && (x < y ==> x / most < y / most)
  {
    assert y / most - x / most == (y - x) / most;
  }

  // ----- The greedy selection -----

  /** The fill: ids not yet chosen and not excluded, in order, up to the cap. */
  function Filled(profile: Profile, provider: string, out: seq<string>, fill: seq<string>): seq<string>
    decreases |fill|
  {
    if fill == [] || |out| >= MAX_LISTED_MODELS then out
    else if fill[0] in out || UtilityExcluded(profile, provider, fill[0]) then Filled(profile, provider, out, fill[1..])
    else Filled(profile, provider, out + [fill[0]], fill[1..])
  }

  /** What the capped selection sees of the candidates. */
  function Entries(s: seq<Candidate>): (e: seq<Entry<string, string>>)
    ensures |e| == |s|
  {
    seq(|s|, k requires 0 <= k < |s| => Entry(s[k].id, s[k].group))
  }

  /** The ids of the greedy selection from ranked candidates. */
  function Chosen(ranked: seq<Candidate>): seq<string> {
    Ids(Entries(ranked), Greedy(Entries(ranked), |ranked|))
  }

  /** The recommendation from candidates already in order. */
  function Recommended(profile: Profile, provider: string, ranked: seq<Candidate>, fill: seq<string>): seq<string> {
    Filled(profile, provider, Chosen(ranked), fill)
  }

  /** `ranked` is an ordering of the admitted candidates in profile order. */
  ghost predicate IsRanking(profile: Profile, provider: string, unstable: string -> bool, cands: seq<Candidate>,
                            ranked: seq<Candidate>) {
    var admitted := Admit(profile, provider, unstable, cands);
    var n := NormOf(admitted);
    multiset(ranked) == multiset(admitted) && Sorted((a, b) => Order(profile, n, a, b), ranked)
  }

  /** rankRecommended: the recommendation of whatever ranking the sort happened to produce. */
  method RankRecommended(profile: Profile, provider: string, unstable: string -> bool, cands: seq<Candidate>,
                         fill: seq<string>)
    returns (out: seq<string>)
    ensures exists ranked ::
              IsRanking(profile, provider, unstable, cands, ranked)
              && out == Recommended(profile, provider, ranked, fill)
  {
    var eligible := AdmitAll(profile, provider, unstable, cands);
    var norm := NewRankNorm(eligible);
    OrdersAreTotal(profile, norm);
    var sorted := SortFunc((a, b) => Order(profile, norm, a, b), eligible);
    assert IsRanking(profile, provider, unstable, cands, sorted);
    out := PickCapped(sorted);
    var i := 0;
    while i < |fill| && |out| != MAX_LISTED_MODELS
      invariant 0 <= i <= |fill| && |out| <= MAX_LISTED_MODELS
      invariant Filled(profile, provider, out, fill[i..]) == Recommended(profile, provider, sorted, fill)
    {
      assert fill[i..][1..] == fill[i + 1..];
      if fill[i] !in out && !UtilityExcluded(profile, provider, fill[i]) {
        out := out + [fill[i]];
      }
      i := i + 1;
    }
  }

  method AdmitAll(profile: Profile, provider: string, unstable: string -> bool, cands: seq<Candidate>)
    returns (eligible: seq<Candidate>)
    ensures eligible == Admit(profile, provider, unstable, cands)
  {
    eligible := [];
    for i := 0 to |cands|
      invariant eligible == Admit(profile, provider, unstable, cands[..i])
    {
      assert cands[..i + 1][..i] == cands[..i];
      if Eligible(cands[i], provider, unstable) && !UtilityExcluded(profile, provider, cands[i].id) {
        eligible := eligible + [cands[i]];
      }
    }
    assert cands[..|cands|] == cands;
  }

  /** The map holds the count of every group. */
  ghost predicate Counts(perGroup: map<string, nat>, s: seq<Entry<string, string>>, picks: seq<nat>)
    requires InRange(s, picks)
  {
    forall g :: CountIn(perGroup, g) == GroupCount(s, picks, g)
  }

  function CountIn(perGroup: map<string, nat>, group: string): nat {
    if group in perGroup then perGroup[group] else 0
  }

  /** The selection loop: the counts per group are kept in a map. */
  method PickCapped(s: seq<Candidate>) returns (out: seq<string>)
    ensures out == Chosen(s)
  {
    out := [];
    var perGroup: map<string, nat> := map[];
    ghost var entries := Entries(s);
    var i := 0;
    while i < |s| && |out| != MAX_LISTED_MODELS
      invariant 0 <= i <= |s|
      invariant out == Ids(entries, Greedy(entries, i)) && Counts(perGroup, entries, Greedy(entries, i))
    {
      var c := s[i];
      ghost var picks := Greedy(entries, i);
      assert CountIn(perGroup, c.group) == GroupCount(entries, picks, c.group);
      PickedIsListed(entries, picks, c.id);
      GreedyStep(entries, i);
      if CountIn(perGroup, c.group) < MAX_PER_RANK_GROUP && c.id !in out {
        OnePickMore(entries, picks, i, perGroup);
        perGroup := perGroup[c.group := CountIn(perGroup, c.group) + 1];
        out := out + [c.id];
      }
      i := i + 1;
    }
    FullStays(entries, i, |s|);
  }

  lemma OnePickMore(s: seq<Entry<string, string>>, picks: seq<nat>, i: nat, perGroup: map<string, nat>)
    requires i < |s| && InRange(s, picks) && Counts(perGroup, s, picks)
    ensures InRange(s, picks + [i])
    ensures Ids(s, picks + [i]) == Ids(s, picks) + [s[i].id]
    ensures Counts(perGroup[s[i].group := CountIn(perGroup, s[i].group) + 1], s, picks + [i])
  {
    var after := perGroup[s[i].group := CountIn(perGroup, s[i].group) + 1];
    forall g ensures CountIn(after, g) == GroupCount(s, picks + [i], g) {
      GroupCountStep(s, picks, i, g);
      assert CountIn(perGroup, g) == GroupCount(s, picks, g);
    }
  }

  // ----- Optimality -----

  /**
   The greedy selection is optimal for its caps: every other legal selection is no longer, and its
   k-th pick never comes before the greedy k-th pick in profile order.
   */
  lemma GreedyIsOptimal(profile: Profile, n: Norm, ranked: seq<Candidate>, sel: seq<nat>)
    requires Sorted((a, b) => Order(profile, n, a, b), ranked)
    requires OneGroupPerId(Entries(ranked)) && Legal(Entries(ranked), sel)
    ensures var best := Greedy(Entries(ranked), |ranked|);
            && Legal(Entries(ranked), best)
            && |sel| <= |best|
            && forall k :: 0 <= k < |sel| ==> Order(profile, n, ranked[best[k]], ranked[sel[k]]) <= 0
  {
    GreedyIsEarliest(Entries(ranked), sel);
    var best := Greedy(Entries(ranked), |ranked|);
    var order := (a, b) => Order(profile, n, a, b);
    OrdersAreTotal(profile, n);
    forall k | 0 <= k < |sel| ensures Order(profile, n, ranked[best[k]], ranked[sel[k]]) <= 0 {
      assert best[k] <= sel[k];
      assert order(ranked[best[k]], ranked[sel[k]]) == -order(ranked[sel[k]], ranked[best[k]]);
    }
  }

  /** Among the picks no three are of one group, and there are at most six. */
  lemma NoThreeOfAGroup(ranked: seq<Candidate>, i: nat, j: nat, k: nat)
    ensures |Greedy(Entries(ranked), |ranked|)| <= 6
    ensures var best := Greedy(Entries(ranked), |ranked|);
            i < j < k < |best| ==>
              !(ranked[best[i]].group == ranked[best[j]].group && ranked[best[j]].group == ranked[best[k]].group)
  {
    var s := Entries(ranked);
    var best := Greedy(s, |ranked|);
    GreedyIsLegal(s, |ranked|);
    if i < j < k < |best| && s[best[i]].group == s[best[j]].group == s[best[k]].group {
      ThreeAreCounted(s, best, i, j, k);
    }
  }

  lemma ThreeAreCounted(s: seq<Entry<string, string>>, picks: seq<nat>, i: nat, j: nat, k: nat)
    requires InRange(s, picks) && i < j < k < |picks|
    requires s[picks[i]].group == s[picks[j]].group == s[picks[k]].group
    ensures GroupCount(s, picks, s[picks[i]].group) >= 3
  {
    var g, gs := s[picks[i]].group, Groups(s, picks);
    GroupCountIsMultiplicity(s, picks, g);
    assert gs[i] == g && gs[j] == g && gs[k] == g;
    hide GroupCount, InRange;
    assert gs == gs[..i] + [g] + gs[i + 1..j] + [g] + gs[j + 1..k] + [g] + gs[k + 1..];
  }

  /**
   A better candidate of the same group is never passed over: if x is picked and y, which is admitted and
   of x's group, comes before x, then y is picked too, and stands before x.
   */
  lemma BetterOfAGroupIsPickedFirst(profile: Profile, provider: string, unstable: string -> bool, cands: seq<Candidate>,
                                    ranked: seq<Candidate>, x: Candidate, y: Candidate, q: nat)
    requires IsRanking(profile, provider, unstable, cands, ranked)
    requires q < |Greedy(Entries(ranked), |ranked|)| && ranked[Greedy(Entries(ranked), |ranked|)[q]] == x
    requires y in cands && Admitted(profile, provider, unstable, y) && y.group == x.group
    requires Before(profile, NormOf(Admit(profile, provider, unstable, cands)), y, x)
    ensures exists p :: 0 <= p < q && Chosen(ranked)[p] == y.id
    ensures Chosen(ranked)[q] == x.id
  {
    var s, n := Entries(ranked), NormOf(Admit(profile, provider, unstable, cands));
    hide Before, Order, Greedy, GroupCount, Picked, Takes, NormOf, Chosen, IsRanking, Admit, Admitted;
    forall p | 0 <= p <= q ensures p < |Chosen(ranked)| && Chosen(ranked)[p] == ranked[Greedy(s, |ranked|)[p]].id {
      ChosenAt(ranked, p);
    }
    PickIsTaken(s, q);
    var i := Greedy(s, |ranked|)[q];
    var j := BetterStandsBefore(profile, provider, unstable, cands, ranked, i, y);
    SameGroupIsPicked(s, i, j);
    var p :| 0 <= p < |Greedy(s, i)| && s[Greedy(s, i)[p]].id == y.id;
    assert Greedy(s, |ranked|)[p] == Greedy(s, i)[p];
  }

  lemma ChosenAt(ranked: seq<Candidate>, p: nat)
    requires p < |Greedy(Entries(ranked), |ranked|)|
    ensures p < |Chosen(ranked)| && Chosen(ranked)[p] == ranked[Greedy(Entries(ranked), |ranked|)[p]].id
  {
    hide Greedy;
  }

  lemma SameGroupIsPicked(s: seq<Entry<string, string>>, i: nat, j: nat)
    requires j < i < |s| && Takes(s, Greedy(s, i), s[i]) && s[j].group == s[i].group
    ensures exists p :: 0 <= p < |Greedy(s, i)| && s[Greedy(s, i)[p]].id == s[j].id
  {
    PassedIsPickedOrFull(s, i, j);
    hide Greedy, GroupCount;
  }

  /** A better candidate stands before the worse one in every ranking. */
  lemma BetterStandsBefore(profile: Profile, provider: string, unstable: string -> bool, cands: seq<Candidate>,
                           ranked: seq<Candidate>, i: nat, y: Candidate)
    returns (j: nat)
    requires IsRanking(profile, provider, unstable, cands, ranked) && i < |ranked|
    requires y in cands && Admitted(profile, provider, unstable, y)
    requires Before(profile, NormOf(Admit(profile, provider, unstable, cands)), y, ranked[i])
    ensures j < i && ranked[j] == y
  {
    var n, x := NormOf(Admit(profile, provider, unstable, cands)), ranked[i];
    AdmittedIsRanked(profile, provider, unstable, cands, ranked, y);
    j :| 0 <= j < |ranked| && ranked[j] == y;
    PrecedesExactlyWhenBefore(profile, n, y, x);
    OrderIsAntisymmetric(profile, n, x, y);
    OrderIsAntisymmetric(profile, n, x, x);
    LaterIsNoBetter(profile, provider, unstable, cands, ranked, i, j);
    hide *;
  }

  lemma AdmittedIsRanked(profile: Profile, provider: string, unstable: string -> bool, cands: seq<Candidate>,
                         ranked: seq<Candidate>, y: Candidate)
    requires IsRanking(profile, provider, unstable, cands, ranked)
    requires y in cands && Admitted(profile, provider, unstable, y)
    ensures exists j :: 0 <= j < |ranked| && ranked[j] == y
  {
    AdmitIsFilter(profile, provider, unstable, cands, y);
    hide Admit, Admitted, NormOf, Sorted;
    assert y in multiset(cands);
    assert y in multiset(ranked);
    assert y in ranked;
  }

  lemma OrderIsAntisymmetric(profile: Profile, n: Norm, a: Candidate, b: Candidate)
    ensures Order(profile, n, a, b) == -Order(profile, n, b, a)
  {
    OrdersAreTotal(profile, n);
    hide Order;
    var order := (a, b) => Order(profile, n, a, b);
    assert order(a, b) == -order(b, a);
  }

  lemma LaterIsNoBetter(profile: Profile, provider: string, unstable: string -> bool, cands: seq<Candidate>,
                        ranked: seq<Candidate>, i: nat, j: nat)
    requires IsRanking(profile, provider, unstable, cands, ranked) && i < |ranked| && j < |ranked|
    ensures i < j ==> Order(profile, NormOf(Admit(profile, provider, unstable, cands)), ranked[i], ranked[j]) <= 0
  {
    hide Order, Admit, NormOf;
    var n := NormOf(Admit(profile, provider, unstable, cands));
    var order := (a, b) => Order(profile, n, a, b);
    assert i < j ==> order(ranked[i], ranked[j]) <= 0;
  }

  /** The q-th pick was taken with exactly the q before it. */
  lemma PickIsTaken(s: seq<Entry<string, string>>, q: nat)
    requires q < |Greedy(s, |s|)|
    ensures var i := Greedy(s, |s|)[q];
            && i < |s| && Greedy(s, i) == Greedy(s, |s|)[..q] && Takes(s, Greedy(s, i), s[i])
  {
    PickIsTakenBefore(s, |s|, q);
  }

  lemma {:induction false} PickIsTakenBefore(s: seq<Entry<string, string>>, n: nat, q: nat)
    requires n <= |s| && q < |Greedy(s, n)|
    ensures var i := Greedy(s, n)[q];
            && i < n && Greedy(s, i) == Greedy(s, n)[..q] && Takes(s, Greedy(s, i), s[i])
  {
    assert n > 0;
    GreedyStep(s, n - 1);
    if q < |Greedy(s, n - 1)| {
      PickIsTakenBefore(s, n - 1, q);
      assert Greedy(s, n)[..q] == Greedy(s, n - 1)[..q];
    }
  }

  predicate StandsAt(s: string, p: string, i: int) {
    0 <= i <= |s| - |p| && s[i..][..|p|] == p
  }

  /** A candidate is admitted exactly when nothing that is known of it rules it out. */
  lemma AdmittedExactlyWhen(profile: Profile, provider: string, unstable: string -> bool, c: Candidate)
    ensures Admitted(profile, provider, unstable, c)
       <==> && c.reasoning != Some(false)
            && c.cost != Some(0.0)
            && !(c.ageDays.Some? && c.ageDays.value > 540)
            && !(c.context > 0 && c.context < 32768)
            && c.status !in {"deprecated", "alpha"}
            && !(c.expiryDays.Some? && c.expiryDays.value <= 30)
            && !unstable(c.id)
            && !(exists i :: StandsAt(c.id, "-contributor", i))
            && !(provider == "opencode-go"
                 && c.id in {"deepseek-v4.1-flash", "deepseek-flash", "deepseek-v4-flash", "deepseek-v4-pro"})
            && !(profile == Utility && provider == "kilo" && |c.id| >= 10 && c.id[..10] == "kilo-auto/")
  {
    assert |"kilo-auto/"| == 10;
    assert forall i: nat :: StandsAt(c.id, "-contributor", i) <==> OccursAt(c.id, "-contributor", i) by {
      assert forall i: nat :: i + |"-contributor"| <= |c.id| ==>
          c.id[i..][..|"-contributor"|] == c.id[i..i + |"-contributor"|];
    }
    assert "kilo-auto/" <= c.id <==> |c.id| >= 10 && c.id[..10] == "kilo-auto/";
  }

  // ----- What the listers hand over -----

  /** Both listers look a candidate up by its id, once for every id they list. */
  function Listed(ids: seq<string>, lookup: string -> Candidate): (cands: seq<Candidate>)
    ensures |cands| == |ids| && forall k :: 0 <= k < |ids| ==> cands[k] == lookup(ids[k])
  {
    seq(|ids|, k requires 0 <= k < |ids| => lookup(ids[k]))
  }

  /** So an id stands for one candidate, and in every ranking of them for one group: what optimality asks for. */
  lemma ListedHaveOneGroupPerId(profile: Profile, provider: string, unstable: string -> bool, ids: seq<string>,
                                lookup: string -> Candidate, ranked: seq<Candidate>)
    requires forall id :: lookup(id).id == id
    requires IsRanking(profile, provider, unstable, Listed(ids, lookup), ranked)
    ensures OneCandidatePerId(Listed(ids, lookup)) && OneGroupPerId(Entries(ranked))
  {
    var cands := Listed(ids, lookup);
    forall k | 0 <= k < |ranked| ensures ranked[k] == lookup(ranked[k].id) {
      assert ranked[k] in multiset(ranked);
      AdmitIsFilter(profile, provider, unstable, cands, ranked[k]);
      assert ranked[k] in cands;
    }
  }

  // ----- The recommendation does not depend on the order of the candidates -----

  lemma {:induction false} AdmitIsFilter(profile: Profile, provider: string, unstable: string -> bool,
                                         cands: seq<Candidate>, c: Candidate)
    ensures multiset(Admit(profile, provider, unstable, cands))[c]
         == if Admitted(profile, provider, unstable, c) then multiset(cands)[c] else 0
  {
    if cands != [] {
      var last := |cands| - 1;
      AdmitIsFilter(profile, provider, unstable, cands[..last], c);
      assert cands == cands[..last] + [cands[last]];
    }
  }

  lemma {:induction false} NormIsMaximum(cands: seq<Candidate>)
    ensures AreMaxima(NormOf(cands), multiset(cands))
  {
    if cands != [] {
      var before, c := cands[..|cands| - 1], cands[|cands| - 1];
      NormIsMaximum(before);
      assert cands == before + [c];
      assert c in multiset(cands);
    }
  }

  lemma NormForgetsOrder(a: seq<Candidate>, b: seq<Candidate>)
    requires multiset(a) == multiset(b)
    ensures NormOf(a) == NormOf(b)
  {
    NormIsMaximum(a);
    NormIsMaximum(b);
  }

  lemma SameCandidates(a: seq<Candidate>, b: seq<Candidate>, profile: Profile, provider: string,
                       unstable: string -> bool)
    requires multiset(a) == multiset(b)
    ensures multiset(Admit(profile, provider, unstable, a)) == multiset(Admit(profile, provider, unstable, b))
  {
    forall c
        ensures multiset(Admit(profile, provider, unstable, a))[c]
        == multiset(Admit(profile, provider, unstable, b))[c] {
      AdmitIsFilter(profile, provider, unstable, a, c);
      AdmitIsFilter(profile, provider, unstable, b, c);
    }
  }

  /** An id stands for one candidate, however often it is listed. */
  ghost predicate OneCandidatePerId(cands: seq<Candidate>) {
    forall i, j :: 0 <= i < j < |cands| && cands[i].id == cands[j].id ==> cands[i] == cands[j]
  }

  lemma AdmittedAreStrict(profile: Profile, provider: string, unstable: string -> bool, cands: seq<Candidate>, n: Norm)
    requires OneCandidatePerId(cands)
    ensures Strict((a, b) => Order(profile, n, a, b), multiset(Admit(profile, provider, unstable, cands)))
  {
    var admitted := multiset(Admit(profile, provider, unstable, cands));
    OrdersAreTotal(profile, n);
    forall a, b | a in admitted && b in admitted && Order(profile, n, a, b) == 0 ensures a == b {
      AdmitIsFilter(profile, provider, unstable, cands, a);
      AdmitIsFilter(profile, provider, unstable, cands, b);
      assert a in cands && b in cands && a.id == b.id;
    }
  }

  /**
   Where an id stands for one candidate the ranking, and so the recommendation, is the same for every
   order the candidates come in and whatever sorting algorithm is used.
   */
  lemma RecommendationForgetsOrder(profile: Profile, provider: string, unstable: string -> bool, a: seq<Candidate>,
                                   b: seq<Candidate>,
                                   rankedA: seq<Candidate>, rankedB: seq<Candidate>, fill: seq<string>)
    requires multiset(a) == multiset(b) && OneCandidatePerId(a)
    requires IsRanking(profile, provider, unstable, a, rankedA) && IsRanking(profile, provider, unstable, b, rankedB)
    ensures rankedA == rankedB
    ensures Recommended(profile, provider, rankedA, fill) == Recommended(profile, provider, rankedB, fill)
  {
    SameCandidates(a, b, profile, provider, unstable);
    NormForgetsOrder(Admit(profile, provider, unstable, a), Admit(profile, provider, unstable, b));
    var n := NormOf(Admit(profile, provider, unstable, a));
    OrdersAreTotal(profile, n);
    AdmittedAreStrict(profile, provider, unstable, a, n);
    SortedArrangementIsUnique((x, y) => Order(profile, n, x, y), rankedA, rankedB);
  }

  // ----- The whole recommendation -----

  lemma {:induction false} FillKeepsDistinct(profile: Profile, provider: string, out: seq<string>, fill: seq<string>)
    requires NoDuplicates(out) && |out| <= MAX_LISTED_MODELS
    ensures var r := Filled(profile, provider, out, fill);
            && out <= r && |r| <= MAX_LISTED_MODELS && NoDuplicates(r)
            && (forall i :: |out| <= i < |r| ==> r[i] in fill && !UtilityExcluded(profile, provider, r[i]))
            && (|r| == MAX_LISTED_MODELS || forall id :: id in fill && !UtilityExcluded(profile, provider, id) ==>
                 id in r)
    decreases |fill|
  {
    if fill != [] && |out| < MAX_LISTED_MODELS {
      var skip := fill[0] in out || UtilityExcluded(profile, provider, fill[0]);
      var next := if skip then out else out + [fill[0]];
      FillKeepsDistinct(profile, provider, next, fill[1..]);
      var r := Filled(profile, provider, next, fill[1..]);
      assert fill[0] in next ==> fill[0] in r;
      assert forall id :: id in fill ==> id == fill[0] || id in fill[1..];
    }
  }

  /**
   The fill is used in order: of two allowed ids that differ, the earlier stands in front of the later if that is
   filled in.
   */
  lemma {:induction false} FillKeepsOrder(profile: Profile, provider: string, out: seq<string>, fill: seq<string>,
                                          a: nat, b: nat)
    requires a < b < |fill| && !UtilityExcluded(profile, provider, fill[a])
    requires fill[b] !in out && fill[b] !in fill[..b] && fill[b] in Filled(profile, provider, out, fill)
    ensures out <= Filled(profile, provider, out, fill)
    ensures var r := Filled(profile, provider, out, fill);
            exists i, j :: 0 <= i < j < |r| && r[i] == fill[a] && r[j] == fill[b]
    decreases |fill|
  {
    var skip := fill[0] in out || UtilityExcluded(profile, provider, fill[0]);
    var next := if skip then out else out + [fill[0]];
    var r := Filled(profile, provider, next, fill[1..]);
    assert fill[b] != fill[0] by {
      assert fill[..b][0] == fill[0];
    }
    FilledExtends(profile, provider, next, fill[1..]);
    if a == 0 {
      var i :| 0 <= i < |next| && next[i] == fill[0];
      var j :| 0 <= j < |r| && r[j] == fill[b];
      assert forall k :: 0 <= k < |next| ==> r[k] == next[k] && next[k] in next;
    } else {
      assert fill[1..][..b - 1] == fill[..b][1..];
      FillKeepsOrder(profile, provider, next, fill[1..], a - 1, b - 1);
    }
  }

  lemma {:induction false} FilledExtends(profile: Profile, provider: string, out: seq<string>, fill: seq<string>)
    ensures out <= Filled(profile, provider, out, fill)
    decreases |fill|
  {
    if fill != [] && |out| < MAX_LISTED_MODELS {
      var skip := fill[0] in out || UtilityExcluded(profile, provider, fill[0]);
      FilledExtends(profile, provider, if skip then out else out + [fill[0]], fill[1..]);
    }
  }

  /**
   At most six distinct ids: the ranked picks first, then allowed fill ids; short of six only when the fill is
   used up.
   */
  lemma RecommendationIsWellFormed(profile: Profile, provider: string, ranked: seq<Candidate>, fill: seq<string>)
    ensures var r, picks := Recommended(profile, provider, ranked, fill), Chosen(ranked);
            && picks <= r && |r| <= 6 && NoDuplicates(r)
            && (forall i :: |picks| <= i < |r| ==> r[i] in fill && !UtilityExcluded(profile, provider, r[i]))
            && (|r| == 6 || forall id :: id in fill && !UtilityExcluded(profile, provider, id) ==>
                 id in r)
  {
    GreedyIdsAreDistinct(Entries(ranked), |ranked|);
    FillKeepsDistinct(profile, provider, Chosen(ranked), fill);
  }
}
