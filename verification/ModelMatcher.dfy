/**
 The tiered fuzzy match behind model search (llmprovider/model_matcher.go): the greedy
 subsequence scan, the score tiers and the order of the results.

 Ids, labels and queries are already lower-cased.
 */
module ModelMatcher {
  import opened Options
  import opened Text

  const SCORE_EXACT := 6000
  const SCORE_ID_PREFIX := 5000
  const SCORE_ID_SUBSTRING := 4000
  const SCORE_LABEL_SUBSTRING := 3000
  const SCORE_TOKEN_PREFIX := 2000
  const SCORE_SUBSEQUENCE := 1000
  const MAX_SUBSEQUENCE_BONUS: nat := 999

  predicate IsSeparator(c: char) {
    c in "-_/.:~" || IsSpace(c)
  }

  // ----- Subsequences -----

  /** The non-separator characters of q, in order. */
  function Needle(q: string): string {
    if q == "" then "" else Needle(q[..|q| - 1]) + (if IsSeparator(q[|q| - 1]) then "" else [q[|q| - 1]])
  }

  lemma NeedleSkipsSeparators(q: string, c: char)
    ensures var skipped := c in {'-', '_', '/', '.', ':', '~'} || IsSpace(c);
            Needle(q + [c]) == Needle(q) + if skipped then "" else [c]
  {
    assert (q + [c])[..|q|] == q;
    assert "-_/.:~" == ['-', '_', '/', '.', ':', '~'];
  }

  /** `at` embeds `needle` into `hay`: strictly increasing positions holding its characters. */
  ghost predicate Embeds(needle: string, hay: string, at: seq<nat>) {
    && |at| == |needle|
    && (forall k :: 0 <= k < |at| ==> at[k] < |hay| && hay[at[k]] == needle[k])
    && (forall k, l :: 0 <= k < l < |at| ==> at[k] < at[l])
  }

  ghost predicate IsSubsequence(needle: string, hay: string) {
    exists at :: Embeds(needle, hay, at)
  }

  predicate InRange(hay: string, at: seq<nat>) {
    forall k :: 0 <= k < |at| ==> at[k] < |hay|
  }

  /** The points each matched position earns: 10 after a directly preceding match, 5 at a token start. */
  function Points(hay: string, at: seq<nat>): (p: nat)
    requires InRange(hay, at)
    ensures p <= 15 * |at|
  {
    if at == [] then 0
    else
      var last := |at| - 1;
      Points(hay, at[..last])
      + (if last > 0 && at[last] == at[last - 1] + 1 then 10 else 0)
      + (if at[last] == 0 || IsSeparator(hay[at[last] - 1]) then 5 else 0)
  }

  /** Every embedding stays at or behind `at`, position by position. */
  ghost predicate Leftmost(needle: string, hay: string, at: seq<nat>) {
    Embeds(needle, hay, at) &&
    forall other :: Embeds(needle, hay, other) ==> forall k :: 0 <= k < |at| ==> at[k] <= other[k]
  }

  /**
   The scan has read hay[..i]: `at` embeds a prefix of the needle there, no embedding of the needle
   has any of these positions earlier, and the next position of every embedding is still to come.
   */
  ghost predicate Scanned(needle: string, hay: string, i: nat, at: seq<nat>) {
    && i <= |hay| && |at| <= |needle|
    && Embeds(needle[..|at|], hay, at)
    && (forall k :: 0 <= k < |at| ==> at[k] < i)
    && (forall other :: Embeds(needle, hay, other) ==>
          && (forall k :: 0 <= k < |at| ==> at[k] <= other[k])
          && (|at| < |needle| ==> i <= other[|at|]))
  }

  lemma ScanSkips(needle: string, hay: string, i: nat, at: seq<nat>)
    requires Scanned(needle, hay, i, at) && i < |hay| && |at| < |needle| && hay[i] != needle[|at|]
    ensures Scanned(needle, hay, i + 1, at)
  {
    forall other | Embeds(needle, hay, other)
      ensures i + 1 <= other[|at|]
    {
      assert hay[other[|at|]] == needle[|at|];
    }
  }

  lemma ScanMatches(needle: string, hay: string, i: nat, at: seq<nat>)
    requires Scanned(needle, hay, i, at) && i < |hay| && |at| < |needle| && hay[i] == needle[|at|]
    ensures Scanned(needle, hay, i + 1, at + [i])
  {
    var longer := at + [i];
    assert needle[..|longer|] == needle[..|at|] + [needle[|at|]];
    assert Embeds(needle[..|longer|], hay, longer);
    forall other | Embeds(needle, hay, other)
      ensures forall k :: 0 <= k < |longer| ==> longer[k] <= other[k]
      ensures |longer| < |needle| ==> i + 1 <= other[|longer|]
    {
      if |longer| < |needle| {
        assert other[|at|] < other[|longer|];
      }
    }
  }

  lemma ScanEnds(needle: string, hay: string, i: nat, at: seq<nat>)
    requires Scanned(needle, hay, i, at)
    ensures |at| == |needle| ==> Leftmost(needle, hay, at) && IsSubsequence(needle, hay)
    ensures |at| < |needle| && i == |hay| ==> !IsSubsequence(needle, hay)
  {
    if |at| == |needle| {
      assert needle[..|at|] == needle;
    }
  }

  /** The k-th position directly follows the one before. */
  predicate Follows(at: seq<nat>, k: nat) {
    0 < k < |at| && at[k] == at[k - 1] + 1
  }

  /** The k-th position begins a token: it is the first of the id, or right behind a separator. */
  predicate BeginsToken(hay: string, at: seq<nat>, k: nat) {
    k < |at| && (at[k] == 0 || (at[k] <= |hay| && IsSeparator(hay[at[k] - 1])))
  }

  function Following(at: seq<nat>): set<nat> {
    set k: nat | k < |at| && Follows(at, k)
  }

  function Beginning(hay: string, at: seq<nat>): set<nat> {
    set k: nat | k < |at| && BeginsToken(hay, at, k)
  }

  lemma OneMoreFollows(at: seq<nat>, i: nat)
    ensures Following(at + [i]) == Following(at) + if Follows(at + [i], |at|) then {|at|} else {}
  {
    assert forall k: nat :: k < |at| ==> Follows(at + [i], k) == Follows(at, k);
  }

  lemma OneMoreBegins(hay: string, at: seq<nat>, i: nat)
    ensures Beginning(hay, at + [i]) == Beginning(hay, at) + if BeginsToken(hay, at + [i], |at|) then {|at|} else {}
  {
    hide IsSeparator;
    assert forall k: nat :: k < |at| ==> BeginsToken(hay, at + [i], k) == BeginsToken(hay, at, k);
  }

  lemma PointsStep(hay: string, at: seq<nat>, i: nat)
    requires i < |hay| && InRange(hay, at)
    ensures Points(hay, at + [i]) == Points(hay, at) + (if Follows(at + [i], |at|) then 10 else 0)
                                     + (if BeginsToken(hay, at + [i], |at|) then 5 else 0)
  {
    hide IsSeparator;
    PointsOfLonger(hay, at, i);
  }

  /** Ten points for every match that directly follows the one before, and five for every one that begins a token. */
  lemma {:induction false} PointsCount(hay: string, at: seq<nat>)
    requires InRange(hay, at)
    ensures Points(hay, at) == 10 * |Following(at)| + 5 * |Beginning(hay, at)|
  {
    if at != [] {
      var last := |at| - 1;
      var less, i := at[..last], at[last];
      assert at == less + [i];
      PointsCount(hay, less);
      PointsStep(hay, less, i);
      OneMoreFollows(less, i);
      OneMoreBegins(hay, less, i);
      assert last !in Following(less) && last !in Beginning(hay, less);
      hide *;
    }
  }

  lemma PointsOfLonger(hay: string, at: seq<nat>, i: nat)
    requires i < |hay| && InRange(hay, at)
    ensures Points(hay, at + [i])
         == Points(hay, at)
            + (if |at| > 0 && i == at[|at| - 1] + 1 then 10 else 0)
            + (if i == 0 || IsSeparator(hay[i - 1]) then 5 else 0)
  {
    var longer := at + [i];
    assert longer[..|at|] == at && longer[|at|] == i;
    assert |at| > 0 ==> longer[|at| - 1] == at[|at| - 1];
  }

  method NeedleOf(q: string) returns (needle: string)
    ensures needle == Needle(q)
  {
    needle := "";
    for n := 0 to |q|
      invariant needle == Needle(q[..n])
    {
      assert q[..n + 1][..n] == q[..n];
      if !IsSeparator(q[n]) {
        needle := needle + [q[n]];
      }
    }
    assert q[..|q|] == q;
  }

  lemma ScanBegins(needle: string, hay: string)
    ensures Scanned(needle, hay, 0, []) && InRange(hay, []) && Points(hay, []) == 0
  {
  }

  /** A match is scanned and scores as the loop counts: by the position before it and the character before it. */
  lemma MatchScores(needle: string, hay: string, i: nat, at: seq<nat>, prev: int)
    requires Scanned(needle, hay, i, at) && i < |hay| && |at| < |needle| && hay[i] == needle[|at|] && InRange(hay, at)
    requires prev == if at == [] then -2 else at[|at| - 1]
    ensures Scanned(needle, hay, i + 1, at + [i]) && InRange(hay, at + [i])
    ensures Points(hay, at + [i])
         == Points(hay, at) + (if i == prev + 1 then 10 else 0) + (if i == 0 || IsSeparator(hay[i - 1]) then 5 else 0)
  {
    ScanMatches(needle, hay, i, at);
    PointsOfLonger(hay, at, i);
    hide Scanned, Points, IsSeparator;
  }

  /**
   subsequenceBonus: finds the needle exactly when it is a non-empty subsequence of the id, and then
   scores the leftmost embedding.
   */
  method SubsequenceBonus(hay: string, q: string) returns (bonus: Option<nat>, ghost at: seq<nat>)
    ensures bonus.Some? <==> Needle(q) != "" && IsSubsequence(Needle(q), hay)
    ensures bonus.Some? ==> Leftmost(Needle(q), hay, at)
    ensures bonus.Some? ==>
              bonus.value == if Points(hay, at) < MAX_SUBSEQUENCE_BONUS then Points(hay, at) else MAX_SUBSEQUENCE_BONUS
  {
    hide *;
    at := [];
    var needle := NeedleOf(q);
    if needle == "" {
      return None, at;
    }
    var j, prev := 0, -2;
    var points: nat := 0;
    var i := 0;
    ScanBegins(needle, hay);
    while i < |hay| && j < |needle|
      invariant 0 <= i <= |hay| && 0 <= j <= |needle|
      invariant j == |at| && Scanned(needle, hay, i, at)
      invariant InRange(hay, at)
      invariant prev == if j == 0 then -2 else at[j - 1]
      invariant points == Points(hay, at)
    {
      if hay[i] == needle[j] {
        MatchScores(needle, hay, i, at, prev);
        at := at + [i];
        if i == prev + 1 {
          points := points + 10;
        }
        if i == 0 || IsSeparator(hay[i - 1]) {
          points := points + 5;
        }
        prev := i;
        j := j + 1;
      } else {
        ScanSkips(needle, hay, i, at);
      }
      i := i + 1;
    }
    ScanEnds(needle, hay, i, at);
    if j < |needle| {
      bonus := None;
    } else {
      var capped: nat := if points < MAX_SUBSEQUENCE_BONUS then points else MAX_SUBSEQUENCE_BONUS;
      bonus := Some(capped);
    }
  }

  // ----- Tiers -----

  predicate HasPrefix(s: string, p: string) {
    p <= s
  }

  predicate Contains(s: string, p: string) {
    exists i :: 0 <= i <= |s| && OccursAt(s, p, i)
  }

  predicate OccursAt(s: string, p: string, i: nat) {
    i + |p| <= |s| && s[i..i + |p|] == p
  }

  /** The maximal separator-free pieces of s. */
  function Tokens(s: string): seq<string> {
    TokensFrom(s, "")
  }

  function TokensFrom(s: string, current: string): seq<string>
    decreases |s|
  {
    var flushed := if current == "" then [] else [current];
    if s == "" then flushed
    else if IsSeparator(s[0]) then flushed + TokensFrom(s[1..], "")
    else TokensFrom(s[1..], current + [s[0]])
  }

  /** Every token of q prefixes some id or label token; a query without tokens matches nothing. */
  predicate TokenPrefixMatch(q: string, id: string, caption: string) {
    Tokens(q) != [] &&
    forall t :: t in Tokens(q) ==> exists u :: u in Tokens(id) + Tokens(caption) && HasPrefix(u, t)
  }

  /** A separator ends a token, and the next begins behind it. */
  lemma TokensSplit(a: string, c: char, b: string)
    requires IsSeparator(c)
    ensures Tokens(a + [c] + b) == Tokens(a) + Tokens(b)
  {
    TokensSplitFrom(a, "", c, b);
  }

  lemma {:induction false} TokensSplitFrom(a: string, current: string, c: char, b: string)
    requires IsSeparator(c)
    ensures TokensFrom(a + [c] + b, current) == TokensFrom(a, current) + TokensFrom(b, "")
    decreases |a|
  {
    var s := a + [c] + b;
    hide IsSeparator;
    if a == "" {
      assert s[0] == c && s[1..] == b;
    } else {
      assert s[0] == a[0] && s[1..] == a[1..] + [c] + b;
      if IsSeparator(a[0]) {
        TokensSplitFrom(a[1..], "", c, b);
      } else {
        TokensSplitFrom(a[1..], current + [a[0]], c, b);
      }
    }
  }

  /** A text without separators is one token, or none. */
  lemma {:induction false} WordIsOneToken(word: string, current: string)
    requires forall i :: 0 <= i < |word| ==> !IsSeparator(word[i])
    ensures TokensFrom(word, current) == if current + word == "" then [] else [current + word]
    decreases |word|
  {
    hide IsSeparator;
    if word == "" {
      assert current + word == current;
    } else {
      WordIsOneToken(word[1..], current + [word[0]]);
      assert current + [word[0]] + word[1..] == current + word;
    }
  }

  /** The strongest kind of match between a query and a model. */
  datatype Tier = Exact | IdPrefix | IdSubstring | LabelSubstring | TokenPrefix | Subsequence | NoMatch
  {
    function Rank(): nat {
      match this
      case Exact => 6
      case IdPrefix => 5
      case IdSubstring => 4
      case LabelSubstring => 3
      case TokenPrefix => 2
      case Subsequence => 1
      case NoMatch => 0
    }
  }

  ghost function TierOf(id: string, caption: string, q: string): Tier {
    if id == q then Exact
    else if HasPrefix(id, q) then IdPrefix
    else if Contains(id, q) then IdSubstring
    else if Contains(caption, q) then LabelSubstring
    else if TokenPrefixMatch(q, id, caption) then TokenPrefix
    else if Needle(q) != "" && IsSubsequence(Needle(q), id) then Subsequence
    else NoMatch
  }

  /** The scores a tier may give. */
  predicate TierScore(tier: Tier, score: nat) {
    match tier
    case Exact => score == 6000
    case IdPrefix => score == 5000
    case IdSubstring => score == 4000
    case LabelSubstring => score == 3000
    case TokenPrefix => score == 2000
    case Subsequence => 1000 <= score <= 1999
    case NoMatch => false
  }

  /** What a tier asks of the query. */
  ghost predicate Reaches(tier: Tier, id: string, caption: string, q: string) {
    match tier
    case Exact => id == q
    case IdPrefix => |q| <= |id| && id[..|q|] == q
    case IdSubstring => exists pre, post :: Surrounds(id, pre, q, post)
    case LabelSubstring => exists pre, post :: Surrounds(caption, pre, q, post)
    case TokenPrefix =>
      Tokens(q) != [] && forall t :: t in Tokens(q) ==>
        exists u :: (u in Tokens(id) || u in Tokens(caption)) && |t| <= |u| && u[..|t|] == t
    case Subsequence => Needle(q) != "" && IsSubsequence(Needle(q), id)
    case NoMatch => true
  }

  predicate Surrounds(s: string, pre: string, q: string, post: string) {
    s == pre + q + post
  }

  lemma ContainsMeans(s: string, q: string)
    ensures Contains(s, q) <==> exists pre, post :: Surrounds(s, pre, q, post)
  {
    if Contains(s, q) {
      var i :| 0 <= i <= |s| && OccursAt(s, q, i);
      assert s == s[..i] + s[i..i + |q|] + s[i + |q|..];
      assert Surrounds(s, s[..i], q, s[i + |q|..]);
    }
    if pre, post :| Surrounds(s, pre, q, post) {
      assert OccursAt(s, q, |pre|);
    }
  }

  lemma TokenPrefixMeans(id: string, caption: string, q: string)
    ensures TokenPrefixMatch(q, id, caption) <==> Reaches(TokenPrefix, id, caption, q)
  {
    hide Tokens;
    assert forall u, t :: HasPrefix(u, t) <==> |t| <= |u| && u[..|t|] == t;
    var surface := Tokens(id) + Tokens(caption);
    assert forall u :: u in surface <==> u in Tokens(id) || u in Tokens(caption);
  }

  /** The tier a query is given is the one of the highest rank it reaches. */
  lemma TierIsTheStrongest(id: string, caption: string, q: string)
    ensures Reaches(TierOf(id, caption, q), id, caption, q)
    ensures forall t: Tier :: Reaches(t, id, caption, q) && t != TierOf(id, caption, q) ==>
              t.Rank() < TierOf(id, caption, q).Rank()
  {
    ContainsMeans(id, q);
    ContainsMeans(caption, q);
    TokenPrefixMeans(id, caption, q);
    hide Contains, TokenPrefixMatch, Tokens, Needle, IsSubsequence, Surrounds;
  }

  /**
   fuzzyModelScore: a score in the band of the strongest tier the query reaches, or none. In the lowest band
   the leftmost embedding's points are added, up to 999.
   */
  method FuzzyModelScore(id: string, caption: string, q: string) returns (score: Option<nat>, ghost at: seq<nat>)
    ensures score.None? <==> TierOf(id, caption, q) == NoMatch
    ensures score.Some? ==> TierScore(TierOf(id, caption, q), score.value)
    ensures TierOf(id, caption, q) == Subsequence ==>
              && Leftmost(Needle(q), id, at)
              && score.Some?
              && score.value == 1000 + if Points(id, at) < 999 then Points(id, at) else 999
  {
    at := [];
    if id == q {
      return Some(SCORE_EXACT), at;
    }
    if HasPrefix(id, q) {
      return Some(SCORE_ID_PREFIX), at;
    }
    if Contains(id, q) {
      return Some(SCORE_ID_SUBSTRING), at;
    }
    if Contains(caption, q) {
      return Some(SCORE_LABEL_SUBSTRING), at;
    }
    if TokenPrefixMatch(q, id, caption) {
      return Some(SCORE_TOKEN_PREFIX), at;
    }
    var bonus;
    bonus, at := SubsequenceBonus(id, q);
    match bonus {
      case Some(b) => score := Some(SCORE_SUBSEQUENCE + b);
      case None => score := None;
    }
  }

  /** Tiers never cross: whatever bonus a match collected, a stronger kind of match outscores it. */
  lemma TiersNeverCross(a: Tier, b: Tier, scoreA: nat, scoreB: nat)
    requires TierScore(a, scoreA) && TierScore(b, scoreB)
    ensures a.Rank() > b.Rank() ==> scoreA > scoreB
    ensures scoreA > scoreB ==> a.Rank() >= b.Rank()
  {
  }

  /** A substring of the id is also a subsequence of it, so the subsequence tier loses no weaker match. */
  lemma SubstringIsSubsequence(hay: string, q: string)
    requires Contains(hay, q)
    ensures IsSubsequence(Needle(q), hay)
  {
    var i :| 0 <= i <= |hay| && OccursAt(hay, q, i);
    var at := NeedleAt(q);
    var moved := seq(|at|, k requires 0 <= k < |at| => at[k] + i);
    assert forall k :: 0 <= k < |moved| ==> hay[moved[k]] == hay[i..i + |q|][at[k]];
    assert Embeds(Needle(q), hay, moved);
  }

  lemma {:induction false} NeedleAt(q: string) returns (at: seq<nat>)
    ensures Embeds(Needle(q), q, at)
  {
    if q == "" {
      at := [];
    } else {
      var last := |q| - 1;
      at := NeedleAt(q[..last]);
      EmbedsOneMore(q, Needle(q[..last]), at);
      hide Embeds, IsSeparator;
      if !IsSeparator(q[last]) {
        at := at + [last];
      }
    }
  }

  /** What is embedded in all but the last character is embedded in the whole, and may take that one too. */
  lemma EmbedsOneMore(q: string, needle: string, at: seq<nat>)
    requires q != "" && Embeds(needle, q[..|q| - 1], at)
    ensures Embeds(needle, q, at) && Embeds(needle + [q[|q| - 1]], q, at + [|q| - 1])
  {
  }
}
