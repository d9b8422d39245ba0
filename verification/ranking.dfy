/**
 * The ranking step shared by both similarity searches: keep the entries scoring
 * above zero, sort them by descending score (Python's stable `sort(reverse=True)`,
 * so equal scores keep their insertion order) and keep the first `cap`.
 */
module Ranking {
  import opened Sorting

  datatype Scored<T> = Scored(item: T, score: real)

  /** The sort key that turns an ascending stable sort into a descending one. */
  function NegScore<T>(e: Scored<T>): real {
    -e.score
  }

  /** The items scoring above zero, each with its score, in insertion order. */
  function Positive<T>(items: seq<T>, score: T -> real): (r: seq<Scored<T>>)
    ensures forall k :: 0 <= k < |r| ==> r[k].score > 0.0 && r[k].score == score(r[k].item) && r[k].item in items
    ensures forall i :: 0 <= i < |items| && score(items[i]) > 0.0 ==> Scored(items[i], score(items[i])) in r
    ensures |r| <= |items|
    decreases |items|
  {
    if |items| == 0 then []
    else
      var rest := Positive(items[1..], score);
      assert forall i :: 1 <= i < |items| ==> items[i] == items[1..][i - 1];
      if score(items[0]) > 0.0 then [Scored(items[0], score(items[0]))] + rest else rest
  }

  /** `[r for r in results if score > 0]`, sorted by descending score, cut to `cap` entries. */
  function Rank<T>(items: seq<T>, score: T -> real, cap: nat): seq<Scored<T>> {
    var sorted := Ranked(items, score);
    if cap < |sorted| then sorted[..cap] else sorted
  }

  lemma WithKeyOfPrefix<T>(s: seq<T>, n: nat, key: T -> real, v: real)
    requires n <= |s|
    ensures WithKey(s[..n], key, v) <= WithKey(s, key, v)
  {
    assert s == s[..n] + s[n..];
    WithKeyAppend(s[..n], s[n..], key, v);
  }

  /** The positive entries in final order, before the cap. */
  function Ranked<T>(items: seq<T>, score: T -> real): seq<Scored<T>> {
    SortBy(Positive(items, score), NegScore)
  }

  lemma RankIsPrefix<T>(items: seq<T>, score: T -> real, cap: nat)
    ensures var s := Ranked(items, score);
      var m := if cap < |s| then cap else |s|;
      Rank(items, score, cap) == s[..m]
  {
  }

  lemma RankedOrder<T>(items: seq<T>, score: T -> real, cap: nat)
    ensures var r := Rank(items, score, cap);
      forall i, j :: 0 <= i < j < |r| ==> r[i].score >= r[j].score
  {
    var s := Ranked(items, score);
    SortByIsStable(Positive(items, score), NegScore);
    RankIsPrefix(items, score, cap);
    var r := Rank(items, score, cap);
    forall i, j | 0 <= i < j < |r|
      ensures r[i].score >= r[j].score
    {
      assert NegScore(s[i]) <= NegScore(s[j]);
    }
  }

  lemma RankedPositive<T>(items: seq<T>, score: T -> real, cap: nat)
    ensures var r := Rank(items, score, cap);
      && multiset(r) <= multiset(Positive(items, score))
      && forall k :: 0 <= k < |r| ==> r[k].score > 0.0 && r[k].score == score(r[k].item) && r[k].item in items
  {
    var p := Positive(items, score);
    var s := Ranked(items, score);
    var m := if cap < |s| then cap else |s|;
    RankIsPrefix(items, score, cap);
    PrefixMultiset(s, m);
    forall k | 0 <= k < m
      ensures s[k].score > 0.0 && s[k].score == score(s[k].item) && s[k].item in items
    {
      assert s[k] in multiset(p);
      assert s[k] in p;
    }
  }

  lemma PrefixMultiset<T>(s: seq<T>, m: nat)
    requires m <= |s|
    ensures multiset(s[..m]) <= multiset(s)
  {
    assert s == s[..m] + s[m..];
  }

  lemma RankedTies<T>(items: seq<T>, score: T -> real, cap: nat)
    ensures var r := Rank(items, score, cap);
      forall v :: WithKey(r, NegScore, v) <= WithKey(Positive(items, score), NegScore, v)
  {
    var s := Ranked(items, score);
    var m := if cap < |s| then cap else |s|;
    SortByIsStable(Positive(items, score), NegScore);
    RankIsPrefix(items, score, cap);
    forall v
      ensures WithKey(s[..m], NegScore, v) <= WithKey(Positive(items, score), NegScore, v)
    {
      WithKeyOfPrefix(s, m, NegScore, v);
    }
  }

  /** In a sorted sequence, whatever a prefix leaves out has a key no smaller than any it keeps. */
  lemma SortedPrefixKeepsSmallest<T>(s: seq<T>, m: nat, key: T -> real)
    requires SortedBy(s, key) && m <= |s|
    ensures forall e, k :: e in multiset(s) - multiset(s[..m]) && 0 <= k < m ==> key(s[k]) <= key(e)
  {
    assert s == s[..m] + s[m..];
    assert multiset(s) == multiset(s[..m]) + multiset(s[m..]);
    forall e, k | e in multiset(s) - multiset(s[..m]) && 0 <= k < m
      ensures key(s[k]) <= key(e)
    {
      assert e in multiset(s[m..]);
      assert e in s[m..];
      var t :| m <= t < |s| && s[t] == e;
    }
  }

  lemma RankedKeepsBest<T>(items: seq<T>, score: T -> real, cap: nat)
    ensures var r := Rank(items, score, cap);
      forall e, k :: e in multiset(Positive(items, score)) - multiset(r) && 0 <= k < |r| ==> e.score <= r[k].score
  {
    var p := Positive(items, score);
    var s := Ranked(items, score);
    var m := if cap < |s| then cap else |s|;
    SortBySorted(p, NegScore);
    RankIsPrefix(items, score, cap);
    SortedPrefixKeepsSmallest(s, m, NegScore);
    assert multiset(p) == multiset(s);
    forall e, k | e in multiset(p) - multiset(s[..m]) && 0 <= k < m
      ensures e.score <= s[k].score
    {
      assert NegScore(s[k]) <= NegScore(e);
    }
  }

  /**
   * What a search by `score` capped at `cap` must return: at most `cap`
   * entries, all of them items scoring above zero, in non-increasing score
   * order, equal scores in insertion order, drawn from the positive entries,
   * and no positive entry left out outscores one kept.
   */
  ghost predicate IsRanking<T>(r: seq<Scored<T>>, items: seq<T>, score: T -> real, cap: nat) {
    var p := Positive(items, score);
    && |r| == (if cap < |p| then cap else |p|)
    && (forall k :: 0 <= k < |r| ==> r[k].score > 0.0 && r[k].score == score(r[k].item) && r[k].item in items)
    && (forall i, j :: 0 <= i < j < |r| ==> r[i].score >= r[j].score)
    && (forall v :: WithKey(r, NegScore, v) <= WithKey(p, NegScore, v))
    && multiset(r) <= multiset(p)
    && (forall e, k :: e in multiset(p) - multiset(r) && 0 <= k < |r| ==> e.score <= r[k].score)
  }

  /** `Rank` returns a ranking in the sense of `IsRanking`. */
  lemma RankSpec<T>(items: seq<T>, score: T -> real, cap: nat)
    ensures IsRanking(Rank(items, score, cap), items, score, cap)
    ensures |Rank(items, score, cap)| <= cap
  {
    RankIsPrefix(items, score, cap);
    RankedOrder(items, score, cap);
    RankedPositive(items, score, cap);
    RankedTies(items, score, cap);
    RankedKeepsBest(items, score, cap);
  }
}
