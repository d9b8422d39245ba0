/**
 * Python collection idioms over sequences: `list(dict.fromkeys(xs))`, building a
 * dict with `setdefault` (first value wins) or by assignment (last value wins),
 * and `sorted(d.keys())` for integer keys.
 */
module Seqs {

  /** Position of the first occurrence of `x` in `s`. */
  function IndexOf<T(==)>(s: seq<T>, x: T): (r: nat)
    requires x in s
    ensures r < |s| && s[r] == x
    ensures forall j :: 0 <= j < r ==> s[j] != x
  {
    if s[0] == x then 0 else 1 + IndexOf(s[1..], x)
  }

  lemma IndexOfIsFirst<T>(s: seq<T>, x: T, i: nat)
    requires i < |s| && s[i] == x
    requires forall j :: 0 <= j < i ==> s[j] != x
    ensures IndexOf(s, x) == i
  {
  }

  predicate Distinct<T(==)>(s: seq<T>) {
    forall i, j :: 0 <= i < j < |s| ==> s[i] != s[j]
  }

  /** Concatenation is associative; a hint for proofs that regroup a concatenation. */
  lemma AppendAssoc<T>(a: seq<T>, b: seq<T>, c: seq<T>)
    ensures a + (b + c) == (a + b) + c
  {
  }

  /** `list(dict.fromkeys(s))`: each element once, at its first occurrence. */
  function Dedup<T(==)>(s: seq<T>): (r: seq<T>)
    ensures Distinct(r)
    ensures forall i :: 0 <= i < |r| ==> r[i] in s
    ensures forall i :: 0 <= i < |s| ==> s[i] in r
    decreases |s|
  {
    if |s| == 0 then []
    else
      var init := s[..|s| - 1];
      var d := Dedup(init);
      assert forall i :: 0 <= i < |s| - 1 ==> s[i] == init[i];
      if s[|s| - 1] in d then d else d + [s[|s| - 1]]
  }

  /** Appending an element already present changes nothing; a new one goes to the end. */
  lemma DedupSnoc<T>(s: seq<T>, x: T)
    ensures Dedup(s + [x]) == if x in Dedup(s) then Dedup(s) else Dedup(s) + [x]
  {
    assert (s + [x])[..|s|] == s;
  }

  /** Elements of `s[..n]` have the same first occurrence in `s`. */
  lemma IndexOfInPrefix<T>(s: seq<T>, n: nat, x: T)
    requires n <= |s| && x in s[..n]
    ensures IndexOf(s, x) == IndexOf(s[..n], x)
  {
    var i := IndexOf(s[..n], x);
    IndexOfIsFirst(s, x, i);
  }

  /** `Dedup` keeps elements in the order of their first occurrences. */
  lemma {:induction false} DedupOrder<T>(s: seq<T>)
    ensures forall i, j :: 0 <= i < j < |Dedup(s)| ==> IndexOf(s, Dedup(s)[i]) < IndexOf(s, Dedup(s)[j])
    decreases |s|
  {
    if |s| > 0 {
      var init := s[..|s| - 1];
      var last := s[|s| - 1];
      var d := Dedup(init);
      DedupOrder(init);
      assert s[..|s| - 1] == init;
      forall x | x in d
        ensures x in s && IndexOf(s, x) == IndexOf(init, x)
      {
        IndexOfInPrefix(s, |s| - 1, x);
      }
      if last !in d {
        assert last !in init;
        IndexOfIsFirst(s, last, |s| - 1);
        var r := d + [last];
        forall i, j | 0 <= i < j < |r|
          ensures IndexOf(s, r[i]) < IndexOf(s, r[j])
        {
          assert r[i] == d[i] && d[i] in d;
          assert IndexOf(s, r[i]) == IndexOf(init, d[i]) < |init|;
          if j < |d| {
            assert r[j] == d[j] && d[j] in d;
            assert IndexOf(s, r[j]) == IndexOf(init, d[j]);
            assert IndexOf(init, d[i]) < IndexOf(init, d[j]);
          } else {
            assert r[j] == last;
            assert IndexOf(s, last) == |s| - 1;
          }
        }
      }
    }
  }

  /** `d.setdefault(key(t), val(t))` for each `t` in order: every key keeps its first value. */
  function FirstWins<T, K, V>(ts: seq<T>, key: T -> K, val: T -> V): (m: map<K, V>)
    ensures forall i :: 0 <= i < |ts| ==> key(ts[i]) in m
    ensures forall k :: k in m ==> exists i :: 0 <= i < |ts| && key(ts[i]) == k
    ensures forall i :: 0 <= i < |ts| && (forall j :: 0 <= j < i ==> key(ts[j]) != key(ts[i])) ==>
      m[key(ts[i])] == val(ts[i])
    decreases |ts|
  {
    if |ts| == 0 then map[]
    else
      var rest := FirstWins(ts[1..], key, val);
      assert forall i :: 1 <= i < |ts| ==> ts[i] == ts[1..][i - 1];
      rest[key(ts[0]) := val(ts[0])]
  }

  /** `{key(t): val(t) for t in ts}`: every key keeps its last value. */
  function LastWins<T, K, V>(ts: seq<T>, key: T -> K, val: T -> V): (m: map<K, V>)
    ensures forall i :: 0 <= i < |ts| ==> key(ts[i]) in m
    ensures forall k :: k in m ==> exists i :: 0 <= i < |ts| && key(ts[i]) == k
    ensures forall i :: 0 <= i < |ts| && (forall j :: i < j < |ts| ==> key(ts[j]) != key(ts[i])) ==>
      m[key(ts[i])] == val(ts[i])
    decreases |ts|
  {
    if |ts| == 0 then map[]
    else
      var init := ts[..|ts| - 1];
      var x := ts[|ts| - 1];
      var rest := LastWins(init, key, val);
      LastWinsSnoc(init, x, key, val, rest);
      assert init + [x] == ts;
      rest[key(x) := val(x)]
  }

  /** `m` maps the key of every item of `ts`, and only those, to the value of its last item. */
  ghost predicate IsLastWins<T, K, V>(ts: seq<T>, key: T -> K, val: T -> V, m: map<K, V>) {
    && (forall i :: 0 <= i < |ts| ==> key(ts[i]) in m)
    && (forall k :: k in m ==> exists i :: 0 <= i < |ts| && key(ts[i]) == k)
    && (forall i :: 0 <= i < |ts| && (forall j :: i < j < |ts| ==> key(ts[j]) != key(ts[i])) ==>
          key(ts[i]) in m && m[key(ts[i])] == val(ts[i]))
  }

  /** The step of `LastWins`: assigning one more item keeps its key's value last. */
  lemma LastWinsSnoc<T, K, V>(init: seq<T>, x: T, key: T -> K, val: T -> V, rest: map<K, V>)
    requires IsLastWins(init, key, val, rest)
    ensures IsLastWins(init + [x], key, val, rest[key(x) := val(x)])
  {
    var ts, m := init + [x], rest[key(x) := val(x)];
    forall k | k in m
      ensures exists i :: 0 <= i < |ts| && key(ts[i]) == k
    {
      if k == key(x) {
        assert key(ts[|init|]) == k;
      } else {
        var i :| 0 <= i < |init| && key(init[i]) == k;
        assert ts[i] == init[i];
      }
    }
    forall i | 0 <= i < |ts| && (forall j :: i < j < |ts| ==> key(ts[j]) != key(ts[i]))
      ensures m[key(ts[i])] == val(ts[i])
    {
      if i < |init| {
        assert ts[|init|] == x;
        assert ts[i] == init[i];
        assert forall j :: i < j < |init| ==> ts[j] == init[j];
      }
    }
  }

  predicate Increasing(s: seq<int>) {
    forall i, j :: 0 <= i < j < |s| ==> s[i] < s[j]
  }

  function InsertInt(x: int, ys: seq<int>): (r: seq<int>)
    requires Increasing(ys) && x !in ys
    ensures Increasing(r)
    ensures forall k :: k in r <==> k == x || k in ys
    decreases |ys|
  {
    if |ys| == 0 || x < ys[0] then [x] + ys
    else
      var rest := InsertInt(x, ys[1..]);
      assert forall k :: k in ys <==> k == ys[0] || k in ys[1..] by {
        assert ys == [ys[0]] + ys[1..];
      }
      assert forall j :: 0 <= j < |rest| ==> rest[j] in rest && ys[0] < rest[j];
      [ys[0]] + rest
  }

  /** `sorted(keys)` for distinct integer keys: strictly increasing, the same members. */
  function SortedKeys(keys: seq<int>): (r: seq<int>)
    requires Distinct(keys)
    ensures Increasing(r)
    ensures forall k :: k in r <==> k in keys
    decreases |keys|
  {
    if |keys| == 0 then []
    else
      assert forall k :: k in keys <==> k == keys[0] || k in keys[1..] by {
        assert keys == [keys[0]] + keys[1..];
      }
      InsertInt(keys[0], SortedKeys(keys[1..]))
  }

  /** A sequence without repeats is its own `Dedup`. */
  lemma {:induction false} DedupOfDistinct<T>(s: seq<T>)
    requires Distinct(s)
    ensures Dedup(s) == s
    decreases |s|
  {
    if |s| > 0 {
      var init := s[..|s| - 1];
      DedupOfDistinct(init);
      assert s[|s| - 1] !in init;
      assert init + [s[|s| - 1]] == s;
    }
  }

  /** `list(dict.fromkeys(list(dict.fromkeys(s))))` is `list(dict.fromkeys(s))`. */
  lemma DedupIdempotent<T>(s: seq<T>)
    ensures Dedup(Dedup(s)) == Dedup(s)
  {
    DedupOfDistinct(Dedup(s));
  }

  /** `s[:n]` for a non-negative `n`. */
  function Take<T>(s: seq<T>, n: nat): (r: seq<T>)
    ensures |r| == if n < |s| then n else |s|
    ensures r == s[..|r|]
  {
    if n < |s| then s[..n] else s
  }
}
