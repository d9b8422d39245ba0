/**
 * The two sorts the services use: Python's `sorted(xs, key=...)` (a stable sort on a
 * numeric key, used for positions and for descending scores) and `sorted(strs)` on
 * strings compared code point by code point.
 */
module Sorting {

  // ---------------------------------------------------------------------------
  // Stable sort by a numeric key

  predicate SortedBy<T>(s: seq<T>, key: T -> real) {
    forall i, j :: 0 <= i < j < |s| ==> key(s[i]) <= key(s[j])
  }

  /** The elements of `s` whose key is `v`, in their order in `s`. */
  function WithKey<T>(s: seq<T>, key: T -> real, v: real): seq<T>
    decreases |s|
  {
    if |s| == 0 then [] else Keep(s[0], key, v) + WithKey(s[1..], key, v)
  }

  function Keep<T>(x: T, key: T -> real, v: real): seq<T> {
    if key(x) == v then [x] else []
  }

  /**
   * `out` is what a stable sort of `s` by `key` returns: ordered by key, a permutation
   * of `s`, and elements sharing a key keep their relative order.
   */
  ghost predicate StablySorted<T>(out: seq<T>, s: seq<T>, key: T -> real) {
    && SortedBy(out, key)
    && multiset(out) == multiset(s)
    && forall v :: WithKey(out, key, v) == WithKey(s, key, v)
  }

  /** Puts `x` before the first element whose key is not smaller, so `x` precedes its equals. */
  function Insert<T>(x: T, ys: seq<T>, key: T -> real): (r: seq<T>)
    ensures |r| == |ys| + 1
    ensures multiset(r) == multiset([x] + ys)
    decreases |ys|
  {
    if |ys| == 0 || key(x) <= key(ys[0]) then [x] + ys
    else
      assert ys == [ys[0]] + ys[1..];
      [ys[0]] + Insert(x, ys[1..], key)
  }

  /** `sorted(s, key=key)`. */
  function SortBy<T>(s: seq<T>, key: T -> real): (r: seq<T>)
    ensures |r| == |s|
    ensures multiset(r) == multiset(s)
    decreases |s|
  {
    if |s| == 0 then []
    else
      assert s == [s[0]] + s[1..];
      Insert(s[0], SortBy(s[1..], key), key)
  }

  lemma WithKeyCons<T>(x: T, s: seq<T>, key: T -> real, v: real)
    ensures WithKey([x] + s, key, v) == Keep(x, key, v) + WithKey(s, key, v)
  {
    assert ([x] + s)[1..] == s;
  }

  lemma {:induction false} WithKeyAppend<T>(a: seq<T>, b: seq<T>, key: T -> real, v: real)
    ensures WithKey(a + b, key, v) == WithKey(a, key, v) + WithKey(b, key, v)
    decreases |a|
  {
    if |a| == 0 {
      assert a + b == b;
    } else {
      assert (a + b)[1..] == a[1..] + b;
      WithKeyAppend(a[1..], b, key, v);
    }
  }

  lemma {:induction false} InsertSorted<T>(x: T, ys: seq<T>, key: T -> real)
    requires SortedBy(ys, key)
    ensures SortedBy(Insert(x, ys, key), key)
    decreases |ys|
  {
    if |ys| == 0 || key(x) <= key(ys[0]) {
    } else {
      var rest := Insert(x, ys[1..], key);
      InsertSorted(x, ys[1..], key);
      var r := [ys[0]] + rest;
      forall j | 0 <= j < |rest|
        ensures key(ys[0]) <= key(rest[j])
      {
        assert rest[j] in multiset([x] + ys[1..]);
        assert rest[j] in [x] + ys[1..];
      }
      forall i, j | 0 <= i < j < |r|
        ensures key(r[i]) <= key(r[j])
      {
        if i > 0 {
          assert r[i] == rest[i - 1] && r[j] == rest[j - 1];
        }
      }
    }
  }

  /** Two elements with different keys never both land in the same key's sub-sequence. */
  lemma KeepSwap<T>(x: T, y: T, w: seq<T>, key: T -> real, v: real)
    requires key(x) != key(y)
    ensures Keep(y, key, v) + (Keep(x, key, v) + w) == Keep(x, key, v) + (Keep(y, key, v) + w)
  {
    if key(x) != v {
      assert Keep(x, key, v) == [];
      assert Keep(x, key, v) + w == w;
    } else {
      assert Keep(y, key, v) == [];
      assert Keep(y, key, v) + w == w;
    }
  }

  lemma {:induction false} InsertWithKey<T>(x: T, ys: seq<T>, key: T -> real, v: real)
    ensures WithKey(Insert(x, ys, key), key, v) == WithKey([x] + ys, key, v)
    decreases |ys|
  {
    if |ys| == 0 || key(x) <= key(ys[0]) {
    } else {
      var y := ys[0];
      var rest := Insert(x, ys[1..], key);
      var w := WithKey(ys[1..], key, v);
      calc {
        WithKey(Insert(x, ys, key), key, v);
        == { WithKeyCons(y, rest, key, v); }
        Keep(y, key, v) + WithKey(rest, key, v);
        == { InsertWithKey(x, ys[1..], key, v); WithKeyCons(x, ys[1..], key, v); }
        Keep(y, key, v) + (Keep(x, key, v) + w);
        == { KeepSwap(x, y, w, key, v); }
        Keep(x, key, v) + (Keep(y, key, v) + w);
        == { WithKeyCons(y, ys[1..], key, v); assert [y] + ys[1..] == ys; }
        Keep(x, key, v) + WithKey(ys, key, v);
        == { WithKeyCons(x, ys, key, v); }
        WithKey([x] + ys, key, v);
      }
    }
  }

  /** `SortBy` is a stable sort. */
  lemma {:induction false} SortByIsStable<T>(s: seq<T>, key: T -> real)
    ensures StablySorted(SortBy(s, key), s, key)
    decreases |s|
  {
    if |s| > 0 {
      var tail := SortBy(s[1..], key);
      SortByIsStable(s[1..], key);
      InsertSorted(s[0], tail, key);
      forall v
        ensures WithKey(SortBy(s, key), key, v) == WithKey(s, key, v)
      {
        InsertWithKey(s[0], tail, key, v);
        WithKeyCons(s[0], tail, key, v);
        WithKeyCons(s[0], s[1..], key, v);
        assert [s[0]] + s[1..] == s;
      }
    }
  }

  lemma SortBySorted<T>(s: seq<T>, key: T -> real)
    ensures SortedBy(SortBy(s, key), key)
  {
    SortByIsStable(s, key);
  }

  // ---------------------------------------------------------------------------
  // Sorting strings by code point

  /** Python's `a <= b` on strings. */
  predicate StrLe(a: string, b: string)
    decreases |a|
  {
    if |a| == 0 then true
    else if |b| == 0 then false
    else if a[0] != b[0] then a[0] < b[0]
    else StrLe(a[1..], b[1..])
  }

  lemma {:induction false} StrLeTotal(a: string, b: string)
    ensures StrLe(a, b) || StrLe(b, a)
    decreases |a|
  {
    if |a| > 0 && |b| > 0 && a[0] == b[0] {
      StrLeTotal(a[1..], b[1..]);
    }
  }

  lemma {:induction false} StrLeTransitive(a: string, b: string, c: string)
    requires StrLe(a, b) && StrLe(b, c)
    ensures StrLe(a, c)
    decreases |a|
  {
    if |a| > 0 && |b| > 0 && |c| > 0 && a[0] == b[0] && b[0] == c[0] {
      StrLeTransitive(a[1..], b[1..], c[1..]);
    }
  }

  predicate StrSorted(s: seq<string>) {
    forall i, j :: 0 <= i < j < |s| ==> StrLe(s[i], s[j])
  }

  function InsertStr(x: string, ys: seq<string>): (r: seq<string>)
    ensures multiset(r) == multiset([x] + ys)
    decreases |ys|
  {
    if |ys| == 0 || StrLe(x, ys[0]) then [x] + ys
    else
      assert ys == [ys[0]] + ys[1..];
      [ys[0]] + InsertStr(x, ys[1..])
  }

  /** `sorted(strs)`. */
  function SortStrings(s: seq<string>): (r: seq<string>)
    ensures multiset(r) == multiset(s)
    decreases |s|
  {
    if |s| == 0 then []
    else
      assert s == [s[0]] + s[1..];
      InsertStr(s[0], SortStrings(s[1..]))
  }

  lemma {:induction false} InsertStrSorted(x: string, ys: seq<string>)
    requires StrSorted(ys)
    ensures StrSorted(InsertStr(x, ys))
    decreases |ys|
  {
    if |ys| == 0 {
    } else if StrLe(x, ys[0]) {
      forall j | 0 <= j < |ys|
        ensures StrLe(x, ys[j])
      {
        if j > 0 {
          StrLeTransitive(x, ys[0], ys[j]);
        }
      }
    } else {
      StrLeTotal(x, ys[0]);
      var rest := InsertStr(x, ys[1..]);
      InsertStrSorted(x, ys[1..]);
      forall j | 0 <= j < |rest|
        ensures StrLe(ys[0], rest[j])
      {
        assert rest[j] in multiset([x] + ys[1..]);
      }
    }
  }

  lemma {:induction false} SortStringsSorted(s: seq<string>)
    ensures StrSorted(SortStrings(s))
    decreases |s|
  {
    if |s| > 0 {
      SortStringsSorted(s[1..]);
      InsertStrSorted(s[0], SortStrings(s[1..]));
    }
  }
}
