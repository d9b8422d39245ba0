/**
 * The Python string primitives the services rely on, over `string` (= `seq<char>`):
 * whitespace (`str.isspace`), `lower`/`upper` restricted to ASCII and basic Cyrillic,
 * `strip`, `split()`, `split(sep)`, `join`, `in`, `count`, `splitlines` and slicing.
 */
module Strings {

  /** Python's `str.isspace` for one character (the whitespace `split()`, `strip()` and `\s` use). */
  predicate IsSpace(c: char) {
    || ('\U{0009}' <= c <= '\U{000D}')
    || ('\U{001C}' <= c <= '\U{0020}')
    || c == '\U{0085}'
    || c == '\U{00A0}'
    || c == '\U{1680}'
    || ('\U{2000}' <= c <= '\U{200A}')
    || c == '\U{2028}'
    || c == '\U{2029}'
    || c == '\U{202F}'
    || c == '\U{205F}'
    || c == '\U{3000}'
  }

  /** The characters `str.splitlines` treats as line boundaries. */
  predicate IsLineBreak(c: char) {
    || ('\U{000A}' <= c <= '\U{000D}')
    || ('\U{001C}' <= c <= '\U{001E}')
    || c == '\U{0085}' || c == '\U{2028}' || c == '\U{2029}'
  }

  predicate NoneSatisfy<T>(s: seq<T>, p: T -> bool) {
    forall k :: 0 <= k < |s| ==> !p(s[k])
  }

  predicate AllSatisfy<T>(s: seq<T>, p: T -> bool) {
    forall k :: 0 <= k < |s| ==> p(s[k])
  }

  predicate IsBlank(s: string) {
    AllSatisfy(s, IsSpace)
  }

  /** Index of the first element satisfying `p`, or `|s|` when there is none. */
  function FindFirst<T>(s: seq<T>, p: T -> bool): (r: nat)
    ensures r <= |s|
    ensures NoneSatisfy(s[..r], p)
    ensures r < |s| ==> p(s[r])
  {
    if |s| == 0 then 0
    else if p(s[0]) then 0
    else
      var k := FindFirst(s[1..], p);
      assert s[1..][..k] == s[1..k + 1];
      k + 1
  }

  lemma FindFirstIsFirst<T>(s: seq<T>, p: T -> bool, n: nat)
    requires n <= |s|
    requires NoneSatisfy(s[..n], p)
    requires n < |s| ==> p(s[n])
    ensures FindFirst(s, p) == n
  {
    var r := FindFirst(s, p);
    assert forall k :: 0 <= k < n ==> s[..n][k] == s[k];
    assert forall k :: 0 <= k < r ==> s[..r][k] == s[k];
  }

  // ---------------------------------------------------------------------------
  // Case mapping (ASCII and the basic Cyrillic block)

  function LowerChar(c: char): (r: char)
    ensures IsSpace(r) <==> IsSpace(c)
  {
    if 'A' <= c <= 'Z' then (c as int + 32) as char
    else if '\U{0410}' <= c <= '\U{042F}' then (c as int + 32) as char
    else if '\U{0400}' <= c <= '\U{040F}' then (c as int + 80) as char
    else c
  }

  function UpperChar(c: char): char {
    if 'a' <= c <= 'z' then (c as int - 32) as char
    else if '\U{0430}' <= c <= '\U{044F}' then (c as int - 32) as char
    else if '\U{0450}' <= c <= '\U{045F}' then (c as int - 80) as char
    else c
  }

  /** `s.lower()` on ASCII and basic Cyrillic letters; every other character is kept. */
  function Lower(s: string): (r: string)
    ensures |r| == |s|
    ensures forall k :: 0 <= k < |s| ==> r[k] == LowerChar(s[k])
  {
    seq(|s|, k requires 0 <= k < |s| => LowerChar(s[k]))
  }

  /** `s.upper()` on ASCII and basic Cyrillic letters. */
  function Upper(s: string): (r: string)
    ensures |r| == |s|
    ensures forall k :: 0 <= k < |s| ==> r[k] == UpperChar(s[k])
  {
    seq(|s|, k requires 0 <= k < |s| => UpperChar(s[k]))
  }

  lemma LowerIdempotent(s: string)
    ensures Lower(Lower(s)) == Lower(s)
  {
    forall k | 0 <= k < |s|
      ensures Lower(Lower(s))[k] == Lower(s)[k]
    {
      var c := s[k];
      assert LowerChar(LowerChar(c)) == LowerChar(c);
    }
  }

  // ---------------------------------------------------------------------------
  // Stripping

  /** Number of leading characters satisfying `p`. */
  function LeadingRun(s: string, p: char -> bool): (r: nat)
    ensures r <= |s|
    ensures AllSatisfy(s[..r], p)
    ensures r < |s| ==> !p(s[r])
  {
    if |s| == 0 || !p(s[0]) then 0
    else
      var k := LeadingRun(s[1..], p);
      assert s[1..][..k] == s[1..k + 1];
      k + 1
  }

  /** Number of trailing characters satisfying `p`. */
  function TrailingRun(s: string, p: char -> bool): (r: nat)
    ensures r <= |s|
    ensures AllSatisfy(s[|s| - r..], p)
    ensures r < |s| ==> !p(s[|s| - r - 1])
  {
    if |s| == 0 || !p(s[|s| - 1]) then 0
    else
      var k := TrailingRun(s[..|s| - 1], p);
      assert s[..|s| - 1][|s| - 1 - k..] == s[|s| - 1 - k..|s| - 1];
      k + 1
  }

  /** `s.lstrip(chars)` where `p` recognises the stripped characters. */
  function LStripBy(s: string, p: char -> bool): (r: string)
    ensures r == s[LeadingRun(s, p)..]
    ensures |r| > 0 ==> !p(r[0])
  {
    s[LeadingRun(s, p)..]
  }

  /** `s.rstrip(chars)` where `p` recognises the stripped characters. */
  function RStripBy(s: string, p: char -> bool): (r: string)
    ensures r == s[..|s| - TrailingRun(s, p)]
    ensures |r| > 0 ==> !p(r[|r| - 1])
  {
    s[..|s| - TrailingRun(s, p)]
  }

  /** `s.strip(chars)`: both ends. */
  function StripBy(s: string, p: char -> bool): (r: string)
    ensures |r| <= |s| - LeadingRun(s, p)
    ensures r == s[LeadingRun(s, p)..LeadingRun(s, p) + |r|]
    ensures |r| > 0 ==> !p(r[0]) && !p(r[|r| - 1])
    ensures r == [] <==> AllSatisfy(s, p)
  {
    var L := LeadingRun(s, p);
    var T := TrailingRun(s[L..], p);
    StripByEmpty(s, p);
    s[L..|s| - T]
  }

  lemma StripByEmpty(s: string, p: char -> bool)
    ensures var L := LeadingRun(s, p);
      L == |s| - TrailingRun(s[L..], p) <==> AllSatisfy(s, p)
  {
    var L := LeadingRun(s, p);
    var t := s[L..];
    var T := TrailingRun(t, p);
    if T == |t| {
      assert t[|t| - T..] == t;
      AllOfParts(s, p, L);
    }
  }

  lemma AllOfParts(s: string, p: char -> bool, n: nat)
    requires n <= |s|
    requires AllSatisfy(s[..n], p) && AllSatisfy(s[n..], p)
    ensures AllSatisfy(s, p)
  {
    assert forall k :: 0 <= k < n ==> s[..n][k] == s[k];
    assert forall k :: n <= k < |s| ==> s[n..][k - n] == s[k];
  }

  /** Nothing to strip at either end leaves the string as it is. */
  lemma StripByOfClean(s: string, p: char -> bool)
    requires |s| > 0 ==> !p(s[0]) && !p(s[|s| - 1])
    ensures StripBy(s, p) == s
  {
    if |s| > 0 {
      assert LeadingRun(s, p) == 0;
      assert TrailingRun(s, p) == 0;
    }
  }

  /** `s.strip()`. */
  function Strip(s: string): (r: string)
    ensures |r| <= |s|
    ensures r == [] <==> IsBlank(s)
    ensures IsStripped(r)
  {
    StripBy(s, IsSpace)
  }

  /** `s.rstrip()`. */
  function RStrip(s: string): string {
    RStripBy(s, IsSpace)
  }

  predicate IsStripped(s: string) {
    |s| > 0 ==> !IsSpace(s[0]) && !IsSpace(s[|s| - 1])
  }

  lemma StripOfStripped(s: string)
    requires IsStripped(s)
    ensures Strip(s) == s
  {
    if |s| > 0 {
      assert LeadingRun(s, IsSpace) == 0;
      assert TrailingRun(s, IsSpace) == 0;
    }
  }

  lemma StripIdempotent(s: string)
    ensures Strip(Strip(s)) == Strip(s)
  {
    StripOfStripped(Strip(s));
  }

  /** A stripped string is a contiguous piece of the original, so it has no character the original lacks. */
  lemma StripKeepsAbsence(s: string, p: char -> bool)
    requires NoneSatisfy(s, p)
    ensures NoneSatisfy(Strip(s), p)
  {
    var r := Strip(s);
    var i := LeadingRun(s, IsSpace);
    forall k | 0 <= k < |r|
      ensures !p(r[k])
    {
      assert r[k] == s[i + k];
    }
  }

  // ---------------------------------------------------------------------------
  // Splitting and joining

  predicate IsWord(w: string) {
    |w| > 0 && NoneSatisfy(w, IsSpace)
  }

  /** `s.split()`: the maximal runs of non-whitespace characters, in order. */
  function Words(s: string): (r: seq<string>)
    ensures forall k :: 0 <= k < |r| ==> IsWord(r[k])
    decreases |s|
  {
    if |s| == 0 then []
    else if IsSpace(s[0]) then Words(s[1..])
    else
      var n := FindFirst(s, IsSpace);
      [s[..n]] + Words(s[n..])
  }

  /** `sep.join(parts)`. */
  function JoinWith(sep: string, parts: seq<string>): string
  {
    if |parts| == 0 then ""
    else if |parts| == 1 then parts[0]
    else parts[0] + sep + JoinWith(sep, parts[1..])
  }

  lemma WordsOfLeadingSpace(s: string)
    requires |s| > 0 && IsSpace(s[0])
    ensures Words(s) == Words(s[1..])
  {
  }

  /** Joining words with single spaces and splitting again gives the same words back. */
  lemma {:induction false} WordsOfJoin(ws: seq<string>)
    requires forall k :: 0 <= k < |ws| ==> IsWord(ws[k])
    ensures Words(JoinWith(" ", ws)) == ws
    decreases |ws|
  {
    if |ws| == 0 {
    } else if |ws| == 1 {
      var w := ws[0];
      FindFirstIsFirst(w, IsSpace, |w|);
      assert w[..|w|] == w;
      assert w[|w|..] == [];
    } else {
      var w := ws[0];
      var rest := JoinWith(" ", ws[1..]);
      var s := w + " " + rest;
      assert JoinWith(" ", ws) == s;
      assert s[..|w|] == w;
      FindFirstIsFirst(s, IsSpace, |w|);
      assert s[..|w|] == w;
      assert s[|w|..] == " " + rest;
      WordsOfLeadingSpace(" " + rest);
      assert (" " + rest)[1..] == rest;
      WordsOfJoin(ws[1..]);
      assert Words(s) == [w] + Words(s[|w|..]);
    }
  }

  /** `s.split()` is empty exactly when `s` is blank. */
  lemma {:induction false} WordsEmptyIffBlank(s: string)
    ensures Words(s) == [] <==> IsBlank(s)
    decreases |s|
  {
    if |s| > 0 && IsSpace(s[0]) {
      WordsEmptyIffBlank(s[1..]);
      assert forall k :: 1 <= k < |s| ==> s[k] == s[1..][k - 1];
    }
  }

  lemma JoinOfWordsEmpty(ws: seq<string>)
    requires forall k :: 0 <= k < |ws| ==> IsWord(ws[k])
    ensures JoinWith(" ", ws) == "" <==> ws == []
  {
    if |ws| > 1 {
      assert JoinWith(" ", ws) == ws[0] + " " + JoinWith(" ", ws[1..]);
    }
  }

  /** `s.split(sep)` for a one-character separator: never empty, pieces free of `sep`. */
  function SplitOn(s: string, sep: char): (r: seq<string>)
    ensures |r| >= 1
    ensures forall k :: 0 <= k < |r| ==> sep !in r[k]
    decreases |s|
  {
    var i := FindFirst(s, c => c == sep);
    if i == |s| then
      assert s[..i] == s;
      [s]
    else
      [s[..i]] + SplitOn(s[i + 1..], sep)
  }

  /** Joining the pieces of `split(sep)` with `sep` restores the string. */
  lemma {:induction false} JoinOfSplit(s: string, sep: char)
    ensures JoinWith([sep], SplitOn(s, sep)) == s
    decreases |s|
  {
    var i := FindFirst(s, c => c == sep);
    if i == |s| {
      assert s[..i] == s;
    } else {
      JoinOfSplit(s[i + 1..], sep);
      var tail := SplitOn(s[i + 1..], sep);
      assert SplitOn(s, sep) == [s[..i]] + tail;
      assert s == s[..i] + [sep] + s[i + 1..];
    }
  }

  /** Splitting at `sep` undoes joining with `sep` when no piece contains it. */
  lemma {:induction false} SplitOfJoin(parts: seq<string>, sep: char)
    requires |parts| >= 1
    requires forall k :: 0 <= k < |parts| ==> sep !in parts[k]
    ensures SplitOn(JoinWith([sep], parts), sep) == parts
    decreases |parts|
  {
    var p := parts[0];
    if |parts| == 1 {
      FindFirstIsFirst(p, c => c == sep, |p|);
      assert p[..|p|] == p;
    } else {
      var rest := JoinWith([sep], parts[1..]);
      var s := p + [sep] + rest;
      assert JoinWith([sep], parts) == s;
      assert s[..|p|] == p;
      FindFirstIsFirst(s, c => c == sep, |p|);
      assert s[|p| + 1..] == rest;
      SplitOfJoin(parts[1..], sep);
      assert parts == [p] + parts[1..];
    }
  }

  /** `" ".join(s.split())`: every whitespace run becomes one space, none at either end. */
  function CollapseSpaces(s: string): (r: string)
    ensures Words(r) == Words(s)
    ensures NoneSatisfy(r, c => IsSpace(c) && c != ' ')
    ensures r == "" <==> IsBlank(s)
  {
    var ws := Words(s);
    WordsOfJoin(ws);
    JoinOfWordsEmpty(ws);
    WordsEmptyIffBlank(s);
    JoinOfWordsOnlySpaces(ws);
    JoinWith(" ", ws)
  }

  lemma {:induction false} JoinOfWordsOnlySpaces(ws: seq<string>)
    requires forall k :: 0 <= k < |ws| ==> IsWord(ws[k])
    ensures NoneSatisfy(JoinWith(" ", ws), c => IsSpace(c) && c != ' ')
    decreases |ws|
  {
    if |ws| > 1 {
      JoinOfWordsOnlySpaces(ws[1..]);
      var j := ws[0] + " " + JoinWith(" ", ws[1..]);
      assert JoinWith(" ", ws) == j;
      forall k | 0 <= k < |j|
        ensures !(IsSpace(j[k]) && j[k] != ' ')
      {
        if k > |ws[0]| {
          assert j[k] == JoinWith(" ", ws[1..])[k - |ws[0]| - 1];
        }
      }
    }
  }

  /** `q in t` for strings. */
  function Contains(t: string, q: string): bool
    decreases |t|
  {
    if q <= t then true
    else if |t| == 0 then false
    else Contains(t[1..], q)
  }

  /** The positional reading of `q in t`. */
  predicate OccursAt(t: string, q: string, i: int) {
    0 <= i <= |t| && q <= t[i..]
  }

  lemma {:induction false} ContainsIffOccurs(t: string, q: string)
    ensures Contains(t, q) <==> exists i :: OccursAt(t, q, i)
    decreases |t|
  {
    assert t[0..] == t;
    if q <= t {
      assert OccursAt(t, q, 0);
    } else if |t| > 0 {
      ContainsIffOccurs(t[1..], q);
      assert forall i :: 1 <= i <= |t| ==> t[1..][i - 1..] == t[i..];
      if Contains(t[1..], q) {
        var i :| OccursAt(t[1..], q, i);
        assert OccursAt(t, q, i + 1);
      } else {
        assert forall i :: OccursAt(t, q, i) ==> i >= 1 && OccursAt(t[1..], q, i - 1);
      }
    }
  }

  /** `s.count(k)`: non-overlapping occurrences, scanning left to right. */
  function Count(s: string, k: string): nat
    decreases |s|
  {
    if |k| == 0 then |s| + 1
    else if |s| < |k| then 0
    else if k <= s then 1 + Count(s[|k|..], k)
    else Count(s[1..], k)
  }

  lemma {:induction false} ContainsSuffix(t: string, q: string, n: nat)
    requires n <= |t|
    requires Contains(t[n..], q)
    ensures Contains(t, q)
    decreases n
  {
    if n > 0 {
      if !(q <= t) {
        assert t[1..][n - 1..] == t[n..];
        ContainsSuffix(t[1..], q, n - 1);
      }
    }
  }

  /** A keyword is counted at least once exactly when it occurs. */
  lemma {:induction false} CountPositiveIffContains(s: string, k: string)
    requires |k| > 0
    ensures Count(s, k) > 0 <==> Contains(s, k)
    decreases |s|
  {
    if |s| < |k| {
      NotContainsShort(s, k);
    } else if k <= s {
    } else {
      CountPositiveIffContains(s[1..], k);
    }
  }

  lemma {:induction false} NotContainsShort(s: string, k: string)
    requires |s| < |k|
    ensures !Contains(s, k)
    decreases |s|
  {
    if |s| > 0 {
      NotContainsShort(s[1..], k);
    }
  }

  lemma MulSucc(c: nat, n: nat)
    ensures (1 + c) * n == n + c * n
  {
  }

  /** Occurrences counted by `count` do not overlap: together they fit in the string. */
  lemma {:induction false} CountFits(s: string, k: string)
    requires |k| > 0
    ensures Count(s, k) * |k| <= |s|
    decreases |s|
  {
    if |s| < |k| {
    } else if k <= s {
      var c := Count(s[|k|..], k);
      CountFits(s[|k|..], k);
      assert Count(s, k) == 1 + c;
      MulSucc(c, |k|);
    } else {
      CountFits(s[1..], k);
      assert Count(s, k) == Count(s[1..], k);
    }
  }

  /** `s.splitlines()`: pieces between line boundaries, `\r\n` counting as one, no trailing empty piece. */
  function Lines(s: string): (r: seq<string>)
    ensures forall k :: 0 <= k < |r| ==> NoneSatisfy(r[k], IsLineBreak)
    decreases |s|
  {
    if |s| == 0 then []
    else
      var i := FindFirst(s, IsLineBreak);
      if i == |s| then
        assert s[..i] == s;
        [s]
      else
        var skip := if s[i] == '\r' && i + 1 < |s| && s[i + 1] == '\n' then 2 else 1;
        [s[..i]] + Lines(s[i + skip..])
  }

  /** `"\n".join(parts).splitlines()` gives the parts back when none is empty or holds a line break. */
  lemma {:induction false} LinesOfJoin(parts: seq<string>)
    requires forall k :: 0 <= k < |parts| ==> parts[k] != "" && NoneSatisfy(parts[k], IsLineBreak)
    ensures Lines(JoinWith("\n", parts)) == parts
    decreases |parts|
  {
    if |parts| == 1 {
      FindFirstIsFirst(parts[0], IsLineBreak, |parts[0]|);
      assert parts[0][..|parts[0]|] == parts[0];
    } else if |parts| > 1 {
      var rest := JoinWith("\n", parts[1..]);
      var s := parts[0] + "\n" + rest;
      assert s[..|parts[0]|] == parts[0];
      FindFirstIsFirst(s, IsLineBreak, |parts[0]|);
      assert s[|parts[0]| + 1..] == rest;
      LinesOfJoin(parts[1..]);
    }
  }

  /** Python's `s[:n]`, including a negative `n` counted from the end. */
  function SliceTo(s: string, n: int): (r: string)
    ensures n >= 0 ==> |r| == if n < |s| then n else |s|
    ensures r <= s
  {
    if n >= 0 then (if n < |s| then s[..n] else s)
    else if |s| + n > 0 then s[..|s| + n]
    else []
  }

  /** `[f(p) for p in parts if f(p)]`: the non-empty images, in order. */
  function MapNonEmpty(parts: seq<string>, f: string -> string): (r: seq<string>)
    ensures |r| <= |parts|
    decreases |parts|
  {
    if |parts| == 0 then []
    else
      var rest := MapNonEmpty(parts[1..], f);
      if f(parts[0]) != "" then [f(parts[0])] + rest else rest
  }

  /** The items of `MapNonEmpty(parts, f)` are exactly the non-empty images of the parts. */
  lemma {:induction false} MapNonEmptyMembers(parts: seq<string>, f: string -> string)
    ensures forall x :: x in MapNonEmpty(parts, f) ==> x != "" && exists i :: 0 <= i < |parts| && f(parts[i]) == x
    ensures forall i :: 0 <= i < |parts| && f(parts[i]) != "" ==> f(parts[i]) in MapNonEmpty(parts, f)
    decreases |parts|
  {
    if |parts| > 0 {
      var rest := MapNonEmpty(parts[1..], f);
      MapNonEmptyMembers(parts[1..], f);
      forall x | x in rest
        ensures exists i :: 0 <= i < |parts| && f(parts[i]) == x
      {
        var i :| 0 <= i < |parts[1..]| && f(parts[1..][i]) == x;
        assert parts[i + 1] == parts[1..][i];
      }
      forall i | 1 <= i < |parts| && f(parts[i]) != ""
        ensures f(parts[i]) in rest
      {
        assert parts[1..][i - 1] == parts[i];
      }
    }
  }

  /** `[p.strip() for p in parts if p.strip()]`: the stripped non-blank items, in order. */
  function StrippedNonBlank(parts: seq<string>): (r: seq<string>)
    ensures |r| <= |parts|
  {
    MapNonEmpty(parts, Strip)
  }

  /** The items of `StrippedNonBlank(parts)` are the strips of the non-blank parts; each is non-empty and stripped. */
  lemma StrippedNonBlankMembers(parts: seq<string>)
    ensures forall k :: 0 <= k < |StrippedNonBlank(parts)| ==>
      StrippedNonBlank(parts)[k] != "" && IsStripped(StrippedNonBlank(parts)[k])
    ensures forall k :: 0 <= k < |StrippedNonBlank(parts)| ==>
      exists i :: 0 <= i < |parts| && StrippedNonBlank(parts)[k] == Strip(parts[i])
    ensures forall i :: 0 <= i < |parts| && !IsBlank(parts[i]) ==> Strip(parts[i]) in StrippedNonBlank(parts)
  {
    var r := StrippedNonBlank(parts);
    MapNonEmptyMembers(parts, Strip);
    forall k | 0 <= k < |r|
      ensures r[k] != "" && IsStripped(r[k])
      ensures exists i :: 0 <= i < |parts| && r[k] == Strip(parts[i])
    {
      assert r[k] in r;
      var i :| 0 <= i < |parts| && Strip(parts[i]) == r[k];
    }
  }

  /** The items left once the empty ones are dropped (`[p for p in parts if p]`). */
  function NonEmpty(parts: seq<string>): (r: seq<string>)
    ensures |r| <= |parts|
    ensures forall k :: 0 <= k < |r| ==> r[k] != "" && r[k] in parts
    ensures forall i :: 0 <= i < |parts| && parts[i] != "" ==> parts[i] in r
    decreases |parts|
  {
    if |parts| == 0 then []
    else
      var rest := NonEmpty(parts[1..]);
      assert forall i :: 1 <= i < |parts| ==> parts[i] == parts[1..][i - 1];
      if parts[0] != "" then [parts[0]] + rest else rest
  }

  predicate IsDigit(c: char) {
    '0' <= c <= '9'
  }

  /** `str(n)` for a natural number: its decimal digits, most significant first. */
  function Decimal(n: nat): (r: string)
    ensures |r| > 0 && AllSatisfy(r, IsDigit)
    ensures |r| > 1 ==> r[0] != '0'
  {
    var d := ['0' + (n % 10) as char];
    if n < 10 then d else Decimal(n / 10) + d
  }

  /** `int(s)` for a string of decimal digits. */
  function DecimalValue(s: string): (r: nat)
    requires AllSatisfy(s, IsDigit)
  {
    if |s| == 0 then 0
    else DecimalValue(s[..|s| - 1]) * 10 + (s[|s| - 1] - '0') as nat
  }

  /** Reading back the digits of `str(n)` gives `n`. */
  lemma {:induction false} DecimalRoundTrip(n: nat)
    ensures DecimalValue(Decimal(n)) == n
  {
    var d := ['0' + (n % 10) as char];
    if n >= 10 {
      DecimalRoundTrip(n / 10);
      var r := Decimal(n / 10) + d;
      assert r[..|r| - 1] == Decimal(n / 10);
    }
  }
}
