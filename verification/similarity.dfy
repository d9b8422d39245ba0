/**
 * The two relevance scores behind the session searches. The summarization service
 * takes the larger of a sequence-matcher ratio and the share of query tokens found
 * in the session; the translation service scores a substring hit as 1.0 and
 * otherwise the share of query tokens found.
 */
module Similarity {
  import opened Strings

  /** A value of difflib's `SequenceMatcher.ratio()`: a real in [0, 1]. */
  type UnitReal = r: real | 0.0 <= r <= 1.0

  function Max(a: real, b: real): real {
    if a >= b then a else b
  }

  /** The distinct tokens of a word list. */
  function TokenSet(ws: seq<string>): (r: set<string>)
    ensures forall w :: w in r <==> w in ws
  {
    set k | 0 <= k < |ws| :: ws[k]
  }

  lemma {:induction false} SubsetCard<T>(a: set<T>, b: set<T>)
    requires a <= b
    ensures |a| <= |b|
    decreases b
  {
    if b != {} {
      var x :| x in b;
      SubsetCard(a - {x}, b - {x});
    }
  }

  lemma StrictSubsetCard<T>(a: set<T>, b: set<T>)
    requires a < b
    ensures |a| < |b|
  {
    assert !(b <= a);
    var x :| x in b && x !in a;
    SubsetCard(a, b - {x});
  }

  /** `len(have & want) / len(want)`: the share of `want` found in `have`. */
  function Overlap(have: set<string>, want: set<string>): (r: real)
    requires want != {}
    ensures 0.0 <= r <= 1.0
    ensures r == 1.0 <==> want <= have
    ensures r > 0.0 <==> have * want != {}
  {
    IntersectionCard(have, want);
    |have * want| as real / |want| as real
  }

  lemma IntersectionCard(have: set<string>, want: set<string>)
    ensures |have * want| <= |want|
    ensures |have * want| == |want| <==> want <= have
    ensures |have * want| > 0 <==> have * want != {}
  {
    SubsetCard(have * want, want);
    assert want <= have ==> have * want == want;
    if have * want != want {
      StrictSubsetCard(have * want, want);
    }
  }

  /** `" ".join(value.lower().split())`: lower case, whitespace runs collapsed to one space. */
  function NormalizeText(v: string): (r: string)
    ensures r == "" <==> IsBlank(v)
    ensures Words(r) == Words(Lower(v))
  {
    assert IsBlank(Lower(v)) <==> IsBlank(v);
    CollapseSpaces(Lower(v))
  }

  /** The summarization service's `_match_score(text_blob, query)`. */
  function MatchScore(blob: string, query: string, ratio: (string, string) -> UnitReal): (r: real)
    ensures 0.0 <= r <= 1.0
  {
    var nb := NormalizeText(blob);
    var nq := NormalizeText(query);
    if nb == "" || nq == "" then 0.0
    else
      var bt := TokenSet(Words(nb));
      var qt := TokenSet(Words(nq));
      if qt == {} then 0.0 else Max(ratio(nb, nq), Overlap(bt, qt))
  }

  /**
   * A blank blob or query scores 0; otherwise the score is the larger of the
   * matcher ratio and the share of the query's lower-cased words that are words
   * of the blob.
   */
  lemma MatchScoreSpec(blob: string, query: string, ratio: (string, string) -> UnitReal)
    ensures IsBlank(blob) || IsBlank(query) ==> MatchScore(blob, query, ratio) == 0.0
    ensures !IsBlank(blob) && !IsBlank(query) ==>
      && TokenSet(Words(Lower(query))) != {}
      && MatchScore(blob, query, ratio)
         == Max(ratio(NormalizeText(blob), NormalizeText(query)),
                Overlap(TokenSet(Words(Lower(blob))), TokenSet(Words(Lower(query)))))
  {
    if !IsBlank(query) {
      WordsEmptyIffBlank(Lower(query));
      assert !IsBlank(Lower(query));
      var w := Words(Lower(query))[0];
      assert w in TokenSet(Words(Lower(query)));
    }
  }

  lemma TokensMeet(qws: seq<string>, tws: seq<string>)
    ensures (exists w :: w in qws && w in tws) <==> TokenSet(tws) * TokenSet(qws) != {}
  {
    if exists w :: w in qws && w in tws {
      var w :| w in qws && w in tws;
      assert w in TokenSet(tws) * TokenSet(qws);
    }
    if TokenSet(tws) * TokenSet(qws) != {} {
      var w :| w in TokenSet(tws) * TokenSet(qws);
      assert w in qws && w in tws;
    }
  }

  /** A positive score needs both sides non-blank and either a positive ratio or a shared word. */
  lemma MatchScorePositive(blob: string, query: string, ratio: (string, string) -> UnitReal)
    ensures MatchScore(blob, query, ratio) > 0.0 <==>
      && !IsBlank(blob) && !IsBlank(query)
      && (|| ratio(NormalizeText(blob), NormalizeText(query)) > 0.0
          || exists w :: w in Words(Lower(blob)) && w in Words(Lower(query)))
  {
    MatchScoreSpec(blob, query, ratio);
    TokensMeet(Words(Lower(query)), Words(Lower(blob)));
  }

  /** The translation service's `_match_score(text, query)`. */
  function ChatMatchScore(text: string, query: string): (r: real)
    ensures 0.0 <= r <= 1.0
  {
    if text == "" || query == "" then 0.0
    else
      var q := Strip(Lower(query));
      var t := Lower(text);
      if Contains(t, q) then 1.0
      else
        var qs := TokenSet(Words(q));
        var ts := TokenSet(Words(t));
        // `inter / max(len(qs), 1)` is 0 when the query has no tokens
        if qs == {} then 0.0 else Overlap(ts, qs)
  }

  /** Empty text or query scores 0; a substring hit of the stripped lower-cased query scores 1. */
  lemma ChatMatchScoreEdges(text: string, query: string)
    ensures text == "" || query == "" ==> ChatMatchScore(text, query) == 0.0
    ensures text != "" && query != "" && Contains(Lower(text), Strip(Lower(query))) ==>
      ChatMatchScore(text, query) == 1.0
  {
  }

  /** Otherwise the score is positive exactly when some query word is a word of the text. */
  lemma ChatMatchScorePositive(text: string, query: string)
    ensures ChatMatchScore(text, query) > 0.0 <==>
      && text != "" && query != ""
      && (|| Contains(Lower(text), Strip(Lower(query)))
          || exists w :: w in Words(Strip(Lower(query))) && w in Words(Lower(text)))
  {
    var q := Strip(Lower(query));
    var t := Lower(text);
    TokensMeet(Words(q), Words(t));
    if text != "" && query != "" && !Contains(t, q) {
      var qs := TokenSet(Words(q));
      var ts := TokenSet(Words(t));
      assert ChatMatchScore(text, query) == if qs == {} then 0.0 else Overlap(ts, qs);
    }
  }

  /** A query all of whose words are words of the text scores 1. */
  lemma ChatMatchScoreAllWords(text: string, query: string)
    requires text != "" && query != ""
    requires Words(Strip(Lower(query))) != []
    requires forall w :: w in Words(Strip(Lower(query))) ==> w in Words(Lower(text))
    ensures ChatMatchScore(text, query) == 1.0
  {
    assert Words(Strip(Lower(query)))[0] in TokenSet(Words(Strip(Lower(query))));
  }

  /** A whitespace-only query is a substring of any text: the scorer alone would rate it 1. */
  lemma ChatBlankQueryScoresOne(text: string, query: string)
    requires text != "" && query != "" && IsBlank(query)
    ensures ChatMatchScore(text, query) == 1.0
  {
    assert IsBlank(Lower(query));
    assert Strip(Lower(query)) == [];
    assert [] <= Lower(text);
  }
}
