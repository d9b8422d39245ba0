/**
 * The rule-based text utilities of the summarization service: de-duplicating
 * cleaned values, keyword polarity and toxicity, keyword-based topic
 * classification with its dispatch to the model-backed classifiers, and the
 * sentence-based short and full summaries.
 */
module TextProcessing {
  import opened Wrappers
  import opened Strings
  import opened Seqs
  import opened Sorting

  // ---------------------------------------------------------------------------
  // `_unique`

  /**
   * The cleaned values of `_unique`, as a reference: each value cleaned by `f`,
   * the empty results dropped, each result kept at its first occurrence.
   */
  function UniqueBy(values: seq<string>, f: string -> string): seq<string>
    decreases |values|
  {
    if |values| == 0 then []
    else
      var prev := UniqueBy(values[..|values| - 1], f);
      var c := f(values[|values| - 1]);
      if c != "" && c !in prev then prev + [c] else prev
  }

  /** `_unique(values)`, the loop over the values with the list of values seen so far. */
  method Unique(values: seq<string>) returns (result: seq<string>)
    ensures result == UniqueBy(values, Strip)
  {
    result := [];
    var i := 0;
    while i < |values|
      invariant 0 <= i <= |values|
      invariant result == UniqueBy(values[..i], Strip)
    {
      ghost var seen := values[..i + 1];
      assert seen[..i] == values[..i] && seen[i] == values[i];
      var cleaned := Strip(values[i]);
      assert UniqueBy(seen, Strip) == if cleaned != "" && cleaned !in result then result + [cleaned] else result;
      if cleaned != "" && cleaned !in result {
        result := result + [cleaned];
      }
      i := i + 1;
    }
    assert values[..i] == values;
  }

  /** The kept values are exactly the non-empty cleanings of the inputs. */
  lemma {:induction false} UniqueByMembers(values: seq<string>, f: string -> string)
    ensures forall x :: x in UniqueBy(values, f) ==> x != "" && exists a :: 0 <= a < |values| && f(values[a]) == x
    ensures forall a :: 0 <= a < |values| && f(values[a]) != "" ==> f(values[a]) in UniqueBy(values, f)
    decreases |values|
  {
    if |values| > 0 {
      var init := values[..|values| - 1];
      UniqueByMembers(init, f);
      assert forall a :: 0 <= a < |init| ==> init[a] == values[a];
    }
  }

  /** No value is kept twice. */
  lemma {:induction false} UniqueByDistinct(values: seq<string>, f: string -> string)
    ensures Distinct(UniqueBy(values, f))
    decreases |values|
  {
    if |values| > 0 {
      UniqueByDistinct(values[..|values| - 1], f);
    }
  }

  /**
   * The kept values are in the order of their first occurrences: wherever the
   * later one of two kept values comes from, the earlier one already came
   * from an input before it.
   */
  lemma {:induction false} UniqueByOrder(values: seq<string>, f: string -> string)
    ensures forall i, j, b ::
      0 <= i < j < |UniqueBy(values, f)| && 0 <= b < |values| && f(values[b]) == UniqueBy(values, f)[j] ==>
        exists a :: 0 <= a < b && f(values[a]) == UniqueBy(values, f)[i]
    decreases |values|
  {
    if |values| > 0 {
      var n := |values| - 1;
      var init := values[..n];
      var prev := UniqueBy(init, f);
      var r := UniqueBy(values, f);
      UniqueByOrder(init, f);
      UniqueByMembers(init, f);
      assert forall a :: 0 <= a < n ==> init[a] == values[a];
      forall i, j, b | 0 <= i < j < |r| && 0 <= b < |values| && f(values[b]) == r[j]
        ensures exists a :: 0 <= a < b && f(values[a]) == r[i]
      {
        assert r[i] == prev[i] && r[i] in prev;
        var a0 :| 0 <= a0 < n && f(init[a0]) == r[i];
        if j == |prev| {
          // r[j] is new: no earlier input cleans to it
          assert r[j] !in prev;
          assert f(values[a0]) == r[i];
        } else if b == n {
          assert f(values[a0]) == r[i];
        } else {
          assert r[j] == prev[j];
          assert f(init[b]) == prev[j];
          assert exists a :: 0 <= a < b && f(init[a]) == prev[i];
          var a :| 0 <= a < b && f(init[a]) == prev[i];
          assert f(values[a]) == r[i];
        }
      }
    }
  }

  /**
   * What `_unique` promises: stripped, non-empty, pairwise distinct values,
   * exactly the strips of the non-blank inputs, in the order of first occurrence.
   */
  lemma UniqueSpec(values: seq<string>)
    ensures var r := UniqueBy(values, Strip);
      && Distinct(r)
      && (forall k :: 0 <= k < |r| ==> r[k] != "" && IsStripped(r[k]))
      && (forall x :: x in r ==> exists a :: 0 <= a < |values| && Strip(values[a]) == x)
      && (forall a :: 0 <= a < |values| && !IsBlank(values[a]) ==> Strip(values[a]) in r)
      && (forall i, j, b :: 0 <= i < j < |r| && 0 <= b < |values| && Strip(values[b]) == r[j] ==>
            exists a :: 0 <= a < b && Strip(values[a]) == r[i])
  {
    var r := UniqueBy(values, Strip);
    UniqueByMembers(values, Strip);
    UniqueByDistinct(values, Strip);
    UniqueByOrder(values, Strip);
    forall k | 0 <= k < |r|
      ensures r[k] != "" && IsStripped(r[k])
    {
      assert r[k] in r;
      var a :| 0 <= a < |values| && Strip(values[a]) == r[k];
    }
  }

  // ---------------------------------------------------------------------------
  // `analyse_sentiment`

  const PositiveKeywords: seq<string> :=
    ["успех", "рост", "прибыль", "поддерж", "развит", "новый", "стабиль", "сильный", "побед"]

  const NegativeKeywords: seq<string> :=
    ["убыт", "кризис", "паден", "снижен", "негатив", "проблем", "ошиб", "конфликт"]

  const ToxicKeywords: seq<string> :=
    ["дурак", "идиот", "туп", "ругатель", "черт", "ненавижу"]

  predicate NoEmptyKeyword(kws: seq<string>) {
    forall i :: 0 <= i < |kws| ==> |kws[i]| > 0
  }

  /** `sum(lowered.count(k) for k in kws)`. */
  function KeywordScore(lowered: string, kws: seq<string>): nat
    decreases |kws|
  {
    if |kws| == 0 then 0 else Count(lowered, kws[0]) + KeywordScore(lowered, kws[1..])
  }

  /** A keyword score is positive exactly when one of the keywords occurs. */
  lemma {:induction false} KeywordScorePositive(lowered: string, kws: seq<string>)
    requires NoEmptyKeyword(kws)
    ensures KeywordScore(lowered, kws) > 0 <==> exists i :: 0 <= i < |kws| && Contains(lowered, kws[i])
    decreases |kws|
  {
    if |kws| > 0 {
      CountPositiveIffContains(lowered, kws[0]);
      KeywordScorePositive(lowered, kws[1..]);
      if exists i :: 0 <= i < |kws| && Contains(lowered, kws[i]) {
        var i :| 0 <= i < |kws| && Contains(lowered, kws[i]);
        if i > 0 {
          assert kws[1..][i - 1] == kws[i];
        }
      }
      if exists i :: 0 <= i < |kws[1..]| && Contains(lowered, kws[1..][i]) {
        var i :| 0 <= i < |kws[1..]| && Contains(lowered, kws[1..][i]);
        assert kws[i + 1] == kws[1..][i];
      }
    }
  }

  /** `[k for k in kws if k in lowered]`. */
  function KeywordsIn(kws: seq<string>, lowered: string): (r: seq<string>)
    ensures forall k :: 0 <= k < |r| ==> r[k] in kws && Contains(lowered, r[k])
    ensures forall i :: 0 <= i < |kws| && Contains(lowered, kws[i]) ==> kws[i] in r
    decreases |kws|
  {
    if |kws| == 0 then []
    else
      var rest := KeywordsIn(kws[1..], lowered);
      assert forall i :: 1 <= i < |kws| ==> kws[i] == kws[1..][i - 1];
      if Contains(lowered, kws[0]) then [kws[0]] + rest else rest
  }

  /** Positions in the tail of a list without repeats are one less than in the list. */
  lemma IndexOfTail(kws: seq<string>, x: string)
    requires Distinct(kws) && |kws| > 0 && x in kws[1..]
    ensures IndexOf(kws, x) == 1 + IndexOf(kws[1..], x)
  {
    assert x != kws[0];
  }

  predicate InListOrder(kws: seq<string>, r: seq<string>)
    requires forall k :: 0 <= k < |r| ==> r[k] in kws
  {
    forall i, j :: 0 <= i < j < |r| ==> IndexOf(kws, r[i]) < IndexOf(kws, r[j])
  }

  /** Putting the first keyword in front of hits taken from the tail keeps list order. */
  lemma ConsInListOrder(kws: seq<string>, rest: seq<string>)
    requires Distinct(kws) && |kws| > 0
    requires forall k :: 0 <= k < |rest| ==> rest[k] in kws[1..]
    requires InListOrder(kws[1..], rest)
    ensures forall k :: 0 <= k < |rest| ==> rest[k] in kws
    ensures InListOrder(kws, rest)
    ensures InListOrder(kws, [kws[0]] + rest)
  {
    var r := [kws[0]] + rest;
    forall k | 0 <= k < |rest|
      ensures IndexOf(kws, rest[k]) == 1 + IndexOf(kws[1..], rest[k])
    {
      IndexOfTail(kws, rest[k]);
    }
    forall i, j | 0 <= i < j < |r|
      ensures IndexOf(kws, r[i]) < IndexOf(kws, r[j])
    {
      assert r[j] == rest[j - 1];
      if i > 0 {
        assert r[i] == rest[i - 1];
      }
    }
  }

  /** The hits keep the order of the keyword list. */
  lemma {:induction false} KeywordsInOrder(kws: seq<string>, lowered: string)
    requires Distinct(kws)
    ensures InListOrder(kws, KeywordsIn(kws, lowered))
    decreases |kws|
  {
    if |kws| > 0 {
      KeywordsInOrder(kws[1..], lowered);
      ConsInListOrder(kws, KeywordsIn(kws[1..], lowered));
    }
  }

  datatype Polarity = Positive | Negative | Neutral

  /** The result of `analyse_sentiment`, without the floating-point confidence. */
  datatype Sentiment = Sentiment(
    polarity: Polarity,
    positivity: nat,
    negativity: nat,
    hasToxic: bool,
    toxicKeywords: seq<string>)

  function AnalyseSentiment(text: string): (r: Sentiment)
    ensures r.polarity == Positive <==> r.positivity > r.negativity
    ensures r.polarity == Negative <==> r.negativity > r.positivity
    ensures r.polarity == Neutral <==> r.positivity == r.negativity
    ensures r.hasToxic <==> r.toxicKeywords != []
  {
    var lowered := Lower(text);
    var positivity := KeywordScore(lowered, PositiveKeywords);
    var negativity := KeywordScore(lowered, NegativeKeywords);
    var hits := KeywordsIn(ToxicKeywords, lowered);
    var polarity :=
      if positivity > negativity then Positive
      else if negativity > positivity then Negative
      else Neutral;
    Sentiment(polarity, positivity, negativity, hits != [], hits)
  }

  lemma KeywordListsWellFormed()
    ensures NoEmptyKeyword(PositiveKeywords) && NoEmptyKeyword(NegativeKeywords)
    ensures Distinct(ToxicKeywords)
  {
  }

  /**
   * The scores count keyword occurrences in the lower-cased text: a score is
   * positive exactly when one of its keywords occurs, the toxicity flag is set
   * exactly when a toxic keyword occurs, and the reported toxic keywords are the
   * occurring ones in list order.
   */
  lemma SentimentSpec(text: string)
    ensures var r := AnalyseSentiment(text);
      && (r.positivity > 0 <==> exists i :: 0 <= i < |PositiveKeywords| && Contains(Lower(text), PositiveKeywords[i]))
      && (r.negativity > 0 <==> exists i :: 0 <= i < |NegativeKeywords| && Contains(Lower(text), NegativeKeywords[i]))
      && (r.hasToxic <==> exists i :: 0 <= i < |ToxicKeywords| && Contains(Lower(text), ToxicKeywords[i]))
      && (forall k :: k in r.toxicKeywords <==> k in ToxicKeywords && Contains(Lower(text), k))
      && InListOrder(ToxicKeywords, r.toxicKeywords)
  {
    var lowered := Lower(text);
    KeywordListsWellFormed();
    KeywordScorePositive(lowered, PositiveKeywords);
    KeywordScorePositive(lowered, NegativeKeywords);
    KeywordsInOrder(ToxicKeywords, lowered);
    var hits := KeywordsIn(ToxicKeywords, lowered);
    if exists i :: 0 <= i < |ToxicKeywords| && Contains(lowered, ToxicKeywords[i]) {
      var i :| 0 <= i < |ToxicKeywords| && Contains(lowered, ToxicKeywords[i]);
      assert ToxicKeywords[i] in hits;
    }
    if hits != [] {
      assert hits[0] in ToxicKeywords;
    }
  }

  // ---------------------------------------------------------------------------
  // `_heuristic_classification`

  const GeneralTopic := "общая тематика"

  /** `CATEGORY_KEYWORDS.get(name, [])`. */
  function CategoryKeywords(name: string): seq<string> {
    if name == "Экономика" then
      ["банк", "инвест", "контракт", "финанс", "рынок", "выруч", "капитал", "эконом"]
    else if name == "Спорт" then
      ["матч", "команд", "турнир", "гол", "спорт", "игр", "тренер", "спортсмен"]
    else if name == "Путешествия" then
      ["поезд", "тур", "отель", "город", "путешеств", "маршрут", "виза", "авиабил"]
    else []
  }

  /** `CATEGORY_LABELS.get(name) or DEFAULT_LABELS`: the labels offered to the model-backed classifiers. */
  function CategoryLabels(name: string): (r: seq<string>)
    ensures |r| == 5 || r == ["Экономика", "Спорт", "Путешествия"]
  {
    if name == "Экономика" then
      ["инвестиции", "макроэкономика", "рынок капитала", "торговля", "финансовые услуги"]
    else if name == "Спорт" then
      ["футбол", "баскетбол", "хоккей", "олимпийские виды", "киберспорт"]
    else if name == "Путешествия" then
      ["обзор маршрута", "отзыв", "советы", "репортаж", "культура"]
    else ["Экономика", "Спорт", "Путешествия"]
  }

  /** The heuristic verdict, without the floating-point confidence. */
  datatype Heuristic = Heuristic(predictedLabel: string, matchedKeywords: seq<string>)

  function HeuristicClassification(text: string, category: string): (r: Heuristic)
    ensures |r.matchedKeywords| > 0
  {
    var matches := KeywordsIn(CategoryKeywords(category), Lower(text));
    var matched := if matches == [] then [GeneralTopic] else SortStrings(Dedup(matches));
    assert matches != [] ==> matches[0] in Dedup(matches);
    Heuristic(if matches != [] then category else matched[0], matched)
  }

  /** The matched keywords, when some keyword occurs: exactly the occurring ones, sorted. */
  lemma MatchedKeywords(kws: seq<string>, lowered: string)
    ensures StrSorted(SortStrings(Dedup(KeywordsIn(kws, lowered))))
    ensures forall k :: k in SortStrings(Dedup(KeywordsIn(kws, lowered))) <==> k in kws && Contains(lowered, k)
  {
    var matches := KeywordsIn(kws, lowered);
    var d := Dedup(matches);
    var sorted := SortStrings(d);
    SortStringsSorted(d);
    forall k
      ensures k in sorted <==> k in kws && Contains(lowered, k)
    {
      assert k in sorted <==> k in multiset(sorted);
      assert k in d <==> k in multiset(d);
      if k in kws && Contains(lowered, k) {
        var i :| 0 <= i < |kws| && kws[i] == k;
        assert k in matches;
      }
      if k in d {
        assert k in matches;
      }
    }
  }

  /** No keyword occurs exactly when nothing matches. */
  lemma NoMatches(kws: seq<string>, lowered: string)
    ensures KeywordsIn(kws, lowered) == [] <==> forall i :: 0 <= i < |kws| ==> !Contains(lowered, kws[i])
  {
    var matches := KeywordsIn(kws, lowered);
    if matches != [] {
      assert matches[0] in kws;
    }
  }

  /**
   * With no keyword of the category in the text the verdict is the general topic;
   * otherwise it is the category, and the matched keywords are exactly the
   * occurring ones, sorted.
   */
  lemma HeuristicSpec(text: string, category: string)
    ensures var r := HeuristicClassification(text, category);
      var kws := CategoryKeywords(category);
      && StrSorted(r.matchedKeywords)
      && ((forall i :: 0 <= i < |kws| ==> !Contains(Lower(text), kws[i])) ==>
            r.predictedLabel == GeneralTopic && r.matchedKeywords == [GeneralTopic])
      && ((exists i :: 0 <= i < |kws| && Contains(Lower(text), kws[i])) ==>
            && r.predictedLabel == category
            && forall k :: k in r.matchedKeywords <==> k in kws && Contains(Lower(text), k))
  {
    var kws := CategoryKeywords(category);
    NoMatches(kws, Lower(text));
    MatchedKeywords(kws, Lower(text));
    if KeywordsIn(kws, Lower(text)) == [] {
      SortStringsSorted([GeneralTopic]);
    }
  }

  /** For a category other than the general topic, the verdict names it exactly when one of its keywords occurs. */
  lemma HeuristicNamesCategory(text: string, category: string)
    requires category != GeneralTopic
    ensures HeuristicClassification(text, category).predictedLabel == category <==>
      exists i :: 0 <= i < |CategoryKeywords(category)| && Contains(Lower(text), CategoryKeywords(category)[i])
  {
    HeuristicSpec(text, category);
  }

  // ---------------------------------------------------------------------------
  // `classify_text`

  datatype Strategy = HeuristicStrategy | OpenAIStrategy | HuggingFaceStrategy

  /**
   * The payload `classify_text` returns, without confidences, raw responses and
   * scores: the request echo, the strategy that produced the verdict, the
   * verdict, the heuristic keywords, the labels offered to a model and the
   * fallback warning.
   */
  datatype Classification = Classification(
    category: string,
    modelType: Option<string>,
    prompt: string,
    strategy: Strategy,
    predictedLabel: string,
    matchedKeywords: seq<string>,
    labels: Option<seq<string>>,
    warning: Option<string>)

  /**
   * The model-backed classifiers. `openai(text, category, prompt, labels)` yields
   * the `label` field of the model's JSON answer ("" when it is absent or empty)
   * or the message of the exception it raised; `huggingface(text, labels)` yields
   * the candidate labels best first, or the exception message.
   */
  datatype Classifiers = Classifiers(
    openai: (string, string, string, seq<string>) -> Result<string, string>,
    huggingface: (string, seq<string>) -> Result<seq<string>, string>)

  /** The verdict of a model-backed classifier, or the message of its failure. */
  function ModelVerdict(text: string, category: string, modelType: Option<string>, prompt: string, c: Classifiers): (r: Option<Result<(Strategy, string), string>>)
    ensures r.None? <==> modelType != Some("universal") && modelType != Some("pretrained")
    ensures r.Some? && r.value.Ok? ==> r.value.value.0 != HeuristicStrategy
  {
    var labels := CategoryLabels(category);
    if modelType == Some("universal") then
      match c.openai(text, category, prompt, labels)
      case Ok(answer) => Some(Ok((OpenAIStrategy, if answer == "" then category else answer)))
      case Err(e) => Some(Err(e))
    else if modelType == Some("pretrained") then
      match c.huggingface(text, labels)
      case Ok(ranked) => Some(Ok((HuggingFaceStrategy, if ranked == [] then category else ranked[0])))
      case Err(e) => Some(Err(e))
    else None
  }

  function ClassifyText(text: string, category: string, modelType: Option<string>, prompt: string, c: Classifiers): (r: Classification)
    ensures r.category == category && r.modelType == modelType && r.prompt == prompt
    ensures r.matchedKeywords == HeuristicClassification(text, category).matchedKeywords
  {
    var h := HeuristicClassification(text, category);
    var heuristic := Classification(category, modelType, prompt, HeuristicStrategy, h.predictedLabel, h.matchedKeywords, None, None);
    match ModelVerdict(text, category, modelType, prompt, c)
    case None => heuristic
    case Some(Err(e)) => heuristic.(warning := Some(e))
    case Some(Ok((strategy, verdict))) =>
      heuristic.(strategy := strategy, predictedLabel := verdict, labels := Some(CategoryLabels(category)))
  }

  /**
   * The dispatch: the heuristic verdict stands exactly when no model was asked
   * or the model failed, and a warning is recorded exactly when it failed; a
   * model's verdict comes with the labels it was offered.
   */
  lemma ClassifyTextDispatch(text: string, category: string, modelType: Option<string>, prompt: string, c: Classifiers)
    ensures var r := ClassifyText(text, category, modelType, prompt, c);
      var v := ModelVerdict(text, category, modelType, prompt, c);
      && (r.strategy == HeuristicStrategy <==> v.None? || v.value.Err?)
      && (r.strategy == HeuristicStrategy ==>
            r.predictedLabel == HeuristicClassification(text, category).predictedLabel && r.labels.None?)
      && (r.warning.Some? <==> v.Some? && v.value.Err?)
      && (r.warning.Some? ==> r.warning == Some(v.value.error))
      && (r.strategy != HeuristicStrategy ==> r.labels == Some(CategoryLabels(category)))
      && (modelType != Some("universal") && modelType != Some("pretrained") ==>
            r.strategy == HeuristicStrategy && r.warning.None?)
  {
  }

  // ---------------------------------------------------------------------------
  // `_split_sentences`

  predicate IsStop(c: char) {
    c == '.' || c == '!' || c == '?'
  }

  /** Position `i` is where `(?<=[.!?])\s+` can start a match. */
  predicate BreakAt(s: string, i: int) {
    1 <= i < |s| && IsStop(s[i - 1]) && IsSpace(s[i])
  }

  predicate NoBreak(s: string) {
    forall i :: 1 <= i < |s| ==> !BreakAt(s, i)
  }

  /** The first break at or after `i`, or `|s|`. */
  function NextBreak(s: string, i: nat): (r: nat)
    ensures r <= |s|
    ensures r < |s| ==> BreakAt(s, r)
    ensures forall k :: i <= k < r ==> !BreakAt(s, k)
    decreases |s| - i
  {
    if i >= |s| then |s|
    else if BreakAt(s, i) then i
    else NextBreak(s, i + 1)
  }

  /** The end of the whitespace run starting at `j`. */
  function RunEnd(s: string, j: nat): (r: nat)
    requires j <= |s|
    ensures j <= r <= |s|
    ensures forall k :: j <= k < r ==> IsSpace(s[k])
    ensures r < |s| ==> !IsSpace(s[r])
    decreases |s| - j
  {
    if j == |s| || !IsSpace(s[j]) then j else RunEnd(s, j + 1)
  }

  /**
   * `re.split(r"(?<=[.!?])\s+", s)`: the pieces between the whitespace runs that
   * follow a '.', '!' or '?'. No piece holds a break and every piece is made of
   * characters of `s`.
   */
  function Pieces(s: string): (r: seq<string>)
    ensures |r| >= 1
    ensures forall k :: 0 <= k < |r| ==> NoBreak(r[k])
    ensures forall k, m :: 0 <= k < |r| && 0 <= m < |r[k]| ==> r[k][m] in s
    decreases |s|
  {
    var b := NextBreak(s, 1);
    if b == |s| then
      [s]
    else
      var e := RunEnd(s, b);
      var head := s[..b];
      var rest := Pieces(s[e..]);
      assert forall i :: BreakAt(head, i) ==> BreakAt(s, i);
      assert forall k, m :: 0 <= k < |rest| && 0 <= m < |rest[k]| ==> rest[k][m] in s[e..];
      var r := [head] + rest;
      assert forall k :: 1 <= k < |r| ==> r[k] == rest[k - 1];
      r
  }

  /** Every character of `s` other than whitespace lies in some piece. */
  lemma {:induction false} PiecesCover(s: string, m: nat)
    requires m < |s| && !IsSpace(s[m])
    ensures exists k :: 0 <= k < |Pieces(s)| && s[m] in Pieces(s)[k]
    decreases |s|
  {
    var b := NextBreak(s, 1);
    if b == |s| {
      assert Pieces(s)[0] == s;
    } else {
      var e := RunEnd(s, b);
      if m < b {
        assert Pieces(s)[0] == s[..b];
        assert s[m] == s[..b][m];
      } else {
        assert m >= e;
        assert s[m] == s[e..][m - e];
        PiecesCover(s[e..], m - e);
        var k :| 0 <= k < |Pieces(s[e..])| && s[m] in Pieces(s[e..])[k];
        assert Pieces(s)[k + 1] == Pieces(s[e..])[k];
      }
    }
  }

  /**
   * `s[b..a]` is what the pattern consumes between two pieces: a whole
   * whitespace run that follows a '.', '!' or '?'.
   */
  predicate Gap(s: string, b: int, a: int) {
    && 1 <= b < a <= |s|
    && IsStop(s[b - 1])
    && (forall i :: b <= i < a ==> IsSpace(s[i]))
    && (a < |s| ==> !IsSpace(s[a]))
  }

  /** Piece `k` is the slice `s[bounds[k].0..bounds[k].1]`. */
  predicate Sliced(s: string, ps: seq<string>, bounds: seq<(int, int)>) {
    && |bounds| == |ps|
    && forall k :: 0 <= k < |bounds| ==>
         0 <= bounds[k].0 <= bounds[k].1 <= |s| && ps[k] == s[bounds[k].0..bounds[k].1]
  }

  /** Each slice ends before the next one starts. */
  predicate Increasing(bounds: seq<(int, int)>) {
    forall j, k :: 0 <= j < k < |bounds| ==> bounds[j].1 < bounds[k].0
  }

  /** Between each two neighbouring slices lies a `Gap`. */
  predicate Gapped(s: string, bounds: seq<(int, int)>) {
    forall k :: 0 <= k < |bounds| - 1 ==> Gap(s, bounds[k].1, bounds[k + 1].0)
  }

  /**
   * `ps` are the consecutive slices of `s` that `bounds` cut out: the bounds
   * increase, the first starts at 0, the last ends at `|s|`, and a `Gap` lies
   * between each two neighbours.
   */
  predicate SplitAt(s: string, ps: seq<string>, bounds: seq<(int, int)>) {
    && |bounds| == |ps| >= 1
    && bounds[0].0 == 0
    && bounds[|bounds| - 1].1 == |s|
    && Sliced(s, ps, bounds)
    && Increasing(bounds)
    && Gapped(s, bounds)
  }

  /** The bounds moved by `d`. */
  function Shift(bounds: seq<(int, int)>, d: int): (r: seq<(int, int)>)
    ensures |r| == |bounds|
    ensures forall k :: 0 <= k < |r| ==> r[k] == (bounds[k].0 + d, bounds[k].1 + d)
  {
    seq(|bounds|, k requires 0 <= k < |bounds| => (bounds[k].0 + d, bounds[k].1 + d))
  }

  /** Where each of the `Pieces` of `s` starts and ends. */
  function PieceBounds(s: string): (r: seq<(int, int)>)
    ensures |r| == |Pieces(s)|
    decreases |s|
  {
    var b := NextBreak(s, 1);
    if b == |s| then [(0, |s|)]
    else [(0, b)] + Shift(PieceBounds(s[RunEnd(s, b)..]), RunEnd(s, b))
  }

  /** The first break and the run after it form a `Gap`, and the pieces are cut there. */
  lemma FirstGap(s: string)
    requires NextBreak(s, 1) < |s|
    ensures var b := NextBreak(s, 1);
      && Gap(s, b, RunEnd(s, b))
      && Pieces(s) == [s[..b]] + Pieces(s[RunEnd(s, b)..])
      && PieceBounds(s) == [(0, b)] + Shift(PieceBounds(s[RunEnd(s, b)..]), RunEnd(s, b))
  {
    var b := NextBreak(s, 1);
    assert RunEnd(s, b) == RunEnd(s, b + 1);
  }

  /** A list from position `j` on is its element `j` followed by the rest. */
  lemma SuffixCons(ps: seq<string>, j: int)
    requires 0 <= j < |ps|
    ensures ps[j..] == [ps[j]] + ps[j + 1..]
  {
  }

  /** The pieces of `s` are the text up to the first break followed by the pieces after its run. */
  lemma ConsPieces(s: string, b: int, rest: seq<string>)
    requires b == NextBreak(s, 1) < |s|
    requires rest == Pieces(s[RunEnd(s, b)..])
    ensures Pieces(s) == [s[..b]] + rest
  {
    FirstGap(s);
  }

  /** A gap of a suffix is a gap of the whole text, moved by where the suffix starts. */
  lemma GapShift(s: string, e: int, b: int, a: int)
    requires 0 <= e <= |s| && Gap(s[e..], b, a)
    ensures Gap(s, b + e, a + e)
  {
    var t := s[e..];
    forall i | b + e <= i < a + e
      ensures IsSpace(s[i])
    {
      assert s[i] == t[i - e];
    }
    assert s[b + e - 1] == t[b - 1];
    if a + e < |s| {
      assert s[a + e] == t[a];
    }
  }

  /** A gap of the whole text that lies past `e` is a gap of the suffix from `e`. */
  lemma GapUnshift(s: string, e: int, b: int, a: int)
    requires 0 <= e && e < b && Gap(s, b, a)
    ensures Gap(s[e..], b - e, a - e)
  {
    var t := s[e..];
    forall i | b - e <= i < a - e
      ensures IsSpace(t[i])
    {
      assert t[i] == s[i + e];
    }
    assert t[b - e - 1] == s[b - 1];
    if a - e < |t| {
      assert t[a - e] == s[a];
    }
  }

  /** Slices of a suffix, moved by where it starts, are slices of the whole text. */
  lemma SlicedCons(s: string, b: int, e: int, ps: seq<string>, bounds: seq<(int, int)>)
    requires 0 <= b <= e <= |s| && Sliced(s[e..], ps, bounds)
    ensures Sliced(s, [s[..b]] + ps, [(0, b)] + Shift(bounds, e))
  {
    var t := s[e..];
    var ps', bs' := [s[..b]] + ps, [(0, b)] + Shift(bounds, e);
    forall k | 1 <= k < |bs'|
      ensures 0 <= bs'[k].0 <= bs'[k].1 <= |s| && ps'[k] == s[bs'[k].0..bs'[k].1]
    {
      var x, y := bounds[k - 1].0, bounds[k - 1].1;
      assert ps'[k] == ps[k - 1] == t[x..y];
      assert t[x..y] == s[x + e..y + e];
    }
  }

  /** Increasing bounds stay increasing behind a first slice that ends before them. */
  lemma IncreasingCons(b: int, e: int, bounds: seq<(int, int)>)
    requires b < e && Increasing(bounds)
    requires forall k :: 0 <= k < |bounds| ==> 0 <= bounds[k].0
    ensures Increasing([(0, b)] + Shift(bounds, e))
  {
    var bs' := [(0, b)] + Shift(bounds, e);
    forall j, k | 0 <= j < k < |bs'|
      ensures bs'[j].1 < bs'[k].0
    {
      if j > 0 {
        assert bounds[j - 1].1 < bounds[k - 1].0;
      }
    }
  }

  /** The gaps of a suffix, moved, and the gap in front of it are the gaps of the whole text. */
  lemma GappedCons(s: string, b: int, e: int, bounds: seq<(int, int)>)
    requires Gap(s, b, e) && Gapped(s[e..], bounds)
    requires |bounds| > 0 ==> bounds[0].0 == 0
    ensures Gapped(s, [(0, b)] + Shift(bounds, e))
  {
    var bs' := [(0, b)] + Shift(bounds, e);
    forall k | 1 <= k < |bs'| - 1
      ensures Gap(s, bs'[k].1, bs'[k + 1].0)
    {
      GapShift(s, e, bounds[k - 1].1, bounds[k].0);
    }
  }

  /** A first piece and a gap in front of a split suffix give a split of the whole text. */
  lemma SplitAtCons(s: string, b: int, e: int, ps: seq<string>, bounds: seq<(int, int)>)
    requires Gap(s, b, e) && SplitAt(s[e..], ps, bounds)
    ensures SplitAt(s, [s[..b]] + ps, [(0, b)] + Shift(bounds, e))
  {
    SlicedCons(s, b, e, ps, bounds);
    IncreasingCons(b, e, bounds);
    GappedCons(s, b, e, bounds);
  }

  /**
   * The pieces are the consecutive slices of `s` between the break runs, in
   * order, from position 0 to the end.
   */
  lemma {:induction false} PiecesAreSlices(s: string)
    ensures SplitAt(s, Pieces(s), PieceBounds(s))
    decreases |s|
  {
    var b := NextBreak(s, 1);
    if b < |s| {
      var e := RunEnd(s, b);
      FirstGap(s);
      PiecesAreSlices(s[e..]);
      SplitAtCons(s, b, e, Pieces(s[e..]), PieceBounds(s[e..]));
    }
  }

  /** The run after a gap's start ends where the gap does. */
  lemma GapIsRun(s: string, b: int, a: int)
    requires Gap(s, b, a)
    ensures RunEnd(s, b) == a
  {
  }

  /** A slice with no break that runs to the end of `s` is the one piece of the text from where it starts. */
  lemma LastPieceStep(s: string, p: string, x: int)
    requires 0 <= x <= |s| && p == s[x..] && NoBreak(p)
    ensures Pieces(s[x..]) == [p]
  {
  }

  /**
   * A slice `s[x..y]` with no break that a `Gap` ends, followed by the `Pieces`
   * after the gap, is the `Pieces` of the text from `x`.
   */
  lemma InnerPieceStep(s: string, p: string, x: int, y: int, a: int, rest: seq<string>)
    requires 0 <= x < y && Gap(s, y, a) && p == s[x..y] && NoBreak(p)
    requires rest == Pieces(s[a..])
    ensures Pieces(s[x..]) == [p] + rest
  {
    var t := s[x..];
    FirstBreakOfSlice(s, p, x, y, a);
    assert t[a - x..] == s[a..];
    ConsPieces(t, y - x, rest);
  }

  /** Seen from `x`, the first break of the text is where the slice `s[x..y]` ends, and its run is the gap's. */
  lemma FirstBreakOfSlice(s: string, p: string, x: int, y: int, a: int)
    requires 0 <= x < y && Gap(s, y, a) && p == s[x..y] && NoBreak(p)
    ensures NextBreak(s[x..], 1) == y - x
    ensures RunEnd(s[x..], y - x) == a - x
    ensures s[x..][..y - x] == p
  {
    var t := s[x..];
    assert t[..y - x] == p;
    forall i | 1 <= i < y - x
      ensures !BreakAt(t, i)
    {
      assert !BreakAt(p, i);
    }
    GapUnshift(s, x, y, a);
    assert BreakAt(t, y - x);
    GapIsRun(t, y - x, a - x);
  }

  /** The last piece of a split with no break inside it is the one piece of the text from where it starts. */
  lemma LastPiece(s: string, ps: seq<string>, bounds: seq<(int, int)>, j: int)
    requires SplitAt(s, ps, bounds) && j == |ps| - 1 && NoBreak(ps[j])
    ensures 0 <= bounds[j].0 <= |s|
    ensures ps[j..] == Pieces(s[bounds[j].0..])
  {
    var x := bounds[j].0;
    assert ps[j] == s[x..bounds[j].1] == s[x..];
    LastPieceStep(s, ps[j], x);
    assert ps[j..] == [ps[j]];
  }

  /**
   * A piece of a split with no break inside it, followed by the `Pieces` of the
   * text from where the next piece starts, is the `Pieces` of the text from
   * where it starts.
   */
  lemma InnerPiece(s: string, ps: seq<string>, bounds: seq<(int, int)>, j: int)
    requires SplitAt(s, ps, bounds) && 0 <= j < |ps| - 1 && NoBreak(ps[j])
    requires 0 <= bounds[j + 1].0 <= |s| && ps[j + 1..] == Pieces(s[bounds[j + 1].0..])
    ensures 0 <= bounds[j].0 <= |s|
    ensures ps[j..] == Pieces(s[bounds[j].0..])
  {
    var x, y, a := bounds[j].0, bounds[j].1, bounds[j + 1].0;
    assert ps[j] == s[x..y];
    assert Gap(s, y, a);
    if j > 0 {
      // the piece sits between two gaps, so it cannot be empty
      assert Gap(s, bounds[j - 1].1, x);
    }
    InnerPieceStep(s, ps[j], x, y, a, ps[j + 1..]);
    SuffixCons(ps, j);
  }

  /** From piece `j` on, a split with no break inside its pieces is the `Pieces` of the text from where piece `j` starts. */
  lemma {:induction false} PiecesFrom(s: string, ps: seq<string>, bounds: seq<(int, int)>, j: int)
    requires SplitAt(s, ps, bounds)
    requires forall k :: 0 <= k < |ps| ==> NoBreak(ps[k])
    requires 0 <= j < |ps|
    ensures 0 <= bounds[j].0 <= |s|
    ensures ps[j..] == Pieces(s[bounds[j].0..])
    decreases |ps| - j
  {
    if j < |ps| - 1 {
      PiecesFrom(s, ps, bounds, j + 1);
      InnerPiece(s, ps, bounds, j);
    } else {
      LastPiece(s, ps, bounds, j);
    }
  }

  /**
   * The split is unique: slices of `s` that hold no break and are separated by
   * whole break runs are exactly the `Pieces`, as `re.split` finds its matches
   * leftmost first and each as long as it can.
   */
  lemma PiecesUnique(s: string, ps: seq<string>, bounds: seq<(int, int)>)
    requires SplitAt(s, ps, bounds)
    requires forall k :: 0 <= k < |ps| ==> NoBreak(ps[k])
    ensures ps == Pieces(s)
  {
    PiecesFrom(s, ps, bounds, 0);
    assert s[0..] == s;
  }

  /** `_split_sentences(text)`: the pieces stripped, the empty ones dropped. */
  function SplitSentences(text: string): seq<string> {
    StrippedNonBlank(Pieces(text))
  }

  /** A stripped piece has no break either: it is a slice of the piece. */
  lemma StripNoBreak(p: string)
    requires NoBreak(p)
    ensures NoBreak(Strip(p))
  {
    var r := Strip(p);
    var L := LeadingRun(p, IsSpace);
    assert r == p[L..L + |r|];
    forall i
      ensures !BreakAt(r, i)
    {
      if BreakAt(r, i) {
        assert BreakAt(p, L + i);
      }
    }
  }

  /** Sentences are non-empty, stripped and hold no sentence break. */
  lemma SplitSentencesShape(text: string)
    ensures forall k :: 0 <= k < |SplitSentences(text)| ==>
      var sentence := SplitSentences(text)[k];
      sentence != "" && IsStripped(sentence) && NoBreak(sentence)
  {
    var ps := Pieces(text);
    var r := SplitSentences(text);
    StrippedNonBlankMembers(ps);
    forall k | 0 <= k < |r|
      ensures NoBreak(r[k])
    {
      var i :| 0 <= i < |ps| && r[k] == Strip(ps[i]);
      StripNoBreak(ps[i]);
    }
  }

  /** A non-blank text has a sentence: the one from the piece holding a non-space character. */
  lemma NonBlankHasSentence(text: string)
    requires !IsBlank(text)
    ensures SplitSentences(text) != []
  {
    var ps := Pieces(text);
    StrippedNonBlankMembers(ps);
    var m :| 0 <= m < |text| && !IsSpace(text[m]);
    PiecesCover(text, m);
    var k :| 0 <= k < |ps| && text[m] in ps[k];
    assert !IsBlank(ps[k]);
    assert Strip(ps[k]) in SplitSentences(text);
  }

  /** A blank text has no sentence: its pieces are blank, so each strips to nothing. */
  lemma BlankHasNoSentence(text: string)
    requires IsBlank(text)
    ensures SplitSentences(text) == []
  {
    var ps := Pieces(text);
    var r := SplitSentences(text);
    forall k | 0 <= k < |ps|
      ensures IsBlank(ps[k])
    {
      forall m | 0 <= m < |ps[k]|
        ensures IsSpace(ps[k][m])
      {
        assert ps[k][m] in text;
      }
    }
    StrippedNonBlankMembers(ps);
    if r != [] {
      var i :| 0 <= i < |ps| && r[0] == Strip(ps[i]);
      assert false;
    }
  }

  /** There are no sentences exactly when the text is blank. */
  lemma SplitSentencesEmptyIffBlank(text: string)
    ensures SplitSentences(text) == [] <==> IsBlank(text)
  {
    if IsBlank(text) {
      BlankHasNoSentence(text);
    } else {
      NonBlankHasSentence(text);
    }
  }


  // ---------------------------------------------------------------------------
  // `build_short_summary` and `build_full_summary`

  /** `" ".join(parts + [last])` is `" ".join(parts)`, a space, then `last`. */
  lemma {:induction false} JoinSnoc(parts: seq<string>, last: string)
    requires |parts| > 0
    ensures JoinWith(" ", parts + [last]) == JoinWith(" ", parts) + " " + last
    decreases |parts|
  {
    if |parts| > 1 {
      assert (parts + [last])[1..] == parts[1..] + [last];
      JoinSnoc(parts[1..], last);
    }
  }

  /** The first two of a list of sentences, joined by a space: the first sentence leads, the second follows a space. */
  lemma JoinFirstTwo(ss: seq<string>)
    requires |ss| > 0 && ss[0] != ""
    ensures var j := JoinWith(" ", Take(ss, 2));
      && ss[0] <= j && j != ""
      && (|ss| >= 2 ==> j == ss[0] + " " + ss[1])
  {
    var first := Take(ss, 2);
    assert first[0] == ss[0];
    if |ss| >= 2 {
      assert first[1..] == [ss[1]];
    }
  }

  function BuildShortSummary(text: string, prompt: string): (r: string)
  {
    var sentences := SplitSentences(text);
    var summary := if sentences != [] then JoinWith(" ", Take(sentences, 2)) else Strip(text);
    if summary == "" then prompt else summary
  }

  /** A blank text has no sentences and an empty strip, so its short summary is the prompt. */
  lemma ShortSummaryBlank(text: string, prompt: string)
    requires IsBlank(text)
    ensures BuildShortSummary(text, prompt) == prompt
  {
    SplitSentencesEmptyIffBlank(text);
  }

  /**
   * The short summary is the first two sentences joined by a space; only a blank
   * text falls back to the prompt (`text.strip()` is then always empty).
   */
  lemma ShortSummarySpec(text: string, prompt: string)
    ensures IsBlank(text) ==> BuildShortSummary(text, prompt) == prompt
    ensures !IsBlank(text) ==>
      var sentences := SplitSentences(text);
      && |sentences| > 0
      && BuildShortSummary(text, prompt) == JoinWith(" ", Take(sentences, 2))
      && sentences[0] <= BuildShortSummary(text, prompt)
      && (|sentences| >= 2 ==> BuildShortSummary(text, prompt) == sentences[0] + " " + sentences[1])
  {
    if IsBlank(text) {
      ShortSummaryBlank(text, prompt);
    } else {
      SplitSentencesEmptyIffBlank(text);
      SplitSentencesShape(text);
      var sentences := SplitSentences(text);
      assert sentences[0] != "";
      JoinFirstTwo(sentences);
    }
  }

  /** The closing sentence of a full summary. */
  function Conclusion(prompt: string): (r: string)
    ensures "Вывод: " <= r
  {
    if prompt != "" then "Вывод: " + Lower(prompt) else "Вывод: ключевые идеи выделены."
  }

  function BuildFullSummary(text: string, prompt: string): (r: string)
  {
    var sentences := SplitSentences(text);
    if sentences == [] then prompt
    else JoinWith(" ", Take(sentences, 4) + [Conclusion(prompt)])
  }

  /**
   * The full summary of a blank text is the prompt; otherwise it is at most the
   * first four sentences, a space, and the conclusion.
   */
  lemma FullSummarySpec(text: string, prompt: string)
    ensures IsBlank(text) ==> BuildFullSummary(text, prompt) == prompt
    ensures !IsBlank(text) ==>
      var sentences := SplitSentences(text);
      && BuildFullSummary(text, prompt) == JoinWith(" ", Take(sentences, 4)) + " " + Conclusion(prompt)
      && sentences[0] <= BuildFullSummary(text, prompt)
  {
    SplitSentencesEmptyIffBlank(text);
    var sentences := SplitSentences(text);
    if !IsBlank(text) {
      var core := Take(sentences, 4);
      JoinSnoc(core, Conclusion(prompt));
      assert (core + [Conclusion(prompt)])[0] == sentences[0];
    }
  }
}
