/**
 * The position-based analysis of the summarization service: categories and
 * their choices ordered by position, request indices resolved against that
 * order, and the rule-based analyses run for the selected choice names.
 */
module AnalyzeService {
  import opened Wrappers
  import opened Strings
  import opened Seqs
  import opened Sorting
  import opened Http
  import opened TextProcessing
  import Analysis

  // ---------------------------------------------------------------------------
  // Domain: `AnalysisChoice`, `AnalysisCategory`

  datatype Choice = Choice(name: string, prompt: string, position: int, modelType: Option<string>)

  datatype Category = Category(name: string, position: int, choices: seq<Choice>)

  /** `AnalysisCategory(..., choices)`: a missing or empty list of choices becomes `[]`. */
  function NewCategory(name: string, position: int, choices: Option<seq<Choice>>): (r: Category)
    ensures r.name == name && r.position == position
    ensures r.choices == if choices.Some? then choices.value else []
  {
    Category(name, position, choices.GetOr([]))
  }

  function ChoicePosition(c: Choice): real {
    c.position as real
  }

  function CategoryPosition(c: Category): real {
    c.position as real
  }

  /** `ordered_choices()`: the choices sorted by position; a fresh list, the category is not changed. */
  function OrderedChoices(category: Category): seq<Choice> {
    SortBy(category.choices, ChoicePosition)
  }

  /**
   * `ordered_choices` is a stable sort by position: ordered, a permutation of
   * the choices, and choices sharing a position keep their relative order.
   */
  lemma OrderedChoicesSpec(category: Category)
    ensures StablySorted(OrderedChoices(category), category.choices, ChoicePosition)
    ensures forall i, j :: 0 <= i < j < |OrderedChoices(category)| ==>
      OrderedChoices(category)[i].position <= OrderedChoices(category)[j].position
  {
    SortByIsStable(category.choices, ChoicePosition);
    var o := OrderedChoices(category);
    forall i, j | 0 <= i < j < |o|
      ensures o[i].position <= o[j].position
    {
      assert ChoicePosition(o[i]) <= ChoicePosition(o[j]);
    }
  }

  // ---------------------------------------------------------------------------
  // Resolving the request

  const InvalidCategory := HttpError(BadRequest, "Некорректная категория")
  const InvalidChoice := HttpError(BadRequest, "Некорректный выбор анализа")
  const EmptyText := HttpError(BadRequest, "Текст не может быть пустым")

  /** `_get_category`: the category at `index` in position order; a negative or too large index is a 400. */
  function GetCategory(categories: seq<Category>, index: int): (r: Result<Category, HttpError>)
    ensures r.Ok? <==> 0 <= index < |categories|
    ensures r.Err? ==> r.error == InvalidCategory
    ensures r.Ok? ==> r.value == SortBy(categories, CategoryPosition)[index] && r.value in categories
  {
    var ordered := SortBy(categories, CategoryPosition);
    if index < 0 then Err(InvalidCategory)
    else if index >= |ordered| then Err(InvalidCategory)
    else
      assert ordered[index] in multiset(ordered);
      Ok(ordered[index])
  }

  predicate InRange(indexes: seq<int>, n: int) {
    forall k :: 0 <= k < |indexes| ==> 0 <= indexes[k] < n
  }

  /** `[ordered[i] for i in indexes]`, failing on the first index out of range. */
  function Pick(ordered: seq<Choice>, indexes: seq<int>): (r: Result<seq<Choice>, HttpError>)
    ensures r.Ok? <==> InRange(indexes, |ordered|)
    ensures r.Err? ==> r.error == InvalidChoice
    ensures r.Ok? ==> |r.value| == |indexes| && forall k :: 0 <= k < |indexes| ==> r.value[k] == ordered[indexes[k]]
    decreases |indexes|
  {
    if |indexes| == 0 then Ok([])
    else if indexes[0] < 0 || indexes[0] >= |ordered| then Err(InvalidChoice)
    else
      match Pick(ordered, indexes[1..])
      case Err(e) =>
        assert !InRange(indexes[1..], |ordered|);
        Err(e)
      case Ok(rest) =>
        assert forall k :: 1 <= k < |indexes| ==> indexes[k] == indexes[1..][k - 1];
        Ok([ordered[indexes[0]]] + rest)
  }

  /**
   * `_get_choices`: the category's choices at the requested positions of the
   * position order, in request order; any index out of range rejects the whole
   * request with a 400.
   */
  function GetChoices(category: Category, indexes: seq<int>): (r: Result<seq<Choice>, HttpError>)
    ensures r.Ok? <==> InRange(indexes, |category.choices|)
    ensures r.Err? ==> r.error == InvalidChoice
    ensures r.Ok? ==> |r.value| == |indexes|
    ensures r.Ok? ==> forall k :: 0 <= k < |indexes| ==> r.value[k] == OrderedChoices(category)[indexes[k]]
  {
    Pick(OrderedChoices(category), indexes)
  }

  // ---------------------------------------------------------------------------
  // `analyse`

  /**
   * `AnalysisResult`: `entities` and the dictionaries default to empty, which
   * `None` stands for here; the summaries default to `None`.
   */
  datatype AnalysisResult = AnalysisResult(
    entities: map<string, seq<string>>,
    sentiments: Option<Sentiment>,
    classifications: Option<Classification>,
    shortSummary: Option<string>,
    fullSummary: Option<string>)

  const EmptyResult := AnalysisResult(map[], None, None, None, None)

  /** The collaborators of `analyse`: the regex entity extractor and the model-backed classifiers. */
  datatype Tools = Tools(extract: string -> map<string, seq<string>>, classifiers: Classifiers)

  function ChoiceName(c: Choice): string {
    c.name
  }

  function Self(c: Choice): Choice {
    c
  }

  /** `{choice.name: choice for choice in choices}.get(name)`: the last selected choice of that name. */
  function ByName(choices: seq<Choice>, name: string): Option<Choice> {
    var m := LastWins(choices, ChoiceName, Self);
    if name in m then Some(m[name]) else None
  }

  /** No later choice shares the name of `choices[k]`. */
  predicate LastNamed(choices: seq<Choice>, k: int)
    requires 0 <= k < |choices|
  {
    forall j :: k < j < |choices| ==> choices[j].name != choices[k].name
  }

  /** A choice of the name is found exactly when one was selected, and it is the last one selected. */
  lemma ByNameSpec(choices: seq<Choice>, name: string)
    ensures ByName(choices, name).Some? <==> exists k :: 0 <= k < |choices| && choices[k].name == name
    ensures forall k :: 0 <= k < |choices| && choices[k].name == name && LastNamed(choices, k) ==>
      ByName(choices, name) == Some(choices[k])
  {
    var m := LastWins(choices, ChoiceName, Self);
    if name in m {
      var i :| 0 <= i < |choices| && ChoiceName(choices[i]) == name;
    }
    forall k | 0 <= k < |choices| && choices[k].name == name
      ensures name in m
    {
      assert ChoiceName(choices[k]) == name;
    }
  }

  /** The fields `analyse` fills for the selected choices, on top of the defaults. */
  function Fill(text: string, category: Category, choices: seq<Choice>, tools: Tools): AnalysisResult {
    var entities := ByName(choices, Analysis.ChoiceTitle(Analysis.Entities));
    var sentiments := ByName(choices, Analysis.ChoiceTitle(Analysis.Sentiments));
    var classification := ByName(choices, Analysis.ChoiceTitle(Analysis.Classifications));
    var short := ByName(choices, Analysis.ChoiceTitle(Analysis.ShortSummary));
    var full := ByName(choices, Analysis.ChoiceTitle(Analysis.FullSummary));
    AnalysisResult(
      if entities.Some? then tools.extract(text) else map[],
      if sentiments.Some? then Some(AnalyseSentiment(text)) else None,
      if classification.Some? then
        Some(ClassifyText(text, category.name, classification.value.modelType, classification.value.prompt, tools.classifiers))
      else None,
      if short.Some? then Some(BuildShortSummary(text, short.value.prompt)) else None,
      if full.Some? then Some(BuildFullSummary(text, full.value.prompt)) else None)
  }

  /** `AnalyzeService.analyse`. */
  function Analyse(text: string, categories: seq<Category>, categoryIndex: int, choiceIndexes: seq<int>, tools: Tools)
    : (r: Result<AnalysisResult, HttpError>)
  {
    if IsBlank(text) then Err(EmptyText)
    else
      var category :- GetCategory(categories, categoryIndex);
      var choices :- GetChoices(category, choiceIndexes);
      Ok(Fill(text, category, choices, tools))
  }

  /**
   * `analyse` fails exactly on a blank text, a category index out of range or
   * a choice index out of range, checked in that order, each with its own 400.
   */
  lemma AnalyseErrors(text: string, categories: seq<Category>, categoryIndex: int, choiceIndexes: seq<int>, tools: Tools)
    ensures var r := Analyse(text, categories, categoryIndex, choiceIndexes, tools);
      && (IsBlank(text) ==> r == Err(EmptyText))
      && (!IsBlank(text) && !(0 <= categoryIndex < |categories|) ==> r == Err(InvalidCategory))
      && (!IsBlank(text) && 0 <= categoryIndex < |categories| ==>
            var category := SortBy(categories, CategoryPosition)[categoryIndex];
            r.Ok? <==> InRange(choiceIndexes, |category.choices|))
      && (r.Err? ==> r.error.status == BadRequest)
  {
  }

  /** The selected choices of a successful request: the category's choices at the requested positions. */
  ghost predicate SelectedIn(category: Category, choiceIndexes: seq<int>, name: string) {
    exists k :: 0 <= k < |choiceIndexes| && 0 <= choiceIndexes[k] < |OrderedChoices(category)| &&
      OrderedChoices(category)[choiceIndexes[k]].name == name
  }

  /** The field each choice name selects, as `analyse` spells them. */
  lemma Titles()
    ensures Analysis.ChoiceTitle(Analysis.Entities) == "Объекты"
    ensures Analysis.ChoiceTitle(Analysis.Sentiments) == "Тональность"
    ensures Analysis.ChoiceTitle(Analysis.Classifications) == "Классификация"
    ensures Analysis.ChoiceTitle(Analysis.ShortSummary) == "Аннотация"
    ensures Analysis.ChoiceTitle(Analysis.FullSummary) == "Выводы"
  {
  }

  /** Each field of `Fill` is set exactly when a choice of its name is among the choices. */
  lemma FillFields(text: string, category: Category, choices: seq<Choice>, tools: Tools)
    ensures var r := Fill(text, category, choices, tools);
      && (r.sentiments.Some? <==> ByName(choices, "Тональность").Some?)
      && (r.sentiments.Some? ==> r.sentiments == Some(AnalyseSentiment(text)))
      && (r.classifications.Some? <==> ByName(choices, "Классификация").Some?)
      && (r.classifications.Some? ==> r.classifications.value.category == category.name)
      && (r.shortSummary.Some? <==> ByName(choices, "Аннотация").Some?)
      && (r.fullSummary.Some? <==> ByName(choices, "Выводы").Some?)
      && (r.entities == if ByName(choices, "Объекты").Some? then tools.extract(text) else map[])
  {
    Titles();
  }

  /** The resolved choices carry a name exactly when some requested position does. */
  lemma SelectedByName(category: Category, choiceIndexes: seq<int>, name: string)
    requires GetChoices(category, choiceIndexes).Ok?
    ensures ByName(GetChoices(category, choiceIndexes).value, name).Some? <==> SelectedIn(category, choiceIndexes, name)
  {
    var choices := GetChoices(category, choiceIndexes).value;
    var ordered := OrderedChoices(category);
    ByNameSpec(choices, name);
    if ByName(choices, name).Some? {
      var k :| 0 <= k < |choices| && choices[k].name == name;
      assert ordered[choiceIndexes[k]].name == name;
    }
    if SelectedIn(category, choiceIndexes, name) {
      var k :| 0 <= k < |choiceIndexes| && 0 <= choiceIndexes[k] < |ordered| && ordered[choiceIndexes[k]].name == name;
      assert choices[k].name == name;
    }
  }

  /** A successful request is `Fill` over the category at the index and the resolved choices. */
  lemma AnalyseOk(text: string, categories: seq<Category>, categoryIndex: int, choiceIndexes: seq<int>, tools: Tools)
    requires Analyse(text, categories, categoryIndex, choiceIndexes, tools).Ok?
    ensures 0 <= categoryIndex < |categories|
    ensures GetChoices(SortBy(categories, CategoryPosition)[categoryIndex], choiceIndexes).Ok?
    ensures Analyse(text, categories, categoryIndex, choiceIndexes, tools).value ==
      var category := SortBy(categories, CategoryPosition)[categoryIndex];
      Fill(text, category, GetChoices(category, choiceIndexes).value, tools)
  {
  }

  /**
   * A successful analysis fills a field exactly when a choice of that
   * field's name was selected; the others keep their defaults.
   */
  lemma AnalyseFields(text: string, categories: seq<Category>, categoryIndex: int, choiceIndexes: seq<int>, tools: Tools)
    requires Analyse(text, categories, categoryIndex, choiceIndexes, tools).Ok?
    ensures 0 <= categoryIndex < |categories|
    ensures var r := Analyse(text, categories, categoryIndex, choiceIndexes, tools).value;
      var category := SortBy(categories, CategoryPosition)[categoryIndex];
      && (r.sentiments.Some? <==> SelectedIn(category, choiceIndexes, "Тональность"))
      && (r.sentiments.Some? ==> r.sentiments == Some(AnalyseSentiment(text)))
      && (r.classifications.Some? <==> SelectedIn(category, choiceIndexes, "Классификация"))
      && (r.classifications.Some? ==> r.classifications.value.category == category.name)
      && (r.shortSummary.Some? <==> SelectedIn(category, choiceIndexes, "Аннотация"))
      && (r.fullSummary.Some? <==> SelectedIn(category, choiceIndexes, "Выводы"))
      && (!SelectedIn(category, choiceIndexes, "Объекты") ==> r.entities == map[])
      && (SelectedIn(category, choiceIndexes, "Объекты") ==> r.entities == tools.extract(text))
  {
    AnalyseOk(text, categories, categoryIndex, choiceIndexes, tools);
    var category := SortBy(categories, CategoryPosition)[categoryIndex];
    FillFields(text, category, GetChoices(category, choiceIndexes).value, tools);
    SelectedByName(category, choiceIndexes, "Объекты");
    SelectedByName(category, choiceIndexes, "Тональность");
    SelectedByName(category, choiceIndexes, "Классификация");
    SelectedByName(category, choiceIndexes, "Аннотация");
    SelectedByName(category, choiceIndexes, "Выводы");
  }

  /**
   * The prompt and model type of a selected field come from the last
   * selected choice carrying that field's name.
   */
  lemma AnalyseUsesLastChoice(text: string, categories: seq<Category>, categoryIndex: int, choiceIndexes: seq<int>, tools: Tools, k: nat)
    requires Analyse(text, categories, categoryIndex, choiceIndexes, tools).Ok?
    requires 0 <= categoryIndex < |categories|
    requires GetChoices(SortBy(categories, CategoryPosition)[categoryIndex], choiceIndexes).Ok?
    requires k < |choiceIndexes|
    requires LastNamed(GetChoices(SortBy(categories, CategoryPosition)[categoryIndex], choiceIndexes).value, k)
    ensures var r := Analyse(text, categories, categoryIndex, choiceIndexes, tools).value;
      var category := SortBy(categories, CategoryPosition)[categoryIndex];
      var chosen := OrderedChoices(category)[choiceIndexes[k]];
      && (chosen.name == "Аннотация" ==> r.shortSummary == Some(BuildShortSummary(text, chosen.prompt)))
      && (chosen.name == "Выводы" ==> r.fullSummary == Some(BuildFullSummary(text, chosen.prompt)))
      && (chosen.name == "Классификация" ==>
            r.classifications == Some(ClassifyText(text, category.name, chosen.modelType, chosen.prompt, tools.classifiers)))
  {
    AnalyseOk(text, categories, categoryIndex, choiceIndexes, tools);
    var category := SortBy(categories, CategoryPosition)[categoryIndex];
    var choices := GetChoices(category, choiceIndexes).value;
    Titles();
    ByNameSpec(choices, choices[k].name);
  }
}
