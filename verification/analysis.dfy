/**
 * `perform_analysis` of the summarization service: the strict analysis request
 * that validates the category and every choice against the template table, then
 * renders one report field per selected template, each field defaulting to a
 * fixed "not requested" message.
 */
module Analysis {
  import opened Wrappers
  import opened Strings
  import opened Seqs
  import opened Templates

  /** The five report fields (the values of `CHOICE_FIELD_MAP`). */
  datatype Field = ShortSummary | Entities | Sentiments | Classifications | FullSummary

  /** The key of `CHOICE_FIELD_MAP` that targets a field: a lower-case choice name. */
  function ChoiceWord(f: Field): string {
    match f
    case ShortSummary => "аннотация"
    case Entities => "объекты"
    case Sentiments => "тональность"
    case Classifications => "классификация"
    case FullSummary => "выводы"
  }

  /** `CHOICE_FIELD_MAP` as (key, field) entries. */
  const ChoiceFieldMap: seq<(string, Field)> := [
    ("аннотация", ShortSummary),
    ("объекты", Entities),
    ("тональность", Sentiments),
    ("классификация", Classifications),
    ("выводы", FullSummary)]

  /** Dictionary lookup in a list of entries. */
  function Lookup(key: string, table: seq<(string, Field)>): (r: Option<Field>)
    ensures r.Some? ==> exists k :: 0 <= k < |table| && table[k] == (key, r.value)
    ensures r.None? ==> forall k :: 0 <= k < |table| ==> table[k].0 != key
    decreases |table|
  {
    if |table| == 0 then None
    else if table[0].0 == key then Some(table[0].1)
    else
      var r := Lookup(key, table[1..]);
      assert forall k :: 1 <= k < |table| ==> table[k] == table[1..][k - 1];
      r
  }

  /** `CHOICE_FIELD_MAP.get(name.lower())`. */
  function FieldOfChoice(name: string): Option<Field> {
    Lookup(Lower(name), ChoiceFieldMap)
  }

  /**
   * A choice name selects a field exactly when its lower case is that field's
   * key; every other name selects none.
   */
  lemma FieldOfChoiceSpec(name: string)
    ensures FieldOfChoice(name).Some? ==> Lower(name) == ChoiceWord(FieldOfChoice(name).value)
    ensures FieldOfChoice(name).None? ==> forall f: Field :: Lower(name) != ChoiceWord(f)
  {
    ChoiceFieldMapWords();
  }

  /** Each entry of the map pairs a field with its key, and every field has an entry. */
  lemma ChoiceFieldMapWords()
    ensures forall k :: 0 <= k < |ChoiceFieldMap| ==> ChoiceFieldMap[k].0 == ChoiceWord(ChoiceFieldMap[k].1)
    ensures forall f: Field :: ChoiceFieldMap[WordIndex(f)] == (ChoiceWord(f), f)
  {
  }

  /** Where a field's entry sits in `ChoiceFieldMap`. */
  function WordIndex(f: Field): (r: nat)
    ensures r < |ChoiceFieldMap|
  {
    match f
    case ShortSummary => 0
    case Entities => 1
    case Sentiments => 2
    case Classifications => 3
    case FullSummary => 4
  }

  /** Every field is reached from its key and from the capitalised choice name the tables use. */
  lemma FieldOfChoiceWord(f: Field)
    ensures FieldOfChoice(ChoiceWord(f)) == Some(f)
    ensures FieldOfChoice(ChoiceTitle(f)) == Some(f)
  {
    match f
    case ShortSummary => LowerShortSummary();
    case Entities => LowerEntities();
    case Sentiments => LowerSentiments();
    case Classifications => LowerClassifications();
    case FullSummary => LowerFullSummary();
  }

  /** The key and the table's choice name of each field lower-case to the key. */
  lemma LowerShortSummary()
    ensures Lower("аннотация") == "аннотация" && Lower("Аннотация") == "аннотация"
  {
  }

  lemma LowerEntities()
    ensures Lower("объекты") == "объекты" && Lower("Объекты") == "объекты"
  {
  }

  lemma LowerSentiments()
    ensures Lower("тональность") == "тональность" && Lower("Тональность") == "тональность"
  {
  }

  lemma LowerClassifications()
    ensures Lower("классификация") == "классификация" && Lower("Классификация") == "классификация"
  {
  }

  lemma LowerFullSummary()
    ensures Lower("выводы") == "выводы" && Lower("Выводы") == "выводы"
  {
  }

  /** The choice name, as stored in the template table, that fills a field. */
  function ChoiceTitle(f: Field): string {
    match f
    case ShortSummary => "Аннотация"
    case Entities => "Объекты"
    case Sentiments => "Тональность"
    case Classifications => "Классификация"
    case FullSummary => "Выводы"
  }

  /** `DEFAULT_MESSAGES`. */
  function DefaultMessage(f: Field): string {
    match f
    case ShortSummary => "Аналитическая аннотация не запрошена пользователем."
    case Entities => "Извлечение объектов не запрошено пользователем."
    case Sentiments => "Анализ тональности не запрошен пользователем."
    case Classifications => "Классификация не запрошена пользователем."
    case FullSummary => "Полный вывод не запрошен пользователем."
  }

  /** The five analysis texts of a session or of an analysis result. */
  datatype Report = Report(
    shortSummary: string,
    entities: string,
    sentiments: string,
    classifications: string,
    fullSummary: string)
  {
    function Get(f: Field): string {
      match f
      case ShortSummary => shortSummary
      case Entities => entities
      case Sentiments => sentiments
      case Classifications => classifications
      case FullSummary => fullSummary
    }

    /** `result[f] = v`: the one field changes, the others stay. */
    function Set(f: Field, v: string): (r: Report)
      ensures r.Get(f) == v
      ensures forall g: Field :: g != f ==> r.Get(g) == Get(g)
    {
      match f
      case ShortSummary => this.(shortSummary := v)
      case Entities => this.(entities := v)
      case Sentiments => this.(sentiments := v)
      case Classifications => this.(classifications := v)
      case FullSummary => this.(fullSummary := v)
    }
  }

  /** `DEFAULT_MESSAGES.copy()`. */
  function Defaults(): (r: Report)
    ensures forall f: Field :: r.Get(f) == DefaultMessage(f)
  {
    Report(DefaultMessage(ShortSummary), DefaultMessage(Entities), DefaultMessage(Sentiments),
      DefaultMessage(Classifications), DefaultMessage(FullSummary))
  }

  /** The two settings the header shows. */
  datatype ModelSettings = ModelSettings(apiHost: string, pretrainedPath: string)

  /**
   * The model back-ends. `universal(prompt, text)` is the completion call and
   * `pretrained(text, category)` the classification with the category's labels;
   * either may raise, an `Err` carrying the exception text.
   */
  datatype Backend = Backend(
    settings: ModelSettings,
    universal: (string, string) -> Result<string, string>,
    pretrained: (string, string) -> Result<string, string>)

  const UniversalPrefix := "[Универсальная модель] Источник: "
  const PretrainedPrefix := "[Предобученная модель] Путь: "
  const BasicHeader := "[Базовый анализ]"

  /** `_build_model_header`. */
  function BuildModelHeader(modelType: Option<string>, s: ModelSettings): string {
    if modelType == Some("UNIVERSAL") then UniversalPrefix + s.apiHost
    else if modelType == Some("PRETRAINED") then PretrainedPrefix + s.pretrainedPath
    else BasicHeader
  }

  /** Exactly three kinds of header, told apart by their first characters; only the two model types name a model. */
  lemma ModelHeaderOutcomes(modelType: Option<string>, s: ModelSettings)
    ensures var h := BuildModelHeader(modelType, s);
      && (h == BasicHeader <==> modelType != Some("UNIVERSAL") && modelType != Some("PRETRAINED"))
      && (UniversalPrefix <= h <==> modelType == Some("UNIVERSAL"))
      && (PretrainedPrefix <= h <==> modelType == Some("PRETRAINED"))
  {
    assert UniversalPrefix[1] != PretrainedPrefix[1];
    assert UniversalPrefix[1] != BasicHeader[1];
    assert PretrainedPrefix[1] != BasicHeader[1];
  }

  /** The text line's default length bound. */
  const FormatLimit := 480

  /** `_format_text(text, max_length)`: whitespace collapsed, cut to `max_length` with a "..." marker. */
  function FormatText(text: string, maxLength: int): (r: string)
    ensures |CollapseSpaces(text)| <= maxLength ==> r == CollapseSpaces(text)
    ensures |CollapseSpaces(text)| > maxLength >= 3 ==>
      && |r| == maxLength
      && r[..maxLength - 3] <= CollapseSpaces(text)
      && r[maxLength - 3..] == "..."
  {
    var prepared := CollapseSpaces(text);
    if |prepared| <= maxLength then prepared
    else SliceTo(prepared, maxLength - 3) + "..."
  }

  /** The formatted text holds no line break: the whitespace left is plain spaces. */
  lemma FormatTextOneLine(text: string, maxLength: int)
    requires maxLength >= 3
    ensures NoneSatisfy(FormatText(text, maxLength), IsLineBreak)
    ensures |FormatText(text, maxLength)| <= maxLength
    ensures Words(FormatText(text, maxLength)) == Words(text) || |CollapseSpaces(text)| > maxLength
  {
    var prepared := CollapseSpaces(text);
    assert NoneSatisfy(prepared, c => IsSpace(c) && c != ' ');
    var r := FormatText(text, maxLength);
    forall k | 0 <= k < |r|
      ensures !IsLineBreak(r[k])
    {
      if |prepared| <= maxLength || k < maxLength - 3 {
        assert r[k] == prepared[k];
      } else {
        assert r[k] in "...";
      }
    }
  }

  const NoInstruction := "Инструкция не указана."

  /** The instruction line: the stripped prompt, or a fixed note for a blank one. */
  function PromptLine(prompt: string): (r: string)
    ensures IsBlank(prompt) ==> r == NoInstruction
    ensures !IsBlank(prompt) ==> r == Strip(prompt) && r != ""
  {
    if Strip(prompt) != "" then Strip(prompt) else NoInstruction
  }

  const ErrorPrefix := "Анализ завершился с ошибкой: "
  const ErrorSuffix := ErrorSuffixStart + ErrorSuffixMiddle + ErrorSuffixEnd
  const ErrorSuffixStart := ". Используйте резервный "
  const ErrorSuffixMiddle := "метод или повторите "
  const ErrorSuffixEnd := "попытку позже."

  const SyntheticPrefix := "Сгенерированное объяснение: "
  const SyntheticMiddle := " для категории '"
  const SyntheticSuffix := "' сформировано синтетическим обработчиком."

  /** The result line when nothing was generated and nothing failed. */
  function SyntheticLine(category: string, choiceName: string): string {
    SyntheticPrefix + choiceName + SyntheticMiddle + category + SyntheticSuffix
  }

  /** The result line: the generated text when there is any, else the error, else a synthetic note. */
  function ResultLine(category: string, choiceName: string, generated: string, error: string): (r: string)
    ensures generated != "" ==> r == Strip(generated)
    ensures generated == "" && error != "" ==> r == ErrorPrefix + error + ErrorSuffix
    ensures generated == "" && error == "" ==> r == SyntheticLine(category, choiceName)
  {
    if generated != "" then Strip(generated)
    else if error != "" then ErrorPrefix + error + ErrorSuffix
    else SyntheticLine(category, choiceName)
  }

  const CategoryLabel := "Категория: "
  const ChoiceLabel := "Тип анализа: "
  const InstructionLabel := "Инструкция: "
  const TextLabel := "Анализируемый текст: "
  const ResultLabel := "Результат: "

  /** The six lines of a rendered field from its computed parts, before they are joined. */
  function Labelled(header: string, category: string, choiceName: string, instruction: string, shownText: string,
                    result: string): seq<string>
  {
    [ header,
      CategoryLabel + category,
      ChoiceLabel + choiceName,
      InstructionLabel + instruction,
      TextLabel + shownText,
      ResultLabel + result ]
  }

  /** The six lines of a rendered field. */
  function OutputLines(category: string, choiceName: string, prompt: string, text: string,
                       modelType: Option<string>, generated: string, error: string, s: ModelSettings): seq<string>
  {
    Labelled(BuildModelHeader(modelType, s), category, choiceName, PromptLine(prompt), FormatText(text, FormatLimit),
             ResultLine(category, choiceName, generated, error))
  }

  /** `_render_output`; an empty `generated` or `error` stands for `None`. */
  function RenderOutput(category: string, choiceName: string, prompt: string, text: string,
                        modelType: Option<string>, generated: string, error: string, s: ModelSettings): string
  {
    JoinWith("\n", OutputLines(category, choiceName, prompt, text, modelType, generated, error, s))
  }

  /** A string without a line break in the sense of `splitlines` has no line feed. */
  lemma NoBreakNoLineFeed(s: string)
    requires NoneSatisfy(s, IsLineBreak)
    ensures '\n' !in s
  {
    assert forall k :: 0 <= k < |s| ==> s[k] != '\n';
  }

  lemma StripNoLineFeed(s: string)
    requires '\n' !in s
    ensures '\n' !in Strip(s)
  {
    StripKeepsAbsence(s, c => c == '\n');
    assert forall k :: 0 <= k < |Strip(s)| ==> Strip(s)[k] != '\n';
  }

  /** The fixed texts of a rendered field hold no line feed. */
  lemma HeaderTextsSingle()
    ensures '\n' !in UniversalPrefix && '\n' !in PretrainedPrefix && '\n' !in BasicHeader
  {
    assert forall k :: 0 <= k < |UniversalPrefix| ==> UniversalPrefix[k] != '\n';
    assert forall k :: 0 <= k < |PretrainedPrefix| ==> PretrainedPrefix[k] != '\n';
    assert forall k :: 0 <= k < |BasicHeader| ==> BasicHeader[k] != '\n';
  }

  lemma NoLineFeedConcat(a: string, b: string)
    requires '\n' !in a && '\n' !in b
    ensures '\n' !in a + b
  {
  }

  lemma ErrorSuffixSingle()
    ensures '\n' !in ErrorSuffix
  {
    assert '\n' !in ErrorSuffixStart by {
      assert forall k :: 0 <= k < |ErrorSuffixStart| ==> ErrorSuffixStart[k] != '\n';
    }
    assert '\n' !in ErrorSuffixMiddle by {
      assert forall k :: 0 <= k < |ErrorSuffixMiddle| ==> ErrorSuffixMiddle[k] != '\n';
    }
    assert '\n' !in ErrorSuffixEnd by {
      assert forall k :: 0 <= k < |ErrorSuffixEnd| ==> ErrorSuffixEnd[k] != '\n';
    }
    NoLineFeedConcat(ErrorSuffixStart, ErrorSuffixMiddle);
    NoLineFeedConcat(ErrorSuffixStart + ErrorSuffixMiddle, ErrorSuffixEnd);
  }

  lemma ErrorTextsSingle()
    ensures '\n' !in NoInstruction && '\n' !in ErrorPrefix && '\n' !in ErrorSuffix
  {
    ErrorSuffixSingle();
    assert forall k :: 0 <= k < |NoInstruction| ==> NoInstruction[k] != '\n';
    assert forall k :: 0 <= k < |ErrorPrefix| ==> ErrorPrefix[k] != '\n';
  }

  lemma SyntheticTextsSingle()
    ensures '\n' !in SyntheticPrefix && '\n' !in SyntheticMiddle && '\n' !in SyntheticSuffix
  {
    assert forall k :: 0 <= k < |SyntheticPrefix| ==> SyntheticPrefix[k] != '\n';
    assert forall k :: 0 <= k < |SyntheticMiddle| ==> SyntheticMiddle[k] != '\n';
    assert forall k :: 0 <= k < |SyntheticSuffix| ==> SyntheticSuffix[k] != '\n';
  }

  lemma LabelsSingle()
    ensures '\n' !in CategoryLabel && '\n' !in ChoiceLabel && '\n' !in InstructionLabel
    ensures '\n' !in TextLabel && '\n' !in ResultLabel
  {
    assert forall k :: 0 <= k < |CategoryLabel| ==> CategoryLabel[k] != '\n';
    assert forall k :: 0 <= k < |ChoiceLabel| ==> ChoiceLabel[k] != '\n';
    assert forall k :: 0 <= k < |InstructionLabel| ==> InstructionLabel[k] != '\n';
    assert forall k :: 0 <= k < |TextLabel| ==> TextLabel[k] != '\n';
    assert forall k :: 0 <= k < |ResultLabel| ==> ResultLabel[k] != '\n';
  }

  lemma SyntheticLineSingle(category: string, choiceName: string)
    requires '\n' !in category && '\n' !in choiceName
    ensures '\n' !in SyntheticLine(category, choiceName)
  {
    SyntheticTextsSingle();
  }

  lemma HeaderSingle(modelType: Option<string>, s: ModelSettings)
    requires '\n' !in s.apiHost && '\n' !in s.pretrainedPath
    ensures '\n' !in BuildModelHeader(modelType, s)
  {
    HeaderTextsSingle();
  }

  lemma ResultLineSingle(category: string, choiceName: string, generated: string, error: string)
    requires '\n' !in category && '\n' !in choiceName && '\n' !in generated && '\n' !in error
    ensures '\n' !in ResultLine(category, choiceName, generated, error)
  {
    ErrorTextsSingle();
    SyntheticLineSingle(category, choiceName);
    StripNoLineFeed(generated);
  }

  lemma TextLineSingle(text: string)
    ensures '\n' !in FormatText(text, FormatLimit)
  {
    FormatTextOneLine(text, FormatLimit);
    NoBreakNoLineFeed(FormatText(text, FormatLimit));
  }

  /** No line of a rendered field holds a line feed, when none of the substituted values does. */
  lemma OutputLinesSingle(category: string, choiceName: string, prompt: string, text: string,
                          modelType: Option<string>, generated: string, error: string, s: ModelSettings)
    requires '\n' !in s.apiHost && '\n' !in s.pretrainedPath
    requires '\n' !in category && '\n' !in choiceName && '\n' !in prompt
    requires '\n' !in generated && '\n' !in error
    ensures forall k :: 0 <= k < 6 ==>
      '\n' !in OutputLines(category, choiceName, prompt, text, modelType, generated, error, s)[k]
  {
    var header := BuildModelHeader(modelType, s);
    var instruction := PromptLine(prompt);
    var shownText := FormatText(text, FormatLimit);
    var result := ResultLine(category, choiceName, generated, error);
    assert '\n' !in header by {
      HeaderSingle(modelType, s);
    }
    assert '\n' !in instruction by {
      ErrorTextsSingle();
      StripNoLineFeed(prompt);
    }
    assert '\n' !in shownText by {
      TextLineSingle(text);
    }
    assert '\n' !in result by {
      ResultLineSingle(category, choiceName, generated, error);
    }
    LabelledSingle(header, category, choiceName, instruction, shownText, result);
  }

  lemma LabelledSingle(header: string, category: string, choiceName: string, instruction: string, shownText: string,
                       result: string)
    requires '\n' !in header && '\n' !in category && '\n' !in choiceName
    requires '\n' !in instruction && '\n' !in shownText && '\n' !in result
    ensures forall k :: 0 <= k < 6 ==> '\n' !in Labelled(header, category, choiceName, instruction, shownText, result)[k]
  {
    LabelsSingle();
    NoLineFeedConcat(CategoryLabel, category);
    NoLineFeedConcat(ChoiceLabel, choiceName);
    NoLineFeedConcat(InstructionLabel, instruction);
    NoLineFeedConcat(TextLabel, shownText);
    NoLineFeedConcat(ResultLabel, result);
  }

  /**
   * A rendered field reads back, split at line feeds, as exactly its six lines
   * (header, category, choice, instruction, text, result) whenever none of the
   * substituted values brings its own line feed; the text line never does.
   */
  lemma RenderOutputLines(category: string, choiceName: string, prompt: string, text: string,
                          modelType: Option<string>, generated: string, error: string, s: ModelSettings)
    requires '\n' !in s.apiHost && '\n' !in s.pretrainedPath
    requires '\n' !in category && '\n' !in choiceName && '\n' !in prompt
    requires '\n' !in generated && '\n' !in error
    ensures SplitOn(RenderOutput(category, choiceName, prompt, text, modelType, generated, error, s), '\n')
      == OutputLines(category, choiceName, prompt, text, modelType, generated, error, s)
  {
    OutputLinesSingle(category, choiceName, prompt, text, modelType, generated, error, s);
    SplitOfJoin(OutputLines(category, choiceName, prompt, text, modelType, generated, error, s), '\n');
  }

  /** A call's outcome as `(generated, error)`, the error cut to 400 characters; `("", "")` when no model runs. */
  function CallModel(t: Template, category: string, text: string, b: Backend): (r: (string, string))
    ensures t.modelType != Some("UNIVERSAL") && t.modelType != Some("PRETRAINED") ==> r == ("", "")
    ensures |r.1| <= 400
  {
    var outcome: Option<Result<string, string>> :=
      if t.modelType == Some("UNIVERSAL") then Some(b.universal(t.prompt, text))
      else if t.modelType == Some("PRETRAINED") then Some(b.pretrained(text, category))
      else None;
    match outcome
    case None => ("", "")
    case Some(Ok(g)) => (g, "")
    case Some(Err(e)) => ("", SliceTo(e, 400))
  }

  /** The rendered field for one selected template. */
  function RenderTemplate(t: Template, category: string, text: string, b: Backend): string {
    var out := CallModel(t, category, text, b);
    RenderOutput(category, t.choiceName, t.prompt, text, t.modelType, out.0, out.1, b.settings)
  }

  /**
   * A failing model call is reported, never raised: nothing is generated and the
   * result line carries the first 400 characters of the exception text.
   */
  lemma ModelErrorRendered(t: Template, category: string, text: string, b: Backend, e: string)
    requires || (t.modelType == Some("UNIVERSAL") && b.universal(t.prompt, text) == Err(e))
             || (t.modelType == Some("PRETRAINED") && b.pretrained(text, category) == Err(e))
    requires e != ""
    ensures CallModel(t, category, text, b) == ("", SliceTo(e, 400))
    ensures ResultLine(category, t.choiceName, "", SliceTo(e, 400)) == ErrorPrefix + SliceTo(e, 400) + ErrorSuffix
  {
    assert SliceTo(e, 400) != "";
  }

  /** The rows `perform_analysis` processes: the requested category and one of the requested choices. */
  predicate Selected(t: Template, categoryIndex: int, choices: seq<int>) {
    t.categoryIndex == categoryIndex && t.choiceIndex in choices
  }

  /** A processed row whose choice name maps to field `f`. */
  predicate Targets(t: Template, categoryIndex: int, choices: seq<int>, f: Field) {
    Selected(t, categoryIndex, choices) && FieldOfChoice(t.choiceName) == Some(f)
  }

  /** An assignment `result[field] = value`. */
  datatype Write = Write(field: Field, value: string)

  predicate WritesTo(w: Option<Write>, f: Field) {
    w.Some? && w.value.field == f
  }

  /** The assignments in order; a later one overwrites an earlier one to the same field. */
  function ApplyWrites(r: Report, ws: seq<Option<Write>>): Report
    decreases |ws|
  {
    if |ws| == 0 then r
    else
      var prev := ApplyWrites(r, ws[..|ws| - 1]);
      match ws[|ws| - 1]
      case None => prev
      case Some(w) => prev.Set(w.field, w.value)
  }

  /** A field no assignment touches keeps its value. */
  lemma {:induction false} ApplyWritesUntouched(r: Report, ws: seq<Option<Write>>, f: Field)
    requires forall i :: 0 <= i < |ws| ==> !WritesTo(ws[i], f)
    ensures ApplyWrites(r, ws).Get(f) == r.Get(f)
    decreases |ws|
  {
    if |ws| > 0 {
      var n := |ws| - 1;
      assert forall i :: 0 <= i < n ==> ws[..n][i] == ws[i];
      ApplyWritesUntouched(r, ws[..n], f);
    }
  }

  /** A field some assignment touches holds the value of the last such assignment. */
  lemma {:induction false} ApplyWritesLast(r: Report, ws: seq<Option<Write>>, f: Field, i: nat)
    requires i < |ws| && WritesTo(ws[i], f)
    requires forall j :: i < j < |ws| ==> !WritesTo(ws[j], f)
    ensures ApplyWrites(r, ws).Get(f) == ws[i].value.value
    decreases |ws|
  {
    var n := |ws| - 1;
    if i < n {
      assert forall j :: 0 <= j < n ==> ws[..n][j] == ws[j];
      ApplyWritesLast(r, ws[..n], f, i);
    }
  }

  /** What one row contributes to `perform_analysis`: the rendered field, or nothing. */
  function RowWrite(t: Template, categoryIndex: int, choices: seq<int>, category: string, text: string, b: Backend)
    : (w: Option<Write>)
    ensures forall f: Field :: WritesTo(w, f) <==> Targets(t, categoryIndex, choices, f)
    ensures w.Some? ==> w.value.value == RenderTemplate(t, category, text, b)
  {
    if Selected(t, categoryIndex, choices) && FieldOfChoice(t.choiceName).Some?
    then Some(Write(FieldOfChoice(t.choiceName).value, RenderTemplate(t, category, text, b)))
    else None
  }

  /** The assignments the rows make, in table order. */
  function RowWrites(ts: seq<Template>, categoryIndex: int, choices: seq<int>, category: string, text: string, b: Backend)
    : (ws: seq<Option<Write>>)
    ensures |ws| == |ts|
    ensures forall i :: 0 <= i < |ts| ==> ws[i] == RowWrite(ts[i], categoryIndex, choices, category, text, b)
  {
    seq(|ts|, i requires 0 <= i < |ts| => RowWrite(ts[i], categoryIndex, choices, category, text, b))
  }

  /** The loop of `perform_analysis` over the rows in table order. */
  function Fill(ts: seq<Template>, categoryIndex: int, choices: seq<int>, category: string, text: string, b: Backend)
    : Report
  {
    ApplyWrites(Defaults(), RowWrites(ts, categoryIndex, choices, category, text, b))
  }

  /** A field no processed row targets keeps its default message. */
  lemma FillDefault(ts: seq<Template>, categoryIndex: int, choices: seq<int>, category: string, text: string,
                    b: Backend, f: Field)
    requires forall i :: 0 <= i < |ts| ==> !Targets(ts[i], categoryIndex, choices, f)
    ensures Fill(ts, categoryIndex, choices, category, text, b).Get(f) == DefaultMessage(f)
  {
    var ws := RowWrites(ts, categoryIndex, choices, category, text, b);
    assert forall i :: 0 <= i < |ws| ==> !WritesTo(ws[i], f);
    ApplyWritesUntouched(Defaults(), ws, f);
  }

  /** A field some processed row targets holds the rendering of the last such row. */
  lemma FillLast(ts: seq<Template>, categoryIndex: int, choices: seq<int>, category: string, text: string,
                 b: Backend, f: Field, i: nat)
    requires i < |ts| && Targets(ts[i], categoryIndex, choices, f)
    requires forall j :: i < j < |ts| ==> !Targets(ts[j], categoryIndex, choices, f)
    ensures Fill(ts, categoryIndex, choices, category, text, b).Get(f) == RenderTemplate(ts[i], category, text, b)
  {
    var ws := RowWrites(ts, categoryIndex, choices, category, text, b);
    assert WritesTo(ws[i], f);
    assert forall j :: i < j < |ws| ==> !WritesTo(ws[j], f);
    ApplyWritesLast(Defaults(), ws, f, i);
  }

  /** `perform_analysis`'s three refusals, with their messages. */
  datatype AnalysisError = NotConfigured | InvalidCategory | InvalidChoice {
    function Message(): string {
      match this
      case NotConfigured => "Типы анализа не настроены"
      case InvalidCategory => "Некорректный индекс категории"
      case InvalidChoice => "Некорректный индекс выбора анализа"
    }
  }

  /** The category name and the five rendered fields. */
  datatype AnalysisOutcome = AnalysisOutcome(category: string, report: Report)

  /** Some row pairs the category with the choice index. */
  predicate ChoiceAvailable(ts: seq<Template>, categoryIndex: int, c: int) {
    exists i :: 0 <= i < |ts| && ts[i].categoryIndex == categoryIndex && ts[i].choiceIndex == c
  }

  /** `perform_analysis(text, category_index, choice_indices)` over the template table `ts`. */
  function PerformAnalysis(text: string, categoryIndex: int, choices: seq<int>, ts: seq<Template>, b: Backend)
    : (r: Result<AnalysisOutcome, AnalysisError>)
  {
    if |ts| == 0 then Err(NotConfigured)
    else
      var categories := LastWins(ts, CategoryKey, CategoryName);
      if categoryIndex !in categories then Err(InvalidCategory)
      else if exists c :: c in choices && !ChoiceAvailable(ts, categoryIndex, c) then Err(InvalidChoice)
      else
        var category := categories[categoryIndex];
        Ok(AnalysisOutcome(category, Fill(ts, categoryIndex, choices, category, text, b)))
  }

  /**
   * The request fails as a whole, with no partial result, exactly when the table
   * is empty, when no row has the category, or when some requested choice has no
   * row in that category; the checks run in that order.
   */
  lemma PerformAnalysisRejects(text: string, categoryIndex: int, choices: seq<int>, ts: seq<Template>, b: Backend)
    ensures var r := PerformAnalysis(text, categoryIndex, choices, ts, b);
      && (r == Err(NotConfigured) <==> |ts| == 0)
      && (r == Err(InvalidCategory) <==>
            |ts| > 0 && forall i :: 0 <= i < |ts| ==> ts[i].categoryIndex != categoryIndex)
      && (r == Err(InvalidChoice) <==>
            && (exists i :: 0 <= i < |ts| && ts[i].categoryIndex == categoryIndex)
            && exists c :: c in choices && !ChoiceAvailable(ts, categoryIndex, c))
  {
    var m := LastWins(ts, CategoryKey, CategoryName);
    assert forall i :: 0 <= i < |ts| ==> CategoryKey(ts[i]) == ts[i].categoryIndex;
    if exists i :: 0 <= i < |ts| && ts[i].categoryIndex == categoryIndex {
      var i :| 0 <= i < |ts| && ts[i].categoryIndex == categoryIndex;
      assert CategoryKey(ts[i]) in m;
    }
  }

  /** On success the category is the name on the last row carrying the index. */
  lemma PerformAnalysisCategory(text: string, categoryIndex: int, choices: seq<int>, ts: seq<Template>, b: Backend)
    requires PerformAnalysis(text, categoryIndex, choices, ts, b).Ok?
    ensures forall i :: (&& 0 <= i < |ts| && ts[i].categoryIndex == categoryIndex
                         && forall j :: i < j < |ts| ==> ts[j].categoryIndex != categoryIndex) ==>
      PerformAnalysis(text, categoryIndex, choices, ts, b).value.category == ts[i].category
  {
    assert forall i :: 0 <= i < |ts| ==> CategoryKey(ts[i]) == ts[i].categoryIndex && CategoryName(ts[i]) == ts[i].category;
  }

  /**
   * On success each field holds its default message unless a processed row's
   * choice name maps to it, and then the rendering of the last such row; choice
   * names outside the map change nothing.
   */
  lemma PerformAnalysisFields(text: string, categoryIndex: int, choices: seq<int>, ts: seq<Template>, b: Backend, f: Field)
    requires PerformAnalysis(text, categoryIndex, choices, ts, b).Ok?
    ensures var out := PerformAnalysis(text, categoryIndex, choices, ts, b).value;
      && ((forall i :: 0 <= i < |ts| ==> !Targets(ts[i], categoryIndex, choices, f)) ==>
            out.report.Get(f) == DefaultMessage(f))
      && (forall i :: (&& 0 <= i < |ts| && Targets(ts[i], categoryIndex, choices, f)
                       && forall j :: i < j < |ts| ==> !Targets(ts[j], categoryIndex, choices, f)) ==>
            out.report.Get(f) == RenderTemplate(ts[i], out.category, text, b))
  {
    var out := PerformAnalysis(text, categoryIndex, choices, ts, b).value;
    assert out.report == Fill(ts, categoryIndex, choices, out.category, text, b);
    if forall i :: 0 <= i < |ts| ==> !Targets(ts[i], categoryIndex, choices, f) {
      FillDefault(ts, categoryIndex, choices, out.category, text, b, f);
    }
    forall i | (&& 0 <= i < |ts| && Targets(ts[i], categoryIndex, choices, f)
                && forall j :: i < j < |ts| ==> !Targets(ts[j], categoryIndex, choices, f))
      ensures out.report.Get(f) == RenderTemplate(ts[i], out.category, text, b)
    {
      FillLast(ts, categoryIndex, choices, out.category, text, b, f, i);
    }
  }
}
