/**
 * `_generate_analysis` of the summarization session handlers: the lenient
 * analysis behind creating and re-analysing a session. Unknown choice indices
 * are skipped, repeated ones run once, and every field no selected choice fills
 * keeps the value it had before.
 */
module SummaryAnalysis {
  import opened Wrappers
  import opened Strings
  import opened Seqs
  import opened Templates
  import opened Prompt
  import opened Analysis

  /** One entry of the template map `_load_templates` builds. */
  datatype Entry = Entry(choiceName: string, prompt: string, modelType: string)

  /** The entry a template row contributes; the model type is upper-cased, a missing one becomes "". */
  function EntryOf(t: Template): Entry {
    Entry(t.choiceName, t.prompt, Upper(t.modelType.GetOr("")))
  }

  /** The rows of one category in table order (the repository's `list_by_category`). */
  function RowsOf(ts: seq<Template>, categoryIndex: int): (r: seq<Template>)
    ensures forall k :: 0 <= k < |r| ==> r[k].categoryIndex == categoryIndex && r[k] in ts
    ensures forall i :: 0 <= i < |ts| && ts[i].categoryIndex == categoryIndex ==> ts[i] in r
    ensures forall i :: (&& 0 <= i < |ts| && ts[i].categoryIndex == categoryIndex
                         && forall j :: 0 <= j < i ==> ts[j].categoryIndex != categoryIndex) ==> r[0] == ts[i]
    decreases |ts|
  {
    if |ts| == 0 then []
    else
      var rest := RowsOf(ts[1..], categoryIndex);
      assert forall i :: 1 <= i < |ts| ==> ts[i] == ts[1..][i - 1];
      if ts[0].categoryIndex == categoryIndex then [ts[0]] + rest else rest
  }

  /** The errors `_generate_analysis` and the handlers around it raise. */
  datatype SessionError =
    | TextMissing
    | TextTooLong(limit: nat)
    | UnknownCategory
    | UserNotFound
    | SessionNotFound
    | VersionMismatch
    | EmptyRequest
    | NoSessions
    | Collaborator(message: string)
  {
    /** The message of the raised `ValueError` (a collaborator's own message for its failures). */
    function Message(): string {
      match this
      case TextMissing => "Текст не задан"
      case TextTooLong(limit) => "Длина одного документа превышает лимит " + Decimal(limit) + " символов"
      case UnknownCategory => "Invalid category index"
      case UserNotFound => "User not found"
      case SessionNotFound => "Session not found"
      case VersionMismatch => "Version mismatch"
      case EmptyRequest => "Request is empty"
      case NoSessions => "User does not have any sessions"
      case Collaborator(m) => m
    }
  }

  /** The template map: each choice index of the category's rows with the entry of its last row. */
  function EntriesOf(ts: seq<Template>, categoryIndex: int): map<int, Entry> {
    LastWins(RowsOf(ts, categoryIndex), ChoiceKey, EntryOf)
  }

  /**
   * `_load_templates`: the category's rows keyed by choice index, a later row
   * replacing an earlier one with the same index, and the category name of the
   * first row; no row at all is "Invalid category index".
   */
  function LoadTemplates(ts: seq<Template>, categoryIndex: int): (r: Result<(map<int, Entry>, string), SessionError>)
    ensures r.Err? <==> forall i :: 0 <= i < |ts| ==> ts[i].categoryIndex != categoryIndex
    ensures r.Err? ==> r.error == UnknownCategory
    ensures r.Ok? ==> r.value.0 == EntriesOf(ts, categoryIndex)
    ensures r.Ok? ==> forall i :: (&& 0 <= i < |ts| && ts[i].categoryIndex == categoryIndex
                                   && forall j :: 0 <= j < i ==> ts[j].categoryIndex != categoryIndex)
                                  ==> r.value.1 == ts[i].category
  {
    var rows := RowsOf(ts, categoryIndex);
    if rows == [] then Err(UnknownCategory)
    else Ok((EntriesOf(ts, categoryIndex), rows[0].category))
  }

  lemma EntriesKeyHasRow(ts: seq<Template>, categoryIndex: int, k: int)
    requires k in EntriesOf(ts, categoryIndex)
    ensures exists i :: 0 <= i < |ts| && ts[i].categoryIndex == categoryIndex && ts[i].choiceIndex == k
  {
    var rows := RowsOf(ts, categoryIndex);
    var p :| 0 <= p < |rows| && ChoiceKey(rows[p]) == k;
    assert rows[p] in ts;
  }

  lemma RowHasEntriesKey(ts: seq<Template>, categoryIndex: int, i: int)
    requires 0 <= i < |ts| && ts[i].categoryIndex == categoryIndex
    ensures ts[i].choiceIndex in EntriesOf(ts, categoryIndex)
  {
    var rows := RowsOf(ts, categoryIndex);
    var p :| 0 <= p < |rows| && rows[p] == ts[i];
    assert ChoiceKey(rows[p]) == ts[i].choiceIndex;
  }

  /** The template map holds exactly the choice indices that occur among the category's rows. */
  lemma EntriesKeys(ts: seq<Template>, categoryIndex: int)
    ensures forall k :: k in EntriesOf(ts, categoryIndex) <==>
      exists i :: 0 <= i < |ts| && ts[i].categoryIndex == categoryIndex && ts[i].choiceIndex == k
  {
    forall k | k in EntriesOf(ts, categoryIndex)
      ensures exists i :: 0 <= i < |ts| && ts[i].categoryIndex == categoryIndex && ts[i].choiceIndex == k
    {
      EntriesKeyHasRow(ts, categoryIndex, k);
    }
    forall i | 0 <= i < |ts| && ts[i].categoryIndex == categoryIndex
      ensures ts[i].choiceIndex in EntriesOf(ts, categoryIndex)
    {
      RowHasEntriesKey(ts, categoryIndex, i);
    }
  }

  /** Each choice index maps to the entry of the last of the category's rows that carries it. */
  lemma EntriesLastRow(ts: seq<Template>, categoryIndex: int)
    ensures var rows := RowsOf(ts, categoryIndex);
      forall i :: (&& 0 <= i < |rows| && forall j :: i < j < |rows| ==> rows[j].choiceIndex != rows[i].choiceIndex)
        ==> EntriesOf(ts, categoryIndex)[rows[i].choiceIndex] == EntryOf(rows[i])
  {
  }

  /** The name of the choice that yields the classification. */
  const ClassificationName := ChoiceTitle(Classifications)

  /**
   * The field a choice name fills in `_generate_analysis`: an exact,
   * case-sensitive comparison with the four capitalised names; the
   * classification is handled apart.
   */
  function TitleField(name: string): Option<Field> {
    if name == "Аннотация" then Some(ShortSummary)
    else if name == "Объекты" then Some(Entities)
    else if name == "Тональность" then Some(Sentiments)
    else if name == "Выводы" then Some(FullSummary)
    else None
  }

  /** A name fills a text field exactly when it is that field's capitalised choice name. */
  lemma TitleFieldSpec(name: string, f: Field)
    requires f != Classifications
    ensures TitleField(name) == Some(f) <==> name == ChoiceTitle(f)
  {
  }

  /** The classification labels of a prompt: its comma-separated items, stripped, blank ones dropped. */
  function Candidates(prompt: string): (r: seq<string>)
    ensures forall k :: 0 <= k < |r| ==> r[k] != "" && IsStripped(r[k]) && ',' !in r[k]
  {
    var parts := SplitOn(prompt, ',');
    var r := StrippedNonBlank(parts);
    StrippedNonBlankMembers(parts);
    forall k | 0 <= k < |r|
      ensures ',' !in r[k]
    {
      var i :| 0 <= i < |parts| && r[k] == Strip(parts[i]);
      StripKeepsAbsence(parts[i], c => c == ',');
    }
    r
  }

  const ClassifyIntro := "Выбери наиболее подходящую категорию из списка. "
  const ClassifyOptions := "Варианты: "
  const TextHeading := "Текст:\n"
  const ClassifyOutro := "Ответь только одним вариантом из списка."

  /** The request that asks the language model to pick one of the labels. */
  function ClassificationPrompt(candidates: seq<string>, promptText: string): string {
    ClassifyIntro + ClassifyOptions + JoinWith(", ", candidates) + ".\n\n"
      + TextHeading + Strip(promptText) + "\n\n" + ClassifyOutro
  }

  /** The request for any other choice: its instruction, then the text. */
  function MessagePrompt(prompt: string, promptText: string): string {
    Strip(prompt) + "\n\n" + TextHeading + Strip(promptText)
  }

  /**
   * What one analysis run works with. `llm` stands for building the client,
   * invoking it and extracting the answer's text; `classify` for the zero-shot
   * pipeline, returning its top label. Either may raise.
   */
  datatype Env = Env(
    entries: map<int, Entry>,
    promptText: string,
    llm: string -> Result<string, string>,
    classify: (string, seq<string>) -> Result<string, string>)

  /** The label a classification choice asks its model for (before `_normalize_label`). */
  function Predict(env: Env, e: Entry, candidates: seq<string>): Result<string, string> {
    // `template.get("model_type") or "UNIVERSAL"`: anything but PRETRAINED asks the language model
    if e.modelType == "PRETRAINED" then env.classify(env.promptText, candidates)
    else env.llm(ClassificationPrompt(candidates, env.promptText))
  }

  /**
   * `v` is what the choice at `index` stores into `f`: one of its labels for the
   * classification, the model's answer to its prompt for the other fields.
   */
  predicate Written(env: Env, index: int, f: Field, v: string) {
    && index in env.entries
    && env.entries[index].choiceName == ChoiceTitle(f)
    && (f == Classifications ==> v in Candidates(env.entries[index].prompt))
    && (f != Classifications ==> env.llm(MessagePrompt(env.entries[index].prompt, env.promptText)) == Ok(v))
  }

  /**
   * A classification choice: no labels leaves the report as it is; otherwise the
   * model's pick, mapped onto the labels, becomes the classification.
   */
  function ClassifyStep(env: Env, index: int, acc: Report): (r: Result<Report, string>)
    requires index in env.entries && env.entries[index].choiceName == ClassificationName
    ensures r.Ok? ==> forall f: Field :: r.value.Get(f) == acc.Get(f) || Written(env, index, f, r.value.Get(f))
    ensures Candidates(env.entries[index].prompt) == [] ==> r == Ok(acc)
  {
    var e := env.entries[index];
    var candidates := Candidates(e.prompt);
    if candidates == [] then Ok(acc)
    else
      match Predict(env, e, candidates)
      case Err(x) => Err(x)
      case Ok(predicted) =>
        var chosen := NormalizeLabel(predicted, candidates);
        var r := acc.Set(Classifications, Strip(chosen));
        assert Written(env, index, Classifications, r.Get(Classifications)) by {
          StripOfStripped(chosen);
        }
        Ok(r)
  }

  /** Any other choice asks the model once and stores the answer in the field its exact name selects. */
  function TextStep(env: Env, index: int, acc: Report): (r: Result<Report, string>)
    requires index in env.entries && env.entries[index].choiceName != ClassificationName
    ensures r.Ok? ==> forall f: Field :: r.value.Get(f) == acc.Get(f) || Written(env, index, f, r.value.Get(f))
  {
    var e := env.entries[index];
    match env.llm(MessagePrompt(e.prompt, env.promptText))
    case Err(x) => Err(x)
    case Ok(response) =>
      match TitleField(e.choiceName)
      case None => Ok(acc)
      case Some(f) =>
        TitleFieldSpec(e.choiceName, f);
        var r := acc.Set(f, response);
        assert Written(env, index, f, r.Get(f));
        Ok(r)
  }

  /** One pass of the loop over the selected indices; an index with no template is skipped. */
  function Step(env: Env, index: int, acc: Report): (r: Result<Report, string>)
    ensures r.Ok? ==> forall f: Field :: r.value.Get(f) == acc.Get(f) || Written(env, index, f, r.value.Get(f))
    ensures index !in env.entries ==> r == Ok(acc)
  {
    if index !in env.entries then Ok(acc)
    else if env.entries[index].choiceName == ClassificationName then ClassifyStep(env, index, acc)
    else TextStep(env, index, acc)
  }

  /** The loop over the selected indices; the first raising collaborator ends it. */
  function Run(env: Env, selected: seq<int>, acc: Report): Result<Report, string>
    decreases |selected|
  {
    if |selected| == 0 then Ok(acc)
    else
      match Step(env, selected[0], acc)
      case Err(x) => Err(x)
      case Ok(next) => Run(env, selected[1..], next)
  }

  /** After the loop every field holds its value from before or what some selected choice wrote. */
  lemma {:induction false} RunOrigin(env: Env, selected: seq<int>, acc: Report, f: Field)
    requires Run(env, selected, acc).Ok?
    ensures var v := Run(env, selected, acc).value.Get(f);
      v == acc.Get(f) || exists k :: 0 <= k < |selected| && Written(env, selected[k], f, v)
    decreases |selected|
  {
    if |selected| > 0 {
      var next := Step(env, selected[0], acc).value;
      var v := Run(env, selected, acc).value.Get(f);
      RunOrigin(env, selected[1..], next, f);
      if v != next.Get(f) {
        var k :| 0 <= k < |selected[1..]| && Written(env, selected[1..][k], f, v);
        assert Written(env, selected[k + 1], f, v);
      } else if v != acc.Get(f) {
        assert Written(env, selected[0], f, v);
      }
    }
  }

  /**
   * The choice at `index` fills `f`: its template carries `f`'s choice name,
   * and for the classification it offers at least one label.
   */
  predicate Fills(env: Env, index: int, f: Field) {
    && index in env.entries
    && env.entries[index].choiceName == ChoiceTitle(f)
    && (f == Classifications ==> Candidates(env.entries[index].prompt) != [])
  }

  /**
   * What a choice that fills `f` stores there, or its collaborator's error. It
   * depends on the choice alone, not on the texts written before it.
   */
  function Filled(env: Env, index: int, f: Field): (r: Result<string, string>)
    requires Fills(env, index, f)
    ensures r.Ok? ==> Written(env, index, f, r.value)
  {
    var e := env.entries[index];
    if f == Classifications then
      var candidates := Candidates(e.prompt);
      match Predict(env, e, candidates)
      case Err(x) => Err(x)
      case Ok(predicted) =>
        var chosen := NormalizeLabel(predicted, candidates);
        assert Strip(chosen) in candidates by {
          StripOfStripped(chosen);
        }
        Ok(Strip(chosen))
    else env.llm(MessagePrompt(e.prompt, env.promptText))
  }

  /** `selected[k]` is the last of the selected indices that fills `f`. */
  predicate LastFill(env: Env, selected: seq<int>, k: int, f: Field) {
    && 0 <= k < |selected|
    && Fills(env, selected[k], f)
    && forall j :: k < j < |selected| ==> !Fills(env, selected[j], f)
  }

  /** One step changes `f` only when its choice fills `f`, and then to what that choice stores. */
  lemma StepFills(env: Env, index: int, acc: Report, f: Field)
    requires Step(env, index, acc).Ok?
    ensures !Fills(env, index, f) ==> Step(env, index, acc).value.Get(f) == acc.Get(f)
    ensures Fills(env, index, f) ==> Filled(env, index, f) == Ok(Step(env, index, acc).value.Get(f))
  {
    if index in env.entries {
      FieldOfChoiceWord(f);
      FieldOfChoiceWord(Classifications);
      if env.entries[index].choiceName == ClassificationName {
        ClassifyStepFills(env, index, acc, f);
      } else {
        TextStepFills(env, index, acc, f);
      }
    }
  }

  /** A classification step writes only the classification, and only when it offers labels. */
  lemma ClassifyStepFills(env: Env, index: int, acc: Report, f: Field)
    requires index in env.entries && env.entries[index].choiceName == ClassificationName
    requires ClassifyStep(env, index, acc).Ok?
    ensures f != Classifications || Candidates(env.entries[index].prompt) == [] ==>
      ClassifyStep(env, index, acc).value.Get(f) == acc.Get(f)
    ensures f == Classifications && Candidates(env.entries[index].prompt) != [] ==>
      Filled(env, index, f) == Ok(ClassifyStep(env, index, acc).value.Get(f))
  {
    var e := env.entries[index];
    var candidates := Candidates(e.prompt);
    if candidates != [] {
      var predicted := Predict(env, e, candidates).value;
      assert ClassifyStep(env, index, acc).value
          == acc.Set(Classifications, Strip(NormalizeLabel(predicted, candidates)));
    }
  }

  /** Any other step writes only the field its exact choice name selects, with the model's answer. */
  lemma TextStepFills(env: Env, index: int, acc: Report, f: Field)
    requires index in env.entries && env.entries[index].choiceName != ClassificationName
    requires TextStep(env, index, acc).Ok?
    ensures env.entries[index].choiceName != ChoiceTitle(f) ==> TextStep(env, index, acc).value.Get(f) == acc.Get(f)
    ensures env.entries[index].choiceName == ChoiceTitle(f) ==>
      env.llm(MessagePrompt(env.entries[index].prompt, env.promptText)) == Ok(TextStep(env, index, acc).value.Get(f))
  {
    var e := env.entries[index];
    var response := env.llm(MessagePrompt(e.prompt, env.promptText)).value;
    match TitleField(e.choiceName)
    case None =>
      if f != Classifications {
        TitleFieldSpec(e.choiceName, f);
      }
    case Some(g) =>
      assert TextStep(env, index, acc).value == acc.Set(g, response);
      TitleFieldSpec(e.choiceName, g);
      FieldOfChoiceWord(f);
      FieldOfChoiceWord(g);
  }

  /** The last selected choice that fills `f` decides it; with none, `f` keeps its value from before. */
  lemma {:induction false} RunLastFill(env: Env, selected: seq<int>, acc: Report, f: Field)
    requires Run(env, selected, acc).Ok?
    ensures var v := Run(env, selected, acc).value.Get(f);
      && ((forall k :: 0 <= k < |selected| ==> !Fills(env, selected[k], f)) ==> v == acc.Get(f))
      && (forall k :: LastFill(env, selected, k, f) ==> Filled(env, selected[k], f) == Ok(v) && Written(env, selected[k], f, v))
    decreases |selected|
  {
    if |selected| > 0 {
      var next := Step(env, selected[0], acc).value;
      var rest := selected[1..];
      var v := Run(env, selected, acc).value.Get(f);
      assert Run(env, selected, acc) == Run(env, rest, next);
      StepFills(env, selected[0], acc, f);
      RunLastFill(env, rest, next, f);
      assert forall j :: 0 <= j < |rest| ==> rest[j] == selected[j + 1];
      forall k | LastFill(env, selected, k, f)
        ensures Filled(env, selected[k], f) == Ok(v) && Written(env, selected[k], f, v)
      {
        if k == 0 {
          assert forall j :: 0 <= j < |rest| ==> !Fills(env, rest[j], f);
        } else {
          assert LastFill(env, rest, k - 1, f);
        }
      }
    }
  }

  /** The collaborators of `_generate_analysis`, including the context-window probe and the condenser. */
  datatype Collaborators = Collaborators(
    window: int,
    condense: (string, int) -> Result<string, string>,
    llm: string -> Result<string, string>,
    classify: (string, seq<string>) -> Result<string, string>)

  /** What a successful analysis returns: the five texts and the category name. */
  datatype Analysed = Analysed(report: Report, category: string)

  /**
   * `_generate_analysis(text, category_index, choices, base_values)`: load the
   * category's templates, condense the text, then run each distinct selected
   * index once, in order of first occurrence.
   */
  function GenerateAnalysis(text: string, categoryIndex: int, choices: seq<int>, ts: seq<Template>,
                            base: Report, c: Collaborators): Result<Analysed, SessionError>
  {
    match LoadTemplates(ts, categoryIndex)
    case Err(e) => Err(e)
    case Ok((entries, category)) =>
      match SanitizePromptText(text, c.window, c.condense)
      case Err(x) => Err(Collaborator(x))
      case Ok(promptText) =>
        match Run(Env(entries, promptText, c.llm, c.classify), Dedup(choices), base)
        case Err(x) => Err(Collaborator(x))
        case Ok(report) => Ok(Analysed(report, category))
  }

  /** The environment a successful template load gives the loop. */
  function EnvOf(text: string, categoryIndex: int, ts: seq<Template>, c: Collaborators): Env
    requires LoadTemplates(ts, categoryIndex).Ok? && SanitizePromptText(text, c.window, c.condense).Ok?
  {
    Env(LoadTemplates(ts, categoryIndex).value.0, SanitizePromptText(text, c.window, c.condense).value,
      c.llm, c.classify)
  }

  /**
   * An unknown category is the one error the handler raises itself, and it is
   * raised before any collaborator runs; every other failure is a collaborator's.
   */
  lemma GenerateAnalysisErrors(text: string, categoryIndex: int, choices: seq<int>, ts: seq<Template>,
                               base: Report, c: Collaborators)
    ensures var r := GenerateAnalysis(text, categoryIndex, choices, ts, base, c);
      && (r == Err(UnknownCategory) <==> forall i :: 0 <= i < |ts| ==> ts[i].categoryIndex != categoryIndex)
      && (r.Err? && r.error != UnknownCategory ==> r.error.Collaborator?)
  {
    var r := GenerateAnalysis(text, categoryIndex, choices, ts, base, c);
    var load := LoadTemplates(ts, categoryIndex);
    if load.Err? {
      assert r == Err(UnknownCategory);
    } else {
      var sanitized := SanitizePromptText(text, c.window, c.condense);
      if sanitized.Err? {
        assert r == Err(Collaborator(sanitized.error));
      } else {
        var run := Run(Env(load.value.0, sanitized.value, c.llm, c.classify), Dedup(choices), base);
        assert r == if run.Err? then Err(Collaborator(run.error)) else Ok(Analysed(run.value, load.value.1));
      }
    }
  }

  /** A successful analysis is the loop's result over the deduplicated selection. */
  lemma GenerateAnalysisRun(text: string, categoryIndex: int, choices: seq<int>, ts: seq<Template>,
                            base: Report, c: Collaborators)
    requires GenerateAnalysis(text, categoryIndex, choices, ts, base, c).Ok?
    ensures Run(EnvOf(text, categoryIndex, ts, c), Dedup(choices), base).Ok?
    ensures GenerateAnalysis(text, categoryIndex, choices, ts, base, c).value.report
         == Run(EnvOf(text, categoryIndex, ts, c), Dedup(choices), base).value
  {
  }

  /** A value some deduplicated index wrote was written by an index of the request. */
  lemma WrittenBySelected(env: Env, choices: seq<int>, f: Field, v: string)
    requires exists k :: 0 <= k < |Dedup(choices)| && Written(env, Dedup(choices)[k], f, v)
    ensures exists k :: 0 <= k < |choices| && Written(env, choices[k], f, v)
  {
    var sel := Dedup(choices);
    var k :| 0 <= k < |sel| && Written(env, sel[k], f, v);
    assert sel[k] in choices;
  }

  /**
   * Each field holds its base value or what some requested choice wrote: one of
   * its labels for the classification, the model's answer otherwise. Which
   * choice that is, is stated by `GenerateAnalysisLastFill`.
   */
  lemma GenerateAnalysisFields(text: string, categoryIndex: int, choices: seq<int>, ts: seq<Template>,
                               base: Report, c: Collaborators, f: Field)
    requires GenerateAnalysis(text, categoryIndex, choices, ts, base, c).Ok?
    ensures var v := GenerateAnalysis(text, categoryIndex, choices, ts, base, c).value.report.Get(f);
      v == base.Get(f) || exists k :: 0 <= k < |choices| && Written(EnvOf(text, categoryIndex, ts, c), choices[k], f, v)
  {
    var env := EnvOf(text, categoryIndex, ts, c);
    GenerateAnalysisRun(text, categoryIndex, choices, ts, base, c);
    var v := Run(env, Dedup(choices), base).value.Get(f);
    RunOrigin(env, Dedup(choices), base, f);
    if v != base.Get(f) {
      WrittenBySelected(env, choices, f, v);
    }
  }

  /**
   * The converse of `GenerateAnalysisFields`: when no selected index fills `f`,
   * the field keeps its base value; otherwise it holds what the last of them, in
   * order of first occurrence, stores there.
   */
  lemma {:induction false} GenerateAnalysisLastFill(text: string, categoryIndex: int, choices: seq<int>, ts: seq<Template>,
                                 base: Report, c: Collaborators, f: Field)
    requires GenerateAnalysis(text, categoryIndex, choices, ts, base, c).Ok?
    ensures var env, sel := EnvOf(text, categoryIndex, ts, c), Dedup(choices);
      var v := GenerateAnalysis(text, categoryIndex, choices, ts, base, c).value.report.Get(f);
      && ((forall k :: 0 <= k < |choices| ==> !Fills(env, choices[k], f)) ==> v == base.Get(f))
      && (forall k :: LastFill(env, sel, k, f) ==> Filled(env, sel[k], f) == Ok(v) && Written(env, sel[k], f, v))
  {
    var env := EnvOf(text, categoryIndex, ts, c);
    GenerateAnalysisRun(text, categoryIndex, choices, ts, base, c);
    SelectionDecides(env, choices, base, f, GenerateAnalysis(text, categoryIndex, choices, ts, base, c).value.report.Get(f));
  }

  /** `RunLastFill` over the deduplicated request, for the value `v` the loop leaves in `f`. */
  lemma {:induction false} SelectionDecides(env: Env, choices: seq<int>, base: Report, f: Field, v: string)
    requires Run(env, Dedup(choices), base).Ok? && v == Run(env, Dedup(choices), base).value.Get(f)
    ensures var sel := Dedup(choices);
      && ((forall k :: 0 <= k < |choices| ==> !Fills(env, choices[k], f)) ==> v == base.Get(f))
      && (forall k :: LastFill(env, sel, k, f) ==> Filled(env, sel[k], f) == Ok(v) && Written(env, sel[k], f, v))
  {
    RunLastFill(env, Dedup(choices), base, f);
    NoFillAfterDedup(env, choices, f);
  }

  /** Deduplicating the request brings in no index that fills `f`. */
  lemma NoFillAfterDedup(env: Env, choices: seq<int>, f: Field)
    ensures (forall k :: 0 <= k < |choices| ==> !Fills(env, choices[k], f)) ==>
      forall k :: 0 <= k < |Dedup(choices)| ==> !Fills(env, Dedup(choices)[k], f)
  {
    var sel := Dedup(choices);
    if forall k :: 0 <= k < |choices| ==> !Fills(env, choices[k], f) {
      forall k | 0 <= k < |sel|
        ensures !Fills(env, sel[k], f)
      {
        var i :| 0 <= i < |choices| && choices[i] == sel[k];
      }
    }
  }

  /**
   * Read against the template table: a changed field was filled by a selected
   * index whose template carries that field's choice name, and a changed
   * classification is one of that template's labels.
   */
  lemma GenerateAnalysisFieldSource(text: string, categoryIndex: int, choices: seq<int>, ts: seq<Template>,
                                    base: Report, c: Collaborators, f: Field)
    requires GenerateAnalysis(text, categoryIndex, choices, ts, base, c).Ok?
    ensures var entries := EntriesOf(ts, categoryIndex);
      var v := GenerateAnalysis(text, categoryIndex, choices, ts, base, c).value.report.Get(f);
      || v == base.Get(f)
      || exists k :: (&& 0 <= k < |choices| && choices[k] in entries
                      && entries[choices[k]].choiceName == ChoiceTitle(f)
                      && (f == Classifications ==> v in Candidates(entries[choices[k]].prompt)))
  {
    var env := EnvOf(text, categoryIndex, ts, c);
    assert env.entries == EntriesOf(ts, categoryIndex);
    GenerateAnalysisFields(text, categoryIndex, choices, ts, base, c, f);
  }

  /** Repeating a choice index changes nothing: the selection is deduplicated first. */
  lemma GenerateAnalysisDedup(text: string, categoryIndex: int, choices: seq<int>, ts: seq<Template>,
                              base: Report, c: Collaborators)
    ensures GenerateAnalysis(text, categoryIndex, Dedup(choices), ts, base, c)
         == GenerateAnalysis(text, categoryIndex, choices, ts, base, c)
  {
    DedupIdempotent(choices);
  }
}
