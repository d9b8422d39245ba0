/**
 * The configuration of the translation service: language titles, the parsing
 * of the configured language list, and the start-up registration of the
 * translation models, which adds a model row only when an identical one is
 * not stored yet.
 */
module ChatConfig {
  import opened Wrappers
  import opened Strings

  /** `LANGUAGE_NAMES`: the Russian name of each supported language code. */
  const LanguageNames: map<string, string> := map[
    "ru" := "Русский",
    "en" := "Английский",
    "ar" := "Арабский",
    "kk" := "Казахский",
    "uk" := "Украинский",
    "tr" := "Турецкий",
    "fa" := "Персидский",
    "ku" := "Курдский",
    "az" := "Азербайджанский",
    "hy" := "Армянский",
    "ky" := "Киргизский",
    "tg" := "Таджикский",
    "uz" := "Узбекский"]

  /** `lang_title`: the Russian name of a known code, "AUTO" for "auto", otherwise the code itself. */
  function LangTitle(code: string): (r: string)
    ensures code in LanguageNames ==> r == LanguageNames[code]
    ensures code == "auto" ==> r == "AUTO"
    ensures code !in LanguageNames && code != "auto" ==> r == code
  {
    if code in LanguageNames then LanguageNames[code]
    else if code == "auto" then Upper(code)
    else code
  }

  /** `LANGUAGE_NAMES.get(code, fallback)`. */
  function NameOr(code: string, fallback: string): string {
    if code in LanguageNames then LanguageNames[code] else fallback
  }

  // ---------------------------------------------------------------------------
  // `Settings.parse_extensions`

  function LowerStrip(s: string): string {
    Lower(Strip(s))
  }

  /**
   * `[ext.strip().lower() for ext in v.split(",") if ext.strip()]`; lowering
   * keeps the length, so filtering on the lowered item is the same filter.
   */
  function ParseExtensions(v: string): seq<string> {
    MapNonEmpty(SplitOn(v, ','), LowerStrip)
  }

  predicate IsCleanItem(x: string) {
    x != "" && IsStripped(x) && Lower(x) == x && ',' !in x
  }

  lemma LowerStripClean(s: string)
    requires ',' !in s && !IsBlank(s)
    ensures IsCleanItem(LowerStrip(s))
  {
    var t := Strip(s);
    StripKeepsAbsence(s, c => c == ',');
    assert NoneSatisfy(t, c => c == ',');
    LowerIdempotent(t);
    var r := Lower(t);
    forall k | 0 <= k < |r|
      ensures r[k] != ','
    {
      assert t[k] != ',';
    }
  }

  /**
   * Every parsed item is non-empty, stripped, lower-case and free of commas,
   * and is the cleaned form of one comma-separated piece; every piece that is
   * not blank contributes its cleaned form.
   */
  lemma ParseExtensionsSpec(v: string)
    ensures forall x :: x in ParseExtensions(v) ==> IsCleanItem(x)
    ensures forall x :: x in ParseExtensions(v) ==> exists p :: p in SplitOn(v, ',') && LowerStrip(p) == x
    ensures forall p :: p in SplitOn(v, ',') && !IsBlank(p) ==> LowerStrip(p) in ParseExtensions(v)
  {
    var parts := SplitOn(v, ',');
    MapNonEmptyMembers(parts, LowerStrip);
    forall x | x in ParseExtensions(v)
      ensures IsCleanItem(x)
      ensures exists p :: p in parts && LowerStrip(p) == x
    {
      var i :| 0 <= i < |parts| && LowerStrip(parts[i]) == x;
      assert parts[i] in parts;
      LowerStripClean(parts[i]);
    }
    forall p | p in parts && !IsBlank(p)
      ensures LowerStrip(p) in ParseExtensions(v)
    {
      var i :| 0 <= i < |parts| && parts[i] == p;
      assert |LowerStrip(p)| == |Strip(p)|;
    }
  }

  lemma {:induction false} MapNonEmptyOfClean(xs: seq<string>)
    requires forall k :: 0 <= k < |xs| ==> IsCleanItem(xs[k])
    ensures MapNonEmpty(xs, LowerStrip) == xs
    decreases |xs|
  {
    if |xs| > 0 {
      StripOfStripped(xs[0]);
      MapNonEmptyOfClean(xs[1..]);
    }
  }

  /** Parsing a comma-joined list of clean items gives the list back. */
  lemma ParseOfJoin(xs: seq<string>)
    requires forall k :: 0 <= k < |xs| ==> IsCleanItem(xs[k])
    ensures ParseExtensions(JoinWith(",", xs)) == xs
  {
    if |xs| == 0 {
      assert SplitOn("", ',') == [""];
    } else {
      assert [','] == ",";
      SplitOfJoin(xs, ',');
      MapNonEmptyOfClean(xs);
    }
  }

  // ---------------------------------------------------------------------------
  // `register_translation_models`

  const Special := "SPECIAL"
  const Universal := "UNIVERSAL"

  /** A row of the `models` table. */
  datatype ModelRow = ModelRow(
    modelId: string,
    model: string,
    description: string,
    sourceLanguageId: string,
    targetLanguageId: string,
    sourceLanguageTitle: string,
    targetLanguageTitle: string)

  /** A language pair a model translates. */
  datatype Pair = Pair(source: string, target: string)

  predicate Matches(row: ModelRow, model: string, p: Pair) {
    row.model == model && row.sourceLanguageId == p.source && row.targetLanguageId == p.target
  }

  /** `session.query(Model).filter_by(model=..., source_language_id=..., target_language_id=...).first()` is not `None`. */
  predicate HasModel(rows: seq<ModelRow>, model: string, p: Pair) {
    exists k :: 0 <= k < |rows| && Matches(rows[k], model, p)
  }

  /** A new model row: its titles fall back to "auto" and "ru" for unknown codes. */
  function NewModel(modelId: string, model: string, p: Pair): ModelRow {
    ModelRow(modelId, model, LangTitle(p.source) + " → " + LangTitle(p.target), p.source, p.target,
             NameOr(p.source, "auto"), NameOr(p.target, "ru"))
  }

  /**
   * Adds a row for the pair unless an identical one is stored; the session
   * flushes before each query, so a row added earlier in the same run counts.
   * `newId` stands in for `uuid4`.
   */
  function AddIfAbsent(rows: seq<ModelRow>, model: string, p: Pair, newId: (string, Pair) -> string): (r: seq<ModelRow>)
    ensures rows <= r && HasModel(r, model, p)
    ensures HasModel(rows, model, p) ==> r == rows
  {
    if HasModel(rows, model, p) then rows
    else
      var r := rows + [NewModel(newId(model, p), model, p)];
      assert Matches(r[|rows|], model, p);
      r
  }

  /** Registers the pairs in order. */
  function RegisterAll(rows: seq<ModelRow>, model: string, pairs: seq<Pair>, newId: (string, Pair) -> string): (r: seq<ModelRow>)
    decreases |pairs|
  {
    if |pairs| == 0 then rows
    else RegisterAll(AddIfAbsent(rows, model, pairs[0], newId), model, pairs[1..], newId)
  }

  lemma HasModelExtends(rows: seq<ModelRow>, more: seq<ModelRow>, model: string, p: Pair)
    requires rows <= more && HasModel(rows, model, p)
    ensures HasModel(more, model, p)
  {
    var k :| 0 <= k < |rows| && Matches(rows[k], model, p);
    assert more[k] == rows[k];
  }

  /** Registering only adds rows, and afterwards every pair has a row. */
  lemma {:induction false} RegisterAllSpec(rows: seq<ModelRow>, model: string, pairs: seq<Pair>, newId: (string, Pair) -> string)
    ensures rows <= RegisterAll(rows, model, pairs, newId)
    ensures forall p :: p in pairs ==> HasModel(RegisterAll(rows, model, pairs, newId), model, p)
    decreases |pairs|
  {
    if |pairs| > 0 {
      var next := AddIfAbsent(rows, model, pairs[0], newId);
      RegisterAllSpec(next, model, pairs[1..], newId);
      HasModelExtends(next, RegisterAll(next, model, pairs[1..], newId), model, pairs[0]);
      assert forall p :: p in pairs ==> p == pairs[0] || p in pairs[1..];
    }
  }

  /** When every pair already has a row, registering adds nothing. */
  lemma {:induction false} RegisterAllPresent(rows: seq<ModelRow>, model: string, pairs: seq<Pair>, newId: (string, Pair) -> string)
    requires forall p :: p in pairs ==> HasModel(rows, model, p)
    ensures RegisterAll(rows, model, pairs, newId) == rows
    decreases |pairs|
  {
    if |pairs| > 0 {
      assert pairs[0] in pairs;
      assert forall p :: p in pairs[1..] ==> p in pairs;
      RegisterAllPresent(rows, model, pairs[1..], newId);
    }
  }

  /** No two rows share a model and a language pair. */
  predicate NoDuplicateModels(rows: seq<ModelRow>) {
    forall i, j :: 0 <= i < j < |rows| ==>
      !Matches(rows[j], rows[i].model, Pair(rows[i].sourceLanguageId, rows[i].targetLanguageId))
  }

  /** Registering never stores a second row for the same model and pair. */
  lemma {:induction false} RegisterAllNoDuplicates(rows: seq<ModelRow>, model: string, pairs: seq<Pair>, newId: (string, Pair) -> string)
    requires NoDuplicateModels(rows)
    ensures NoDuplicateModels(RegisterAll(rows, model, pairs, newId))
    decreases |pairs|
  {
    if |pairs| > 0 {
      var next := AddIfAbsent(rows, model, pairs[0], newId);
      if next != rows {
        forall i, j | 0 <= i < j < |next|
          ensures !Matches(next[j], next[i].model, Pair(next[i].sourceLanguageId, next[i].targetLanguageId))
        {
          if j == |rows| {
            assert !Matches(rows[i], model, pairs[0]);
          } else {
            assert next[i] == rows[i] && next[j] == rows[j];
          }
        }
      }
      RegisterAllNoDuplicates(next, model, pairs[1..], newId);
    }
  }

  /**
   * The language pair a model folder names: a folder that is not a directory
   * is skipped unless its name contains "auto"; the name must contain "-" and
   * splits at the first one into a non-empty source and target.
   */
  function FolderPair(folder: string, isDir: string -> bool): (r: Option<Pair>)
    ensures r.Some? ==> folder == r.value.source + "-" + r.value.target && r.value.source != "" && r.value.target != ""
    ensures r.Some? ==> '-' !in r.value.source
  {
    if !Contains(folder, "auto") && !isDir(folder) then None
    else
      var i := FindFirst(folder, c => c == '-');
      if i == |folder| then None
      else
        var source := folder[..i];
        var target := folder[i + 1..];
        if source == "" || target == "" then None
        else
          assert folder == source + "-" + target;
          Some(Pair(source, target))
  }

  /**
   * Conversely, a folder named `source-target`, with no "-" in the source,
   * names that pair when it is a directory or contains "auto".
   */
  lemma FolderPairOfName(source: string, target: string, isDir: string -> bool)
    requires source != "" && target != "" && '-' !in source
    requires Contains(source + "-" + target, "auto") || isDir(source + "-" + target)
    ensures FolderPair(source + "-" + target, isDir) == Some(Pair(source, target))
  {
    var f := source + "-" + target;
    assert f[..|source|] == source;
    assert f[|source| + 1..] == target;
    FindFirstIsFirst(f, c => c == '-', |source|);
  }

  /** The pairs of the folders, in order. */
  function FolderPairs(folders: seq<string>, isDir: string -> bool): (r: seq<Pair>)
    ensures forall k :: 0 <= k < |folders| && FolderPair(folders[k], isDir).Some? ==> FolderPair(folders[k], isDir).value in r
    decreases |folders|
  {
    if |folders| == 0 then []
    else
      var rest := FolderPairs(folders[1..], isDir);
      assert forall k :: 1 <= k < |folders| ==> folders[k] == folders[1..][k - 1];
      match FolderPair(folders[0], isDir)
      case None => rest
      case Some(p) => [p] + rest
  }

  /** The universal pairs: each configured language to "ru". */
  function ToRussian(langs: seq<string>): (r: seq<Pair>)
    ensures |r| == |langs| && forall k :: 0 <= k < |langs| ==> r[k] == Pair(langs[k], "ru")
  {
    seq(|langs|, k requires 0 <= k < |langs| => Pair(langs[k], "ru"))
  }

  /**
   * `register_translation_models`: a SPECIAL row for every model folder and
   * for "auto-ru", then a UNIVERSAL row to "ru" for every configured language
   * (`CHAT_TRANSLATION_LANGUAGES`, already parsed) and for "auto".
   */
  function RegisterTranslationModels(rows: seq<ModelRow>, folders: seq<string>, isDir: string -> bool,
                                     langs: seq<string>, newId: (string, Pair) -> string): seq<ModelRow> {
    var special := RegisterAll(rows, Special, FolderPairs(folders + ["auto-ru"], isDir), newId);
    RegisterAll(special, Universal, ToRussian(langs + ["auto"]), newId)
  }

  /** The SPECIAL rows: every folder pair and "auto" to "ru" get their row, and no row is lost. */
  lemma SpecialRows(rows: seq<ModelRow>, folders: seq<string>, isDir: string -> bool, newId: (string, Pair) -> string)
    ensures var special := RegisterAll(rows, Special, FolderPairs(folders + ["auto-ru"], isDir), newId);
      && rows <= special
      && (forall k :: 0 <= k < |folders| && FolderPair(folders[k], isDir).Some? ==>
            HasModel(special, Special, FolderPair(folders[k], isDir).value))
      && HasModel(special, Special, Pair("auto", "ru"))
  {
    var sp := FolderPairs(folders + ["auto-ru"], isDir);
    RegisterAllSpec(rows, Special, sp, newId);
    FolderPairsCover(folders, isDir);
  }

  /** The pairs registered as SPECIAL include every folder's pair and "auto" to "ru". */
  lemma FolderPairsCover(folders: seq<string>, isDir: string -> bool)
    ensures var sp := FolderPairs(folders + ["auto-ru"], isDir);
      && (forall k :: 0 <= k < |folders| && FolderPair(folders[k], isDir).Some? ==> FolderPair(folders[k], isDir).value in sp)
      && Pair("auto", "ru") in sp
  {
    var fs := folders + ["auto-ru"];
    AutoRu(isDir);
    assert fs[|folders|] == "auto-ru";
    forall k | 0 <= k < |folders| && FolderPair(folders[k], isDir).Some?
      ensures FolderPair(folders[k], isDir).value in FolderPairs(fs, isDir)
    {
      assert fs[k] == folders[k];
    }
  }

  /** The folder name "auto-ru" names the pair "auto" to "ru". */
  lemma AutoRu(isDir: string -> bool)
    ensures FolderPair("auto-ru", isDir) == Some(Pair("auto", "ru"))
  {
    assert "auto" + "-" + "ru" == "auto-ru";
    assert "auto" <= "auto-ru";
    FolderPairOfName("auto", "ru", isDir);
  }

  /**
   * Registration only adds rows; afterwards every folder pair, "auto" to
   * "ru", and every configured language to "ru" have their row; and it never
   * stores a duplicate.
   */
  lemma RegisterSpec(rows: seq<ModelRow>, folders: seq<string>, isDir: string -> bool,
                     langs: seq<string>, newId: (string, Pair) -> string)
    ensures var r := RegisterTranslationModels(rows, folders, isDir, langs, newId);
      && rows <= r
      && (forall k :: 0 <= k < |folders| && FolderPair(folders[k], isDir).Some? ==>
            HasModel(r, Special, FolderPair(folders[k], isDir).value))
      && HasModel(r, Special, Pair("auto", "ru"))
      && (forall k :: 0 <= k < |langs| ==> HasModel(r, Universal, Pair(langs[k], "ru")))
      && HasModel(r, Universal, Pair("auto", "ru"))
      && (NoDuplicateModels(rows) ==> NoDuplicateModels(r))
  {
    var sp := FolderPairs(folders + ["auto-ru"], isDir);
    var ls := langs + ["auto"];
    var special := RegisterAll(rows, Special, sp, newId);
    var r := RegisterAll(special, Universal, ToRussian(ls), newId);
    SpecialRows(rows, folders, isDir, newId);
    RegisterAllSpec(special, Universal, ToRussian(ls), newId);
    forall k | 0 <= k < |folders| && FolderPair(folders[k], isDir).Some?
      ensures HasModel(r, Special, FolderPair(folders[k], isDir).value)
    {
      HasModelExtends(special, r, Special, FolderPair(folders[k], isDir).value);
    }
    HasModelExtends(special, r, Special, Pair("auto", "ru"));
    forall k | 0 <= k < |langs|
      ensures HasModel(r, Universal, Pair(langs[k], "ru"))
    {
      assert ToRussian(ls)[k] == Pair(langs[k], "ru");
    }
    assert ToRussian(ls)[|langs|] == Pair("auto", "ru");
    if NoDuplicateModels(rows) {
      RegisterAllNoDuplicates(rows, Special, sp, newId);
      RegisterAllNoDuplicates(special, Universal, ToRussian(ls), newId);
    }
  }

  /** Registering again with the same folders and languages adds nothing. */
  lemma RegisterIdempotent(rows: seq<ModelRow>, folders: seq<string>, isDir: string -> bool,
                           langs: seq<string>, newId: (string, Pair) -> string, newId': (string, Pair) -> string)
    ensures var once := RegisterTranslationModels(rows, folders, isDir, langs, newId);
      RegisterTranslationModels(once, folders, isDir, langs, newId') == once
  {
    var once := RegisterTranslationModels(rows, folders, isDir, langs, newId);
    var sp := FolderPairs(folders + ["auto-ru"], isDir);
    var us := ToRussian(langs + ["auto"]);
    var special := RegisterAll(rows, Special, sp, newId);
    RegisterAllSpec(rows, Special, sp, newId);
    RegisterAllSpec(special, Universal, us, newId);
    forall p | p in sp
      ensures HasModel(once, Special, p)
    {
      HasModelExtends(special, once, Special, p);
    }
    RegisterAllPresent(once, Special, sp, newId');
    RegisterAllPresent(once, Universal, us, newId');
  }
}
