/**
 * The two steps of the translation pipeline, each a function from the request
 * record to the request record: language detection, then translation. A
 * failure never escapes a step; it is recorded in the record's `error`, and a
 * recorded error makes the translation step skip its translator.
 */
module ChatProcessor {
  import opened Wrappers
  import opened Strings
  import opened ChatConfig

  /** What a step records as `error`: the detector's "bad language" or a raised exception's message. */
  datatype Failure = BadLanguage | Raised(message: string)

  /**
   * The request record; `None` is a key the dictionary does not hold.
   * `error` holds `None` until a step records a failure.
   */
  datatype Request = Request(
    query: string,
    mode: Option<string>,
    sourceLanguageId: Option<string>,
    targetLanguageId: Option<string>,
    specialModels: seq<string>,
    error: Option<Failure>,
    translation: Option<string>)

  /**
   * The translators and the detector; each returns its answer or the message
   * of the exception it raised.
   */
  datatype Engines = Engines(
    universal: (string, string, string) -> Result<string, string>,
    special: (string, string, string) -> Result<string, string>,
    detect: string -> Result<string, string>)

  const Auto := "AUTO"

  /** The mode as `TranslatorProcessor` reads it: upper-cased, "UNIVERSAL" when absent. */
  function RequestedMode(data: Request): string {
    Upper(data.mode.GetOr(Universal))
  }

  function SourceOf(data: Request): string {
    Lower(data.sourceLanguageId.GetOr("auto"))
  }

  function TargetOf(data: Request): string {
    Lower(data.targetLanguageId.GetOr("ru"))
  }

  /** The mode the translator runs in: "AUTO" becomes SPECIAL for a source with a special model, else UNIVERSAL. */
  function ResolvedMode(data: Request): (r: string)
    ensures RequestedMode(data) == Auto ==> (r == Special <==> SourceOf(data) in data.specialModels)
    ensures RequestedMode(data) == Auto ==> r in {Special, Universal}
    ensures RequestedMode(data) != Auto ==> r == RequestedMode(data)
  {
    if RequestedMode(data) == Auto then
      if SourceOf(data) in data.specialModels then Special else Universal
    else RequestedMode(data)
  }

  /** The translator's answer, or the message of what it raised. */
  function Translate(mode: string, data: Request, engines: Engines): Result<string, string> {
    if mode == Universal then engines.universal(data.query, SourceOf(data), TargetOf(data))
    else if mode == Special then engines.special(data.query, SourceOf(data), TargetOf(data))
    else Err("Unknown mode: " + mode)
  }

  /** `TranslatorProcessor.process`. */
  function TranslatorProcess(data: Request, engines: Engines): Request {
    var mode := ResolvedMode(data);
    var resolved := if RequestedMode(data) == Auto then data.(mode := Some(mode)) else data;
    if data.error.Some? then resolved.(translation := Some(""))
    else
      match Translate(mode, data, engines)
      case Ok(text) => resolved.(translation := Some(text))
      case Err(message) => resolved.(translation := Some(""), error := Some(Raised(message)))
  }

  /**
   * The translation step keeps the query, the languages and the special
   * models; writes the resolved mode back only for "AUTO"; with an error
   * already recorded it sets an empty translation and calls no translator;
   * otherwise the translation is the answer of the translator for the
   * resolved mode, called with the lower-cased languages, and any failure
   * (including an unknown mode) leaves an empty translation and records it.
   */
  lemma TranslatorSpec(data: Request, engines: Engines)
    ensures var r := TranslatorProcess(data, engines);
      && r.query == data.query && r.sourceLanguageId == data.sourceLanguageId
      && r.targetLanguageId == data.targetLanguageId && r.specialModels == data.specialModels
      && (r.mode == if RequestedMode(data) == Auto then Some(ResolvedMode(data)) else data.mode)
      && r.translation.Some?
      && (data.error.Some? ==> r.translation == Some("") && r.error == data.error)
      && (data.error.None? ==>
            match Translate(ResolvedMode(data), data, engines)
            case Ok(text) => r.translation == Some(text) && r.error.None?
            case Err(message) => r.translation == Some("") && r.error == Some(Raised(message)))
      && (ResolvedMode(data) !in {Special, Universal} && data.error.None? ==>
            r.error == Some(Raised("Unknown mode: " + ResolvedMode(data))))
  {
  }

  /** With an error recorded, the translators are not consulted: any other translators give the same record. */
  lemma TranslatorSkipsOnError(data: Request, engines: Engines, others: Engines)
    requires data.error.Some?
    ensures TranslatorProcess(data, engines) == TranslatorProcess(data, others)
  {
  }

  /** `DetectorProcess`'s source language: detected for "auto", else the lower-cased given one. */
  function Detected(data: Request, engines: Engines): Result<string, string> {
    if SourceOf(data) == "auto" then engines.detect(data.query) else Ok(SourceOf(data))
  }

  /** `DetectorProcessor.process`. */
  function DetectorProcess(data: Request, engines: Engines): Request {
    match Detected(data, engines)
    case Err(message) => data.(error := Some(Raised(message)))
    case Ok(code) =>
      var checked := if code !in LanguageNames then data.(error := Some(BadLanguage)) else data;
      checked.(sourceLanguageId := Some(code))
  }

  /**
   * The detection step: a failing detector records its message and keeps the
   * source language; otherwise the source becomes the detected (or given,
   * lower-cased) code, and a code without a Russian name records "bad
   * language" while a known one keeps the error as it was.
   */
  lemma DetectorSpec(data: Request, engines: Engines)
    ensures var r := DetectorProcess(data, engines);
      && r.query == data.query && r.mode == data.mode && r.targetLanguageId == data.targetLanguageId
      && r.specialModels == data.specialModels && r.translation == data.translation
      && (Detected(data, engines).Err? ==>
            r.sourceLanguageId == data.sourceLanguageId && r.error == Some(Raised(Detected(data, engines).error)))
      && (Detected(data, engines).Ok? ==>
            var code := Detected(data, engines).value;
            && r.sourceLanguageId == Some(code)
            && (code !in LanguageNames ==> r.error == Some(BadLanguage))
            && (code in LanguageNames ==> r.error == data.error))
  {
  }

  /** The detector is only consulted for the source "auto". */
  lemma DetectorOnlyForAuto(data: Request, engines: Engines, others: Engines)
    requires SourceOf(data) != "auto"
    ensures DetectorProcess(data, engines) == DetectorProcess(data, others)
  {
  }

  /** The pipeline `[DetectorProcessor(), TranslatorProcessor()]`. */
  function Pipeline(data: Request, engines: Engines): Request {
    TranslatorProcess(DetectorProcess(data, engines), engines)
  }

  /**
   * The pipeline's outcome: a request that detects an unnamed language gets
   * an empty translation and "bad language"; one whose detector fails gets an
   * empty translation and the detector's message; in both cases no
   * translator is called.
   */
  lemma PipelineSpec(data: Request, engines: Engines, others: Engines)
    requires data.error.None?
    requires others.detect == engines.detect
    ensures var r := Pipeline(data, engines);
      && (Detected(data, engines).Ok? && Detected(data, engines).value !in LanguageNames ==>
            r.translation == Some("") && r.error == Some(BadLanguage) && r == Pipeline(data, others))
      && (Detected(data, engines).Err? ==>
            r.translation == Some("") && r.error == Some(Raised(Detected(data, engines).error))
            && r == Pipeline(data, others))
  {
    var d := DetectorProcess(data, engines);
    DetectorSpec(data, engines);
    assert DetectorProcess(data, others) == d;
    if d.error.Some? {
      TranslatorSpec(d, engines);
      TranslatorSkipsOnError(d, engines, others);
    }
  }
}
