/**
 * Preparing text for the language model in the summarization service: the token
 * estimate, the context-window budget that caps what is sent, and the mapping of
 * a free-form model answer onto one of the allowed labels.
 */
module Prompt {
  import opened Wrappers
  import opened Strings

  function MaxInt(a: int, b: int): int {
    if a >= b then a else b
  }

  function MinInt(a: int, b: int): int {
    if a <= b then a else b
  }

  /**
   * `_estimate_token_length`: about four characters per token, rounded up, at least
   * one for non-empty text; with a non-zero window also capped at the length.
   */
  function EstimateTokenLength(text: string, window: int): (r: nat)
    ensures text == "" <==> r == 0
    ensures text != "" ==> r <= |text| && 4 * r >= |text| && 4 * (r - 1) < |text|
  {
    if text == "" then 0
    else
      var estimated := MaxInt(1, (|text| + 3) / 4);
      if window != 0 then MinInt(estimated, |text|) else estimated
  }

  /** Four characters per budgeted token: text whose estimate fits the budget fits in this many characters. */
  lemma EstimateFitsBudget(text: string, window: int, safe: int)
    requires EstimateTokenLength(text, window) <= safe
    ensures |text| <= 4 * safe
  {
  }

  /**
   * `max(512, int(context_window * 0.8))`. For the windows a model reports (well
   * below 2^53) the truncated floating-point product equals `window * 4 / 5`.
   */
  function SafeWindow(window: int): (r: int)
    ensures r >= 512
    ensures window >= 0 ==> 4 * window < 5 * (r + 1)
    ensures r == 512 || 5 * r <= 4 * window
  {
    MaxInt(512, window * 4 / 5)
  }

  /**
   * `_sanitize_prompt_text`. `window` is the probed context window and `condense`
   * the map-reduce condenser, which may raise (an `Err`).
   */
  function SanitizePromptText(text: string, window: int, condense: (string, int) -> Result<string, string>): (r: Result<string, string>)
    ensures r.Err? ==> text != "" && window > 0 && condense(text, window).Err?
  {
    if text == "" then Ok("")
    else if window <= 0 then Ok(text)
    else
      var safe := SafeWindow(window);
      if EstimateTokenLength(text, window) <= safe then Ok(text)
      else
        match condense(text, window)
        case Err(e) => Err(e)
        case Ok(c) =>
          var condensed := if c == "" then text else c;
          var fitted := if EstimateTokenLength(condensed, window) > safe
            then Strip(SliceTo(condensed, safe * 4)) else condensed;
          Ok(if fitted == "" then SliceTo(text, safe * 4) else fitted)
  }

  /**
   * Whatever the condenser returns, a positive window bounds the prompt by four
   * characters per token of the safe window; the prompt is empty only for empty
   * input; text that already fits, or any text under a non-positive window, is
   * passed through unchanged.
   */
  lemma SanitizeBound(text: string, window: int, condense: (string, int) -> Result<string, string>)
    ensures var r := SanitizePromptText(text, window, condense);
      && (window > 0 && r.Ok? ==> |r.value| <= 4 * SafeWindow(window))
      && (r.Ok? ==> (r.value == "" <==> text == ""))
      && (window <= 0 ==> r == Ok(text))
      && (window > 0 && EstimateTokenLength(text, window) <= SafeWindow(window) ==> r == Ok(text))
  {
    var r := SanitizePromptText(text, window, condense);
    if text != "" && window > 0 {
      var safe := SafeWindow(window);
      if EstimateTokenLength(text, window) <= safe {
        EstimateFitsBudget(text, window, safe);
      } else if condense(text, window).Ok? {
        var c := condense(text, window).value;
        var condensed := if c == "" then text else c;
        if EstimateTokenLength(condensed, window) <= safe {
          EstimateFitsBudget(condensed, window, safe);
        }
      }
    }
  }

  predicate Mentions(output: string, candidate: string) {
    Contains(Lower(Strip(output)), Lower(candidate))
  }

  /** Index of the first candidate the output mentions, or `|candidates|`. */
  function FirstMentioned(output: string, candidates: seq<string>): (r: nat)
    ensures r <= |candidates|
    ensures forall j :: 0 <= j < r ==> !Mentions(output, candidates[j])
    ensures r < |candidates| ==> Mentions(output, candidates[r])
    decreases |candidates|
  {
    if |candidates| == 0 then 0
    else if Mentions(output, candidates[0]) then 0
    else
      var k := FirstMentioned(output, candidates[1..]);
      assert forall j :: 1 <= j < |candidates| ==> candidates[j] == candidates[1..][j - 1];
      k + 1
  }

  /**
   * `_normalize_label`: with no candidates, the stripped output; otherwise the
   * first candidate whose lower case occurs in the stripped, lower-cased output,
   * and the first candidate when none does.
   */
  function NormalizeLabel(output: string, candidates: seq<string>): (r: string)
    ensures |candidates| == 0 ==> r == Strip(output)
    ensures |candidates| > 0 ==> r in candidates
  {
    if |candidates| == 0 then Strip(output)
    else
      var i := FirstMentioned(output, candidates);
      if i < |candidates| then candidates[i] else candidates[0]
  }

  /** The chosen label is the first mentioned candidate, or the first candidate when none is mentioned. */
  lemma NormalizeLabelSpec(output: string, candidates: seq<string>)
    requires |candidates| > 0
    ensures var r := NormalizeLabel(output, candidates);
      && ((forall j :: 0 <= j < |candidates| ==> !Mentions(output, candidates[j])) ==> r == candidates[0])
      && (forall i :: (&& 0 <= i < |candidates| && Mentions(output, candidates[i])
                       && forall j :: 0 <= j < i ==> !Mentions(output, candidates[j])) ==> r == candidates[i])
  {
    var f := FirstMentioned(output, candidates);
    forall i | && 0 <= i < |candidates| && Mentions(output, candidates[i])
               && forall j :: 0 <= j < i ==> !Mentions(output, candidates[j])
      ensures f == i
    {
    }
  }
}
