/**
 * The request gate and classification step of `detect_language`:
 * sanitise, reject short text, ask the classifier, rank its values and
 * resolve the detected language's confidence.
 */
module Detection {
  import opened Common
  import opened Text
  import opened Sorting
  import opened Ranking

  /** Shortest sanitised text that is classified. */
  const MinTextLength: nat := 10

  /** The outcome of one classification, as returned to the caller
      (`detected_language`, `confidence`, `confidences`; `text_length` is `|text|`). */
  datatype Classification = Classification(text: string, language: Language, confidence: real, ranked: seq<Candidate>)

  /** What every successful classification satisfies. */
  predicate WellFormed(c: Classification)
  {
    && Clean(c.text)
    && |c.text| >= MinTextLength
    && |c.ranked| <= TopN
    && NonIncreasing(c.ranked, Value)
    && c.confidence == MainConfidence(c.ranked, c.language)
  }

  /** The classification part of `detect_language`. The classifier is
      passed in: `detect` is `detect_language_of`, `values` is
      `compute_language_confidence_values`; both see the sanitised text. */
  function Classify(raw: string, detect: string -> Option<Language>, values: string -> seq<Candidate>)
    : (r: Result<Classification, Error>)
    ensures r == Failure(TextTooShort) <==> |Sanitize(raw)| < MinTextLength
    ensures r == Failure(LanguageNotDetected) <==> |Sanitize(raw)| >= MinTextLength && detect(Sanitize(raw)).None?
    ensures r.Success? <==> |Sanitize(raw)| >= MinTextLength && detect(Sanitize(raw)).Some?
    ensures r.Success? ==> && r.value.text == Sanitize(raw)
                           && detect(r.value.text) == Some(r.value.language)
                           && r.value.ranked == Rank(values(r.value.text))
                           && WellFormed(r.value)
  {
    var text := Sanitize(raw);
    if |text| < MinTextLength then Failure(TextTooShort)
    else
      match detect(text)
      case None => Failure(LanguageNotDetected)
      case Some(language) =>
        var ranked := Rank(values(text));
        Success(Classification(text, language, MainConfidence(ranked, language), ranked))
  }

  /** `detect_language` as written (app.py:74-117). The sort key reads each
      confidence entry as one object with a `value` field, while the three
      later reads unpack it as `lang, conf` and read `conf.value`. On a
      (language, value) entry the unpacked `conf` is the number itself, which
      has no `value`, so the handler's catch-all answers 500:
      - at the main confidence, when the detected language is ranked;
      - at the confidence rows, when the store is reachable and the ranking
        is not empty (after the history record was written);
      - at the response, when the store is unreachable and the ranking is
        not empty.
      With an empty ranking, `insert_many([])` raises when the store is
      reachable; only an unreachable store then lets the request succeed. */
  function ClassifyAsWritten(raw: string, detect: string -> Option<Language>, values: string -> seq<Candidate>,
                             reachable: bool): (r: Result<Classification, Error>)
    ensures Classify(raw, detect, values).Failure? ==> r == Classify(raw, detect, values)
    ensures r.Success? ==> r == Classify(raw, detect, values) && r.value.ranked == [] && !reachable
  {
    match Classify(raw, detect, values)
    case Failure(e) => Failure(e)
    case Success(c) => if c.ranked != [] || reachable then Failure(InternalError) else Success(c)
  }

  /** The discrepancy: every accepted text for which the classifier reports
      at least one confidence value is answered with the intended
      classification by `Classify` and with an internal error as written. */
  lemma AcceptedTextFailsAsWritten(raw: string, detect: string -> Option<Language>, values: string -> seq<Candidate>,
                                   reachable: bool)
    requires |Sanitize(raw)| >= MinTextLength && detect(Sanitize(raw)).Some?
    requires values(Sanitize(raw)) != []
    ensures Classify(raw, detect, values).Success?
    ensures ClassifyAsWritten(raw, detect, values, reachable) == Failure(InternalError)
  {
    var ranked := Rank(values(Sanitize(raw)));
    assert |ranked| == Min(TopN, |values(Sanitize(raw))|);
  }
}
