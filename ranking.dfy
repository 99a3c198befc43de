/**
 * The confidence ranker: the classifier's per-language values sorted by
 * value, largest first and stably, cut to the top five; and the lookup of
 * the detected language's value in that cut, with 0 as the fallback.
 */
module Ranking {
  import opened Common
  import opened Sorting

  /** One (language, confidence value) pair reported by the classifier. */
  datatype Candidate = Candidate(language: Language, value: real)

  function Value(c: Candidate): real
  {
    c.value
  }

  /** How many candidates are kept. */
  const TopN: nat := 5

  /** `sorted(confidences, key=value, reverse=True)[:5]`. */
  function Rank(candidates: seq<Candidate>): (ranked: seq<Candidate>)
    ensures |ranked| == Min(TopN, |candidates|)
    ensures NonIncreasing(ranked, Value)
    ensures multiset(ranked) <= multiset(candidates)
    ensures forall v :: WithKey(ranked, Value, v) <= WithKey(candidates, Value, v)
    ensures forall c, i :: c in multiset(candidates) - multiset(ranked) && 0 <= i < |ranked| ==> Value(c) <= Value(ranked[i])
  {
    Top(candidates, Value, TopN)
  }

  /** The value of the first ranked entry for `language`, or 0 when the
      language is not among the ranked entries. Never fails. */
  function MainConfidence(ranked: seq<Candidate>, language: Language): (r: real)
    ensures (forall i | 0 <= i < |ranked| :: ranked[i].language != language) ==> r == 0.0
    ensures forall i | 0 <= i < |ranked| && ranked[i].language == language
                       && (forall j | 0 <= j < i :: ranked[j].language != language) :: r == ranked[i].value
  {
    if ranked == [] then 0.0
    else if ranked[0].language == language then ranked[0].value
    else MainConfidence(ranked[1..], language)
  }
}
