/**
 * The fuzzy scorer the scripts call (`fuzzywuzzy.process.extractOne`), kept
 * abstract: it is a parameter that returns the best candidate with an integer
 * score in 0..100, or nothing. Only the threshold logic around it is modelled.
 */
module Fuzzy {
  import opened Wrappers

  type Score = s: int | 0 <= s <= 100

  datatype Candidate = Candidate(name: string, score: Score)

  /** `process.extractOne(query, choices)`. */
  type ExtractOne = (string, seq<string>) -> Option<Candidate>

  /** What the library guarantees: a best candidate exists iff there are choices, and it is one of them. */
  ghost predicate WellBehaved(extract: ExtractOne) {
    forall query, choices {:trigger extract(query, choices)} ::
      && (extract(query, choices).Some? <==> choices != [])
      && (extract(query, choices).Some? ==> extract(query, choices).value.name in choices)
  }

  /** `process.extractOne(query, choices) or ("", 0)`. */
  function BestOrBlank(extract: ExtractOne, query: string, choices: seq<string>): (c: Candidate)
    ensures extract(query, choices).None? ==> c == Candidate("", 0)
    ensures extract(query, choices).Some? ==> c == extract(query, choices).value
  {
    match extract(query, choices)
    case Some(best) => best
    case None => Candidate("", 0)
  }

  lemma BestOrBlankIsChoice(extract: ExtractOne, query: string, choices: seq<string>)
    requires WellBehaved(extract)
    ensures choices == [] ==> BestOrBlank(extract, query, choices) == Candidate("", 0)
    ensures choices != [] ==> BestOrBlank(extract, query, choices).name in choices
  {
    assert extract(query, choices).Some? <==> choices != [];
  }

  /** The acceptance rule of every matcher: a score equal to the threshold is accepted. */
  predicate Accepted(score: Score, threshold: int) {
    score >= threshold
  }
}
