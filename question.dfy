// The strict submission validator (app/question.py): the same module
// lookup as the scorer but without a week level, then a response-count
// check and a check of the declared maximum against the answer key.

module Question {
  import opened Wrappers
  import opened LiveScorer

  /** Python's sum over a list, left to right from 0. */
  function Sum(xs: seq<real>): real {
    if |xs| == 0 then 0.0 else Sum(xs[..|xs| - 1]) + xs[|xs| - 1]
  }

  /** None when the submission is accepted, otherwise the reason. */
  function ValidSubmission(registry: Registry, term: string, assignment: string, question: string,
                           responses: map<string, Value>, score: Score): (r: Option<string>)
    ensures r.Some? ==> r.value in {"Invalid term: " + term, "Invalid assignment: " + assignment,
      "Invalid question: " + question, "Error fetching solution", "Invalid response length", "Invalid score data"}
  {
    if ModuleName([term]) !in registry then Some("Invalid term: " + term)
    else if ModuleName([term, assignment]) !in registry then Some("Invalid assignment: " + assignment)
    else if ModuleName([term, assignment, question]) !in registry then Some("Invalid question: " + question)
    else
      var m := registry[ModuleName([term, assignment, question])];
      if m.solution.None? || m.points.None? then Some("Error fetching solution")
      else if |responses| != |m.solution.value| then Some("Invalid response length")
      else if score.maxPoints != Sum(m.points.value) then Some("Invalid score data")
      else None
  }

  /** The question module the validator resolves to, when every level exists. */
  predicate Resolves(registry: Registry, term: string, assignment: string, question: string) {
    ModuleName([term]) in registry && ModuleName([term, assignment]) in registry
    && ModuleName([term, assignment, question]) in registry
  }

  predicate HasAnswerKey(registry: Registry, term: string, assignment: string, question: string) {
    Resolves(registry, term, assignment, question)
    && registry[ModuleName([term, assignment, question])].solution.Some?
    && registry[ModuleName([term, assignment, question])].points.Some?
  }

  /** The number of parts in the resolved answer key. */
  function KeySize(registry: Registry, term: string, assignment: string, question: string): nat
    requires HasAnswerKey(registry, term, assignment, question)
  {
    |registry[ModuleName([term, assignment, question])].solution.value|
  }

  /** The maximum the resolved answer key allows. */
  function KeyTotal(registry: Registry, term: string, assignment: string, question: string): real
    requires HasAnswerKey(registry, term, assignment, question)
  {
    Sum(registry[ModuleName([term, assignment, question])].points.value)
  }

  lemma ValidatorMessagesDiffer(term: string, assignment: string, question: string)
    ensures "Invalid term: " + term != "Invalid assignment: " + assignment
    ensures "Invalid term: " + term != "Invalid question: " + question
    ensures "Invalid assignment: " + assignment != "Invalid question: " + question
    ensures "Invalid response length" !in {"Invalid term: " + term, "Invalid assignment: " + assignment,
                                          "Invalid question: " + question, "Error fetching solution"}
    ensures "Invalid score data" !in {"Invalid term: " + term, "Invalid assignment: " + assignment,
                                     "Invalid question: " + question, "Error fetching solution",
                                     "Invalid response length"}
    ensures "Error fetching solution" !in {"Invalid term: " + term, "Invalid assignment: " + assignment,
                                          "Invalid question: " + question}
  {
    LookupMessagesDiffer(term, "", assignment, question);
    assert ("Invalid term: " + term)[8] == 't';
    assert ("Invalid assignment: " + assignment)[8] == 'a';
    assert ("Invalid question: " + question)[8] == 'q';
    assert "Invalid response length"[8] == 'r';
    assert "Invalid score data"[8] == 's';
  }

  /** The checks run in the order term, assignment, question, attribute
      fetch (there is no week level); each lookup message is returned
      exactly when its level is the first one missing. */
  lemma ValidatorLookupOrder(registry: Registry, term: string, assignment: string, question: string,
                             responses: map<string, Value>, score: Score)
    ensures var r := ValidSubmission(registry, term, assignment, question, responses, score);
      && (r == Some("Invalid term: " + term) <==> ModuleName([term]) !in registry)
      && (r == Some("Invalid assignment: " + assignment) <==>
            ModuleName([term]) in registry && ModuleName([term, assignment]) !in registry)
      && (r == Some("Invalid question: " + question) <==>
            ModuleName([term]) in registry && ModuleName([term, assignment]) in registry
            && ModuleName([term, assignment, question]) !in registry)
      && (r == Some("Error fetching solution") <==>
            Resolves(registry, term, assignment, question)
            && !HasAnswerKey(registry, term, assignment, question))
  {
    ValidatorMessagesDiffer(term, assignment, question);
  }

  /** The two content checks: a count mismatch is reported first, then a
      declared maximum that differs from the sum of the key's points; a
      submission passing both is accepted. */
  lemma ValidatorChecks(registry: Registry, term: string, assignment: string, question: string,
                        responses: map<string, Value>, score: Score)
    ensures var r := ValidSubmission(registry, term, assignment, question, responses, score);
      && (r == Some("Invalid response length") <==>
            HasAnswerKey(registry, term, assignment, question)
            && |responses| != KeySize(registry, term, assignment, question))
      && (r == Some("Invalid score data") <==>
            HasAnswerKey(registry, term, assignment, question)
            && |responses| == KeySize(registry, term, assignment, question)
            && score.maxPoints != KeyTotal(registry, term, assignment, question))
      && (r == None <==>
            HasAnswerKey(registry, term, assignment, question)
            && |responses| == KeySize(registry, term, assignment, question)
            && score.maxPoints == KeyTotal(registry, term, assignment, question))
  {
    ValidatorMessagesDiffer(term, assignment, question);
  }

  /** Only the number of responses and the declared maximum are examined:
      the answers themselves and the points earned never change the verdict. */
  lemma ContentsNotExamined(registry: Registry, term: string, assignment: string, question: string,
                            responses1: map<string, Value>, score1: Score,
                            responses2: map<string, Value>, score2: Score)
    requires |responses1| == |responses2| && score1.maxPoints == score2.maxPoints
    ensures ValidSubmission(registry, term, assignment, question, responses1, score1)
         == ValidSubmission(registry, term, assignment, question, responses2, score2)
  {
  }

  /** Answer-key modules that define `solutions` and `total_points` (the
      names the scorer reads) but not `solution` and `points` are rejected
      by the validator whenever the lookup succeeds. */
  lemma ScorerKeysRejected(registry: Registry, term: string, assignment: string, question: string,
                           responses: map<string, Value>, score: Score)
    requires Resolves(registry, term, assignment, question)
    requires registry[ModuleName([term, assignment, question])].solution.None?
    ensures ValidSubmission(registry, term, assignment, question, responses, score) == Some("Error fetching solution")
  {
  }
}
