// Live scoring of one question against its answer key (app/live_scorer.py).
//
// Dynamic module loading is replaced by a registry: a map from the dotted
// module name that would be imported (".solutions.<term>.<week>...") to the
// attributes that module defines.

module LiveScorer {
  import opened Wrappers

  /** A response or answer-key value. Python booleans are the numbers 0 and 1,
      which is how Python's == and sorting treat them. */
  datatype Value = Str(text: string) | Num(number: real) | List(items: seq<Value>) | Null

  /** The attributes an answer-key module may define; a missing one is None.
      A dict is a sequence of (key, value) pairs in insertion order. */
  datatype Module = Module(
    solutions: Option<seq<(string, Value)>>,
    totalPoints: Option<seq<real>>,
    solution: Option<seq<(string, Value)>>,
    points: Option<seq<real>>)

  /** The importable modules, by the dotted name passed to the importer. */
  type Registry = map<string, Module>

  /** The score record shared with the validator. */
  datatype Score = Score(maxPoints: real, pointsEarned: real)

  datatype Exception = IndexError | TypeError

  /** What a call returns: the per-part (earned, possible) map, an error
      message, or an exception that escapes the call. */
  datatype Outcome =
    | Scores(parts: map<string, (real, real)>)
    | Message(text: string)
    | Raised(exception: Exception)

  /** The dotted module name for a chain of levels below the solutions package. */
  function ModuleName(levels: seq<string>): string {
    if |levels| == 0 then ".solutions"
    else
      ModuleName(levels[..|levels| - 1]) + "." + levels[|levels| - 1]
  }

  /** A Python dict has each key once. */
  predicate DistinctKeys(pairs: seq<(string, Value)>) {
    forall i, j :: 0 <= i < j < |pairs| ==> pairs[i].0 != pairs[j].0
  }

  function KeysOf(pairs: seq<(string, Value)>): set<string> {
    set p | p in pairs :: p.0
  }

  /** The elements `sorted(v)` would order, or None when `v` is not iterable
      (a string is iterated as its one-character strings). */
  function SortedItems(v: Value): (r: Option<multiset<Value>>)
    ensures r.Some? <==> v.List? || v.Str?
    ensures r.Some? ==> |r.value| == if v.List? then |v.items| else |v.text|
  {
    match v
    case List(items) => Some(multiset(items))
    case Str(s) => Some(multiset(seq(|s|, i requires 0 <= i < |s| => Str([s[i]]))))
    case Num(_) => None
    case Null => None
  }

  /** Reference rule for a correct answer: equal to the key, or a list whose
      elements are a rearrangement of the key's. */
  predicate Matches(answer: Value, expected: Value)
    ensures answer == expected ==> Matches(answer, expected)
    ensures Matches(answer, expected) && answer != expected ==>
      answer.List? && (expected.List? || expected.Str?)
  {
    answer == expected || (answer.List? && SortedItems(expected) == Some(multiset(answer.items)))
  }

  /** A list answer checked against a key that cannot be sorted. */
  predicate Unsortable(answer: Value, expected: Value) {
    answer != expected && answer.List? && SortedItems(expected).None?
  }

  function Award(full: bool, i: nat, points: seq<real>): Result<Option<(real, real)>, Exception> {
    if i < |points| then Success(Some((if full then points[i] else 0.0, points[i])))
    else Failure(IndexError)
  }

  /** One turn of the scoring loop for the part at position i: None when
      the part was not answered, otherwise its (earned, possible) pair. */
  function PartScore(key: string, expected: Value, i: nat, points: seq<real>,
                     responses: map<string, Value>): (r: Result<Option<(real, real)>, Exception>)
    ensures r == Success(None) <==> key !in responses
    ensures r.Success? && r.value.Some? ==>
      i < |points| && r.value.value.1 == points[i] && (r.value.value.0 == points[i] || r.value.value.0 == 0.0)
    ensures r == Failure(IndexError) ==> key in responses && i >= |points|
    ensures r == Failure(TypeError) ==> key in responses && Unsortable(responses[key], expected)
  {
    if key !in responses then Success(None)
    else
      var answer := responses[key];
      if answer == expected then Award(true, i, points)
      else if answer.List? then
        match SortedItems(expected)
        case None => Failure(TypeError)
        case Some(sorted) => Award(multiset(answer.items) == sorted, i, points)
      else Award(false, i, points)
  }

  /** The scores after the loop has handled the first n parts. */
  function ScoreParts(solutions: seq<(string, Value)>, points: seq<real>,
                      responses: map<string, Value>, n: nat): (r: Result<map<string, (real, real)>, Exception>)
    requires n <= |solutions|
    ensures r.Success? ==> r.value.Keys <= responses.Keys
    ensures r.Success? ==> forall k :: k in r.value ==> r.value[k].0 == r.value[k].1 || r.value[k].0 == 0.0
  {
    if n == 0 then Success(map[])
    else
      match ScoreParts(solutions, points, responses, n - 1)
      case Failure(e) => Failure(e)
      case Success(scores) =>
        match PartScore(solutions[n - 1].0, solutions[n - 1].1, n - 1, points, responses)
        case Failure(e) => Failure(e)
        case Success(None) => Success(scores)
        case Success(Some(s)) => Success(scores[solutions[n - 1].0 := s])
  }

  /** The whole call: resolve term, week, assignment and question in that
      order, fetch the answer key, then score the parts. */
  function Calculate(registry: Registry, term: string, week: string, assignment: string,
                     question: string, responses: map<string, Value>): (r: Outcome)
    ensures r.Scores? ==> r.parts.Keys <= responses.Keys
    ensures r.Message? ==> r.text in {"Invalid term: " + term, "Invalid week: " + week,
      "Invalid assignment: " + assignment, "Invalid question: " + question, "Error fetching solution"}
  {
    if ModuleName([term]) !in registry then Message("Invalid term: " + term)
    else if ModuleName([term, week]) !in registry then Message("Invalid week: " + week)
    else if ModuleName([term, week, assignment]) !in registry then Message("Invalid assignment: " + assignment)
    else if ModuleName([term, week, assignment, question]) !in registry then Message("Invalid question: " + question)
    else
      var m := registry[ModuleName([term, week, assignment, question])];
      if m.solutions.None? || m.totalPoints.None? then Message("Error fetching solution")
      else
        match ScoreParts(m.solutions.value, m.totalPoints.value, responses, |m.solutions.value|)
        case Success(scores) => Scores(scores)
        case Failure(e) => Raised(e)
  }

  /** The scorer: straight-line lookups, then one pass over the answer key. */
  method CalculateScore(registry: Registry, term: string, week: string, assignment: string,
                        question: string, responses: map<string, Value>) returns (r: Outcome)
    ensures r == Calculate(registry, term, week, assignment, question, responses)
  {
    if ModuleName([term]) !in registry { return Message("Invalid term: " + term); }
    if ModuleName([term, week]) !in registry { return Message("Invalid week: " + week); }
    if ModuleName([term, week, assignment]) !in registry {
      return Message("Invalid assignment: " + assignment);
    }
    var questionModule := ModuleName([term, week, assignment, question]);
    if questionModule !in registry { return Message("Invalid question: " + question); }
    var m := registry[questionModule];
    if m.solutions.None? || m.totalPoints.None? { return Message("Error fetching solution"); }
    var solutions, points := m.solutions.value, m.totalPoints.value;

    var scores := map[];
    for i := 0 to |solutions|
      invariant ScoreParts(solutions, points, responses, i) == Success(scores)
    {
      var (key, expected) := solutions[i];
      if key !in responses {
        continue;
      }
      var answer := responses[key];
      var full: bool;
      if answer == expected {
        full := true;
      } else if answer.List? {
        var sorted := SortedItems(expected);
        if sorted.None? {
          FailureSpreads(solutions, points, responses, i + 1, |solutions|, TypeError);
          return Raised(TypeError);
        }
        full := multiset(answer.items) == sorted.value;
      } else {
        full := false;
      }
      if i >= |points| {
        FailureSpreads(solutions, points, responses, i + 1, |solutions|, IndexError);
        return Raised(IndexError);
      }
      scores := scores[key := (if full then points[i] else 0.0, points[i])];
    }
    return Scores(scores);
  }

  /** The first exception ends the loop: later parts cannot undo it. */
  lemma {:induction false} FailureSpreads(solutions: seq<(string, Value)>, points: seq<real>,
                                          responses: map<string, Value>, i: nat, n: nat, e: Exception)
    requires i <= n <= |solutions|
    requires ScoreParts(solutions, points, responses, i) == Failure(e)
    ensures ScoreParts(solutions, points, responses, n) == Failure(e)
    decreases n
  {
    if i < n {
      FailureSpreads(solutions, points, responses, i, n - 1, e);
    }
  }

  /** Each level's message names that level, so the messages of different
      levels never coincide, nor with the attribute-fetch message. */
  lemma LookupMessagesDiffer(term: string, week: string, assignment: string, question: string)
    ensures "Invalid term: " + term != "Invalid week: " + week
    ensures "Invalid term: " + term != "Invalid assignment: " + assignment
    ensures "Invalid term: " + term != "Invalid question: " + question
    ensures "Invalid week: " + week != "Invalid assignment: " + assignment
    ensures "Invalid week: " + week != "Invalid question: " + question
    ensures "Invalid assignment: " + assignment != "Invalid question: " + question
    ensures "Invalid term: " + term != "Error fetching solution"
    ensures "Invalid week: " + week != "Error fetching solution"
    ensures "Invalid assignment: " + assignment != "Error fetching solution"
    ensures "Invalid question: " + question != "Error fetching solution"
  {
    assert ("Invalid term: " + term)[8] == 't';
    assert ("Invalid week: " + week)[8] == 'w';
    assert ("Invalid assignment: " + assignment)[8] == 'a';
    assert ("Invalid question: " + question)[8] == 'q';
    assert ("Invalid term: " + term)[0] == 'I';
    assert ("Invalid week: " + week)[0] == 'I';
    assert ("Invalid assignment: " + assignment)[0] == 'I';
    assert ("Invalid question: " + question)[0] == 'I';
    assert "Error fetching solution"[0] == 'E';
  }

  /** The lookup stops at the first missing level and reports that level;
      each message is returned exactly when its level is the first missing
      one, and the attribute message exactly when both attributes are
      needed and one is absent. */
  lemma LookupStopsAtFirstMissingLevel(registry: Registry, term: string, week: string, assignment: string,
                                       question: string, responses: map<string, Value>)
    ensures var r := Calculate(registry, term, week, assignment, question, responses);
      && (r == Message("Invalid term: " + term) <==> ModuleName([term]) !in registry)
      && (r == Message("Invalid week: " + week) <==>
            ModuleName([term]) in registry && ModuleName([term, week]) !in registry)
      && (r == Message("Invalid assignment: " + assignment) <==>
            ModuleName([term, week]) in registry && ModuleName([term]) in registry
            && ModuleName([term, week, assignment]) !in registry)
      && (r == Message("Invalid question: " + question) <==>
            ModuleName([term]) in registry && ModuleName([term, week]) in registry
            && ModuleName([term, week, assignment]) in registry
            && ModuleName([term, week, assignment, question]) !in registry)
  {
    LookupMessagesDiffer(term, week, assignment, question);
  }

  /** A resolved question module without `solutions` or `total_points`
      gives the fetch message, and nothing else does. */
  lemma FetchMessageIff(registry: Registry, term: string, week: string, assignment: string,
                        question: string, responses: map<string, Value>)
    ensures Calculate(registry, term, week, assignment, question, responses) == Message("Error fetching solution")
      <==>
        && ModuleName([term]) in registry && ModuleName([term, week]) in registry
        && ModuleName([term, week, assignment]) in registry
        && ModuleName([term, week, assignment, question]) in registry
        && var m := registry[ModuleName([term, week, assignment, question])];
           m.solutions.None? || m.totalPoints.None?
  {
    LookupMessagesDiffer(term, week, assignment, question);
  }

  /** The parts scored are exactly the answer-key parts that were answered;
      unanswered parts are skipped rather than reported. */
  lemma {:induction false} ScoredKeysAreAnswered(solutions: seq<(string, Value)>, points: seq<real>,
                                                  responses: map<string, Value>, n: nat)
    requires n <= |solutions|
    requires ScoreParts(solutions, points, responses, n).Success?
    ensures ScoreParts(solutions, points, responses, n).value.Keys == KeysOf(solutions[..n]) * responses.Keys
  {
    if n > 0 {
      ScoredKeysAreAnswered(solutions, points, responses, n - 1);
      assert solutions[..n] == solutions[..n - 1] + [solutions[n - 1]];
      assert KeysOf(solutions[..n]) == KeysOf(solutions[..n - 1]) + {solutions[n - 1].0};
    }
  }

  /** The part at position i scores (points[i], points[i]) when the answer
      matches and (0, points[i]) otherwise; in particular points[i] exists. */
  lemma {:induction false} PartAward(solutions: seq<(string, Value)>, points: seq<real>,
                                     responses: map<string, Value>, n: nat, i: nat)
    requires DistinctKeys(solutions)
    requires i < n <= |solutions|
    requires ScoreParts(solutions, points, responses, n).Success?
    requires solutions[i].0 in responses
    ensures i < |points|
    ensures var scores := ScoreParts(solutions, points, responses, n).value;
      var key := solutions[i].0;
      && key in scores
      && scores[key] == (if Matches(responses[key], solutions[i].1) then points[i] else 0.0, points[i])
  {
    if i < n - 1 {
      PartAward(solutions, points, responses, n - 1, i);
    }
  }

  /** An answer equal to the key earns all the part's points. */
  lemma ExactAnswerEarnsFull(solutions: seq<(string, Value)>, points: seq<real>,
                             responses: map<string, Value>, i: nat)
    requires DistinctKeys(solutions)
    requires i < |solutions|
    requires ScoreParts(solutions, points, responses, |solutions|).Success?
    requires solutions[i].0 in responses && responses[solutions[i].0] == solutions[i].1
    ensures i < |points| && solutions[i].0 in ScoreParts(solutions, points, responses, |solutions|).value
    ensures ScoreParts(solutions, points, responses, |solutions|).value[solutions[i].0] == (points[i], points[i])
  {
    PartAward(solutions, points, responses, |solutions|, i);
  }

  /** A list answer that is a rearrangement of a list key earns all the
      part's points. */
  lemma PermutedListEarnsFull(solutions: seq<(string, Value)>, points: seq<real>,
                              responses: map<string, Value>, i: nat)
    requires DistinctKeys(solutions)
    requires i < |solutions|
    requires ScoreParts(solutions, points, responses, |solutions|).Success?
    requires solutions[i].0 in responses && solutions[i].1.List? && responses[solutions[i].0].List?
    requires multiset(responses[solutions[i].0].items) == multiset(solutions[i].1.items)
    ensures i < |points| && solutions[i].0 in ScoreParts(solutions, points, responses, |solutions|).value
    ensures ScoreParts(solutions, points, responses, |solutions|).value[solutions[i].0] == (points[i], points[i])
  {
    PartAward(solutions, points, responses, |solutions|, i);
  }

  /** Scoring succeeds exactly when every answered part has a points entry
      and no list answer is checked against an unsortable key; an IndexError
      means some answered position lies beyond `total_points`. */
  lemma {:induction false} ScorePartsErrors(solutions: seq<(string, Value)>, points: seq<real>,
                                            responses: map<string, Value>, n: nat)
    requires n <= |solutions|
    ensures ScoreParts(solutions, points, responses, n).Success? <==>
      forall i :: 0 <= i < n && solutions[i].0 in responses ==>
        i < |points| && !Unsortable(responses[solutions[i].0], solutions[i].1)
    ensures ScoreParts(solutions, points, responses, n) == Failure(IndexError) ==>
      exists i :: 0 <= i < n && solutions[i].0 in responses && |points| <= i
    ensures ScoreParts(solutions, points, responses, n) == Failure(TypeError) ==>
      exists i :: 0 <= i < n && solutions[i].0 in responses && Unsortable(responses[solutions[i].0], solutions[i].1)
  {
    if n > 0 {
      ScorePartsErrors(solutions, points, responses, n - 1);
    }
  }

  /** An answer key with a plain part and a list part, worth 2 and 3. */
  const TwoPartKey: seq<(string, Value)> := [("a", Str("x")), ("b", List([Str("1"), Str("2")]))]

  /** Answering both parts, the list one out of order, scores both in full;
      the result is the per-part map, not a single total. */
  lemma ReorderedListScenario()
    ensures ScoreParts(TwoPartKey, [2.0, 3.0], map["a" := Str("x"), "b" := List([Str("2"), Str("1")])], 2)
         == Success(map["a" := (2.0, 2.0), "b" := (3.0, 3.0)])
  {
    assert multiset([Str("2"), Str("1")]) == multiset([Str("1"), Str("2")]);
  }

  /** Leaving a part out drops it from the result: neither its points nor
      an error appear. */
  lemma MissingPartScenario()
    ensures ScoreParts(TwoPartKey, [2.0, 3.0], map["a" := Str("x")], 2) == Success(map["a" := (2.0, 2.0)])
  {
  }
}
