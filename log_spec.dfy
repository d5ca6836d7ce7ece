/**
  What `LogParser` (app/parse.py) computes, stated on values: the records it
  builds, how one log line is read, and the three passes over the lines
  (question discovery forwards, then the header pass and the entry pass,
  each from the last line to the first). The class in module LogParse is
  proved to do exactly this; the lemmas in modules LogDiscovery, LogWinners
  and LogResults say what it means.
 */
module LogSpec {
  import opened Wrappers
  import opened Strings

  /** The "Student Info" record: `{student_id, username, timestamp}`. */
  datatype StudentInfo = StudentInfo(studentId: string, username: string, timestamp: string)

  /** One question's score inside a notebook: `{score_earned, score_possible, timestamp}`. */
  datatype QuestionScore = QuestionScore(scoreEarned: real, scorePossible: real, timestamp: string)

  /**
    The `max_points` key of a notebook record: absent (records created by an
    entry line), or set from a `total-points` header, whose value may have
    failed to parse (`None`).
   */
  datatype MaxPoints = Unset | Declared(points: Option<real>)

  /** The `notebook` and `assignment` keys, present only on records a header line created. */
  datatype HeaderInfo = HeaderInfo(notebook: string, assignment: Option<string>)

  /** One entry of `assignments`, keyed by notebook (header field 3) or assignment tag (entry field 0). */
  datatype Notebook = Notebook(
    header: Option<HeaderInfo>,
    maxPoints: MaxPoints,
    totalScore: real,
    latestTimestamp: string,
    questions: map<string, QuestionScore>)

  /**
    What `parse_logs` raises: IndexError for a missing comma field, ValueError
    for a second distinct username or for a score that `float` rejects.
   */
  datatype ParseError = IndexError | MultipleStudents(usernames: set<string>) | NotANumber(text: string)

  /** Python's `float(text)`: a partial parser, supplied by the caller. */
  type FloatParser = string -> Option<real>

  const TotalPoints: string := "total-points"
  const StudentInfoPrefix: string := "Student Info"

  /** `line.split(",")`. */
  function Fields(line: string): (parts: seq<string>)
    ensures |parts| >= 1
  {
    Split(line, ",")
  }

  /** `parts[-1].strip()`: every scoring line carries its timestamp in its last field. */
  function Stamp(line: string): string
  {
    var parts := Fields(line);
    Strip(parts[|parts| - 1])
  }

  // ---------------------------------------------------------------------
  // Question discovery (`_find_all_questions`)
  // ---------------------------------------------------------------------

  /** `self.week_tag and self.week_tag in line`: an absent or empty tag matches nothing. */
  predicate MentionsWeek(weekTag: Option<string>, line: string)
  {
    weekTag.Some? && weekTag.value != "" && Contains(line, weekTag.value)
  }

  /** `line.split(",")[3].strip()`, the question tag of a line that mentions the week. */
  function QuestionTag(line: string): Result<string, ParseError>
  {
    var parts := Fields(line);
    if |parts| < 4 then Failure(IndexError) else Success(Strip(parts[3]))
  }

  /** One step of discovery: append the line's question tag unless already known. */
  function DiscoverLine(questions: seq<string>, weekTag: Option<string>, line: string): Result<seq<string>, ParseError>
  {
    if !MentionsWeek(weekTag, line) then Success(questions)
    else match QuestionTag(line)
      case Failure(e) => Failure(e)
      case Success(tag) => Success(if tag in questions then questions else questions + [tag])
  }

  /** The question tags of `lines`, in the order the forward scan meets them first. */
  function Discover(lines: seq<string>, weekTag: Option<string>): (r: Result<seq<string>, ParseError>)
    ensures r.Success? ==> Distinct(r.value)
    ensures (weekTag.None? || weekTag == Some("")) ==> r == Success([])
    ensures r.Failure? ==> r.error == IndexError
    decreases |lines|
  {
    if lines == [] then Success([])
    else match Discover(lines[..|lines| - 1], weekTag)
      case Failure(e) => Failure(e)
      case Success(qs) => DiscoverLine(qs, weekTag, lines[|lines| - 1])
  }

  /** No element occurs twice. */
  predicate Distinct<T(==)>(s: seq<T>)
  {
    forall i, j :: 0 <= i < j < |s| ==> s[i] != s[j]
  }

  /** `any(item in line for item in self.all_questions)`. */
  predicate MentionsAny(line: string, questions: seq<string>)
  {
    exists i | 0 <= i < |questions| :: Contains(line, questions[i])
  }

  // ---------------------------------------------------------------------
  // Student info (`_is_student_info`, `_process_student_info`)
  // ---------------------------------------------------------------------

  predicate IsStudentInfoLine(line: string)
  {
    StartsWith(line, StudentInfoPrefix)
  }

  /**
    One student-info line: its username (field 2 after splitting on ", ")
    joins the set of names; a second name is an error; the first line met
    sets the record, later ones leave it alone.
   */
  function StudentLine(students: set<string>, info: Option<StudentInfo>, line: string)
    : (r: Result<(set<string>, Option<StudentInfo>), ParseError>)
    ensures r.Success? ==> students <= r.value.0 && |r.value.0| == 1 && r.value.1.Some?
    ensures r.Success? && info.Some? ==> r.value.1 == info
    ensures r.Failure? && r.error.MultipleStudents? ==> students <= r.error.usernames && |r.error.usernames| > 1
    ensures r.Failure? ==> r.error == IndexError || r.error.MultipleStudents?
  {
    var parts := Split(line, ", ");
    if |parts| < 3 then Failure(IndexError)
    else
      var name := Strip(parts[2]);
      var names := students + {name};
      assert name in names;
      if |names| > 1 then Failure(MultipleStudents(names))
      else if info.Some? then Success((names, info))
      else if |parts| < 4 then Failure(IndexError)
      else Success((names, Some(StudentInfo(Strip(parts[1]), name, Strip(parts[3])))))
  }

  // ---------------------------------------------------------------------
  // Notebook headers (`_process_assignment_header`, `_extract_total_points`)
  // ---------------------------------------------------------------------

  /** A `total-points` declaration: notebook (field 3), value (field 1) and timestamp (last field). */
  datatype Declaration = Declaration(notebook: string, maxPoints: Option<real>, timestamp: string)

  /** `_extract_total_points`: field 1 as a number, `None` when it is missing or not a number. */
  function ExtractTotalPoints(parts: seq<string>, parseFloat: FloatParser): (r: Option<real>)
    ensures r.Some? <==> |parts| >= 2 && parseFloat(Strip(parts[1])).Some?
    ensures r.Some? ==> parseFloat(Strip(parts[1])) == r
  {
    if |parts| < 2 then None else parseFloat(Strip(parts[1]))
  }

  /** Reads a header line: `None` unless field 0 starts with "total-points". */
  function ParseHeader(line: string, parseFloat: FloatParser): (r: Result<Option<Declaration>, ParseError>)
    ensures r.Failure? ==> r.error == IndexError
    ensures r.Success? && r.value.Some? ==> |Fields(line)| >= 4 && r.value.value.timestamp == Stamp(line)
  {
    var parts := Fields(line);
    if !StartsWith(Strip(parts[0]), TotalPoints) then Success(None)
    else if |parts| < 4 then Failure(IndexError)
    else Success(Some(Declaration(Strip(parts[3]), ExtractTotalPoints(parts, parseFloat), Stamp(line))))
  }

  /**
    Applies a declaration: a new notebook gets a header record; a known one
    takes the new value and timestamp only when the timestamp is strictly
    later than its latest one.
   */
  function Declare(notebooks: map<string, Notebook>, d: Declaration, weekTag: Option<string>): (r: map<string, Notebook>)
    ensures r.Keys == notebooks.Keys + {d.notebook}
    ensures forall n :: n in notebooks && n != d.notebook ==> r[n] == notebooks[n]
    ensures d.notebook in notebooks ==> r[d.notebook].questions == notebooks[d.notebook].questions
    ensures d.notebook in notebooks ==> r[d.notebook].header == notebooks[d.notebook].header
  {
    if d.notebook !in notebooks then
      notebooks[d.notebook := Notebook(Some(HeaderInfo(d.notebook, weekTag)), Declared(d.maxPoints), 0.0, d.timestamp, map[])]
    else if Less(notebooks[d.notebook].latestTimestamp, d.timestamp) then
      notebooks[d.notebook := notebooks[d.notebook].(maxPoints := Declared(d.maxPoints), latestTimestamp := d.timestamp)]
    else notebooks
  }

  function HeaderStep(notebooks: map<string, Notebook>, line: string, weekTag: Option<string>, parseFloat: FloatParser)
    : Result<map<string, Notebook>, ParseError>
  {
    match ParseHeader(line, parseFloat)
    case Failure(e) => Failure(e)
    case Success(None) => Success(notebooks)
    case Success(Some(d)) => Success(Declare(notebooks, d, weekTag))
  }

  // ---------------------------------------------------------------------
  // Question entries (`_process_assignment_entry`)
  // ---------------------------------------------------------------------

  /** A scoring line: notebook tag (field 0), question tag (field 1) and its score. */
  datatype Entry = Entry(notebook: string, question: string, score: QuestionScore)

  /** Field `k` as a number, 0.0 when the line has no field `k`. */
  function ScoreField(parts: seq<string>, k: nat, parseFloat: FloatParser): Result<real, ParseError>
  {
    if |parts| <= k then Success(0.0)
    else match parseFloat(Strip(parts[k]))
      case None => Failure(NotANumber(Strip(parts[k])))
      case Some(x) => Success(x)
  }

  /** Reads an entry line; a line without field 1 or with a score that is not a number is an error. */
  function ParseEntry(line: string, parseFloat: FloatParser): (r: Result<Entry, ParseError>)
    ensures r.Failure? ==> r.error == IndexError || r.error.NotANumber?
    ensures r.Success? ==> |Fields(line)| >= 2 && r.value.score.timestamp == Stamp(line)
  {
    var parts := Fields(line);
    if |parts| < 2 then Failure(IndexError)
    else match ScoreField(parts, 2, parseFloat)
      case Failure(e) => Failure(e)
      case Success(earned) =>
        match ScoreField(parts, 3, parseFloat)
        case Failure(e) => Failure(e)
        case Success(possible) =>
          Success(Entry(Strip(parts[0]), Strip(parts[1]), QuestionScore(earned, possible, Stamp(line))))
  }

  /**
    Records an entry: creates the notebook if needed (its latest timestamp
    is the entry's), stores the score when the question is new or the
    entry's timestamp is strictly later than the stored one, and raises the
    notebook's latest timestamp.
   */
  function Record(notebooks: map<string, Notebook>, e: Entry): (r: map<string, Notebook>)
    ensures r.Keys == notebooks.Keys + {e.notebook}
    ensures forall n :: n in notebooks && n != e.notebook ==> r[n] == notebooks[n]
    ensures e.question in r[e.notebook].questions
    ensures r[e.notebook].questions.Keys == (if e.notebook in notebooks then notebooks[e.notebook].questions.Keys else {}) + {e.question}
    ensures e.notebook in notebooks ==>
      r[e.notebook].header == notebooks[e.notebook].header && r[e.notebook].maxPoints == notebooks[e.notebook].maxPoints
  {
    var ts := e.score.timestamp;
    var nb := if e.notebook in notebooks then notebooks[e.notebook] else Notebook(None, Unset, 0.0, ts, map[]);
    var questions :=
      if e.question !in nb.questions || Less(nb.questions[e.question].timestamp, ts)
      then nb.questions[e.question := e.score]
      else nb.questions;
    var latest := if Less(nb.latestTimestamp, ts) then ts else nb.latestTimestamp;
    notebooks[e.notebook := nb.(questions := questions, latestTimestamp := latest)]
  }

  function EntryStep(notebooks: map<string, Notebook>, line: string, parseFloat: FloatParser)
    : Result<map<string, Notebook>, ParseError>
  {
    match ParseEntry(line, parseFloat)
    case Failure(e) => Failure(e)
    case Success(e) => Success(Record(notebooks, e))
  }

  // ---------------------------------------------------------------------
  // The passes of `parse_logs`
  // ---------------------------------------------------------------------

  /** What the header pass carries: the usernames seen, the student record, the notebooks. */
  datatype PassState = PassState(students: set<string>, info: Option<StudentInfo>, notebooks: map<string, Notebook>)

  /** A line the header pass treats as a notebook header. */
  predicate IsHeaderLine(line: string, questions: seq<string>)
  {
    !IsStudentInfoLine(line) && MentionsAny(line, questions) && Contains(line, TotalPoints)
  }

  /** A line the entry pass treats as a question entry (student-info lines are not excluded). */
  predicate IsEntryLine(line: string, questions: seq<string>)
  {
    MentionsAny(line, questions) && !Contains(line, TotalPoints)
  }

  function HeaderPassLine(st: PassState, line: string, questions: seq<string>, weekTag: Option<string>, parseFloat: FloatParser)
    : Result<PassState, ParseError>
  {
    if IsStudentInfoLine(line) then
      match StudentLine(st.students, st.info, line)
      case Failure(e) => Failure(e)
      case Success(r) => Success(st.(students := r.0, info := r.1))
    else if IsHeaderLine(line, questions) then
      match HeaderStep(st.notebooks, line, weekTag, parseFloat)
      case Failure(e) => Failure(e)
      case Success(nbs) => Success(st.(notebooks := nbs))
    else Success(st)
  }

  /** The header pass over `lines[i..]`, from the last line down to line `i`. */
  function HeaderPass(lines: seq<string>, i: nat, questions: seq<string>, weekTag: Option<string>, parseFloat: FloatParser, init: PassState)
    : (r: Result<PassState, ParseError>)
    requires i <= |lines|
    ensures r.Success? ==> init.students <= r.value.students && init.notebooks.Keys <= r.value.notebooks.Keys
    ensures r.Success? && init.info.Some? ==> r.value.info == init.info
    decreases |lines| - i
  {
    if i == |lines| then Success(init)
    else match HeaderPass(lines, i + 1, questions, weekTag, parseFloat, init)
      case Failure(e) => Failure(e)
      case Success(st) => HeaderPassLine(st, lines[i], questions, weekTag, parseFloat)
  }

  function EntryPassLine(notebooks: map<string, Notebook>, line: string, questions: seq<string>, parseFloat: FloatParser)
    : Result<map<string, Notebook>, ParseError>
  {
    if IsEntryLine(line, questions) then EntryStep(notebooks, line, parseFloat) else Success(notebooks)
  }

  /** The entry pass over `lines[i..]`, from the last line down to line `i`. */
  function EntryPass(lines: seq<string>, i: nat, questions: seq<string>, parseFloat: FloatParser, init: map<string, Notebook>)
    : (r: Result<map<string, Notebook>, ParseError>)
    requires i <= |lines|
    ensures r.Success? ==> init.Keys <= r.value.Keys
    decreases |lines| - i
  {
    if i == |lines| then Success(init)
    else match EntryPass(lines, i + 1, questions, parseFloat, init)
      case Failure(e) => Failure(e)
      case Success(nbs) => EntryPassLine(nbs, lines[i], questions, parseFloat)
  }

  /** The fields `parse_logs` leaves behind. */
  datatype Parsed = Parsed(questions: seq<string>, info: Option<StudentInfo>, notebooks: map<string, Notebook>)

  /** `parse_logs` from the given student record and notebooks. */
  function Parse(lines: seq<string>, weekTag: Option<string>, parseFloat: FloatParser, info: Option<StudentInfo>, notebooks: map<string, Notebook>)
    : (r: Result<Parsed, ParseError>)
    ensures r.Success? ==> notebooks.Keys <= r.value.notebooks.Keys && Distinct(r.value.questions)
    ensures r.Success? && info.Some? ==> r.value.info == info
  {
    match Discover(lines, weekTag)
    case Failure(e) => Failure(e)
    case Success(qs) =>
      match HeaderPass(lines, 0, qs, weekTag, parseFloat, PassState({}, info, notebooks))
      case Failure(e) => Failure(e)
      case Success(st) =>
        match EntryPass(lines, 0, qs, parseFloat, st.notebooks)
        case Failure(e) => Failure(e)
        case Success(nbs) => Success(Parsed(qs, st.info, nbs))
  }

  // ---------------------------------------------------------------------
  // Totals and results (`calculate_total_scores`, `get_results`)
  // ---------------------------------------------------------------------

  /** Some question of a non-empty map; the sum below does not depend on which. */
  ghost function AnyQuestion(questions: map<string, QuestionScore>): (k: string)
    requires |questions| > 0
    ensures k in questions
  {
    var k :| k in questions; k
  }

  /** `sum(q["score_earned"] for q in questions.values())`. */
  ghost function SumEarned(questions: map<string, QuestionScore>): real
    decreases |questions|
  {
    if |questions| == 0 then 0.0
    else
      var k := AnyQuestion(questions);
      assert (questions - {k}).Keys == questions.Keys - {k};
      questions[k].scoreEarned + SumEarned(questions - {k})
  }

  /** Every notebook with its total set to the sum of its questions' earned scores. */
  ghost function WithTotals(notebooks: map<string, Notebook>): map<string, Notebook>
  {
    map n | n in notebooks :: notebooks[n].(totalScore := SumEarned(notebooks[n].questions))
  }

  /** `data.get("max_points", 0.0)`. */
  function ReportedMaxPoints(m: MaxPoints): Option<real>
  {
    match m
    case Unset => Some(0.0)
    case Declared(p) => p
  }

  datatype Summary = Summary(latestTimestamp: string, totalScore: real, maxPoints: Option<real>)
  datatype Scores = Scores(questions: map<string, QuestionScore>, totalScore: real)

  /** The three sections `get_results` returns. */
  datatype Results = Results(
    studentInformation: Option<StudentInfo>,
    assignmentInformation: map<string, Summary>,
    assignmentScores: map<string, Scores>)

  // ---------------------------------------------------------------------
  // Facts the class's proof needs about these definitions
  // ---------------------------------------------------------------------

  /** An error raised while scanning a prefix is the error of the whole scan. */
  lemma {:induction false} DiscoverFailureSpreads(lines: seq<string>, weekTag: Option<string>, n: nat)
    requires n <= |lines| && Discover(lines[..n], weekTag).Failure?
    ensures Discover(lines, weekTag) == Discover(lines[..n], weekTag)
    decreases |lines| - n
  {
    if n < |lines| {
      assert lines[..n + 1][..n] == lines[..n];
      DiscoverFailureSpreads(lines, weekTag, n + 1);
    } else {
      assert lines[..n] == lines;
    }
  }

  /** An error raised at line `i` of the header pass is the error of the whole pass. */
  lemma {:induction false} HeaderPassFailureSpreads(lines: seq<string>, i: nat, questions: seq<string>, weekTag: Option<string>, parseFloat: FloatParser, init: PassState)
    requires i <= |lines| && HeaderPass(lines, i, questions, weekTag, parseFloat, init).Failure?
    ensures HeaderPass(lines, 0, questions, weekTag, parseFloat, init) == HeaderPass(lines, i, questions, weekTag, parseFloat, init)
    decreases i
  {
    if i > 0 {
      HeaderPassFailureSpreads(lines, i - 1, questions, weekTag, parseFloat, init);
    }
  }

  /** An error raised at line `i` of the entry pass is the error of the whole pass. */
  lemma {:induction false} EntryPassFailureSpreads(lines: seq<string>, i: nat, questions: seq<string>, parseFloat: FloatParser, init: map<string, Notebook>)
    requires i <= |lines| && EntryPass(lines, i, questions, parseFloat, init).Failure?
    ensures EntryPass(lines, 0, questions, parseFloat, init) == EntryPass(lines, i, questions, parseFloat, init)
    decreases i
  {
    if i > 0 {
      EntryPassFailureSpreads(lines, i - 1, questions, parseFloat, init);
    }
  }

  /** The sum does not depend on which question is taken first. */
  lemma {:induction false} SumEarnedPick(questions: map<string, QuestionScore>, k: string)
    requires k in questions
    ensures SumEarned(questions) == questions[k].scoreEarned + SumEarned(questions - {k})
    decreases |questions|
  {
    assert |questions| != 0 by { assert k in questions.Keys; }
    var j := AnyQuestion(questions);
    if j != k {
      var withoutJ := questions - {j};
      var withoutK := questions - {k};
      assert withoutJ.Keys == questions.Keys - {j};
      assert withoutK.Keys == questions.Keys - {k};
      SumEarnedPick(withoutJ, k);
      SumEarnedPick(withoutK, j);
      assert withoutJ - {k} == withoutK - {j};
    }
  }
}
