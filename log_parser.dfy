/**
  `LogParser` (app/parse.py): a parser object over the lines of one uploaded
  execution log. Its methods update `studentInfo`, `assignments` and
  `allQuestions` in place; each is proved to leave exactly the state the
  matching definition of module LogSpec describes. A raised exception is an
  error value returned to the caller.
 */
module LogParse {
  import opened Wrappers
  import opened Strings
  import opened LogSpec

  class LogParser {
    const logLines: seq<string>
    const weekTag: Option<string>
    /** Python's `float`, which this model does not define. */
    const parseFloat: FloatParser
    var studentInfo: Option<StudentInfo>
    var assignments: map<string, Notebook>
    var allQuestions: seq<string>

    constructor (logLines: seq<string>, weekTag: Option<string>, parseFloat: FloatParser)
      ensures this.logLines == logLines && this.weekTag == weekTag && this.parseFloat == parseFloat
      ensures studentInfo == None && assignments == map[] && allQuestions == []
    {
      this.logLines := logLines;
      this.weekTag := weekTag;
      this.parseFloat := parseFloat;
      studentInfo := None;
      assignments := map[];
      allQuestions := [];
    }

    /**
      `parse_logs`: discover the question tags, then read the student record
      and the notebook headers from the last line up, then the question
      entries from the last line up. On an error the fields hold whatever
      the passes had reached.
     */
    method ParseLogs() returns (err: Option<ParseError>)
      modifies this
      ensures var r := Parse(logLines, weekTag, parseFloat, old(studentInfo), old(assignments));
        && (err.None? <==> r.Success?)
        && (r.Success? ==> allQuestions == r.value.questions && studentInfo == r.value.info && assignments == r.value.notebooks)
        && (r.Failure? ==> err == Some(r.error))
    {
      err := FindAllQuestions();
      if err.Some? {
        return;
      }
      err := ReadHeaders();
      if err.Some? {
        return;
      }
      err := ReadEntries();
    }

    /** The first reverse loop of `parse_logs`: student-info lines and notebook headers. */
    method ReadHeaders() returns (err: Option<ParseError>)
      modifies this`studentInfo, this`assignments
      ensures var r := HeaderPass(logLines, 0, allQuestions, weekTag, parseFloat, PassState({}, old(studentInfo), old(assignments)));
        && (err.None? <==> r.Success?)
        && (r.Success? ==> studentInfo == r.value.info && assignments == r.value.notebooks)
        && (r.Failure? ==> err == Some(r.error))
    {
      ghost var init := PassState({}, studentInfo, assignments);
      var students: set<string> := {};
      var i := |logLines|;
      while i > 0
        invariant 0 <= i <= |logLines|
        invariant HeaderPass(logLines, i, allQuestions, weekTag, parseFloat, init) == Success(PassState(students, studentInfo, assignments))
      {
        i := i - 1;
        var line := logLines[i];
        ghost var st := PassState(students, studentInfo, assignments);
        assert HeaderPass(logLines, i, allQuestions, weekTag, parseFloat, init) == HeaderPassLine(st, line, allQuestions, weekTag, parseFloat);
        if IsStudentInfoLine(line) {
          var names, e := ProcessStudentInfo(line, students);
          if e.Some? {
            HeaderPassFailureSpreads(logLines, i, allQuestions, weekTag, parseFloat, init);
            return e;
          }
          students := names;
        } else if MentionsAny(line, allQuestions) && Contains(line, TotalPoints) {
          var e := ProcessAssignmentHeader(line);
          if e.Some? {
            HeaderPassFailureSpreads(logLines, i, allQuestions, weekTag, parseFloat, init);
            return e;
          }
        }
      }
      err := None;
    }

    /** The second reverse loop of `parse_logs`: question entries. */
    method ReadEntries() returns (err: Option<ParseError>)
      modifies this`assignments
      ensures var r := EntryPass(logLines, 0, allQuestions, parseFloat, old(assignments));
        && (err.None? <==> r.Success?)
        && (r.Success? ==> assignments == r.value)
        && (r.Failure? ==> err == Some(r.error))
    {
      ghost var headed := assignments;
      var i := |logLines|;
      while i > 0
        invariant 0 <= i <= |logLines|
        invariant EntryPass(logLines, i, allQuestions, parseFloat, headed) == Success(assignments)
      {
        i := i - 1;
        var line := logLines[i];
        assert EntryPass(logLines, i, allQuestions, parseFloat, headed) == EntryPassLine(assignments, line, allQuestions, parseFloat);
        if MentionsAny(line, allQuestions) && !Contains(line, TotalPoints) {
          var e := ProcessAssignmentEntry(line);
          if e.Some? {
            EntryPassFailureSpreads(logLines, i, allQuestions, parseFloat, headed);
            return e;
          }
        }
      }
      err := None;
    }

    /** `_find_all_questions`: the stripped fourth field of every line that mentions the week tag, once each. */
    method FindAllQuestions() returns (err: Option<ParseError>)
      modifies this`allQuestions
      ensures var r := Discover(logLines, weekTag);
        && (err.None? <==> r.Success?)
        && (r.Success? ==> allQuestions == r.value)
        && (r.Failure? ==> err == Some(r.error) && allQuestions == old(allQuestions))
    {
      var questions: seq<string> := [];
      var i := 0;
      while i < |logLines|
        invariant 0 <= i <= |logLines|
        invariant Discover(logLines[..i], weekTag) == Success(questions)
      {
        var line := logLines[i];
        assert logLines[..i + 1][..i] == logLines[..i];
        if weekTag.Some? && weekTag.value != "" && Contains(line, weekTag.value) {
          var parts := Split(line, ",");
          if |parts| < 4 {
            DiscoverFailureSpreads(logLines, weekTag, i + 1);
            return Some(IndexError);
          }
          var questionTag := Strip(parts[3]);
          if questionTag !in questions {
            questions := questions + [questionTag];
          }
        }
        i := i + 1;
      }
      assert logLines[..i] == logLines;
      allQuestions := questions;
      err := None;
    }

    /**
      `_process_student_info`: the line's username joins `uniqueStudents`
      (returned as `students`); a second distinct name is an error; the
      record is set only if none is set yet.
     */
    method ProcessStudentInfo(line: string, uniqueStudents: set<string>) returns (students: set<string>, err: Option<ParseError>)
      modifies this`studentInfo
      ensures match StudentLine(uniqueStudents, old(studentInfo), line)
        case Success(r) => err.None? && students == r.0 && studentInfo == r.1
        case Failure(e) => err == Some(e) && studentInfo == old(studentInfo)
    {
      var parts := Split(line, ", ");
      if |parts| < 3 {
        return uniqueStudents, Some(IndexError);
      }
      var studentName := Strip(parts[2]);
      students := uniqueStudents + {studentName};
      if |students| > 1 {
        return students, Some(MultipleStudents(students));
      }
      if studentInfo.None? {
        if |parts| < 4 {
          return students, Some(IndexError);
        }
        studentInfo := Some(StudentInfo(Strip(parts[1]), studentName, Strip(parts[3])));
      }
      err := None;
    }

    /**
      `_process_assignment_header`: a line whose first field starts with
      "total-points" creates its notebook, or updates the notebook's value
      and latest timestamp when its own timestamp is strictly later.
     */
    method ProcessAssignmentHeader(line: string) returns (err: Option<ParseError>)
      modifies this`assignments
      ensures match HeaderStep(old(assignments), line, weekTag, parseFloat)
        case Success(nbs) => err.None? && assignments == nbs
        case Failure(e) => err == Some(e) && assignments == old(assignments)
    {
      var parts := Fields(line);
      var assignmentTag := Strip(parts[0]);
      if StartsWith(assignmentTag, TotalPoints) {
        var totalPoints := ExtractTotalPoints(parts, parseFloat);
        var timestamp := Stamp(line);
        if |parts| < 4 {
          return Some(IndexError);
        }
        var notebookName := Strip(parts[3]);
        ghost var d := Declaration(notebookName, totalPoints, timestamp);
        assert ParseHeader(line, parseFloat) == Success(Some(d));
        if notebookName !in assignments {
          assignments := assignments[notebookName := Notebook(Some(HeaderInfo(notebookName, weekTag)), Declared(totalPoints), 0.0, timestamp, map[])];
        } else if Less(assignments[notebookName].latestTimestamp, timestamp) {
          assignments := assignments[notebookName := assignments[notebookName].(maxPoints := Declared(totalPoints), latestTimestamp := timestamp)];
        }
        assert assignments == Declare(old(assignments), d, weekTag);
      }
      err := None;
    }

    /**
      `_process_assignment_entry`: reads notebook tag, question tag, earned
      and possible scores (0.0 when the field is missing) and timestamp, then
      stores the score unless a score with a later or equal timestamp is
      already there, and raises the notebook's latest timestamp.
     */
    method ProcessAssignmentEntry(line: string) returns (err: Option<ParseError>)
      modifies this`assignments
      ensures match EntryStep(old(assignments), line, parseFloat)
        case Success(nbs) => err.None? && assignments == nbs
        case Failure(e) => err == Some(e) && assignments == old(assignments)
    {
      var parts := Fields(line);
      if |parts| < 2 {
        return Some(IndexError);
      }
      var assignmentTag := Strip(parts[0]);
      var questionTag := Strip(parts[1]);
      var scoreEarned := 0.0;
      if |parts| > 2 {
        var x := parseFloat(Strip(parts[2]));
        if x.None? {
          return Some(NotANumber(Strip(parts[2])));
        }
        scoreEarned := x.value;
      }
      var scorePossible := 0.0;
      if |parts| > 3 {
        var x := parseFloat(Strip(parts[3]));
        if x.None? {
          return Some(NotANumber(Strip(parts[3])));
        }
        scorePossible := x.value;
      }
      var timestamp := Stamp(line);
      ghost var entry := Entry(assignmentTag, questionTag, QuestionScore(scoreEarned, scorePossible, timestamp));
      assert ParseEntry(line, parseFloat) == Success(entry);

      var notebook := if assignmentTag in assignments then assignments[assignmentTag] else Notebook(None, Unset, 0.0, timestamp, map[]);
      if questionTag !in notebook.questions || Less(notebook.questions[questionTag].timestamp, timestamp) {
        notebook := notebook.(questions := notebook.questions[questionTag := QuestionScore(scoreEarned, scorePossible, timestamp)]);
      }
      if Less(notebook.latestTimestamp, timestamp) {
        notebook := notebook.(latestTimestamp := timestamp);
      }
      assignments := assignments[assignmentTag := notebook];
      assert assignments == Record(old(assignments), entry);
      err := None;
    }

    /** `calculate_total_scores`: every notebook's total becomes the sum of its questions' earned scores. */
    method CalculateTotalScores()
      modifies this`assignments
      ensures assignments == WithTotals(old(assignments))
    {
      ghost var before := assignments;
      var remaining := assignments.Keys;
      while remaining != {}
        invariant remaining <= before.Keys == assignments.Keys
        invariant forall n :: n in assignments ==>
          assignments[n] == if n in remaining then before[n] else WithTotals(before)[n]
        decreases remaining
      {
        var n :| n in remaining;
        var total := SumScores(assignments[n].questions);
        assignments := assignments[n := assignments[n].(totalScore := total)];
        remaining := remaining - {n};
      }
      assert assignments.Keys == WithTotals(before).Keys;
    }

    /** `get_results`: the student record, each notebook's summary, and each notebook's question scores. */
    function GetResults(): (r: Results)
      reads this
      ensures r.studentInformation == studentInfo
      ensures r.assignmentInformation.Keys == assignments.Keys == r.assignmentScores.Keys
      ensures forall n :: n in assignments && assignments[n].maxPoints == Unset ==> r.assignmentInformation[n].maxPoints == Some(0.0)
      ensures forall n :: n in assignments && assignments[n].maxPoints.Declared? ==>
        r.assignmentInformation[n].maxPoints == assignments[n].maxPoints.points
      ensures forall n :: n in assignments ==>
        && r.assignmentScores[n].questions == assignments[n].questions
        && r.assignmentScores[n].totalScore == r.assignmentInformation[n].totalScore == assignments[n].totalScore
        && r.assignmentInformation[n].latestTimestamp == assignments[n].latestTimestamp
    {
      Results(
        studentInfo,
        map n | n in assignments :: Summary(assignments[n].latestTimestamp, assignments[n].totalScore, ReportedMaxPoints(assignments[n].maxPoints)),
        map n | n in assignments :: Scores(assignments[n].questions, assignments[n].totalScore))
    }
  }

  /** `sum(q["score_earned"] for q in questions.values())`, one question at a time. */
  method SumScores(questions: map<string, QuestionScore>) returns (total: real)
    ensures total == SumEarned(questions)
  {
    total := 0.0;
    var rest := questions;
    while rest != map[]
      invariant total + SumEarned(rest) == SumEarned(questions)
      decreases |rest|
    {
      var k :| k in rest;
      SumEarnedPick(rest, k);
      total := total + rest[k].scoreEarned;
      assert (rest - {k}).Keys == rest.Keys - {k};
      rest := rest - {k};
    }
  }
}
