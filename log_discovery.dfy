/**
  What question discovery and the student record of `LogParser`
  (app/parse.py) amount to: the question tags are exactly the tags of the
  lines that mention the week, once each, in the order they first appear;
  the pass fails exactly when such a line is too short; all "Student Info"
  lines of a log that parses name one student, and the record kept is the
  one of the physically last such line.
 */
module LogDiscovery {
  import opened Wrappers
  import opened Strings
  import opened LogSpec

  // ---------------------------------------------------------------------
  // Question discovery
  // ---------------------------------------------------------------------

  /** `line` mentions the week and its fourth field, stripped, is `q`. */
  predicate CarriesTag(weekTag: Option<string>, line: string, q: string)
  {
    MentionsWeek(weekTag, line) && QuestionTag(line) == Success(q)
  }

  /** Discovery fails exactly when a line that mentions the week has fewer than four comma fields. */
  lemma {:induction false} DiscoverFailsIff(lines: seq<string>, weekTag: Option<string>)
    ensures Discover(lines, weekTag).Failure? <==>
      exists j :: 0 <= j < |lines| && MentionsWeek(weekTag, lines[j]) && |Fields(lines[j])| < 4
    decreases |lines|
  {
    if lines != [] {
      var init := lines[..|lines| - 1];
      DiscoverFailsIff(init, weekTag);
      if exists j :: 0 <= j < |init| && MentionsWeek(weekTag, init[j]) && |Fields(init[j])| < 4 {
        var j :| 0 <= j < |init| && MentionsWeek(weekTag, init[j]) && |Fields(init[j])| < 4;
        assert lines[j] == init[j];
      }
      if exists j :: 0 <= j < |lines| && MentionsWeek(weekTag, lines[j]) && |Fields(lines[j])| < 4 {
        var j :| 0 <= j < |lines| && MentionsWeek(weekTag, lines[j]) && |Fields(lines[j])| < 4;
        if j < |init| {
          assert init[j] == lines[j];
        }
      }
    }
  }

  /** Every discovered tag is the tag of some line that mentions the week. */
  lemma {:induction false} DiscoverSound(lines: seq<string>, weekTag: Option<string>)
    requires Discover(lines, weekTag).Success?
    ensures var qs := Discover(lines, weekTag).value;
      forall k :: 0 <= k < |qs| ==> exists j :: 0 <= j < |lines| && CarriesTag(weekTag, lines[j], qs[k])
    decreases |lines|
  {
    if lines != [] {
      var init := lines[..|lines| - 1];
      var qs0 := Discover(init, weekTag).value;
      var qs := Discover(lines, weekTag).value;
      DiscoverSound(init, weekTag);
      assert |qs0| <= |qs| && qs[..|qs0|] == qs0;
      forall k | 0 <= k < |qs|
        ensures exists j :: 0 <= j < |lines| && CarriesTag(weekTag, lines[j], qs[k])
      {
        if k < |qs0| {
          var j :| 0 <= j < |init| && CarriesTag(weekTag, init[j], qs0[k]);
          assert lines[j] == init[j];
        } else {
          assert CarriesTag(weekTag, lines[|lines| - 1], qs[k]);
        }
      }
    }
  }

  /** The tag of every line that mentions the week is discovered. */
  lemma {:induction false} DiscoverComplete(lines: seq<string>, weekTag: Option<string>)
    requires Discover(lines, weekTag).Success?
    ensures forall j :: 0 <= j < |lines| && MentionsWeek(weekTag, lines[j]) ==>
      QuestionTag(lines[j]).Success? && QuestionTag(lines[j]).value in Discover(lines, weekTag).value
    decreases |lines|
  {
    if lines != [] {
      var init := lines[..|lines| - 1];
      DiscoverComplete(init, weekTag);
      forall j | 0 <= j < |lines| - 1 && MentionsWeek(weekTag, lines[j])
        ensures QuestionTag(lines[j]).Success? && QuestionTag(lines[j]).value in Discover(lines, weekTag).value
      {
        assert init[j] == lines[j];
      }
    }
  }

  /** What the scan of a prefix discovered is a prefix of what the whole scan discovers. */
  lemma {:induction false} DiscoverPrefix(lines: seq<string>, weekTag: Option<string>, n: nat)
    requires n <= |lines| && Discover(lines, weekTag).Success?
    ensures Discover(lines[..n], weekTag).Success?
    ensures var p := Discover(lines[..n], weekTag).value;
      var qs := Discover(lines, weekTag).value;
      |p| <= |qs| && qs[..|p|] == p
    decreases |lines|
  {
    if n == |lines| {
      assert lines[..n] == lines;
    } else {
      var init := lines[..|lines| - 1];
      assert init[..n] == lines[..n];
      DiscoverPrefix(init, weekTag, n);
    }
  }

  /**
    The tags come in the order of their first appearance: any line that
    carries a later tag is preceded by a line that carries an earlier one.
   */
  lemma DiscoverFirstOccurrenceOrder(lines: seq<string>, weekTag: Option<string>, a: nat, b: nat, j: nat)
    requires Discover(lines, weekTag).Success?
    requires a < b < |Discover(lines, weekTag).value|
    requires j < |lines| && CarriesTag(weekTag, lines[j], Discover(lines, weekTag).value[b])
    ensures exists i :: 0 <= i < j && CarriesTag(weekTag, lines[i], Discover(lines, weekTag).value[a])
  {
    var qs := Discover(lines, weekTag).value;
    var prefix := lines[..j + 1];
    DiscoverPrefix(lines, weekTag, j + 1);
    var p := Discover(prefix, weekTag).value;
    DiscoverComplete(prefix, weekTag);
    assert prefix[j] == lines[j];
    var k :| 0 <= k < |p| && p[k] == qs[b];
    assert qs[k] == qs[b];
    assert k == b;
    assert p[a] == qs[a];
    DiscoverSound(prefix, weekTag);
    var i :| 0 <= i < |prefix| && CarriesTag(weekTag, prefix[i], p[a]);
    assert lines[i] == prefix[i];
  }

  // ---------------------------------------------------------------------
  // The student record
  // ---------------------------------------------------------------------

  /** `line.split(", ")`, how a "Student Info" line is cut. */
  function StudentParts(line: string): (parts: seq<string>)
    ensures |parts| >= 1
  {
    Split(line, ", ")
  }

  /** The username of a "Student Info" line: field 2, stripped. */
  function Username(line: string): string
    requires |StudentParts(line)| >= 3
  {
    Strip(StudentParts(line)[2])
  }

  /** The record a "Student Info" line sets: fields 1, 2 and 3, stripped. */
  function InfoOf(line: string): StudentInfo
    requires |StudentParts(line)| >= 4
  {
    var parts := StudentParts(line);
    StudentInfo(Strip(parts[1]), Strip(parts[2]), Strip(parts[3]))
  }

  /** Line `j` is the physically last "Student Info" line of `lines[lo..]`. */
  predicate LastStudentLine(lines: seq<string>, lo: nat, j: nat)
  {
    && lo <= j < |lines|
    && IsStudentInfoLine(lines[j])
    && forall k :: j < k < |lines| ==> !IsStudentInfoLine(lines[k])
  }

  /** Some line of `lines[lo..]` is a "Student Info" line. */
  predicate HasStudentLine(lines: seq<string>, lo: nat)
  {
    exists k :: lo <= k < |lines| && IsStudentInfoLine(lines[k])
  }

  /**
    A second distinct username is an error whether or not the record is
    already set.
   */
  lemma SecondStudentFails(students: set<string>, info: Option<StudentInfo>, line: string, other: string)
    requires |StudentParts(line)| >= 3 && other in students && other != Username(line)
    ensures StudentLine(students, info, line).Failure?
    ensures StudentLine(students, info, line).error.MultipleStudents?
  {
    var names := students + {Username(line)};
    assert {other, Username(line)} <= names;
    assert |{other, Username(line)}| == 2;
    SubsetCardinality({other, Username(line)}, names);
  }

  lemma {:induction false} SubsetCardinality<T>(a: set<T>, b: set<T>)
    requires a <= b
    ensures |a| <= |b|
    decreases a
  {
    if a != {} {
      var x :| x in a;
      SubsetCardinality(a - {x}, b - {x});
    }
  }

  /**
    The header pass over `lines[lo..]`, as far as usernames go: every
    student line has a username, all of them are among the names kept, and
    at most one name is kept.
   */
  lemma {:induction false} StudentNames(lines: seq<string>, lo: nat, questions: seq<string>, weekTag: Option<string>, parseFloat: FloatParser, init: PassState)
    requires lo <= |lines| && HeaderPass(lines, lo, questions, weekTag, parseFloat, init).Success?
    ensures var st := HeaderPass(lines, lo, questions, weekTag, parseFloat, init).value;
      && init.students <= st.students
      && forall j :: lo <= j < |lines| && IsStudentInfoLine(lines[j]) ==>
           |StudentParts(lines[j])| >= 3 && Username(lines[j]) in st.students && |st.students| <= 1
    decreases |lines| - lo
  {
    if lo < |lines| {
      StudentNames(lines, lo + 1, questions, weekTag, parseFloat, init);
      var prev := HeaderPass(lines, lo + 1, questions, weekTag, parseFloat, init).value;
      var st := HeaderPass(lines, lo, questions, weekTag, parseFloat, init).value;
      var line := lines[lo];
      assert st == HeaderPassLine(prev, line, questions, weekTag, parseFloat).value;
      if IsStudentInfoLine(line) {
        assert st.students == StudentLine(prev.students, prev.info, line).value.0;
      } else {
        assert st.students == prev.students;
      }
    }
  }

  /**
    The header pass over `lines[lo..]`, as far as the record goes: a record
    it starts with is kept; otherwise it ends with the record of the last
    student line, or with none if there is no student line.
   */
  lemma {:induction false} StudentRecord(lines: seq<string>, lo: nat, questions: seq<string>, weekTag: Option<string>, parseFloat: FloatParser, init: PassState)
    requires lo <= |lines| && HeaderPass(lines, lo, questions, weekTag, parseFloat, init).Success?
    ensures var st := HeaderPass(lines, lo, questions, weekTag, parseFloat, init).value;
      && (init.info.Some? ==> st.info == init.info)
      && (init.info.None? && !HasStudentLine(lines, lo) ==> st.info.None?)
      && (forall j: nat :: init.info.None? && LastStudentLine(lines, lo, j) ==>
            |StudentParts(lines[j])| >= 4 && st.info == Some(InfoOf(lines[j])))
    decreases |lines| - lo
  {
    if lo < |lines| {
      StudentRecord(lines, lo + 1, questions, weekTag, parseFloat, init);
      var prev := HeaderPass(lines, lo + 1, questions, weekTag, parseFloat, init).value;
      var st := HeaderPass(lines, lo, questions, weekTag, parseFloat, init).value;
      var line := lines[lo];
      assert st == HeaderPassLine(prev, line, questions, weekTag, parseFloat).value;
      if IsStudentInfoLine(line) {
        assert st.info == StudentLine(prev.students, prev.info, line).value.1;
        forall j: nat | init.info.None? && LastStudentLine(lines, lo, j)
          ensures |StudentParts(lines[j])| >= 4 && st.info == Some(InfoOf(lines[j]))
        {
          if j == lo {
            assert !HasStudentLine(lines, lo + 1);
          } else {
            assert LastStudentLine(lines, lo + 1, j);
          }
        }
      } else {
        assert st.info == prev.info;
        assert HasStudentLine(lines, lo + 1) ==> HasStudentLine(lines, lo);
        forall j: nat | init.info.None? && LastStudentLine(lines, lo, j)
          ensures LastStudentLine(lines, lo + 1, j)
        {
        }
      }
    }
  }

  /** In a log that parses, every "Student Info" line names the same user. */
  lemma OneStudent(lines: seq<string>, questions: seq<string>, weekTag: Option<string>, parseFloat: FloatParser, info: Option<StudentInfo>, notebooks: map<string, Notebook>, j1: nat, j2: nat)
    requires HeaderPass(lines, 0, questions, weekTag, parseFloat, PassState({}, info, notebooks)).Success?
    requires j1 < |lines| && j2 < |lines| && IsStudentInfoLine(lines[j1]) && IsStudentInfoLine(lines[j2])
    ensures |StudentParts(lines[j1])| >= 3 && |StudentParts(lines[j2])| >= 3
    ensures Username(lines[j1]) == Username(lines[j2])
  {
    var init := PassState({}, info, notebooks);
    StudentNames(lines, 0, questions, weekTag, parseFloat, init);
    var names := HeaderPass(lines, 0, questions, weekTag, parseFloat, init).value.students;
    var u1, u2 := Username(lines[j1]), Username(lines[j2]);
    if u1 != u2 {
      assert |{u1, u2}| == 2;
      SubsetCardinality({u1, u2}, names);
    }
  }

  /**
    The student record after parsing is the one of the physically last
    "Student Info" line (the first one the reverse pass meets), and there is
    none when no line is a "Student Info" line.
   */
  lemma StudentInfoFromLastLine(lines: seq<string>, weekTag: Option<string>, parseFloat: FloatParser, notebooks: map<string, Notebook>)
    requires Parse(lines, weekTag, parseFloat, None, notebooks).Success?
    ensures var info := Parse(lines, weekTag, parseFloat, None, notebooks).value.info;
      && (!HasStudentLine(lines, 0) ==> info.None?)
      && (forall j: nat :: LastStudentLine(lines, 0, j) ==> |StudentParts(lines[j])| >= 4 && info == Some(InfoOf(lines[j])))
  {
    var qs := Discover(lines, weekTag).value;
    StudentRecord(lines, 0, qs, weekTag, parseFloat, PassState({}, None, notebooks));
  }
}
