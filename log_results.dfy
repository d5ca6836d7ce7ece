/**
  What a successful `parse_logs` followed by `calculate_total_scores`
  (app/parse.py) leaves in `assignments`: each notebook's `max_points` from
  its latest header, each question's score from its latest entry, a latest
  timestamp that only ever rises and covers every stored question, totals
  that are the sums of the earned scores, and the same scores whatever the
  order of lines with distinct timestamps.
 */
module LogResults {
  import opened Wrappers
  import opened Strings
  import opened LogSpec
  import opened LogDiscovery
  import opened LogWinners

  // ---------------------------------------------------------------------
  // Latest timestamps
  // ---------------------------------------------------------------------

  /** Every notebook's latest timestamp is no earlier than any of its questions' timestamps. */
  ghost predicate Covered(nbs: map<string, Notebook>)
  {
    forall name, q :: name in nbs && q in nbs[name].questions ==>
      !Less(nbs[name].latestTimestamp, nbs[name].questions[q].timestamp)
  }

  /** A header never lowers a latest timestamp and keeps every timestamp covered. */
  lemma DeclareRaises(nbs: map<string, Notebook>, d: Declaration, weekTag: Option<string>)
    ensures var after := Declare(nbs, d, weekTag);
      forall name :: name in nbs ==> name in after && !Less(after[name].latestTimestamp, nbs[name].latestTimestamp)
    ensures Covered(nbs) ==> Covered(Declare(nbs, d, weekTag))
  {
    var after := Declare(nbs, d, weekTag);
    forall name | name in nbs
      ensures !Less(after[name].latestTimestamp, nbs[name].latestTimestamp)
    {
      LessIrreflexive(nbs[name].latestTimestamp);
      LessTotal(nbs[name].latestTimestamp, d.timestamp);
    }
    if Covered(nbs) && d.notebook in nbs && Less(nbs[d.notebook].latestTimestamp, d.timestamp) {
      var n := d.notebook;
      forall q | q in after[n].questions
        ensures !Less(after[n].latestTimestamp, after[n].questions[q].timestamp)
      {
        NotLessTransitive(d.timestamp, nbs[n].latestTimestamp, nbs[n].questions[q].timestamp);
      }
    }
  }

  /** An entry never lowers a latest timestamp and keeps every timestamp covered, its own included. */
  lemma RecordRaises(nbs: map<string, Notebook>, e: Entry)
    ensures var after := Record(nbs, e);
      forall name :: name in nbs ==> name in after && !Less(after[name].latestTimestamp, nbs[name].latestTimestamp)
    ensures Covered(nbs) ==> Covered(Record(nbs, e))
  {
    var after := Record(nbs, e);
    var ts := e.score.timestamp;
    forall name | name in nbs
      ensures !Less(after[name].latestTimestamp, nbs[name].latestTimestamp)
    {
      LessIrreflexive(nbs[name].latestTimestamp);
      LessTotal(nbs[name].latestTimestamp, ts);
    }
    if Covered(nbs) {
      var n := e.notebook;
      var nb := if n in nbs then nbs[n] else Notebook(None, Unset, 0.0, ts, map[]);
      LessIrreflexive(nb.latestTimestamp);
      LessTotal(nb.latestTimestamp, ts);
      forall q | q in after[n].questions
        ensures !Less(after[n].latestTimestamp, after[n].questions[q].timestamp)
      {
        if q == e.question && after[n].questions[q] == e.score {
          LessIrreflexive(ts);
        } else {
          assert after[n].questions[q] == nb.questions[q];
          NotLessTransitive(after[n].latestTimestamp, nb.latestTimestamp, nb.questions[q].timestamp);
        }
      }
    }
  }

  lemma {:induction false} DeclFoldCovered(decls: seq<Option<Declaration>>, lo: nat, weekTag: Option<string>, init: map<string, Notebook>)
    requires lo <= |decls| && Covered(init)
    ensures Covered(DeclFold(decls, lo, weekTag, init))
    decreases |decls| - lo
  {
    if lo < |decls| {
      DeclFoldCovered(decls, lo + 1, weekTag, init);
      if decls[lo].Some? {
        DeclareRaises(DeclFold(decls, lo + 1, weekTag, init), decls[lo].value, weekTag);
      }
    }
  }

  /**
    The entry pass, read as a fold: timestamps stay covered, no notebook's
    latest timestamp drops, and notebooks it did not start with have no
    header and no `max_points` while those it did keep theirs.
   */
  lemma {:induction false} EntryFoldKeeps(entries: seq<Option<Entry>>, lo: nat, init: map<string, Notebook>)
    requires lo <= |entries|
    ensures var nbs := EntryFold(entries, lo, init);
      && (Covered(init) ==> Covered(nbs))
      && (forall name :: name in init ==>
            && name in nbs
            && !Less(nbs[name].latestTimestamp, init[name].latestTimestamp)
            && nbs[name].maxPoints == init[name].maxPoints
            && nbs[name].header == init[name].header)
      && (forall name :: name in nbs && name !in init ==> nbs[name].maxPoints == Unset && nbs[name].header.None?)
    decreases |entries| - lo
  {
    if lo < |entries| {
      EntryFoldKeeps(entries, lo + 1, init);
      var prev := EntryFold(entries, lo + 1, init);
      var nbs := EntryFold(entries, lo, init);
      if entries[lo].Some? {
        RecordRaises(prev, entries[lo].value);
        var e := entries[lo].value;
        forall name | name in init
          ensures name in nbs && !Less(nbs[name].latestTimestamp, init[name].latestTimestamp)
          ensures nbs[name].maxPoints == init[name].maxPoints && nbs[name].header == init[name].header
        {
          NotLessTransitive(nbs[name].latestTimestamp, prev[name].latestTimestamp, init[name].latestTimestamp);
        }
        forall name | name in nbs && name !in init
          ensures nbs[name].maxPoints == Unset && nbs[name].header.None?
        {
          if name !in prev {
            assert name == e.notebook;
          }
        }
      } else {
        assert nbs == prev;
      }
    } else {
      forall name | name in init
        ensures !Less(init[name].latestTimestamp, init[name].latestTimestamp)
      {
        LessIrreflexive(init[name].latestTimestamp);
      }
    }
  }

  // ---------------------------------------------------------------------
  // A whole parse, from a fresh parser
  // ---------------------------------------------------------------------

  /** The notebooks after the header pass of a fresh parser. */
  function Headed(lines: seq<string>, weekTag: Option<string>, parseFloat: FloatParser): map<string, Notebook>
    requires Discover(lines, weekTag).Success?
  {
    DeclFold(HeaderDecls(lines, Discover(lines, weekTag).value, parseFloat), 0, weekTag, map[])
  }

  /** A parse from a fresh parser is the header fold followed by the entry fold. */
  lemma ParseIsFolds(lines: seq<string>, weekTag: Option<string>, parseFloat: FloatParser, info: Option<StudentInfo>)
    requires Parse(lines, weekTag, parseFloat, info, map[]).Success?
    ensures Parse(lines, weekTag, parseFloat, info, map[]).value.notebooks ==
      EntryFold(Entries(lines, Discover(lines, weekTag).value, parseFloat), 0, Headed(lines, weekTag, parseFloat))
  {
    var qs := Discover(lines, weekTag).value;
    var init := PassState({}, info, map[]);
    HeaderPassDeclares(lines, 0, qs, weekTag, parseFloat, init);
    var st := HeaderPass(lines, 0, qs, weekTag, parseFloat, init).value;
    EntryPassRecords(lines, 0, qs, parseFloat, st.notebooks);
  }

  /** After the header pass every notebook is the record of its latest header, with no questions yet. */
  lemma HeadedWinner(lines: seq<string>, weekTag: Option<string>, parseFloat: FloatParser, name: string)
    requires Discover(lines, weekTag).Success?
    ensures var decls := HeaderDecls(lines, Discover(lines, weekTag).value, parseFloat);
      var nbs := Headed(lines, weekTag, parseFloat);
      && (name in nbs <==> Carries(DeclKeys(decls), 0, name))
      && (name in nbs ==> nbs[name].questions == map[] && exists j: nat :: (IsLatest(DeclKeys(decls), Stamps(lines), 0, name, j) &&
            nbs[name] == DeclaredBy(decls[j].value, weekTag)))
  {
    var qs := Discover(lines, weekTag).value;
    var decls := HeaderDecls(lines, qs, parseFloat);
    DeclFoldWinner(decls, 0, weekTag, map[], name);
    var nbs := Headed(lines, weekTag, parseFloat);
    if name in nbs {
      var j: nat :| IsLatest(DeclKeys(decls), DeclStamps(decls), 0, name, j) && nbs[name] == DeclaredBy(decls[j].value, weekTag);
      HeaderDeclStamps(lines, qs, parseFloat);
      LatestSameStamps(DeclKeys(decls), DeclStamps(decls), Stamps(lines), 0, name, j);
    }
  }

  /**
    A notebook has a header record exactly when some header line declares
    it, and its `max_points` is the value of its latest declaration: the
    greatest timestamp, and among equal ones the physically last line.
   */
  lemma ParsedHeader(lines: seq<string>, weekTag: Option<string>, parseFloat: FloatParser, info: Option<StudentInfo>, name: string, j: nat)
    requires Parse(lines, weekTag, parseFloat, info, map[]).Success?
    ensures var decls := HeaderDecls(lines, Discover(lines, weekTag).value, parseFloat);
      var nbs := Parse(lines, weekTag, parseFloat, info, map[]).value.notebooks;
      && ((name in nbs && nbs[name].header.Some?) <==> Carries(DeclKeys(decls), 0, name))
      && (IsLatest(DeclKeys(decls), Stamps(lines), 0, name, j) ==>
            && name in nbs
            && nbs[name].maxPoints == Declared(decls[j].value.maxPoints)
            && nbs[name].header == Some(HeaderInfo(name, weekTag)))
  {
    var qs := Discover(lines, weekTag).value;
    var decls := HeaderDecls(lines, qs, parseFloat);
    var headed := Headed(lines, weekTag, parseFloat);
    ParseIsFolds(lines, weekTag, parseFloat, info);
    HeadedWinner(lines, weekTag, parseFloat, name);
    EntryFoldKeeps(Entries(lines, qs, parseFloat), 0, headed);
    if IsLatest(DeclKeys(decls), Stamps(lines), 0, name, j) {
      assert Carries(DeclKeys(decls), 0, name);
      var w: nat :| IsLatest(DeclKeys(decls), Stamps(lines), 0, name, w) && headed[name] == DeclaredBy(decls[w].value, weekTag);
      LatestUnique(DeclKeys(decls), Stamps(lines), 0, name, j, w);
    }
  }

  /**
    A question of a notebook has a score exactly when some entry line scores
    it, and the score is that of its latest entry: the greatest timestamp,
    and among equal ones the physically last line.
   */
  lemma ParsedEntry(lines: seq<string>, weekTag: Option<string>, parseFloat: FloatParser, info: Option<StudentInfo>, name: string, q: string, j: nat)
    requires Parse(lines, weekTag, parseFloat, info, map[]).Success?
    ensures var entries := Entries(lines, Discover(lines, weekTag).value, parseFloat);
      var nbs := Parse(lines, weekTag, parseFloat, info, map[]).value.notebooks;
      && (Stored(nbs, name, q) <==> Carries(EntryKeys(entries), 0, (name, q)))
      && (IsLatest(EntryKeys(entries), Stamps(lines), 0, (name, q), j) ==>
            Stored(nbs, name, q) && nbs[name].questions[q] == entries[j].value.score)
  {
    var w := ParsedEntryWinner(lines, weekTag, parseFloat, info, name, q);
    var entries := Entries(lines, Discover(lines, weekTag).value, parseFloat);
    if IsLatest(EntryKeys(entries), Stamps(lines), 0, (name, q), j) {
      assert Carries(EntryKeys(entries), 0, (name, q));
      LatestUnique(EntryKeys(entries), Stamps(lines), 0, (name, q), j, w);
    }
  }

  /** The same, giving the latest entry of a stored question. */
  lemma ParsedEntryWinner(lines: seq<string>, weekTag: Option<string>, parseFloat: FloatParser, info: Option<StudentInfo>, name: string, q: string)
    returns (j: nat)
    requires Parse(lines, weekTag, parseFloat, info, map[]).Success?
    ensures var entries := Entries(lines, Discover(lines, weekTag).value, parseFloat);
      var nbs := Parse(lines, weekTag, parseFloat, info, map[]).value.notebooks;
      && (Stored(nbs, name, q) <==> Carries(EntryKeys(entries), 0, (name, q)))
      && (Stored(nbs, name, q) ==>
            IsLatest(EntryKeys(entries), Stamps(lines), 0, (name, q), j) && nbs[name].questions[q] == entries[j].value.score)
  {
    var qs := Discover(lines, weekTag).value;
    var entries := Entries(lines, qs, parseFloat);
    var headed := Headed(lines, weekTag, parseFloat);
    ParseIsFolds(lines, weekTag, parseFloat, info);
    HeadedWinner(lines, weekTag, parseFloat, name);
    EntryFoldWinner(entries, 0, headed, name, q);
    var nbs := EntryFold(entries, 0, headed);
    j := 0;
    if Stored(nbs, name, q) {
      j :| IsLatest(EntryKeys(entries), EntryStamps(entries), 0, (name, q), j) && nbs[name].questions[q] == entries[j].value.score;
      EntryStampsAgree(lines, qs, parseFloat);
      LatestSameStamps(EntryKeys(entries), EntryStamps(entries), Stamps(lines), 0, (name, q), j);
    }
  }

  /** After parsing, every notebook's latest timestamp is no earlier than any of its questions'. */
  lemma ParsedCovered(lines: seq<string>, weekTag: Option<string>, parseFloat: FloatParser, info: Option<StudentInfo>)
    requires Parse(lines, weekTag, parseFloat, info, map[]).Success?
    ensures Covered(Parse(lines, weekTag, parseFloat, info, map[]).value.notebooks)
  {
    var qs := Discover(lines, weekTag).value;
    ParseIsFolds(lines, weekTag, parseFloat, info);
    DeclFoldCovered(HeaderDecls(lines, qs, parseFloat), 0, weekTag, map[]);
    EntryFoldKeeps(Entries(lines, qs, parseFloat), 0, Headed(lines, weekTag, parseFloat));
  }

  /**
    A notebook no header line declares was created by an entry and has no
    `max_points`, which `get_results` reports as 0.0.
   */
  lemma ParsedUndeclared(lines: seq<string>, weekTag: Option<string>, parseFloat: FloatParser, info: Option<StudentInfo>, name: string)
    requires Parse(lines, weekTag, parseFloat, info, map[]).Success?
    requires name in Parse(lines, weekTag, parseFloat, info, map[]).value.notebooks
    requires !Carries(DeclKeys(HeaderDecls(lines, Discover(lines, weekTag).value, parseFloat)), 0, name)
    ensures var nb := Parse(lines, weekTag, parseFloat, info, map[]).value.notebooks[name];
      nb.maxPoints == Unset && ReportedMaxPoints(nb.maxPoints) == Some(0.0)
  {
    var qs := Discover(lines, weekTag).value;
    ParseIsFolds(lines, weekTag, parseFloat, info);
    HeadedWinner(lines, weekTag, parseFloat, name);
    EntryFoldKeeps(Entries(lines, qs, parseFloat), 0, Headed(lines, weekTag, parseFloat));
  }

  // ---------------------------------------------------------------------
  // Reordering lines
  // ---------------------------------------------------------------------

  /** `any(item in line for item in questions)` depends only on which tags there are. */
  lemma MentionsAnySameTags(line: string, qs1: seq<string>, qs2: seq<string>)
    requires forall x :: x in qs1 <==> x in qs2
    ensures MentionsAny(line, qs1) == MentionsAny(line, qs2)
  {
    if MentionsAny(line, qs1) {
      var i :| 0 <= i < |qs1| && Contains(line, qs1[i]);
      assert qs1[i] in qs2;
    }
    if MentionsAny(line, qs2) {
      var i :| 0 <= i < |qs2| && Contains(line, qs2[i]);
      assert qs2[i] in qs1;
    }
  }

  /** Every tag discovered in `lines1` is discovered in `lines2` when every line of the one is a line of the other. */
  lemma TagsCarryOver(lines1: seq<string>, lines2: seq<string>, weekTag: Option<string>)
    requires forall x :: x in lines1 ==> x in lines2
    requires Discover(lines1, weekTag).Success? && Discover(lines2, weekTag).Success?
    ensures forall x :: x in Discover(lines1, weekTag).value ==> x in Discover(lines2, weekTag).value
  {
    DiscoverSound(lines1, weekTag);
    DiscoverComplete(lines2, weekTag);
    forall x | x in Discover(lines1, weekTag).value
      ensures x in Discover(lines2, weekTag).value
    {
      var k :| 0 <= k < |Discover(lines1, weekTag).value| && Discover(lines1, weekTag).value[k] == x;
      var j :| 0 <= j < |lines1| && CarriesTag(weekTag, lines1[j], x);
      assert lines1[j] in lines2;
      var j2 :| 0 <= j2 < |lines2| && lines2[j2] == lines1[j];
    }
  }

  /** A (notebook, question) pair scored by a line of `lines1` is scored by the same line in `lines2`. */
  lemma CarriesCarryOver(lines1: seq<string>, qs1: seq<string>, lines2: seq<string>, qs2: seq<string>, parseFloat: FloatParser, k: (string, string))
    requires forall x :: x in lines1 ==> x in lines2
    requires forall x :: x in qs1 <==> x in qs2
    requires Carries(EntryKeys(Entries(lines1, qs1, parseFloat)), 0, k)
    ensures Carries(EntryKeys(Entries(lines2, qs2, parseFloat)), 0, k)
  {
    var keys1 := EntryKeys(Entries(lines1, qs1, parseFloat));
    var i1 :| 0 <= i1 < |keys1| && keys1[i1] == Some(k);
    assert lines1[i1] in lines2;
    var i2 :| 0 <= i2 < |lines2| && lines2[i2] == lines1[i1];
    MentionsAnySameTags(lines1[i1], qs1, qs2);
    assert EntryKeys(Entries(lines2, qs2, parseFloat))[i2] == Some(k);
  }

  /** Two lines the entry pass reads that score the same (notebook, question) pair with the same timestamp. */
  predicate SameSlot(a: string, b: string, tags: seq<string>, parseFloat: FloatParser)
  {
    && IsEntryLine(a, tags) && IsEntryLine(b, tags)
    && ParseEntry(a, parseFloat).Success?
    && ParseEntry(b, parseFloat).Success?
    && ParseEntry(a, parseFloat).value.notebook == ParseEntry(b, parseFloat).value.notebook
    && ParseEntry(a, parseFloat).value.question == ParseEntry(b, parseFloat).value.question
    && Stamp(a) == Stamp(b)
  }

  /**
    Reordering the lines of a log (any arrangement with the same lines)
    does not change any question's score, provided no two different lines the entry pass reads
    score the same question of the same notebook with the same timestamp.
   */
  lemma ReorderInvariant(lines1: seq<string>, lines2: seq<string>, weekTag: Option<string>, parseFloat: FloatParser, info: Option<StudentInfo>, name: string, q: string)
    requires forall x :: x in lines1 <==> x in lines2
    requires Parse(lines1, weekTag, parseFloat, info, map[]).Success?
    requires Parse(lines2, weekTag, parseFloat, info, map[]).Success?
    requires forall a, b :: a in lines1 && b in lines1 && SameSlot(a, b, Discover(lines1, weekTag).value, parseFloat) ==> a == b
    ensures var nbs1 := Parse(lines1, weekTag, parseFloat, info, map[]).value.notebooks;
      var nbs2 := Parse(lines2, weekTag, parseFloat, info, map[]).value.notebooks;
      && (Stored(nbs1, name, q) <==> Stored(nbs2, name, q))
      && (Stored(nbs1, name, q) ==> nbs1[name].questions[q] == nbs2[name].questions[q])
  {
    var qs1, qs2 := Discover(lines1, weekTag).value, Discover(lines2, weekTag).value;
    TagsCarryOver(lines1, lines2, weekTag);
    TagsCarryOver(lines2, lines1, weekTag);
    var entries1, entries2 := Entries(lines1, qs1, parseFloat), Entries(lines2, qs2, parseFloat);
    var keys1, keys2 := EntryKeys(entries1), EntryKeys(entries2);
    var j1 := ParsedEntryWinner(lines1, weekTag, parseFloat, info, name, q);
    var j2 := ParsedEntryWinner(lines2, weekTag, parseFloat, info, name, q);
    if Carries(keys1, 0, (name, q)) {
      CarriesCarryOver(lines1, qs1, lines2, qs2, parseFloat, (name, q));
    }
    if Carries(keys2, 0, (name, q)) {
      CarriesCarryOver(lines2, qs2, lines1, qs1, parseFloat, (name, q));
    }
    var nbs1 := Parse(lines1, weekTag, parseFloat, info, map[]).value.notebooks;
    if Stored(nbs1, name, q) {
      LatestLinesAgree(lines1, qs1, lines2, qs2, parseFloat, (name, q), j1, j2);
      assert entries1[j1] == EntryOf(lines1[j1], qs1, parseFloat);
      assert entries2[j2] == EntryOf(lines2[j2], qs2, parseFloat);
    }
  }

  /**
    In two arrangements of the same lines, the latest line for a pair is the
    same line, when no two different entry lines share its pair and timestamp.
   */
  lemma LatestLinesAgree(lines1: seq<string>, qs1: seq<string>, lines2: seq<string>, qs2: seq<string>,
                         parseFloat: FloatParser, k: (string, string), j1: nat, j2: nat)
    requires forall x :: x in lines1 <==> x in lines2
    requires forall x :: x in qs1 <==> x in qs2
    requires forall a, b :: a in lines1 && b in lines1 && SameSlot(a, b, qs1, parseFloat) ==> a == b
    requires IsLatest(EntryKeys(Entries(lines1, qs1, parseFloat)), Stamps(lines1), 0, k, j1)
    requires IsLatest(EntryKeys(Entries(lines2, qs2, parseFloat)), Stamps(lines2), 0, k, j2)
    ensures lines1[j1] == lines2[j2]
  {
    var keys1, keys2 := EntryKeys(Entries(lines1, qs1, parseFloat)), EntryKeys(Entries(lines2, qs2, parseFloat));
    var a, b := lines1[j1], lines2[j2];
    assert a in lines2 && b in lines1;
    var ia :| 0 <= ia < |lines2| && lines2[ia] == a;
    var ib :| 0 <= ib < |lines1| && lines1[ib] == b;
    MentionsAnySameTags(a, qs1, qs2);
    MentionsAnySameTags(b, qs1, qs2);
    assert keys2[ia] == Some(k);
    assert keys1[ib] == Some(k);
    LessTotal(Stamp(a), Stamp(b));
    assert SameSlot(a, b, qs1, parseFloat);
  }

  /** Two lines the header pass reads that declare the same notebook with the same timestamp. */
  predicate SameDeclSlot(a: string, b: string, tags: seq<string>, parseFloat: FloatParser)
  {
    && IsHeaderLine(a, tags) && IsHeaderLine(b, tags)
    && ParseHeader(a, parseFloat).Success? && ParseHeader(a, parseFloat).value.Some?
    && ParseHeader(b, parseFloat).Success? && ParseHeader(b, parseFloat).value.Some?
    && ParseHeader(a, parseFloat).value.value.notebook == ParseHeader(b, parseFloat).value.value.notebook
    && Stamp(a) == Stamp(b)
  }

  /** Some entry of `entries[lo..]` names notebook `name`. */
  ghost predicate EntryNames(entries: seq<Option<Entry>>, lo: nat, name: string)
  {
    exists i :: lo <= i < |entries| && entries[i].Some? && entries[i].value.notebook == name
  }

  /** The entry fold adds exactly the notebooks its entries name. */
  lemma {:induction false} EntryFoldNames(entries: seq<Option<Entry>>, lo: nat, init: map<string, Notebook>, name: string)
    requires lo <= |entries|
    ensures name in EntryFold(entries, lo, init) <==> name in init || EntryNames(entries, lo, name)
    decreases |entries| - lo
  {
    if lo < |entries| {
      EntryFoldNames(entries, lo + 1, init, name);
      if entries[lo].Some? && entries[lo].value.notebook == name {
        assert name in EntryFold(entries, lo, init);
      } else {
        assert name in EntryFold(entries, lo, init) <==> name in EntryFold(entries, lo + 1, init);
        if EntryNames(entries, lo, name) {
          var i :| lo <= i < |entries| && entries[i].Some? && entries[i].value.notebook == name;
          assert i != lo;
        }
      }
    }
  }

  /** After parsing, a notebook exists exactly when a header declares it or an entry names it. */
  lemma ParsedNotebooks(lines: seq<string>, weekTag: Option<string>, parseFloat: FloatParser, info: Option<StudentInfo>, name: string)
    requires Parse(lines, weekTag, parseFloat, info, map[]).Success?
    ensures var qs := Discover(lines, weekTag).value;
      name in Parse(lines, weekTag, parseFloat, info, map[]).value.notebooks <==>
        Carries(DeclKeys(HeaderDecls(lines, qs, parseFloat)), 0, name) || EntryNames(Entries(lines, qs, parseFloat), 0, name)
  {
    var qs := Discover(lines, weekTag).value;
    ParseIsFolds(lines, weekTag, parseFloat, info);
    HeadedWinner(lines, weekTag, parseFloat, name);
    EntryFoldNames(Entries(lines, qs, parseFloat), 0, Headed(lines, weekTag, parseFloat), name);
  }

  /** A line reads as the same declaration and the same entry under two tag lists with the same tags. */
  lemma LineReadsAlike(line: string, qs1: seq<string>, qs2: seq<string>, parseFloat: FloatParser)
    requires forall x :: x in qs1 <==> x in qs2
    ensures HeaderDecl(line, qs1, parseFloat) == HeaderDecl(line, qs2, parseFloat)
    ensures EntryOf(line, qs1, parseFloat) == EntryOf(line, qs2, parseFloat)
  {
    MentionsAnySameTags(line, qs1, qs2);
  }

  /** A notebook declared or named by a line of `lines1` is declared or named by the same line in `lines2`. */
  lemma NamesCarryOver(lines1: seq<string>, qs1: seq<string>, lines2: seq<string>, qs2: seq<string>, parseFloat: FloatParser, name: string)
    requires forall x :: x in lines1 ==> x in lines2
    requires forall x :: x in qs1 <==> x in qs2
    ensures Carries(DeclKeys(HeaderDecls(lines1, qs1, parseFloat)), 0, name) ==>
      Carries(DeclKeys(HeaderDecls(lines2, qs2, parseFloat)), 0, name)
    ensures EntryNames(Entries(lines1, qs1, parseFloat), 0, name) ==> EntryNames(Entries(lines2, qs2, parseFloat), 0, name)
  {
    var keys1 := DeclKeys(HeaderDecls(lines1, qs1, parseFloat));
    if Carries(keys1, 0, name) {
      var i1 :| 0 <= i1 < |keys1| && keys1[i1] == Some(name);
      DeclaredCarriesOver(lines1, qs1, lines2, qs2, parseFloat, i1);
    }
    var entries1 := Entries(lines1, qs1, parseFloat);
    if EntryNames(entries1, 0, name) {
      var i1 :| 0 <= i1 < |entries1| && entries1[i1].Some? && entries1[i1].value.notebook == name;
      NamedCarriesOver(lines1, qs1, lines2, qs2, parseFloat, i1);
    }
  }

  lemma DeclaredCarriesOver(lines1: seq<string>, qs1: seq<string>, lines2: seq<string>, qs2: seq<string>, parseFloat: FloatParser, i1: nat)
    requires forall x :: x in lines1 ==> x in lines2
    requires forall x :: x in qs1 <==> x in qs2
    requires i1 < |lines1| && HeaderDecls(lines1, qs1, parseFloat)[i1].Some?
    ensures Carries(DeclKeys(HeaderDecls(lines2, qs2, parseFloat)), 0, HeaderDecls(lines1, qs1, parseFloat)[i1].value.notebook)
  {
    assert lines1[i1] in lines2;
    var i2 :| 0 <= i2 < |lines2| && lines2[i2] == lines1[i1];
    LineReadsAlike(lines1[i1], qs1, qs2, parseFloat);
    assert HeaderDecls(lines2, qs2, parseFloat)[i2] == HeaderDecls(lines1, qs1, parseFloat)[i1];
  }

  lemma NamedCarriesOver(lines1: seq<string>, qs1: seq<string>, lines2: seq<string>, qs2: seq<string>, parseFloat: FloatParser, i1: nat)
    requires forall x :: x in lines1 ==> x in lines2
    requires forall x :: x in qs1 <==> x in qs2
    requires i1 < |lines1| && Entries(lines1, qs1, parseFloat)[i1].Some?
    ensures EntryNames(Entries(lines2, qs2, parseFloat), 0, Entries(lines1, qs1, parseFloat)[i1].value.notebook)
  {
    assert lines1[i1] in lines2;
    var i2 :| 0 <= i2 < |lines2| && lines2[i2] == lines1[i1];
    LineReadsAlike(lines1[i1], qs1, qs2, parseFloat);
    assert Entries(lines2, qs2, parseFloat)[i2] == Entries(lines1, qs1, parseFloat)[i1];
  }

  /**
    In two arrangements of the same lines, a notebook's latest declaration
    comes from the same line, when no two different lines the header pass reads declare it
    with the same timestamp.
   */
  lemma LatestDeclsAgree(lines1: seq<string>, qs1: seq<string>, lines2: seq<string>, qs2: seq<string>,
                         parseFloat: FloatParser, name: string, j1: nat, j2: nat)
    requires forall x :: x in lines1 <==> x in lines2
    requires forall x :: x in qs1 <==> x in qs2
    requires forall a, b :: a in lines1 && b in lines1 && SameDeclSlot(a, b, qs1, parseFloat) ==> a == b
    requires IsLatest(DeclKeys(HeaderDecls(lines1, qs1, parseFloat)), Stamps(lines1), 0, name, j1)
    requires IsLatest(DeclKeys(HeaderDecls(lines2, qs2, parseFloat)), Stamps(lines2), 0, name, j2)
    ensures lines1[j1] == lines2[j2]
    ensures HeaderDecls(lines1, qs1, parseFloat)[j1] == HeaderDecls(lines2, qs2, parseFloat)[j2]
  {
    var keys1, keys2 := DeclKeys(HeaderDecls(lines1, qs1, parseFloat)), DeclKeys(HeaderDecls(lines2, qs2, parseFloat));
    var a, b := lines1[j1], lines2[j2];
    assert a in lines2 && b in lines1;
    var ia :| 0 <= ia < |lines2| && lines2[ia] == a;
    var ib :| 0 <= ib < |lines1| && lines1[ib] == b;
    LineReadsAlike(a, qs1, qs2, parseFloat);
    LineReadsAlike(b, qs1, qs2, parseFloat);
    assert keys2[ia] == Some(name);
    assert keys1[ib] == Some(name);
    LessTotal(Stamp(a), Stamp(b));
    assert SameDeclSlot(a, b, qs1, parseFloat);
  }

  /** Rearranging the lines gives the same notebooks. */
  lemma ReorderNotebooks(lines1: seq<string>, lines2: seq<string>, weekTag: Option<string>, parseFloat: FloatParser, info: Option<StudentInfo>)
    requires forall x :: x in lines1 <==> x in lines2
    requires Parse(lines1, weekTag, parseFloat, info, map[]).Success?
    requires Parse(lines2, weekTag, parseFloat, info, map[]).Success?
    ensures Parse(lines1, weekTag, parseFloat, info, map[]).value.notebooks.Keys ==
      Parse(lines2, weekTag, parseFloat, info, map[]).value.notebooks.Keys
  {
    var qs1, qs2 := Discover(lines1, weekTag).value, Discover(lines2, weekTag).value;
    TagsCarryOver(lines1, lines2, weekTag);
    TagsCarryOver(lines2, lines1, weekTag);
    forall name | true
      ensures name in Parse(lines1, weekTag, parseFloat, info, map[]).value.notebooks <==>
        name in Parse(lines2, weekTag, parseFloat, info, map[]).value.notebooks
    {
      ParsedNotebooks(lines1, weekTag, parseFloat, info, name);
      ParsedNotebooks(lines2, weekTag, parseFloat, info, name);
      NamesCarryOver(lines1, qs1, lines2, qs2, parseFloat, name);
      NamesCarryOver(lines2, qs2, lines1, qs1, parseFloat, name);
    }
  }

  /**
    Rearranging the lines gives every notebook the same header record and
    `max_points`, when no two different lines the header pass reads declare the same
    notebook with the same timestamp.
   */
  lemma ReorderHeaders(lines1: seq<string>, lines2: seq<string>, weekTag: Option<string>, parseFloat: FloatParser, info: Option<StudentInfo>, name: string)
    requires forall x :: x in lines1 <==> x in lines2
    requires Parse(lines1, weekTag, parseFloat, info, map[]).Success?
    requires Parse(lines2, weekTag, parseFloat, info, map[]).Success?
    requires forall a, b :: a in lines1 && b in lines1 && SameDeclSlot(a, b, Discover(lines1, weekTag).value, parseFloat) ==> a == b
    requires name in Parse(lines1, weekTag, parseFloat, info, map[]).value.notebooks
    requires name in Parse(lines2, weekTag, parseFloat, info, map[]).value.notebooks
    ensures var nb1 := Parse(lines1, weekTag, parseFloat, info, map[]).value.notebooks[name];
      var nb2 := Parse(lines2, weekTag, parseFloat, info, map[]).value.notebooks[name];
      nb1.header == nb2.header && nb1.maxPoints == nb2.maxPoints
  {
    var qs1, qs2 := Discover(lines1, weekTag).value, Discover(lines2, weekTag).value;
    TagsCarryOver(lines1, lines2, weekTag);
    TagsCarryOver(lines2, lines1, weekTag);
    NamesCarryOver(lines1, qs1, lines2, qs2, parseFloat, name);
    NamesCarryOver(lines2, qs2, lines1, qs1, parseFloat, name);
    var decls1, decls2 := HeaderDecls(lines1, qs1, parseFloat), HeaderDecls(lines2, qs2, parseFloat);
    HeadedWinner(lines1, weekTag, parseFloat, name);
    HeadedWinner(lines2, weekTag, parseFloat, name);
    if Carries(DeclKeys(decls1), 0, name) {
      var j1: nat :| IsLatest(DeclKeys(decls1), Stamps(lines1), 0, name, j1);
      var j2: nat :| IsLatest(DeclKeys(decls2), Stamps(lines2), 0, name, j2);
      ParsedHeader(lines1, weekTag, parseFloat, info, name, j1);
      ParsedHeader(lines2, weekTag, parseFloat, info, name, j2);
      LatestDeclsAgree(lines1, qs1, lines2, qs2, parseFloat, name, j1, j2);
    } else {
      ParsedHeader(lines1, weekTag, parseFloat, info, name, 0);
      ParsedHeader(lines2, weekTag, parseFloat, info, name, 0);
      ParsedUndeclared(lines1, weekTag, parseFloat, info, name);
      ParsedUndeclared(lines2, weekTag, parseFloat, info, name);
    }
  }

  /**
    Rearranging the lines gives every notebook the same questions, and after
    `calculate_total_scores` the same total, when no two different lines the entry pass reads
    score the same pair with the same timestamp.
   */
  lemma ReorderQuestions(lines1: seq<string>, lines2: seq<string>, weekTag: Option<string>, parseFloat: FloatParser, info: Option<StudentInfo>, name: string)
    requires forall x :: x in lines1 <==> x in lines2
    requires Parse(lines1, weekTag, parseFloat, info, map[]).Success?
    requires Parse(lines2, weekTag, parseFloat, info, map[]).Success?
    requires forall a, b :: a in lines1 && b in lines1 && SameSlot(a, b, Discover(lines1, weekTag).value, parseFloat) ==> a == b
    requires name in Parse(lines1, weekTag, parseFloat, info, map[]).value.notebooks
    requires name in Parse(lines2, weekTag, parseFloat, info, map[]).value.notebooks
    ensures var nbs1 := Parse(lines1, weekTag, parseFloat, info, map[]).value.notebooks;
      var nbs2 := Parse(lines2, weekTag, parseFloat, info, map[]).value.notebooks;
      && nbs1[name].questions == nbs2[name].questions
      && WithTotals(nbs1)[name].totalScore == WithTotals(nbs2)[name].totalScore
  {
    var nbs1 := Parse(lines1, weekTag, parseFloat, info, map[]).value.notebooks;
    var nbs2 := Parse(lines2, weekTag, parseFloat, info, map[]).value.notebooks;
    forall q | true
      ensures (q in nbs1[name].questions <==> q in nbs2[name].questions)
      ensures q in nbs1[name].questions ==> nbs1[name].questions[q] == nbs2[name].questions[q]
    {
      ReorderInvariant(lines1, lines2, weekTag, parseFloat, info, name, q);
    }
    assert nbs1[name].questions == nbs2[name].questions;
  }

  /**
    Rearranging the lines of a log changes nothing `get_results` reports
    about scores after `calculate_total_scores`: the same notebooks, each
    with the same header record, `max_points`, questions and total, when no
    two different lines the entry pass reads score the same pair with the
    same timestamp and no two different lines the header pass reads declare
    the same notebook with the same timestamp. (Only a notebook's latest timestamp is left aside.)
   */
  lemma ReorderTotals(lines1: seq<string>, lines2: seq<string>, weekTag: Option<string>, parseFloat: FloatParser, info: Option<StudentInfo>)
    requires forall x :: x in lines1 <==> x in lines2
    requires Parse(lines1, weekTag, parseFloat, info, map[]).Success?
    requires Parse(lines2, weekTag, parseFloat, info, map[]).Success?
    requires forall a, b :: a in lines1 && b in lines1 && SameSlot(a, b, Discover(lines1, weekTag).value, parseFloat) ==> a == b
    requires forall a, b :: a in lines1 && b in lines1 && SameDeclSlot(a, b, Discover(lines1, weekTag).value, parseFloat) ==> a == b
    ensures var nbs1 := WithTotals(Parse(lines1, weekTag, parseFloat, info, map[]).value.notebooks);
      var nbs2 := WithTotals(Parse(lines2, weekTag, parseFloat, info, map[]).value.notebooks);
      && nbs1.Keys == nbs2.Keys
      && forall n :: n in nbs1 ==>
           && nbs1[n].header == nbs2[n].header
           && nbs1[n].maxPoints == nbs2[n].maxPoints
           && nbs1[n].questions == nbs2[n].questions
           && nbs1[n].totalScore == nbs2[n].totalScore
  {
    var p1 := Parse(lines1, weekTag, parseFloat, info, map[]).value.notebooks;
    var p2 := Parse(lines2, weekTag, parseFloat, info, map[]).value.notebooks;
    ReorderNotebooks(lines1, lines2, weekTag, parseFloat, info);
    WithTotalsOnlyTotals(p1);
    WithTotalsOnlyTotals(p2);
    forall n | n in p1
      ensures p1[n].header == p2[n].header && p1[n].maxPoints == p2[n].maxPoints
      ensures p1[n].questions == p2[n].questions
      ensures WithTotals(p1)[n].totalScore == WithTotals(p2)[n].totalScore
    {
      ReorderHeaders(lines1, lines2, weekTag, parseFloat, info, n);
      ReorderQuestions(lines1, lines2, weekTag, parseFloat, info, n);
    }
  }

  // ---------------------------------------------------------------------
  // Totals (`calculate_total_scores`)
  // ---------------------------------------------------------------------

  /** Adding a new question adds its earned score to the sum. */
  lemma SumEarnedInsert(questions: map<string, QuestionScore>, k: string, score: QuestionScore)
    requires k !in questions
    ensures SumEarned(questions[k := score]) == SumEarned(questions) + score.scoreEarned
  {
    SumEarnedPick(questions[k := score], k);
    assert questions[k := score] - {k} == questions;
  }

  /** Totals change nothing but each notebook's total, which becomes the sum of its earned scores. */
  lemma WithTotalsOnlyTotals(nbs: map<string, Notebook>)
    ensures WithTotals(nbs).Keys == nbs.Keys
    ensures forall n :: n in nbs ==>
      && WithTotals(nbs)[n].totalScore == SumEarned(nbs[n].questions)
      && WithTotals(nbs)[n].(totalScore := nbs[n].totalScore) == nbs[n]
  {
  }

  /** Calculating the totals twice is calculating them once. */
  lemma WithTotalsIdempotent(nbs: map<string, Notebook>)
    ensures WithTotals(WithTotals(nbs)) == WithTotals(nbs)
  {
    assert WithTotals(WithTotals(nbs)).Keys == WithTotals(nbs).Keys;
  }

  // ---------------------------------------------------------------------
  // Reading one line: defaults and errors
  // ---------------------------------------------------------------------

  /**
    An entry line reads its notebook and question from fields 0 and 1, its
    scores from fields 2 and 3 (0.0 when the line is too short for them) and
    its timestamp from the last field.
   */
  lemma EntryFields(line: string, parseFloat: FloatParser)
    requires ParseEntry(line, parseFloat).Success?
    ensures var e := ParseEntry(line, parseFloat).value;
      var parts := Fields(line);
      && |parts| >= 2
      && e.notebook == Strip(parts[0]) && e.question == Strip(parts[1])
      && e.score.timestamp == Stamp(line)
      && (|parts| <= 2 ==> e.score.scoreEarned == 0.0)
      && (|parts| <= 3 ==> e.score.scorePossible == 0.0)
      && (|parts| > 2 ==> parseFloat(Strip(parts[2])) == Some(e.score.scoreEarned))
      && (|parts| > 3 ==> parseFloat(Strip(parts[3])) == Some(e.score.scorePossible))
  {
  }

  /** An entry line is an error exactly when it has no field 1 or a present score field is not a number. */
  lemma EntryErrors(line: string, parseFloat: FloatParser)
    ensures var parts := Fields(line);
      ParseEntry(line, parseFloat).Failure? <==>
        || |parts| < 2
        || (|parts| > 2 && parseFloat(Strip(parts[2])).None?)
        || (|parts| > 3 && parseFloat(Strip(parts[3])).None?)
  {
  }

  /** A header's value is absent exactly when field 1 is missing or is not a number; that is not an error. */
  lemma HeaderValue(line: string, parseFloat: FloatParser)
    requires ParseHeader(line, parseFloat).Success? && ParseHeader(line, parseFloat).value.Some?
    ensures var parts := Fields(line);
      var d := ParseHeader(line, parseFloat).value.value;
      && StartsWith(Strip(parts[0]), TotalPoints) && |parts| >= 4
      && d.notebook == Strip(parts[3]) && d.timestamp == Stamp(line)
      && (d.maxPoints.None? <==> |parts| < 2 || parseFloat(Strip(parts[1])).None?)
  {
  }
}
