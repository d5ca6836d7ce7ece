/**
  Which line wins in `LogParser` (app/parse.py). Both reverse passes keep,
  for each key, the line with the lexicographically greatest timestamp, and
  among lines with the same timestamp the physically last one (the first
  the reverse pass meets), because a record is only replaced by a strictly
  later timestamp. Headers are keyed by notebook, entries by notebook and
  question.
 */
module LogWinners {
  import opened Wrappers
  import opened Strings
  import opened LogSpec

  // ---------------------------------------------------------------------
  // Last write wins, for any key
  // ---------------------------------------------------------------------

  /**
    Line `j` of `lines[lo..]` carries key `k`, no line there with key `k`
    has a later stamp, and any line with key `k` and the same stamp comes
    no later than `j`.
   */
  ghost predicate IsLatest<K>(keys: seq<Option<K>>, stamps: seq<string>, lo: nat, k: K, j: nat)
    requires |keys| == |stamps|
  {
    && lo <= j < |keys|
    && keys[j] == Some(k)
    && forall i :: lo <= i < |keys| && keys[i] == Some(k) ==> !Less(stamps[j], stamps[i]) && (stamps[i] == stamps[j] ==> i <= j)
  }

  /** Some line of `lines[lo..]` carries key `k`. */
  ghost predicate Carries<K>(keys: seq<Option<K>>, lo: nat, k: K)
  {
    exists i :: lo <= i < |keys| && keys[i] == Some(k)
  }

  /** There is at most one latest line for a key. */
  lemma LatestUnique<K>(keys: seq<Option<K>>, stamps: seq<string>, lo: nat, k: K, j1: nat, j2: nat)
    requires |keys| == |stamps|
    requires IsLatest(keys, stamps, lo, k, j1) && IsLatest(keys, stamps, lo, k, j2)
    ensures j1 == j2
  {
    LessTotal(stamps[j1], stamps[j2]);
  }

  /** The only line carrying a key is its latest. */
  lemma LatestFirst<K>(keys: seq<Option<K>>, stamps: seq<string>, lo: nat, k: K)
    requires |keys| == |stamps| && lo < |keys| && keys[lo] == Some(k) && !Carries(keys, lo + 1, k)
    ensures IsLatest(keys, stamps, lo, k, lo)
  {
    LessIrreflexive(stamps[lo]);
  }

  /**
    Widening the range by the line in front: a line with another key changes
    nothing; a line with the key wins only with a strictly later stamp.
   */
  lemma LatestStep<K>(keys: seq<Option<K>>, stamps: seq<string>, lo: nat, k: K, w: nat)
    requires |keys| == |stamps| && lo < |keys| && IsLatest(keys, stamps, lo + 1, k, w)
    ensures keys[lo] != Some(k) ==> IsLatest(keys, stamps, lo, k, w)
    ensures keys[lo] == Some(k) && Less(stamps[w], stamps[lo]) ==> IsLatest(keys, stamps, lo, k, lo)
    ensures keys[lo] == Some(k) && !Less(stamps[w], stamps[lo]) ==> IsLatest(keys, stamps, lo, k, w)
  {
    if keys[lo] == Some(k) {
      if Less(stamps[w], stamps[lo]) {
        forall i | lo <= i < |keys| && keys[i] == Some(k)
          ensures !Less(stamps[lo], stamps[i]) && (stamps[i] == stamps[lo] ==> i <= lo)
        {
          if i == lo {
            LessIrreflexive(stamps[lo]);
          } else if Less(stamps[lo], stamps[i]) {
            LessTransitive(stamps[w], stamps[lo], stamps[i]);
          }
        }
      } else {
        LessTotal(stamps[w], stamps[lo]);
      }
    }
  }

  /** Two stamp sequences that agree wherever a key is carried pick the same latest lines. */
  lemma LatestSameStamps<K>(keys: seq<Option<K>>, stamps1: seq<string>, stamps2: seq<string>, lo: nat, k: K, j: nat)
    requires |keys| == |stamps1| == |stamps2|
    requires forall i :: 0 <= i < |keys| && keys[i].Some? ==> stamps1[i] == stamps2[i]
    ensures IsLatest(keys, stamps1, lo, k, j) <==> IsLatest(keys, stamps2, lo, k, j)
  {
  }

  /** The timestamp of every line, `parts[-1].strip()`. */
  function Stamps(lines: seq<string>): (stamps: seq<string>)
    ensures |stamps| == |lines|
    ensures forall j :: 0 <= j < |lines| ==> stamps[j] == Stamp(lines[j])
  {
    seq(|lines|, j requires 0 <= j < |lines| => Stamp(lines[j]))
  }

  // ---------------------------------------------------------------------
  // Headers
  // ---------------------------------------------------------------------

  /** The declaration a line makes in the header pass, if any. */
  function HeaderDecl(line: string, questions: seq<string>, parseFloat: FloatParser): Option<Declaration>
  {
    if !IsHeaderLine(line, questions) then None
    else match ParseHeader(line, parseFloat)
      case Success(Some(d)) => Some(d)
      case _ => None
  }

  /** The declaration of every line. */
  function HeaderDecls(lines: seq<string>, questions: seq<string>, parseFloat: FloatParser): (decls: seq<Option<Declaration>>)
    ensures |decls| == |lines|
    ensures forall j :: 0 <= j < |lines| ==> decls[j] == HeaderDecl(lines[j], questions, parseFloat)
  {
    seq(|lines|, j requires 0 <= j < |lines| => HeaderDecl(lines[j], questions, parseFloat))
  }

  /** The notebook each declaration names. */
  function DeclKeys(decls: seq<Option<Declaration>>): (keys: seq<Option<string>>)
    ensures |keys| == |decls|
    ensures forall j :: 0 <= j < |decls| ==> keys[j] == if decls[j].Some? then Some(decls[j].value.notebook) else None
  {
    seq(|decls|, j requires 0 <= j < |decls| => if decls[j].Some? then Some(decls[j].value.notebook) else None)
  }

  /** The timestamp each declaration carries. */
  function DeclStamps(decls: seq<Option<Declaration>>): (stamps: seq<string>)
    ensures |stamps| == |decls|
    ensures forall j :: 0 <= j < |decls| ==> stamps[j] == if decls[j].Some? then decls[j].value.timestamp else ""
  {
    seq(|decls|, j requires 0 <= j < |decls| => if decls[j].Some? then decls[j].value.timestamp else "")
  }

  /** The notebooks after applying `decls[lo..]`, last one first. */
  function DeclFold(decls: seq<Option<Declaration>>, lo: nat, weekTag: Option<string>, init: map<string, Notebook>): map<string, Notebook>
    requires lo <= |decls|
    decreases |decls| - lo
  {
    if lo == |decls| then init
    else
      var prev := DeclFold(decls, lo + 1, weekTag, init);
      if decls[lo].Some? then Declare(prev, decls[lo].value, weekTag) else prev
  }

  /** The record a declaration leaves when it wins: created by it, or last updated by it. */
  function DeclaredBy(d: Declaration, weekTag: Option<string>): Notebook
  {
    Notebook(Some(HeaderInfo(d.notebook, weekTag)), Declared(d.maxPoints), 0.0, d.timestamp, map[])
  }

  /**
    For a notebook not there at the start, after applying `decls[lo..]`: it
    exists exactly when some declaration names it, and then it is the record
    of its latest declaration.
   */
  ghost predicate DeclWinner(decls: seq<Option<Declaration>>, lo: nat, weekTag: Option<string>, init: map<string, Notebook>, name: string)
    requires lo <= |decls|
  {
    var nbs := DeclFold(decls, lo, weekTag, init);
    && (name in nbs <==> Carries(DeclKeys(decls), lo, name))
    && (name in nbs ==> exists j: nat :: (IsLatest(DeclKeys(decls), DeclStamps(decls), lo, name, j) &&
          nbs[name] == DeclaredBy(decls[j].value, weekTag)))
  }

  /**
    Applying declarations from the last to the first, for a notebook not
    there at the start: it exists exactly when some declaration names it,
    and then it is the record of its latest declaration.
   */
  lemma {:induction false} DeclFoldWinner(decls: seq<Option<Declaration>>, lo: nat, weekTag: Option<string>, init: map<string, Notebook>, name: string)
    requires lo <= |decls| && name !in init
    ensures var nbs := DeclFold(decls, lo, weekTag, init);
      && (name in nbs <==> Carries(DeclKeys(decls), lo, name))
      && (name in nbs ==> exists j: nat :: (IsLatest(DeclKeys(decls), DeclStamps(decls), lo, name, j) &&
            nbs[name] == DeclaredBy(decls[j].value, weekTag)))
    decreases |decls| - lo
  {
    if lo < |decls| {
      DeclFoldWinner(decls, lo + 1, weekTag, init, name);
      assert DeclWinner(decls, lo + 1, weekTag, init, name);
      if decls[lo].None? || decls[lo].value.notebook != name {
        DeclStepOther(decls, lo, weekTag, init, name);
      } else {
        DeclStepSame(decls, lo, weekTag, init, name);
      }
      assert DeclWinner(decls, lo, weekTag, init, name);
    }
  }

  /** A declaration of another notebook leaves this one's winner alone. */
  lemma DeclStepOther(decls: seq<Option<Declaration>>, lo: nat, weekTag: Option<string>, init: map<string, Notebook>, name: string)
    requires lo < |decls| && (decls[lo].None? || decls[lo].value.notebook != name)
    requires DeclWinner(decls, lo + 1, weekTag, init, name)
    ensures DeclWinner(decls, lo, weekTag, init, name)
  {
    var keys, stamps := DeclKeys(decls), DeclStamps(decls);
    var prev := DeclFold(decls, lo + 1, weekTag, init);
    var nbs := DeclFold(decls, lo, weekTag, init);
    assert name in nbs <==> name in prev;
    assert name in nbs ==> nbs[name] == prev[name];
    if name in prev {
      var w: nat :| IsLatest(keys, stamps, lo + 1, name, w) && prev[name] == DeclaredBy(decls[w].value, weekTag);
      LatestStep(keys, stamps, lo, name, w);
    }
    assert Carries(keys, lo, name) ==> Carries(keys, lo + 1, name);
  }

  /** A declaration of this notebook creates it, or wins with a strictly later timestamp. */
  lemma DeclStepSame(decls: seq<Option<Declaration>>, lo: nat, weekTag: Option<string>, init: map<string, Notebook>, name: string)
    requires lo < |decls| && decls[lo].Some? && decls[lo].value.notebook == name && name !in init
    requires DeclWinner(decls, lo + 1, weekTag, init, name)
    ensures DeclWinner(decls, lo, weekTag, init, name)
  {
    var keys, stamps := DeclKeys(decls), DeclStamps(decls);
    var prev := DeclFold(decls, lo + 1, weekTag, init);
    if name !in prev {
      LatestFirst(keys, stamps, lo, name);
    } else {
      var w: nat :| IsLatest(keys, stamps, lo + 1, name, w) && prev[name] == DeclaredBy(decls[w].value, weekTag);
      LatestStep(keys, stamps, lo, name, w);
    }
  }

  /** The header pass changes the notebooks exactly by the declarations of its lines. */
  lemma {:induction false} HeaderPassDeclares(lines: seq<string>, lo: nat, questions: seq<string>, weekTag: Option<string>, parseFloat: FloatParser, init: PassState)
    requires lo <= |lines| && HeaderPass(lines, lo, questions, weekTag, parseFloat, init).Success?
    ensures HeaderPass(lines, lo, questions, weekTag, parseFloat, init).value.notebooks ==
      DeclFold(HeaderDecls(lines, questions, parseFloat), lo, weekTag, init.notebooks)
    decreases |lines| - lo
  {
    if lo < |lines| {
      HeaderPassDeclares(lines, lo + 1, questions, weekTag, parseFloat, init);
      var prev := HeaderPass(lines, lo + 1, questions, weekTag, parseFloat, init).value;
      HeaderLineDeclares(prev, lines[lo], questions, weekTag, parseFloat);
    }
  }

  /** One line of the header pass changes the notebooks exactly by the declaration it makes. */
  lemma HeaderLineDeclares(st: PassState, line: string, questions: seq<string>, weekTag: Option<string>, parseFloat: FloatParser)
    requires HeaderPassLine(st, line, questions, weekTag, parseFloat).Success?
    ensures var decl := HeaderDecl(line, questions, parseFloat);
      HeaderPassLine(st, line, questions, weekTag, parseFloat).value.notebooks ==
        if decl.Some? then Declare(st.notebooks, decl.value, weekTag) else st.notebooks
  {
  }

  /** A declaration carries its line's timestamp. */
  lemma HeaderDeclStamps(lines: seq<string>, questions: seq<string>, parseFloat: FloatParser)
    ensures var decls := HeaderDecls(lines, questions, parseFloat);
      forall j :: 0 <= j < |lines| && decls[j].Some? ==> DeclStamps(decls)[j] == Stamps(lines)[j]
  {
  }

  // ---------------------------------------------------------------------
  // Entries
  // ---------------------------------------------------------------------

  /** The entry a line records in the entry pass, if any. */
  function EntryOf(line: string, questions: seq<string>, parseFloat: FloatParser): Option<Entry>
  {
    if !IsEntryLine(line, questions) then None
    else match ParseEntry(line, parseFloat)
      case Success(e) => Some(e)
      case Failure(_) => None
  }

  /** The entry of every line. */
  function Entries(lines: seq<string>, questions: seq<string>, parseFloat: FloatParser): (entries: seq<Option<Entry>>)
    ensures |entries| == |lines|
    ensures forall j :: 0 <= j < |lines| ==> entries[j] == EntryOf(lines[j], questions, parseFloat)
  {
    seq(|lines|, j requires 0 <= j < |lines| => EntryOf(lines[j], questions, parseFloat))
  }

  /** The (notebook, question) pair each entry scores. */
  function EntryKeys(entries: seq<Option<Entry>>): (keys: seq<Option<(string, string)>>)
    ensures |keys| == |entries|
    ensures forall j :: 0 <= j < |entries| ==>
      keys[j] == if entries[j].Some? then Some((entries[j].value.notebook, entries[j].value.question)) else None
  {
    seq(|entries|, j requires 0 <= j < |entries| =>
      if entries[j].Some? then Some((entries[j].value.notebook, entries[j].value.question)) else None)
  }

  /** The timestamp each entry carries. */
  function EntryStamps(entries: seq<Option<Entry>>): (stamps: seq<string>)
    ensures |stamps| == |entries|
    ensures forall j :: 0 <= j < |entries| ==> stamps[j] == if entries[j].Some? then entries[j].value.score.timestamp else ""
  {
    seq(|entries|, j requires 0 <= j < |entries| => if entries[j].Some? then entries[j].value.score.timestamp else "")
  }

  /** The notebooks after recording `entries[lo..]`, last one first. */
  function EntryFold(entries: seq<Option<Entry>>, lo: nat, init: map<string, Notebook>): map<string, Notebook>
    requires lo <= |entries|
    decreases |entries| - lo
  {
    if lo == |entries| then init
    else
      var prev := EntryFold(entries, lo + 1, init);
      if entries[lo].Some? then Record(prev, entries[lo].value) else prev
  }

  /** Question `q` of notebook `name` is stored. */
  predicate Stored(nbs: map<string, Notebook>, name: string, q: string)
  {
    name in nbs && q in nbs[name].questions
  }

  /** Recording an entry for another (notebook, question) pair leaves this pair's score alone. */
  lemma RecordOther(nbs: map<string, Notebook>, e: Entry, name: string, q: string)
    requires (e.notebook, e.question) != (name, q)
    ensures Stored(Record(nbs, e), name, q) <==> Stored(nbs, name, q)
    ensures Stored(nbs, name, q) ==> Record(nbs, e)[name].questions[q] == nbs[name].questions[q]
  {
  }

  /**
    For a pair with no score at the start, after recording `entries[lo..]`:
    a score is stored exactly when some entry scores the pair, and then it
    is the score of its latest entry.
   */
  ghost predicate EntryWinner(entries: seq<Option<Entry>>, lo: nat, init: map<string, Notebook>, name: string, q: string)
    requires lo <= |entries|
  {
    var nbs := EntryFold(entries, lo, init);
    && (Stored(nbs, name, q) <==> Carries(EntryKeys(entries), lo, (name, q)))
    && (Stored(nbs, name, q) ==> exists j: nat :: (IsLatest(EntryKeys(entries), EntryStamps(entries), lo, (name, q), j) &&
          nbs[name].questions[q] == entries[j].value.score))
  }

  /**
    Recording entries from the last to the first, for a pair with no score
    at the start: a score is stored exactly when some entry scores the
    pair, and then it is the score of its latest entry.
   */
  lemma {:induction false} EntryFoldWinner(entries: seq<Option<Entry>>, lo: nat, init: map<string, Notebook>, name: string, q: string)
    requires lo <= |entries| && !Stored(init, name, q)
    ensures var nbs := EntryFold(entries, lo, init);
      && (Stored(nbs, name, q) <==> Carries(EntryKeys(entries), lo, (name, q)))
      && (Stored(nbs, name, q) ==> exists j: nat :: (IsLatest(EntryKeys(entries), EntryStamps(entries), lo, (name, q), j) &&
            nbs[name].questions[q] == entries[j].value.score))
    decreases |entries| - lo
  {
    if lo < |entries| {
      EntryFoldWinner(entries, lo + 1, init, name, q);
      assert EntryWinner(entries, lo + 1, init, name, q);
      if entries[lo].None? || (entries[lo].value.notebook, entries[lo].value.question) != (name, q) {
        EntryStepOther(entries, lo, init, name, q);
      } else {
        EntryStepSame(entries, lo, init, name, q);
      }
      assert EntryWinner(entries, lo, init, name, q);
    }
  }

  /** An entry for another pair leaves this pair's winner alone. */
  lemma EntryStepOther(entries: seq<Option<Entry>>, lo: nat, init: map<string, Notebook>, name: string, q: string)
    requires lo < |entries| && (entries[lo].None? || (entries[lo].value.notebook, entries[lo].value.question) != (name, q))
    requires EntryWinner(entries, lo + 1, init, name, q)
    ensures EntryWinner(entries, lo, init, name, q)
  {
    var keys, stamps := EntryKeys(entries), EntryStamps(entries);
    var prev := EntryFold(entries, lo + 1, init);
    if entries[lo].Some? {
      RecordOther(prev, entries[lo].value, name, q);
    }
    if Stored(prev, name, q) {
      var w: nat :| IsLatest(keys, stamps, lo + 1, (name, q), w) && prev[name].questions[q] == entries[w].value.score;
      LatestStep(keys, stamps, lo, (name, q), w);
    }
    assert Carries(keys, lo, (name, q)) ==> Carries(keys, lo + 1, (name, q));
  }

  /** An entry for this pair stores its score when new, or wins with a strictly later timestamp. */
  lemma EntryStepSame(entries: seq<Option<Entry>>, lo: nat, init: map<string, Notebook>, name: string, q: string)
    requires lo < |entries| && entries[lo].Some? && (entries[lo].value.notebook, entries[lo].value.question) == (name, q)
    requires !Stored(init, name, q)
    requires EntryWinner(entries, lo + 1, init, name, q)
    ensures EntryWinner(entries, lo, init, name, q)
  {
    var keys, stamps := EntryKeys(entries), EntryStamps(entries);
    var prev := EntryFold(entries, lo + 1, init);
    if !Stored(prev, name, q) {
      LatestFirst(keys, stamps, lo, (name, q));
    } else {
      var w: nat :| IsLatest(keys, stamps, lo + 1, (name, q), w) && prev[name].questions[q] == entries[w].value.score;
      LatestStep(keys, stamps, lo, (name, q), w);
    }
  }

  /** The entry pass changes the notebooks exactly by the entries of its lines. */
  lemma {:induction false} EntryPassRecords(lines: seq<string>, lo: nat, questions: seq<string>, parseFloat: FloatParser, init: map<string, Notebook>)
    requires lo <= |lines| && EntryPass(lines, lo, questions, parseFloat, init).Success?
    ensures EntryPass(lines, lo, questions, parseFloat, init).value == EntryFold(Entries(lines, questions, parseFloat), lo, init)
    decreases |lines| - lo
  {
    if lo < |lines| {
      EntryPassRecords(lines, lo + 1, questions, parseFloat, init);
    }
  }

  /** An entry carries its line's timestamp. */
  lemma EntryStampsAgree(lines: seq<string>, questions: seq<string>, parseFloat: FloatParser)
    ensures var entries := Entries(lines, questions, parseFloat);
      forall j :: 0 <= j < |lines| && entries[j].Some? ==> EntryStamps(entries)[j] == Stamps(lines)[j]
  {
  }
}
