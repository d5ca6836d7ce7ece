// Selection and placement of answer-key files copied out of the course
// content (move_solutions.py). A path is the sequence of its parts, as
// pathlib's `Path.parts` gives it; the filesystem walk, the git commands
// and the copying itself are left to the caller.

module MoveSolutions {
  import opened Wrappers
  import opened Strings

  type Path = seq<string>

  /** The term every copied answer key is filed under. */
  const Term: string := "winter_2025"

  /** app/solutions/<term>, where the answer-key package lives. */
  const BasePath: Path := ["app", "solutions", Term]

  datatype SolutionDetails = SolutionDetails(term: string, week: string, category: string)

  /** The script stops with `sys.exit(status)`. */
  datatype Exit = Exit(status: int)

  /** The last part of a path (`Path.name`). */
  function Name(p: Path): string {
    if |p| == 0 then "" else p[|p| - 1]
  }

  /** A file the `*_q.py` pattern matches and that sits under the
      autograder solutions of the jupyterbook, outside any `blah` directory. */
  predicate IsSolutionPath(p: Path)
    ensures IsSolutionPath(p) ==> |p| > 0 && |p[|p| - 1]| >= 5
  {
    && EndsWith(Name(p), "_q.py")
    && "jupyterbook" in p
    && "_solutions" in p
    && "autograder" in p
    && "blah" !in p
  }

  /** The selected paths, in the order the walk found them (SelectKeepsOrder). */
  function Select(found: seq<Path>): (selected: seq<Path>)
    ensures forall p :: p in selected <==> p in found && IsSolutionPath(p)
    ensures |selected| <= |found|
  {
    if |found| == 0 then []
    else
      var rest := Select(found[1..]);
      if IsSolutionPath(found[0]) then [found[0]] + rest else rest
  }

  /** Selection keeps the walk's order and multiplicity: selecting from two
      runs of paths is selecting from each in turn. */
  lemma {:induction false} SelectKeepsOrder(a: seq<Path>, b: seq<Path>)
    ensures Select(a + b) == Select(a) + Select(b)
    ensures Select([]) == [] && forall p :: Select([p]) == if IsSolutionPath(p) then [p] else []
    decreases |a|
  {
    if |a| > 0 {
      assert (a + b)[1..] == a[1..] + b;
      SelectKeepsOrder(a[1..], b);
    } else {
      assert a + b == b;
    }
    forall p
      ensures Select([p]) == if IsSolutionPath(p) then [p] else []
    {
      assert [p][1..] == [];
    }
  }

  /** The selection, or exit status 1 when nothing is selected. */
  function GetSolutionPaths(found: seq<Path>): (r: Result<seq<Path>, Exit>)
    ensures r.Failure? <==> forall p :: p in found ==> !IsSolutionPath(p)
    ensures r.Failure? ==> r.error == Exit(1)
    ensures r.Success? ==> forall p :: p in r.value <==> p in found && IsSolutionPath(p)
  {
    var selected := Select(found);
    if |selected| == 0 then Failure(Exit(1))
    else
      assert selected[0] in selected;
      Success(selected)
  }

  /** The parts that name a week: a week, a midterm or a practice final. */
  predicate IsWeekPart(part: string) {
    StartsWith(part, "week") || StartsWith(part, "midterm") || StartsWith(part, "practicefinal")
  }

  /** The position of the first week part at or after `from`. */
  function FirstWeekPart(p: Path, from: nat): (r: Option<nat>)
    requires from <= |p|
    ensures r.Some? ==> from <= r.value < |p| && IsWeekPart(p[r.value])
                        && forall j :: from <= j < r.value ==> !IsWeekPart(p[j])
    ensures r.None? ==> forall j :: from <= j < |p| ==> !IsWeekPart(p[j])
    decreases |p| - from
  {
    if from == |p| then None
    else if IsWeekPart(p[from]) then Some(from)
    else FirstWeekPart(p, from + 1)
  }

  /** The week and category of one path, or None when the path has no
      week part or its week part is the last part. */
  function Details(p: Path): (r: Option<SolutionDetails>)
    ensures r.Some? <==> exists i :: 0 <= i < |p| - 1 && IsWeekPart(p[i])
                                     && forall j :: 0 <= j < i ==> !IsWeekPart(p[j])
    ensures r.Some? ==> r.value.term == Term
    ensures r.Some? ==> exists i :: 0 <= i < |p| - 1 && IsWeekPart(p[i])
                                    && (forall j :: 0 <= j < i ==> !IsWeekPart(p[j]))
                                    && r.value.week == p[i] && r.value.category == p[i + 1]
  {
    match FirstWeekPart(p, 0)
    case None => None
    case Some(i) =>
      if i + 1 < |p| then Some(SolutionDetails(Term, p[i], p[i + 1])) else None
  }

  /** The details of every selected path, keyed by the path, or exit
      status 1 at the first path whose week or category cannot be found. */
  method GetModuleDetails(paths: seq<Path>) returns (r: Result<map<Path, SolutionDetails>, Exit>)
    ensures r.Failure? <==> exists p :: p in paths && Details(p).None?
    ensures r.Failure? ==> r.error == Exit(1)
    ensures r.Success? ==> r.value.Keys == set p | p in paths
    ensures r.Success? ==> forall p :: p in r.value ==> Details(p) == Some(r.value[p])
  {
    var solutions: map<Path, SolutionDetails> := map[];
    for k := 0 to |paths|
      invariant solutions.Keys == set p | p in paths[..k]
      invariant forall p :: p in solutions ==> Details(p) == Some(solutions[p])
      invariant forall p :: p in paths[..k] ==> Details(p).Some?
    {
      var path := paths[k];
      var weekIndex := FirstWeekPart(path, 0);
      if weekIndex.None? || weekIndex.value + 1 >= |path| {
        assert path in paths && Details(path).None?;
        return Failure(Exit(1));
      }
      var week := path[weekIndex.value];
      var category := path[weekIndex.value + 1];
      solutions := solutions[path := SolutionDetails(Term, week, category)];
      assert paths[..k + 1] == paths[..k] + [path];
    }
    assert paths[..|paths|] == paths;
    return Success(solutions);
  }

  /** The package directory a copied file goes to: base/week/category. */
  function ModuleDir(d: SolutionDetails): Path {
    BasePath + [d.week, d.category]
  }

  /** Where `copy_files` puts a source file: the module directory plus the
      file's own name. */
  function Destination(source: Path, d: SolutionDetails): (dest: Path)
    ensures dest == ["app", "solutions", "winter_2025", d.week, d.category, Name(source)]
  {
    ModuleDir(d) + [Name(source)]
  }

  /** The directories `copy_files` ensures an `__init__.py` in. */
  function InitDirectories(d: SolutionDetails): (dirs: seq<Path>)
    ensures |dirs| == 3 && dirs[0] == ["app", "solutions", "winter_2025"]
    ensures forall k :: 0 < k < 3 ==> |dirs[k]| == |dirs[k - 1]| + 1 && dirs[k][..|dirs[k - 1]|] == dirs[k - 1]
  {
    [BasePath, BasePath + [d.week], ModuleDir(d)]
  }

  /** The three package directories are the base and the two levels below
      it on the way to the destination: each is a proper prefix of the
      destination, and they are all the prefixes from the base down to the
      destination's directory. */
  lemma InitDirectoriesLeadToDestination(source: Path, d: SolutionDetails)
    ensures |InitDirectories(d)| == 3
    ensures forall k :: 0 <= k < 3 ==> InitDirectories(d)[k] == Destination(source, d)[..3 + k]
    ensures forall dir :: dir in InitDirectories(d) <==>
      exists n :: 3 <= n < 6 && dir == Destination(source, d)[..n]
  {
    var dest := Destination(source, d);
    assert InitDirectories(d)[0] == dest[..3];
    assert InitDirectories(d)[1] == dest[..4];
    assert InitDirectories(d)[2] == dest[..5];
  }
}
