# Grading core: verified Dafny model

This project models the grading logic of a course autograder service and
proves properties about it. It covers five parts:

- **The execution-log parser** (`LogParser`). It reads the lines a
  notebook's instrumented cells write. It discovers the question tags
  mentioned alongside the week tag and picks up the single student record.
  It keeps, for every notebook, the `max_points` of its latest
  `total-points` header and, for every question, the score of its latest
  entry. Finally it sums each notebook's earned scores.
- **The live answer-key matcher** (`calculate_score`). It resolves term,
  week, assignment and question in turn, then awards all or nothing per
  answered part.
- **The strict submission validator** (`valid_submission`).
- **The late-penalty modifier and the feedback banding** (`utils`).
- **The solution-file classifier** that decides which answer-key files
  are copied, and where they go (`move_solutions.py`).

The modules follow the source files:

| Dafny module | file | models |
|---|---|---|
| `Wrappers` | wrappers.dfy | `Option` and `Result` |
| `Strings` | strings.dfy | Python `str.split`, `strip`, `startswith`, `endswith`, `in` and `<` on strings |
| `LogSpec` | log_spec.dfy | the parser's data and each of its steps and passes, as functions |
| `LogParse` | log_parser.dfy | class `LogParser`: fields `studentInfo`, `assignments` and `allQuestions`, and loops proved against `LogSpec` |
| `LogDiscovery` | log_discovery.dfy | question discovery and the student record |
| `LogWinners` | log_winners.dfy | the two reverse passes as folds, and which line wins for each key |
| `LogResults` | log_results.dfy | what a whole parse leaves: winners, timestamps, totals, reordering, defaults |
| `LiveScorer` | live_scorer.dfy | `Score`, the module registry and `calculate_score` |
| `Question` | question.dfy | `valid_submission` |
| `Utils` | utils.dfy | `get_grade_modifier`, `score_based_message`, `format_section` |
| `MoveSolutions` | move_solutions.dfy | file selection, week and category detection, destination paths |

Things outside the model become parameters:

- **Python's `float()`** is a partial parser `parseFloat: string -> Option<real>`.
- **`np.exp`** is a function `exp: real -> real`. Lemmas that need a
  property of it, such as monotonicity or `exp(x) >= 1` for `x >= 0`,
  take it as a precondition.
- **`textwrap.fill`** is a function `wrap`.
- **`random.choice`** is the index `pick` of the drawn message.
- **`importlib` loading** is a registry: a map from the dotted module
  name that would be imported (for example `.solutions.winter_2025.week_2`)
  to the attributes that module defines.
- **The filesystem walk** is the sequence of paths it found.

Timestamps are compared with Python's lexicographic string order
(`Strings.Less`), which the model defines and proves to be a strict total
order.

Two behaviours of the code differ from what its own comments or an
obvious reading suggest; the model follows the code:

- **`calculate_score`'s result.** Its docstring describes a `Score`
  result (app/live_scorer.py:89-91), but it returns the per-part map of
  `(earned, possible)` pairs, as its annotation says. An unanswered part
  is absent from that map, so it adds no possible points
  (`LiveScorer.MissingPartScenario`).
- **The floor of the modifier.** The floor of 40 binds only when
  `time_delta` exceeds about 799 000 s (ln 2.5 / 6.88e-5 minutes); for
  `time_delta = 600000` the formula gives 100·e^(−0.688) ≈ 50.3.

A further behaviour of the code is kept as written. A list answer is
compared with `sorted(...)` of the key. When the key is a string, that
sorts the key's characters, so a list of one-character strings that
spells an anagram of the key earns full points (`LiveScorer.Matches`).

## Model

| member | source | states |
|---|---|---|
| LogParse.LogParser.constructor | app/parse.py:12-15 | a new parser holds the given lines and week tag, no student record, no notebooks and no questions |
| LogParse.LogParser.ParseLogs | app/parse.py:17-42 | the fields after `parse_logs` are exactly those of `LogSpec.Parse`: discovery, then the reverse header pass, then the reverse entry pass; on an error the error is the one `Parse` reports |
| LogParse.LogParser.ReadHeaders | app/parse.py:21-34 | the reverse loop over the lines leaves the student record and notebooks of `LogSpec.HeaderPass` from the last line down to the first, or that pass's error |
| LogParse.LogParser.ReadEntries | app/parse.py:36-42 | the second reverse loop leaves the notebooks of `LogSpec.EntryPass`, or its error |
| LogParse.LogParser.FindAllQuestions | app/parse.py:44-55 | `allQuestions` becomes `LogSpec.Discover` of the lines, or the IndexError it reports |
| LogParse.LogParser.ProcessStudentInfo | app/parse.py:63-84 | adds the line's username to the set seen; fails with more than one name; sets the record only when none is set yet (`LogSpec.StudentLine`) |
| LogParse.LogParser.ProcessAssignmentHeader | app/parse.py:86-106 | a line whose field 0 starts with `total-points` creates the notebook named by field 3, or replaces its `max_points` and latest timestamp only when its timestamp is strictly greater (`LogSpec.HeaderStep`) |
| LogParse.LogParser.ProcessAssignmentEntry | app/parse.py:108-142 | creates a bare notebook when missing; stores the question's score when it is new or strictly later; raises the latest timestamp when strictly later (`LogSpec.EntryStep`) |
| LogParse.LogParser.CalculateTotalScores | app/parse.py:153-161 | each notebook's total becomes the sum of its questions' earned scores (`LogSpec.WithTotals`) |
| LogParse.LogParser.GetResults | app/parse.py:163-184 | the three sections hold the student record, and for every notebook and only those, its latest timestamp, total and `max_points`, with 0.0 for a notebook no header created, and its questions |
| LogParse.SumScores | app/parse.py:160 | the loop's sum is the sum of the earned scores |
| LogSpec.Fields | app/parse.py:51 | splitting a line on `,` gives at least one field |
| LogSpec.StudentLine | app/parse.py:63-84 | a "Student Info" line that succeeds keeps every name seen, leaves exactly one and a record, and never replaces a record already set; a second name fails with the set of names; the only other failure is IndexError |
| LogSpec.ParseHeader | app/parse.py:86-93 | a header line fails only with IndexError, and a declaration it reads has a field 3 and the line's timestamp |
| LogSpec.ExtractTotalPoints | app/parse.py:144-151 | a value is found exactly when field 1 exists and parses as a number, and it is that number; a missing or malformed field gives None rather than an error |
| LogSpec.Declare | app/parse.py:95-106 | a header adds its notebook if missing and changes no other notebook, nor the header record or questions of its own |
| LogSpec.ParseEntry | app/parse.py:113-118 | an entry line fails only with IndexError or a score that is not a number; an entry it reads has a field 1 and carries the line's timestamp |
| LogSpec.Record | app/parse.py:120-142 | an entry adds its notebook if missing, adds its question to that notebook's stored questions, keeps the notebook's header and `max_points`, and changes no other notebook |
| LogSpec.HeaderPass | app/parse.py:25-34 | a successful header pass keeps every name seen and every notebook it starts with, and never replaces a student record already set |
| LogSpec.EntryPass | app/parse.py:37-42 | a successful entry pass keeps every notebook it starts with |
| LogSpec.Parse | app/parse.py:17-42 | a successful parse has no duplicate question tag, keeps the notebooks and student record it starts with |
| LogSpec.Discover | app/parse.py:44-55 | the discovered tags contain no duplicate; an absent or empty week tag discovers nothing; the only failure is IndexError |
| LogSpec.DiscoverFailureSpreads | app/parse.py:49-54 | an IndexError at some line is the result of the whole scan |
| LogSpec.HeaderPassFailureSpreads | app/parse.py:25-34 | an error raised at some line of the header pass is the result of the whole pass |
| LogSpec.EntryPassFailureSpreads | app/parse.py:37-42 | an error raised at some line of the entry pass is the result of the whole pass |
| LogSpec.SumEarnedPick | app/parse.py:160 | the sum of earned scores does not depend on the order of the questions |
| LogDiscovery.DiscoverFailsIff | app/parse.py:49-52 | discovery fails exactly when some line mentioning the week has fewer than four comma fields |
| LogDiscovery.DiscoverSound | app/parse.py:49-54 | every discovered tag is the stripped fourth field of a line that mentions the week |
| LogDiscovery.DiscoverComplete | app/parse.py:49-54 | the stripped fourth field of every line that mentions the week is discovered |
| LogDiscovery.DiscoverPrefix | app/parse.py:48-55 | the tags found in a prefix of the log are a prefix of the tags found in the whole log |
| LogDiscovery.DiscoverFirstOccurrenceOrder | app/parse.py:53-54 | tags are kept in first-occurrence order: every line carrying a later-listed tag is preceded by a line carrying each earlier-listed tag |
| LogDiscovery.SecondStudentFails | app/parse.py:70-76 | a line naming a second distinct username raises the multiple-students error, even when the record is already set |
| LogDiscovery.StudentNames | app/parse.py:63-76 | in a header pass that succeeds, every "Student Info" line has a username, each is among the names kept, and at most one name is kept |
| LogDiscovery.StudentRecord | app/parse.py:78-84 | the header pass keeps a record it starts with; otherwise it ends with fields 1–3 of the physically last "Student Info" line, or with none when there is no such line |
| LogDiscovery.OneStudent | app/parse.py:63-76 | in a log that parses, any two "Student Info" lines name the same user |
| LogDiscovery.StudentInfoFromLastLine | app/parse.py:78-84 | a fresh parser's student record is fields 1–3 of the physically last "Student Info" line, or none |
| LogWinners.LatestUnique | app/parse.py:130-133 | a key has at most one latest line (greatest timestamp, ties to the later line) |
| LogWinners.LatestFirst | app/parse.py:128-138 | the only line carrying a key is its latest |
| LogWinners.LatestStep | app/parse.py:130-138 | meeting one more line in reverse either keeps the previous winner or, on a strictly greater timestamp, makes the new line the winner |
| LogWinners.LatestSameStamps | app/parse.py:118 | the winner depends only on the timestamps of the lines carrying the key |
| LogWinners.DeclFoldWinner | app/parse.py:95-106 | after the header pass a notebook exists exactly when some header declares it, and its record is the one its latest declaration sets |
| LogWinners.HeaderPassDeclares | app/parse.py:25-34 | the header pass changes the notebooks exactly as applying the lines' declarations from last to first |
| LogWinners.HeaderLineDeclares | app/parse.py:86-106 | one line of the header pass changes the notebooks exactly by its declaration |
| LogWinners.HeaderDeclStamps | app/parse.py:92 | a declaration's timestamp is its line's timestamp |
| LogWinners.RecordOther | app/parse.py:121-138 | recording an entry for another pair leaves this pair's score unchanged |
| LogWinners.EntryFoldWinner | app/parse.py:128-138 | after the entry pass a pair is stored exactly when some entry scores it, and its score is that of its latest entry |
| LogWinners.EntryPassRecords | app/parse.py:37-42 | the entry pass changes the notebooks exactly as recording the lines' entries from last to first |
| LogWinners.EntryStampsAgree | app/parse.py:118 | an entry's timestamp is its line's timestamp |
| LogResults.DeclareRaises | app/parse.py:95-106 | a header never lowers a notebook's latest timestamp and keeps every question's timestamp covered |
| LogResults.RecordRaises | app/parse.py:121-142 | an entry never lowers a latest timestamp and leaves every stored question, its own included, no later than its notebook's latest timestamp |
| LogResults.DeclFoldCovered | app/parse.py:25-34 | the header pass keeps timestamps covered |
| LogResults.EntryFoldKeeps | app/parse.py:120-142 | the entry pass keeps timestamps covered, never lowers a latest timestamp, keeps `max_points` and header of existing notebooks, and gives new ones neither |
| LogResults.ParseIsFolds | app/parse.py:17-42 | a fresh parse is the header fold followed by the entry fold |
| LogResults.HeadedWinner | app/parse.py:95-106 | after the header pass every notebook is the record of its latest header, with no questions |
| LogResults.ParsedHeader | app/parse.py:86-106 | after parsing, a notebook has a header exactly when some header line declares it, and its `max_points` is that of the latest declaration (ties to the physically last line) |
| LogResults.ParsedEntry | app/parse.py:128-138 | after parsing, a question is stored exactly when some entry line scores it, and its score is that of its latest entry (ties to the physically last line) |
| LogResults.ParsedEntryWinner | app/parse.py:128-138 | gives the index of the latest entry of every stored question |
| LogResults.ParsedCovered | app/parse.py:104-142 | after parsing, every notebook's latest timestamp is no earlier than each of its questions' timestamps |
| LogResults.ParsedUndeclared | app/parse.py:163-176 | a notebook no header declares has no `max_points`, which the results report as 0.0 |
| LogResults.MentionsAnySameTags | app/parse.py:38-41 | whether a line mentions a tag depends only on which tags are known |
| LogResults.TagsCarryOver | app/parse.py:44-55 | a log whose lines all occur in another discovers no tag the other does not |
| LogResults.CarriesCarryOver | app/parse.py:37-42 | a pair scored by some line of one log is scored by that line in any log containing it |
| LogResults.ReorderInvariant | app/parse.py:128-138 | rearranging the lines does not change which questions are stored or their scores, when no two different lines the entry pass reads score the same pair with the same timestamp |
| LogResults.LatestLinesAgree | app/parse.py:130-133 | in two arrangements of the same lines, a pair's latest line is the same line under that condition |
| LogResults.EntryFoldNames | app/parse.py:120-126 | the entry pass adds exactly the notebooks its entries name |
| LogResults.ParsedNotebooks | app/parse.py:95-126 | after parsing, a notebook exists exactly when some header line declares it or some entry line names it |
| LogResults.LineReadsAlike | app/parse.py:30-41 | a line is read as the same declaration and the same entry whatever the order of the known tags |
| LogResults.NamesCarryOver | app/parse.py:25-42 | a notebook declared or named by some line of one log is declared or named by that line in any log containing it |
| LogResults.LatestDeclsAgree | app/parse.py:104-106 | in two arrangements of the same lines, a notebook's latest declaration is the same line, when no two different lines the header pass reads declare it with the same timestamp |
| LogResults.ReorderNotebooks | app/parse.py:17-42 | rearranging the lines gives the same notebooks |
| LogResults.ReorderHeaders | app/parse.py:86-106 | rearranging the lines gives each notebook the same header record and `max_points`, when no two different lines the header pass reads declare the same notebook with the same timestamp |
| LogResults.ReorderQuestions | app/parse.py:128-161 | rearranging the lines gives each notebook the same questions and the same total, when no two different lines the entry pass reads score the same pair with the same timestamp |
| LogResults.ReorderTotals | app/parse.py:17-161 | after `parse_logs` and `calculate_total_scores`, rearranging the lines gives the same notebooks, each with the same header record, `max_points`, questions and total, under both distinct-timestamp conditions |
| LogResults.SumEarnedInsert | app/parse.py:160 | adding a question adds its earned score to the sum |
| LogResults.WithTotalsOnlyTotals | app/parse.py:158-161 | the totals pass keeps the notebooks, sets each total to the sum of earned scores, and changes nothing else |
| LogResults.WithTotalsIdempotent | app/parse.py:153-161 | computing the totals twice is computing them once |
| LogResults.EntryFields | app/parse.py:113-118 | an entry reads its tags from fields 0 and 1, its earned and possible scores from fields 2 and 3 (0.0 when absent), and its timestamp from the last field |
| LogResults.EntryErrors | app/parse.py:115-117 | an entry line is an error exactly when it has no field 1 (IndexError) or a score field it has is not a number (ValueError) |
| LogResults.HeaderValue | app/parse.py:144-151 | a header names its notebook by field 3 and its timestamp by the last field; its `max_points` is absent exactly when field 1 is missing or not a number, which is not an error |
| Strings.Split | app/parse.py:51 | a split has at least one piece |
| Strings.JoinSplit | app/parse.py:51 | joining the pieces of a split with the separator gives back the string |
| Strings.SplitPiecesFree | app/parse.py:68 | no piece of a split contains the separator |
| Strings.StripTrims | app/parse.py:52 | `strip` leaves no whitespace at either end and removes only whitespace, from the ends |
| Strings.StripIdempotent | app/parse.py:70 | stripping twice is stripping once |
| Strings.LessIsFirstDifference | app/parse.py:104 | string `<` means a proper prefix, or a smaller character at the first difference |
| Strings.LessIrreflexive | app/parse.py:132 | no timestamp is less than itself |
| Strings.LessTransitive | app/parse.py:104 | string `<` is transitive |
| Strings.LessTotal | app/parse.py:132 | of two different timestamps one is less than the other |
| LiveScorer.CalculateScore | app/live_scorer.py:72-148 | the straight-line lookups and the loop over the answer key return exactly `LiveScorer.Calculate`: a lookup message, the fetch message, the exception that escapes, or the per-part map |
| LiveScorer.SortedItems | app/live_scorer.py:142 | `sorted` accepts exactly lists and strings (a string as its characters), and keeps their number of elements |
| LiveScorer.Matches | app/live_scorer.py:140-144 | an answer equal to the key matches; any other match is a list answer against a list or string key |
| LiveScorer.PartScore | app/live_scorer.py:135-146 | a part is skipped exactly when it was not answered; a scored part earns all or none of `points[i]`, which exists; IndexError means `points[i]` does not exist, TypeError a list answer against a key that cannot be sorted |
| LiveScorer.ScoreParts | app/live_scorer.py:133-146 | every scored part was answered, and earns all or none of its points |
| LiveScorer.Calculate | app/live_scorer.py:111-148 | the scored parts are answered parts, and the only messages are the four lookup messages and the fetch message |
| LiveScorer.FailureSpreads | app/live_scorer.py:135-146 | the first exception raised in the loop is the result of the call |
| LiveScorer.LookupMessagesDiffer | app/live_scorer.py:113-131 | the lookup messages of different levels and the fetch message never coincide |
| LiveScorer.LookupStopsAtFirstMissingLevel | app/live_scorer.py:111-125 | each "Invalid term/week/assignment/question" message is returned exactly when its level is the first missing one, checked in that order |
| LiveScorer.FetchMessageIff | app/live_scorer.py:127-131 | "Error fetching solution" is returned exactly when the question resolves but lacks `solutions` or `total_points` |
| LiveScorer.ScoredKeysAreAnswered | app/live_scorer.py:133-138 | the scored parts are exactly the answer-key parts that appear in the responses; missing ones are skipped |
| LiveScorer.PartAward | app/live_scorer.py:135-146 | the part at position i scores (points[i], points[i]) when the answer matches and (0, points[i]) otherwise, and points[i] exists |
| LiveScorer.ExactAnswerEarnsFull | app/live_scorer.py:140-141 | an answer equal to the key earns all the part's points |
| LiveScorer.PermutedListEarnsFull | app/live_scorer.py:142-144 | a list answer that rearranges a list key earns all the part's points |
| LiveScorer.ScorePartsErrors | app/live_scorer.py:135-146 | scoring succeeds exactly when every answered position has a points entry and no list answer meets an unsortable key; an IndexError means some answered position lies beyond `total_points` |
| LiveScorer.ReorderedListScenario | app/live_scorer.py:133-148 | a two-part key answered in full, the list out of order, scores both parts in full as a per-part map |
| LiveScorer.MissingPartScenario | app/live_scorer.py:136-138 | leaving a part out drops it from the result |
| Question.ValidatorMessagesDiffer | app/question.py:13-36 | the validator's messages never coincide |
| Question.ValidSubmission | app/question.py:13-38 | the verdict is None or one of the six messages of the validator |
| Question.ValidatorLookupOrder | app/question.py:13-29 | term, assignment and question are checked in that order, with no week level; each message is returned exactly when its level is the first missing one, and the fetch message exactly when `solution` or `points` is absent |
| Question.ValidatorChecks | app/question.py:31-38 | "Invalid response length" exactly when the key resolves and the counts differ; "Invalid score data" exactly when the counts agree and the declared maximum differs from the sum of points; None exactly when both pass |
| Question.ContentsNotExamined | app/question.py:31-38 | the answers and the points earned never change the verdict |
| Question.ScorerKeysRejected | app/question.py:25-29 | a module defining only the scorer's `solutions`/`total_points` names is always rejected with the fetch message |
| Utils.GradeModifier | app/utils.py:185-204 | the modifier always lies in [40, 100], whatever the exponential returns |
| Utils.GradeModifierPiecewise | app/utils.py:197-204 | the modifier is the decay curve 100·exp(−6.88e-5·t/60) where that lies in [40, 100], 40 below and 100 above |
| Utils.OnTimeKeepsFullCredit | app/utils.py:202-204 | with exp(x) ≥ 1 for x ≥ 0, a submission on time or early gets exactly 100 |
| Utils.LaterNeverHelps | app/utils.py:202-204 | with a monotone exponential, a later submission never gets a higher modifier |
| Utils.BandOf | app/utils.py:209-236 | the band the chain selects is one whose interval holds the percentage |
| Utils.FormatSection | app/utils.py:156-158 | a section is as long as the title twice, the wrapped text and three newlines, opens with the title and ends with a newline |
| Utils.ScoreBasedMessage | app/utils.py:209-236 | the message opens with the title of the band the percentage lies in, followed by more than the title's length |
| Utils.BandIsInterval | app/utils.py:209-236 | the if/elif chain selects a band exactly when the percentage lies in its interval, so exactly one band |
| Utils.BandMonotone | app/utils.py:209-236 | a higher percentage never falls into a lower band |
| Utils.FormatSectionLayout | app/utils.py:156-158 | a section is the title, a newline, `=` repeated as long as the title, a newline, the wrapped content and a final newline |
| Utils.MessageMark | app/utils.py:209-236 | every feedback message opens with its band's title mark |
| Utils.MessageIdentifiesBand | app/utils.py:209-236 | different bands never produce the same message |
| MoveSolutions.Select | move_solutions.py:88-95 | a path is selected exactly when it was found, its name matches `*_q.py`, its parts include `jupyterbook`, `_solutions` and `autograder`, and exclude `blah` |
| MoveSolutions.IsSolutionPath | move_solutions.py:90-94 | a selected path has a last part, which ends in `_q.py` |
| MoveSolutions.SelectKeepsOrder | move_solutions.py:88-95 | the selection keeps the walk's order and multiplicity: selecting from two runs is selecting from each in turn, and one path is kept exactly when it passes the test |
| MoveSolutions.GetSolutionPaths | move_solutions.py:87-101 | the selection is returned, or exit status 1 exactly when nothing is selected |
| MoveSolutions.FirstWeekPart | move_solutions.py:109-115 | the index found is the first part starting with `week`, `midterm` or `practicefinal`, and none means no part does |
| MoveSolutions.Details | move_solutions.py:108-122 | a path has details exactly when its first week part is not its last part; then the term is `winter_2025`, the week is that part and the category the next one |
| MoveSolutions.GetModuleDetails | move_solutions.py:104-124 | the loop ends in exit status 1 exactly when some path has no details; otherwise the map has exactly one entry per input path, holding that path's details |
| MoveSolutions.Destination | move_solutions.py:127-138 | a file goes to `app/solutions/winter_2025/<week>/<category>/<file name>` |
| MoveSolutions.InitDirectories | move_solutions.py:133 | there are three directories, the base `app/solutions/winter_2025` first, each the one before it extended by one part |
| MoveSolutions.InitDirectoriesLeadToDestination | move_solutions.py:133-136 | `__init__.py` goes into exactly three directories: the base, base/week and base/week/category, the prefixes of the destination from the base down to its directory |

## Left out

- HTTP routing, request handling, authentication, persistence and key
  handling are not part of this model. The call from the HTTP layer into
  `calculate_score` without a week argument (app/main.py:100-105) is glue
  and is not modelled.
- `calculate_delta_seconds` is not modelled, because it parses dates with
  time zones through an external library. The modifier takes the delay
  in seconds as input.
- Floating point is not modelled: scores, sums and the modifier are
  reals. IEEE rounding in `np.exp`, in `sum` and in `float()` is left out.
- `load_module` is left out: importing is a registry lookup. An import
  that fails with an error other than "module not found" is not modelled.
- `LiveScorer.SortedItems`: `sorted` raising TypeError on elements of
  mixed types is not modelled; list elements are taken as mutually
  comparable. A key that is not iterable (a number or None) does raise
  TypeError in the model.
- `LiveScorer.Value`: dicts as answer values are not modelled. Booleans
  are the numbers 0 and 1, as Python's `==` and sorting treat them.
- The answer-key dict is a sequence of pairs in insertion order, and the
  lemmas about individual parts assume its keys are distinct, as a dict's
  are. Every other dict is a Dafny `map`, which has no order: the parser's
  `assignments`, the results of `get_results`, the responses and the map
  `calculate_score` returns. So the model does not state that `scores`
  lists the parts in the answer key's order (app/live_scorer.py:135), nor
  that `get_results` lists notebooks in the order they were first met
  (app/parse.py:169-183); only their contents are stated.
- `LogResults.ReorderTotals`: a notebook's latest timestamp is not
  covered by the reordering lemmas, and each needs its condition that no
  two different lines tie on the same key and timestamp, because ties go
  to the physically last line.
- `LogParse.LogParser.ParseLogs`: the fields' contents after an error are
  not stated. The Python object keeps whatever it had changed before the
  exception; the model only reports the error.
- Printing is I/O and is not modelled: the message `calculate_score`
  prints when a list answer matches out of order
  (app/live_scorer.py:143), and the messages `move_solutions.py` prints
  to standard error.
- The git subprocesses, argument parsing, the filesystem walk and the
  copying in `move_solutions.py` are I/O.
  `copy_files` is modelled by the paths it computes
  (`MoveSolutions.Destination`, `MoveSolutions.InitDirectories`), not by
  its effects.
- `textwrap.fill` is a parameter. How it breaks lines is not modelled.
- `random.choice` is the index of the drawn message.
- The unused list of motivational notes in app/utils.py is left out.
- The answer-key modules under app/solutions/ are data. Only a two-part
  key in the shape of those files appears, in the scenario lemmas.
