// Grading helpers (app/utils.py): the late-submission modifier, the
// score-band feedback message and the titled section it is printed in.
//
// The exponential, the random pick among the perfect-score messages and
// the paragraph wrapping are parameters: `exp` stands for np.exp, `pick`
// for the index random.choice draws, `wrap` for textwrap.fill.

module Utils {

  /** Percentage kept by an on-time submission, and the floor for late ones. */
  const FullCredit: real := 100.0
  const MinimumCredit: real := 40.0
  /** Decay constant per minute late (6.88e-5). */
  const DecayPerMinute: real := 0.0000688

  function Max(a: real, b: real): real { if a >= b then a else b }
  function Min(a: real, b: real): real { if a <= b then a else b }

  /** The grade modifier for a submission `timeDelta` seconds after the due
      time: exponential decay per minute, floored at 40, then capped at 100. */
  function GradeModifier(exp: real -> real, timeDelta: int): (q: real)
    ensures MinimumCredit <= q <= FullCredit
  {
    var decayed := FullCredit * exp(-DecayPerMinute * (timeDelta as real) / 60.0);
    Min(Max(decayed, MinimumCredit), FullCredit)
  }

  /** The uncapped decay curve the modifier clamps. */
  function Decayed(exp: real -> real, timeDelta: int): real {
    FullCredit * exp(-DecayPerMinute * (timeDelta as real) / 60.0)
  }

  ghost predicate AtLeastOneOnNonNegatives(exp: real -> real) {
    forall x: real :: x >= 0.0 ==> exp(x) >= 1.0
  }

  ghost predicate Monotone(exp: real -> real) {
    forall x: real, y: real :: x <= y ==> exp(x) <= exp(y)
  }

  /** The modifier is the decay curve wherever the curve lies in [40, 100],
      and the nearer bound elsewhere. */
  lemma GradeModifierPiecewise(exp: real -> real, timeDelta: int)
    ensures var d := Decayed(exp, timeDelta);
      && (d < MinimumCredit ==> GradeModifier(exp, timeDelta) == MinimumCredit)
      && (MinimumCredit <= d <= FullCredit ==> GradeModifier(exp, timeDelta) == d)
      && (FullCredit < d ==> GradeModifier(exp, timeDelta) == FullCredit)
  {
  }

  /** A submission on time or early keeps full credit. */
  lemma OnTimeKeepsFullCredit(exp: real -> real, timeDelta: int)
    requires AtLeastOneOnNonNegatives(exp)
    requires timeDelta <= 0
    ensures GradeModifier(exp, timeDelta) == FullCredit
  {
    var x := -DecayPerMinute * (timeDelta as real) / 60.0;
    assert x >= 0.0;
    assert exp(x) >= 1.0;
  }

  /** Submitting later never raises the modifier. */
  lemma LaterNeverHelps(exp: real -> real, earlier: int, later: int)
    requires Monotone(exp)
    requires earlier <= later
    ensures GradeModifier(exp, later) <= GradeModifier(exp, earlier)
  {
    var x := -DecayPerMinute * (later as real) / 60.0;
    var y := -DecayPerMinute * (earlier as real) / 60.0;
    assert x <= y;
    assert exp(x) <= exp(y);
  }

  /** The feedback bands, from a perfect score down. */
  datatype Band = Perfect | Fantastic | Great | Good | KeepGoing | Encourage

  /** The band the if/elif chain selects for a percentage. */
  function BandOf(percentage: real): (b: Band)
    ensures InBand(percentage, b)
  {
    if percentage >= 100.0 then Perfect
    else if percentage >= 90.0 then Fantastic
    else if 80.0 <= percentage < 90.0 then Great
    else if 70.0 <= percentage < 80.0 then Good
    else if 60.0 <= percentage < 70.0 then KeepGoing
    else Encourage
  }

  /** Reference definition of each band as a half-open interval. */
  predicate InBand(percentage: real, b: Band) {
    match b
    case Perfect => 100.0 <= percentage
    case Fantastic => 90.0 <= percentage < 100.0
    case Great => 80.0 <= percentage < 90.0
    case Good => 70.0 <= percentage < 80.0
    case KeepGoing => 60.0 <= percentage < 70.0
    case Encourage => percentage < 60.0
  }

  function Rank(b: Band): nat {
    match b
    case Encourage => 0
    case KeepGoing => 1
    case Good => 2
    case Great => 3
    case Fantastic => 4
    case Perfect => 5
  }

  /** Every percentage lies in exactly one band, the one the chain selects. */
  lemma BandIsInterval(percentage: real, b: Band)
    ensures BandOf(percentage) == b <==> InBand(percentage, b)
  {
  }

  /** A higher percentage never falls into a lower band. */
  lemma BandMonotone(p: real, q: real)
    requires p <= q
    ensures Rank(BandOf(p)) <= Rank(BandOf(q))
  {
  }

  const PerfectMessages: seq<string> := [
    "🌟 Fantastic work! You're mastering this material like a pro!",
    "🌠 Incredible! Your performance is shining like a star!",
    "🏆 Amazing effort! You're at the top of your game!",
    "👏 Outstanding! You're demonstrating excellent mastery!",
    "🥇 Exceptional work! You're setting a gold standard!",
    "🚀 You're crushing it! Keep up the incredible momentum!",
    "🌟 Phenomenal! Your hard work is clearly paying off!",
    "🎉 Bravo! You're making this look easy!",
    "🌈 Superb performance! You should be very proud of yourself!",
    "🎸 You're a rockstar! Keep dazzling us with your brilliance!"
  ]

  function Title(b: Band): string {
    match b
    case Perfect => "\n🎉 Special Note"
    case Fantastic => "🌟 Motivation"
    case Great => "💪 Motivation"
    case Good => "👍 Motivation"
    case KeepGoing => "🌱 Motivation"
    case Encourage => "🚀 Motivation"
  }

  /** The fixed note of every band below perfect. */
  function Note(b: Band): string
    requires b != Perfect
  {
    match b
    case Fantastic => "Fantastic work! You're mastering this material like a pro! Keep it up! 💯"
    case Great => "Great effort! You're doing really well—keep pushing for that next level! You’ve got this! 🚀"
    case Good => "Good job! You're building a strong foundation—steady progress leads to mastery! 🌱"
    case KeepGoing => "Keep going! You're on the right track—stay focused, and you'll keep improving! 💡"
    case Encourage => "Don't be discouraged! Every step counts, and you're on the path to improvement. You’ve got this! 🌟"
  }

  /** A titled block: the title, its underline, the wrapped content, each
      on its own line. */
  function FormatSection(title: string, content: string, width: nat,
                         wrap: (string, nat) -> string): (s: string)
    ensures |s| == 2 * |title| + |wrap(content, width)| + 3
    ensures s[..|title|] == title && s[|s| - 1] == '\n'
  {
    title + "\n" + seq(|title|, _ => '=') + "\n" + wrap(content, width) + "\n"
  }

  /** The layout of a section, position by position: title, newline,
      underline of the title's length, newline, wrapped text, newline. */
  lemma FormatSectionLayout(title: string, content: string, width: nat, wrap: (string, nat) -> string)
    ensures var s := FormatSection(title, content, width, wrap);
      var body := wrap(content, width);
      && |s| == 2 * |title| + |body| + 3
      && s[..|title|] == title
      && s[|title|] == '\n'
      && (forall i :: |title| < i <= 2 * |title| ==> s[i] == '=')
      && s[2 * |title| + 1] == '\n'
      && s[2 * |title| + 2 .. |s| - 1] == body
      && s[|s| - 1] == '\n'
  {
    var s := FormatSection(title, content, width, wrap);
    var rule := seq(|title|, _ => '=');
    assert s == title + "\n" + rule + "\n" + wrap(content, width) + "\n";
    forall i | |title| < i <= 2 * |title|
      ensures s[i] == '='
    {
      assert s[i] == rule[i - |title| - 1];
    }
  }

  /** The text of a band's section: the drawn perfect-score message, or
      the band's fixed note. */
  function Content(b: Band, pick: nat): string
    requires pick < |PerfectMessages|
  {
    if b == Perfect then PerfectMessages[pick] else Note(b)
  }

  /** The feedback block for a percentage: the section the if/elif chain
      selects. `pick` is the perfect-score message random.choice draws. */
  function ScoreBasedMessage(percentage: real, pick: nat, wrap: (string, nat) -> string): (m: string)
    requires pick < |PerfectMessages|
    ensures |m| > 2 * |Title(BandOf(percentage))|
    ensures m[..|Title(BandOf(percentage))|] == Title(BandOf(percentage))
  {
    var b := BandOf(percentage);
    FormatSection(Title(b), Content(b, pick), 70, wrap)
  }

  /** The first character of the message tells the band apart: different
      bands never produce the same message. */
  lemma MessageIdentifiesBand(p: real, q: real, pick1: nat, pick2: nat, wrap: (string, nat) -> string)
    requires pick1 < |PerfectMessages| && pick2 < |PerfectMessages|
    requires ScoreBasedMessage(p, pick1, wrap) == ScoreBasedMessage(q, pick2, wrap)
    ensures BandOf(p) == BandOf(q)
  {
    MessageMark(p, pick1, wrap);
    MessageMark(q, pick2, wrap);
  }

  /** Every message opens with its band's mark. */
  lemma MessageMark(p: real, pick: nat, wrap: (string, nat) -> string)
    requires pick < |PerfectMessages|
    ensures |ScoreBasedMessage(p, pick, wrap)| > 0 && ScoreBasedMessage(p, pick, wrap)[0] == Mark(BandOf(p))
  {
    TitleMark(BandOf(p));
    SectionStartsWithTitle(Title(BandOf(p)), Content(BandOf(p), pick), wrap);
  }

  /** The character each band's title opens with. */
  function Mark(b: Band): char {
    match b
    case Perfect => '\n'
    case Fantastic => '🌟'
    case Great => '💪'
    case Good => '👍'
    case KeepGoing => '🌱'
    case Encourage => '🚀'
  }

  lemma TitleMark(b: Band)
    ensures |Title(b)| > 0 && Title(b)[0] == Mark(b)
  {
    match b
    case Perfect =>
    case Fantastic =>
    case Great =>
    case Good =>
    case KeepGoing =>
    case Encourage =>
  }

  lemma SectionStartsWithTitle(title: string, content: string, wrap: (string, nat) -> string)
    requires |title| > 0
    ensures |FormatSection(title, content, 70, wrap)| > 0 && FormatSection(title, content, 70, wrap)[0] == title[0]
  {
  }
}
