/** The guessing game shared by the `country`, `hogwarts` and `marvel` commands:
    one engine, configured per theme by a step penalty and a score floor. */
module GuessGame {
  import opened Wrappers
  import Text

  /** The answer of a round, as a subject provider returns it: the name to guess,
      the canned hints in order, and a theme-specific payload shown on success. */
  datatype Subject<P> = Subject(name: string, hints: seq<string>, payload: P)

  /** One theme's state: the active subject, if any, and the hints used on it. */
  datatype Session<P> = Session(subject: Option<Subject<P>>, hintsUsed: nat)

  /** Per-theme configuration of the one engine. */
  datatype Config = Config(stepPenalty: nat, floor: nat, skipShowsFirstHint: bool)

  const CountryConfig: Config := Config(20, 20, true)
  const HogwartsConfig: Config := Config(12, 16, false)
  const MarvelConfig: Config := Config(15, 10, false)

  const MaskChar: char := '_'
  const MaxScore: int := 100

  function Idle<P>(): Session<P>
  {
    Session(None, 0)
  }

  /** What a hint request shows. */
  datatype Disclosure =
    | CannedHint(number: nat, text: string)   // "Hint #number: text"
    | LetterReveal(text: string)              // "Letter reveal: text"
    | Exhausted                               // "No more hints available!"

  /** The reply a game command renders. */
  datatype Reply<P> =
    | Menu                        // the theme's command list
    | NoActiveGame                // skip without a subject
    | Hinted(disclosure: Disclosure)
    | EmptyGuess
    | Correct(name: string, payload: P, score: int)
    | Wrong
    | Started(subject: Subject<P>)
    | StartFailed
    | Skipped(previous: string, firstHint: Option<string>, next: Subject<P>)
    | SkipFailed

  /** The sub-command selected by `args[0]`; `Guess` carries `args[1..]` joined. */
  datatype GameCommand = Show | Start | Hint | Guess(text: string) | Skip

  /** The first `shown` characters of `name`, every later one replaced by the mask. */
  function Reveal(name: string, shown: nat): (r: string)
    requires shown <= |name|
    ensures |r| == |name|
    ensures r[..shown] == name[..shown]
    ensures forall i :: shown <= i < |r| ==> r[i] == MaskChar
  {
    name[..shown] + seq(|name| - shown, _ => MaskChar)
  }

  /** The disclosure for a hint request after `h` hints have been used. */
  function NextDisclosure<P>(subject: Subject<P>, h: nat): (d: Disclosure)
    ensures d.CannedHint? <==> h < |subject.hints|
    ensures d.CannedHint? ==> d.number == h + 1 && d.text == subject.hints[h]
    ensures d.LetterReveal? <==> |subject.hints| <= h < |subject.hints| + |subject.name|
    ensures d.LetterReveal? ==>
      var shown := h - |subject.hints| + 1;
      && |d.text| == |subject.name|
      && d.text[..shown] == subject.name[..shown]
      && (forall i :: shown <= i < |d.text| ==> d.text[i] == MaskChar)
    ensures d.Exhausted? <==> h >= |subject.hints| + |subject.name|
  {
    var hints, name := subject.hints, subject.name;
    if h >= |hints| + |name| then Exhausted
    else if h >= |hints| then LetterReveal(Reveal(name, h - |hints| + 1))
    else CannedHint(h + 1, hints[h])
  }

  /** The last letter reveal shows the whole name. */
  lemma LastRevealIsName<P>(subject: Subject<P>)
    requires |subject.name| > 0
    ensures NextDisclosure(subject, |subject.hints| + |subject.name| - 1) == LetterReveal(subject.name)
  {
    var d := NextDisclosure(subject, |subject.hints| + |subject.name| - 1);
    assert d.text[..|subject.name|] == d.text;
  }

  /** A letter revealed by one request stays revealed by every later one. */
  lemma RevealMonotone<P>(subject: Subject<P>, h: nat, h': nat, i: nat)
    requires |subject.hints| <= h <= h' < |subject.hints| + |subject.name|
    requires i < |subject.name| && NextDisclosure(subject, h).text[i] != MaskChar
    ensures NextDisclosure(subject, h').text[i] == NextDisclosure(subject, h).text[i]
  {
    var shown, shown' := h - |subject.hints| + 1, h' - |subject.hints| + 1;
    var t, t' := NextDisclosure(subject, h).text, NextDisclosure(subject, h').text;
    assert i < shown;
    assert t[i] == t[..shown][i] == subject.name[i];
    assert t'[i] == t'[..shown'][i] == subject.name[i];
  }

  /** The score of a correct guess after `h` hints: `max(100 - h * step, floor)`. */
  function Score(cfg: Config, h: nat): (r: int)
    ensures r >= cfg.floor
    ensures r >= MaxScore - h * cfg.stepPenalty
    ensures r == cfg.floor || r == MaxScore - h * cfg.stepPenalty
  {
    if MaxScore - h * cfg.stepPenalty >= cfg.floor then MaxScore - h * cfg.stepPenalty else cfg.floor
  }

  /** More hints never score more, and no score exceeds 100 when the floor does not. */
  lemma ScoreBounds(cfg: Config, h: nat, h': nat)
    requires cfg.floor <= MaxScore && h <= h'
    ensures Score(cfg, h') <= Score(cfg, h) <= MaxScore
    ensures Score(cfg, 0) == MaxScore
  {
    assert h * cfg.stepPenalty <= h' * cfg.stepPenalty by {
      var d := h' - h;
      assert h' * cfg.stepPenalty == h * cfg.stepPenalty + d * cfg.stepPenalty;
    }
  }

  /** The three themes' constants at their boundary values. */
  lemma ThemeScores()
    ensures Score(CountryConfig, 0) == 100 && Score(CountryConfig, 2) == 60
    ensures Score(CountryConfig, 4) == 20 && Score(CountryConfig, 10) == 20
    ensures Score(HogwartsConfig, 7) == 16 && Score(HogwartsConfig, 6) == 28
    ensures Score(MarvelConfig, 6) == 10 && Score(MarvelConfig, 5) == 25
  {
  }

  /** A session is consistent when an idle one has a zero counter and an active
      one has used no more hints than its subject can give. */
  predicate Valid<P>(s: Session<P>)
  {
    match s.subject
    case None => s.hintsUsed == 0
    case Some(x) => s.hintsUsed <= |x.hints| + |x.name|
  }

  /** `<theme> start`: install the fetched subject, or report the failed fetch. */
  function StartGame<P>(s: Session<P>, fetched: Option<Subject<P>>): (r: (Session<P>, Reply<P>))
    ensures fetched.Some? ==> r == (Session(Some(fetched.value), 0), Started(fetched.value))
    ensures fetched.None? ==> r == (s, StartFailed)
  {
    match fetched
    case Some(x) => (Session(Some(x), 0), Started(x))
    case None => (s, StartFailed)
  }

  /** `<theme> hint` on an active session. */
  function HintStep<P>(s: Session<P>): (r: (Session<P>, Reply<P>))
    requires s.subject.Some?
    ensures r.1 == Hinted(NextDisclosure(s.subject.value, s.hintsUsed))
    ensures r.0.subject == s.subject
    ensures r.0.hintsUsed == if r.1.disclosure.Exhausted? then s.hintsUsed else s.hintsUsed + 1
  {
    var d := NextDisclosure(s.subject.value, s.hintsUsed);
    if d.Exhausted? then (s, Hinted(d))
    else (s.(hintsUsed := s.hintsUsed + 1), Hinted(d))
  }

  /** `<theme> guess <text>` on an active session; the comparison ignores ASCII case. */
  function GuessStep<P>(cfg: Config, s: Session<P>, text: string): (r: (Session<P>, Reply<P>))
    requires s.subject.Some?
    ensures text == "" ==> r == (s, EmptyGuess)
    ensures text != "" && Text.Lower(text) == Text.Lower(s.subject.value.name) ==>
      r.0 == Idle() && r.1.Correct? && r.1.name == s.subject.value.name
      && r.1.payload == s.subject.value.payload && r.1.score == Score(cfg, s.hintsUsed)
    ensures text != "" && Text.Lower(text) != Text.Lower(s.subject.value.name) ==> r == (s, Wrong)
  {
    var x := s.subject.value;
    if text == "" then (s, EmptyGuess)
    else if Text.Lower(text) == Text.Lower(x.name) then (Idle(), Correct(x.name, x.payload, Score(cfg, s.hintsUsed)))
    else (s, Wrong)
  }

  /** `<theme> skip`: needs an active subject, then behaves like start on the fetch. */
  function SkipStep<P>(cfg: Config, s: Session<P>, fetched: Option<Subject<P>>): (r: (Session<P>, Reply<P>))
    ensures s.subject.None? ==> r == (s, NoActiveGame)
    ensures s.subject.Some? && fetched.None? ==> r == (s, SkipFailed)
    ensures s.subject.Some? && fetched.Some? ==>
      && r.0 == Session(Some(fetched.value), 0)
      && r.1.Skipped? && r.1.previous == s.subject.value.name && r.1.next == fetched.value
      && (r.1.firstHint.Some? <==> cfg.skipShowsFirstHint && |fetched.value.hints| > 0)
      && (r.1.firstHint.Some? ==> r.1.firstHint.value == fetched.value.hints[0])
  {
    match s.subject
    case None => (s, NoActiveGame)
    case Some(current) =>
      match fetched
      case None => (s, SkipFailed)
      case Some(x) =>
        var first := if cfg.skipShowsFirstHint && |x.hints| > 0 then Some(x.hints[0]) else None;
        (Session(Some(x), 0), Skipped(current.name, first, x))
  }

  /** The sub-command a theme's argument list selects: `args[0]` picks it and a
      guess's text is the remaining arguments joined by single spaces. */
  function ParseGameCommand(args: seq<string>): (c: GameCommand)
    ensures c == Skip <==> |args| > 0 && args[0] == "skip"
    ensures c == Hint <==> |args| > 0 && args[0] == "hint"
    ensures c == Start <==> |args| > 0 && args[0] == "start"
    ensures c.Guess? <==> |args| > 0 && args[0] == "guess"
    ensures c.Guess? ==> c.text == Text.Join(args[1..])
    ensures c == Show <==> |args| == 0 || args[0] !in {"skip", "hint", "guess", "start"}
  {
    if |args| == 0 then Show
    else if args[0] == "skip" then Skip
    else if args[0] == "hint" then Hint
    else if args[0] == "guess" then Guess(Text.Join(args[1..]))
    else if args[0] == "start" then Start
    else Show
  }

  /** One game command against one theme's session; `fetched` is what the theme's
      subject provider returned, consulted only by start and by skip on an active game. */
  function Dispatch<P>(cfg: Config, s: Session<P>, cmd: GameCommand, fetched: Option<Subject<P>>): (r: (Session<P>, Reply<P>))
    ensures s.subject.None? && !cmd.Start? && !cmd.Skip? ==> r == (s, Menu)
    ensures cmd.Show? ==> r == (s, Menu)
    ensures Valid(s) ==> Valid(r.0)
    ensures cmd.Skip? ==> r == SkipStep(cfg, s, fetched)
    ensures cmd.Start? ==> r == StartGame(s, fetched)
    ensures s.subject.Some? && cmd.Hint? ==> r == HintStep(s)
    ensures s.subject.Some? && cmd.Guess? ==> r == GuessStep(cfg, s, cmd.text)
  {
    match cmd
    case Skip => SkipStep(cfg, s, fetched)
    case Hint => if s.subject.Some? then HintStep(s) else (s, Menu)
    case Guess(text) => if s.subject.Some? then GuessStep(cfg, s, text) else (s, Menu)
    case Start => StartGame(s, fetched)
    case Show => (s, Menu)
  }

  /** Start and skip agree on an active session: both install a fetched subject with
      a zero counter, and both leave the session alone when the fetch failed. */
  lemma StartSkipAgree<P>(cfg: Config, s: Session<P>, fetched: Option<Subject<P>>)
    requires s.subject.Some?
    ensures Dispatch(cfg, s, Start, fetched).0 == Dispatch(cfg, s, Skip, fetched).0
    ensures fetched.None? ==> Dispatch(cfg, s, Skip, fetched).0 == s
  {
  }

  /** `n` hint requests in a row on an active session. */
  function Hints<P>(s: Session<P>, n: nat): (r: Session<P>)
    requires s.subject.Some?
    ensures r.subject == s.subject
    decreases n
  {
    if n == 0 then s else Hints(HintStep(s).0, n - 1)
  }

  /** Each request uses up one disclosure until the hints and letters run out;
      from then on the counter stays where it is. */
  lemma {:induction false} HintsCount<P>(s: Session<P>, n: nat)
    requires s.subject.Some? && Valid(s)
    ensures
      var limit := |s.subject.value.hints| + |s.subject.value.name|;
      Hints(s, n).hintsUsed == if s.hintsUsed + n <= limit then s.hintsUsed + n else limit
    decreases n
  {
    if n > 0 {
      HintsCount(HintStep(s).0, n - 1);
    }
  }

  /** Once exhausted, a hint request changes nothing and says so. */
  lemma ExhaustedIsIdempotent<P>(s: Session<P>)
    requires s.subject.Some?
    requires s.hintsUsed >= |s.subject.value.hints| + |s.subject.value.name|
    ensures HintStep(s) == (s, Hinted(Exhausted))
    ensures HintStep(HintStep(s).0) == HintStep(s)
  {
  }
}
