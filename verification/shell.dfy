/** The terminal's command handler, restricted to the parts in front of the games:
    tokenising an input line, routing it, and the news category check. */
module Shell {
  import opened Wrappers
  import Text
  import opened GuessGame
  import opened Registry
  import Snake

  /** A tokenised line: the command word and its arguments. */
  datatype Tokens = Tokens(command: string, args: seq<string>)

  /** Lower-case, trim, split on single spaces; the first piece is the command. */
  function Tokenize(input: string): (t: Tokens)
    ensures ' ' !in t.command
    ensures forall k :: 0 <= k < |t.args| ==> ' ' !in t.args[k]
    ensures Text.Split(Text.Trim(Text.Lower(input))) == [t.command] + t.args
  {
    var parts := Text.Split(Text.Trim(Text.Lower(input)));
    assert parts == [parts[0]] + parts[1..];
    Tokens(parts[0], parts[1..])
  }

  /** The command and the arguments joined by single spaces rebuild the trimmed,
      lower-cased line, interior runs of spaces included. */
  lemma TokenizeRoundTrip(input: string)
    ensures
      var t := Tokenize(input);
      Text.Trim(Text.Lower(input)) == if |t.args| == 0 then t.command else t.command + " " + Text.Join(t.args)
  {
    var t := Tokenize(input);
    var line := Text.Trim(Text.Lower(input));
    Text.JoinSplit(line);
    assert Text.Split(line) == [t.command] + t.args;
    if |t.args| > 0 {
      assert ([t.command] + t.args)[1..] == t.args;
    }
  }

  /** The categories the news command accepts. */
  const NewsCategories: seq<string> :=
    ["business", "technology", "sports", "entertainment", "science", "health", "general"]

  /** `news [category]`: a missing or empty first argument means `general`. */
  function NewsCategory(args: seq<string>): (r: Result<string, seq<string>>)
    ensures r.Success? <==> (|args| == 0 || args[0] == "" || Text.Lower(args[0]) in NewsCategories)
    ensures r.Success? && (|args| == 0 || args[0] == "") ==> r.value == "general"
    ensures r.Success? ==> r.value in NewsCategories
    ensures r.Success? && |args| > 0 && args[0] != "" ==> r.value == Text.Lower(args[0])
    ensures r.Failure? ==> r.error == NewsCategories
  {
    var category := if |args| == 0 || args[0] == "" then "general" else Text.Lower(args[0]);
    if category in NewsCategories then Success(category) else Failure(NewsCategories)
  }

  /** Every listed category is accepted as listed, and an accepted category asked
      for again is accepted unchanged. */
  lemma NewsCategoryRoundTrip(args: seq<string>, c: string)
    requires c in NewsCategories
    ensures NewsCategory([c]) == Success(c)
    ensures NewsCategory(args).Success? ==> NewsCategory([NewsCategory(args).value]) == NewsCategory(args)
  {
    assert forall k :: 0 <= k < |NewsCategories| ==> Text.Lower(NewsCategories[k]) == NewsCategories[k];
  }

  /** A category typed in any ASCII case is accepted as its lower-case form. */
  lemma NewsCategoryAnyCase(u: string, c: string)
    requires c in NewsCategories && u != "" && Text.Lower(u) == c
    ensures NewsCategory([u]) == Success(c)
  {
  }

  /** The commands the terminal answers that are not part of this model. */
  const OtherCommands: set<string> :=
    {"clear", "help", "about", "projects", "skills", "resume", "contact", "theme", "quote",
     "joke", "anime", "secret", "uptime", "echo", "hireme", "feedback", "tea", "weather"}

  function ThemeOf(command: string): Option<Theme>
  {
    if command == "country" then Some(Country)
    else if command == "hogwarts" then Some(Hogwarts)
    else if command == "marvel" then Some(Marvel)
    else None
  }

  /** What one input line produces. */
  datatype Response<P> =
    | GameReply(theme: Theme, reply: Reply<P>)
    | NewsRequest(category: string)
    | InvalidCategory(available: seq<string>)
    | SnakeLaunched(game: Snake.Game)
    | Builtin(command: string)
    | CommandNotFound

  /** The `switch` on the command word: a theme's word runs that theme's game,
      `news` and `snake` have their own answers, every other handled word is a
      builtin, and anything else is not found. Only game words touch the sessions. */
  function Route<P>(g: Games<P>, t: Tokens, fetched: Option<Subject<P>>): (r: (Games<P>, Response<P>))
    ensures ThemeOf(t.command).None? ==> r.0 == g
    ensures ThemeOf(t.command).Some? ==>
      var theme := ThemeOf(t.command).value;
      var e := Execute(g, theme, ParseGameCommand(t.args), fetched);
      r == (e.0, GameReply(theme, e.1))
    ensures t.command == "news" ==>
      match NewsCategory(t.args)
      case Success(c) => r.1 == NewsRequest(c)
      case Failure(available) => r.1 == InvalidCategory(available)
    ensures t.command == "snake" ==> r.1 == SnakeLaunched(Snake.Initial)
    ensures t.command in OtherCommands ==> r.1 == Builtin(t.command)
    ensures r.1.CommandNotFound? <==>
      ThemeOf(t.command).None? && t.command !in OtherCommands && t.command != "news" && t.command != "snake"
    ensures AllValid(g) ==> AllValid(r.0)
  {
    match ThemeOf(t.command)
    case Some(theme) =>
      var (g', reply) := Execute(g, theme, ParseGameCommand(t.args), fetched);
      (g', GameReply(theme, reply))
    case None =>
      if t.command == "news" then
        match NewsCategory(t.args)
        case Success(c) => (g, NewsRequest(c))
        case Failure(available) => (g, InvalidCategory(available))
      else if t.command == "snake" then (g, SnakeLaunched(Snake.Initial))
      else if t.command in OtherCommands then (g, Builtin(t.command))
      else (g, CommandNotFound)
  }

  /** Handles one input line against the games' state; `fetched` is the subject the
      addressed theme's provider returned, if the command asked for one. */
  function HandleCommand<P>(g: Games<P>, input: string, fetched: Option<Subject<P>>): (r: (Games<P>, Response<P>))
    ensures r == Route(g, Tokenize(input), fetched)
    ensures AllValid(g) ==> AllValid(r.0)
  {
    Route(g, Tokenize(input), fetched)
  }

  /** `country guess <text>`, lower-cased: only `text` has letters to change. */
  lemma LowerGuessLine(text: string)
    ensures Text.Lower("country guess " + text) == "country guess " + Text.Lower(text)
  {
    Text.LowerAppend("country guess ", text);
    assert Text.Lower("country guess ") == "country guess ";
  }

  /** A lower-cased guess line whose text does not end in whitespace is already trimmed. */
  lemma TrimGuessLine(text: string)
    requires |text| > 0 && !Text.IsWhitespace(text[|text| - 1])
    ensures Text.Trim("country guess " + Text.Lower(text)) == "country guess " + Text.Lower(text)
  {
    Text.LowerKeepsWhitespace(text);
    var line := "country guess " + Text.Lower(text);
    assert line[0] == 'c';
    assert line[|line| - 1] == Text.Lower(text)[|text| - 1];
    Text.TrimOfTrimmed(line);
  }

  /** Two leading space-free words each followed by a space split off as two tokens. */
  lemma SplitTwoWords(w1: string, w2: string, rest: string)
    requires ' ' !in w1 && ' ' !in w2
    ensures Text.Split(w1 + " " + (w2 + " " + rest)) == [w1, w2] + Text.Split(rest)
  {
    var x := w2 + " " + rest;
    Text.SplitNoSpace(w2);
    Text.SplitAtSpace(w2, rest);
    assert Text.Split(x) == [w2] + Text.Split(rest);
    Text.SplitNoSpace(w1);
    Text.SplitAtSpace(w1, x);
    assert Text.Split(w1 + " " + x) == [w1] + Text.Split(x);
    assert [w1] + ([w2] + Text.Split(rest)) == [w1, w2] + Text.Split(rest);
  }

  /** The two leading words of a guess line split off as two tokens. */
  lemma SplitGuessLine(rest: string)
    ensures Text.Split("country guess " + rest) == ["country", "guess"] + Text.Split(rest)
  {
    assert "country guess " + rest == "country" + " " + ("guess" + " " + rest);
    SplitTwoWords("country", "guess", rest);
  }

  /** The tokens of `country guess <text>`, for a non-empty `text` not ending in
      whitespace; leading spaces of `text` become empty pieces. */
  lemma TokenizeGuessLine(text: string)
    requires |text| > 0 && !Text.IsWhitespace(text[|text| - 1])
    ensures Tokenize("country guess " + text).command == "country"
    ensures Tokenize("country guess " + text).args == ["guess"] + Text.Split(Text.Lower(text))
  {
    var lt := Text.Lower(text);
    var lowered := "country guess " + lt;
    LowerGuessLine(text);
    TrimGuessLine(text);
    assert Text.Trim(Text.Lower("country guess " + text)) == lowered;
    SplitGuessLine(lt);
    var parts := ["country", "guess"] + Text.Split(lt);
    assert parts[0] == "country" && parts[1..] == ["guess"] + Text.Split(lt);
  }

  /** `country guess <text>` routes to the country game as a guess of the
      lower-cased text. */
  lemma ParseGuessLine(text: string)
    requires |text| > 0 && !Text.IsWhitespace(text[|text| - 1])
    ensures ThemeOf(Tokenize("country guess " + text).command) == Some(Country)
    ensures ParseGameCommand(Tokenize("country guess " + text).args) == Guess(Text.Lower(text))
  {
    var t := Tokenize("country guess " + text);
    var lt := Text.Lower(text);
    TokenizeGuessLine(text);
    assert t.args[1..] == Text.Split(lt);
    Text.JoinSplit(lt);
  }

  /** A typed guess reaches the engine as the user's text, lower-cased: for
      `country guess <text>` with a non-empty `text` not ending in whitespace, the
      guess is right exactly when `text` and the name agree up to ASCII case. Spaces
      at the start of `text` are kept, since only the whole line is trimmed. */
  lemma GuessLine<P>(g: Games<P>, text: string, fetched: Option<Subject<P>>)
    requires g.country.subject.Some?
    requires |text| > 0 && !Text.IsWhitespace(text[|text| - 1])
    ensures
      var r := HandleCommand(g, "country guess " + text, fetched);
      var name := g.country.subject.value.name;
      && (r.1 == GameReply(Country, Correct(name, g.country.subject.value.payload,
                                             Score(CountryConfig, g.country.hintsUsed)))
          <==> Text.Lower(text) == Text.Lower(name))
      && (r.1 == GameReply(Country, Wrong) <==> Text.Lower(text) != Text.Lower(name))
  {
    var line := "country guess " + text;
    var lt := Text.Lower(text);
    ParseGuessLine(text);
    var e := Execute(g, Country, Guess(lt), fetched);
    assert HandleCommand(g, line, fetched) == (e.0, GameReply(Country, e.1));
    Text.LowerIdempotent(text);
    assert e.1 == GuessStep(CountryConfig, g.country, lt).1;
  }

  /** `country guess  france` (two spaces) is a wrong guess for France: the extra
      space survives as an empty piece and the join puts it back. */
  lemma DoubleSpaceGuessIsWrong<P>(g: Games<P>, fetched: Option<Subject<P>>)
    requires g.country.subject.Some? && g.country.subject.value.name == "France"
    ensures HandleCommand(g, "country guess  france", fetched).1 == GameReply(Country, Wrong)
  {
    assert "country guess  france" == "country guess " + " france";
    GuessLine(g, " france", fetched);
    assert Text.Lower(" france") != Text.Lower("France");
  }
}
