/** The three guessing-game themes, each with its own independent session. */
module Registry {
  import opened Wrappers
  import opened GuessGame

  datatype Theme = Country | Hogwarts | Marvel

  function ConfigOf(t: Theme): (cfg: Config)
    ensures cfg.floor <= MaxScore
    ensures cfg.skipShowsFirstHint <==> t == Country
  {
    match t
    case Country => CountryConfig
    case Hogwarts => HogwartsConfig
    case Marvel => MarvelConfig
  }

  /** One session per theme, all idle when the terminal opens. */
  datatype Games<P> = Games(country: Session<P>, hogwarts: Session<P>, marvel: Session<P>)

  function InitialGames<P>(): Games<P>
  {
    Games(Idle(), Idle(), Idle())
  }

  function Get<P>(g: Games<P>, t: Theme): Session<P>
  {
    match t
    case Country => g.country
    case Hogwarts => g.hogwarts
    case Marvel => g.marvel
  }

  function Put<P>(g: Games<P>, t: Theme, s: Session<P>): (r: Games<P>)
    ensures Get(r, t) == s
    ensures forall u :: u != t ==> Get(r, u) == Get(g, u)
  {
    match t
    case Country => g.(country := s)
    case Hogwarts => g.(hogwarts := s)
    case Marvel => g.(marvel := s)
  }

  predicate AllValid<P>(g: Games<P>)
  {
    Valid(g.country) && Valid(g.hogwarts) && Valid(g.marvel)
  }

  /** Runs a game command against one theme; every other theme is untouched. */
  function Execute<P>(g: Games<P>, t: Theme, cmd: GameCommand, fetched: Option<Subject<P>>): (r: (Games<P>, Reply<P>))
    ensures forall u :: u != t ==> Get(r.0, u) == Get(g, u)
    ensures (Get(r.0, t), r.1) == Dispatch(ConfigOf(t), Get(g, t), cmd, fetched)
    ensures AllValid(g) ==> AllValid(r.0)
  {
    var (s, reply) := Dispatch(ConfigOf(t), Get(g, t), cmd, fetched);
    var g' := Put(g, t, s);
    assert forall u :: Valid(Get(g, u)) ==> Valid(Get(g', u));
    assert AllValid(g) ==> Valid(Get(g, Country)) && Valid(Get(g, Hogwarts)) && Valid(Get(g, Marvel));
    (g', reply)
  }

  /** The worked example of a country round: start, a hint, a wrong guess, a second
      hint, then the right answer in another case scores 100 - 2 * 20. */
  lemma CountryRound<P>(x: Subject<P>)
    requires x.name == "France" && |x.hints| == 5
    ensures
      var g0 := InitialGames<P>();
      var (g1, r1) := Execute(g0, Country, Start, Some(x));
      var (g2, r2) := Execute(g1, Country, Hint, None);
      var (g3, r3) := Execute(g2, Country, Guess("spain"), None);
      var (g4, r4) := Execute(g3, Country, Hint, None);
      var (g5, r5) := Execute(g4, Country, Guess("FRANCE"), None);
      && r1 == Started(x) && g1.country == Session(Some(x), 0)
      && r2 == Hinted(CannedHint(1, x.hints[0])) && g2.country.hintsUsed == 1
      && r3 == Wrong && g3 == g2
      && r4 == Hinted(CannedHint(2, x.hints[1])) && g4.country.hintsUsed == 2
      && r5 == Correct("France", x.payload, 60) && g5 == InitialGames()
  {
    assert Text.Lower("spain") != Text.Lower("France") by {
      assert Text.Lower("spain")[0] == 's';
    }
    assert Text.Lower("FRANCE") == Text.Lower("France");
  }
}
