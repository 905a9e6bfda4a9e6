/** The Snake round: a countdown, then a head that advances one cell per frame on a
    15 x 15 grid, growing on food and ending on a wall or on its own body. */
module Snake {
  import opened Wrappers

  const GridSize: int := 15
  const CountdownStart: nat := 5

  datatype Cell = Cell(x: int, y: int)

  datatype Direction = Up | Down | Left | Right

  /** The keys the round listens to; every other key is `OtherKey`. */
  datatype Key = ArrowUp | ArrowDown | ArrowLeft | ArrowRight | OtherKey

  /** The whole state of a round; `body[0]` is the head. */
  datatype Game = Game(
    body: seq<Cell>,
    direction: Direction,
    food: Cell,
    score: nat,
    gameOver: bool,
    countdown: nat,
    started: bool)

  const Initial: Game := Game([Cell(7, 7)], Right, Cell(5, 5), 0, false, CountdownStart, false)

  predicate InGrid(c: Cell)
  {
    0 <= c.x < GridSize && 0 <= c.y < GridSize
  }

  function Opposite(d: Direction): Direction
  {
    match d
    case Up => Down
    case Down => Up
    case Left => Right
    case Right => Left
  }

  /** `a` and `b` share a side: they differ by one in exactly one coordinate. */
  predicate Adjacent(a: Cell, b: Cell)
  {
    || (a.x == b.x && (a.y - b.y == 1 || b.y - a.y == 1))
    || (a.y == b.y && (a.x - b.x == 1 || b.x - a.x == 1))
  }

  /** The neighbouring cell in direction `d`; the y axis grows downwards. */
  function Advance(c: Cell, d: Direction): (r: Cell)
    ensures r != c
    ensures Adjacent(c, r)
    ensures d == Up ==> r.y == c.y - 1
    ensures d == Down ==> r.y == c.y + 1
    ensures d == Left ==> r.x == c.x - 1
    ensures d == Right ==> r.x == c.x + 1
  {
    match d
    case Up => c.(y := c.y - 1)
    case Down => c.(y := c.y + 1)
    case Left => c.(x := c.x - 1)
    case Right => c.(x := c.x + 1)
  }

  /** Stepping back against the direction undoes a step, and different directions
      lead to different cells. */
  lemma AdvanceInverse(c: Cell, d: Direction, e: Direction)
    ensures Advance(Advance(c, d), Opposite(d)) == c
    ensures Advance(c, d) == Advance(c, e) <==> d == e
  {
  }

  /** Two uniform draws from [0, 1), as `Math.random` returns them. */
  predicate ValidRoll(u: real, v: real)
  {
    0.0 <= u < 1.0 && 0.0 <= v < 1.0
  }

  /** `generateFood`: each coordinate is `Math.floor(Math.random() * 15)`. */
  function FoodCell(u: real, v: real): (c: Cell)
    requires ValidRoll(u, v)
    ensures InGrid(c)
  {
    Cell((u * GridSize as real).Floor, (v * GridSize as real).Floor)
  }

  /** Every cell of the grid can be drawn, the snake's own cells included. */
  lemma FoodCoversGrid(c: Cell)
    requires InGrid(c)
    ensures ValidRoll(c.x as real / GridSize as real, c.y as real / GridSize as real)
    ensures FoodCell(c.x as real / GridSize as real, c.y as real / GridSize as real) == c
  {
  }

  /** The cell the head moves into on the next frame. */
  function NextHead(g: Game): Cell
    requires |g.body| > 0
  {
    Advance(g.body[0], g.direction)
  }

  /** The round ends when the next head leaves the grid or meets any current
      segment, the tail included. */
  predicate Collides(g: Game)
    requires |g.body| > 0
  {
    !InGrid(NextHead(g)) || NextHead(g) in g.body
  }

  /** A frame's outcome: the new state, and the final score when the round ended on it. */
  datatype Step = Step(game: Game, report: Option<nat>)

  /** `moveSnake`: one frame of movement; `u` and `v` are the draws for new food. */
  function Move(g: Game, u: real, v: real): (r: Step)
    requires |g.body| > 0 && ValidRoll(u, v)
    ensures g.gameOver ==> r == Step(g, None)
    ensures |r.game.body| >= |g.body|
    ensures !g.gameOver ==> (r.game.gameOver <==> Collides(g))
    ensures r.report.Some? <==> !g.gameOver && r.game.gameOver
    ensures r.report.Some? ==> r.report.value == g.score && r.game == g.(gameOver := true)
    ensures !r.game.gameOver ==>
      && r.game.body[0] == NextHead(g) && InGrid(r.game.body[0]) && r.game.body[0] !in g.body
      && r.game.body[1..] <= g.body
      && r.game.score == g.score + (if NextHead(g) == g.food then 1 else 0)
      && |r.game.body| == |g.body| + (r.game.score - g.score)
      && (NextHead(g) != g.food ==> r.game.food == g.food)
      && r.game.direction == g.direction
      && r.game.countdown == g.countdown && r.game.started == g.started
    ensures !r.game.gameOver && NextHead(g) == g.food ==> r.game.food == FoodCell(u, v)
  {
    if g.gameOver then Step(g, None)
    else
      var head := NextHead(g);
      if !InGrid(head) || head in g.body then Step(g.(gameOver := true), Some(g.score))
      else if head == g.food then
        Step(g.(body := [head] + g.body, food := FoodCell(u, v), score := g.score + 1), None)
      else
        Step(g.(body := [head] + g.body[..|g.body| - 1]), None)
  }

  /** The arrow-key filter: a key turns the snake unless it points straight back. */
  function KeyDirection(k: Key): Option<Direction>
  {
    match k
    case ArrowUp => Some(Up)
    case ArrowDown => Some(Down)
    case ArrowLeft => Some(Left)
    case ArrowRight => Some(Right)
    case OtherKey => None
  }

  function PressKey(g: Game, k: Key): (r: Game)
    ensures r == g.(direction := r.direction)
    ensures r.direction != Opposite(g.direction)
    ensures KeyDirection(k).Some? && KeyDirection(k).value != Opposite(g.direction) ==>
      r.direction == KeyDirection(k).value
    ensures KeyDirection(k).None? || KeyDirection(k).value == Opposite(g.direction) ==> r == g
  {
    match KeyDirection(k)
    case Some(d) => if d == Opposite(g.direction) then g else g.(direction := d)
    case None => g
  }

  /** One second of the countdown: the timer lowers a positive count, and the
      effect that runs right after the count reaches zero starts the round. */
  function CountdownTick(g: Game): (r: Game)
    ensures r.body == g.body && r.direction == g.direction && r.food == g.food
    ensures r.score == g.score && r.gameOver == g.gameOver
    ensures r.countdown == if g.countdown > 0 then g.countdown - 1 else 0
    ensures r.started <==> g.started || g.countdown <= 1
  {
    var h := if g.countdown > 0 then g.(countdown := g.countdown - 1) else g;
    if h.countdown == 0 && !h.started then h.(started := true) else h
  }

  /** `n` seconds of the countdown. */
  function Ticks(g: Game, n: nat): Game
    decreases n
  {
    if n == 0 then g else Ticks(CountdownTick(g), n - 1)
  }

  /** A round not yet started counts down one per second and starts in the second
      that brings the count to zero. */
  lemma {:induction false} TicksCountDown(g: Game, n: nat)
    requires !g.started
    ensures Ticks(g, n).countdown == if n <= g.countdown then g.countdown - n else 0
    ensures n > 0 ==> (Ticks(g, n).started <==> n >= g.countdown)
    ensures Ticks(g, n).body == g.body && Ticks(g, n).score == g.score
    decreases n
  {
    if n > 0 {
      var g' := CountdownTick(g);
      if g'.started {
        TicksStarted(g', n - 1);
      } else {
        TicksCountDown(g', n - 1);
      }
    }
  }

  /** Seconds leave a started round alone. */
  lemma {:induction false} TicksStarted(g: Game, n: nat)
    requires g.started && g.countdown == 0
    ensures Ticks(g, n) == g
    decreases n
  {
    if n > 0 {
      TicksStarted(CountdownTick(g), n - 1);
    }
  }

  /** The opening round shows 5, 4, 3, 2, 1 and starts when the fifth second
      brings the count to zero. */
  lemma InitialCountdown()
    ensures Ticks(Initial, CountdownStart - 1).countdown == 1 && !Ticks(Initial, CountdownStart - 1).started
    ensures Ticks(Initial, CountdownStart).countdown == 0 && Ticks(Initial, CountdownStart).started
  {
    TicksCountDown(Initial, CountdownStart - 1);
    TicksCountDown(Initial, CountdownStart);
  }

  /** What can happen to a round: a countdown second, a movement frame (with the
      draws for new food), or a key press. */
  datatype Event = Second | Frame(u: real, v: real) | Press(key: Key)

  predicate ValidEvent(e: Event)
  {
    e.Frame? ==> ValidRoll(e.u, e.v)
  }

  /** One event; frames and keys are ignored until the round has started. */
  function Handle(g: Game, e: Event): (r: Step)
    requires |g.body| > 0 && ValidEvent(e)
    ensures |r.game.body| >= |g.body|
    ensures !g.started ==> r.game.body == g.body && r.game.direction == g.direction && r.report.None?
    ensures g.gameOver ==> r.game.gameOver && r.game.score == g.score && r.game.body == g.body && r.report.None?
    ensures r.report.Some? <==> !g.gameOver && r.game.gameOver
    ensures r.report.Some? ==> r.report.value == r.game.score
    ensures e.Second? ==> r == Step(CountdownTick(g), None)
    ensures !g.started && !e.Second? ==> r == Step(g, None)
    ensures g.started && e.Frame? ==> r == Move(g, e.u, e.v)
    ensures g.started && e.Press? ==> r == Step(PressKey(g, e.key), None)
  {
    match e
    case Second => Step(CountdownTick(g), None)
    case Frame(u, v) => if g.started then Move(g, u, v) else Step(g, None)
    case Press(k) => if g.started then Step(PressKey(g, k), None) else Step(g, None)
  }

  /** A sequence of events, collecting the scores reported to the terminal. */
  function Run(g: Game, events: seq<Event>): (r: (Game, seq<nat>))
    requires |g.body| > 0
    requires forall i :: 0 <= i < |events| ==> ValidEvent(events[i])
    ensures |r.0.body| >= |g.body|
    decreases |events|
  {
    if |events| == 0 then (g, [])
    else
      var step := Handle(g, events[0]);
      var rest := Run(step.game, events[1..]);
      (rest.0, (if step.report.Some? then [step.report.value] else []) + rest.1)
  }

  /** The final score is reported at most once: exactly when the round ended during
      the run, and then with the final score. */
  lemma {:induction false} ReportedOnce(g: Game, events: seq<Event>)
    requires |g.body| > 0
    requires forall i :: 0 <= i < |events| ==> ValidEvent(events[i])
    ensures
      var (final, reports) := Run(g, events);
      && (g.gameOver ==> final.gameOver && final.score == g.score)
      && |reports| <= 1
      && (|reports| == 1 <==> !g.gameOver && final.gameOver)
      && (|reports| == 1 ==> reports[0] == final.score)
    decreases |events|
  {
    if |events| > 0 {
      var step := Handle(g, events[0]);
      ReportedOnce(step.game, events[1..]);
    }
  }

  /** Segments never repeat. */
  predicate Distinct(body: seq<Cell>)
  {
    forall i, j :: 0 <= i < j < |body| ==> body[i] != body[j]
  }

  /** What every reachable state satisfies. */
  predicate Inv(g: Game)
  {
    && |g.body| == g.score + 1
    && (forall i :: 0 <= i < |g.body| ==> InGrid(g.body[i]))
    && Distinct(g.body)
    && InGrid(g.food)
    && g.countdown <= CountdownStart
    && (g.started <==> g.countdown == 0)
    && (g.gameOver ==> g.started)
  }

  lemma InitialInv()
    ensures Inv(Initial)
  {
  }

  /** A frame keeps the snake one segment longer than its score, inside the grid
      and free of repeated cells. */
  lemma MoveInv(g: Game, u: real, v: real)
    requires Inv(g) && g.started && ValidRoll(u, v)
    ensures Inv(Move(g, u, v).game)
  {
    var r := Move(g, u, v).game;
    if !r.gameOver {
      var head := NextHead(g);
      var tail := r.body[1..];
      assert r.body == [head] + tail;
      assert forall i :: 0 <= i < |tail| ==> tail[i] == g.body[i];
      forall i, j | 0 <= i < j < |r.body|
        ensures r.body[i] != r.body[j]
      {
        if i == 0 {
          assert r.body[j] == g.body[j - 1];
        } else {
          assert r.body[i] == g.body[i - 1] && r.body[j] == g.body[j - 1];
        }
      }
      forall i | 0 <= i < |r.body|
        ensures InGrid(r.body[i])
      {
        if i > 0 {
          assert r.body[i] == g.body[i - 1];
        }
      }
    }
  }

  /** Every event keeps the invariant. */
  lemma HandleInv(g: Game, e: Event)
    requires Inv(g) && ValidEvent(e)
    ensures Inv(Handle(g, e).game)
  {
    if e.Frame? && g.started {
      MoveInv(g, e.u, e.v);
    }
  }

  /** Every run from a consistent state, in particular from the opening state, ends
      in a consistent state. */
  lemma {:induction false} RunInv(g: Game, events: seq<Event>)
    requires Inv(g)
    requires forall i :: 0 <= i < |events| ==> ValidEvent(events[i])
    ensures Inv(Run(g, events).0)
    decreases |events|
  {
    if |events| > 0 {
      HandleInv(g, events[0]);
      RunInv(Handle(g, events[0]).game, events[1..]);
    }
  }

  /** Right after a frame that moved the snake, the segment behind the head lies
      against the direction of travel. */
  predicate NeckBehind(g: Game)
  {
    |g.body| >= 2 ==> g.body[1] == Advance(g.body[0], Opposite(g.direction))
  }

  lemma MoveNeckBehind(g: Game, u: real, v: real)
    requires |g.body| > 0 && ValidRoll(u, v) && !g.gameOver && !Collides(g)
    ensures NeckBehind(Move(g, u, v).game)
  {
    var r := Move(g, u, v).game;
    if |r.body| >= 2 {
      assert r.body[1] == g.body[0];
      AdvanceInverse(g.body[0], g.direction, g.direction);
    }
  }

  /** A single key press between two frames cannot turn the head into the segment
      behind it. */
  lemma OneKeyNeverReverses(g: Game, k: Key)
    requires NeckBehind(g) && |g.body| >= 2
    ensures NextHead(PressKey(g, k)) != g.body[1]
  {
    var d := PressKey(g, k).direction;
    AdvanceInverse(g.body[0], d, Opposite(g.direction));
  }

  /** Moving into the cell the tail is about to leave still ends the round: the
      collision test looks at the body before the tail moves. */
  lemma TailChaseEnds(u: real, v: real)
    requires ValidRoll(u, v)
    ensures
      var g := Game([Cell(1, 1), Cell(2, 1), Cell(2, 2), Cell(1, 2)], Down, Cell(9, 9), 3, false, 0, true);
      Move(g, u, v) == Step(g.(gameOver := true), Some(3))
  {
    var g := Game([Cell(1, 1), Cell(2, 1), Cell(2, 2), Cell(1, 2)], Down, Cell(9, 9), 3, false, 0, true);
    assert NextHead(g) == g.body[3];
  }

  /** Two key presses between frames can still turn the snake back: each press is
      checked only against the direction the previous press left. */
  lemma TwoKeysReverse(u: real, v: real)
    requires ValidRoll(u, v)
    ensures
      var g := Game([Cell(5, 5), Cell(4, 5)], Right, Cell(9, 9), 1, false, 0, true);
      var turned := PressKey(PressKey(g, ArrowUp), ArrowLeft);
      && turned.direction == Left == Opposite(g.direction)
      && Move(turned, u, v) == Step(turned.(gameOver := true), Some(1))
  {
    var g := Game([Cell(5, 5), Cell(4, 5)], Right, Cell(9, 9), 1, false, 0, true);
    var turned := PressKey(PressKey(g, ArrowUp), ArrowLeft);
    assert NextHead(turned) == g.body[1];
  }
}
