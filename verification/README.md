# Terminal portfolio: guessing games and Snake, in Dafny

This project models the two pieces of the terminal portfolio that have real logic.

**The guessing game.** The `country`, `hogwarts` and `marvel` commands each run a guessing game. The source repeats the same game three times, once per command. Here it is one engine (`GuessGame`), configured per theme by a step penalty, a score floor and one display flag.

- A session holds the current subject (a name, ordered hints and an opaque payload), or none, plus a count of hints used.
- `hint` first gives the canned hints in order. It then reveals the name one letter at a time, masking the rest with `_`. After that it reports that hints are exhausted.
- `guess` compares the text with the name, ignoring ASCII case. A correct guess scores `max(100 - hints * step, floor)` and clears the session.
- `start` and `skip` install the subject a provider returned.
- `Registry` keeps one independent session per theme.
- `Shell` models the command handler in front of the games:
  - it lower-cases, trims and splits the input line on single spaces;
  - it routes the line by its first word;
  - it handles the `news` category check and the "command not found" default.

**Snake.** `Snake` models the game as pure functions over an immutable state. The state holds the body, direction, food, score, game-over flag, countdown and started flag. It covers:
- the 15 × 15 grid;
- the countdown of 5;
- the movement step with wall and self collisions, growth on food and the one-time report of the final score;
- the arrow-key filter that refuses reversals;
- the food draw, taken from two `Math.random` values.

Modules, one per file: `Wrappers` (Option, Result), `Text` (lower, trim, split, join), `GuessGame`, `Registry`, `Shell`, `Snake`.

The model follows the code's actual behaviour on three points that are easy to misread:
- `hint` and `guess` with no active subject fall through to the theme's menu. They do not report "no active game"; only `skip` does.
- The engine does not assume a subject's hints are non-empty.
- New food is drawn over the whole grid and may land on the snake.

## Model

| member | source | states |
|---|---|---|
| Text.Split | src/components/Terminal.jsx:74 | `split(' ')` gives at least one piece, and no piece contains a space |
| Text.JoinSplit | src/components/Terminal.jsx:74 | joining the pieces of a split with single spaces rebuilds the split string, interior spaces included |
| Text.SplitAtSpace | src/components/Terminal.jsx:74 | splitting at a space splits the two sides independently |
| Text.SplitJoin | src/components/Terminal.jsx:591 | splitting a space-joined list of space-free words gives back the words (inverse of JoinSplit) |
| Text.Trim | src/components/Terminal.jsx:74 | the result is a contiguous slice of the input with only whitespace before and after it; it starts and ends with a non-whitespace character, and it is empty exactly when the input is all whitespace |
| Text.TrimIdempotent | src/components/Terminal.jsx:74 | trimming twice is trimming once |
| Text.LowerIdempotent | src/components/Terminal.jsx:591 | lower-casing the already lower-cased guess changes nothing |
| Text.Lower | src/components/Terminal.jsx:74 | the result has the input's length; each ASCII capital becomes its small letter (code + 32), and every other character is kept |
| Text.LowerKeepsWhitespace | src/components/Terminal.jsx:74 | lower-casing keeps every whitespace position |
| Text.LowerTrimCommute | src/components/Terminal.jsx:74 | lower-casing then trimming, as the line is processed, equals trimming then lower-casing |
| Text.Join | src/components/Terminal.jsx:591 | `join(' ')` of no pieces is empty; otherwise the result starts with the first piece, followed by a space when more pieces follow |
| Shell.Tokenize | src/components/Terminal.jsx:74 | the command and the arguments are the space-free pieces of the lower-cased, trimmed line, in order |
| Shell.TokenizeRoundTrip | src/components/Terminal.jsx:74 | the command, then the arguments joined by single spaces, rebuilds the lower-cased, trimmed line |
| Shell.TokenizeGuessLine | src/components/Terminal.jsx:74 | for a non-empty text not ending in whitespace, `country guess <text>` tokenises to `country`, then `guess`, then the pieces of the lower-cased text (leading spaces of the text give empty pieces) |
| Shell.ParseGuessLine | src/components/Terminal.jsx:590-591 | for a non-empty text not ending in whitespace, `country guess <text>` reaches the country game as a guess of the lower-cased text, leading spaces kept |
| Shell.GuessLine | src/components/Terminal.jsx:590-605 | for an input line `country guess <text>` with a non-empty text not ending in whitespace, the reply is Correct, scored at the current hint count, exactly when the text equals the name up to ASCII case, and Wrong otherwise |
| Shell.DoubleSpaceGuessIsWrong | src/components/Terminal.jsx:590-605 | `country guess  france` with two spaces is answered Wrong for France, because the extra space survives the split and the join |
| Shell.NewsCategory | src/components/Terminal.jsx:697-701 | a missing or empty category means `general`; otherwise the category is the lower-cased first argument; it is accepted exactly when it is one of the seven listed |
| Shell.NewsCategoryRoundTrip | src/components/Terminal.jsx:697-701 | every listed category is accepted as given, and an accepted category asked for again is accepted unchanged |
| Shell.NewsCategoryAnyCase | src/components/Terminal.jsx:698-701 | a category typed in any ASCII case is accepted as its lower-case listed form |
| Shell.Route | src/components/Terminal.jsx:77-1207 | a theme word runs that theme's session on the parsed sub-command; `news` answers with the category check's result; `snake` launches the opening round; other handled words are builtins; "command not found" is produced exactly for words no case handles; only game words change the sessions, and session consistency is kept |
| Shell.HandleCommand | src/components/Terminal.jsx:73-77 | a line is tokenised and then routed on its first token; session consistency is kept |
| GuessGame.Reveal | src/components/Terminal.jsx:561-563 | the reveal has the name's length, shows the first `shown` letters literally and masks every later position with `_` |
| GuessGame.NextDisclosure | src/components/Terminal.jsx:548-589 | three regimes by `h`: canned hint `hints[h]` numbered `h+1` iff `h < H`; letter reveal iff `H <= h < H+N`, showing `h-H+1` letters; exhausted iff `h >= H+N` |
| GuessGame.LastRevealIsName | src/components/Terminal.jsx:560-563 | the last letter reveal, at `h = H+N-1`, shows the full name |
| GuessGame.RevealMonotone | src/components/Terminal.jsx:560-563 | a letter shown by one reveal is shown, unchanged, by every later reveal |
| GuessGame.Score | src/components/Terminal.jsx:605 | the score is at least the floor and at least `100 - h*step`, and equals one of the two |
| GuessGame.ScoreBounds | src/components/Terminal.jsx:605 | the score never increases with more hints, never exceeds 100, and is 100 with no hints |
| GuessGame.ThemeScores | src/components/Terminal.jsx:605-1074 | the three theme constants, at their boundary values: country (20, 20) at line 605, hogwarts (12, 16) at line 872, marvel (15, 10) at line 1074 |
| GuessGame.HintStep | src/components/Terminal.jsx:547-589 | the reply is the next disclosure; the subject is kept; the counter rises by one unless hints are exhausted |
| GuessGame.HintsCount | src/components/Terminal.jsx:548-589 | `n` hint requests raise the counter to `min(h + n, H + N)` |
| GuessGame.ExhaustedIsIdempotent | src/components/Terminal.jsx:548-559 | once exhausted, a hint request changes nothing, and repeating it gives the same result |
| GuessGame.GuessStep | src/components/Terminal.jsx:590-644 | an empty guess is an error and changes nothing; a case-insensitive match scores the current hint count and resets the session; any other guess changes nothing |
| GuessGame.StartGame | src/components/Terminal.jsx:645-678 | a fetched subject is installed with the counter at 0; a failed fetch leaves the session alone |
| GuessGame.SkipStep | src/components/Terminal.jsx:499-546 | with no subject, "No active game" and no change; a failed fetch changes nothing; otherwise it names the old subject, installs the new one with the counter at 0, and shows `hints[0]` only for the country theme |
| GuessGame.ParseGameCommand | src/components/Terminal.jsx:499-695 | `args[0]` equal to "skip", "hint", "guess" or "start" selects exactly Skip, Hint, Guess or Start, and anything else, or no argument, shows the menu; a guess's text is `args[1..]` joined by spaces |
| GuessGame.Dispatch | src/components/Terminal.jsx:498-696 | skip runs SkipStep and start runs StartGame; on an active session hint runs HintStep and guess runs GuessStep on its text; without a subject, hint and guess fall through to the menu and change nothing; a bare theme word shows the menu; every command keeps the session consistent (an idle session has counter 0, and an active one has counter at most H+N) |
| GuessGame.StartSkipAgree | src/components/Terminal.jsx:512-545 | on an active game, start and skip leave the same state for the same fetch; a failed skip leaves the session alone |
| Registry.Execute | src/components/Terminal.jsx:29-34 | a command addressed to one theme runs that theme's session through the engine and leaves the other two themes' sessions unchanged |
| Registry.CountryRound | src/components/Terminal.jsx:498-696 | a worked country round: start, hint, wrong guess, hint, then a correct guess in another case scores 60 and resets |
| Snake.Advance | src/components/SnakeGame.jsx:34-39 | a step moves the head exactly one cell along one axis: Up is y-1, Down y+1, Left x-1, Right x+1 |
| Snake.AdvanceInverse | src/components/SnakeGame.jsx:34-39 | stepping in the opposite direction undoes a step; different directions reach different cells |
| Snake.FoodCell | src/components/SnakeGame.jsx:19-25 | the floor of `Math.random() * 15` on each axis is a cell inside the grid |
| Snake.FoodCoversGrid | src/components/SnakeGame.jsx:19-25 | every grid cell can be drawn as food, cells under the snake included |
| Snake.Move | src/components/SnakeGame.jsx:27-72 | a finished round does not change; the round ends exactly on a wall or body collision (tail included), and then the body is unchanged and the current score is reported; otherwise the new head is a fresh in-grid cell followed by a prefix of the old body, and the snake grows by one and scores one exactly on food, where the new food is the cell drawn from the frame's rolls (`FoodCell(u, v)`); otherwise the food stays; a moving frame keeps the direction, the countdown and the started flag |
| Snake.TailChaseEnds | src/components/SnakeGame.jsx:52-58 | moving into the cell the tail is about to leave still ends the round |
| Snake.MoveInv | src/components/SnakeGame.jsx:60-68 | a frame keeps the body length at score + 1, every segment inside the grid, and the segments pairwise distinct |
| Snake.InitialInv | src/components/SnakeGame.jsx:4-16 | the opening state `[(7,7)]`, food `(5,5)`, RIGHT, countdown 5 satisfies the invariant |
| Snake.HandleInv | src/components/SnakeGame.jsx:74-115 | every event (countdown second, frame, key press) keeps the invariant |
| Snake.RunInv | src/components/SnakeGame.jsx:74-115 | any sequence of events from a consistent state ends in a consistent state |
| Snake.PressKey | src/components/SnakeGame.jsx:89-106 | an arrow key replaces the direction unless it is the opposite one; other keys and reversals change nothing |
| Snake.MoveNeckBehind | src/components/SnakeGame.jsx:60-68 | after a frame that moved the snake, the second segment lies directly behind the head |
| Snake.OneKeyNeverReverses | src/components/SnakeGame.jsx:91-102 | a single key press between frames cannot send the head into the second segment |
| Snake.TwoKeysReverse | src/components/SnakeGame.jsx:89-106 | two presses between frames (Up, then Left while heading Right) do turn the snake back, and the next frame ends the round on its neck |
| Snake.CountdownTick | src/components/SnakeGame.jsx:74-84 | a second lowers a positive count by one; the round is started exactly when the count has reached zero; nothing else changes |
| Snake.TicksCountDown | src/components/SnakeGame.jsx:76-84 | from a round that has not started, `n` seconds lower the count by `n` down to zero, and the round has started exactly when `n` reaches the count |
| Snake.InitialCountdown | src/components/SnakeGame.jsx:16 | the opening round is still waiting, at 1, after 4 seconds and has started after 5 |
| Snake.Handle | src/components/SnakeGame.jsx:76-115 | a second is one countdown tick; once the round has started, a frame runs Move with its rolls and a key runs PressKey; before the start a frame or key leaves the whole state unchanged and reports nothing; a finished round stays finished with its score; a score is reported exactly on the event that ends the round |
| Snake.ReportedOnce | src/components/SnakeGame.jsx:28-58 | over any run the final score is reported at most once: exactly when the round ended during the run, and then with the final score |

## Left out

- Rendering is not modelled: JSX output, theme colours, typed-output animation, icons, the terminal widget and the scrollback list. Replies are datatypes naming what would be shown.
- The subject providers (`fetchRandomCountry`, `fetchHPCharacter`, `fetchMarvelCharacter`) are network I/O. Their result enters as an `Option<Subject>` parameter, and the payload is an opaque type parameter.
- The news fetch, weather, quote, joke, anime and every other command routed to `Builtin` are not modelled. They are fetches or static text; only their names are used for routing.
- `Math.random`, `setTimeout` and `setInterval`, and key listeners become explicit events (`Second`, `Frame(u, v)`, `Press(key)`) and parameters. `Date` is not modelled: `uptime` is routed as a `Builtin`. One `Second` stands for one countdown timeout together with the effect re-run it triggers, so the round starts in the second that brings the count to zero.
- Text.Lower: only ASCII letters are lower-cased. JavaScript's `toLowerCase` covers all of Unicode.
- GuessGame.Reveal masks every character after the revealed prefix. The source's regex `.` does not match line terminators, so it would leave those unmasked; names with line breaks are not modelled. Lengths are also counted differently: the source's `length`, `slice` and `/./g` count UTF-16 code units, while a Dafny `string` counts Unicode scalar values. For a name with characters outside the Basic Multilingual Plane, the hint limit `H + N` and the masking therefore differ from the source.
- Stale React closures are not modelled. Several key presses between two frames are modelled as consecutive `Press` events. Each press is checked against the direction the previous press left, as in the source, so two presses can turn the snake back onto its neck (`Snake.TwoKeysReverse`). The safety lemma `Snake.OneKeyNeverReverses` covers a single press only.
- The `snake` command mounts a new round; it is modelled as a response carrying `Snake.Initial`. The message the terminal appends on game over is the report in `Snake.Step`.
