# Snake game: the game-state core, modelled in Dafny

The model covers the state logic of `SnakeGame` in `snakeV3.py`, a
single-player snake game on a 30 × 30 grid of cells:

- the tick `moveSnake`. First the body segments shift, tail first, onto the
  segment before them. Then the head steps one cell in the current heading.
  Then come the self-collision check, the wall check and the food check, in
  that order. Eating adds a point, moves the food, duplicates the tail and
  updates the high score and the "beaten" flag;
- the key handler `clicked`. It refuses a reversal of the heading. Escape
  stops the loop. Any key starts a game that has neither started nor ended;
- the flag transitions of `gameLoop`. Play Again and Exit act only on the
  end screen. A tick runs only while the game has started. The high score
  is saved on exit only if it was beaten;
- the `Snake` constructor, and the bounds of `Food` placement.

Three modules:

- `SnakeRules` (snake_rules.dfy) holds the values. `Cell` is a block's
  position; colours are dropped. `Direction` is the heading. `Game` gathers
  every field `SnakeGame` keeps. One function models each transition:
  `Tick` (with `Eat`), `Clicked`/`Turn`, `Click`/`PlayAgain`,
  `HandleEvents`, `StepFrame` and `RunLoop`. `Inv` is the invariant of every
  reachable state. The lemmas give the effect of one tick and of one input.
- `SnakeRuns` (snake_runs.dfy) holds lemmas over any number of loop
  iterations, and three concrete scenarios.
- `SnakeGameModel` (snake_game.dfy) holds the classes `Snake` and
  `SnakeGame`, with the fields of the original. The body list is a `seq`
  field. It is shifted in place by a reverse loop, and the self-collision
  scan is a loop with an early exit. Each method is proved to change the
  object exactly as the matching `SnakeRules` function says. `MoveSnake`,
  `Clicked`, `PollEvent`, `RunFrame` and `GameLoop` also keep `Inv`. The
  helpers `ShiftSegments`, `StepHead`, `HeadHitsBody` and `EatFood` run in
  the middle of a tick, where `Inv` need not hold.

Inputs the program gets from the outside become parameters:

- The pygame key codes become `Key`: `UpKey`, `DownKey`, `LeftKey`,
  `RightKey`, `EscapeKey` and `OtherKey`.
- A mouse click becomes `Target`: `ExitButton`, `PlayAgainButton` or
  `Elsewhere`.
- One pass of the loop becomes a `Frame`: its polled events plus a cell.
- Each random food cell is an input that must lie on the grid. It is the
  cell in `PlayAgainButton` and `Frame.relocation`, and the constructor's
  `firstFood`.
- The high score read from `highscore.txt` is the constructor's `stored`.
- The single file write is `GameLoop`'s `saved` result.

When the snake eats, `snakeV3.py:164` appends a copy of the tail after
this tick's shift. That cell is the pre-tick position of the next-to-last
segment (`SnakeRules.TickEat`).

One behaviour follows from the code and is proved as a plain fact, not
corrected. The reversal guard compares with the heading at the moment of
the key press, and all events of a frame are handled before the tick. So
the presses Up then Left in one frame turn a snake heading Right to Left,
and its next tick runs into its own body (`SnakeRules.TwoKeysReverse`).

## Model

| member | source | states |
|---|---|---|
| `SnakeRules.Opposite` | snakeV3.py:223-230 | the opposite of a heading is never that heading |
| `SnakeRules.StepThenOpposite` | snakeV3.py:131-138 | a step followed by a step in the opposite heading returns to the start cell; Opposite is an involution |
| `SnakeRules.Step` | snakeV3.py:131-138 | the head moves exactly one cell: vertically for Up/Down, horizontally for Left/Right; Up and Left lower a coordinate, Down and Right raise one, so Up is y - 1, Down y + 1, Left x - 1 and Right x + 1 |
| `SnakeRules.Shift` | snakeV3.py:126-128 | the shift keeps the length and the head; every segment i ≥ 1 takes the cell of segment i-1 |
| `SnakeRules.Advance` | snakeV3.py:126-138 | shift plus step: same length, head one step on, every other segment on its predecessor's old cell |
| `SnakeRules.HitsSelf` | snakeV3.py:141-145 | the head lies on some segment i ≥ 1; a one-segment body never hits itself. The in-place scan is proved equal to it in `SnakeGameModel.SnakeGame.HeadHitsBody` |
| `SnakeRules.NewGame` | snakeV3.py:58-65 | the start state: heading Right, START_COORDS, score 0, high score as read, not started, not ended, running, not beaten; it satisfies the invariant |
| `SnakeRules.Tick` | snakeV3.py:121-172 | `moveSnake` as a function: it never turns the snake or stops the loop, never leaves the game started and ended at once, and always puts the head one step on. The case lemmas are `TickMoved`, `TickSelfCollision`, `TickWallCollision`, `TickEat`, `TickDies`, `TickHighscore`, `TickGrowsOnly` and `TickInv` |
| `SnakeRules.Eat` | snakeV3.py:154-172 | the food branch: the high score never drops and stays at least the score; "beaten" turns on exactly when the high score rises; one more segment, copying the last one |
| `SnakeRules.Turn` | snakeV3.py:223-230 | the new heading is never the opposite of the old one; the heading changes only to the arrow key's heading; an arrow key that is not a reversal is obeyed |
| `SnakeRules.Clicked` | snakeV3.py:221-236 | the key handler: it keeps ended, body, score and high score; it never reverses the heading; it never restarts the loop; it never makes the game started and ended at once. The lemmas `ClickedEffect` and `TurnFromRight` go further |
| `SnakeRules.PlayAgain` | snakeV3.py:188-193 | Play Again keeps the high score, "beaten", the started flag and the running flag, and clears ended; `ClickEffect` gives the rest |
| `SnakeRules.Click` | snakeV3.py:182-193 | a click keeps the high score, "beaten" and the started flag, never restarts the loop, and changes nothing off the end screen; `ClickEffect` gives each button's effect |
| `SnakeRules.HandleEvent` | snakeV3.py:180-193 | one event keeps the high score and "beaten" and never restarts the loop; `HandleEventInv` shows it keeps the invariant |
| `SnakeRules.HandleEvents` | snakeV3.py:177-193 | the events of a frame never change the high score or the "beaten" flag; only a reset to 0 changes the score; only the start body replaces the body; the loop is stopped only by Escape or Exit |
| `SnakeRules.TickMoved` | snakeV3.py:126-154 | with no death and no food: same length, head = Step(old head), segment i = old segment i-1, nothing else changes |
| `SnakeRules.TickSelfCollision` | snakeV3.py:141-145 | the head on the body ends the game (started false, ended true), whatever the wall and food checks would say; score, high score, food and length are unchanged |
| `SnakeRules.TickWallCollision` | snakeV3.py:148-151 | the head off the 30 × 30 grid ends the game the same way, with score, food and length unchanged |
| `SnakeRules.TickEat` | snakeV3.py:154-164 | eating: score + 1, length + 1, the new last segment copies the shifted tail, the food moves to the given cell; heading and phase flags are unchanged, as the whole new record states |
| `SnakeRules.TickDies` | snakeV3.py:141-151 | after a tick the game has ended if and only if it had already ended, or the new head is on the body, or it is off the grid |
| `SnakeRules.TickHighscore` | snakeV3.py:167-172 | after a tick the high score equals max(old high score, score); "beaten" becomes true exactly when the score passes the high score, and never turns off |
| `SnakeRules.TickGrowsOnly` | snakeV3.py:126-164 | a tick never shortens the body and grows it by at most one |
| `SnakeRules.TickInv` | snakeV3.py:121-172 | a tick keeps the invariant: body non-empty, food on the grid, never started and ended at once, 0 ≤ score ≤ high score, "beaten" iff the high score rose above the stored one, every segment on the grid while in play |
| `SnakeRules.ClickedEffect` | snakeV3.py:221-236 | a key starts the game if and only if it had neither started nor ended; it never ends it; Escape clears the running flag and keeps the heading; nothing else changes |
| `SnakeRules.TurnFromRight` | snakeV3.py:223-230 | heading Right: Up and Down are obeyed, Left is ignored |
| `SnakeRules.TwoKeysReverse` | snakeV3.py:177-181 | Up then Left in one frame reverse a snake heading Right, and the next tick kills it |
| `SnakeRules.ClickEffect` | snakeV3.py:182-193 | on the end screen, Play Again restores the start body heading Right with score 0 and the new food, and leaves the game not started and not ended; Exit clears running and ended and changes nothing else; off the end screen a click changes nothing; the high score and "beaten" always stay |
| `SnakeRules.HandleEventInv` | snakeV3.py:180-193 | one event keeps the invariant |
| `SnakeRules.HandleEventsInv` | snakeV3.py:177-193 | the events of a frame keep the invariant |
| `SnakeRules.StepFrameInv` | snakeV3.py:177-198 | one pass of the loop keeps the invariant |
| `SnakeRules.StepFrame` | snakeV3.py:177-198 | one pass: the body stays non-empty, the high score never drops, "beaten" is never reset, and the loop is never restarted |
| `SnakeRules.RunLoop` | snakeV3.py:175-200 | the `while keepGameRunning` loop over the frames: once stopped it stays stopped; the lemmas `RunLoopInv`, `RunLoopMonotone`, `HighscoreIsBest` and `RunLoopExits` state the rest |
| `SnakeRules.SavedValue` | snakeV3.py:202-204 | the file is written exactly when "beaten" is set, and with the high score; `SaveOnlyIfBeaten` ties it to the run |
| `SnakeRuns.TickOnlyWhenStarted` | snakeV3.py:195-196 | after a pass's events, the snake's body changes in that pass if and only if the game has started, and then its head is one step on from where it was |
| `SnakeRuns.StepFrameHighscore` | snakeV3.py:177-198 | across a pass the high score never drops, rises only to the score, and "beaten" is never reset, not even by Play Again |
| `SnakeRuns.RunLoopInv` | snakeV3.py:175-200 | after any number of passes the invariant holds; the game is never started and ended at once |
| `SnakeRuns.RunLoopMonotone` | snakeV3.py:175-200 | over a run the high score never drops and "beaten" is never reset |
| `SnakeRuns.HighscoreIsBest` | snakeV3.py:167-172 | after a run the high score is at least every score reached, and equals the starting high score or one of those scores |
| `SnakeRuns.RunLoopExits` | snakeV3.py:176-185 | the loop stops only after Escape or the Exit button |
| `SnakeRuns.SaveOnlyIfBeaten` | snakeV3.py:202-204 | a value is saved if and only if the high score was beaten; that value is the final high score, above the stored one and at least every score of the run |
| `SnakeRuns.FirstTick` | snakeV3.py:6 | from the start the first tick gives the body (11,15), (10,15), (9,15) with no collision |
| `SnakeRuns.FirstTickEats` | snakeV3.py:154-172 | food on (11,15) at the start: after one tick the score is 1, there are 4 segments, and the food is at the new cell |
| `SnakeRuns.LeftWall` | snakeV3.py:148-151 | a snake at x = 0 heading Left moves its head to x = -1 and the game ends |
| `SnakeGameModel.Snake.constructor` | snakeV3.py:36-39 | a new snake heads Right with body (10,15), (9,15), (8,15), head first |
| `SnakeGameModel.SnakeGame.constructor` | snakeV3.py:58-65 | the start state: new snake, food on the grid, score 0, high score as read, flags not started / not ended / running / not beaten; the invariant holds |
| `SnakeGameModel.SnakeGame.ShiftSegments` | snakeV3.py:126-128 | the reverse loop leaves the body equal to Shift of the old body, in place |
| `SnakeGameModel.SnakeGame.StepHead` | snakeV3.py:131-138 | the head cell becomes Step(head, heading); nothing else changes |
| `SnakeGameModel.SnakeGame.HeadHitsBody` | snakeV3.py:141-145 | the scan with early exit reports true if and only if the head equals some segment i ≥ 1 |
| `SnakeGameModel.SnakeGame.MoveSnake` | snakeV3.py:121-172 | the object's new state is Tick of its old state, and the invariant is kept |
| `SnakeGameModel.SnakeGame.EatFood` | snakeV3.py:154-172 | the object's new state is Eat of its old state |
| `SnakeGameModel.SnakeGame.Clicked` | snakeV3.py:221-236 | the object's new state is Clicked of its old state, and the invariant is kept |
| `SnakeGameModel.SnakeGame.PollEvent` | snakeV3.py:180-193 | one event moves the object as HandleEvent says; the snake is kept or replaced by a fresh one |
| `SnakeGameModel.SnakeGame.RunFrame` | snakeV3.py:177-200 | one pass moves the object as StepFrame says |
| `SnakeGameModel.SnakeGame.GameLoop` | snakeV3.py:175-204 | the loop moves the object as RunLoop says; it exits exactly when running is cleared, and on exit it saves the high score exactly when it was beaten |

## Left out

- Rendering is not modelled: `draw`, `drawScene`, `drawEndScene`, the text labels, surfaces and blits. It is presentation through pygame and holds no game logic.
- `pygame.QUIT` is not modelled. The handler calls `pygame.quit()` (`snakeV3.py:179`) and the loop carries on. Its next pygame call then raises `pygame.error`. That call is `pygame.event.get` (177), `mouse.get_pos` (183), or `display.update` inside `drawScene`/`drawEndScene` (119/109). The error escapes `gameLoop`, so the save at 203-204 never runs. Closing the window therefore loses a beaten high score in every case but one. An Escape key (235-236) leaves the game started or ended, so the same frame still calls `drawScene` (197) or `drawEndScene` (200), which raise. The save runs only when an Exit click (185-186) stopped the loop, leaving the game neither started nor ended, that click came before the close event in the same frame, and no key press follows it in that frame. `SaveOnlyIfBeaten` and `GameLoop` cover only exits through Escape or the Exit button.
- The clock (`clock.tick(13)`) and the final `pygame.quit()` are not modelled. They are timing and I/O.
- Button hit-testing with `collidepoint` is replaced by the abstract `Target` of a click.
- Reading and writing `highscore.txt` is not modelled. The number read is a constructor parameter, and the write is the `saved` result. A missing or unparsable file is a fatal error of the original, before any game state exists.
- SnakeGameModel.SnakeGame.constructor, SnakeRules.NewGame: assume that `highscore.txt` holds a non-negative number, and take it as a `nat`; so do `loaded` in `SnakeRules.Inv`, `SnakeRules.RunLoop` and the run lemmas of `SnakeRuns`. `getHighscore` only reads the file (`snakeV3.py:211`), so its first content comes from outside the game, and `int()` also accepts a negative number such as "-3". With a negative stored value the original starts with score 0 already above the high score. The first food eaten then sets the high score to 1 and sets "beaten". The model does not cover that case.
- `rand.randint` is not modelled. Each random cell is a parameter, required to lie in [0, 29] × [0, 29], which is exactly what `randint(0, 600/20 - 1)` guarantees. That call receives the float 29.0. Python 3.12 and later reject non-integer `randrange` arguments with `TypeError`, so on those versions the original fails at `snakeV3.py:32` and 160. The in-bounds abstraction holds wherever the call returns.
- The float division `CANVASW/BLOCK_SIZE` is replaced by the integer 30. Comparing an integer with 30.0 gives the same answer.
- SnakeGameModel.SnakeGame.GameLoop: it runs over a finite list of frames. When the list runs out while the loop is still running, the model stops without saving. The original would go on polling forever.
- Blocks are modelled as values in a `seq`, not as objects. In the original every `Block` is referenced once, so updating its fields in place acts like replacing the value.
- Colours are not modelled. They carry no logic.
