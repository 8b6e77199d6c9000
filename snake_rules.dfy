/** The rules of the snake game as values: the grid, the snake's heading and
    body, the game record that `SnakeGame` keeps in its fields, and one
    function per transition (a tick, a key press, a mouse click, a frame of
    the game loop).  The class in snake_game.dfy is proved against these. */
module SnakeRules {

  datatype Option<T> = None | Some(value: T)

  /** The four headings of the snake (the strings "Up", "Down", "Left",
      "Right" of the original). */
  datatype Direction = Up | Down | Left | Right

  /** A block's position in grid cells; colours carry no logic and are not
      modelled. */
  datatype Cell = Cell(x: int, y: int)

  /** Canvas size divided by block size: 600 / 20 cells in each direction. */
  const GridWidth: int := 30
  const GridHeight: int := 30

  /** The starting body, head first. */
  const StartCoords: seq<Cell> := [Cell(10, 15), Cell(9, 15), Cell(8, 15)]

  predicate InBounds(c: Cell) {
    0 <= c.x < GridWidth && 0 <= c.y < GridHeight
  }

  function Opposite(d: Direction): (r: Direction)
    ensures r != d
  {
    match d
    case Up => Down
    case Down => Up
    case Left => Right
    case Right => Left
  }

  /** The cell one step from `c` in heading `d`; y grows downwards. */
  function Step(c: Cell, d: Direction): (r: Cell)
    ensures (r.x - c.x) * (r.x - c.x) + (r.y - c.y) * (r.y - c.y) == 1
    ensures d == Up || d == Down ==> r.x == c.x
    ensures d == Left || d == Right ==> r.y == c.y
    ensures d == Up || d == Left ==> r.x + r.y < c.x + c.y
    ensures d == Down || d == Right ==> r.x + r.y > c.x + c.y
  {
    match d
    case Up => Cell(c.x, c.y - 1)
    case Down => Cell(c.x, c.y + 1)
    case Left => Cell(c.x - 1, c.y)
    case Right => Cell(c.x + 1, c.y)
  }

  /** A step undone by a step in the opposite heading. */
  lemma StepThenOpposite(c: Cell, d: Direction)
    ensures Step(Step(c, d), Opposite(d)) == c
    ensures Opposite(Opposite(d)) == d
  {
  }

  /** Moves every segment but the head onto the segment before it. */
  function Shift(body: seq<Cell>): (r: seq<Cell>)
    requires |body| >= 1
    ensures |r| == |body|
    ensures r[0] == body[0]
    ensures forall i :: 1 <= i < |r| ==> r[i] == body[i - 1]
  {
    [body[0]] + body[..|body| - 1]
  }

  /** The body after the shift and the head's step. */
  function Advance(body: seq<Cell>, d: Direction): (r: seq<Cell>)
    requires |body| >= 1
    ensures |r| == |body|
    ensures r[0] == Step(body[0], d)
    ensures forall i :: 1 <= i < |r| ==> r[i] == body[i - 1]
  {
    Shift(body)[0 := Step(body[0], d)]
  }

  /** The head lies on another segment of the body. */
  predicate HitsSelf(body: seq<Cell>)
    requires |body| >= 1
    ensures HitsSelf(body) ==> |body| >= 2
  {
    exists i :: 1 <= i < |body| && body[i] == body[0]
  }

  /** Everything `SnakeGame` keeps, field by field: the snake's heading and
      body, the food, the two scores and the four flags. */
  datatype Game = Game(
    direction: Direction,
    body: seq<Cell>,
    food: Cell,
    score: int,
    highscore: int,
    started: bool,    // gameHasStarted
    ended: bool,      // gameHasEnded
    running: bool,    // keepGameRunning
    beaten: bool)     // highscoreWasBeaten

  /** The state the constructor builds from the first food cell and the
      high score read from the file. */
  function NewGame(food: Cell, stored: nat): (r: Game)
    requires InBounds(food)
    ensures Inv(r, stored) && InPlay(r) && !r.started
  {
    Game(Right, StartCoords, food, 0, stored, false, false, true, false)
  }

  /** The game is being played: the loop goes on and the snake is not dead. */
  predicate InPlay(g: Game) {
    g.running && !g.ended
  }

  /** What every reachable state satisfies, given the high score `loaded`
      at start-up: the body is never empty, the food lies on the grid, the
      game is never started and ended at once, the score never exceeds the
      high score, the high score never drops below the stored one and the
      "beaten" flag says exactly whether it rose above it, and while the game
      is in play every segment lies on the grid. */
  ghost predicate Inv(g: Game, loaded: nat) {
    |g.body| >= 1 &&
    InBounds(g.food) &&
    !(g.started && g.ended) &&
    0 <= g.score <= g.highscore &&
    loaded <= g.highscore &&
    (g.beaten <==> g.highscore > loaded) &&
    (InPlay(g) ==> forall i :: 0 <= i < |g.body| ==> InBounds(g.body[i]))
  }

  /** The tick `moveSnake`: shift and step, then self-collision, then the
      wall, then the food.  `relocation` is the random cell the food moves
      to when it is eaten. */
  function Tick(g: Game, relocation: Cell): (r: Game)
    requires |g.body| >= 1
    ensures r.direction == g.direction && r.running == g.running
    ensures !(g.started && g.ended) ==> !(r.started && r.ended)
    ensures |r.body| >= 1 && r.body[0] == Step(g.body[0], g.direction)
  {
    var moved := Advance(g.body, g.direction);
    var g1 := g.(body := moved);
    if HitsSelf(moved) then
      g1.(started := false, ended := true)
    else if !InBounds(moved[0]) then
      g1.(started := false, ended := true)
    else if moved[0] == g.food then
      Eat(g1, relocation)
    else
      g1
  }

  /** The snake on the food: one more point, the food moves to
      `relocation`, the last segment is duplicated, and the high score
      follows the score once it is passed. */
  function Eat(g: Game, relocation: Cell): (r: Game)
    requires |g.body| >= 1
    ensures g.score <= g.highscore ==> r.score <= r.highscore
    ensures r.highscore >= g.highscore
    ensures r.beaten <==> g.beaten || r.highscore > g.highscore
    ensures |r.body| == |g.body| + 1 && r.body[|g.body|] == g.body[|g.body| - 1]
  {
    var score := g.score + 1;
    g.(score := score,
       food := relocation,
       body := g.body + [g.body[|g.body| - 1]],
       highscore := if score > g.highscore then score else g.highscore,
       beaten := g.beaten || score > g.highscore)
  }

  /** The keys the game tells apart. */
  datatype Key = UpKey | DownKey | LeftKey | RightKey | EscapeKey | OtherKey

  /** The heading an arrow key asks for. */
  function Requested(key: Key): Option<Direction> {
    match key
    case UpKey => Some(Up)
    case DownKey => Some(Down)
    case LeftKey => Some(Left)
    case RightKey => Some(Right)
    case _ => None
  }

  /** The heading after a key press: an arrow key is obeyed unless it asks
      for the opposite of the current heading. */
  function Turn(d: Direction, key: Key): (r: Direction)
    ensures r != Opposite(d)
    ensures r == d || Requested(key) == Some(r)
    ensures Requested(key).Some? && Requested(key).value != Opposite(d) ==> r == Requested(key).value
  {
    if key == UpKey && d != Down then Up
    else if key == DownKey && d != Up then Down
    else if key == LeftKey && d != Right then Left
    else if key == RightKey && d != Left then Right
    else d
  }

  /** The key handler `clicked`. */
  function Clicked(g: Game, key: Key): (r: Game)
    ensures r.ended == g.ended && r.body == g.body && r.score == g.score && r.highscore == g.highscore
    ensures r.direction != Opposite(g.direction)
    ensures r.running ==> g.running
    ensures !(g.started && g.ended) ==> !(r.started && r.ended)
  {
    var g1 := g.(direction := Turn(g.direction, key),
                 running := if key == EscapeKey then false else g.running);
    if !g1.started && !g1.ended then g1.(started := true) else g1
  }

  /** Where a mouse click lands.  Play Again carries the random cell of the
      new food. */
  datatype Target = ExitButton | PlayAgainButton(newFood: Cell) | Elsewhere

  datatype Event = KeyDown(key: Key) | MouseDown(target: Target)

  /** Play Again: a fresh snake and food, score 0, and back to waiting for a
      key. */
  function PlayAgain(g: Game, newFood: Cell): (r: Game)
    ensures r.highscore == g.highscore && r.beaten == g.beaten
    ensures r.started == g.started && r.running == g.running && !r.ended
  {
    g.(direction := Right, body := StartCoords, food := newFood, score := 0, ended := false)
  }

  /** A mouse click, which matters only on the end screen. */
  function Click(g: Game, t: Target): (r: Game)
    ensures r.highscore == g.highscore && r.beaten == g.beaten && r.started == g.started
    ensures r.running ==> g.running
    ensures !g.ended ==> r == g
  {
    if !g.ended then g
    else match t
      case ExitButton => g.(running := false, ended := false)
      case PlayAgainButton(f) => PlayAgain(g, f)
      case Elsewhere => g
  }

  function HandleEvent(g: Game, e: Event): (r: Game)
    ensures r.highscore == g.highscore && r.beaten == g.beaten
    ensures r.running ==> g.running
  {
    match e
    case KeyDown(k) => Clicked(g, k)
    case MouseDown(t) => Click(g, t)
  }

  /** The events of one frame, in order.  No event changes the high score or
      the "beaten" flag; only Play Again resets the score and the body. */
  function HandleEvents(g: Game, es: seq<Event>): (r: Game)
    ensures r.highscore == g.highscore && r.beaten == g.beaten
    ensures r.score == g.score || r.score == 0
    ensures r.body == g.body || r.body == StartCoords
    ensures r.running ==> g.running
    ensures !r.running ==> !g.running || exists i :: 0 <= i < |es| && es[i] in {KeyDown(EscapeKey), MouseDown(ExitButton)}
    decreases |es|
  {
    if es == [] then g else HandleEvents(HandleEvent(g, es[0]), es[1..])
  }

  /** One pass of the game loop: the polled events, then a tick if the game
      has started.  `relocation` is where eaten food goes. */
  datatype Frame = Frame(events: seq<Event>, relocation: Cell)

  function StepFrame(g: Game, f: Frame): (r: Game)
    requires |g.body| >= 1
    ensures |r.body| >= 1
    ensures r.highscore >= g.highscore && (g.beaten ==> r.beaten)
    ensures r.running ==> g.running
  {
    var g1 := HandleEvents(g, f.events);
    if g1.started then Tick(g1, f.relocation) else g1
  }

  /** Every random cell a frame may use lies on the grid. */
  predicate FrameInBounds(f: Frame) {
    InBounds(f.relocation) &&
    forall i :: 0 <= i < |f.events| ==> f.events[i].MouseDown? && f.events[i].target.PlayAgainButton? ==> InBounds(f.events[i].target.newFood)
  }

  predicate FramesInBounds(fs: seq<Frame>) {
    forall i :: 0 <= i < |fs| ==> FrameInBounds(fs[i])
  }

  /** `while keepGameRunning`: frames are consumed while the loop goes on. */
  ghost function RunLoop(g: Game, fs: seq<Frame>, loaded: nat): (r: Game)
    requires Inv(g, loaded) && FramesInBounds(fs)
    ensures r.running ==> g.running
    decreases |fs|
  {
    if !g.running || fs == [] then g
    else
      StepFrameInv(g, fs[0], loaded);
      RunLoop(StepFrame(g, fs[0]), fs[1..], loaded)
  }

  /** What the loop writes to the high-score file when it exits. */
  function SavedValue(g: Game): (r: Option<int>)
    ensures r.Some? <==> g.beaten
    ensures r.Some? ==> r.value == g.highscore
  {
    if g.beaten then Some(g.highscore) else None
  }

  // ---------------------------------------------------------------------
  // One tick

  /** A tick that neither kills the snake nor eats keeps the length, moves
      every segment onto its predecessor's old cell and the head one cell
      on, and leaves everything else alone. */
  lemma TickMoved(g: Game, relocation: Cell)
    requires |g.body| >= 1
    requires var m := Advance(g.body, g.direction); !HitsSelf(m) && InBounds(m[0]) && m[0] != g.food
    ensures var r := Tick(g, relocation);
      |r.body| == |g.body| &&
      r.body[0] == Step(g.body[0], g.direction) &&
      (forall i :: 1 <= i < |r.body| ==> r.body[i] == g.body[i - 1]) &&
      r == g.(body := r.body)
  {
  }

  /** Self-collision is checked first: it ends the game whatever the wall
      and the food would say, and changes nothing but the body and the two
      phase flags. */
  lemma TickSelfCollision(g: Game, relocation: Cell)
    requires |g.body| >= 1 && HitsSelf(Advance(g.body, g.direction))
    ensures Tick(g, relocation) == g.(body := Advance(g.body, g.direction), started := false, ended := true)
  {
  }

  /** Leaving the grid ends the game the same way. */
  lemma TickWallCollision(g: Game, relocation: Cell)
    requires |g.body| >= 1
    requires var m := Advance(g.body, g.direction); !HitsSelf(m) && !InBounds(m[0])
    ensures var r := Tick(g, relocation);
      r == g.(body := Advance(g.body, g.direction), started := false, ended := true) &&
      |r.body| == |g.body| && r.score == g.score && r.food == g.food
  {
  }

  /** Eating: one more point, one more segment duplicating the shifted
      tail, and the food moves to `relocation`. */
  lemma TickEat(g: Game, relocation: Cell)
    requires |g.body| >= 1
    requires var m := Advance(g.body, g.direction); !HitsSelf(m) && InBounds(m[0]) && m[0] == g.food
    ensures var r := Tick(g, relocation);
      var m := Advance(g.body, g.direction);
      r.score == g.score + 1 &&
      |r.body| == |g.body| + 1 &&
      r.body[..|g.body|] == m &&
      r.body[|g.body|] == m[|g.body| - 1] &&
      r.food == relocation &&
      r == g.(body := r.body, score := r.score, food := r.food,
              highscore := r.highscore, beaten := r.beaten)
  {
  }

  /** The tick ends the game exactly when the new head is on the body or
      off the grid. */
  lemma TickDies(g: Game, relocation: Cell)
    requires |g.body| >= 1
    ensures var m := Advance(g.body, g.direction);
      Tick(g, relocation).ended <==> g.ended || HitsSelf(m) || !InBounds(m[0])
  {
  }

  /** After a tick the high score is the larger of the old high score and
      the new score; "beaten" turns on exactly when the score first goes
      above the high score, and never turns off. */
  lemma TickHighscore(g: Game, relocation: Cell, loaded: nat)
    requires Inv(g, loaded)
    ensures var r := Tick(g, relocation);
      r.highscore == (if r.score > g.highscore then r.score else g.highscore) &&
      r.highscore >= g.highscore &&
      r.beaten == (g.beaten || r.score > g.highscore) &&
      (g.beaten ==> r.beaten)
  {
  }

  /** The body never shrinks during a game. */
  lemma TickGrowsOnly(g: Game, relocation: Cell)
    requires |g.body| >= 1
    ensures |g.body| <= |Tick(g, relocation).body| <= |g.body| + 1
  {
  }

  lemma TickInv(g: Game, relocation: Cell, loaded: nat)
    requires Inv(g, loaded) && InBounds(relocation)
    ensures Inv(Tick(g, relocation), loaded)
  {
  }

  // ---------------------------------------------------------------------
  // Input

  /** A key press starts the game exactly when it had neither started nor
      ended, never ends it, and changes nothing but the heading, the
      running flag (Escape) and the started flag. */
  lemma ClickedEffect(g: Game, key: Key)
    ensures var r := Clicked(g, key);
      (r.started <==> g.started || !g.ended) &&
      r.ended == g.ended &&
      (r.running <==> g.running && key != EscapeKey) &&
      (key == EscapeKey ==> r.direction == g.direction) &&
      r == g.(direction := r.direction, running := r.running, started := r.started)
  {
  }

  /** Given heading Right, Up and Down are obeyed and Left is ignored. */
  lemma TurnFromRight()
    ensures Turn(Right, UpKey) == Up && Turn(Right, DownKey) == Down
    ensures Turn(Right, LeftKey) == Right && Turn(Right, RightKey) == Right
  {
  }

  /** The guard only looks at the heading at the moment of the key press:
      two presses within one frame, Up then Left, turn a snake heading Right
      to Left, and its next tick runs the head into its own body. */
  lemma TwoKeysReverse(food: Cell)
    requires InBounds(food)
    ensures var g := HandleEvents(NewGame(food, 0), [KeyDown(UpKey), KeyDown(LeftKey)]);
      g.direction == Opposite(Right) && g.started &&
      HitsSelf(Advance(g.body, g.direction)) && Tick(g, food).ended
  {
    var g0 := NewGame(food, 0);
    var g1 := Clicked(g0, UpKey);
    var g2 := Clicked(g1, LeftKey);
    assert HandleEvents(g0, [KeyDown(UpKey), KeyDown(LeftKey)]) == g2 by {
      assert [KeyDown(UpKey), KeyDown(LeftKey)][1..] == [KeyDown(LeftKey)];
    }
    var m := Advance(g2.body, g2.direction);
    assert m[2] == m[0];
  }

  /** Play Again restores the starting snake heading Right with score 0 and
      returns to the waiting state, keeping the high score and the "beaten"
      flag; Exit only stops the loop. */
  lemma ClickEffect(g: Game, t: Target)
    requires !(g.started && g.ended)
    ensures var r := Click(g, t);
      (g.ended && t.PlayAgainButton? ==>
         r.body == StartCoords && r.direction == Right && r.score == 0 &&
         r.food == t.newFood && !r.started && !r.ended && r.running == g.running) &&
      (g.ended && t.ExitButton? ==> r == g.(running := false, ended := false)) &&
      (!g.ended ==> r == g) &&
      r.highscore == g.highscore && r.beaten == g.beaten
  {
  }

  lemma HandleEventInv(g: Game, e: Event, loaded: nat)
    requires Inv(g, loaded)
    requires e.MouseDown? && e.target.PlayAgainButton? ==> InBounds(e.target.newFood)
    ensures Inv(HandleEvent(g, e), loaded)
  {
  }

  lemma {:induction false} HandleEventsInv(g: Game, es: seq<Event>, loaded: nat)
    requires Inv(g, loaded)
    requires forall i :: 0 <= i < |es| ==> es[i].MouseDown? && es[i].target.PlayAgainButton? ==> InBounds(es[i].target.newFood)
    ensures Inv(HandleEvents(g, es), loaded)
    decreases |es|
  {
    if es != [] {
      HandleEventInv(g, es[0], loaded);
      HandleEventsInv(HandleEvent(g, es[0]), es[1..], loaded);
    }
  }

  /** A frame keeps the invariant. */
  lemma StepFrameInv(g: Game, f: Frame, loaded: nat)
    requires Inv(g, loaded) && FrameInBounds(f)
    ensures Inv(StepFrame(g, f), loaded)
  {
    HandleEventsInv(g, f.events, loaded);
    var g1 := HandleEvents(g, f.events);
    if g1.started {
      TickInv(g1, f.relocation, loaded);
    }
  }
}
