/** The game object as the original keeps it: a `Snake` whose heading and
    body list are updated in place, and a `SnakeGame` holding the snake, the
    food, the scores and the phase flags.  Every method is proved to move
    the object's state exactly as the matching function of `SnakeRules`
    does; the ones callable between ticks also keep `Inv`. */
module SnakeGameModel {
  import opened SnakeRules

  class Snake {
    var direction: Direction
    /** Head first. */
    var body: seq<Cell>

    constructor ()
      ensures direction == Right && body == StartCoords
    {
      direction := Right;
      body := StartCoords;
    }
  }

  class SnakeGame {
    var snake: Snake
    var food: Cell
    var score: int
    var highscore: int
    var gameHasStarted: bool
    var gameHasEnded: bool
    var keepGameRunning: bool
    var highscoreWasBeaten: bool
    /** The high score read from the file at start-up. */
    ghost var storedHighscore: nat

    function State(): Game
      reads this, snake
    {
      Game(snake.direction, snake.body, food, score, highscore,
           gameHasStarted, gameHasEnded, keepGameRunning, highscoreWasBeaten)
    }

    ghost predicate Valid()
      reads this, snake
    {
      Inv(State(), storedHighscore)
    }

    /** `firstFood` is the random cell `Food()` draws; `stored` is the
        number read from the high-score file. */
    constructor (firstFood: Cell, stored: nat)
      requires InBounds(firstFood)
      ensures Valid() && fresh(snake) && storedHighscore == stored
      ensures State() == NewGame(firstFood, stored)
    {
      snake := new Snake();
      food := firstFood;
      score := 0;
      highscore := stored;
      gameHasStarted := false;
      gameHasEnded := false;
      keepGameRunning := true;
      highscoreWasBeaten := false;
      storedHighscore := stored;
    }

    /** The first half of a tick: from the tail to the segment after the
        head, each segment takes the cell of the one before it. */
    method ShiftSegments()
      requires |snake.body| >= 1
      modifies snake
      ensures snake.direction == old(snake.direction)
      ensures snake.body == Shift(old(snake.body))
    {
      ghost var b := snake.body;
      var i := |snake.body| - 1;
      while i > 0
        invariant 0 <= i < |b|
        invariant |snake.body| == |b| && snake.direction == old(snake.direction)
        invariant forall k :: 0 <= k <= i ==> snake.body[k] == b[k]
        invariant forall k :: i < k < |b| ==> snake.body[k] == b[k - 1]
      {
        snake.body := snake.body[i := snake.body[i - 1]];
        i := i - 1;
      }
      assert snake.body == Shift(b);
    }

    /** The second half of a tick: the head moves one cell in the current
        heading. */
    method StepHead()
      requires |snake.body| >= 1
      modifies snake
      ensures snake.direction == old(snake.direction)
      ensures snake.body == old(snake.body)[0 := Step(old(snake.body)[0], snake.direction)]
    {
      var head := snake.body[0];
      match snake.direction {
        case Up => head := head.(y := head.y - 1);
        case Down => head := head.(y := head.y + 1);
        case Left => head := head.(x := head.x - 1);
        case Right => head := head.(x := head.x + 1);
      }
      snake.body := snake.body[0 := head];
    }

    /** The self-collision scan: is the head on any later segment? */
    method HeadHitsBody() returns (hit: bool)
      requires |snake.body| >= 1
      ensures hit == HitsSelf(snake.body)
    {
      var j := 1;
      while j < |snake.body|
        invariant 1 <= j <= |snake.body|
        invariant forall k :: 1 <= k < j ==> snake.body[k] != snake.body[0]
      {
        if snake.body[0].x == snake.body[j].x && snake.body[0].y == snake.body[j].y {
          assert snake.body[j] == snake.body[0];
          return true;
        }
        j := j + 1;
      }
      return false;
    }

    /** One tick.  `relocation` is the random cell the food moves to if it
        is eaten. */
    method MoveSnake(relocation: Cell)
      requires Valid() && InBounds(relocation)
      modifies this, snake
      ensures snake == old(snake) && storedHighscore == old(storedHighscore)
      ensures State() == Tick(old(State()), relocation)
      ensures Valid()
    {
      ghost var g := State();
      ghost var m := Advance(g.body, g.direction);
      TickInv(g, relocation, storedHighscore);
      ShiftSegments();
      StepHead();
      var head := snake.body[0];
      assert snake.body == m;

      // Self-collision comes first, then the wall, then the food.
      var hit := HeadHitsBody();
      if hit {
        gameHasStarted := false;
        gameHasEnded := true;
        assert Tick(g, relocation) == g.(body := m, started := false, ended := true);
        return;
      }
      if head.x < 0 || head.x >= GridWidth || head.y < 0 || head.y >= GridHeight {
        gameHasStarted := false;
        gameHasEnded := true;
        assert Tick(g, relocation) == g.(body := m, started := false, ended := true);
        return;
      }
      if head.x == food.x && head.y == food.y {
        assert !HitsSelf(m) && InBounds(m[0]) && m[0] == g.food;
        EatFood(relocation);
      }
    }

    /** The food branch of a tick. */
    method EatFood(relocation: Cell)
      requires |snake.body| >= 1
      modifies this, snake
      ensures snake == old(snake) && storedHighscore == old(storedHighscore)
      ensures State() == Eat(old(State()), relocation)
    {
      score := score + 1;
      food := relocation;
      snake.body := snake.body + [snake.body[|snake.body| - 1]];
      if score > highscore {
        highscore := score;
        if !highscoreWasBeaten {
          highscoreWasBeaten := true;
        }
      }
    }

    /** The key handler. */
    method Clicked(key: Key)
      requires Valid()
      modifies this, snake
      ensures snake == old(snake) && storedHighscore == old(storedHighscore)
      ensures State() == SnakeRules.Clicked(old(State()), key)
      ensures Valid()
    {
      if key == UpKey && snake.direction != Down {
        snake.direction := Up;
      } else if key == DownKey && snake.direction != Up {
        snake.direction := Down;
      } else if key == LeftKey && snake.direction != Right {
        snake.direction := Left;
      } else if key == RightKey && snake.direction != Left {
        snake.direction := Right;
      } else if key == EscapeKey {
        keepGameRunning := false;
      }
      if !gameHasStarted && !gameHasEnded {
        gameHasStarted := true;
      }
    }

    /** One polled event: a key press, or a mouse click, which matters only
        on the end screen, where Exit is tested before Play Again. */
    method PollEvent(e: Event)
      requires Valid()
      requires e.MouseDown? && e.target.PlayAgainButton? ==> InBounds(e.target.newFood)
      modifies this, snake
      ensures fresh(snake) || snake == old(snake)
      ensures storedHighscore == old(storedHighscore)
      ensures State() == HandleEvent(old(State()), e)
      ensures Valid()
    {
      HandleEventInv(State(), e, storedHighscore);
      match e {
        case KeyDown(k) =>
          Clicked(k);
        case MouseDown(t) =>
          if gameHasEnded {
            match t {
              case ExitButton =>
                keepGameRunning := false;
                gameHasEnded := false;
              case PlayAgainButton(f) =>
                snake := new Snake();
                food := f;
                score := 0;
                gameHasEnded := false;
              case Elsewhere =>
            }
          }
      }
    }

    /** One pass of the loop: every polled event in order, then a tick if
        the game has started. */
    method RunFrame(f: Frame)
      requires Valid() && FrameInBounds(f)
      modifies this, snake
      ensures fresh(snake) || snake == old(snake)
      ensures storedHighscore == old(storedHighscore)
      ensures State() == StepFrame(old(State()), f)
      ensures Valid()
    {
      var j := 0;
      while j < |f.events|
        invariant 0 <= j <= |f.events|
        invariant Valid() && storedHighscore == old(storedHighscore)
        invariant fresh(snake) || snake == old(snake)
        invariant HandleEvents(State(), f.events[j..]) == HandleEvents(old(State()), f.events)
      {
        assert f.events[j..][1..] == f.events[j + 1..];
        PollEvent(f.events[j]);
        j := j + 1;
      }
      if gameHasStarted {
        MoveSnake(f.relocation);
      }
    }

    /** The game loop over the frames it is given.  It stops when
        `keepGameRunning` is cleared (then `exited`) or when the frames run
        out; on exit the high score is saved, as `saved`, only if it was
        beaten. */
    method GameLoop(frames: seq<Frame>) returns (exited: bool, saved: Option<int>)
      requires Valid() && FramesInBounds(frames)
      modifies this, snake
      ensures fresh(snake) || snake == old(snake)
      ensures storedHighscore == old(storedHighscore)
      ensures State() == RunLoop(old(State()), frames, storedHighscore)
      ensures Valid()
      ensures exited == !keepGameRunning
      ensures saved == if exited then SavedValue(State()) else None
    {
      var i := 0;
      while keepGameRunning && i < |frames|
        invariant 0 <= i <= |frames|
        invariant Valid() && storedHighscore == old(storedHighscore)
        invariant fresh(snake) || snake == old(snake)
        invariant FramesInBounds(frames[i..])
        invariant RunLoop(State(), frames[i..], storedHighscore) == RunLoop(old(State()), frames, storedHighscore)
        decreases |frames| - i
      {
        assert frames[i..][1..] == frames[i + 1..];
        RunFrame(frames[i]);
        i := i + 1;
      }
      exited := !keepGameRunning;
      saved := None;
      if exited && highscoreWasBeaten {
        saved := Some(highscore);
      }
    }
  }
}
