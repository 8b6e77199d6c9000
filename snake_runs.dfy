/** Properties of whole runs of the game loop: what holds after any number
    of frames, and what the loop writes to the high-score file on exit. */
module SnakeRuns {
  import opened SnakeRules

  /** The scores at the end of each frame the loop runs. */
  ghost function Scores(g: Game, fs: seq<Frame>, loaded: nat): seq<int>
    requires Inv(g, loaded) && FramesInBounds(fs)
    decreases |fs|
  {
    if !g.running || fs == [] then []
    else
      StepFrameInv(g, fs[0], loaded);
      var g1 := StepFrame(g, fs[0]);
      [g1.score] + Scores(g1, fs[1..], loaded)
  }

  /** The snake moves in a frame exactly when the game has started once the
      frame's events are handled: then its head steps on from where it was,
      otherwise the body stays as the events left it. */
  lemma TickOnlyWhenStarted(g: Game, f: Frame)
    requires |g.body| >= 1
    ensures var g1 := HandleEvents(g, f.events);
      |g1.body| >= 1 &&
      (StepFrame(g, f).body == g1.body <==> !g1.started) &&
      (g1.started ==> StepFrame(g, f).body[0] == Step(g1.body[0], g1.direction))
  {
    var g1 := HandleEvents(g, f.events);
    if g1.started {
      assert Step(g1.body[0], g1.direction) != g1.body[0];
    }
  }

  /** Across a frame the high score never drops, and when it rises it
      rises to the score; "beaten" is never reset, not even by Play Again. */
  lemma StepFrameHighscore(g: Game, f: Frame, loaded: nat)
    requires Inv(g, loaded) && FrameInBounds(f)
    ensures var r := StepFrame(g, f);
      r.highscore >= g.highscore &&
      (r.highscore == g.highscore || r.highscore == r.score) &&
      (g.beaten ==> r.beaten)
  {
  }

  /** The invariant holds after any number of frames: in particular the
      game is never started and ended at once. */
  lemma {:induction false} RunLoopInv(g: Game, fs: seq<Frame>, loaded: nat)
    requires Inv(g, loaded) && FramesInBounds(fs)
    ensures var r := RunLoop(g, fs, loaded);
      Inv(r, loaded) && !(r.started && r.ended)
    decreases |fs|
  {
    if g.running && fs != [] {
      StepFrameInv(g, fs[0], loaded);
      RunLoopInv(StepFrame(g, fs[0]), fs[1..], loaded);
    }
  }

  /** Over a run the high score never drops and "beaten" is never reset. */
  lemma {:induction false} RunLoopMonotone(g: Game, fs: seq<Frame>, loaded: nat)
    requires Inv(g, loaded) && FramesInBounds(fs)
    ensures var r := RunLoop(g, fs, loaded);
      r.highscore >= g.highscore && (g.beaten ==> r.beaten)
    decreases |fs|
  {
    if g.running && fs != [] {
      StepFrameInv(g, fs[0], loaded);
      StepFrameHighscore(g, fs[0], loaded);
      RunLoopMonotone(StepFrame(g, fs[0]), fs[1..], loaded);
    }
  }

  /** The high score after a run is the best of the starting high score and
      every score the run reached. */
  lemma {:induction false} HighscoreIsBest(g: Game, fs: seq<Frame>, loaded: nat)
    requires Inv(g, loaded) && FramesInBounds(fs)
    ensures var r := RunLoop(g, fs, loaded);
      var ss := Scores(g, fs, loaded);
      r.highscore >= g.highscore &&
      (forall i :: 0 <= i < |ss| ==> ss[i] <= r.highscore) &&
      (r.highscore == g.highscore || r.highscore in ss)
    decreases |fs|
  {
    if g.running && fs != [] {
      StepFrameInv(g, fs[0], loaded);
      StepFrameHighscore(g, fs[0], loaded);
      var g1 := StepFrame(g, fs[0]);
      HighscoreIsBest(g1, fs[1..], loaded);
      assert RunLoop(g, fs, loaded) == RunLoop(g1, fs[1..], loaded);
      assert g1.score <= g1.highscore;
      assert Scores(g, fs, loaded) == [g1.score] + Scores(g1, fs[1..], loaded);
    }
  }

  /** The loop stops only through Escape or the Exit button. */
  lemma {:induction false} RunLoopExits(g: Game, fs: seq<Frame>, loaded: nat)
    requires Inv(g, loaded) && FramesInBounds(fs) && g.running
    ensures !RunLoop(g, fs, loaded).running ==>
      exists i, j :: 0 <= i < |fs| && 0 <= j < |fs[i].events| &&
        fs[i].events[j] in {KeyDown(EscapeKey), MouseDown(ExitButton)}
    decreases |fs|
  {
    if fs != [] {
      StepFrameInv(g, fs[0], loaded);
      var g1 := StepFrame(g, fs[0]);
      if !g1.running {
      } else {
        RunLoopExits(g1, fs[1..], loaded);
        if !RunLoop(g, fs, loaded).running {
          var i, j :| 0 <= i < |fs[1..]| && 0 <= j < |fs[1..][i].events| &&
            fs[1..][i].events[j] in {KeyDown(EscapeKey), MouseDown(ExitButton)};
          assert fs[i + 1] == fs[1..][i];
        }
      }
    }
  }

  /** The file is written on exit only when the high score was beaten, and
      then with a value above the stored one that no score of the run
      exceeds. */
  lemma SaveOnlyIfBeaten(g: Game, fs: seq<Frame>, loaded: nat)
    requires Inv(g, loaded) && FramesInBounds(fs)
    ensures var r := RunLoop(g, fs, loaded);
      var ss := Scores(g, fs, loaded);
      (SavedValue(r).Some? <==> r.beaten) &&
      (SavedValue(r).Some? ==>
         SavedValue(r).value == r.highscore > loaded &&
         forall i :: 0 <= i < |ss| ==> ss[i] <= SavedValue(r).value)
  {
    RunLoopInv(g, fs, loaded);
    HighscoreIsBest(g, fs, loaded);
  }

  // ---------------------------------------------------------------------
  // Scenarios

  /** From the start, the first tick moves the head to (11, 15) and drags
      the body behind it. */
  lemma FirstTick(food: Cell, relocation: Cell)
    requires InBounds(food) && food != Cell(11, 15)
    ensures var r := Tick(NewGame(food, 0).(started := true), relocation);
      r.body == [Cell(11, 15), Cell(10, 15), Cell(9, 15)] && r.started && !r.ended && r.score == 0
  {
    var m := Advance(StartCoords, Right);
    assert m == [Cell(11, 15), Cell(10, 15), Cell(9, 15)];
    assert !HitsSelf(m);
  }

  /** With the food on the next head cell the first tick eats it: score 1,
      four segments, the food at the new cell. */
  lemma FirstTickEats(relocation: Cell)
    requires InBounds(relocation)
    ensures var r := Tick(NewGame(Cell(11, 15), 0).(started := true), relocation);
      r.score == 1 && |r.body| == 4 && r.food == relocation && InBounds(r.food) &&
      r.highscore == 1 && r.beaten
  {
    var m := Advance(StartCoords, Right);
    assert m == [Cell(11, 15), Cell(10, 15), Cell(9, 15)];
    assert !HitsSelf(m);
  }

  /** A snake at x = 0 heading Left hits the wall. */
  lemma LeftWall(g: Game, relocation: Cell)
    requires g.body == [Cell(0, 5), Cell(1, 5), Cell(2, 5)] && g.direction == Left
    ensures Tick(g, relocation).ended && !Tick(g, relocation).started
    ensures Tick(g, relocation).body[0] == Cell(-1, 5)
  {
    var m := Advance(g.body, g.direction);
    assert m == [Cell(-1, 5), Cell(0, 5), Cell(1, 5)];
  }
}
