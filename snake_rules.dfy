/** The rules of the snake game on values: positions, the game state, one tick of
    the game loop, the arrow-key mapping, the reset state, and the properties
    those rules keep. The class in snake_game.dfy is proved against these. */
module SnakeRules {

  datatype Option<T> = None | Some(value: T)

  /** A grid cell, or a direction vector of the same shape. */
  datatype Position = Position(x: int, y: int)

  const GridSize: int := 20
  /** Where a new or reset snake starts. */
  const Center: Position := Position(10, 10)
  /** The direction of a snake that has not started moving. */
  const Still: Position := Position(0, 0)
  const Up: Position := Position(0, -1)
  const Down: Position := Position(0, 1)
  const Left: Position := Position(-1, 0)
  const Right: Position := Position(1, 0)
  /** The fixed obstacles, in the order the game lists them. */
  const Obstacles: seq<Position> := [Position(5, 5), Position(15, 15)]

  /** The game state: the snake head first, the food, the pending direction,
      the score and the terminal flag. */
  datatype State = State(
    snake: seq<Position>,
    food: Position,
    direction: Position,
    score: int,
    gameOver: bool)

  function Add(p: Position, d: Position): Position {
    Position(p.x + d.x, p.y + d.y)
  }

  /** The range a food spawn can land in, [0, GridSize) on both axes; its negation
      is the wall test of the terminal check. */
  predicate InGrid(p: Position) {
    0 <= p.x < GridSize && 0 <= p.y < GridSize
  }

  predicate IsDirection(d: Position) {
    d == Still || d == Up || d == Down || d == Left || d == Right
  }

  /** Whether some element of `s` is the cell `p` (the `some` scans of the tick). */
  function Contains(s: seq<Position>, p: Position): (r: bool)
    ensures r <==> p in s
  {
    if s == [] then false else s[0] == p || Contains(s[1..], p)
  }

  /** The snake after a move that does not eat: `head` in front, the tail dropped. */
  function Shift(snake: seq<Position>, head: Position): (r: seq<Position>)
    requires |snake| > 0
    ensures |r| == |snake| && r[0] == head
    ensures forall i :: 1 <= i < |r| ==> r[i] == snake[i - 1]
  {
    [head] + snake[..|snake| - 1]
  }

  /** The terminal check against the new head and the shifted snake. */
  predicate Collides(newHead: Position, newSnake: seq<Position>): (r: bool)
    requires |newSnake| > 0
    ensures r <==> !InGrid(newHead) || newHead in newSnake[1..] || newHead in Obstacles
  {
    !InGrid(newHead) || Contains(newSnake[1..], newHead) || Contains(Obstacles, newHead)
  }

  /** The state a game starts in and returns to on reset. */
  function Initial(food: Position): (r: State)
    ensures |r.snake| == 1 && r.score == 0 && !r.gameOver && r.food == food
    ensures InGrid(food) ==> Inv(r)
  {
    State([Center], food, Still, 0, false)
  }

  /** One tick of the game loop. `newFood` is the respawn drawn on this tick;
      it is used only when the food is eaten. A finished game does not tick. */
  function Step(s: State, newFood: Position): (r: State)
    requires |s.snake| > 0
    ensures |s.snake| <= |r.snake| <= |s.snake| + 1
    ensures r.score - |r.snake| == s.score - |s.snake|
    ensures r.direction == s.direction
  {
    if s.gameOver then s
    else
      var newHead := Add(s.snake[0], s.direction);
      if newHead == s.food then
        s.(snake := [newHead] + s.snake, food := newFood, score := s.score + 1)
      else
        var newSnake := Shift(s.snake, newHead);
        if Collides(newHead, newSnake) then s.(gameOver := true)
        else s.(snake := newSnake)
  }

  /** The direction an arrow key selects; None for any other key. */
  function ArrowDirection(key: string): (r: Option<Position>)
    ensures r.Some? <==> key in ["ArrowUp", "ArrowDown", "ArrowLeft", "ArrowRight"]
    ensures key == "ArrowUp" ==> r == Some(Position(0, -1))
    ensures key == "ArrowDown" ==> r == Some(Position(0, 1))
    ensures key == "ArrowLeft" ==> r == Some(Position(-1, 0))
    ensures key == "ArrowRight" ==> r == Some(Position(1, 0))
    ensures r.Some? ==> IsDirection(r.value) && r.value != Still
  {
    if key == "ArrowUp" then Some(Up)
    else if key == "ArrowDown" then Some(Down)
    else if key == "ArrowLeft" then Some(Left)
    else if key == "ArrowRight" then Some(Right)
    else None
  }

  /** The arrow key that selects a direction, the inverse of ArrowDirection. */
  function ArrowKey(d: Position): (r: Option<string>)
    ensures r.Some? <==> IsDirection(d) && d != Still
  {
    if d == Up then Some("ArrowUp")
    else if d == Down then Some("ArrowDown")
    else if d == Left then Some("ArrowLeft")
    else if d == Right then Some("ArrowRight")
    else None
  }

  /** The state after a key press: an arrow key overwrites the direction, any
      other key changes nothing. */
  function WithKey(s: State, key: string): (r: State)
    ensures r == s.(direction := r.direction)
    ensures r.direction != s.direction ==> ArrowDirection(key) == Some(r.direction)
    ensures ArrowDirection(key).Some? ==> r.direction == ArrowDirection(key).value
  {
    match ArrowDirection(key)
    case Some(d) => s.(direction := d)
    case None => s
  }

  /** Everything the game keeps true between ticks. The last conjunct holds
      because a one-segment snake has never eaten since the last reset, so it got
      where it is only by moves that passed the obstacle check. */
  predicate Inv(s: State) {
    && |s.snake| >= 1
    && s.score == |s.snake| - 1
    && (forall i :: 0 <= i < |s.snake| ==> InGrid(s.snake[i]))
    && InGrid(s.food)
    && IsDirection(s.direction)
    && (|s.snake| == 1 ==> !Contains(Obstacles, s.snake[0]))
  }

  lemma InitialInv(food: Position)
    requires InGrid(food)
    ensures Inv(Initial(food))
    ensures Initial(food).snake == [Position(10, 10)] && Initial(food).score == 0
    ensures Initial(food).direction == Position(0, 0) && !Initial(food).gameOver
  {
  }

  // ---------------------------------------------------------------------------
  // One tick

  /** A finished game does not change. */
  lemma StepWhenOver(s: State, newFood: Position)
    requires |s.snake| > 0 && s.gameOver
    ensures Step(s, newFood) == s
  {
  }

  /** Eating: the snake grows by its new head, the score rises by one, the food is
      replaced, and no wall, body or obstacle check is made. */
  lemma StepCapture(s: State, newFood: Position)
    requires |s.snake| > 0 && !s.gameOver
    requires Add(s.snake[0], s.direction) == s.food
    ensures var r := Step(s, newFood);
      && r.snake == [s.food] + s.snake
      && |r.snake| == |s.snake| + 1
      && r.score == s.score + 1
      && r.food == newFood
      && r.direction == s.direction
      && !r.gameOver
  {
  }

  /** The terminal check of a tick that does not eat, in both directions: the game
      ends exactly when the new head is off the grid, on a segment of the shifted
      snake other than its head, or on an obstacle; then the snake is the old one. */
  lemma StepTerminal(s: State, newFood: Position)
    requires |s.snake| > 0 && !s.gameOver
    requires Add(s.snake[0], s.direction) != s.food
    ensures var newHead := Add(s.snake[0], s.direction);
      var r := Step(s, newFood);
      r.gameOver <==>
        (|| !InGrid(newHead)
         || (exists i :: 1 <= i < |s.snake| && Shift(s.snake, newHead)[i] == newHead)
         || newHead in Obstacles)
    ensures Step(s, newFood).gameOver ==> Step(s, newFood) == s.(gameOver := true)
  {
  }

  /** A tick that neither eats nor collides moves the snake forward one cell:
      the new head in front, the last segment dropped, length, score and food kept. */
  lemma StepMove(s: State, newFood: Position)
    requires |s.snake| > 0 && !s.gameOver
    requires Add(s.snake[0], s.direction) != s.food
    requires !Collides(Add(s.snake[0], s.direction), Shift(s.snake, Add(s.snake[0], s.direction)))
    ensures var r := Step(s, newFood);
      && r.snake == [Add(s.snake[0], s.direction)] + s.snake[..|s.snake| - 1]
      && !r.gameOver
      && |r.snake| == |s.snake|
      && r.score == s.score
      && r.food == s.food
      && r.direction == s.direction
  {
  }

  /** A tick keeps the invariant, provided the respawn lies in the grid. */
  lemma StepPreservesInv(s: State, newFood: Position)
    requires Inv(s) && InGrid(newFood)
    ensures Inv(Step(s, newFood))
  {
  }

  // ---------------------------------------------------------------------------
  // Consequences of the rules that are easy to miss

  /** A one-segment snake that has not started moving stays where it is, as long as
      the food is not under its head. */
  lemma StillSingleSegmentIsNoop(s: State, newFood: Position)
    requires Inv(s) && |s.snake| == 1 && s.direction == Still
    requires s.snake[0] != s.food
    ensures Step(s, newFood) == s
  {
  }

  /** A snake that has not started moving eats food that lies under its head: it
      grows in place, so its first two segments are the same cell. */
  lemma StillOnFoodGrowsInPlace(s: State, newFood: Position)
    requires |s.snake| > 0 && !s.gameOver && s.direction == Still
    requires s.snake[0] == s.food
    ensures var r := Step(s, newFood);
      |r.snake| == |s.snake| + 1 && r.snake[0] == r.snake[1] && r.score == s.score + 1
  {
  }

  /** A longer snake that does not move collides with its own old head. */
  lemma StillLongSnakeDies(s: State, newFood: Position)
    requires |s.snake| >= 2 && !s.gameOver && s.direction == Still
    requires s.snake[0] != s.food
    ensures Step(s, newFood) == s.(gameOver := true)
  {
  }

  /** No reversal check: turning back into the neck ends the game of a snake of
      three or more segments. */
  lemma ReversalIntoNeckDies(s: State, newFood: Position)
    requires |s.snake| >= 3 && !s.gameOver
    requires Add(s.snake[0], s.direction) == s.snake[1] != s.food
    ensures Step(s, newFood) == s.(gameOver := true)
  {
  }

  /** The self check is made after the tail is dropped, so the head may move into
      the cell the tail leaves. */
  lemma TailChaseAllowed(s: State, newFood: Position)
    requires Inv(s) && !s.gameOver && |s.snake| >= 2
    requires Add(s.snake[0], s.direction) == s.snake[|s.snake| - 1] != s.food
    requires s.snake[|s.snake| - 1] !in s.snake[..|s.snake| - 1]
    requires s.snake[|s.snake| - 1] !in Obstacles
    ensures var r := Step(s, newFood);
      !r.gameOver && r.snake == [s.snake[|s.snake| - 1]] + s.snake[..|s.snake| - 1]
  {
  }

  /** A restart whose food lands on the centre: the snake eats in place on the
      first tick, and the second tick ends the game unless the respawn drawn on the
      first tick is the centre again. */
  lemma RestartFoodOnCentre(f1: Position, f2: Position)
    ensures RunTicks(Initial(Center), [f1, f2]).gameOver <==> f1 != Center
  {
    var s1 := Step(Initial(Center), f1);
    assert s1.snake == [Center, Center] && s1.food == f1;
    assert [f1, f2][1..] == [f2] && [f2][1..] == [];
    calc {
      RunTicks(Initial(Center), [f1, f2]);
      RunTicks(s1, [f2]);
      RunTicks(Step(s1, f2), []);
      Step(s1, f2);
    }
    if f1 != Center {
      assert Shift(s1.snake, Center)[1..] == [Center];
    }
  }

  /** A snake at the left wall that is heading left ends the game and stays put. */
  lemma LeftWallEndsGame(s: State, newFood: Position)
    requires Inv(s) && !s.gameOver
    requires s.snake[0].x == 0 && s.direction == Left
    ensures Step(s, newFood) == s.(gameOver := true)
  {
  }

  /** Food on an obstacle is eaten like any other food. */
  lemma FoodOnObstacleEaten()
    ensures var s := State([Position(4, 5)], Position(5, 5), Right, 0, false);
      Step(s, Position(0, 0)) == State([Position(5, 5), Position(4, 5)], Position(0, 0), Right, 1, false)
  {
  }

  /** Eating next to the centre from the start position. */
  lemma FoodCaptureExample()
    ensures var s := State([Position(10, 10)], Position(11, 10), Right, 0, false);
      Step(s, Position(3, 4)) == State([Position(11, 10), Position(10, 10)], Position(3, 4), Right, 1, false)
  {
  }

  /** A looped snake whose head moves onto its second segment ends the game. */
  lemma SelfCollisionExample()
    ensures var snake := [Position(5, 5), Position(5, 6), Position(5, 7), Position(6, 7), Position(6, 6), Position(6, 5)];
      var s := State(snake, Position(0, 0), Down, 5, false);
      Step(s, Position(1, 1)) == s.(gameOver := true)
  {
    var snake := [Position(5, 5), Position(5, 6), Position(5, 7), Position(6, 7), Position(6, 6), Position(6, 5)];
    assert Shift(snake, Position(5, 6))[1..][1] == Position(5, 6);
  }

  /** Moving onto an obstacle ends the game. */
  lemma ObstacleExample()
    ensures var s := State([Position(15, 14), Position(15, 13)], Position(0, 0), Down, 1, false);
      Step(s, Position(1, 1)) == s.(gameOver := true)
  {
  }

  // ---------------------------------------------------------------------------
  // Keys

  /** The four arrow keys and their directions are each other's inverse. */
  lemma ArrowKeyRoundTrip(key: string)
    requires ArrowDirection(key).Some?
    ensures ArrowKey(ArrowDirection(key).value) == Some(key)
  {
  }

  lemma ArrowDirectionRoundTrip(d: Position)
    requires ArrowKey(d).Some?
    ensures ArrowDirection(ArrowKey(d).value) == Some(d)
  {
  }

  /** A key press changes only the direction, with no reversal check, and keeps the
      invariant. */
  lemma WithKeyEffect(s: State, key: string)
    ensures ArrowDirection(key).Some? ==> WithKey(s, key) == s.(direction := ArrowDirection(key).value)
    ensures ArrowDirection(key).None? ==> WithKey(s, key) == s
    ensures Inv(s) ==> Inv(WithKey(s, key))
  {
  }

  // ---------------------------------------------------------------------------
  // Runs of the game loop

  /** The state after one tick per respawn in `foods`. */
  function RunTicks(s: State, foods: seq<Position>): (r: State)
    requires |s.snake| > 0
    ensures |r.snake| >= |s.snake|
    decreases |foods|
  {
    if foods == [] then s else RunTicks(Step(s, foods[0]), foods[1..])
  }

  predicate AllInGrid(foods: seq<Position>) {
    forall i :: 0 <= i < |foods| ==> InGrid(foods[i])
  }

  /** Any run of ticks with in-grid respawns keeps the invariant. */
  lemma {:induction false} RunTicksInv(s: State, foods: seq<Position>)
    requires Inv(s) && AllInGrid(foods)
    ensures Inv(RunTicks(s, foods))
    decreases |foods|
  {
    if foods != [] {
      StepPreservesInv(s, foods[0]);
      assert AllInGrid(foods[1..]) by {
        forall i | 0 <= i < |foods[1..]| ensures InGrid(foods[1..][i]) {
          assert foods[1..][i] == foods[i + 1];
        }
      }
      RunTicksInv(Step(s, foods[0]), foods[1..]);
    }
  }

  /** Once the game is over, no run of ticks changes anything. */
  lemma {:induction false} RunTicksWhenOver(s: State, foods: seq<Position>)
    requires |s.snake| > 0 && s.gameOver
    ensures RunTicks(s, foods) == s
    decreases |foods|
  {
    if foods != [] {
      RunTicksWhenOver(Step(s, foods[0]), foods[1..]);
    }
  }

  /** A one-segment snake that has not started moving stays put for any number of
      ticks, as long as the food is not under its head. */
  lemma {:induction false} RunTicksIdle(s: State, foods: seq<Position>)
    requires Inv(s) && |s.snake| == 1 && s.direction == Still && s.snake[0] != s.food
    ensures RunTicks(s, foods) == s
    decreases |foods|
  {
    if foods != [] {
      StillSingleSegmentIsNoop(s, foods[0]);
      RunTicksIdle(Step(s, foods[0]), foods[1..]);
    }
  }

  /** During a run of ticks the score and the length grow in lockstep. */
  lemma {:induction false} RunTicksLockstep(s: State, foods: seq<Position>)
    requires |s.snake| > 0
    ensures RunTicks(s, foods).score - s.score == |RunTicks(s, foods).snake| - |s.snake|
    ensures |RunTicks(s, foods).snake| <= |s.snake| + |foods|
    decreases |foods|
  {
    if foods != [] {
      RunTicksLockstep(Step(s, foods[0]), foods[1..]);
    }
  }

  // ---------------------------------------------------------------------------
  // Whole sessions: ticks, key presses and resets in any order

  datatype Event = TickEvent(newFood: Position) | KeyEvent(key: string) | ResetEvent(newFood: Position)

  function Apply(s: State, e: Event): State
    requires |s.snake| > 0
  {
    match e
    case TickEvent(f) => Step(s, f)
    case KeyEvent(k) => WithKey(s, k)
    case ResetEvent(f) => Initial(f)
  }

  predicate SpawnsInGrid(e: Event) {
    match e
    case TickEvent(f) => InGrid(f)
    case KeyEvent(_) => true
    case ResetEvent(f) => InGrid(f)
  }

  /** The state after a session, or None if the session ever reached a state with
      an empty snake (which the invariant rules out). */
  function Run(s: State, events: seq<Event>): Option<State>
    decreases |events|
  {
    if events == [] then Some(s)
    else if |s.snake| == 0 then None
    else Run(Apply(s, events[0]), events[1..])
  }

  /** Every session that starts from a fresh game and draws its respawns in the
      grid ends in a state with the invariant: a non-empty in-grid snake whose
      length is the score plus one. */
  lemma {:induction false} RunInv(s: State, events: seq<Event>)
    requires Inv(s)
    requires forall i :: 0 <= i < |events| ==> SpawnsInGrid(events[i])
    ensures Run(s, events).Some? && Inv(Run(s, events).value)
    decreases |events|
  {
    if events != [] {
      match events[0] {
        case TickEvent(f) => StepPreservesInv(s, f);
        case KeyEvent(k) => WithKeyEffect(s, k);
        case ResetEvent(f) => InitialInv(f);
      }
      var rest := events[1..];
      assert forall i :: 0 <= i < |rest| ==> SpawnsInGrid(rest[i]) by {
        forall i | 0 <= i < |rest| ensures SpawnsInGrid(rest[i]) {
          assert rest[i] == events[i + 1];
        }
      }
      RunInv(Apply(s, events[0]), rest);
    }
  }
}
