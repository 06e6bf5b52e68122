/** The game component: mutable state cells updated by the tick of the game
    loop, the arrow-key handler and the restart action, each proved against
    the rules in SnakeRules. */
module SnakeGame {
  import opened SnakeRules

  class Game {
    var snake: seq<Position>
    var food: Position
    var direction: Position
    var score: int
    var gameOver: bool
    const obstacles: seq<Position>
    const gridSize: int

    /** The current state as a value. */
    function Snapshot(): State
      reads this
    {
      State(snake, food, direction, score, gameOver)
    }

    ghost predicate Valid()
      reads this
    {
      obstacles == Obstacles && gridSize == GridSize && Inv(Snapshot())
    }

    /** A fresh game; `initialFood` is the first food spawn. */
    constructor (initialFood: Position)
      requires InGrid(initialFood)
      ensures Valid() && Snapshot() == Initial(initialFood)
    {
      gridSize := 20;
      snake := [Position(10, 10)];
      food := initialFood;
      direction := Position(0, 0);
      score := 0;
      gameOver := false;
      obstacles := [Position(5, 5), Position(15, 15)];
      InitialInv(initialFood);
    }

    /** One tick of the game loop. `newFood` is the respawn drawn on this tick. */
    method Tick(newFood: Position)
      requires Valid() && InGrid(newFood)
      modifies this
      ensures Valid()
      ensures Snapshot() == Step(old(Snapshot()), newFood)
      ensures |old(snake)| <= |snake| && score == |snake| - 1
      ensures old(gameOver) ==> Snapshot() == old(Snapshot())
    {
      StepPreservesInv(Snapshot(), newFood);
      if gameOver {
        return;
      }
      var newHead := Position(snake[0].x + direction.x, snake[0].y + direction.y);
      if newHead.x == food.x && newHead.y == food.y {
        food := newFood;
        score := score + 1;
        snake := [newHead] + snake;
        return;
      }
      var newSnake := [newHead] + snake[..|snake| - 1];
      if || newHead.x < 0
         || newHead.x >= gridSize
         || newHead.y < 0
         || newHead.y >= gridSize
         || Contains(newSnake[1..], newHead)
         || Contains(obstacles, newHead)
      {
        gameOver := true;
        return;
      }
      snake := newSnake;
    }

    /** The key handler: an arrow key overwrites the direction, any other key is
        ignored; nothing else changes. */
    method KeyDown(key: string)
      requires Valid()
      modifies this`direction
      ensures Valid()
      ensures Snapshot() == WithKey(old(Snapshot()), key)
    {
      WithKeyEffect(Snapshot(), key);
      if key == "ArrowUp" {
        direction := Position(0, -1);
      } else if key == "ArrowDown" {
        direction := Position(0, 1);
      } else if key == "ArrowLeft" {
        direction := Position(-1, 0);
      } else if key == "ArrowRight" {
        direction := Position(1, 0);
      }
    }

    /** The restart action; `newFood` is the fresh food spawn. The obstacles stay. */
    method Reset(newFood: Position)
      requires Valid() && InGrid(newFood)
      modifies this
      ensures Valid() && Snapshot() == Initial(newFood)
      ensures snake == [Position(10, 10)] && direction == Position(0, 0)
      ensures score == 0 && !gameOver && food == newFood
      ensures obstacles == [Position(5, 5), Position(15, 15)]
    {
      snake := [Position(10, 10)];
      food := newFood;
      direction := Position(0, 0);
      score := 0;
      gameOver := false;
      InitialInv(newFood);
    }
  }

  /** A client: a fresh game idles until an arrow key is pressed, then moves. */
  method StartAndMove()
  {
    var g := new Game(Position(12, 10));
    StillSingleSegmentIsNoop(g.Snapshot(), Position(0, 0));
    g.Tick(Position(0, 0));
    assert g.Snapshot() == Initial(Position(12, 10));
    g.KeyDown("ArrowRight");
    assert g.Snapshot() == State([Position(10, 10)], Position(12, 10), Position(1, 0), 0, false);
    StepMove(g.Snapshot(), Position(0, 0));
    g.Tick(Position(0, 0));
    assert g.Snapshot() == State([Position(11, 10)], Position(12, 10), Position(1, 0), 0, false);
  }

  /** A client: a game next to the food eats it, ignores a key that is not an
      arrow, and restarts. */
  method EatAndRestart()
  {
    var g := new Game(Position(11, 10));
    g.KeyDown("ArrowRight");
    StepCapture(g.Snapshot(), Position(3, 3));
    g.Tick(Position(3, 3));
    assert g.Snapshot() == State([Position(11, 10), Position(10, 10)], Position(3, 3), Position(1, 0), 1, false);
    g.KeyDown("Escape");
    assert g.direction == Position(1, 0);
    g.Reset(Position(1, 2));
    assert g.Snapshot() == Initial(Position(1, 2));
  }
}
