# Snake game core in Dafny

A model of the game engine of a browser Snake game (`src/GameArea.tsx`). The
snake is a list of grid cells, head first, on a 20×20 grid that also holds two
fixed obstacles at (5,5) and (15,15). On each tick of the game loop the game
works out a new head from the current direction. If the new head is the food, the
snake grows, the score goes up by one and the food respawns. Otherwise the snake
moves forward and the terminal check runs: the game ends if the head has left the
grid, hit the body or hit an obstacle. When the game ends, the pre-tick snake is
kept. The arrow keys set the direction. The restart action puts the snake back
at the centre.

Two files:

- `snake_rules.dfy`: module `SnakeRules`, the rules on values. It holds
  `Position`, the game `State`, one tick (`Step`), the key mapping
  (`ArrowDirection`, its inverse `ArrowKey`, `WithKey`), the start and reset
  state (`Initial`), and the invariant `Inv`. It also holds the lemmas about
  single ticks, runs of ticks (`RunTicks`) and whole sessions of ticks, key
  presses and resets (`Run`).
- `snake_game.dfy`: module `SnakeGame`, the mutable component. Class `Game` has
  the fields `snake`, `food`, `direction`, `score` and `gameOver`, plus the
  fixed `obstacles` and `gridSize`. Its methods `Tick`, `KeyDown` and `Reset`
  mirror the source's statements. Each one is proved to leave exactly the state
  that `SnakeRules` names (`Step`, `WithKey`, `Initial`) and to keep `Inv`.

The random food spawn becomes an argument (`newFood`) of `Tick`, `Reset` and the
constructor. Its precondition `InGrid(newFood)` is the spawn range
`[0, 20) × [0, 20)` of `getRandomPosition`. The game loop runs only while the game
is not over, so a tick on a finished game is modelled as a no-op.

## Model

| member | source | states |
|---|---|---|
| SnakeRules.Contains | src/GameArea.tsx:55-62 | the `some` scan is true exactly when the cell occurs in the list |
| SnakeRules.Shift | src/GameArea.tsx:48 | the non-eating move keeps the length, puts the new head first and moves every other segment to its predecessor's old cell |
| SnakeRules.Step | src/GameArea.tsx:33-70 | a tick never shortens the snake and lengthens it by at most one; score minus length is unchanged; the direction is not touched |
| SnakeRules.ArrowDirection | src/GameArea.tsx:80-95 | a key selects a direction if and only if it is one of the four arrow keys: ArrowUp selects (0,-1), ArrowDown (0,1), ArrowLeft (-1,0), ArrowRight (1,0) |
| SnakeRules.ArrowKey | src/GameArea.tsx:80-95 | exactly the four non-zero unit vectors are selected by some arrow key |
| SnakeRules.ArrowKeyRoundTrip | src/GameArea.tsx:80-95 | for each arrow key, the key of its direction is the key itself |
| SnakeRules.ArrowDirectionRoundTrip | src/GameArea.tsx:80-95 | for each unit direction, the direction of its key is the direction itself |
| SnakeRules.WithKey | src/GameArea.tsx:80-95 | a key press changes nothing but the direction; the direction changes only to the vector of an arrow key, and an arrow key always sets its vector |
| SnakeRules.WithKeyEffect | src/GameArea.tsx:80-95 | an arrow key overwrites the direction whatever it was (no reversal check); other keys change nothing; the invariant is kept |
| SnakeRules.Initial | src/GameArea.tsx:22-26 | the start and reset state is a one-segment snake with score 0, not over, with the given food, and satisfies the invariant when that food is in the grid |
| SnakeRules.InitialInv | src/GameArea.tsx:21-30 | the start state is the snake [(10,10)], direction (0,0), score 0, not over, and satisfies the invariant when the food is in the grid |
| SnakeRules.Collides | src/GameArea.tsx:50-63 | the terminal check holds exactly when the new head is off the grid, on a segment of the shifted snake after its head, or on an obstacle |
| SnakeRules.StepWhenOver | src/GameArea.tsx:33 | a finished game does not change on a tick |
| SnakeRules.StepCapture | src/GameArea.tsx:42-46 | eating: the snake becomes the new head followed by the whole old snake, the score rises by exactly 1, the food becomes the respawn, the game does not end, and no wall, body or obstacle check is applied |
| SnakeRules.StepTerminal | src/GameArea.tsx:48-66 | without eating, the game ends if and only if the new head is off the grid, equals a segment at index 1 or later of the shifted snake, or equals an obstacle; when it ends, the snake, score and food are the pre-tick ones |
| SnakeRules.StepMove | src/GameArea.tsx:48-68 | a tick without eating or collision gives the new head followed by the old snake without its last segment; the game goes on, and the length, score and food are unchanged |
| SnakeRules.StepPreservesInv | src/GameArea.tsx:13-70 | a tick with an in-grid respawn keeps the invariant: a non-empty snake, score equal to length minus one, every segment and the food in the grid, a valid direction, and a one-segment snake off the obstacles |
| SnakeRules.StillSingleSegmentIsNoop | src/GameArea.tsx:37-40 | a one-segment snake with direction (0,0) and no food under its head is left exactly as it was by a tick |
| SnakeRules.StillOnFoodGrowsInPlace | src/GameArea.tsx:37-46 | with direction (0,0) and the food under the head, the snake grows in place: its first two segments are the same cell |
| SnakeRules.StillLongSnakeDies | src/GameArea.tsx:48-66 | a snake of two or more segments with direction (0,0) and no food under its head collides with its own old head and the game ends |
| SnakeRules.ReversalIntoNeckDies | src/GameArea.tsx:48-66 | a snake of three or more segments turning back onto its second segment (not food) ends the game with the snake unchanged |
| SnakeRules.TailChaseAllowed | src/GameArea.tsx:48-68 | the self check runs after the tail is dropped, so moving into the cell the tail leaves is a legal move |
| SnakeRules.RestartFoodOnCentre | src/GameArea.tsx:37-66 | after a restart with the food on (10,10), the second tick ends the game if and only if the first tick's respawn is not (10,10) |
| SnakeRules.LeftWallEndsGame | src/GameArea.tsx:50-54 | a snake at x = 0 heading left ends the game and keeps its pre-tick snake |
| SnakeRules.FoodOnObstacleEaten | src/GameArea.tsx:42-46 | food lying on an obstacle is eaten and the game goes on |
| SnakeRules.FoodCaptureExample | src/GameArea.tsx:42-46 | from [(10,10)] heading right with the food at (11,10) the snake becomes [(11,10),(10,10)] with score 1 and the new food |
| SnakeRules.SelfCollisionExample | src/GameArea.tsx:55-59 | a looped snake whose head moves onto its second segment ends the game unchanged |
| SnakeRules.ObstacleExample | src/GameArea.tsx:60-62 | moving onto the obstacle (15,15) ends the game unchanged |
| SnakeRules.RunTicks | src/GameArea.tsx:72 | over any number of ticks of the game loop the snake never gets shorter |
| SnakeRules.RunTicksInv | src/GameArea.tsx:32-77 | every run of ticks with in-grid respawns keeps the invariant |
| SnakeRules.RunTicksWhenOver | src/GameArea.tsx:33 | once the game is over, no run of ticks changes anything |
| SnakeRules.RunTicksIdle | src/GameArea.tsx:37-40 | a one-segment snake that has not started moving, with no food under its head, stays put for any number of ticks |
| SnakeRules.RunTicksLockstep | src/GameArea.tsx:44-45 | over a run of ticks the score rises by exactly as much as the length, and the length rises by at most one per tick |
| SnakeRules.RunInv | src/GameArea.tsx:35-110 | any session of ticks, key presses and restarts with in-grid spawns keeps the invariant, so score equals snake length minus one throughout |
| SnakeGame.Game.constructor | src/GameArea.tsx:21-30 | a new game is the start state with the given first food and satisfies the invariant |
| SnakeGame.Game.Tick | src/GameArea.tsx:35-70 | the new state is `Step` of the old state and the respawn; the invariant is kept; the snake does not shorten; a finished game is unchanged |
| SnakeGame.Game.KeyDown | src/GameArea.tsx:80-95 | the new state is `WithKey` of the old state: only the direction changes, and only for an arrow key |
| SnakeGame.Game.Reset | src/GameArea.tsx:104-110 | the snake is [(10,10)], the direction (0,0), the score 0, the game not over, the food the given respawn; the obstacles are still the two fixed ones |

## Behaviour worth knowing

Together the lemmas show some consequences of the code that are easy to
misread:

- A game with direction (0,0) is idle only while the snake has one segment and
  the food is not under its head (`StillSingleSegmentIsNoop`, `RunTicksIdle`). If
  the food spawns on the head, the snake eats it without moving
  (`StillOnFoodGrowsInPlace`). On the next tick a snake that still has direction
  (0,0) collides with its own old head (`StillLongSnakeDies`). So a restart whose
  food lands on (10,10) ends on the second tick with no key pressed, unless the
  respawn drawn on the first tick is (10,10) again, in which case the snake eats
  in place once more (`RestartFoodOnCentre`).
- The snake's cells need not be distinct. Eating food that lies on the body, or
  eating in place as above, puts two segments on one cell.
- Eating never ends the game, even when the food lies on an obstacle or on the
  body (`StepCapture`, `FoodOnObstacleEaten`).

## Left out

- Rendering: the JSX, cell layout and `getHeadSegmentStyle` (`src/GameArea.tsx:112-201`) are presentation only.
- `src/App.tsx`: the colour picker, the difficulty selector and the `blur` call are UI glue. The speed only sets the timer period.
- Timer plumbing: `setInterval`, `clearInterval` and the effect re-subscription (`src/GameArea.tsx:32-33`, `72-77`). Each tick is one atomic call that sees the current food and direction.
- Keyboard event wiring: `document.addEventListener` and its removal (`src/GameArea.tsx:97-101`). Only the key-to-direction mapping is modelled.
- Randomness: `Math.random` and `Math.floor` in `getRandomPosition` (`src/GameArea.tsx:13-18`). The spawn is a caller-supplied position in `[0, 20) × [0, 20)`.
- React state batching: the `setFood`, `setScore` and `setGameOver` calls inside the `setSnake` updater are modelled as sequential field updates within one tick.
- Number representation: JavaScript numbers are doubles. All coordinates here are small integers, so they are modelled as unbounded `int`.
