# Snake game state, modelled in Dafny

This project models the game logic of a browser Snake game (`Snakegame/snake.js`).
Drawing, sound and timers are left out. Four modules follow the program's structure:

- `Vectors` (`vector.dfy`): the immutable grid point `Vector`, with `Add`, `Mul` and `Equal`.
  Both coordinates default to 0.
- `Snakes` (`snake.dfy`): the `Snake` class.
  - Its fields are `body` (past head positions, oldest first), `head`, `speed` and `maxLength`.
  - Its operations are `Update`, `SetDirection` and `CheckBoundary`.
  - Three pure functions specify them. `Target` gives the step a direction name asks for.
    `Turned` gives the step after a direction request, with reversal refused.
    `Trimmed` gives the body after its oldest entries are cut to length.
- `Games` (`game.dfy`): the `Game` class.
  - Its fields are the snake, the food list and the `start` flag.
  - Its operations are the constructor, `StartGame`, `EndGame` and one timer `Tick`.
    A running tick is `Game.Step`: the snake moves, then the food pass (`EatFood`),
    then the collision pass (`CheckCollision`), then the edge test.
  - The score is `Score(maxLength) = (maxLength - 5) * 10`.
  - The food pass is specified by the recursive function `Feed`. It visits each index once,
    up to the length the list had when the pass began. An eaten entry is cut out, and a new
    food is appended at the next position from `spawns`. The visit then goes on at the next
    index, as a `forEach` over a list being spliced does.
- `Scenarios` (`scenarios.dfy`): whole rounds played through the classes' own methods.

Food positions are random in the game. Here the caller supplies them: `Tick` and `Game.Step` take a
sequence `spawns`, and the k-th food generated in a tick is placed at `spawns[k]`.

## Model

| member | source | states |
|---|---|---|
| Vectors.Vector.Add | Snakegame/snake.js:17-19 | the sum less the argument gives back the receiver, coordinate by coordinate; adding the origin changes nothing |
| Vectors.Vector.Mul | Snakegame/snake.js:37-39 | scaling by 1 is the identity, by 0 gives the origin, by -1 gives the additive inverse |
| Vectors.Vector.Equal | Snakegame/snake.js:30-32 | true exactly when the two points are the same value |
| Vectors.AddCancels | Snakegame/snake.js:17-19 | adding a step and then the step scaled by -1 returns to the starting point |
| Vectors.MulComposes | Snakegame/snake.js:37-39 | scaling by `a` and then by `b` is scaling by `a * b` |
| Vectors.MulDistributes | Snakegame/snake.js:37-39 | scaling a sum is the sum of the scaled vectors |
| Vectors.EqualIsEquivalence | Snakegame/snake.js:30-32 | `Equal` is reflexive, symmetric and transitive |
| Vectors.CardinalNegation | Snakegame/snake.js:73-75 | a unit cardinal step is not the origin; its negation is again cardinal and differs from it |
| Snakes.Target | Snakegame/snake.js:58-72 | a step exists exactly for "Up", "Right", "Left" and "Down"; each name maps to its unit vector (y grows downward), which is cardinal |
| Snakes.Turned | Snakegame/snake.js:56-76 | the result is the old step or the requested one; an unknown name keeps the step; a request that is not the exact reversal is taken; from a cardinal step the result is cardinal and never the reversal |
| Snakes.ReversalRefused | Snakegame/snake.js:73-75 | for a cardinal step and a known name, the step is kept iff the request is its reversal or itself, and it becomes the request iff the request is not the reversal |
| Snakes.Trimmed | Snakegame/snake.js:54 | the result has length min(len, maxLength) and is the suffix of the input of that length, element by element |
| Snakes.Snake.constructor | Snakegame/snake.js:43-50 | a new snake has an empty body, head at the origin, speed (1,0) and maxLength 5 |
| Snakes.Snake.Update | Snakegame/snake.js:51-55 | the new head is the old head plus speed; the body is old body ++ [old head] cut to its last maxLength entries; its length grows by one until it reaches maxLength; its last entry is the old head; the body stays within maxLength and speed stays cardinal |
| Snakes.Snake.SetDirection | Snakegame/snake.js:56-76 | the new speed is `Turned(old speed, arrow)`; `handled` is true exactly for the four known names; speed stays cardinal |
| Snakes.Snake.CheckBoundary | Snakegame/snake.js:77-81 | false exactly when a head coordinate is below 0 or at least the grid width |
| Games.Score | Snakegame/snake.js:115 | the score is non-negative exactly when maxLength is at least the initial length 5 |
| Games.ScoreGrowsByTen | Snakegame/snake.js:194 | every increment of maxLength adds 10 to the score |
| Games.Feed | Snakegame/snake.js:192-198 | the food pass leaves the list's length unchanged, leaves the entries before the current index alone, and eats at most one food per remaining index |
| Games.FeedEatsIff | Snakegame/snake.js:192-198 | nothing is eaten iff no remaining food is at the head, and then the list is unchanged |
| Games.FeedConservesFood | Snakegame/snake.js:192-198 | as multisets, the new list plus one head copy per food eaten equals the old list plus the spawn positions used |
| Games.FeedConserves | Snakegame/snake.js:192-198 | the multiset balance above holds for the rest of the pass from any index |
| Games.FeedSingle | Snakegame/snake.js:192-198 | with one food, it is eaten and replaced by the first spawn position iff it is at the head, and otherwise nothing changes |
| Games.FeedSkipsDuplicate | Snakegame/snake.js:192-198 | of two foods both at the head, only the first is eaten: the second shifts into the freed index, which the pass has already visited |
| Games.Game.constructor | Snakegame/snake.js:84-94 | a new game is stopped, with a fresh initial snake and exactly one food |
| Games.Game.StartGame | Snakegame/snake.js:105-111 | the round runs, the snake is a fresh initial snake, and the food is unchanged |
| Games.Game.EndGame | Snakegame/snake.js:113-116 | the round is stopped and the game stays valid |
| Games.Game.Tick | Snakegame/snake.js:188-219 | a stopped game is left entirely unchanged. In a running game, the snake moves as `Update` states and the speed is kept. Food and maxLength follow `Feed`: each food eaten adds one to maxLength. The round goes on iff the new head is off the body and on the grid |
| Games.Game.Step | Snakegame/snake.js:189-215 | the running branch of a tick, with the same promises as `Tick` for a running game |
| Games.Game.EatFood | Snakegame/snake.js:192-198 | the index loop leaves the food list and the eaten count that `Feed` gives, and raises maxLength by the count |
| Games.Game.CheckCollision | Snakegame/snake.js:199-206 | after the loop, the round is running iff it was running and the head lies on no body cell |
| Scenarios.StraightRun | Snakegame/snake.js:207-208 | from a new round with no turns and the food off row 0, the game ends on exactly the 26th tick (head at column 26), with score 0 |
| Scenarios.TurnBackIgnored | Snakegame/snake.js:73-75 | a new snake moving right keeps speed (1,0) when asked to go "Left" |

## Left out

- Canvas rendering (`init`'s canvas setup, `render`, `drawBlock`, `drawEffect`, `getPosition`) is presentational only.
- Sound (`playSound` and its synthesiser) is a foreign library behind a timer.
- The 150 ms self-rescheduling timer and the keydown listener are host scheduling. The model offers single `Tick` and `SetDirection` calls instead.
- Random food placement is replaced by the caller-supplied `spawns` sequence.
  `Tick` requires at least as many spawn positions as there are foods, since a tick eats at most that many.
- The "Game Over" and score texts written to the page, and the console message logged on a collision, are left out. The score is only the integer `Score`.
- `Vector.length` is not modelled. It takes a floating-point square root, passes a second argument that `Math.sqrt` ignores, and is never called.
- The `direction` field and the fallbacks read from the snake's `options` are not modelled.
  The game never passes options, so the speed magnitude is always 1 (`StepSize`).
  The rendering-only `bw` and `bs` fields and the unused `speed` field of the game are left out too.
- Snakes.Snake.SetDirection: for a name other than the four directions, the source dereferences an undefined `target` and throws.
  The model returns `handled` false and leaves `speed` as it is.
- Games.Game.CheckCollision: the source calls `endGame` once for each body cell the head lies on. The model calls `EndGame` on every match as well, but its contract states only the final flag.
  `endGame` only clears the flag and rewrites the score text, so repeating it changes nothing in the modelled state.
- Games.Game.constructor: the source's `init` runs one `update` before `start` is assigned. That tick is a no-op because the flag is still unset, so the model omits it.
- JavaScript's negative zero is not modelled. `mul(-1)` on a 0 coordinate yields -0, and `===` treats it as equal to 0, so comparisons are unaffected.
- A self-collision round is not written out as a scenario. `Tick` states the collision rule for every running tick.
- The food-pass skip shown by `FeedSkipsDuplicate` only matters with two or more foods. Every reachable game holds exactly one food (`Game.Valid`), so the skip never affects a reachable game.
