# GaneshTheDestroyer move chooser in Dafny

This project models the decision core of the GaneshTheDestroyer Battlesnake
controller. Each turn the game server posts the board to the controller, and
the controller answers with one of "up", "down", "left" or "right". The
modelled core has two parts.

- `Points` (`points.dfy`) covers the `Point` value type of `Starter.Core`. It is
  a pair of C# `int` coordinates with structural `Equals` and the hash
  `(X << 2) ^ Y`. C#'s `int` is the newtype `int32`. Unchecked wrap-around is
  written out in `Wrap`, and the hash is computed on `bv32` bit patterns.
- `SnakeController` (`snake_controller.dfy`) covers the controller's
  `GetOpenNeighbors` and `Move`.
  - `GetOpenNeighbors` is a method with the source's four guarded appends. It
    is proved equal to the function `OpenNeighbors`, which filters the steps
    up, down, left, right in that fixed order.
  - `Move` is a method with the source's four candidate blocks. It is proved
    to answer the first direction, in the order up, down, left, right, with the
    largest `Gain`. `Gain` is the open-neighbour count of a free candidate cell
    that passes its direction's bounds test, and 0 for a blocked cell. "up" is the default.
  - The occupied `HashSet<Point>` is a Dafny `set<Point>`. This is sound because
    `Points.Equals` coincides with value equality, and
    `Points.HashRespectsEquals` holds.

The controller looks one step ahead and ranks the cells around the head by
their open-neighbour count. It has no flood fill, path search or head-to-head
logic, and neither does the model.

## Model

| member | source | states |
|---|---|---|
| Points.Wrap | Starter.Api/Controllers/SnakeController.cs:48-51 | The result of unchecked `int` arithmetic is congruent to the exact value modulo 2^32, and equal to it when that value is in range. |
| Points.Add | Starter.Api/Controllers/SnakeController.cs:48-51 | `a + k` in unchecked arithmetic is congruent to the exact sum modulo 2^32, and equal to it when the sum is in range. |
| Points.GetHashCode | Starter.Core/Point.cs:29-32 | The two's-complement bit pattern of the hash is the pattern of `X` shifted left by two, xor the pattern of `Y`. |
| Points.ConstructorSetsFields | Starter.Core/Point.cs:10-14 | `new Point(x, y)` has `X == x` and `Y == y`. |
| Points.Equals | Starter.Core/Point.cs:16-27 | `Equals` holds exactly when the argument is a point with the same value. It is false for null and for objects of another run-time type. |
| Points.EqualsIffSameCoordinates | Starter.Core/Point.cs:23-26 | For a point argument, `Equals` holds if and only if both coordinates match. |
| Points.EqualsRejectsNonPoints | Starter.Core/Point.cs:19-22 | `Equals(null)` and `Equals` of a non-`Point` object are false. |
| Points.EqualsIsEquivalence | Starter.Core/Point.cs:16-27 | `Equals` is reflexive, symmetric and transitive on points. |
| Points.BitsRoundTrip | Starter.Core/Point.cs:29-32 | Reading a 32-bit pattern as an `int` and converting it back gives the same pattern. |
| Points.HashRespectsEquals | Starter.Core/Point.cs:29-32 | Points that are `Equals` have the same `GetHashCode`. |
| Points.HashDependsOnCoordinatesOnly | Starter.Core/Point.cs:29-32 | The hash is determined by `X` and `Y` alone. |
| Points.HashCollides | Starter.Core/Point.cs:29-32 | The hash is not injective: `(1,0)` and `(0,4)` both hash to 4, yet they are not `Equals`. |
| SnakeController.Rank | Starter.Api/Controllers/SnakeController.cs:52-59 | Each direction has a unique position in the order up, down, left, right. |
| SnakeController.Name | Starter.Api/Controllers/SnakeController.cs:85-112 | Each direction answers with one of the tokens "up", "down", "left" or "right". |
| SnakeController.Step | Starter.Api/Controllers/SnakeController.cs:48-51 | A step moves `Y` by +1 (up) or -1 (down), or `X` by -1 (left) or +1 (right), modulo 2^32. The other coordinate is unchanged. |
| SnakeController.WithinOwnBound | Starter.Api/Controllers/SnakeController.cs:52-58 | The one-sided bounds test of each direction. Every cell on the board passes it. |
| SnakeController.Passable | Starter.Api/Controllers/SnakeController.cs:52-58 | A passable step is not occupied. An unoccupied step that is on the board is passable. |
| SnakeController.Occupied | Starter.Api/Controllers/SnakeController.cs:72 | A cell is occupied exactly when it is in the body of some snake on the board. |
| SnakeController.OpenDirectionsMembers | Starter.Api/Controllers/SnakeController.cs:52-59 | The filter keeps exactly the directions whose step passes its bounds test and is not occupied. |
| SnakeController.OpenDirectionsIncreasing | Starter.Api/Controllers/SnakeController.cs:52-59 | The filter keeps the order of the directions it is given. |
| SnakeController.OpenDirectionsDropsBlocked | Starter.Api/Controllers/SnakeController.cs:52-59 | A blocked direction is dropped, so the result is strictly shorter than the input. |
| SnakeController.OpenNeighbors | Starter.Api/Controllers/SnakeController.cs:45-62 | There are at most four open neighbours. |
| SnakeController.GetOpenNeighbors | Starter.Api/Controllers/SnakeController.cs:45-62 | The four guarded appends build exactly the passable steps, in the order up, down, left, right. |
| SnakeController.NeighborsAreThePassableSteps | Starter.Api/Controllers/SnakeController.cs:48-59 | A step is returned if and only if it passes its one-sided bounds test and is not occupied. Every returned cell is such a step. |
| SnakeController.NeighborsAreFree | Starter.Api/Controllers/SnakeController.cs:52-59 | No returned neighbour is occupied. |
| SnakeController.NeighborsInOrder | Starter.Api/Controllers/SnakeController.cs:52-59 | Neighbours appear in the order up, down, left, right, and no cell appears twice. |
| SnakeController.StepInjective | Starter.Api/Controllers/SnakeController.cs:48-51 | The four neighbour cells are pairwise different, even with wrap-around. |
| SnakeController.DirectionToStep | Starter.Api/Controllers/SnakeController.cs:48-51 | Recovering the direction from a step's cell gives back that step's direction. |
| SnakeController.StepIsAdjacent | Starter.Api/Controllers/SnakeController.cs:48-51 | Away from the ends of the `int` range, each neighbour cell is one cardinal step away. |
| SnakeController.StepBack | Starter.Api/Controllers/SnakeController.cs:48-51 | The opposite step returns to the start, at the ends of the `int` range too, because unchecked arithmetic is modular. |
| SnakeController.NeighborsAreAdjacent | Starter.Api/Controllers/SnakeController.cs:48-59 | Away from the ends of the `int` range, every returned neighbour is one cardinal step away. |
| SnakeController.NeighborsStayOnBoard | Starter.Api/Controllers/SnakeController.cs:52-59 | From a cell on the board, every returned neighbour is on the board. |
| SnakeController.OneSidedBoundsCheck | Starter.Api/Controllers/SnakeController.cs:52-53 | Each direction checks only its own edge. From `(-5,0)` on a 3×3 board, the off-board cell `(-5,1)` is returned. |
| SnakeController.UpWrapsAtTopOfRange | Starter.Api/Controllers/SnakeController.cs:48-53 | `Y + 1` wraps at `int.MaxValue`. The "up" neighbour `(0, int.MinValue)` is returned although it is not adjacent. |
| SnakeController.OpenNeighborsCount | Starter.Api/Controllers/SnakeController.cs:52-61 | The neighbour count equals the number of passable directions. |
| SnakeController.Gain | Starter.Api/Controllers/SnakeController.cs:80-86 | A candidate's gain is at most 4. |
| SnakeController.GainIn | Starter.Api/Controllers/SnakeController.cs:80-86 | A candidate's gain against a given occupied set is at most 4. |
| SnakeController.Gains | Starter.Api/Controllers/SnakeController.cs:80-115 | There is one gain per candidate direction. |
| SnakeController.FirstMaxStep | Starter.Api/Controllers/SnakeController.cs:83-87 | Strictly improving on the maximum so far keeps the choice the first arg-max of the candidates seen. |
| SnakeController.FirstMaxIsFirstBest | Starter.Api/Controllers/SnakeController.cs:79-115 | The first arg-max over all four candidates, starting from "up" and 0, is the first best direction. |
| SnakeController.NameInjective | Starter.Api/Controllers/SnakeController.cs:85-112 | Different directions have different move tokens. |
| SnakeController.Move | Starter.Api/Controllers/SnakeController.cs:70-123 | The answer is a move token. It is the first direction in the order up, down, left, right with the largest gain. It is "up" when no candidate gains. Otherwise it is a free cell that passes its direction's bounds test and has at least one open neighbour. |
| SnakeController.FirstBestIsChosenCandidate | Starter.Api/Controllers/SnakeController.cs:73-115 | The chosen direction is "up" when no candidate gains, and otherwise a passable cell with open neighbours. |
| SnakeController.PassableStaysOnBoard | Starter.Api/Controllers/SnakeController.cs:80-115 | From a head on the board, a candidate that passes its bounds test is on the board. |
| SnakeController.FirstBestUnique | Starter.Api/Controllers/SnakeController.cs:79-115 | At most one direction is first best, so `Move`'s contract fixes its answer. |
| SnakeController.GainAtMostThreeWhenHeadOccupied | Starter.Api/Controllers/SnakeController.cs:72-115 | When the head is among the occupied cells, no candidate counts more than 3 open neighbours. |
| SnakeController.UpIsFirstBest | Starter.Api/Controllers/SnakeController.cs:73-88 | "up" wins whenever no other candidate has a larger gain. Ties go to the earlier direction. |
| SnakeController.WorkedTurnOccupied | Starter.Api/Controllers/SnakeController.cs:72 | On the worked 7×7 turn, the occupied set is the five body cells. |
| SnakeController.WorkedUpCount | Starter.Api/Controllers/SnakeController.cs:45-62 | On the worked turn, the up candidate `(3,4)` has 3 open neighbours. |
| SnakeController.WorkedLeftCount | Starter.Api/Controllers/SnakeController.cs:45-62 | On the worked turn, the left candidate `(2,3)` has 3 open neighbours. |
| SnakeController.WorkedRightCount | Starter.Api/Controllers/SnakeController.cs:45-62 | On the worked turn, the right candidate `(4,3)` has 2 open neighbours. |
| SnakeController.WorkedTurnGains | Starter.Api/Controllers/SnakeController.cs:80-115 | On the worked turn, the gains are 3 (up), 0 (down, own body), 3 (left) and 2 (right). |
| SnakeController.WorkedTurnChoosesUp | Starter.Api/Controllers/SnakeController.cs:80-115 | On the worked turn, up and left tie, and "up" is the first best answer. |

## Left out

- The endpoints `Index`, `Start` and `End` are not modelled. They return fixed responses or nothing. `InitResponse` and the HTTP routing attributes are also left out.
- Move: the `MoveResponse` wrapper and its constant `Shout` text are left out. `Ok(...)` is left out too. The method returns the move token only.
- `Point.ToString` and the public setters of `X` and `Y` are left out. Points are immutable values in the model.
- The `GetType` test in `Points.Equals` is replaced by the `Object` datatype. It distinguishes null, a `Point`, and an object of another run-time type. Subclasses of `Point` are not modelled.
- The request fields beyond board height, width and snake bodies, and the mover's head, are left out. These include game id, turn, food, health, names and the mover's own body. The core does not read them.
- Null request fields (`Board`, `Snakes`, a snake's `Body`, `You`, `Head`) make the source throw at `SnakeController.cs` lines 72-75. The model's datatypes cannot hold null, so they exclude these inputs.
- `HashSet<Point>` is a mathematical set. Its bucket layout and its iteration order are not modelled, and the core never iterates it.
- SnakeController.NeighborsAreAdjacent: this is stated only away from the ends of the `int` range. At the ends, unchecked arithmetic wraps, as `SnakeController.UpWrapsAtTopOfRange` shows.
