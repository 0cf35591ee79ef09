# Snake game core in Dafny

This project models the simulation core of a small Kivy snake game (`snake/main.py`).

- **Occupancy grid.** A `g_width × g_height` table of 0/1 marks derived from the window size and the cell side.
- **Coordinate conversion.** Cells are converted to the flat pixel list `points` and back.
- **Snake.** `move` steps the head, checks the board and the grid, marks the new head, frees the tail and shifts `points`. `reset` places a vertical three-cell snake at the centre. `getTail`/`getHead` read the last and first pixel pair.
- **Direction arithmetic.** This is the key handler's left/right turns modulo 4.
- **Tick.** `SnakeGame.update` records the tail, moves, stops the timer on a collision and, when the head is on the food, grows the snake and places new food.

Files and modules:

- `coords.dfy` (`Coords`) holds Python's floor division and `grid_to_point`/`point_to_grid` as pure functions. It also has the round trip between them and the encoding of a cell sequence as a flat pixel list.
- `grid.dfy` (`Grids`) holds the class `Grid`. Its table is a field of type `seq<seq<int>>` that `occupy`, `unoccupy` and `reset` reassign.
- `snake.dfy` (`Snakes`) holds the class `Snake`.
  - Its fields are `head`, `points` and `direction`, plus a ghost `body`: the cells `points` encodes, head first.
  - `Valid()` ties `points` to `body`.
  - `Consistent(g)` says the grid marks exactly the body's cells and that these are distinct. This is the invariant the grid exists for: a cell is 1 exactly when a body cell covers it.
- `game.dfy` (`Games`) holds the key arithmetic, the food, and the class `SnakeGame`. A `running` flag stands in for the timer.

## Model

| member | source | states |
|---|---|---|
| Coords.FloorDivIsFloor | snake/main.py:43-44 | The modelled `//` is the floor of the quotient for either sign of divisor. |
| Coords.GridToPoint | snake/main.py:47-48 | `grid_to_point` yields one pixel per input, and entry i is ((x_i * w) + 15) * 2. |
| Coords.PointToGrid | snake/main.py:43-44 | `point_to_grid` yields one cell coordinate per pixel, and entry i is (x_i − 15) // w // 2 with floor division. |
| Coords.RoundTripOne | snake/main.py:43-48 | For cell width at least 8, one coordinate converted to pixels and back is itself. |
| Coords.RoundTrip | snake/main.py:43-48 | For cell width at least 8, `point_to_grid(grid_to_point(c, w), w) == c` for every integer list. |
| Coords.RoundTripNeedsWidth | snake/main.py:43-48 | The bound is tight: for any nonzero width below 8, `[0]` does not survive the round trip. |
| Coords.FloorDivExact | snake/main.py:43-44 | The modelled `//` undoes multiplication by a divisor of either sign. |
| Coords.PointToGridCorrected | snake/main.py:43-44 | A decoding that halves first, then subtracts 15 and divides by w, applied entry by entry. |
| Coords.RoundTripCorrectedOne | snake/main.py:43-48 | The corrected decoding recovers any coordinate for every nonzero width. |
| Coords.RoundTripCorrected | snake/main.py:43-48 | The corrected decoding undoes `grid_to_point` on every list, for every nonzero width. |
| Coords.DecodingsAgree | snake/main.py:81 | For width at least 8 both decodings give the same cells on encoded pixels. |
| Coords.GridToPointAppend | snake/main.py:47-48 | Pixel conversion distributes over concatenation. |
| Coords.Flatten | snake/main.py:91-94 | The flat `[x0, y0, x1, y1, ...]` list holds two entries per cell. |
| Coords.FlattenAppend | snake/main.py:91-94 | Flattening distributes over concatenation. |
| Coords.Encode | snake/main.py:95 | The encoded pixel list of a body holds two entries per cell. |
| Coords.EncodeAppend | snake/main.py:142 | Encoding distributes over concatenation, which is why `points += tail` appends one cell. |
| Coords.DecodeOne | snake/main.py:81 | The pixel pair of one cell decodes back to that cell. |
| Coords.EncodeSplitLast | snake/main.py:83 | The last pair of an encoded body is the last cell's, and the rest encodes the other cells. |
| Coords.EncodeSplitFirst | snake/main.py:101 | The first pair of an encoded body is the first cell's, and the rest encodes the other cells. |
| Coords.TailDecodes | snake/main.py:81 | `point_to_grid(points[-2:])` is the tail cell, so `move` frees the right cell. |
| Coords.HeadDecodes | snake/main.py:141 | `point_to_grid(points[0:2])` is the head cell of the body. |
| Coords.ShiftEncoding | snake/main.py:82-83 | The new head's pixels followed by `points[:-2]` encode the shifted body. |
| Grids.EmptyTable | snake/main.py:28 | The fresh table has the given dimensions and every entry 0. |
| Grids.MarkEffect | snake/main.py:30-34 | Setting one entry changes that entry only and keeps the dimensions. |
| Grids.Grid.constructor | snake/main.py:22-28 | The grid stores its parameters, has `g_width = width // side` and `g_height = height // side`, and every cell is 0. |
| Grids.Grid.Occupy | snake/main.py:30-31 | Cell (x, y) becomes 1, nothing else changes. |
| Grids.Grid.Unoccupy | snake/main.py:33-34 | Cell (x, y) becomes 0, nothing else changes. |
| Grids.Grid.Reset | snake/main.py:36-40 | Every cell becomes 0, and the dimensions are unchanged. |
| Snakes.Delta | snake/main.py:61-69 | Directions 0, 1, 2 map to (0,1), (1,0), (0,-1), and anything else to (-1,0). Each is a unit step along one axis. |
| Snakes.ShiftDistinct | snake/main.py:80-83 | Shifting a distinct body by a head cell not on it keeps the cells distinct. |
| Snakes.ShiftMembership | snake/main.py:80-83 | After a shift, a cell is on the body iff it is the new head, or it was on the body and is not the tail. |
| Snakes.MoveKeepsTracking | snake/main.py:80-84 | Marking a free new head and then freeing the tail keeps the grid marking exactly the shifted, distinct body. |
| Snakes.ShiftFacts | snake/main.py:80-83 | On success the tail decodes to an on-board cell, the new `points` encodes the shifted body, that body stays on the board, and tracking is preserved. |
| Snakes.StartTracks | snake/main.py:91-94 | A table marking exactly the three start cells tracks the start body. |
| Snakes.Snake.constructor | snake/main.py:56-58 | A new snake has `points == []`, `direction == 0` and `head == (0, 0)`. |
| Snakes.Snake.GetTail | snake/main.py:97-98 | `points[-2:]` is the encoding of the last body cell. |
| Snakes.Snake.GetHead | snake/main.py:100-101 | `points[0:2]` is the encoding of the first body cell. |
| Snakes.Snake.Move | snake/main.py:60-84 | Described below this table. |
| Snakes.Snake.Advance | snake/main.py:80-83 | Once the new head is free: the head is marked, the tail is freed, the head's pixels go in front of `points[:-2]`, and tracking is kept. |
| Snakes.Snake.Grow | snake/main.py:142 | `points += tail` appends the tail cell to the body and keeps `points` its encoding. |
| Snakes.Snake.Reset | snake/main.py:86-95 | Described below this table. |
| Games.Turn | snake/main.py:130-135 | The new direction is the unique value in 0..3 congruent to d − 1 (left), d + 1 (right) or d (other) modulo 4. |
| Games.TurnBack | snake/main.py:130-135 | Left then right, or right then left, restores the direction. |
| Games.TurnOther | snake/main.py:135 | Other keys only reduce the direction modulo 4, and leave one in 0..3 as it is. |
| Games.TurnsNet | snake/main.py:130-135 | A sequence of presses yields the start direction plus the net count of rights over lefts, modulo 4. |
| Games.NetRepeat | snake/main.py:130-134 | n presses of one key add n times its offset. |
| Games.FourTurns | snake/main.py:130-135 | Four presses the same way return to the start direction. |
| Games.TurnRotates | snake/main.py:130-135 | A right press rotates `move`'s step vector clockwise, a left press counter-clockwise. |
| Games.TurnNeverReverses | snake/main.py:130-135 | No single press turns the step vector into its opposite. |
| Games.SnakeFood.Generate | snake/main.py:105-108 | The food lands on the drawn column and row, which lie in [0, gx) × [0, gy). |
| Games.GrowBreaksTracking | snake/main.py:142 | Appending the old tail to a tracked body without marking it breaks tracking. |
| Games.GrowKeepsTracking | snake/main.py:142 | Appending a cell off the body and marking it keeps tracking. |
| Games.TailLeavesBody | snake/main.py:80-83 | After a successful move from a tracked state, the old tail is off the shifted body. |
| Games.AsWrittenTickTracking | snake/main.py:137-143 | Described below this table. |
| Games.CorrectedTickTracking | snake/main.py:137-143 | With no feeding after a collision and the tail re-marked on growth, tracking survives every tick. |
| Games.SnakeGame.constructor | snake/main.py:115-121 | Described below this table. |
| Games.SnakeGame.OnKeyDown | snake/main.py:130-135 | The direction becomes `Turn(d, key)`, and head, `points` and body are unchanged. |
| Games.SnakeGame.Update | snake/main.py:137-143 | Described below this table. |
| Games.SnakeGame.UpdateCorrected | snake/main.py:137-143 | Described below this table. |

What the longer rows state:

- **Snakes.Snake.Move**
  - `head` always becomes the old head plus the step for `direction`, and `direction` is unchanged.
  - The result is true exactly when the new head is off [0, g_width) × [0, g_height) or marked in the old grid. This includes the current tail.
  - When true, `points`, the body and the grid are unchanged.
  - Otherwise the new head is marked, the old tail is freed, and `points` is the new head's pixels followed by the old `points` minus its last pair.
  - Tracking is preserved.
- **Snakes.Snake.Reset**
  - It sets `head` to (g_width // 2, g_height // 2).
  - It marks exactly the three cells of the vertical line down from it, and changes no other cell.
  - It sets `points` to their encoding, head first.
  - It leaves `direction` unchanged.
  - On an empty grid the result is tracked.
- **Games.AsWrittenTickTracking.** From a tracked state, the grid after the tick still tracks the body exactly when the decoded head was not on the food.
- **Games.SnakeGame.constructor**
  - The grid side is the snake width + 2 over the 500 × 500 window.
  - The snake is reset, the food is generated, and the timer is running.
  - The direction is 0 and the grid tracks the body.
- **Games.SnakeGame.Update**
  - The timer stops exactly when the move fails.
  - The food check runs even then.
  - On eating, the body gains the pre-tick tail cell and `points` gains the recorded tail pair. The food moves to (rx, ry).
  - The grid is exactly what `move` left.
  - From a tracked state, the grid still tracks the body after the tick exactly when the snake did not eat.
- **Games.SnakeGame.UpdateCorrected**
  - A failed move leaves `head` advanced, stops the timer, and leaves `points`, the body, the grid and the food as they were.
  - On eating after a successful move, the body gains the old tail, the grid marks it again, and the food moves to (rx, ry).
  - A tracked state stays tracked.

## Left out

- The Kivy layer is not modelled, because it is framework plumbing. That covers the `App`/`Widget` classes, properties, the window, keyboard binding and unbinding, drawing, and `SnakeApp`.
- `Clock.schedule_interval` and its 1/5 s period are not modelled. The timer is the `running` flag, and the tick takes no `dt`.
- `randint` is not modelled. The drawn indices are the parameters `rx`, `ry` of `Generate`, `Update` and the game constructor.
- Food pixel positions are left out, and food is a cell. Whether the head's pixels (with the +15 offset) equal the food's `r * size * 2` depends on widget sizes set outside this file. The tick compares the decoded head cell with the food cell.
- Snakes.Snake.Move: requires a cell width of at least 8, and below that `point_to_grid` no longer recovers the tail (Coords.RoundTripNeedsWidth, listed under Findings). Under that requirement the model keeps the source's decoding, which Coords.DecodingsAgree shows coincides there with the corrected one. It also requires a non-empty snake, which `reset` always provides.
- Grids.Grid.Occupy and Grids.Grid.Unoccupy: require an in-range cell. Python's negative-index wrap-around and `IndexError` are not modelled, and `move` and `reset` only pass in-range cells.
- Grids.Grid.constructor: requires a positive side and a non-negative window. A zero side raises `ZeroDivisionError` in Python, and negative sizes do not arise.
- Coords.PointToGrid: requires a nonzero width, since Python raises `ZeroDivisionError` there.
- Snakes.Snake.Reset: requires `g_height >= 4` and `g_width >= 1`. At `g_height` 3 the row −1 wraps to row 2. At `g_height` 2 it wraps onto row 1, the head's row, so the body repeats a cell. At `g_height` 1 or 0, or `g_width` 0, the `occupy` at snake/main.py:93 raises `IndexError`. None of these cases is modelled.
- Games.SnakeGame.Update: requires `running`, because no tick is delivered once the timer is cancelled.
- Games.SnakeGame.constructor: requires a snake width with 8 <= w and 500 // (w + 2) >= 4, so that `reset` and the tail decoding are in range.
- The grid is not an `array2` updated in place. It is a `seq<seq<int>>` field reassigned by `occupy`, `unoccupy` and `reset`, the same value level as Python's list of lists. Aliasing of the inner lists is not modelled.
- `reset` leaves `direction` as it was, so a restart keeps the old heading; the model keeps this.
- `generate` may place food under the snake; the model keeps this too.

## Findings

| source | as written | input that shows it | evidently intended | confidence | as-written member | corrected member |
|---|---|---|---|---|---|---|
| snake/main.py:142 | Growth appends the recorded tail pair to `points` but never marks that cell in the grid. | A 10 × 10 grid (snake width 48) after reset holds (5,5), (5,4), (5,3), heading 0, with food on (5,6). One tick gives the body (5,6), (5,5), (5,4), (5,3), but cell (5,3) is 0. | Re-mark the re-appended tail, so the grid still marks exactly the body. | high, not executed | Games.AsWrittenTickTracking | Games.CorrectedTickTracking |
| snake/main.py:139-141 | After `timer.cancel()` the tick goes on to the food check, so a snake that just collided can still grow. | The same board with food on the head cell (5,5), two right presses, one tick. The move into (5,4) fails, and the body becomes (5,5), (5,4), (5,3), (5,3) with a repeated cell. | Return after stopping the timer. | medium, not executed | Games.SnakeGame.Update | Games.SnakeGame.UpdateCorrected |
| snake/main.py:43-44 | `(x - 15) // w // 2` recovers the cell only when w >= 8, and `move` relies on it at snake/main.py:81 to free the tail. | With w = 5, every coordinate x comes back as x + 1. The tail's neighbour is then freed instead of the tail, and at the right or top edge the index is out of range. | Decode as `(x // 2 - 15) // w`, the exact inverse of `((x * w) + 15) * 2` for every nonzero w. | medium, not executed | Coords.RoundTripNeedsWidth | Coords.RoundTripCorrected |
