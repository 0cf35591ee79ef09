/** The game session: turning on key presses, the food, and the tick that moves the snake and feeds it. */
module Games {
  import opened Coords
  import opened Grids
  import opened Snakes

  /** The fixed window size in pixels. */
  const WinWidth := 500
  const WinHeight := 500

  /** A key press as the keyboard handler sees it. */
  datatype Key = Left | Right | Other

  /** How much a key changes the heading before the reduction: left -1, right +1. */
  function Offset(key: Key): int
  {
    match key
    case Left => -1
    case Right => 1
    case Other => 0
  }

  /**
   * The direction arithmetic of the key handler: decrement on left, increment on right,
   * then reduce modulo 4 (Python's `%` by a positive divisor is never negative).
   */
  function Turn(d: int, key: Key): (r: int)
    ensures 0 <= r < 4
    ensures (r - d - Offset(key)) % 4 == 0
  {
    (d + Offset(key)) % 4
  }

  /** A left press undoes a right press and the other way round. */
  lemma TurnBack(d: int)
    ensures Turn(Turn(d, Left), Right) == d % 4
    ensures Turn(Turn(d, Right), Left) == d % 4
  {
    var l, r := Turn(d, Left), Turn(d, Right);
    assert (l + 1) % 4 == d % 4 by {
      assert (l - d + 1) % 4 == 0;
    }
    assert (r - 1) % 4 == d % 4 by {
      assert (r - d - 1) % 4 == 0;
    }
  }

  /** Keys that are neither left nor right only normalise the heading. */
  lemma TurnOther(d: int)
    ensures Turn(d, Other) == d % 4
    ensures 0 <= d < 4 ==> Turn(d, Other) == d
  {
  }

  /** The heading after a sequence of presses, applied first to last. */
  function Turns(d: int, keys: seq<Key>): int
    decreases |keys|
  {
    if keys == [] then d else Turns(Turn(d, keys[0]), keys[1..])
  }

  /** The net number of right presses over left presses. */
  function Net(keys: seq<Key>): int
    decreases |keys|
  {
    if keys == [] then 0 else Offset(keys[0]) + Net(keys[1..])
  }

  /** Presses between ticks collapse to their net sum modulo 4. */
  lemma {:induction false} TurnsNet(d: int, keys: seq<Key>)
    requires keys != []
    ensures Turns(d, keys) == (d + Net(keys)) % 4
    decreases |keys|
  {
    var d1 := Turn(d, keys[0]);
    if keys[1..] == [] {
      assert Net(keys) == Offset(keys[0]) + Net(keys[1..]);
    } else {
      TurnsNet(d1, keys[1..]);
      assert (d1 - d - Offset(keys[0])) % 4 == 0;
      assert (d1 + Net(keys[1..])) % 4 == (d + Offset(keys[0]) + Net(keys[1..])) % 4 by {
        var k := (d1 - d - Offset(keys[0])) / 4;
        assert d1 + Net(keys[1..]) == d + Offset(keys[0]) + Net(keys[1..]) + 4 * k;
      }
    }
  }

  /** n presses of the same key add up to n times its offset. */
  lemma {:induction false} NetRepeat(key: Key, n: nat)
    ensures Net(seq(n, _ => key)) == n * Offset(key)
  {
    if n > 0 {
      var keys := seq(n, _ => key);
      assert keys[1..] == seq(n - 1, _ => key);
      NetRepeat(key, n - 1);
    }
  }

  /** Four presses the same way bring the heading back. */
  lemma FourTurns(d: int, key: Key)
    ensures Turns(d, [key, key, key, key]) == d % 4
  {
    var keys := [key, key, key, key];
    TurnsNet(d, keys);
    NetRepeat(key, 4);
    assert keys == seq(4, _ => key);
  }

  /** A right press turns the step vector clockwise, a left press counter-clockwise. */
  lemma TurnRotates(d: int)
    requires 0 <= d < 4
    ensures Delta(Turn(d, Right)) == (Delta(d).1, -Delta(d).0)
    ensures Delta(Turn(d, Left)) == (-Delta(d).1, Delta(d).0)
  {
  }

  /** No single press makes the snake reverse onto its own neck. */
  lemma TurnNeverReverses(d: int, key: Key)
    requires 0 <= d < 4
    ensures Delta(Turn(d, key)) != (-Delta(d).0, -Delta(d).1)
  {
  }

  class SnakeFood {
    /** The food's cell. */
    var pos: Cell

    constructor ()
      ensures pos == (0, 0)
    {
      pos := (0, 0);
    }

    /**
     * `generate`: place the food on the cell whose column and row the random draws
     * `randint(0, gx - 1)` and `randint(0, gy - 1)` picked, here the parameters rx, ry.
     */
    method Generate(gx: int, gy: int, rx: int, ry: int)
      requires 0 <= rx < gx && 0 <= ry < gy
      modifies this
      ensures pos == (rx, ry) && InBoard(pos, gx, gy)
    {
      pos := (rx, ry);
    }
  }

  /** Appending a cell the table does not mark as tracked, or one already on the body, loses tracking. */
  lemma GrowBreaksTracking(t: Table, body: seq<Cell>, tail: Cell, columns: int, rows: int)
    requires Tracks(t, body, columns, rows) && InBoard(tail, columns, rows)
    ensures !Tracks(t, body + [tail], columns, rows)
  {
    var nb := body + [tail];
    if tail in body {
      var k :| 0 <= k < |body| && body[k] == tail;
      assert nb[k] == nb[|body|];
    } else {
      assert tail in nb;
      assert t[tail.0][tail.1] == 0;
    }
  }

  /** Appending a cell off the body and marking it keeps tracking: growth as it is meant to be. */
  lemma GrowKeepsTracking(t: Table, body: seq<Cell>, tail: Cell, columns: int, rows: int)
    requires Tracks(t, body, columns, rows) && InBoard(tail, columns, rows) && tail !in body
    ensures Tracks(Mark(t, tail.0, tail.1, 1), body + [tail], columns, rows)
  {
    var nb := body + [tail];
    MarkEffect(t, columns, rows, tail.0, tail.1, 1);
    forall i, j | 0 <= i < j < |nb| ensures nb[i] != nb[j] {
      if j == |body| {
        assert nb[i] == body[i];
      }
    }
    forall i | 0 <= i < |nb| ensures InBoard(nb[i], columns, rows) {
      if i < |body| {
        assert nb[i] == body[i];
      }
    }
    forall x, y | 0 <= x < columns && 0 <= y < rows
      ensures Mark(t, tail.0, tail.1, 1)[x][y] == if (x, y) in nb then 1 else 0
    {
      assert (x, y) in nb <==> (x, y) in body || (x, y) == tail;
    }
  }

  /** After a successful move from a tracked state the old tail is no longer on the body. */
  lemma TailLeavesBody(t: Table, body: seq<Cell>, h: Cell, columns: int, rows: int)
    requires Tracks(t, body, columns, rows) && |body| > 0
    requires InBoard(h, columns, rows) && t[h.0][h.1] != 1
    ensures body[|body| - 1] !in [h] + body[..|body| - 1]
  {
  }

  /**
   * One tick as `update` performs it, on values: from a tracked state the grid still
   * tracks the body afterwards exactly when the head did not land on the food.
   */
  lemma AsWrittenTickTracking(t: Table, body: seq<Cell>, h: Cell, over: bool, food: Cell, columns: int, rows: int)
    requires Tracks(t, body, columns, rows) && |body| > 0
    requires !over ==> InBoard(h, columns, rows) && t[h.0][h.1] != 1
    ensures var tail := body[|body| - 1];
      var nt := if over then t else Mark(Mark(t, h.0, h.1, 1), tail.0, tail.1, 0);
      var moved := if over then body else [h] + body[..|body| - 1];
      var nb := if moved[0] == food then moved + [tail] else moved;
      Tracks(nt, nb, columns, rows) <==> moved[0] != food
  {
    var tail := body[|body| - 1];
    var nt := if over then t else Mark(Mark(t, h.0, h.1, 1), tail.0, tail.1, 0);
    var moved := if over then body else [h] + body[..|body| - 1];
    if !over {
      MoveKeepsTracking(t, body, h, columns, rows);
    }
    if moved[0] == food {
      GrowBreaksTracking(nt, moved, tail, columns, rows);
    }
  }

  /**
   * One tick as it is meant to be, on values: no feeding after a collision, and the
   * re-appended tail cell marked again. Tracking then survives every tick.
   */
  lemma CorrectedTickTracking(t: Table, body: seq<Cell>, h: Cell, over: bool, food: Cell, columns: int, rows: int)
    requires Tracks(t, body, columns, rows) && |body| > 0
    requires !over ==> InBoard(h, columns, rows) && t[h.0][h.1] != 1
    ensures var tail := body[|body| - 1];
      var ate := !over && h == food;
      var moved := if over then body else [h] + body[..|body| - 1];
      var nt := if over then t else Mark(Mark(t, h.0, h.1, 1), tail.0, tail.1, 0);
      Tracks(if ate then Mark(nt, tail.0, tail.1, 1) else nt, if ate then moved + [tail] else moved, columns, rows)
  {
    var tail := body[|body| - 1];
    var nt := if over then t else Mark(Mark(t, h.0, h.1, 1), tail.0, tail.1, 0);
    var moved := if over then body else [h] + body[..|body| - 1];
    if !over {
      MoveKeepsTracking(t, body, h, columns, rows);
      if h == food {
        TailLeavesBody(t, body, h, columns, rows);
        GrowKeepsTracking(nt, moved, tail, columns, rows);
      }
    }
  }

  class SnakeGame {
    const grid: Grid
    const snake: Snake
    const food: SnakeFood
    /** Stands for the scheduled timer: ticks arrive while it is set. */
    var running: bool

    /** What every tick relies on; the occupancy tracking itself is `snake.Consistent(grid)`. */
    ghost predicate Valid()
      reads this, snake, grid, food
    {
      && snake.Valid() && grid.Valid() && snake.width >= 8
      && |snake.body| > 0 && snake.OnGrid(grid)
      && 0 <= snake.direction < 4
      && grid.Contains(food.pos)
    }

    /**
     * `__init__`: a grid of cells `snakeWidth + 2` pixels wide over the window, the
     * snake reset on it and the food placed on the cell (rx, ry).
     */
    constructor (snakeWidth: int, rx: int, ry: int)
      requires 8 <= snakeWidth && WinHeight / (snakeWidth + 2) >= 4
      requires 0 <= rx < WinWidth / (snakeWidth + 2) && 0 <= ry < WinHeight / (snakeWidth + 2)
      ensures fresh(snake) && fresh(grid) && fresh(food)
      ensures Valid() && running && snake.Consistent(grid)
      ensures grid.side == snakeWidth + 2 && grid.width == WinWidth && grid.height == WinHeight
      ensures snake.width == snakeWidth && snake.direction == 0
      ensures snake.head == (grid.gWidth / 2, grid.gHeight / 2)
      ensures snake.body == StartBody(grid.gWidth / 2, grid.gHeight / 2)
      ensures food.pos == (rx, ry)
    {
      var s := new Snake(snakeWidth);
      var g := new Grid(snakeWidth + 2, WinWidth, WinHeight);
      var f := new SnakeFood();
      s.Reset(g);
      f.Generate(g.gWidth, g.gHeight, rx, ry);
      snake, grid, food := s, g, f;
      running := true;
    }

    /** The direction arithmetic of `_on_keyboard_down`. */
    method OnKeyDown(key: Key)
      requires Valid()
      modifies snake
      ensures Valid()
      ensures snake.direction == Turn(old(snake.direction), key)
      ensures snake.head == old(snake.head) && snake.points == old(snake.points) && snake.body == old(snake.body)
    {
      var d := snake.direction;
      if key == Left {
        d := d - 1;
      }
      if key == Right {
        d := d + 1;
      }
      snake.direction := d % 4;
    }

    /**
     * `update`, one tick as written: record the tail pair, move, stop the timer on a
     * collision, and then (even after a collision) when the head is on the food append
     * the recorded pair to `points` and regenerate the food on (rx, ry). The grid is
     * left as the move made it.
     */
    method Update(rx: int, ry: int)
      requires Valid() && running
      requires 0 <= rx < grid.gWidth && 0 <= ry < grid.gHeight
      modifies this, snake, grid, food
      ensures Valid()
      ensures snake.direction == old(snake.direction)
      ensures snake.head == Next(old(snake.head), snake.direction)
      ensures running == !old(grid.Blocks(Next(snake.head, snake.direction)))
      ensures var ob := old(snake.body);
        var moved := if running then [snake.head] + ob[..|ob| - 1] else ob;
        var ate := moved[0] == old(food.pos);
        && snake.body == (if ate then moved + [ob[|ob| - 1]] else moved)
        && snake.points == (if ate then Encode(moved, snake.width) + old(snake.GetTail()) else Encode(moved, snake.width))
        && food.pos == (if ate then (rx, ry) else old(food.pos))
        && (old(snake.Consistent(grid)) ==> (snake.Consistent(grid) <==> !ate))
      ensures var t := old(snake.body)[|old(snake.body)| - 1];
        grid.grid == if running then Mark(Mark(old(grid.grid), snake.head.0, snake.head.1, 1), t.0, t.1, 0)
                     else old(grid.grid)
    {
      ghost var ob, oc := snake.body, snake.Consistent(grid);
      var tail := snake.GetTail();
      var over := snake.Move(grid);
      if over {
        running := false;
      }
      HeadDecodes(snake.body, snake.width);
      if PointToGrid(snake.GetHead(), snake.width) == [food.pos.0, food.pos.1] {
        ghost var moved, gm := snake.body, grid.grid;
        snake.Grow(tail, ob[|ob| - 1]);
        if oc {
          GrowBreaksTracking(gm, moved, ob[|ob| - 1], grid.gWidth, grid.gHeight);
        }
        food.Generate(grid.gWidth, grid.gHeight, rx, ry);
      }
    }

    /**
     * `update` as evidently intended: return once the timer is stopped, and mark the
     * re-appended tail cell when the snake eats.
     */
    method UpdateCorrected(rx: int, ry: int)
      requires Valid() && running
      requires 0 <= rx < grid.gWidth && 0 <= ry < grid.gHeight
      modifies this, snake, grid, food
      ensures Valid()
      ensures snake.direction == old(snake.direction)
      ensures snake.head == Next(old(snake.head), snake.direction)
      ensures running == !old(grid.Blocks(Next(snake.head, snake.direction)))
      ensures var ob := old(snake.body);
        var t := ob[|ob| - 1];
        var moved := if running then [snake.head] + ob[..|ob| - 1] else ob;
        var ate := running && snake.head == old(food.pos);
        && snake.body == (if ate then moved + [t] else moved)
        && snake.points == (if ate then Encode(moved, snake.width) + old(snake.GetTail()) else Encode(moved, snake.width))
        && food.pos == (if ate then (rx, ry) else old(food.pos))
        && grid.grid == if !running then old(grid.grid) else
             var shifted := Mark(Mark(old(grid.grid), snake.head.0, snake.head.1, 1), t.0, t.1, 0);
             if ate then Mark(shifted, t.0, t.1, 1) else shifted
      ensures old(snake.Consistent(grid)) ==> snake.Consistent(grid)
    {
      ghost var ob, og, oc := snake.body, grid.grid, snake.Consistent(grid);
      var tail := snake.GetTail();
      var over := snake.Move(grid);
      if over {
        running := false;
        return;
      }
      HeadDecodes(snake.body, snake.width);
      if PointToGrid(snake.GetHead(), snake.width) == [food.pos.0, food.pos.1] {
        ghost var moved, gm := snake.body, grid.grid;
        if oc {
          TailLeavesBody(og, ob, snake.head, grid.gWidth, grid.gHeight);
        }
        snake.Grow(tail, ob[|ob| - 1]);
        DecodeOne(ob[|ob| - 1], snake.width);
        var cell := PointToGrid(tail, snake.width);
        grid.Occupy(cell[0], cell[1]);
        if oc {
          GrowKeepsTracking(gm, moved, ob[|ob| - 1], grid.gWidth, grid.gHeight);
        }
        food.Generate(grid.gWidth, grid.gHeight, rx, ry);
      }
    }
  }
}
