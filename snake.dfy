/** The snake: its head, its body as flat pixel pairs, its heading, and how it moves on the grid. */
module Snakes {
  import opened Coords
  import opened Grids

  /** The unit step for a direction code: 0 up, 1 right, 2 down, anything else left. */
  function Delta(direction: int): (v: Cell)
    ensures (v.0 == 0 && (v.1 == 1 || v.1 == -1)) || (v.1 == 0 && (v.0 == 1 || v.0 == -1))
    ensures direction == 0 ==> v == (0, 1)
    ensures direction == 1 ==> v == (1, 0)
    ensures direction == 2 ==> v == (0, -1)
    ensures direction !in {0, 1, 2} ==> v == (-1, 0)
  {
    if direction == 0 then (0, 1)
    else if direction == 1 then (1, 0)
    else if direction == 2 then (0, -1)
    else (-1, 0)
  }

  /** The cell one step from `head` in `direction`. */
  function Next(head: Cell, direction: int): Cell
  {
    (head.0 + Delta(direction).0, head.1 + Delta(direction).1)
  }

  /** No cell appears twice. */
  predicate Distinct(s: seq<Cell>)
  {
    forall i, j :: 0 <= i < j < |s| ==> s[i] != s[j]
  }

  /**
   * The table marks exactly the cells of `body`, which are distinct and on the board:
   * what the grid is for.
   */
  ghost predicate Tracks(t: Table, body: seq<Cell>, columns: int, rows: int)
  {
    && IsTable(t, columns, rows)
    && Distinct(body)
    && (forall i :: 0 <= i < |body| ==> InBoard(body[i], columns, rows))
    && forall x, y :: 0 <= x < columns && 0 <= y < rows ==>
         t[x][y] == if (x, y) in body then 1 else 0
  }

  /** The three cells `reset` places, head first: a vertical line downwards from (cx, cy). */
  function StartBody(cx: int, cy: int): seq<Cell>
  {
    [(cx, cy), (cx, cy - 1), (cx, cy - 2)]
  }

  /** Shifting a distinct body forward by a new head keeps it distinct when the head is new. */
  lemma ShiftDistinct(body: seq<Cell>, h: Cell)
    requires |body| > 0 && Distinct(body) && h !in body
    ensures Distinct([h] + body[..|body| - 1])
  {
    var s := [h] + body[..|body| - 1];
    forall i, j | 0 <= i < j < |s| ensures s[i] != s[j] {
      assert s[j] == body[j - 1];
      if i > 0 {
        assert s[i] == body[i - 1];
      }
    }
  }

  /** After a shift, a cell is on the body iff it is the new head, or it was on the body and was not the tail. */
  lemma ShiftMembership(body: seq<Cell>, h: Cell, c: Cell)
    requires |body| > 0 && Distinct(body)
    ensures c in [h] + body[..|body| - 1] <==> c == h || (c in body && c != body[|body| - 1])
  {
    var n := |body|;
    assert body == body[..n - 1] + [body[n - 1]];
    if c in body[..n - 1] {
      var k :| 0 <= k < n - 1 && body[..n - 1][k] == c;
      assert body[k] == c;
    }
  }

  /**
   * A successful move (mark the free new head, then free the tail) keeps the table
   * tracking the shifted body.
   */
  lemma MoveKeepsTracking(t: Table, body: seq<Cell>, h: Cell, columns: int, rows: int)
    requires Tracks(t, body, columns, rows) && |body| > 0
    requires InBoard(h, columns, rows) && t[h.0][h.1] != 1
    ensures var tail := body[|body| - 1];
      Tracks(Mark(Mark(t, h.0, h.1, 1), tail.0, tail.1, 0), [h] + body[..|body| - 1], columns, rows)
  {
    var tail := body[|body| - 1];
    var t1 := Mark(t, h.0, h.1, 1);
    MarkEffect(t, columns, rows, h.0, h.1, 1);
    var t2 := Mark(t1, tail.0, tail.1, 0);
    MarkEffect(t1, columns, rows, tail.0, tail.1, 0);
    var nb := [h] + body[..|body| - 1];
    assert h !in body;
    ShiftDistinct(body, h);
    forall i | 0 <= i < |nb| ensures InBoard(nb[i], columns, rows) {
      if i > 0 {
        assert nb[i] == body[i - 1];
      }
    }
    forall x, y | 0 <= x < columns && 0 <= y < rows
      ensures t2[x][y] == if (x, y) in nb then 1 else 0
    {
      ShiftMembership(body, h, (x, y));
    }
  }

  /**
   * Everything a successful move relies on, about the values before it: the encoded
   * tail decodes to the tail cell, the rebuilt pixel list encodes the shifted body,
   * the shifted body stays on the board, and tracking is preserved.
   */
  lemma ShiftFacts(body: seq<Cell>, t: Table, h: Cell, w: int, columns: int, rows: int)
    requires w >= 8 && |body| > 0 && IsTable(t, columns, rows)
    requires forall i :: 0 <= i < |body| ==> InBoard(body[i], columns, rows)
    requires InBoard(h, columns, rows) && t[h.0][h.1] != 1
    ensures var p, tail, nb := Encode(body, w), body[|body| - 1], [h] + body[..|body| - 1];
      && InBoard(tail, columns, rows) && PointToGrid(Encode([tail], w), w) == [tail.0, tail.1]
      && GridToPoint([h.0, h.1], w) + p[..|p| - 2] == Encode(nb, w)
      && (forall i :: 0 <= i < |nb| ==> InBoard(nb[i], columns, rows))
      && (Tracks(t, body, columns, rows) ==> Tracks(Mark(Mark(t, h.0, h.1, 1), tail.0, tail.1, 0), nb, columns, rows))
  {
    DecodeOne(body[|body| - 1], w);
    ShiftEncoding(body, h, w);
    var nb := [h] + body[..|body| - 1];
    forall i | 0 <= i < |nb| ensures InBoard(nb[i], columns, rows) {
      if i > 0 {
        assert nb[i] == body[i - 1];
      }
    }
    if Tracks(t, body, columns, rows) {
      MoveKeepsTracking(t, body, h, columns, rows);
    }
  }

  /** A table that marks exactly the start cells tracks the start body. */
  lemma StartTracks(t: Table, columns: int, rows: int)
    requires IsTable(t, columns, rows) && rows >= 4 && columns >= 1
    requires forall x, y :: 0 <= x < columns && 0 <= y < rows ==>
      t[x][y] == if x == columns / 2 && rows / 2 - 2 <= y <= rows / 2 then 1 else 0
    ensures Tracks(t, StartBody(columns / 2, rows / 2), columns, rows)
  {
    var cx, cy := columns / 2, rows / 2;
    var b := StartBody(cx, cy);
    forall x, y | 0 <= x < columns && 0 <= y < rows
      ensures t[x][y] == if (x, y) in b then 1 else 0
    {
      assert (x, y) in b <==> x == cx && cy - 2 <= y <= cy;
    }
  }

  class Snake {
    /** The widget width in pixels, the cell width of the pixel conversion. */
    const width: int
    /** The head cell the next move starts from. */
    var head: Cell
    /** The body as flat pixel pairs, head first. */
    var points: seq<int>
    /** The heading code. */
    var direction: int
    /** The cells `points` encodes, head first. */
    ghost var body: seq<Cell>

    ghost predicate Valid()
      reads this
    {
      points == Encode(body, width)
    }

    /** Every body cell lies on the board of `g`. */
    ghost predicate OnGrid(g: Grid)
      reads this
    {
      forall i :: 0 <= i < |body| ==> g.Contains(body[i])
    }

    /** The grid marks exactly the body's cells, and these are distinct. */
    ghost predicate Consistent(g: Grid)
      reads this, g
    {
      Tracks(g.grid, body, g.gWidth, g.gHeight)
    }

    constructor (width: int)
      ensures Valid() && this.width == width
      ensures head == (0, 0) && points == [] && direction == 0 && body == []
    {
      this.width := width;
      head, points, direction := (0, 0), [], 0;
      body := [];
    }

    /** `getTail`: the last pixel pair, `points[-2:]`. */
    function GetTail(): (r: seq<int>)
      reads this
      ensures Valid() && |body| > 0 ==> r == Encode([body[|body| - 1]], width)
    {
      EncodeSplitLast(body, width);
      if |points| >= 2 then points[|points| - 2..] else points
    }

    /** `getHead`: the first pixel pair, `points[0:2]`. */
    function GetHead(): (r: seq<int>)
      reads this
      ensures Valid() && |body| > 0 ==> r == Encode([body[0]], width)
    {
      EncodeSplitFirst(body, width);
      if |points| >= 2 then points[..2] else points
    }

    /**
     * `move`: step the head; report true (game over) when the new head is off the
     * board or marked, otherwise mark it, free the tail and shift the body.
     */
    method Move(g: Grid) returns (over: bool)
      requires Valid() && g.Valid() && width >= 8
      requires |body| > 0 && OnGrid(g)
      modifies this, g
      ensures Valid() && g.Valid() && direction == old(direction) && OnGrid(g)
      ensures head == Next(old(head), direction)
      ensures over == old(g.Blocks(Next(head, direction)))
      ensures over ==> points == old(points) && body == old(body) && g.grid == old(g.grid)
      ensures !over ==> var t := old(body)[|old(body)| - 1];
        && body == [head] + old(body)[..|old(body)| - 1]
        && points == GridToPoint([head.0, head.1], width) + old(points)[..|old(points)| - 2]
        && g.grid == Mark(Mark(old(g.grid), head.0, head.1, 1), t.0, t.1, 0)
      ensures !over && old(Consistent(g)) ==> Consistent(g)
    {
      var step := Delta(direction);
      head := (head.0 + step.0, head.1 + step.1);
      if g.gWidth <= head.0 || head.0 < 0 {
        over := true;  // crossed the left or right border
      } else if g.gHeight <= head.1 || head.1 < 0 {
        over := true;  // crossed the top or bottom border
      } else if g.grid[head.0][head.1] == 1 {
        over := true;  // ran into itself
      } else {
        Advance(g);
        over := false;
      }
    }

    /**
     * The rest of `move` once the new head is known to be free: mark it, free the
     * cell the last pixel pair decodes to, and put the head's pixels in front of all
     * but the last pair.
     */
    method Advance(g: Grid)
      requires Valid() && g.Valid() && width >= 8
      requires |body| > 0 && OnGrid(g) && g.Contains(head) && g.grid[head.0][head.1] != 1
      modifies this`points, this`body, g
      ensures Valid() && g.Valid() && OnGrid(g)
      ensures var t := old(body)[|old(body)| - 1];
        && body == [head] + old(body)[..|old(body)| - 1]
        && points == GridToPoint([head.0, head.1], width) + old(points)[..|old(points)| - 2]
        && g.grid == Mark(Mark(old(g.grid), head.0, head.1, 1), t.0, t.1, 0)
      ensures old(Consistent(g)) ==> Consistent(g)
    {
      ghost var ob, og := body, g.grid;
      ShiftFacts(ob, og, head, width, g.gWidth, g.gHeight);
      g.Occupy(head.0, head.1);
      var tail := PointToGrid(GetTail(), width);
      g.Unoccupy(tail[0], tail[1]);
      var point := GridToPoint([head.0, head.1], width);
      points := point + points[..|points| - 2];
      body := [head] + body[..|body| - 1];
    }

    /**
     * `points += tail` in the tick that eats: the recorded pixel pair of the old tail
     * cell `c` goes back on the end.
     */
    method Grow(tail: seq<int>, ghost c: Cell)
      requires Valid() && tail == Encode([c], width)
      modifies this`points, this`body
      ensures Valid() && body == old(body) + [c] && points == old(points) + tail
    {
      EncodeAppend(body, [c], width);
      points := points + tail;
      body := body + [c];
    }

    /**
     * `reset`: put a vertical three-cell snake at the board centre, head on top,
     * marking its cells; the heading is left as it was.
     */
    method Reset(g: Grid)
      requires Valid() && g.Valid() && g.gHeight >= 4 && g.gWidth >= 1
      modifies this, g
      ensures Valid() && g.Valid() && direction == old(direction) && OnGrid(g)
      ensures var cx, cy := g.gWidth / 2, g.gHeight / 2;
        && head == (cx, cy)
        && body == StartBody(cx, cy)
        && forall x, y :: 0 <= x < g.gWidth && 0 <= y < g.gHeight ==>
             g.grid[x][y] == if x == cx && cy - 2 <= y <= cy then 1 else old(g.grid)[x][y]
      ensures old(g.grid) == EmptyTable(g.gWidth, g.gHeight) ==> Consistent(g)
    {
      var cx := g.gWidth / 2;
      var cy := g.gHeight / 2;
      head := (cx, cy);
      ghost var start := StartBody(cx, cy);
      var tmp := [];
      for i := 0 to 3
        modifies g
        invariant g.Valid()
        invariant tmp == Flatten(start[..i])
        invariant forall x, y :: 0 <= x < g.gWidth && 0 <= y < g.gHeight ==>
          g.grid[x][y] == if x == cx && cy - i < y <= cy then 1 else old(g.grid)[x][y]
      {
        ghost var before := g.grid;
        g.Occupy(cx, cy - i);
        MarkEffect(before, g.gWidth, g.gHeight, cx, cy - i, 1);
        assert tmp + [cx, cy - i] == Flatten(start[..i + 1]) by {
          assert start[..i + 1] == start[..i] + [start[i]];
          FlattenAppend(start[..i], [start[i]]);
          assert Flatten([start[i]]) == [cx, cy - i] + Flatten([]);
        }
        tmp := tmp + [cx, cy - i];
      }
      assert start[..3] == start;
      points := GridToPoint(tmp, width);
      body := start;
      if old(g.grid) == EmptyTable(g.gWidth, g.gHeight) {
        StartTracks(g.grid, g.gWidth, g.gHeight);
      }
    }
  }
}
