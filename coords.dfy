/** Conversion between grid cells and the flat pixel lists the snake is drawn from. */
module Coords {

  /** A grid cell: (column, row). */
  type Cell = (int, int)

  /** Python's `a // b`, written with Dafny's Euclidean division. */
  function FloorDiv(a: int, b: int): int
    requires b != 0
  {
    if b > 0 then a / b else (-a) / (-b)
  }

  /** FloorDiv is the floor of a / b for a divisor of either sign, as Python's `//` is. */
  lemma FloorDivIsFloor(a: int, b: int)
    requires b != 0
    ensures var q := FloorDiv(a, b);
      && (b > 0 ==> q * b <= a < q * b + b)
      && (b < 0 ==> q * b >= a > q * b + b)
  {
    if b < 0 {
      var q := (-a) / (-b);
      assert q * (-b) <= -a < q * (-b) + (-b);
      assert q * (-b) == -(q * b);
    }
  }

  /** One coordinate of `grid_to_point`: ((x * w) + 15) * 2. */
  function ToPixel(x: int, w: int): int
  {
    (x * w + 15) * 2
  }

  /** One coordinate of `point_to_grid`: (x - 15) // w // 2. */
  function ToCell(x: int, w: int): int
    requires w != 0
  {
    FloorDiv(FloorDiv(x - 15, w), 2)
  }

  /** `grid_to_point`: ToPixel applied to every element, in order. */
  function GridToPoint(lst: seq<int>, w: int): (r: seq<int>)
    ensures |r| == |lst|
    ensures forall i :: 0 <= i < |lst| ==> r[i] == ToPixel(lst[i], w)
  {
    if lst == [] then [] else [ToPixel(lst[0], w)] + GridToPoint(lst[1..], w)
  }

  /** `point_to_grid`: ToCell applied to every element, in order. */
  function PointToGrid(lst: seq<int>, w: int): (r: seq<int>)
    requires w != 0
    ensures |r| == |lst|
    ensures forall i :: 0 <= i < |lst| ==> r[i] == ToCell(lst[i], w)
  {
    if lst == [] then [] else [ToCell(lst[0], w)] + PointToGrid(lst[1..], w)
  }

  lemma MulAtLeast(k: int, b: int)
    requires k >= 1 && b > 0
    ensures k * b >= b
  {
    assert (k - 1) * b >= 0;
  }

  /** The one-and-only quotient: a / b is the q with q * b <= a < q * b + b. */
  lemma DivUnique(a: int, b: int, q: int)
    requires b > 0 && q * b <= a < q * b + b
    ensures a / b == q
  {
    var p := a / b;
    assert (p - q) * b == p * b - q * b;
    assert (q - p) * b == q * b - p * b;
    if p > q {
      MulAtLeast(p - q, b);
    } else if p < q {
      MulAtLeast(q - p, b);
    }
  }

  /** One coordinate survives the trip to pixels and back when the cell is at least 8 pixels wide. */
  lemma RoundTripOne(x: int, w: int)
    requires w >= 8
    ensures ToCell(ToPixel(x, w), w) == x
  {
    var a := (x * w + 15) * 2 - 15;
    FloorDivIsFloor(a, w);
    if w <= 15 {
      assert a == (2 * x + 1) * w + (15 - w);
      DivUnique(a, w, 2 * x + 1);
    } else {
      assert a == (2 * x) * w + 15;
      DivUnique(a, w, 2 * x);
    }
  }

  /** Decoding undoes encoding, element by element, for every cell width of at least 8. */
  lemma {:induction false} RoundTrip(c: seq<int>, w: int)
    requires w >= 8
    ensures PointToGrid(GridToPoint(c, w), w) == c
  {
    if c != [] {
      var p := GridToPoint(c, w);
      assert p[1..] == GridToPoint(c[1..], w);
      RoundTripOne(c[0], w);
      RoundTrip(c[1..], w);
    }
  }

  /** The width bound is tight: below 8 (and not 0) the cell 0 does not come back as 0. */
  lemma RoundTripNeedsWidth(w: int)
    requires w != 0 && w < 8
    ensures PointToGrid(GridToPoint([0], w), w) != [0]
  {
    assert GridToPoint([0], w) == [30];
    var d := FloorDiv(15, w);
    FloorDivIsFloor(15, w);
    if w > 0 {
      assert (d - 2) * w > 7 - 2 * w;
    } else {
      assert d * w >= 15;
    }
    assert PointToGrid([30], w) == [FloorDiv(d, 2)];
  }

  /** Exact division undoes multiplication under the modelled `//`, for a divisor of either sign. */
  lemma FloorDivExact(k: int, b: int)
    requires b != 0
    ensures FloorDiv(k * b, b) == k
  {
    if b > 0 {
      DivUnique(k * b, b, k);
    } else {
      assert -(k * b) == k * (-b);
      DivUnique(k * (-b), -b, k);
    }
  }

  /**
   * A decoding that undoes `grid_to_point` for every nonzero width: halve first, take
   * away the offset, then divide by the width.
   */
  function ToCellCorrected(x: int, w: int): int
    requires w != 0
  {
    FloorDiv(FloorDiv(x, 2) - 15, w)
  }

  /** `point_to_grid` with the corrected decoding applied to every element. */
  function PointToGridCorrected(lst: seq<int>, w: int): (r: seq<int>)
    requires w != 0
    ensures |r| == |lst|
    ensures forall i :: 0 <= i < |lst| ==> r[i] == ToCellCorrected(lst[i], w)
  {
    if lst == [] then [] else [ToCellCorrected(lst[0], w)] + PointToGridCorrected(lst[1..], w)
  }

  /** The corrected decoding recovers every coordinate, for every nonzero width. */
  lemma RoundTripCorrectedOne(x: int, w: int)
    requires w != 0
    ensures ToCellCorrected(ToPixel(x, w), w) == x
  {
    FloorDivExact(x * w + 15, 2);
    FloorDivExact(x, w);
  }

  /** The corrected decoding undoes `grid_to_point` on every list, for every nonzero width. */
  lemma {:induction false} RoundTripCorrected(c: seq<int>, w: int)
    requires w != 0
    ensures PointToGridCorrected(GridToPoint(c, w), w) == c
  {
    if c != [] {
      var p := GridToPoint(c, w);
      assert p[1..] == GridToPoint(c[1..], w);
      RoundTripCorrectedOne(c[0], w);
      RoundTripCorrected(c[1..], w);
    }
  }

  /** On encoded pixels of width at least 8 the two decodings agree, so the model's `move` is unaffected. */
  lemma DecodingsAgree(c: seq<int>, w: int)
    requires w >= 8
    ensures PointToGridCorrected(GridToPoint(c, w), w) == PointToGrid(GridToPoint(c, w), w)
  {
    RoundTrip(c, w);
    RoundTripCorrected(c, w);
  }

  /** Pixel encoding distributes over concatenation. */
  lemma {:induction false} GridToPointAppend(a: seq<int>, b: seq<int>, w: int)
    ensures GridToPoint(a + b, w) == GridToPoint(a, w) + GridToPoint(b, w)
  {
    if a == [] {
      assert a + b == b;
    } else {
      assert (a + b)[1..] == a[1..] + b;
      GridToPointAppend(a[1..], b, w);
    }
  }

  /** The flat list [x0, y0, x1, y1, ...] of a sequence of cells, as `reset` accumulates them in `tmp` before encoding. */
  function Flatten(cells: seq<Cell>): (r: seq<int>)
    ensures |r| == 2 * |cells|
  {
    if cells == [] then [] else [cells[0].0, cells[0].1] + Flatten(cells[1..])
  }

  lemma {:induction false} FlattenAppend(a: seq<Cell>, b: seq<Cell>)
    ensures Flatten(a + b) == Flatten(a) + Flatten(b)
  {
    if a == [] {
      assert a + b == b;
    } else {
      assert (a + b)[1..] == a[1..] + b;
      FlattenAppend(a[1..], b);
    }
  }

  /** The pixel list a sequence of cells is drawn with. */
  function Encode(cells: seq<Cell>, w: int): (r: seq<int>)
    ensures |r| == 2 * |cells|
  {
    GridToPoint(Flatten(cells), w)
  }

  lemma EncodeAppend(a: seq<Cell>, b: seq<Cell>, w: int)
    ensures Encode(a + b, w) == Encode(a, w) + Encode(b, w)
  {
    FlattenAppend(a, b);
    GridToPointAppend(Flatten(a), Flatten(b), w);
  }

  /** The pixel pair of one cell decodes to that cell. */
  lemma DecodeOne(c: Cell, w: int)
    requires w >= 8
    ensures Encode([c], w) == GridToPoint([c.0, c.1], w)
    ensures PointToGrid(Encode([c], w), w) == [c.0, c.1]
  {
    assert [c][1..] == [];
    assert Flatten([c]) == [c.0, c.1];
    RoundTrip([c.0, c.1], w);
  }

  /** The last pixel pair of an encoded body is the last cell's, the rest encodes the other cells. */
  lemma EncodeSplitLast(cells: seq<Cell>, w: int)
    ensures |cells| > 0 ==> var p := Encode(cells, w);
      && p[..|p| - 2] == Encode(cells[..|cells| - 1], w)
      && p[|p| - 2..] == Encode([cells[|cells| - 1]], w)
  {
    if |cells| > 0 {
      var n := |cells|;
      assert cells == cells[..n - 1] + [cells[n - 1]];
      EncodeAppend(cells[..n - 1], [cells[n - 1]], w);
    }
  }

  /** The first pixel pair of an encoded body is the first cell's, the rest encodes the other cells. */
  lemma EncodeSplitFirst(cells: seq<Cell>, w: int)
    ensures |cells| > 0 ==> var p := Encode(cells, w);
      && p[..2] == Encode([cells[0]], w)
      && p[2..] == Encode(cells[1..], w)
  {
    if |cells| > 0 {
      assert cells == [cells[0]] + cells[1..];
      EncodeAppend([cells[0]], cells[1..], w);
    }
  }

  /**
   * The last pixel pair of an encoded body decodes to the last cell: what `move`
   * relies on to free the tail.
   */
  lemma TailDecodes(cells: seq<Cell>, w: int)
    requires w >= 8 && |cells| > 0
    ensures var p := Encode(cells, w);
      PointToGrid(p[|p| - 2..], w) == [cells[|cells| - 1].0, cells[|cells| - 1].1]
  {
    EncodeSplitLast(cells, w);
    DecodeOne(cells[|cells| - 1], w);
  }

  /** The first pixel pair of an encoded body decodes to the first cell. */
  lemma HeadDecodes(cells: seq<Cell>, w: int)
    requires w >= 8 && |cells| > 0
    ensures var p := Encode(cells, w);
      PointToGrid(p[..2], w) == [cells[0].0, cells[0].1]
  {
    EncodeSplitFirst(cells, w);
    DecodeOne(cells[0], w);
  }

  /** Encoding a new head followed by all but the last cell, as `move` rebuilds `points`. */
  lemma ShiftEncoding(cells: seq<Cell>, h: Cell, w: int)
    requires w >= 8 && |cells| > 0
    ensures var p := Encode(cells, w);
      GridToPoint([h.0, h.1], w) + p[..|p| - 2] == Encode([h] + cells[..|cells| - 1], w)
  {
    EncodeSplitLast(cells, w);
    DecodeOne(h, w);
    EncodeAppend([h], cells[..|cells| - 1], w);
  }
}
