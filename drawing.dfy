/**
 * The drawing commands of graphical_editor.py: colour one pixel, or draw an
 * inclusive vertical or horizontal segment by calling `Image.set` cell by
 * cell. A segment that reaches a bad coordinate raises there; the cells
 * written before it keep their new colour.
 */
module Drawing {
  import opened Wrappers
  import opened Images

  /** Pixel data after a run of `set` calls, and the error of the call that raised, if one did. */
  datatype Draw = Draw(grid: Grid, outcome: Outcome<CoordError>)

  /** `set(x, y, c)` for each cell in turn, stopping at the first that raises. */
  function SetAll(g: Grid, cells: seq<Cell>, c: int): (d: Draw)
    ensures |d.grid| == |g| && forall i :: 0 <= i < |g| ==> |d.grid[i]| == |g[i]|
    decreases |cells|
  {
    if cells == [] then Draw(g, Pass)
    else
      match Update(g, cells[0].0, cells[0].1, c)
      case Failure(e) => Draw(g, Fail(e))
      case Success(g') => SetAll(g', cells[1..], c)
  }

  /** The cells `(col, y)` for `y` in `range(y1, yn + 1)`, in order. */
  function VerticalCells(col: int, y1: int, yn: int): seq<Cell>
  {
    seq(Nat(yn - y1 + 1), k => (col, y1 + k))
  }

  /** The cells `(x, row)` for `x` in `range(x1, xn + 1)`, in order. */
  function HorizontalCells(x1: int, xn: int, row: int): seq<Cell>
  {
    seq(Nat(xn - x1 + 1), k => (x1 + k, row))
  }

  /** Writing `s + t` is writing `s` and then, unless that raised, `t`. */
  lemma {:induction false} SetAllAppend(g: Grid, s: seq<Cell>, t: seq<Cell>, c: int)
    ensures SetAll(g, s + t, c) ==
      if SetAll(g, s, c).outcome.Fail? then SetAll(g, s, c) else SetAll(SetAll(g, s, c).grid, t, c)
    decreases |s|
  {
    if s == [] {
      assert s + t == t;
    } else {
      assert (s + t)[0] == s[0] && (s + t)[1..] == s[1..] + t;
      match Update(g, s[0].0, s[0].1, c)
      case Failure(_) =>
      case Success(g') =>
        SetAllAppend(g', s[1..], t, c);
    }
  }

  /** Writes never change which coordinates are addressable. */
  lemma {:induction false} SetAllKeepsLocate(g: Grid, cells: seq<Cell>, c: int, x: int, y: int)
    ensures Locate(SetAll(g, cells, c).grid, x, y) == Locate(g, x, y)
    decreases |cells|
  {
    if cells != [] {
      match Update(g, cells[0].0, cells[0].1, c)
      case Failure(_) =>
      case Success(g') =>
        LookupAfterUpdate(g, cells[0].0, cells[0].1, c, x, y);
        SetAllKeepsLocate(g', cells[1..], c, x, y);
    }
  }

  /** A run of writes raises nothing exactly when every one of its cells is addressable. */
  lemma {:induction false} SetAllSucceedsIff(g: Grid, cells: seq<Cell>, c: int)
    ensures SetAll(g, cells, c).outcome == Pass <==>
      forall k :: 0 <= k < |cells| ==> Locate(g, cells[k].0, cells[k].1).Some?
    decreases |cells|
  {
    if cells != [] {
      match Update(g, cells[0].0, cells[0].1, c)
      case Failure(_) =>
      case Success(g') =>
        SetAllSucceedsIff(g', cells[1..], c);
        forall k | 1 <= k < |cells|
          ensures Locate(g', cells[k].0, cells[k].1) == Locate(g, cells[k].0, cells[k].1)
        {
          LookupAfterUpdate(g, cells[0].0, cells[0].1, c, cells[k].0, cells[k].1);
        }
        assert forall k :: 1 <= k < |cells| ==> cells[1..][k - 1] == cells[k];
    }
  }

  /**
   * The first unaddressable cell raises BadCoordinateError with its own
   * coordinates, and the data is what the cells before it wrote.
   */
  lemma {:induction false} SetAllFirstFailure(g: Grid, cells: seq<Cell>, c: int, k: nat)
    requires k < |cells| && Locate(g, cells[k].0, cells[k].1).None?
    requires forall j :: 0 <= j < k ==> Locate(g, cells[j].0, cells[j].1).Some?
    ensures SetAll(g, cells, c) ==
      Draw(SetAll(g, cells[..k], c).grid, Fail(BadCoordinateError(cells[k].0, cells[k].1)))
  {
    assert cells == cells[..k] + cells[k..];
    SetAllAppend(g, cells[..k], cells[k..], c);
    SetAllSucceedsIff(g, cells[..k], c);
    assert forall j :: 0 <= j < k ==> cells[..k][j] == cells[j];
    var g' := SetAll(g, cells[..k], c).grid;
    SetAllKeepsLocate(g, cells[..k], c, cells[k].0, cells[k].1);
    assert cells[k..][0] == cells[k];
  }

  /** Some cell of `cells` addresses the same pixel of `g` as `(x, y)`, which is addressable itself. */
  ghost predicate Hits(g: Grid, cells: seq<Cell>, x: int, y: int)
  {
    Locate(g, x, y).Some? &&
    exists k :: 0 <= k < |cells| && Locate(g, cells[k].0, cells[k].1) == Locate(g, x, y)
  }

  /**
   * After a run of writes that raised nothing, a coordinate reads the colour
   * exactly when some cell addressed the same pixel, directly or by
   * wrapping round, and reads its old colour otherwise.
   */
  lemma {:induction false} SetAllLookup(g: Grid, cells: seq<Cell>, c: int, x: int, y: int)
    requires SetAll(g, cells, c).outcome == Pass
    ensures Lookup(SetAll(g, cells, c).grid, x, y) == if Hits(g, cells, x, y) then Success(c) else Lookup(g, x, y)
    decreases |cells|
  {
    if cells != [] {
      var p := cells[0];
      var g' := Update(g, p.0, p.1, c).value;
      var rest := cells[1..];
      LookupAfterUpdate(g, p.0, p.1, c, x, y);
      SetAllLookup(g', rest, c, x, y);
      forall k | 0 <= k < |rest|
        ensures rest[k] == cells[k + 1]
        ensures Locate(g', rest[k].0, rest[k].1) == Locate(g, rest[k].0, rest[k].1)
      {
        LookupAfterUpdate(g, p.0, p.1, c, rest[k].0, rest[k].1);
      }
      if Hits(g', rest, x, y) {
        var k :| 0 <= k < |rest| && Locate(g', rest[k].0, rest[k].1) == Locate(g', x, y);
        assert Locate(g, cells[k + 1].0, cells[k + 1].1) == Locate(g, x, y);
      } else if Hits(g, cells, x, y) {
        var k :| 0 <= k < |cells| && Locate(g, cells[k].0, cells[k].1) == Locate(g, x, y);
        if k > 0 {
          assert Locate(g', rest[k - 1].0, rest[k - 1].1) == Locate(g', x, y);
        }
      }
    }
  }

  /**
   * A vertical segment raises nothing exactly when it is empty, or its column
   * and both of its ends are addressable on the `w` by `h` grid.
   */
  lemma VerticalSucceedsIff(g: Grid, w: nat, h: nat, col: int, y1: int, yn: int, c: int)
    requires IsRect(g, w, h)
    ensures SetAll(g, VerticalCells(col, y1, yn), c).outcome == Pass <==>
      yn < y1 || (1 - w <= col <= w && 1 - h <= y1 && yn <= h)
  {
    var cells := VerticalCells(col, y1, yn);
    SetAllSucceedsIff(g, cells, c);
    forall k | 0 <= k < |cells| {
      LocateRect(g, w, h, cells[k].0, cells[k].1);
    }
    if y1 <= yn && !(1 - w <= col <= w && 1 - h <= y1 && yn <= h) {
      if !(1 - h <= y1) || !(1 - w <= col <= w) {
        assert cells[0] == (col, y1);
      } else {
        assert cells[yn - y1] == (col, yn);
      }
    }
  }

  /**
   * A horizontal segment raises nothing exactly when it is empty, or its row
   * and both of its ends are addressable on the `w` by `h` grid.
   */
  lemma HorizontalSucceedsIff(g: Grid, w: nat, h: nat, x1: int, xn: int, row: int, c: int)
    requires IsRect(g, w, h)
    ensures SetAll(g, HorizontalCells(x1, xn, row), c).outcome == Pass <==>
      xn < x1 || (1 - h <= row <= h && 1 - w <= x1 && xn <= w)
  {
    var cells := HorizontalCells(x1, xn, row);
    SetAllSucceedsIff(g, cells, c);
    forall k | 0 <= k < |cells| {
      LocateRect(g, w, h, cells[k].0, cells[k].1);
    }
    if x1 <= xn && !(1 - h <= row <= h && 1 - w <= x1 && xn <= w) {
      if !(1 - w <= x1) || !(1 - h <= row <= h) {
        assert cells[0] == (x1, row);
      } else {
        assert cells[xn - x1] == (xn, row);
      }
    }
  }

  /** A vertical segment inside the image colours exactly its cells `(col, y1) .. (col, yn)`. */
  lemma {:induction false} VerticalPaints(g: Grid, w: nat, h: nat, col: int, y1: int, yn: int, c: int)
    requires IsRect(g, w, h) && 1 <= col <= w && 1 <= y1 && yn <= h
    ensures SetAll(g, VerticalCells(col, y1, yn), c).outcome == Pass
    ensures forall i, j :: 0 <= i < w && 0 <= j < h ==>
      SetAll(g, VerticalCells(col, y1, yn), c).grid[i][j] ==
        if i == col - 1 && y1 - 1 <= j < yn then c else g[i][j]
    decreases yn - y1
  {
    if y1 <= yn {
      LocateRect(g, w, h, col, y1);
      var g' := Update(g, col, y1, c).value;
      assert VerticalCells(col, y1, yn)[1..] == VerticalCells(col, y1 + 1, yn);
      VerticalPaints(g', w, h, col, y1 + 1, yn, c);
    }
  }

  /** A horizontal segment inside the image colours exactly its cells `(x1, row) .. (xn, row)`. */
  lemma {:induction false} HorizontalPaints(g: Grid, w: nat, h: nat, x1: int, xn: int, row: int, c: int)
    requires IsRect(g, w, h) && 1 <= row <= h && 1 <= x1 && xn <= w
    ensures SetAll(g, HorizontalCells(x1, xn, row), c).outcome == Pass
    ensures forall i, j :: 0 <= i < w && 0 <= j < h ==>
      SetAll(g, HorizontalCells(x1, xn, row), c).grid[i][j] ==
        if j == row - 1 && x1 - 1 <= i < xn then c else g[i][j]
    decreases xn - x1
  {
    if x1 <= xn {
      LocateRect(g, w, h, x1, row);
      var g' := Update(g, x1, row, c).value;
      assert HorizontalCells(x1, xn, row)[1..] == HorizontalCells(x1 + 1, xn, row);
      HorizontalPaints(g', w, h, x1 + 1, xn, row, c);
    }
  }

  /**
   * Row index `j` of a column of length `h` is reached by some `y'` with
   * `y1 <= y' <= yn`, when `y1` and `yn` lie in `1 - h .. h`: either directly
   * (`y' = j + 1`) or by wrapping round (`y' = j + 1 - h`).
   */
  predicate Spans(j: int, y1: int, yn: int, h: int)
  {
    (y1 <= j + 1 <= yn) || (y1 <= j + 1 - h <= yn)
  }

  /**
   * A vertical segment whose column and ends are addressable, wrapped round
   * or not, colours exactly the pixels of internal column `Wrapped(col, w)`
   * whose rows it spans, pixel `(i, j)` by pixel. So `V 0 1 3 c` paints the
   * last internal column.
   */
  lemma {:induction false} VerticalWraps(g: Grid, w: nat, h: nat, col: int, y1: int, yn: int, c: int, i: int, j: int)
    requires IsRect(g, w, h) && 1 - w <= col <= w && 1 - h <= y1 && yn <= h
    requires 0 <= i < w && 0 <= j < h
    ensures SetAll(g, VerticalCells(col, y1, yn), c).outcome == Pass
    ensures SetAll(g, VerticalCells(col, y1, yn), c).grid[i][j] ==
      if i == Wrapped(col, w) && Spans(j, y1, yn, h) then c else g[i][j]
    decreases yn - y1
  {
    if y1 <= yn {
      LocateWrapped(g, w, h, col, y1);
      var g' := Update(g, col, y1, c).value;
      assert g' == g[Wrapped(col, w) := g[Wrapped(col, w)][Wrapped(y1, h) := c]];
      assert VerticalCells(col, y1, yn)[1..] == VerticalCells(col, y1 + 1, yn);
      VerticalWraps(g', w, h, col, y1 + 1, yn, c, i, j);
      assert Spans(j, y1, yn, h) <==> Spans(j, y1 + 1, yn, h) || j == Wrapped(y1, h);
    }
  }

  /**
   * A horizontal segment whose row and ends are addressable, wrapped round
   * or not, colours exactly the pixels of internal row `Wrapped(row, h)`
   * whose columns it spans, pixel `(i, j)` by pixel.
   */
  lemma {:induction false} HorizontalWraps(g: Grid, w: nat, h: nat, x1: int, xn: int, row: int, c: int, i: int, j: int)
    requires IsRect(g, w, h) && 1 - h <= row <= h && 1 - w <= x1 && xn <= w
    requires 0 <= i < w && 0 <= j < h
    ensures SetAll(g, HorizontalCells(x1, xn, row), c).outcome == Pass
    ensures SetAll(g, HorizontalCells(x1, xn, row), c).grid[i][j] ==
      if j == Wrapped(row, h) && Spans(i, x1, xn, w) then c else g[i][j]
    decreases xn - x1
  {
    if x1 <= xn {
      LocateWrapped(g, w, h, x1, row);
      var g' := Update(g, x1, row, c).value;
      assert g' == g[Wrapped(x1, w) := g[Wrapped(x1, w)][Wrapped(row, h) := c]];
      assert HorizontalCells(x1, xn, row)[1..] == HorizontalCells(x1 + 1, xn, row);
      HorizontalWraps(g', w, h, x1 + 1, xn, row, c, i, j);
      assert Spans(i, x1, xn, w) <==> Spans(i, x1 + 1, xn, w) || i == Wrapped(x1, w);
    }
  }

  /** `colour_pixel`: `set(x, y, colour)` on the loaded image. */
  method ColourPixel(img: Image, x: int, y: int, colour: int) returns (r: Outcome<CoordError>)
    requires img.Valid()
    modifies img
    ensures img.Valid()
    ensures Draw(img.data, r) == SetAll(old(img.data), [(x, y)], colour)
    ensures r == Pass <==> Locate(old(img.data), x, y).Some?
    ensures r == Pass ==> img.Get(x, y) == Success(colour)
  {
    r := img.Set(x, y, colour);
  }

  /** `draw_vertical_segment`: `set(col, y, colour)` for `y` from `y1` up to and including `yn`. */
  method DrawVerticalSegment(img: Image, col: int, y1: int, yn: int, colour: int) returns (r: Outcome<CoordError>)
    requires img.Valid()
    modifies img
    ensures img.Valid()
    ensures Draw(img.data, r) == SetAll(old(img.data), VerticalCells(col, y1, yn), colour)
  {
    ghost var g0 := img.data;
    ghost var cells := VerticalCells(col, y1, yn);
    var y := y1;
    while y < yn + 1
      invariant y1 <= y && (y <= yn + 1 || y == y1)
      invariant img.Valid()
      invariant Draw(img.data, Pass) == SetAll(g0, cells[..y - y1], colour)
    {
      assert cells[..y - y1 + 1] == cells[..y - y1] + [(col, y)];
      SetAllAppend(g0, cells[..y - y1], [(col, y)], colour);
      r := img.Set(col, y, colour);
      if r.Fail? {
        assert cells == cells[..y - y1 + 1] + cells[y - y1 + 1..];
        SetAllAppend(g0, cells[..y - y1 + 1], cells[y - y1 + 1..], colour);
        return;
      }
      y := y + 1;
    }
    assert cells[..y - y1] == cells;
    r := Pass;
  }

  /** `draw_horizontal_segment`: `set(x, row, colour)` for `x` from `x1` up to and including `xn`. */
  method DrawHorizontalSegment(img: Image, x1: int, xn: int, row: int, colour: int) returns (r: Outcome<CoordError>)
    requires img.Valid()
    modifies img
    ensures img.Valid()
    ensures Draw(img.data, r) == SetAll(old(img.data), HorizontalCells(x1, xn, row), colour)
  {
    ghost var g0 := img.data;
    ghost var cells := HorizontalCells(x1, xn, row);
    var x := x1;
    while x < xn + 1
      invariant x1 <= x && (x <= xn + 1 || x == x1)
      invariant img.Valid()
      invariant Draw(img.data, Pass) == SetAll(g0, cells[..x - x1], colour)
    {
      assert cells[..x - x1 + 1] == cells[..x - x1] + [(x, row)];
      SetAllAppend(g0, cells[..x - x1], [(x, row)], colour);
      r := img.Set(x, row, colour);
      if r.Fail? {
        assert cells == cells[..x - x1 + 1] + cells[x - x1 + 1..];
        SetAllAppend(g0, cells[..x - x1 + 1], cells[x - x1 + 1..], colour);
        return;
      }
      x := x + 1;
    }
    assert cells[..x - x1] == cells;
    r := Pass;
  }
}
