/**
 * `fill_region` of graphical_editor.py: a scanline flood fill. A LIFO work
 * list of nodes starts with the seed; each node popped that still has the
 * target colour is widened left and right to the longest run of valid
 * target-coloured pixels on its row (`xmost_target`), the run is painted
 * with `draw_horizontal_segment`, and the valid target-coloured pixels
 * directly above and below the run are pushed.
 *
 * "Valid" (`is_valid`) means strictly inside the internal image, which for an
 * image made by the command line is exactly the user's pixels: the padding
 * column `x = width` and row `y = height` are never valid.
 */
module RegionFill {
  import opened Wrappers
  import opened Images
  import opened Drawing

  // ---------------------------------------------------------------------
  // is_valid, is_target, neighbours
  // ---------------------------------------------------------------------

  /** `is_valid`: `0 < x < width` and `0 < y < height`. */
  predicate IsValid(w: int, h: int, p: Cell)
  {
    0 < p.0 < w && 0 < p.1 < h
  }

  /** `is_target`: `get(p)` returns the target colour. */
  predicate IsTarget(g: Grid, p: Cell, target: int)
  {
    Lookup(g, p.0, p.1) == Success(target)
  }

  /** `p` and `q` are 4-neighbours: one step left, right, up or down. */
  predicate Adjacent(p: Cell, q: Cell)
  {
    (p.0 == q.0 && (q.1 == p.1 - 1 || q.1 == p.1 + 1)) ||
    (p.1 == q.1 && (q.0 == p.0 - 1 || q.0 == p.0 + 1))
  }

  /** A valid coordinate addresses its own position, without wrapping. */
  lemma ValidLookup(g: Grid, w: int, h: int, p: Cell)
    requires IsRect(g, Nat(w), Nat(h)) && IsValid(w, h, p)
    ensures Locate(g, p.0, p.1) == Some((p.0 - 1, p.1 - 1))
    ensures Lookup(g, p.0, p.1) == Success(g[p.0 - 1][p.1 - 1])
  {
    LocateRect(g, Nat(w), Nat(h), p.0, p.1);
  }

  /** Grids of the same shape address the same positions. */
  lemma SameShapeLocate(g: Grid, g': Grid, w: int, h: int, p: Cell)
    requires IsRect(g, Nat(w), Nat(h)) && IsRect(g', Nat(w), Nat(h))
    ensures Locate(g, p.0, p.1) == Locate(g', p.0, p.1)
  {
    LocateRect(g, Nat(w), Nat(h), p.0, p.1);
    LocateRect(g', Nat(w), Nat(h), p.0, p.1);
  }

  /** Pixel `p` of `g`, read without wrap-around, has colour `c`. */
  ghost predicate HasColour(g: Grid, p: Cell, c: int)
  {
    0 < p.0 <= |g| && 0 < p.1 <= |g[p.0 - 1]| && g[p.0 - 1][p.1 - 1] == c
  }

  /** Pixel `p`, read without wrap-around, differs between `g0` and `g`. */
  ghost predicate Changed(g0: Grid, g: Grid, p: Cell)
  {
    0 < p.0 <= |g0| && p.0 <= |g| && 0 < p.1 <= |g0[p.0 - 1]| && p.1 <= |g[p.0 - 1]| &&
    g[p.0 - 1][p.1 - 1] != g0[p.0 - 1][p.1 - 1]
  }

  /** `p` is valid and, read without wrap-around, has colour `target`. */
  ghost predicate ValidTarget(g: Grid, w: int, h: int, target: int, p: Cell)
  {
    IsValid(w, h, p) && HasColour(g, p, target)
  }

  /** On a valid pixel `is_target` reads the pixel itself. */
  lemma TargetIsColour(g: Grid, w: int, h: int, p: Cell, c: int)
    requires IsRect(g, Nat(w), Nat(h)) && IsValid(w, h, p)
    ensures IsTarget(g, p, c) <==> HasColour(g, p, c)
  {
    ValidLookup(g, w, h, p);
  }

  // ---------------------------------------------------------------------
  // The region of a seed
  // ---------------------------------------------------------------------

  /** A walk through 4-neighbours whose every step lands on a valid pixel of colour `target` in `g`. */
  ghost predicate IsRegionPath(g: Grid, w: int, h: int, target: int, path: seq<Cell>)
  {
    |path| >= 1 &&
    (forall k :: 1 <= k < |path| ==> ValidTarget(g, w, h, target, path[k])) &&
    (forall k :: 0 <= k < |path| - 1 ==> Adjacent(path[k], path[k + 1]))
  }

  /** `q` is reachable from `seed` through valid pixels of colour `target`. */
  ghost predicate InRegion(g: Grid, w: int, h: int, target: int, seed: Cell, q: Cell)
  {
    exists path :: IsRegionPath(g, w, h, target, path) && path[0] == seed && path[|path| - 1] == q
  }

  lemma RegionSeed(g: Grid, w: int, h: int, target: int, seed: Cell)
    ensures InRegion(g, w, h, target, seed, seed)
  {
    assert IsRegionPath(g, w, h, target, [seed]);
  }

  /** The region is closed under steps onto valid target-coloured neighbours. */
  lemma RegionStep(g: Grid, w: int, h: int, target: int, seed: Cell, p: Cell, q: Cell)
    requires InRegion(g, w, h, target, seed, p)
    requires Adjacent(p, q) && ValidTarget(g, w, h, target, q)
    ensures InRegion(g, w, h, target, seed, q)
  {
    var path :| IsRegionPath(g, w, h, target, path) && path[0] == seed && path[|path| - 1] == p;
    var path' := path + [q];
    assert forall k :: 0 <= k < |path| ==> path'[k] == path[k];
    assert IsRegionPath(g, w, h, target, path');
  }

  /** Walking along a row of valid target-coloured pixels stays in the region. */
  lemma {:induction false} RegionAlongRow(g: Grid, w: int, h: int, target: int, seed: Cell, p: Cell, x: int)
    requires InRegion(g, w, h, target, seed, p)
    requires forall x' :: (p.0 <= x' <= x || x <= x' <= p.0) ==>
      ValidTarget(g, w, h, target, (x', p.1))
    ensures InRegion(g, w, h, target, seed, (x, p.1))
    decreases if x < p.0 then p.0 - x else x - p.0
  {
    if x < p.0 {
      RegionAlongRow(g, w, h, target, seed, p, x + 1);
      RegionStep(g, w, h, target, seed, (x + 1, p.1), (x, p.1));
    } else if x > p.0 {
      RegionAlongRow(g, w, h, target, seed, p, x - 1);
      RegionStep(g, w, h, target, seed, (x - 1, p.1), (x, p.1));
    }
  }

  /** Walking along a column of valid target-coloured pixels stays in the region. */
  lemma {:induction false} RegionAlongColumn(g: Grid, w: int, h: int, target: int, seed: Cell, p: Cell, y: int)
    requires InRegion(g, w, h, target, seed, p)
    requires forall y' :: (p.1 <= y' <= y || y <= y' <= p.1) ==>
      ValidTarget(g, w, h, target, (p.0, y'))
    ensures InRegion(g, w, h, target, seed, (p.0, y))
    decreases if y < p.1 then p.1 - y else y - p.1
  {
    if y < p.1 {
      RegionAlongColumn(g, w, h, target, seed, p, y + 1);
      RegionStep(g, w, h, target, seed, (p.0, y + 1), (p.0, y));
    } else if y > p.1 {
      RegionAlongColumn(g, w, h, target, seed, p, y - 1);
      RegionStep(g, w, h, target, seed, (p.0, y - 1), (p.0, y));
    }
  }

  // ---------------------------------------------------------------------
  // What a fill may change
  // ---------------------------------------------------------------------

  /** The pixel that coordinate `p` addresses, with wrap-around, differs between `g0` and `g`. */
  ghost predicate Painted(g0: Grid, g: Grid, p: Cell)
  {
    Lookup(g0, p.0, p.1) != Lookup(g, p.0, p.1)
  }

  /** Same shape, and every pixel either kept its colour or went from `target` to `replacement`. */
  ghost predicate Recoloured(g0: Grid, g: Grid, target: int, replacement: int)
  {
    |g| == |g0| && (forall i :: 0 <= i < |g0| ==> |g[i]| == |g0[i]|) &&
    forall i, j :: 0 <= i < |g0| && 0 <= j < |g0[i]| ==>
      g[i][j] == g0[i][j] || (g0[i][j] == target && g[i][j] == replacement)
  }

  /** Same shape, and every pixel either kept its colour or now has colour `c`. */
  ghost predicate Repaints(g: Grid, g1: Grid, c: int)
  {
    |g1| == |g| && (forall i :: 0 <= i < |g| ==> |g1[i]| == |g[i]|) &&
    forall i, j :: 0 <= i < |g| && 0 <= j < |g[i]| ==> g1[i][j] == g[i][j] || g1[i][j] == c
  }

  /** Every changed position is that of a valid pixel, or the one the seed coordinate addresses. */
  ghost predicate ChangesInside(g0: Grid, g: Grid, w: int, h: int, seed: Cell)
  {
    forall i, j {:trigger g[i][j]} :: 0 <= i < |g0| && i < |g| && 0 <= j < |g0[i]| && j < |g[i]| && g[i][j] != g0[i][j] ==>
      IsValid(w, h, (i + 1, j + 1)) || Locate(g0, seed.0, seed.1) == Some((i, j))
  }

  /**
   * A seed outside the valid area is painted alone; if it wraps round onto a
   * valid pixel `p`, that pixel is exempt from the neighbour rule below.
   */
  ghost predicate Exempt(g0: Grid, w: int, h: int, seed: Cell, p: Cell)
  {
    !IsValid(w, h, seed) && Locate(g0, seed.0, seed.1) == Some((p.0 - 1, p.1 - 1))
  }

  /** A valid neighbour that still has the target colour is waiting on the work list. */
  ghost predicate Covered(g: Grid, w: int, h: int, target: int, stack: seq<Cell>, q: Cell)
  {
    ValidTarget(g, w, h, target, q) ==> q in stack
  }

  /** The pixels directly above and below `(x, y)` are covered. */
  ghost predicate RowCovered(g: Grid, w: int, h: int, target: int, stack: seq<Cell>, x: int, y: int)
  {
    Covered(g, w, h, target, stack, (x, y - 1)) && Covered(g, w, h, target, stack, (x, y + 1))
  }

  /** The pixels directly left and right of `(x, y)` are covered. */
  ghost predicate SideCovered(g: Grid, w: int, h: int, target: int, stack: seq<Cell>, x: int, y: int)
  {
    Covered(g, w, h, target, stack, (x - 1, y)) && Covered(g, w, h, target, stack, (x + 1, y))
  }

  ghost predicate NeighboursCovered(g: Grid, w: int, h: int, target: int, stack: seq<Cell>, p: Cell)
  {
    SideCovered(g, w, h, target, stack, p.0, p.1) && RowCovered(g, w, h, target, stack, p.0, p.1)
  }

  /** Every changed valid pixel has all of its target-coloured valid neighbours on the work list. */
  ghost predicate Closed(g0: Grid, g: Grid, w: int, h: int, target: int, seed: Cell, stack: seq<Cell>)
  {
    forall p {:trigger Changed(g0, g, p)} :: IsValid(w, h, p) && Changed(g0, g, p) && !Exempt(g0, w, h, seed, p) ==>
      NeighboursCovered(g, w, h, target, stack, p)
  }

  /** Every changed valid pixel (but an exempt one) lies in the seed's region. */
  ghost predicate PaintedInRegion(g0: Grid, g: Grid, w: int, h: int, target: int, seed: Cell)
  {
    forall p {:trigger Changed(g0, g, p)} :: IsValid(w, h, p) && Changed(g0, g, p) && !Exempt(g0, w, h, seed, p) ==>
      InRegion(g0, w, h, target, seed, p)
  }

  /** The work list holds valid pixels of the region, and perhaps the seed. */
  ghost predicate StackInRegion(g0: Grid, w: int, h: int, target: int, seed: Cell, stack: seq<Cell>)
  {
    forall k :: 0 <= k < |stack| ==>
      (IsValid(w, h, stack[k]) || stack[k] == seed) && InRegion(g0, w, h, target, seed, stack[k])
  }

  /** The column of `p` is one `is_valid` accepts. */
  predicate InsideColumns(w: int, p: Cell)
  {
    0 < p.0 < w
  }

  /** No valid pixel has changed, but the exempt one the seed may address. */
  ghost predicate OnlySeedPixel(g0: Grid, g: Grid, w: int, h: int, seed: Cell)
  {
    forall p {:trigger Changed(g0, g, p)} :: IsValid(w, h, p) && !Exempt(g0, w, h, seed, p) ==> !Changed(g0, g, p)
  }

  /**
   * A seed inside the valid columns but on row 0 or row `height`: once its
   * pixel is painted, the valid target pixels directly above and below it
   * are waiting on the work list.
   */
  ghost predicate SeedCovered(g0: Grid, g: Grid, w: int, h: int, target: int, seed: Cell, stack: seq<Cell>)
  {
    InsideColumns(w, seed) && (seed.1 == 0 || seed.1 == h) && Painted(g0, g, seed) ==>
      RowCovered(g, w, h, target, stack, seed.0, seed.1)
  }

  /**
   * A seed outside the valid columns is the only node ever listed, since the
   * pixels above and below it lie in its own column, and so no valid pixel
   * but an exempt one changes.
   */
  ghost predicate SeedAlone(g0: Grid, g: Grid, w: int, h: int, seed: Cell, stack: seq<Cell>)
  {
    !InsideColumns(w, seed) ==>
      (forall k :: 0 <= k < |stack| ==> stack[k] == seed) && OnlySeedPixel(g0, g, w, h, seed)
  }

  /**
   * The state of `fill_region` at the head of its loop, for data `g0` before
   * the fill, data `g` now and work list `stack`.
   */
  ghost predicate FillInvariant(g0: Grid, g: Grid, w: int, h: int, seed: Cell, target: int, replacement: int, stack: seq<Cell>)
  {
    IsRect(g0, Nat(w), Nat(h)) && IsRect(g, Nat(w), Nat(h)) &&
    Lookup(g0, seed.0, seed.1) == Success(target) && target != replacement &&
    Recoloured(g0, g, target, replacement) &&
    ChangesInside(g0, g, w, h, seed) &&
    StackInRegion(g0, w, h, target, seed, stack) &&
    (seed in stack || Painted(g0, g, seed)) &&
    Closed(g0, g, w, h, target, seed, stack) &&
    PaintedInRegion(g0, g, w, h, target, seed) &&
    SeedCovered(g0, g, w, h, target, seed, stack) &&
    SeedAlone(g0, g, w, h, seed, stack)
  }

  /**
   * What `fill_region(x, y, replacement)` leaves, when `get(seed)` returned
   * `target`: nothing changes if `target == replacement`; otherwise only
   * target-coloured pixels turn `replacement`, only valid ones besides the
   * one the seed addresses, that one among them, and all of them in the
   * seed's region. From a seed inside the valid columns every valid pixel of
   * the region changes (for a seed on row 0 or row `height` the fill goes on
   * from the pixel beside it); from a seed outside them nothing but the
   * seed's own pixel changes.
   */
  ghost predicate Filled(g0: Grid, g: Grid, w: int, h: int, seed: Cell, target: int, replacement: int)
  {
    IsRect(g0, Nat(w), Nat(h)) && IsRect(g, Nat(w), Nat(h)) &&
    Lookup(g0, seed.0, seed.1) == Success(target) &&
    (target == replacement ==> g == g0) &&
    (target != replacement ==>
      Recoloured(g0, g, target, replacement) &&
      ChangesInside(g0, g, w, h, seed) &&
      Painted(g0, g, seed) &&
      PaintedInRegion(g0, g, w, h, target, seed) &&
      (InsideColumns(w, seed) ==>
        forall q :: IsValid(w, h, q) && InRegion(g0, w, h, target, seed, q) ==> Changed(g0, g, q)) &&
      (!InsideColumns(w, seed) ==> OnlySeedPixel(g0, g, w, h, seed)))
  }

  // ---------------------------------------------------------------------
  // The termination measure
  // ---------------------------------------------------------------------

  function CountIn(col: seq<int>, c: int): nat
    decreases |col|
  {
    if col == [] then 0 else (if col[0] == c then 1 else 0) + CountIn(col[1..], c)
  }

  /** The number of pixels of colour `c`. */
  function Count(g: Grid, c: int): nat
    decreases |g|
  {
    if g == [] then 0 else CountIn(g[0], c) + Count(g[1..], c)
  }

  lemma {:induction false} CountInShrinks(a: seq<int>, b: seq<int>, c: int, k0: int)
    requires |a| == |b|
    requires forall k :: 0 <= k < |a| ==> b[k] == a[k] || (a[k] == c && b[k] != c)
    ensures CountIn(b, c) <= CountIn(a, c)
    ensures 0 <= k0 < |a| && a[k0] == c && b[k0] != c ==> CountIn(b, c) < CountIn(a, c)
    decreases |a|
  {
    if a != [] {
      CountInShrinks(a[1..], b[1..], c, k0 - 1);
    }
  }

  /**
   * Repainting pixels of colour `c` with other colours, and leaving the rest,
   * lowers the count of `c` if one pixel, at `(i0, j0)`, was repainted.
   */
  lemma {:induction false} CountShrinks(g: Grid, g': Grid, c: int, i0: int, j0: int)
    requires |g| == |g'| && forall i :: 0 <= i < |g| ==> |g[i]| == |g'[i]|
    requires forall i, j :: 0 <= i < |g| && 0 <= j < |g[i]| ==> g'[i][j] == g[i][j] || (g[i][j] == c && g'[i][j] != c)
    ensures Count(g', c) <= Count(g, c)
    ensures 0 <= i0 < |g| && 0 <= j0 < |g[i0]| && g[i0][j0] == c && g'[i0][j0] != c ==> Count(g', c) < Count(g, c)
    decreases |g|
  {
    if g != [] {
      CountInShrinks(g[0], g'[0], c, if i0 == 0 then j0 else -1);
      CountShrinks(g[1..], g'[1..], c, i0 - 1, j0);
    }
  }

  // ---------------------------------------------------------------------
  // xmost_target
  // ---------------------------------------------------------------------

  /** Every pixel `(x, y)` with `a <= x <= b` is valid and target-coloured. */
  ghost predicate TargetRun(g: Grid, w: int, h: int, target: int, y: int, a: int, b: int)
  {
    forall x :: a <= x <= b ==> ValidTarget(g, w, h, target, (x, y))
  }

  /**
   * `l` is where the leftward scan from `node` stops: the leftmost pixel of the
   * run of valid target-coloured pixels through a valid target-coloured
   * node, whose left neighbour is not valid and target-coloured; the node's
   * own column otherwise.
   */
  ghost predicate LeftEnd(g: Grid, w: int, h: int, target: int, node: Cell, l: int)
  {
    if ValidTarget(g, w, h, target, node)
    then l <= node.0 && TargetRun(g, w, h, target, node.1, l, node.0) &&
      !ValidTarget(g, w, h, target, (l - 1, node.1))
    else l == node.0
  }

  /** `r` is where the rightward scan from `node` stops, as `LeftEnd` with the directions swapped. */
  ghost predicate RightEnd(g: Grid, w: int, h: int, target: int, node: Cell, r: int)
  {
    if ValidTarget(g, w, h, target, node)
    then node.0 <= r && TargetRun(g, w, h, target, node.1, node.0, r) &&
      !ValidTarget(g, w, h, target, (r + 1, node.1))
    else r == node.0
  }

  /**
   * `xmost_target(node, direction)`: from a valid target-coloured node, the
   * last pixel of the run of valid target-coloured pixels in `direction`; the
   * node itself otherwise.
   */
  method XmostTarget(img: Image, target: int, node: Cell, direction: int) returns (last: Cell)
    requires img.Valid() && (direction == -1 || direction == 1)
    ensures last.1 == node.1
    ensures direction == -1 ==> LeftEnd(img.data, img.width, img.height, target, node, last.0)
    ensures direction == 1 ==> RightEnd(img.data, img.width, img.height, target, node, last.0)
  {
    var pos := node;
    last := node;
    if IsValid(img.width, img.height, node) {
      TargetIsColour(img.data, img.width, img.height, node, target);
    }
    while IsValid(img.width, img.height, pos) && IsTarget(img.data, pos, target)
      invariant pos.1 == node.1 && last.1 == node.1
      invariant pos == node ==> last == node
      invariant pos != node ==>
        ValidTarget(img.data, img.width, img.height, target, node) &&
        pos.0 == last.0 + direction &&
        (if direction == 1
         then node.0 <= last.0 && TargetRun(img.data, img.width, img.height, target, node.1, node.0, last.0)
         else last.0 <= node.0 && TargetRun(img.data, img.width, img.height, target, node.1, last.0, node.0))
      decreases if direction == 1 then img.width - pos.0 else pos.0
    {
      TargetIsColour(img.data, img.width, img.height, pos, target);
      last := pos;
      pos := (pos.0 + direction, pos.1);
    }
    if IsValid(img.width, img.height, pos) {
      TargetIsColour(img.data, img.width, img.height, pos, target);
    }
  }

  // ---------------------------------------------------------------------
  // One pass of the loop preserves FillInvariant
  // ---------------------------------------------------------------------

  /** The neighbour rule survives a repainting that creates no new target pixel. */
  lemma ClosedCarries(g0: Grid, g: Grid, g1: Grid, w: int, h: int, target: int, seed: Cell,
                      before: seq<Cell>, after: seq<Cell>, p: Cell)
    requires Closed(g0, g, w, h, target, seed, before)
    requires IsValid(w, h, p) && Changed(g0, g, p) && !Exempt(g0, w, h, seed, p)
    requires forall q :: ValidTarget(g1, w, h, target, q) ==>
      HasColour(g, q, target) && (q in before ==> q in after)
    ensures NeighboursCovered(g1, w, h, target, after, p)
  {
    assert NeighboursCovered(g, w, h, target, before, p);
  }

  /** Painted run: row `y` from `l` to `r` has colour `c` in `g1`; every other pixel is as in `g`. */
  ghost predicate Strip(g: Grid, g1: Grid, w: int, h: int, y: int, l: int, r: int, c: int)
  {
    IsRect(g, Nat(w), Nat(h)) && IsRect(g1, Nat(w), Nat(h)) &&
    forall i, j :: 0 <= i < Nat(w) && 0 <= j < Nat(h) ==>
      g1[i][j] == if j == y - 1 && l - 1 <= i < r then c else g[i][j]
  }

  /** Popping the work list: the node and the rest of the list lie in the region. */
  lemma StackPop(g0: Grid, w: int, h: int, target: int, seed: Cell, node: Cell, rest: seq<Cell>)
    requires StackInRegion(g0, w, h, target, seed, [node] + rest)
    ensures InRegion(g0, w, h, target, seed, node)
    ensures StackInRegion(g0, w, h, target, seed, rest)
  {
    assert ([node] + rest)[0] == node;
    forall k | 0 <= k < |rest|
      ensures (IsValid(w, h, rest[k]) || rest[k] == seed) && InRegion(g0, w, h, target, seed, rest[k])
    {
      assert rest[k] == ([node] + rest)[k + 1];
    }
  }

  /** The run found around a node of the region lies in the region. */
  lemma RunInRegion(g0: Grid, g: Grid, w: int, h: int, seed: Cell, target: int, replacement: int,
                    node: Cell, l: int, r: int)
    requires Recoloured(g0, g, target, replacement) && target != replacement
    requires InRegion(g0, w, h, target, seed, node)
    requires l <= node.0 <= r && TargetRun(g, w, h, target, node.1, l, r)
    ensures forall x {:trigger InRegion(g0, w, h, target, seed, (x, node.1))} :: l <= x <= r ==> InRegion(g0, w, h, target, seed, (x, node.1))
  {
    forall x | l <= x <= r
      ensures InRegion(g0, w, h, target, seed, (x, node.1))
    {
      forall x' | (node.0 <= x' <= x || x <= x' <= node.0)
        ensures ValidTarget(g0, w, h, target, (x', node.1))
      {
        assert ValidTarget(g, w, h, target, (x', node.1));
      }
      RegionAlongRow(g0, w, h, target, seed, node, x);
    }
  }

  /** Joining two work lists of region pixels gives one. */
  lemma StackAppend(g0: Grid, w: int, h: int, target: int, seed: Cell, a: seq<Cell>, b: seq<Cell>)
    requires StackInRegion(g0, w, h, target, seed, a) && StackInRegion(g0, w, h, target, seed, b)
    ensures StackInRegion(g0, w, h, target, seed, a + b)
  {
    forall k | 0 <= k < |a + b|
      ensures (IsValid(w, h, (a + b)[k]) || (a + b)[k] == seed) && InRegion(g0, w, h, target, seed, (a + b)[k])
    {
      if k < |a| {
        assert (a + b)[k] == a[k];
      } else {
        assert (a + b)[k] == b[k - |a|];
      }
    }
  }

  /** A popped node that no longer has the target colour is dropped. */
  lemma SkipStep(g0: Grid, g: Grid, w: int, h: int, seed: Cell, target: int, replacement: int,
                 node: Cell, rest: seq<Cell>)
    requires FillInvariant(g0, g, w, h, seed, target, replacement, [node] + rest)
    requires !IsTarget(g, node, target)
    ensures FillInvariant(g0, g, w, h, seed, target, replacement, rest)
  {
    var before := [node] + rest;
    StackPop(g0, w, h, target, seed, node, rest);
    if IsValid(w, h, node) {
      TargetIsColour(g, w, h, node, target);
    }
    assert forall q :: q in before && q != node ==> q in rest;
    forall p | IsValid(w, h, p) && Changed(g0, g, p) && !Exempt(g0, w, h, seed, p)
      ensures NeighboursCovered(g, w, h, target, rest, p)
    {
      ClosedCarries(g0, g, g, w, h, target, seed, before, rest, p);
    }
    SeedCarries(g0, g, g, w, h, target, seed, before, rest);
    forall k | 0 <= k < |rest|
      ensures rest[k] == before[k + 1]
    {
    }
  }

  /**
   * The seed rule survives a step that creates no target pixel, keeps every
   * listed node but target-free ones, and leaves a painted seed painted.
   */
  lemma SeedCarries(g0: Grid, g: Grid, g1: Grid, w: int, h: int, target: int, seed: Cell,
                    before: seq<Cell>, after: seq<Cell>)
    requires SeedCovered(g0, g, w, h, target, seed, before)
    requires Painted(g0, g1, seed) ==> Painted(g0, g, seed)
    requires forall q :: ValidTarget(g1, w, h, target, q) ==>
      HasColour(g, q, target) && (q in before ==> q in after)
    ensures SeedCovered(g0, g1, w, h, target, seed, after)
  {
    if InsideColumns(w, seed) && (seed.1 == 0 || seed.1 == h) && Painted(g0, g1, seed) {
      assert RowCovered(g, w, h, target, before, seed.0, seed.1);
    }
  }

  /** Painting a non-empty run of target pixels only repaints target pixels, and fewer remain. */
  lemma RunRepaint(g0: Grid, g: Grid, g1: Grid, w: int, h: int, seed: Cell, target: int, replacement: int,
                   y: int, l: int, r: int)
    requires IsRect(g, Nat(w), Nat(h)) && target != replacement
    requires Recoloured(g0, g, target, replacement) && ChangesInside(g0, g, w, h, seed)
    requires l <= r && TargetRun(g, w, h, target, y, l, r)
    requires Strip(g, g1, w, h, y, l, r, replacement)
    ensures Recoloured(g0, g1, target, replacement) && ChangesInside(g0, g1, w, h, seed)
    ensures Repaints(g, g1, replacement)
    ensures Count(g1, target) < Count(g, target)
  {
    forall i, j | 0 <= i < |g| && 0 <= j < |g[i]|
      ensures g1[i][j] == g[i][j] || (g[i][j] == target && g1[i][j] == replacement)
      ensures g1[i][j] != g[i][j] ==> IsValid(w, h, (i + 1, j + 1))
    {
      if j == y - 1 && l - 1 <= i < r {
        assert ValidTarget(g, w, h, target, (i + 1, y));
      }
    }
    assert ValidTarget(g, w, h, target, (l, y));
    CountShrinks(g, g1, target, l - 1, y - 1);
  }

  /** Drawing a run of valid target pixels paints a strip, within the recolouring bounds, and fewer target pixels remain. */
  lemma RunGrid(g0: Grid, g: Grid, g1: Grid, w: int, h: int, seed: Cell, target: int, replacement: int,
                y: int, l: int, r: int, drawn: Outcome<CoordError>)
    requires IsRect(g, Nat(w), Nat(h)) && target != replacement
    requires Recoloured(g0, g, target, replacement) && ChangesInside(g0, g, w, h, seed)
    requires l <= r && TargetRun(g, w, h, target, y, l, r)
    requires Draw(g1, drawn) == SetAll(g, HorizontalCells(l, r, y), replacement)
    ensures Strip(g, g1, w, h, y, l, r, replacement)
    ensures Recoloured(g0, g1, target, replacement) && ChangesInside(g0, g1, w, h, seed)
    ensures Repaints(g, g1, replacement)
    ensures Count(g1, target) < Count(g, target)
  {
    assert ValidTarget(g, w, h, target, (l, y)) && ValidTarget(g, w, h, target, (r, y));
    HorizontalPaints(g, Nat(w), Nat(h), l, r, y, replacement);
    RunRepaint(g0, g, g1, w, h, seed, target, replacement, y, l, r);
  }

  /** After the pushes the work list holds region pixels and covers the pixels above and below the run. */
  lemma RunList(g0: Grid, g: Grid, g1: Grid, w: int, h: int, seed: Cell, target: int, replacement: int,
                node: Cell, rest: seq<Cell>, l: int, r: int)
    requires IsRect(g0, Nat(w), Nat(h)) && IsRect(g1, Nat(w), Nat(h)) && target != replacement
    requires Recoloured(g0, g, target, replacement) && Recoloured(g0, g1, target, replacement)
    requires StackInRegion(g0, w, h, target, seed, [node] + rest)
    requires l <= node.0 <= r && TargetRun(g, w, h, target, node.1, l, r)
    ensures StackInRegion(g0, w, h, target, seed, Frontier(g1, w, h, target, l, r, node.1) + rest)
    ensures forall x :: l <= x <= r ==>
      RowCovered(g1, w, h, target, Frontier(g1, w, h, target, l, r, node.1) + rest, x, node.1)
    ensures forall x {:trigger InRegion(g0, w, h, target, seed, (x, node.1))} :: l <= x <= r ==> InRegion(g0, w, h, target, seed, (x, node.1))
  {
    StackPop(g0, w, h, target, seed, node, rest);
    RunInRegion(g0, g, w, h, seed, target, replacement, node, l, r);
    FrontierInRegion(g0, g1, w, h, seed, target, replacement, l, r, node.1);
    FrontierCovers(g1, w, h, target, l, r, node.1, rest);
    StackAppend(g0, w, h, target, seed, Frontier(g1, w, h, target, l, r, node.1), rest);
  }

  /**
   * Painting the run `(l, y) .. (r, y)` around a valid target-coloured node
   * and pushing its target-coloured valid neighbours above and below keeps
   * the invariant, and lowers the number of target pixels.
   */
  lemma PaintRunStep(g0: Grid, g: Grid, g1: Grid, w: int, h: int, seed: Cell, target: int, replacement: int,
                     node: Cell, rest: seq<Cell>, l: int, r: int, drawn: Outcome<CoordError>)
    requires FillInvariant(g0, g, w, h, seed, target, replacement, [node] + rest)
    requires IsValid(w, h, node)
    requires l <= node.0 && TargetRun(g, w, h, target, node.1, l, node.0)
    requires node.0 <= r && TargetRun(g, w, h, target, node.1, node.0, r)
    requires !ValidTarget(g, w, h, target, (l - 1, node.1))
    requires !ValidTarget(g, w, h, target, (r + 1, node.1))
    requires Draw(g1, drawn) == SetAll(g, HorizontalCells(l, r, node.1), replacement)
    ensures FillInvariant(g0, g1, w, h, seed, target, replacement, Frontier(g1, w, h, target, l, r, node.1) + rest)
    ensures Count(g1, target) < Count(g, target)
  {
    assert TargetRun(g, w, h, target, node.1, l, r);
    RunGrid(g0, g, g1, w, h, seed, target, replacement, node.1, l, r, drawn);
    RunList(g0, g, g1, w, h, seed, target, replacement, node, rest, l, r);
    RunClosed(g0, g, g1, w, h, seed, target, replacement, node, rest, l, r);
    RunSeedCovered(g0, g, g1, w, h, seed, target, replacement, node, rest, l, r);
    // A listed valid node means the seed lies inside the valid columns.
    assert ([node] + rest)[0] == node;
  }

  /**
   * Painting a run of valid pixels keeps the seed rule: the run never
   * touches the padding row, which is what a seed on row 0 or row `height`
   * addresses.
   */
  lemma RunSeedCovered(g0: Grid, g: Grid, g1: Grid, w: int, h: int, seed: Cell, target: int, replacement: int,
                       node: Cell, rest: seq<Cell>, l: int, r: int)
    requires IsRect(g0, Nat(w), Nat(h)) && target != replacement
    requires IsValid(w, h, node) && l <= node.0 <= r
    requires Strip(g, g1, w, h, node.1, l, r, replacement)
    requires SeedCovered(g0, g, w, h, target, seed, [node] + rest)
    ensures SeedCovered(g0, g1, w, h, target, seed, Frontier(g1, w, h, target, l, r, node.1) + rest)
  {
    var before, after := [node] + rest, Frontier(g1, w, h, target, l, r, node.1) + rest;
    assert forall q :: q in rest ==> q in after;
    assert forall q :: q in before && q != node ==> q in rest;
    RunOutside(g0, g, g1, w, h, target, replacement, node.1, l, r, node, before, after);
    if InsideColumns(w, seed) && (seed.1 == 0 || seed.1 == h) {
      LocateWrapped(g0, Nat(w), Nat(h), seed.0, seed.1);
      LocateWrapped(g, Nat(w), Nat(h), seed.0, seed.1);
      LocateWrapped(g1, Nat(w), Nat(h), seed.0, seed.1);
      assert g1[seed.0 - 1][h - 1] == g[seed.0 - 1][h - 1];
      SeedCarries(g0, g, g1, w, h, target, seed, before, after);
    }
  }

  /** The seed stays on the work list or has its pixel changed, once a run through a valid node is painted. */
  lemma SeedKept(g0: Grid, g: Grid, g1: Grid, w: int, h: int, seed: Cell, target: int, replacement: int,
                 node: Cell, rest: seq<Cell>, after: seq<Cell>)
    requires IsRect(g0, Nat(w), Nat(h)) && IsRect(g, Nat(w), Nat(h)) && IsRect(g1, Nat(w), Nat(h))
    requires Lookup(g0, seed.0, seed.1) == Success(target) && target != replacement
    requires Recoloured(g0, g, target, replacement) && Repaints(g, g1, replacement)
    requires seed in [node] + rest || Painted(g0, g, seed)
    requires IsValid(w, h, node) && HasColour(g1, node, replacement)
    requires forall q :: q in rest ==> q in after
    ensures seed in after || Painted(g0, g1, seed)
  {
    if seed == node {
      TargetIsColour(g0, w, h, seed, target);
      ValidLookup(g1, w, h, seed);
    } else if seed !in rest {
      SameShapeLocate(g0, g, w, h, seed);
      SameShapeLocate(g0, g1, w, h, seed);
    }
  }

  /** The seed rule, the neighbour rule and the region bound for the data after painting a run. */
  lemma RunClosed(g0: Grid, g: Grid, g1: Grid, w: int, h: int, seed: Cell, target: int, replacement: int,
                  node: Cell, rest: seq<Cell>, l: int, r: int)
    requires IsRect(g0, Nat(w), Nat(h)) && IsRect(g, Nat(w), Nat(h)) && target != replacement
    requires Lookup(g0, seed.0, seed.1) == Success(target) && Recoloured(g0, g, target, replacement)
    requires seed in [node] + rest || Painted(g0, g, seed)
    requires Closed(g0, g, w, h, target, seed, [node] + rest) && PaintedInRegion(g0, g, w, h, target, seed)
    requires IsValid(w, h, node) && l <= node.0 <= r
    requires !ValidTarget(g, w, h, target, (l - 1, node.1))
    requires !ValidTarget(g, w, h, target, (r + 1, node.1))
    requires Strip(g, g1, w, h, node.1, l, r, replacement) && Repaints(g, g1, replacement)
    requires forall x :: l <= x <= r ==>
      RowCovered(g1, w, h, target, Frontier(g1, w, h, target, l, r, node.1) + rest, x, node.1)
    requires forall x {:trigger InRegion(g0, w, h, target, seed, (x, node.1))} :: l <= x <= r ==> InRegion(g0, w, h, target, seed, (x, node.1))
    ensures var after := Frontier(g1, w, h, target, l, r, node.1) + rest;
      (seed in after || Painted(g0, g1, seed)) &&
      Closed(g0, g1, w, h, target, seed, after) && PaintedInRegion(g0, g1, w, h, target, seed)
  {
    var y := node.1;
    var before := [node] + rest;
    var after := Frontier(g1, w, h, target, l, r, y) + rest;
    assert forall q :: q in rest ==> q in after;
    assert forall q :: q in before && q != node ==> q in rest;
    assert HasColour(g1, node, replacement);
    SeedKept(g0, g, g1, w, h, seed, target, replacement, node, rest, after);
    RunOutside(g0, g, g1, w, h, target, replacement, y, l, r, node, before, after);
    RunEnds(g, g1, w, h, target, replacement, y, l, r, after);
    forall p | IsValid(w, h, p) && Changed(g0, g1, p) && !Exempt(g0, w, h, seed, p)
      ensures NeighboursCovered(g1, w, h, target, after, p)
      ensures InRegion(g0, w, h, target, seed, p)
    {
      if p.1 == y && l <= p.0 <= r {
        assert (p.0, p.1) == (p.0, y);
      } else {
        assert Changed(g0, g, p);
        ClosedCarries(g0, g, g1, w, h, target, seed, before, after, p);
      }
    }
  }

  /**
   * Neither end of a painted maximal run leaves a target pixel beside it on
   * its row: inside the run everything has the replacement colour, and the
   * pixels just past its ends were not target-coloured.
   */
  lemma RunEnds(g: Grid, g1: Grid, w: int, h: int, target: int, replacement: int,
                y: int, l: int, r: int, stack: seq<Cell>)
    requires IsRect(g, Nat(w), Nat(h)) && target != replacement
    requires !ValidTarget(g, w, h, target, (l - 1, y))
    requires !ValidTarget(g, w, h, target, (r + 1, y))
    requires Strip(g, g1, w, h, y, l, r, replacement)
    ensures forall x :: l <= x <= r ==> SideCovered(g1, w, h, target, stack, x, y)
  {
    forall x | l <= x <= r
      ensures SideCovered(g1, w, h, target, stack, x, y)
    {
      if IsValid(w, h, (x - 1, y)) {
        assert g1[x - 2][y - 1] == if l < x then replacement else g[x - 2][y - 1];
      }
      if IsValid(w, h, (x + 1, y)) {
        assert g1[x][y - 1] == if x < r then replacement else g[x][y - 1];
      }
    }
  }

  /**
   * Off the painted run the data reads as before, and the only target pixels
   * left are old ones, none of them the popped node.
   */
  lemma RunOutside(g0: Grid, g: Grid, g1: Grid, w: int, h: int, target: int, replacement: int,
                   y: int, l: int, r: int, node: Cell, before: seq<Cell>, after: seq<Cell>)
    requires IsRect(g0, Nat(w), Nat(h)) && IsRect(g, Nat(w), Nat(h))
    requires target != replacement && node.1 == y && l <= node.0 <= r
    requires Strip(g, g1, w, h, y, l, r, replacement)
    requires forall q :: q in before && q != node ==> q in after
    ensures forall q :: ValidTarget(g1, w, h, target, q) ==>
      HasColour(g, q, target) && (q in before ==> q in after)
    ensures forall p {:trigger Changed(g0, g1, p)} :: IsValid(w, h, p) && !(p.1 == y && l <= p.0 <= r) ==>
      (Changed(g0, g1, p) <==> Changed(g0, g, p))
  {
  }

  /**
   * Painting a seed that lies outside the valid area, which only writes the
   * pixel it addresses, and pushing its neighbours keeps the invariant and
   * lowers the number of target pixels.
   */
  lemma PaintSeedStep(g0: Grid, g: Grid, g1: Grid, w: int, h: int, seed: Cell, target: int, replacement: int,
                      rest: seq<Cell>, drawn: Outcome<CoordError>)
    requires FillInvariant(g0, g, w, h, seed, target, replacement, [seed] + rest)
    requires !IsValid(w, h, seed) && IsTarget(g, seed, target)
    requires Draw(g1, drawn) == SetAll(g, HorizontalCells(seed.0, seed.0, seed.1), replacement)
    ensures FillInvariant(g0, g1, w, h, seed, target, replacement, Frontier(g1, w, h, target, seed.0, seed.0, seed.1) + rest)
    ensures Count(g1, target) < Count(g, target)
  {
    SeedGrid(g0, g, g1, w, h, seed, target, replacement, drawn);
    SeedList(g0, g1, w, h, seed, target, replacement, rest);
    SeedClosed(g0, g, g1, w, h, seed, target, replacement, rest, Frontier(g1, w, h, target, seed.0, seed.0, seed.1));
    FrontierCovers(g1, w, h, target, seed.0, seed.0, seed.1, rest);
    SeedStepAlone(g0, g, g1, w, h, seed, target, rest);
  }

  /**
   * Outside the valid columns nothing is pushed beside the seed, and the
   * only pixel painted is the seed's own.
   */
  lemma SeedStepAlone(g0: Grid, g: Grid, g1: Grid, w: int, h: int, seed: Cell, target: int, rest: seq<Cell>)
    requires SeedAlone(g0, g, w, h, seed, [seed] + rest)
    requires forall p {:trigger Changed(g0, g1, p)} :: IsValid(w, h, p) && !Exempt(g0, w, h, seed, p) ==>
      (Changed(g0, g1, p) <==> Changed(g0, g, p))
    ensures SeedAlone(g0, g1, w, h, seed, Frontier(g1, w, h, target, seed.0, seed.0, seed.1) + rest)
  {
    if !InsideColumns(w, seed) {
      assert Frontier(g1, w, h, target, seed.0, seed.0, seed.1) == [];
      forall k | 0 <= k < |rest|
        ensures rest[k] == seed
      {
        assert rest[k] == ([seed] + rest)[k + 1];
      }
    }
  }

  /**
   * Painting a seed outside the valid area writes only the pixel it
   * addresses: the recolouring bounds hold, fewer target pixels remain, the
   * seed reads differently, and no valid pixel but an exempt one changes.
   */
  lemma SeedGrid(g0: Grid, g: Grid, g1: Grid, w: int, h: int, seed: Cell, target: int, replacement: int,
                 drawn: Outcome<CoordError>)
    requires IsRect(g0, Nat(w), Nat(h)) && IsRect(g, Nat(w), Nat(h)) && target != replacement
    requires Recoloured(g0, g, target, replacement) && ChangesInside(g0, g, w, h, seed)
    requires !IsValid(w, h, seed) && IsTarget(g, seed, target)
    requires Draw(g1, drawn) == SetAll(g, HorizontalCells(seed.0, seed.0, seed.1), replacement)
    ensures IsRect(g1, Nat(w), Nat(h))
    ensures Recoloured(g0, g1, target, replacement) && ChangesInside(g0, g1, w, h, seed)
    ensures Count(g1, target) < Count(g, target)
    ensures Painted(g0, g1, seed)
    ensures forall p {:trigger Changed(g0, g1, p)} :: IsValid(w, h, p) && !Exempt(g0, w, h, seed, p) ==>
      (Changed(g0, g1, p) <==> Changed(g0, g, p))
    ensures forall q :: ValidTarget(g1, w, h, target, q) ==>
      HasColour(g, q, target)
  {
    SameShapeLocate(g0, g, w, h, seed);
    assert HorizontalCells(seed.0, seed.0, seed.1) == [seed];
    var cs := Locate(g, seed.0, seed.1).value;
    assert g1 == g[cs.0 := g[cs.0][cs.1 := replacement]];
    SeedRepaint(g0, g, g1, w, h, seed, target, replacement, cs);
    LookupAfterUpdate(g, seed.0, seed.1, replacement, seed.0, seed.1);
  }

  /** The seed outside the valid area is popped and its valid target neighbours pushed: the work list stays in the region. */
  lemma SeedList(g0: Grid, g1: Grid, w: int, h: int, seed: Cell, target: int, replacement: int, rest: seq<Cell>)
    requires IsRect(g0, Nat(w), Nat(h)) && IsRect(g1, Nat(w), Nat(h))
    requires Recoloured(g0, g1, target, replacement) && target != replacement
    requires StackInRegion(g0, w, h, target, seed, [seed] + rest)
    ensures StackInRegion(g0, w, h, target, seed, Frontier(g1, w, h, target, seed.0, seed.0, seed.1) + rest)
  {
    StackPop(g0, w, h, target, seed, seed, rest);
    FrontierInRegion(g0, g1, w, h, seed, target, replacement, seed.0, seed.0, seed.1);
    StackAppend(g0, w, h, target, seed, Frontier(g1, w, h, target, seed.0, seed.0, seed.1), rest);
  }

  /** Repainting the target pixel the seed addresses keeps the recolouring bounds, and fewer target pixels remain. */
  lemma SeedRepaint(g0: Grid, g: Grid, g1: Grid, w: int, h: int, seed: Cell, target: int, replacement: int, cs: (nat, nat))
    requires IsRect(g, Nat(w), Nat(h)) && target != replacement
    requires Recoloured(g0, g, target, replacement) && ChangesInside(g0, g, w, h, seed)
    requires Locate(g0, seed.0, seed.1) == Some(cs) && cs.0 < |g| && cs.1 < |g[cs.0]| && g[cs.0][cs.1] == target
    requires g1 == g[cs.0 := g[cs.0][cs.1 := replacement]]
    ensures Recoloured(g0, g1, target, replacement) && ChangesInside(g0, g1, w, h, seed)
    ensures Count(g1, target) < Count(g, target)
  {
    CountShrinks(g, g1, target, cs.0, cs.1);
  }

  /** The neighbour rule and the region bound after repainting the pixel of a seed outside the valid area. */
  lemma SeedClosed(g0: Grid, g: Grid, g1: Grid, w: int, h: int, seed: Cell, target: int, replacement: int,
                   rest: seq<Cell>, pushed: seq<Cell>)
    requires !IsValid(w, h, seed)
    requires Closed(g0, g, w, h, target, seed, [seed] + rest) && PaintedInRegion(g0, g, w, h, target, seed)
    requires forall p {:trigger Changed(g0, g1, p)} :: IsValid(w, h, p) && !Exempt(g0, w, h, seed, p) ==>
      (Changed(g0, g1, p) <==> Changed(g0, g, p))
    requires forall q :: ValidTarget(g1, w, h, target, q) ==>
      HasColour(g, q, target)
    ensures Closed(g0, g1, w, h, target, seed, pushed + rest) && PaintedInRegion(g0, g1, w, h, target, seed)
  {
    var before, after := [seed] + rest, pushed + rest;
    assert forall q :: q in before && q != seed ==> q in after;
    forall p | IsValid(w, h, p) && Changed(g0, g1, p) && !Exempt(g0, w, h, seed, p)
      ensures NeighboursCovered(g1, w, h, target, after, p)
      ensures InRegion(g0, w, h, target, seed, p)
    {
      assert Changed(g0, g, p);
      ClosedCarries(g0, g, g1, w, h, target, seed, before, after, p);
    }
  }


  // ---------------------------------------------------------------------
  // What the fill achieves
  // ---------------------------------------------------------------------

  /**
   * With the work list empty, and no valid pixel exempt, every pixel
   * reachable from a changed valid pixel has changed: the last step of each
   * walk lands on a target neighbour of a changed pixel, and no such
   * neighbour can still have the target colour.
   */
  lemma {:induction false} PathPainted(g0: Grid, g: Grid, w: int, h: int, seed: Cell, target: int, path: seq<Cell>)
    requires IsRect(g0, Nat(w), Nat(h)) && IsRect(g, Nat(w), Nat(h))
    requires forall p :: IsValid(w, h, p) ==> !Exempt(g0, w, h, seed, p)
    requires Closed(g0, g, w, h, target, seed, [])
    requires IsRegionPath(g0, w, h, target, path)
    requires IsValid(w, h, path[0]) && Changed(g0, g, path[0])
    ensures Changed(g0, g, path[|path| - 1])
    decreases |path|
  {
    if |path| > 1 {
      var prefix := path[..|path| - 1];
      assert forall k :: 0 <= k < |prefix| ==> prefix[k] == path[k];
      PathPainted(g0, g, w, h, seed, target, prefix);
      var p, q := path[|path| - 2], path[|path| - 1];
      assert IsValid(w, h, p) by {
        if |path| - 2 > 0 {
          assert IsValid(w, h, path[|path| - 2]);
        }
      }
      assert Adjacent(p, q) && HasColour(g0, q, target);
      assert NeighboursCovered(g, w, h, target, [], p);
    }
  }

  /** From a valid seed, an empty work list means the whole region has changed. */
  lemma RegionPainted(g0: Grid, g: Grid, w: int, h: int, seed: Cell, target: int)
    requires IsRect(g0, Nat(w), Nat(h)) && IsRect(g, Nat(w), Nat(h))
    requires IsValid(w, h, seed) && Painted(g0, g, seed)
    requires Closed(g0, g, w, h, target, seed, [])
    ensures forall q :: InRegion(g0, w, h, target, seed, q) ==> Changed(g0, g, q)
  {
    ValidLookup(g0, w, h, seed);
    ValidLookup(g, w, h, seed);
    assert forall p :: IsValid(w, h, p) ==> !Exempt(g0, w, h, seed, p);
    forall q | InRegion(g0, w, h, target, seed, q)
      ensures Changed(g0, g, q)
    {
      var path :| IsRegionPath(g0, w, h, target, path) && path[0] == seed && path[|path| - 1] == q;
      PathPainted(g0, g, w, h, seed, target, path);
    }
  }

  /**
   * From a seed inside the valid columns but outside the valid area, an
   * empty work list means every valid pixel of the region has changed. A
   * walk can leave such a seed only up or down, which needs the seed on row
   * 0 or row `height`; the pixel it steps onto was waiting, so it changed,
   * and the seed addresses the padding row, so no valid pixel is exempt.
   */
  lemma EdgeRegionPainted(g0: Grid, g: Grid, w: int, h: int, seed: Cell, target: int)
    requires IsRect(g0, Nat(w), Nat(h)) && IsRect(g, Nat(w), Nat(h))
    requires InsideColumns(w, seed) && !IsValid(w, h, seed) && Locate(g0, seed.0, seed.1).Some?
    requires Painted(g0, g, seed) && SeedCovered(g0, g, w, h, target, seed, [])
    requires Closed(g0, g, w, h, target, seed, [])
    ensures forall q :: IsValid(w, h, q) && InRegion(g0, w, h, target, seed, q) ==> Changed(g0, g, q)
  {
    LocateRect(g0, Nat(w), Nat(h), seed.0, seed.1);
    forall q | IsValid(w, h, q) && InRegion(g0, w, h, target, seed, q)
      ensures Changed(g0, g, q)
    {
      var path :| IsRegionPath(g0, w, h, target, path) && path[0] == seed && path[|path| - 1] == q;
      assert |path| > 1;
      var p := path[1];
      assert Adjacent(seed, p) && ValidTarget(g0, w, h, target, p);
      assert p.0 == seed.0 && (seed.1 == 0 || seed.1 == h);
      assert RowCovered(g, w, h, target, [], seed.0, seed.1);
      assert Changed(g0, g, p);
      LocateWrapped(g0, Nat(w), Nat(h), seed.0, seed.1);
      assert forall p :: IsValid(w, h, p) ==> !Exempt(g0, w, h, seed, p);
      var tail := path[1..];
      assert forall k :: 0 <= k < |tail| ==> tail[k] == path[k + 1];
      assert IsRegionPath(g0, w, h, target, tail);
      PathPainted(g0, g, w, h, seed, target, tail);
    }
  }

  /**
   * `Filled` fixes every pixel, from any seed: it has the replacement colour
   * if the seed addresses it, or if it is a valid pixel of the seed's region
   * and the seed lies inside the valid columns; otherwise it keeps its old
   * colour.
   */
  lemma FilledAt(g0: Grid, g: Grid, w: int, h: int, seed: Cell, target: int, replacement: int, i: int, j: int)
    requires target != replacement
    requires Filled(g0, g, w, h, seed, target, replacement)
    requires 0 <= i < |g0| && 0 <= j < |g0[i]|
    ensures g[i][j] == if Locate(g0, seed.0, seed.1) == Some((i, j)) ||
                          (InsideColumns(w, seed) && IsValid(w, h, (i + 1, j + 1)) &&
                           InRegion(g0, w, h, target, seed, (i + 1, j + 1)))
                       then replacement else g0[i][j]
  {
    SameShapeLocate(g0, g, w, h, seed);
    var cs := Locate(g0, seed.0, seed.1).value;
    assert g[cs.0][cs.1] != g0[cs.0][cs.1];
    var p := (i + 1, j + 1);
    if (i, j) != cs && IsValid(w, h, p) {
      assert !Exempt(g0, w, h, seed, p);
      if InsideColumns(w, seed) && InRegion(g0, w, h, target, seed, p) {
        assert Changed(g0, g, p);
      } else {
        assert !Changed(g0, g, p);
      }
    }
  }

  /** `Filled` fixes the result uniquely, from any seed: any two grids meeting it are equal. */
  lemma FillDeterministic(g0: Grid, g: Grid, g': Grid, w: int, h: int, seed: Cell, target: int, replacement: int)
    requires Filled(g0, g, w, h, seed, target, replacement)
    requires Filled(g0, g', w, h, seed, target, replacement)
    ensures g == g'
  {
    if target != replacement {
      forall i | 0 <= i < |g|
        ensures g[i] == g'[i]
      {
        forall j | 0 <= j < |g[i]|
          ensures g[i][j] == g'[i][j]
        {
          FilledAt(g0, g, w, h, seed, target, replacement, i, j);
          FilledAt(g0, g', w, h, seed, target, replacement, i, j);
        }
      }
    }
  }

  /** On an image of one colour, filling from any valid pixel repaints every valid pixel. */
  lemma UniformFill(g0: Grid, g: Grid, w: int, h: int, seed: Cell, target: int, replacement: int, q: Cell)
    requires IsValid(w, h, seed) && IsValid(w, h, q)
    requires forall p :: IsValid(w, h, p) ==> HasColour(g0, p, target)
    requires Filled(g0, g, w, h, seed, target, replacement) && target != replacement
    ensures HasColour(g, q, replacement)
  {
    RegionSeed(g0, w, h, target, seed);
    RegionAlongRow(g0, w, h, target, seed, seed, q.0);
    RegionAlongColumn(g0, w, h, target, seed, (q.0, seed.1), q.1);
    assert (q.0, q.1) == q;
  }

  /**
   * On an image of one colour, filling from row 0 inside the valid columns
   * (`F x 0 c` at the command line) also repaints every valid pixel: the
   * fill steps down onto row 1 and goes on from there.
   */
  lemma EdgeUniformFill(g0: Grid, g: Grid, w: int, h: int, x: int, target: int, replacement: int, q: Cell)
    requires 0 < x < w && IsValid(w, h, q)
    requires forall p :: IsValid(w, h, p) ==> HasColour(g0, p, target)
    requires Filled(g0, g, w, h, (x, 0), target, replacement) && target != replacement
    ensures HasColour(g, q, replacement)
  {
    var seed := (x, 0);
    RegionSeed(g0, w, h, target, seed);
    RegionStep(g0, w, h, target, seed, seed, (x, 1));
    RegionAlongRow(g0, w, h, target, seed, (x, 1), q.0);
    RegionAlongColumn(g0, w, h, target, seed, (q.0, 1), q.1);
    assert (q.0, q.1) == q;
  }

  // ---------------------------------------------------------------------
  // fill_region
  // ---------------------------------------------------------------------

  /**
   * `fill_region(x, y, replacement)`. `get(x, y)` raises for a bad seed
   * coordinate; nothing happens when the seed already has the replacement
   * colour; otherwise the result is described by `Filled`.
   */
  method FillRegion(img: Image, x: int, y: int, replacement: int) returns (r: Outcome<CoordError>)
    requires img.Valid()
    modifies img
    ensures img.Valid()
    ensures old(img.Get(x, y)).Failure? ==> r == Fail(BadCoordinateError(x, y)) && img.data == old(img.data)
    ensures old(img.Get(x, y)).Success? ==>
      r == Pass && Filled(old(img.data), img.data, img.width, img.height, (x, y), old(img.Get(x, y)).value, replacement)
  {
    var got := img.Get(x, y);
    if got.Failure? {
      return Fail(got.error);
    }
    var target := got.value;
    r := Pass;
    if target == replacement {
      return;
    }
    ghost var g0 := img.data;
    ghost var seed := (x, y);
    ghost var w, h := img.width, img.height;
    var toProcess: seq<Cell> := [(x, y)];
    FillStart(g0, w, h, seed, target, replacement);
    while |toProcess| > 0
      invariant img.Valid()
      invariant FillInvariant(g0, img.data, w, h, seed, target, replacement, toProcess)
      decreases Count(img.data, target), |toProcess|
    {
      var node := toProcess[0];
      var rest := toProcess[1..];
      assert toProcess == [node] + rest;
      toProcess := rest;
      ghost var g := img.data;
      NodeAddressable(g0, g, w, h, seed, target, replacement, node, rest);
      if !IsTarget(img.data, node, target) {
        SkipStep(g0, g, w, h, seed, target, replacement, node, rest);
      } else {
        toProcess := PaintRun(img, g0, seed, target, replacement, node, rest);
      }
    }
    FillEnd(g0, img.data, w, h, seed, target, replacement);
  }

  /**
   * The body of the loop of `fill_region` for a popped node that has the
   * target colour: widen it to its run with `xmost_target`, paint the run,
   * and push the target-coloured valid pixels above and below it.
   */
  method PaintRun(img: Image, ghost g0: Grid, ghost seed: Cell, target: int, replacement: int,
                  node: Cell, rest: seq<Cell>) returns (stack: seq<Cell>)
    requires img.Valid() && IsTarget(img.data, node, target)
    requires IsValid(img.width, img.height, node) || node == seed
    requires FillInvariant(g0, img.data, img.width, img.height, seed, target, replacement, [node] + rest)
    modifies img
    ensures img.Valid()
    ensures FillInvariant(g0, img.data, img.width, img.height, seed, target, replacement, stack)
    ensures Count(img.data, target) < Count(old(img.data), target)
  {
    ghost var w, h := img.width, img.height;
    ghost var g := img.data;
    var left := XmostTarget(img, target, node, -1);
    var right := XmostTarget(img, target, node, 1);
    var drawn := DrawHorizontalSegment(img, left.0, right.0, node.1, replacement);
    RunDrawable(g, w, h, target, node, left.0, right.0, replacement);
    // The segment lies inside the image, so the draw raises nothing that would leave `fill_region`.
    assert drawn == Pass;
    ghost var g1 := img.data;
    stack := PushNeighbours(img, target, left.0, right.0, node.1, rest);
    PaintStep(g0, g, g1, w, h, seed, target, replacement, node, rest, left.0, right.0, drawn);
    assert FillInvariant(g0, g1, w, h, seed, target, replacement, stack);
    assert img.data == g1 && img.width == w && img.height == h;
  }

  /**
   * The segment between the two ends `xmost_target` finds lies inside the
   * image: a run of valid pixels, or the addressable popped node alone. So
   * `draw_horizontal_segment` over it raises nothing.
   */
  lemma RunDrawable(g: Grid, w: int, h: int, target: int, node: Cell, l: int, r: int, c: int)
    requires IsRect(g, Nat(w), Nat(h)) && IsTarget(g, node, target)
    requires LeftEnd(g, w, h, target, node, l) && RightEnd(g, w, h, target, node, r)
    ensures SetAll(g, HorizontalCells(l, r, node.1), c).outcome == Pass
  {
    LocateRect(g, Nat(w), Nat(h), node.0, node.1);
    HorizontalSucceedsIff(g, Nat(w), Nat(h), l, r, node.1, c);
    if ValidTarget(g, w, h, target, node) {
      assert ValidTarget(g, w, h, target, (l, node.1));
      assert ValidTarget(g, w, h, target, (r, node.1));
    }
  }

  /** One painting pass keeps the invariant, whether the popped node is valid or is a seed outside the valid area. */
  lemma PaintStep(g0: Grid, g: Grid, g1: Grid, w: int, h: int, seed: Cell, target: int, replacement: int,
                  node: Cell, rest: seq<Cell>, l: int, r: int, drawn: Outcome<CoordError>)
    requires FillInvariant(g0, g, w, h, seed, target, replacement, [node] + rest)
    requires IsTarget(g, node, target) && (IsValid(w, h, node) || node == seed)
    requires LeftEnd(g, w, h, target, node, l) && RightEnd(g, w, h, target, node, r)
    requires Draw(g1, drawn) == SetAll(g, HorizontalCells(l, r, node.1), replacement)
    ensures FillInvariant(g0, g1, w, h, seed, target, replacement, Frontier(g1, w, h, target, l, r, node.1) + rest)
    ensures Count(g1, target) < Count(g, target)
  {
    if IsValid(w, h, node) {
      TargetIsColour(g, w, h, node, target);
      PaintRunStep(g0, g, g1, w, h, seed, target, replacement, node, rest, l, r, drawn);
    } else {
      PaintSeedStep(g0, g, g1, w, h, seed, target, replacement, rest, drawn);
    }
  }

  /** The invariant holds before the first pass, with only the seed on the work list. */
  lemma FillStart(g0: Grid, w: int, h: int, seed: Cell, target: int, replacement: int)
    requires IsRect(g0, Nat(w), Nat(h)) && Lookup(g0, seed.0, seed.1) == Success(target) && target != replacement
    ensures FillInvariant(g0, g0, w, h, seed, target, replacement, [seed])
  {
    RegionSeed(g0, w, h, target, seed);
  }

  /** `get(node)` on a popped node cannot raise: every node on the work list is valid or is the seed. */
  lemma NodeAddressable(g0: Grid, g: Grid, w: int, h: int, seed: Cell, target: int, replacement: int,
                        node: Cell, rest: seq<Cell>)
    requires FillInvariant(g0, g, w, h, seed, target, replacement, [node] + rest)
    ensures IsValid(w, h, node) || node == seed
    ensures Locate(g, node.0, node.1).Some?
  {
    assert ([node] + rest)[0] == node;
    SameShapeLocate(g0, g, w, h, node);
    if IsValid(w, h, node) {
      ValidLookup(g, w, h, node);
    }
  }

  /** With the work list empty, the invariant gives the result `Filled` describes. */
  lemma FillEnd(g0: Grid, g: Grid, w: int, h: int, seed: Cell, target: int, replacement: int)
    requires FillInvariant(g0, g, w, h, seed, target, replacement, [])
    ensures Filled(g0, g, w, h, seed, target, replacement)
  {
    if IsValid(w, h, seed) {
      RegionPainted(g0, g, w, h, seed, target);
    } else if InsideColumns(w, seed) {
      EdgeRegionPainted(g0, g, w, h, seed, target);
    }
  }

  /** `[q]` if `q` is valid and target-coloured, `[]` otherwise: what one `appendleft` test adds. */
  function Pick(g: Grid, w: int, h: int, target: int, q: Cell): seq<Cell>
  {
    if IsValid(w, h, q) && IsTarget(g, q, target) then [q] else []
  }

  /**
   * The nodes the loop over `x` in `range(l, r + 1)` puts in front of the work
   * list: for each `x` in turn the pixel above and then the one below, each
   * pushed on the left, so the last `x` ends up first.
   */
  function Frontier(g: Grid, w: int, h: int, target: int, l: int, r: int, y: int): seq<Cell>
    decreases r - l
  {
    if r < l then []
    else Pick(g, w, h, target, (r, y + 1)) + Pick(g, w, h, target, (r, y - 1)) + Frontier(g, w, h, target, l, r - 1, y)
  }

  lemma ConcatAssoc(a: seq<Cell>, b: seq<Cell>, c: seq<Cell>, d: seq<Cell>)
    ensures a + (b + (c + d)) == a + b + c + d
  {
  }

  /** The pushing loop of `fill_region`. */
  method PushNeighbours(img: Image, target: int, l: int, r: int, y: int, stack: seq<Cell>) returns (stack': seq<Cell>)
    requires img.Valid()
    ensures stack' == Frontier(img.data, img.width, img.height, target, l, r, y) + stack
  {
    stack' := stack;
    var x := l;
    while x < r + 1
      invariant x <= r + 1 || x == l
      invariant stack' == Frontier(img.data, img.width, img.height, target, l, x - 1, y) + stack
    {
      ghost var f := Frontier(img.data, img.width, img.height, target, l, x - 1, y);
      var above := (x, y - 1);
      ghost var pa := Pick(img.data, img.width, img.height, target, above);
      if IsValid(img.width, img.height, above) && IsTarget(img.data, above, target) {
        stack' := [above] + stack';
        assert pa == [above];
        assert stack' == pa + (f + stack);
      } else {
        assert pa == [];
        assert stack' == pa + (f + stack);
      }
      var below := (x, y + 1);
      ghost var pb := Pick(img.data, img.width, img.height, target, below);
      if IsValid(img.width, img.height, below) && IsTarget(img.data, below, target) {
        stack' := [below] + stack';
        assert pb == [below];
        assert stack' == pb + (pa + (f + stack));
      } else {
        assert pb == [];
        assert stack' == pb + (pa + (f + stack));
      }
      ConcatAssoc(pb, pa, f, stack);
      assert Frontier(img.data, img.width, img.height, target, l, x, y) == pb + pa + f;
      x := x + 1;
    }
  }

  /**
   * Exactly the valid target-coloured pixels directly above and below the
   * run `(l, y) .. (r, y)` are pushed.
   */
  lemma {:induction false} FrontierMembers(g: Grid, w: int, h: int, target: int, l: int, r: int, y: int, q: Cell)
    requires IsRect(g, Nat(w), Nat(h))
    ensures q in Frontier(g, w, h, target, l, r, y) <==>
      ValidTarget(g, w, h, target, q) && l <= q.0 <= r && (q.1 == y - 1 || q.1 == y + 1)
    decreases r - l
  {
    if l <= r {
      FrontierMembers(g, w, h, target, l, r - 1, y, q);
      var above, below := Pick(g, w, h, target, (r, y + 1)), Pick(g, w, h, target, (r, y - 1));
      PickMembers(g, w, h, target, (r, y + 1), q);
      PickMembers(g, w, h, target, (r, y - 1), q);
      assert q in Frontier(g, w, h, target, l, r, y) <==>
        q in above || q in below || q in Frontier(g, w, h, target, l, r - 1, y);
    }
  }

  /** `q` is what a single `appendleft` test for `c` adds exactly when it is `c`, valid and target-coloured. */
  lemma PickMembers(g: Grid, w: int, h: int, target: int, c: Cell, q: Cell)
    requires IsRect(g, Nat(w), Nat(h))
    ensures q in Pick(g, w, h, target, c) <==> q.0 == c.0 && q.1 == c.1 && ValidTarget(g, w, h, target, q)
  {
    assert q.0 == c.0 && q.1 == c.1 <==> q == c;
    if IsValid(w, h, c) {
      TargetIsColour(g, w, h, c, target);
    }
  }

  /** Everything pushed lies in the region when the run does. */
  lemma FrontierInRegion(g0: Grid, g1: Grid, w: int, h: int, seed: Cell, target: int, replacement: int,
                         l: int, r: int, y: int)
    requires IsRect(g0, Nat(w), Nat(h)) && IsRect(g1, Nat(w), Nat(h))
    requires Recoloured(g0, g1, target, replacement) && target != replacement
    requires forall x {:trigger InRegion(g0, w, h, target, seed, (x, y))} :: l <= x <= r ==> InRegion(g0, w, h, target, seed, (x, y))
    ensures StackInRegion(g0, w, h, target, seed, Frontier(g1, w, h, target, l, r, y))
  {
    var f := Frontier(g1, w, h, target, l, r, y);
    forall k | 0 <= k < |f|
      ensures IsValid(w, h, f[k]) && InRegion(g0, w, h, target, seed, f[k])
    {
      FrontierMembers(g1, w, h, target, l, r, y, f[k]);
      RegionStep(g0, w, h, target, seed, (f[k].0, y), f[k]);
    }
  }

  /** After the pushes, the pixels above and below every run pixel are covered. */
  lemma FrontierCovers(g1: Grid, w: int, h: int, target: int, l: int, r: int, y: int, rest: seq<Cell>)
    requires IsRect(g1, Nat(w), Nat(h))
    ensures forall x :: l <= x <= r ==> RowCovered(g1, w, h, target, Frontier(g1, w, h, target, l, r, y) + rest, x, y)
  {
    forall x | l <= x <= r
      ensures RowCovered(g1, w, h, target, Frontier(g1, w, h, target, l, r, y) + rest, x, y)
    {
      FrontierMembers(g1, w, h, target, l, r, y, (x, y - 1));
      FrontierMembers(g1, w, h, target, l, r, y, (x, y + 1));
    }
  }
}
