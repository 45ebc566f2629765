/**
 * The editor's pixel grid (image.py): a column-major list of `width` columns,
 * each `height` long, addressed with 1-based coordinates through Python list
 * indexing, so that `data[x - 1][y - 1]` holds the colour of pixel (x, y).
 */
module Images {
  import opened Wrappers

  /** Colour of every pixel of a new or cleared image. */
  const INITIAL_COLOUR: int := 0

  /** Column-major pixel data: `g[x - 1][y - 1]` is the colour at (x, y). */
  type Grid = seq<seq<int>>

  /** An (x, y) coordinate pair. */
  type Cell = (int, int)

  /** BadCoordinateError, carrying the coordinates that were refused. */
  datatype CoordError = BadCoordinateError(x: int, y: int)

  /** The length of Python's `range(n)`. */
  function Nat(n: int): nat
  {
    if n < 0 then 0 else n
  }

  /** `g` has `w` columns, each `h` long. */
  predicate IsRect(g: Grid, w: nat, h: nat)
  {
    |g| == w && forall i :: 0 <= i < |g| ==> |g[i]| == h
  }

  // ---------------------------------------------------------------------
  // make_grid
  // ---------------------------------------------------------------------

  /** `make_grid(width, height, e)`: `width` columns of `height` copies of `e` (none for a negative size). */
  function MakeGrid(width: int, height: int, e: int): (g: Grid)
    ensures IsRect(g, Nat(width), Nat(height))
    ensures forall i, j :: 0 <= i < |g| && 0 <= j < |g[i]| ==> g[i][j] == e
  {
    seq(Nat(width), _ => seq(Nat(height), _ => e))
  }

  // ---------------------------------------------------------------------
  // Python list indexing
  // ---------------------------------------------------------------------

  /**
   * The position `lst[i]` reads in a list of length `n`: Python counts a
   * negative index from the end, and raises IndexError (None here) outside
   * `-n <= i < n`.
   */
  function PyIndex(i: int, n: nat): (r: Option<nat>)
    ensures r.Some? <==> -(n as int) <= i < n
    ensures r.Some? ==> r.value < n
  {
    if 0 <= i < n then Some(i)
    else if -(n as int) <= i < 0 then Some(i + n)
    else None
  }

  /** The position a valid index reaches is the index modulo the length. */
  lemma PyIndexModulo(i: int, n: nat)
    ensures PyIndex(i, n).Some? ==> PyIndex(i, n).value == i % n
  {
    if -(n as int) <= i < 0 {
      assert (i + n) % n == i % n;
    }
  }

  /** The physical position `data[x - 1][y - 1]` reaches, or None where that raises IndexError. */
  function Locate(g: Grid, x: int, y: int): (r: Option<(nat, nat)>)
    ensures r.Some? ==> r.value.0 < |g| && r.value.1 < |g[r.value.0]|
  {
    match PyIndex(x - 1, |g|)
    case None => None
    case Some(i) =>
      match PyIndex(y - 1, |g[i]|)
      case None => None
      case Some(j) => Some((i, j))
  }

  /** `Image.get` on the data `g`. */
  function Lookup(g: Grid, x: int, y: int): (r: Result<int, CoordError>)
  {
    match Locate(g, x, y)
    case None => Failure(BadCoordinateError(x, y))
    case Some(p) => Success(g[p.0][p.1])
  }

  /** `Image.set` on the data `g`: the new data, or the error, in which case nothing changes. */
  function Update(g: Grid, x: int, y: int, c: int): (r: Result<Grid, CoordError>)
    ensures r.Success? <==> Locate(g, x, y).Some?
    ensures r.Failure? ==> r.error == BadCoordinateError(x, y)
    ensures r.Success? ==> |r.value| == |g| && forall i :: 0 <= i < |g| ==> |r.value[i]| == |g[i]|
  {
    match Locate(g, x, y)
    case None => Failure(BadCoordinateError(x, y))
    case Some(p) => Success(g[p.0 := g[p.0][p.1 := c]])
  }

  /**
   * On a `w` by `h` grid exactly the coordinates `1 - w <= x <= w`,
   * `1 - h <= y <= h` are addressable (non-positive ones wrap around), and a
   * coordinate with `x, y >= 1` addresses `g[x - 1][y - 1]`.
   */
  lemma LocateRect(g: Grid, w: nat, h: nat, x: int, y: int)
    requires IsRect(g, w, h)
    ensures Locate(g, x, y).Some? <==> 1 - w <= x <= w && 1 - h <= y <= h
    ensures 1 <= x <= w && 1 <= y <= h ==> Locate(g, x, y) == Some((x - 1, y - 1))
    ensures x <= 0 && Locate(g, x, y).Some? ==> Locate(g, x, y).value.0 == x - 1 + w
  {
  }

  /** The list index `data[i - 1]` reaches for an addressable coordinate `i` of a list of length `n`. */
  function Wrapped(i: int, n: int): int
  {
    if i >= 1 then i - 1 else i - 1 + n
  }

  /** An addressable coordinate of a `w` by `h` grid reaches position `(Wrapped(x, w), Wrapped(y, h))`. */
  lemma LocateWrapped(g: Grid, w: nat, h: nat, x: int, y: int)
    requires IsRect(g, w, h) && 1 - w <= x <= w && 1 - h <= y <= h
    ensures Locate(g, x, y) == Some((Wrapped(x, w), Wrapped(y, h)))
  {
  }

  /** Coordinate 0 wraps around to the last column: `get(0, y)` reads pixel (w, y). */
  lemma ZeroColumnWraps(g: Grid, w: nat, h: nat, y: int)
    requires IsRect(g, w, h) && 1 <= w && 1 <= y <= h
    ensures Locate(g, 0, y) == Locate(g, w, y) == Some((w - 1, y - 1))
    ensures Lookup(g, 0, y) == Lookup(g, w, y) == Success(g[w - 1][y - 1])
  {
    LocateRect(g, w, h, 0, y);
    LocateRect(g, w, h, w, y);
  }

  /** Reading after a successful write: the written position has the new colour, every other position is unchanged. */
  lemma LookupAfterUpdate(g: Grid, x: int, y: int, c: int, x': int, y': int)
    requires Update(g, x, y, c).Success?
    ensures Locate(Update(g, x, y, c).value, x', y') == Locate(g, x', y')
    ensures Lookup(Update(g, x, y, c).value, x', y') ==
      if Locate(g, x', y') == Locate(g, x, y) then Success(c) else Lookup(g, x', y')
  {
  }

  /** Every addressable pixel of a freshly made grid has the initial element. */
  lemma MakeGridLookup(width: int, height: int, e: int, x: int, y: int)
    ensures Lookup(MakeGrid(width, height, e), x, y) ==
      if 1 - Nat(width) <= x <= Nat(width) && 1 - Nat(height) <= y <= Nat(height)
      then Success(e) else Failure(BadCoordinateError(x, y))
  {
    LocateRect(MakeGrid(width, height, e), Nat(width), Nat(height), x, y);
  }

  // ---------------------------------------------------------------------
  // box
  // ---------------------------------------------------------------------

  /** The pairs `(x, y)` for `x` in `range(x1, xn)`, one row of `box`. */
  function Row(x1: int, xn: int, y: int): seq<Cell>
  {
    seq(Nat(xn - x1), k => (x1 + k, y))
  }

  /** The coordinates `box(x1, y1, xn, yn)` generates, rows of `range(x1, xn)` for `y` in `range(y1, yn)`. */
  function Box(x1: int, y1: int, xn: int, yn: int): seq<Cell>
    decreases yn - y1
  {
    if yn <= y1 then [] else Row(x1, xn, y1) + Box(x1, y1 + 1, xn, yn)
  }

  /** `p` comes before `q` in y-major order. */
  predicate YMajorBefore(p: Cell, q: Cell)
  {
    p.1 < q.1 || (p.1 == q.1 && p.0 < q.0)
  }

  /** `box` yields exactly the pairs with `x1 <= x < xn` and `y1 <= y < yn` (half-open, despite its docstring). */
  lemma {:induction false} BoxMembers(x1: int, y1: int, xn: int, yn: int, p: Cell)
    ensures p in Box(x1, y1, xn, yn) <==> x1 <= p.0 < xn && y1 <= p.1 < yn
    decreases yn - y1
  {
    if y1 < yn {
      BoxMembers(x1, y1 + 1, xn, yn, p);
      RowMembers(x1, xn, y1, p);
    }
  }

  /** One row of `box` yields exactly the pairs with `x1 <= x < xn` on that row. */
  lemma RowMembers(x1: int, xn: int, y: int, p: Cell)
    ensures p in Row(x1, xn, y) <==> x1 <= p.0 < xn && p.1 == y
  {
    if x1 <= p.0 < xn && p.1 == y {
      assert Row(x1, xn, y)[p.0 - x1] == p;
    }
  }

  /** `box` yields `(xn - x1) * (yn - y1)` pairs when both differences are non-negative, none otherwise. */
  lemma {:induction false} BoxSize(x1: int, y1: int, xn: int, yn: int)
    ensures |Box(x1, y1, xn, yn)| == Nat(xn - x1) * Nat(yn - y1)
    decreases yn - y1
  {
    if y1 < yn {
      BoxSize(x1, y1 + 1, xn, yn);
      assert Nat(yn - y1) == Nat(yn - (y1 + 1)) + 1;
    }
  }

  /** `box` yields its pairs in strictly increasing y-major order, so each at most once. */
  lemma {:induction false} BoxOrder(x1: int, y1: int, xn: int, yn: int)
    ensures forall i, j :: 0 <= i < j < |Box(x1, y1, xn, yn)| ==>
      YMajorBefore(Box(x1, y1, xn, yn)[i], Box(x1, y1, xn, yn)[j])
    decreases yn - y1
  {
    if y1 < yn {
      var row, rest := Row(x1, xn, y1), Box(x1, y1 + 1, xn, yn);
      BoxOrder(x1, y1 + 1, xn, yn);
      forall i, j | 0 <= i < j < |row + rest|
        ensures YMajorBefore((row + rest)[i], (row + rest)[j])
      {
        if j >= |row| {
          BoxMembers(x1, y1 + 1, xn, yn, rest[j - |row|]);
          assert rest[j - |row|] in rest;
        }
      }
    }
  }

  // ---------------------------------------------------------------------
  // "%3d" formatting
  // ---------------------------------------------------------------------

  function DigitChar(d: nat): char
    requires d < 10
  {
    "0123456789"[d]
  }

  /** The decimal digits of `n`, most significant first, without leading zeros. */
  function DecimalDigits(n: nat): (s: string)
    ensures |s| >= 1
    decreases n
  {
    if n < 10 then [DigitChar(n)] else DecimalDigits(n / 10) + [DigitChar(n % 10)]
  }

  /** Python's `str(v)` for an integer. */
  function Decimal(v: int): string
  {
    if v < 0 then "-" + DecimalDigits(-v) else DecimalDigits(v)
  }

  function Spaces(k: nat): string
  {
    seq(k, _ => ' ')
  }

  /** `s` right-aligned in a field of at least `width` characters. */
  function PadLeft(s: string, width: nat): string
  {
    if |s| >= width then s else Spaces(width - |s|) + s
  }

  /** `str(v)` padded on the left with spaces to at least `width` characters, one column at a time. */
  function Justified(v: int, width: nat): string
    decreases width
  {
    if width == 0 then Decimal(v)
    else
      var s := Justified(v, width - 1);
      if |s| >= width then s else " " + s
  }

  /** `"%3d" % v`. */
  function Field(v: int): string
  {
    Justified(v, 3)
  }

  /** Padding one column at a time is right-aligning `str(v)` in one step. */
  lemma {:induction false} JustifiedPadded(v: int, width: nat)
    ensures Justified(v, width) == PadLeft(Decimal(v), width)
    decreases width
  {
    if width > 0 {
      JustifiedPadded(v, width - 1);
      var d := Decimal(v);
      if |d| < width - 1 {
        assert " " + Spaces(width - 1 - |d|) == Spaces(width - |d|);
      }
    }
  }

  /** A field is `str(v)` right-aligned in three columns. */
  lemma FieldPadded(v: int)
    ensures Field(v) == PadLeft(Decimal(v), 3)
  {
    JustifiedPadded(v, 3);
  }

  /** The value of a string of decimal digits. */
  function DigitsValue(s: string): int
    decreases |s|
  {
    if s == [] then 0 else DigitsValue(s[..|s| - 1]) * 10 + (s[|s| - 1] as int - '0' as int)
  }

  function TrimSpaces(s: string): string
    decreases |s|
  {
    if s != [] && s[0] == ' ' then TrimSpaces(s[1..]) else s
  }

  /** Reads back a `"%3d"` field: leading spaces, an optional minus sign, digits. */
  function ParseField(s: string): int
  {
    ParseDecimal(TrimSpaces(s))
  }

  /** Python's `int(t)` for an optional minus sign followed by digits. */
  function ParseDecimal(t: string): int
  {
    if t != [] && t[0] == '-' then -DigitsValue(t[1..]) else DigitsValue(t)
  }

  function Pow10(k: nat): nat
  {
    if k == 0 then 1 else 10 * Pow10(k - 1)
  }

  lemma {:induction false} DigitsRoundTrip(n: nat)
    ensures DigitsValue(DecimalDigits(n)) == n
    decreases n
  {
    if n >= 10 {
      DigitsRoundTrip(n / 10);
      var s := DecimalDigits(n);
      assert s[..|s| - 1] == DecimalDigits(n / 10);
    }
  }

  /** `n` has at most `k` decimal digits exactly when it is below `10^k`. */
  lemma {:induction false} DigitsLength(n: nat, k: nat)
    requires k >= 1
    ensures |DecimalDigits(n)| <= k <==> n < Pow10(k)
    decreases n
  {
    if n >= 10 {
      if k == 1 {
        assert Pow10(1) == 10;
      } else {
        DigitsLength(n / 10, k - 1);
        assert Pow10(k) == 10 * Pow10(k - 1);
      }
    } else {
      PowAtLeastTen(k);
    }
  }

  lemma {:induction false} PowAtLeastTen(k: nat)
    requires k >= 1
    ensures Pow10(k) >= 10
  {
    if k > 1 {
      PowAtLeastTen(k - 1);
    }
  }

  lemma {:induction false} TrimPadding(k: nat, t: string)
    requires t == [] || t[0] != ' '
    ensures TrimSpaces(Spaces(k) + t) == t
    decreases k
  {
    if k > 0 {
      assert (Spaces(k) + t)[1..] == Spaces(k - 1) + t;
      TrimPadding(k - 1, t);
    }
  }

  /** Every character of `DecimalDigits(n)` is a digit. */
  lemma {:induction false} DigitsAreDigits(n: nat)
    ensures forall k :: 0 <= k < |DecimalDigits(n)| ==> '0' <= DecimalDigits(n)[k] <= '9'
    decreases n
  {
    if n >= 10 {
      DigitsAreDigits(n / 10);
    }
  }

  /** A field holds no newline: spaces, an optional minus sign and digits. */
  lemma FieldHasNoNewline(v: int)
    ensures '\n' !in Field(v)
  {
    FieldPadded(v);
    DigitsAreDigits(if v < 0 then -v else v);
  }

  /** A `"%3d"` field reads back as the colour it was made from. */
  lemma FieldRoundTrip(v: int)
    ensures ParseField(Field(v)) == v
  {
    FieldTrims(v);
    DecimalRoundTrip(v);
  }

  /** Stripping the padding of a field leaves `str(v)`. */
  lemma FieldTrims(v: int)
    ensures TrimSpaces(Field(v)) == Decimal(v)
  {
    FieldPadded(v);
    var d := Decimal(v);
    DigitsAreDigits(if v < 0 then -v else v);
    assert d[0] != ' ';
    if |d| < 3 {
      TrimPadding(3 - |d|, d);
    } else {
      TrimPadding(0, d);
      assert Spaces(0) + d == d;
    }
  }

  /** `int(str(v)) == v`. */
  lemma DecimalRoundTrip(v: int)
    ensures ParseDecimal(Decimal(v)) == v
  {
    var d := Decimal(v);
    if v < 0 {
      var n: nat := -v;
      DigitsRoundTrip(n);
      assert d[0] == '-' && d[1..] == DecimalDigits(n);
    } else {
      DigitsAreDigits(v);
      DigitsRoundTrip(v);
      assert d == DecimalDigits(v) && d[0] != '-';
    }
  }

  /** A field is exactly three characters wide for the colours -99 to 999, wider otherwise. */
  lemma FieldWidth(v: int)
    ensures |Field(v)| == 3 <==> -99 <= v <= 999
  {
    FieldPadded(v);
    assert Pow10(3) == 1000 && Pow10(2) == 100;
    if v < 0 {
      DigitsLength(-v, 2);
    } else {
      DigitsLength(v, 3);
    }
  }

  // ---------------------------------------------------------------------
  // __repr__
  // ---------------------------------------------------------------------

  /** The fields of pixels (1, y) .. (n - 1, y), in increasing x. */
  function Fields(g: Grid, w: int, h: int, y: int, n: int): string
    requires IsRect(g, Nat(w), Nat(h)) && 1 <= y < h && n <= Nat(w) + 1
    decreases n
  {
    if n <= 1 then "" else Fields(g, w, h, y, n - 1) + Field(g[n - 2][y - 1])
  }

  /** Lines 1 .. n - 1 of the rendering, each the fields of columns 1 .. w - 1 and a newline. */
  function Rows(g: Grid, w: int, h: int, n: int): string
    requires IsRect(g, Nat(w), Nat(h)) && (n <= h || n <= 1)
    decreases n
  {
    if n <= 1 then "" else Rows(g, w, h, n - 1) + Fields(g, w, h, n - 1, w) + "\n"
  }

  /** What `Image.__repr__` returns for data `g` of a `w` by `h` image. */
  function Render(g: Grid, w: int, h: int): string
    requires IsRect(g, Nat(w), Nat(h))
  {
    Rows(g, w, h, h)
  }

  function CountChar(s: string, c: char): nat
    decreases |s|
  {
    if s == [] then 0 else CountChar(s[..|s| - 1], c) + (if s[|s| - 1] == c then 1 else 0)
  }

  lemma {:induction false} CountCharAppend(s: string, t: string, c: char)
    ensures CountChar(s + t, c) == CountChar(s, c) + CountChar(t, c)
    decreases |t|
  {
    if t == [] {
      assert s + t == s;
    } else {
      assert (s + t)[..|s + t| - 1] == s + t[..|t| - 1];
      CountCharAppend(s, t[..|t| - 1], c);
    }
  }

  lemma {:induction false} CountCharAbsent(s: string, c: char)
    requires c !in s
    ensures CountChar(s, c) == 0
    decreases |s|
  {
    if s != [] {
      CountCharAbsent(s[..|s| - 1], c);
    }
  }

  lemma {:induction false} FieldsHaveNoNewline(g: Grid, w: int, h: int, y: int, n: int)
    requires IsRect(g, Nat(w), Nat(h)) && 1 <= y < h && n <= Nat(w) + 1
    ensures '\n' !in Fields(g, w, h, y, n)
    decreases n
  {
    if n > 1 {
      FieldsHaveNoNewline(g, w, h, y, n - 1);
      FieldHasNoNewline(g[n - 2][y - 1]);
    }
  }

  /** The rendering has one line per row 1 .. height - 1: exactly `height - 1` newlines. */
  lemma {:induction false} RenderLineCount(g: Grid, w: int, h: int, n: int)
    requires IsRect(g, Nat(w), Nat(h)) && (n <= h || n <= 1)
    ensures CountChar(Rows(g, w, h, n), '\n') == Nat(n - 1)
    decreases n
  {
    if n > 1 {
      var f := Fields(g, w, h, n - 1, w);
      RenderLineCount(g, w, h, n - 1);
      FieldsHaveNoNewline(g, w, h, n - 1, w);
      CountCharAbsent(f, '\n');
      CountCharAppend(Rows(g, w, h, n - 1), f, '\n');
      CountCharAppend(Rows(g, w, h, n - 1) + f, "\n", '\n');
      assert CountChar("\n", '\n') == 1 by {
        assert "\n"[..0] == "";
      }
    }
  }

  /** The colours of the rendered pixels all fit a three-character field. */
  ghost predicate NarrowColours(g: Grid, w: int, h: int)
    requires IsRect(g, Nat(w), Nat(h))
  {
    forall i, j :: 0 <= i < w - 1 && 0 <= j < h - 1 ==> -99 <= g[i][j] <= 999
  }

  lemma {:induction false} FieldsLength(g: Grid, w: int, h: int, y: int, n: int)
    requires IsRect(g, Nat(w), Nat(h)) && NarrowColours(g, w, h) && 1 <= y < h && (n <= w || n <= 1)
    ensures |Fields(g, w, h, y, n)| == 3 * Nat(n - 1)
    decreases n
  {
    if n > 1 {
      FieldsLength(g, w, h, y, n - 1);
      assert -99 <= g[n - 2][y - 1] <= 999;
      FieldWidth(g[n - 2][y - 1]);
    }
  }

  /** `m` copies of `k` added up. */
  function Times(m: nat, k: int): int
  {
    if m == 0 then 0 else Times(m - 1, k) + k
  }

  lemma {:induction false} TimesIsProduct(m: nat, k: int)
    ensures Times(m, k) == m * k
  {
    if m > 0 {
      TimesIsProduct(m - 1, k);
      MulSucc(m - 1, k);
    }
  }

  lemma {:induction false} RowsLength(g: Grid, w: int, h: int, n: int)
    requires IsRect(g, Nat(w), Nat(h)) && NarrowColours(g, w, h) && (n <= h || n <= 1)
    ensures |Rows(g, w, h, n)| == Times(Nat(n - 1), 3 * Nat(w - 1) + 1)
    decreases n
  {
    if n > 1 {
      RowsLength(g, w, h, n - 1);
      FieldsLength(g, w, h, n - 1, w);
      assert Nat(n - 1) == Nat(n - 1 - 1) + 1;
    }
  }

  /**
   * When every colour fits its field, the first `n - 1` lines of the
   * rendering are `width - 1` three-character fields and a newline each.
   */
  lemma RenderLength(g: Grid, w: int, h: int, n: int)
    requires IsRect(g, Nat(w), Nat(h)) && NarrowColours(g, w, h) && (n <= h || n <= 1)
    ensures |Rows(g, w, h, n)| == Nat(n - 1) * (3 * Nat(w - 1) + 1)
  {
    RowsLength(g, w, h, n);
    TimesIsProduct(Nat(n - 1), 3 * Nat(w - 1) + 1);
  }

  lemma FieldsStep(g: Grid, w: int, h: int, y: int, x: int)
    requires IsRect(g, Nat(w), Nat(h)) && 1 <= y < h && 1 <= x < w
    ensures Fields(g, w, h, y, x) + Field(g[x - 1][y - 1]) == Fields(g, w, h, y, x + 1)
  {
    var f := Field(g[x + 1 - 2][y - 1]);
    assert Fields(g, w, h, y, x + 1) == Fields(g, w, h, y, x) + f;
  }

  /** `line` holds the fields of pixels (1, y) .. (x - 1, y): the inner loop of `__repr__()` after `x - 1` passes. */
  ghost predicate RowPrefix(g: Grid, w: int, h: int, y: int, x: int, line: string)
  {
    IsRect(g, Nat(w), Nat(h)) && 1 <= y < h && 1 <= x && (x <= w || x == 1) &&
    line == Fields(g, w, h, y, x)
  }

  /** One pass of the inner loop appends the field of pixel (x, y). */
  lemma RowPrefixStep(g: Grid, w: int, h: int, y: int, x: int, line: string, c: int)
    requires RowPrefix(g, w, h, y, x, line) && x < w && c == g[x - 1][y - 1]
    ensures RowPrefix(g, w, h, y, x + 1, line + Field(c))
  {
    FieldsStep(g, w, h, y, x);
  }

  /** When the inner loop stops, the line holds every field of the row. */
  lemma RowPrefixDone(g: Grid, w: int, h: int, y: int, x: int, line: string)
    requires RowPrefix(g, w, h, y, x, line) && x >= w
    ensures line == Fields(g, w, h, y, w)
  {
  }

  lemma RowsStep(g: Grid, w: int, h: int, y: int, done: string)
    requires IsRect(g, Nat(w), Nat(h)) && 1 <= y < h && done == Rows(g, w, h, y)
    ensures done + Fields(g, w, h, y, w) + "\n" == Rows(g, w, h, y + 1)
  {
  }

  lemma MulSucc(m: nat, k: int)
    ensures (m + 1) * k == m * k + k
  {
  }

  /** `g` is `g0` with exactly the pixels `done` names set to the initial colour. */
  ghost predicate ClearedBy(g0: Grid, g: Grid, w: nat, h: nat, done: seq<Cell>)
    requires IsRect(g0, w, h)
  {
    IsRect(g, w, h) && forall i, j :: 0 <= i < w && 0 <= j < h ==>
      g[i][j] == if (i + 1, j + 1) in done then INITIAL_COLOUR else g0[i][j]
  }

  /** One `set(x, y, INITIAL_COLOUR)` of `clear()` adds pixel `p` to the cleared ones. */
  lemma ClearStep(g0: Grid, g: Grid, w: nat, h: nat, done: seq<Cell>, p: Cell)
    requires IsRect(g0, w, h) && ClearedBy(g0, g, w, h, done)
    requires 1 <= p.0 <= w && 1 <= p.1 <= h
    ensures Update(g, p.0, p.1, INITIAL_COLOUR).Success?
    ensures ClearedBy(g0, Update(g, p.0, p.1, INITIAL_COLOUR).value, w, h, done + [p])
  {
    LocateRect(g, w, h, p.0, p.1);
    var g' := Update(g, p.0, p.1, INITIAL_COLOUR).value;
    assert g' == g[p.0 - 1 := g[p.0 - 1][p.1 - 1 := INITIAL_COLOUR]];
    forall i, j | 0 <= i < w && 0 <= j < h
      ensures g'[i][j] == if (i + 1, j + 1) in done + [p] then INITIAL_COLOUR else g0[i][j]
    {
      assert (i + 1, j + 1) in done + [p] <==> (i + 1, j + 1) in done || (i + 1 == p.0 && j + 1 == p.1);
    }
  }

  /**
   * `g` is what `clear()` makes of `g0` on a `width` by `height` image: every
   * pixel (x, y) with `1 <= x < width` and `1 <= y < height` has the initial
   * colour, and the last column and the last row keep their colours.
   */
  ghost predicate Cleared(g0: Grid, g: Grid, width: int, height: int)
  {
    IsRect(g0, Nat(width), Nat(height)) && IsRect(g, Nat(width), Nat(height)) &&
    forall i, j :: 0 <= i < Nat(width) && 0 <= j < Nat(height) ==>
      g[i][j] == if i < width - 1 && j < height - 1 then INITIAL_COLOUR else g0[i][j]
  }

  /** Once all of `box(1, 1, width, height)` is cleared, only the last column and the last row keep their colours. */
  lemma ClearedBox(g0: Grid, g: Grid, width: int, height: int)
    requires IsRect(g0, Nat(width), Nat(height))
    requires ClearedBy(g0, g, Nat(width), Nat(height), Box(1, 1, width, height))
    ensures Cleared(g0, g, width, height)
  {
    forall i, j | 0 <= i < Nat(width) && 0 <= j < Nat(height)
      ensures g[i][j] == if i < width - 1 && j < height - 1 then INITIAL_COLOUR else g0[i][j]
    {
      BoxMembers(1, 1, width, height, (i + 1, j + 1));
    }
  }

  // ---------------------------------------------------------------------
  // Image
  // ---------------------------------------------------------------------

  /** An image whose pixel data `set` and `clear` update in place. */
  class Image {
    const width: int
    const height: int
    var data: Grid

    ghost predicate Valid()
      reads this
    {
      IsRect(data, Nat(width), Nat(height))
    }

    /** `Image(width, height)`: every pixel has the initial colour. */
    constructor (width: int, height: int)
      ensures Valid() && this.width == width && this.height == height
      ensures data == MakeGrid(width, height, INITIAL_COLOUR)
    {
      this.width := width;
      this.height := height;
      data := MakeGrid(width, height, INITIAL_COLOUR);
    }

    /**
     * `get(x, y)`: the colour at (x, y), or BadCoordinateError(x, y) where
     * Python indexing raises IndexError. It reads the data and changes nothing.
     */
    function Get(x: int, y: int): (r: Result<int, CoordError>)
      reads this
      requires Valid()
      ensures r.Success? <==> 1 - Nat(width) <= x <= Nat(width) && 1 - Nat(height) <= y <= Nat(height)
      ensures r.Failure? ==> r.error == BadCoordinateError(x, y)
      ensures 1 <= x && 1 <= y && r.Success? ==> r.value == data[x - 1][y - 1]
    {
      LocateRect(data, Nat(width), Nat(height), x, y);
      Lookup(data, x, y)
    }

    /** `set(x, y, colour)`: writes one pixel, or raises BadCoordinateError(x, y) and changes nothing. */
    method Set(x: int, y: int, colour: int) returns (r: Outcome<CoordError>)
      requires Valid()
      modifies this
      ensures Valid()
      ensures Update(old(data), x, y, colour).Success? ==>
        r == Pass && data == Update(old(data), x, y, colour).value
      ensures Update(old(data), x, y, colour).Failure? ==>
        r == Fail(BadCoordinateError(x, y)) && data == old(data)
      ensures r == Pass ==> Get(x, y) == Success(colour)
    {
      match Update(data, x, y, colour)
      case Success(g) =>
        LookupAfterUpdate(data, x, y, colour, x, y);
        data := g;
        r := Pass;
      case Failure(e) =>
        r := Fail(e);
    }

    /**
     * `clear()`: sets every pixel of `box(1, 1, width, height)` to the initial
     * colour; the last column and the last row keep their colours.
     */
    method Clear()
      requires Valid()
      modifies this
      ensures Valid() && Cleared(old(data), data, width, height)
    {
      ghost var g0, w, h := data, Nat(width), Nat(height);
      var cells := Box(1, 1, width, height);
      var k := 0;
      while k < |cells|
        invariant 0 <= k <= |cells|
        invariant Valid() && ClearedBy(g0, data, w, h, cells[..k])
      {
        var p := cells[k];
        assert p in cells;
        BoxMembers(1, 1, width, height, p);
        ClearStep(g0, data, w, h, cells[..k], p);
        var r := Set(p.0, p.1, INITIAL_COLOUR);
        assert cells[..k + 1] == cells[..k] + [p];
        k := k + 1;
      }
      assert cells[..k] == cells;
      ClearedBox(g0, data, width, height);
    }

    /** `__repr__()`: rows 1 .. height - 1, each the `"%3d"` fields of columns 1 .. width - 1 and a newline. */
    method ToString() returns (s: string)
      requires Valid()
      ensures s == Render(data, width, height)
    {
      s := "";
      var y := 1;
      while y < height
        invariant 1 <= y && (y <= height || y == 1)
        invariant s == Rows(data, width, height, y)
      {
        var line := RowFields(y);
        RowsStep(data, width, height, y, s);
        s := s + line + "\n";
        y := y + 1;
      }
    }

    /** The inner loop of `__repr__()`: the fields of pixels (1, y) .. (width - 1, y). */
    method RowFields(y: int) returns (line: string)
      requires Valid() && 1 <= y < height
      ensures line == Fields(data, width, height, y, width)
    {
      line := "";
      var x := 1;
      while x < width
        invariant RowPrefix(data, width, height, y, x, line)
      {
        var c := Get(x, y).value;
        RowPrefixStep(data, width, height, y, x, line, c);
        line := line + Field(c);
        x := x + 1;
      }
      RowPrefixDone(data, width, height, y, x, line);
    }
  }
}
