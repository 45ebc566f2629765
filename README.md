# Graphical editor: a Dafny model

This project models the core of a small terminal graphical editor. An
image is a grid of integer colours. A command line session holds at most one
image, and commands typed as a letter and integers act on it:

- `I m n` creates an image;
- `C` clears it;
- `L x y c` colours one pixel;
- `V` and `H` draw a vertical or horizontal segment;
- `F x y c` flood-fills a region;
- `S` shows the image;
- `X` ends the session.

The modules follow the program's files:

| module | file | what it holds |
|---|---|---|
| `Wrappers` | — | `Option`, `Result` and `Outcome` (pass or fail with an error) |
| `Images` | `image.py` | the `Image` class (width, height, column-major data) with `set`, `get`, `clear` and `__repr__`; `make_grid`; `box`; the `%3d` field format |
| `Drawing` | `graphical_editor.py` | `colour_pixel` and the two segment commands, as a left-to-right series of `set` calls that stops at the first raised error |
| `RegionFill` | `graphical_editor.py` | `fill_region`: the scanline flood fill with `is_valid`, `is_target` and `xmost_target` |
| `Commands` | `graphical_editor.py` | the command functions as a `Handler` datatype; the command table of `main()` |
| `CommandLine` | `cli.py` | the `CLI` class: command dictionary, loaded image and running flag; `new_image`, `register_command`, `terminate`, `process_command`; the error classes |
| `Editor` | `graphical_editor.py` | `main()` up to the input loop: a fresh session with the table registered |

Modelling decisions:

- Python's negative list indices are reproduced. `get(x, y)` reads
  `data[x - 1][y - 1]`, so `x = 0` reads the last column, `x = -1` the one
  before it, and so on. `BadCoordinateError` is raised only when an index is
  out of Python's range. `Images.Locate` and `Images.LocateRect` state this
  exactly.
- The command line creates an image of `m + 1` by `n + 1` (`cli.py:96`).
  The loops of `clear` (through `box`) and `__repr__` run over
  `range(1, width)` and `range(1, height)`, and `is_valid` accepts
  `0 < x < width` and `0 < y < height`. So the pixels the program clears
  and shows are exactly the user's `m` by `n`, and the extra last column
  and row are padding. The model follows the code. The display routine can
  be read as dropping the last row and column of the image; once this
  padding is taken into account, it does not.
- A fill spreads only over valid pixels, but its seed need not be valid. The
  seed's own pixel is painted even when it is a padding pixel or one
  reached by wrapping round. A seed inside the valid columns on row 0 or row
  `height` then fills on from the valid pixel below or above it. From a
  seed in column 0, in the padding column or in a negative column, the
  pixels above and below are in the same invalid column, so only the seed's
  pixel changes. `RegionFill.Filled` states all these cases.
- The docstring of `box` (`image.py:63`) describes inclusive bounds. The
  code (`image.py:65-66`) is half-open, and the model follows the code.
- Lists that the source mutates in place are `seq` values that the methods
  reassign. The fill's deque, used only with `appendleft` and `popleft`, is
  a `seq` work list with its head at index 0.
- Arguments reach a command function as a list of integers. A wrong number
  of them raises `TypeError`, which `process_command` reports as
  `BadNumberArgsError`. The model checks the count against each handler's
  declared arity (`Commands.Handler.Arity`) before running it.

## Model

| member | source | states |
|---|---|---|
| Images.Lookup | image.py:38-44 | `get` on the data: the colour at `data[x - 1][y - 1]` under Python's index rules, or BadCoordinateError(x, y) where the indexing raises IndexError |
| Images.MakeGrid | image.py:68-75 | a `width` by `height` column-major grid whose every element is the initial element |
| Images.PyIndex | image.py:34 | a Python index `i` into a list of length `n` is accepted exactly when `-n <= i < n`, and lands inside the list |
| Images.PyIndexModulo | image.py:34 | an accepted Python index addresses element `i mod n` |
| Images.Locate | image.py:42 | the element `data[x - 1][y - 1]` addresses, when both indices are accepted, lies inside the grid |
| Images.Update | image.py:30-36 | `set` succeeds exactly when `get` at the same coordinate would; otherwise it raises BadCoordinateError(x, y); the grid keeps its shape |
| Images.LocateRect | image.py:38-44 | on a `w` by `h` grid, `(x, y)` is addressable exactly when `1 - w <= x <= w` and `1 - h <= y <= h`; `1..w` by `1..h` needs no wrap-around; `x <= 0` wraps by `w` |
| Images.LocateWrapped | image.py:38-44 | an addressable `(x, y)` reaches list position `x - 1` (or `x - 1 + w` when `x <= 0`) and likewise for `y` |
| Images.ZeroColumnWraps | image.py:42 | coordinate 0 reads the same pixel as coordinate `width` |
| Images.LookupAfterUpdate | image.py:30-44 | after `set(x, y, c)`, `get` returns `c` at every coordinate addressing the same pixel and the old colour everywhere else |
| Images.MakeGridLookup | image.py:68-75 | every addressable coordinate of a fresh grid reads the initial element; the others raise |
| Images.Box | image.py:62-66 | the coordinates `box` generates: for each `y` in `range(y1, yn)`, the cells `(x, y)` for `x` in `range(x1, xn)` |
| Images.BoxMembers | image.py:62-66 | `box(x1, y1, xn, yn)` yields exactly the cells with `x1 <= x < xn` and `y1 <= y < yn` (half-open, unlike the docstring) |
| Images.RowMembers | image.py:65-66 | one row of `box` yields exactly the cells `x1 <= x < xn` on that row |
| Images.BoxSize | image.py:62-66 | `box` yields `(xn - x1) * (yn - y1)` cells, or none for an empty range |
| Images.BoxOrder | image.py:65-66 | `box` yields row after row, left to right on each row |
| Images.Decimal | image.py:58 | `str(v)`: a minus sign for a negative value, then the decimal digits without leading zeros |
| Images.Field | image.py:58 | `"%3d" % v`: `str(v)` padded on the left with spaces to at least three characters |
| Images.DecimalDigits | image.py:58 | the decimal digits of a natural number are never empty |
| Images.JustifiedPadded | image.py:58 | right-justifying a decimal in a field of a given width pads it on the left with spaces up to that width |
| Images.FieldPadded | image.py:58 | `%3d` is the decimal notation of the colour, left-padded with spaces to width 3 |
| Images.DigitsRoundTrip | image.py:58 | reading back the digits of `n` gives `n` |
| Images.DigitsLength | image.py:58 | `n` has at most `k` digits exactly when `n < 10^k` |
| Images.DigitsAreDigits | image.py:58 | the digits of `n` are characters `'0'..'9'` |
| Images.FieldHasNoNewline | image.py:58 | a `%3d` field never holds a newline |
| Images.FieldTrims | image.py:58 | stripping the leading spaces of a `%3d` field gives the colour's decimal notation |
| Images.DecimalRoundTrip | image.py:58 | reading back the decimal notation of any integer gives that integer |
| Images.FieldRoundTrip | image.py:58 | each `%3d` field of the output reads back as the colour that was printed |
| Images.FieldWidth | image.py:58 | a field is exactly three characters wide exactly when the colour is in `-99..999`; wider colours overflow the column |
| Images.Render | image.py:52-60 | the string `__repr__` builds: for each `y` in `range(1, height)`, the fields of `x` in `range(1, width)` and a newline |
| Images.FieldsHaveNoNewline | image.py:57-58 | one row of `__repr__` output holds no newline |
| Images.RenderLineCount | image.py:52-60 | `__repr__` holds exactly one newline per row `1..height-1` |
| Images.FieldsLength | image.py:57-58 | with colours in `-99..999`, row output is three characters per column `1..width-1` |
| Images.RowsLength | image.py:56-59 | the output length is one row's length, plus its newline, times the number of rows |
| Images.RenderLength | image.py:52-60 | with colours in `-99..999`, `__repr__` has `(height - 1) * (3 * (width - 1) + 1)` characters |
| Images.FieldsStep | image.py:57-58 | appending the next pixel's field extends the row output by one column |
| Images.RowPrefixStep | image.py:57-58 | the inner loop of `__repr__` keeps the output of the columns done so far |
| Images.RowPrefixDone | image.py:57-58 | at the end of the inner loop the line holds every column `1..width-1` |
| Images.RowsStep | image.py:56-59 | appending a row and its newline extends the output by one row |
| Images.Cleared | image.py:46-50 | the data `clear()` leaves: the initial colour at every pixel with `x < width` and `y < height`, the old colour in the padding column and row |
| Images.ClearStep | image.py:49-50 | one `set` of the initial colour inside the image succeeds and clears exactly that pixel |
| Images.ClearedBox | image.py:46-50 | clearing every cell of `box(1, 1, width, height)` clears every pixel with `x < width` and `y < height` and leaves the padding column and row |
| Images.Image.constructor | image.py:25-28 | the new image has the given width and height and a grid of the initial colour |
| Images.Image.Get | image.py:38-44 | `get(x, y)` succeeds exactly for `1 - width <= x <= width` and `1 - height <= y <= height` and raises BadCoordinateError(x, y) otherwise; inside `1..width` by `1..height` it reads `data[x - 1][y - 1]` |
| Images.Image.Set | image.py:30-36 | `set(x, y, c)` either writes `c` at the addressed pixel, after which `get(x, y)` returns `c`, or raises BadCoordinateError(x, y) and changes nothing |
| Images.Image.Clear | image.py:46-50 | `clear()` sets every pixel with `x < width` and `y < height` to the initial colour and keeps the rest |
| Images.Image.ToString | image.py:52-60 | `__repr__` is, for each row `1..height-1`, the `%3d` fields of columns `1..width-1` followed by a newline |
| Images.Image.RowFields | image.py:57-58 | the inner loop of `__repr__` produces the fields of columns `1..width-1` of row `y`, in order |
| Drawing.VerticalCells | graphical_editor.py:37 | the cells `(col, y)` for `y` in `range(y1, yn + 1)`, in order |
| Drawing.HorizontalCells | graphical_editor.py:44 | the cells `(x, row)` for `x` in `range(x1, xn + 1)`, in order |
| Drawing.SetAll | graphical_editor.py:37-38 | a series of `set` calls keeps the grid's shape |
| Drawing.SetAllAppend | graphical_editor.py:37-38 | running two series one after the other is the same as running their concatenation, and the first error stops everything |
| Drawing.SetAllKeepsLocate | graphical_editor.py:37-38 | `set` calls never change which pixel a coordinate addresses |
| Drawing.SetAllSucceedsIff | graphical_editor.py:37-38 | a series raises nothing exactly when every one of its coordinates is addressable |
| Drawing.SetAllLookup | graphical_editor.py:37-38 | after a series of `set` calls that raised nothing, a coordinate reads the colour exactly when some cell of the series addressed the same pixel, directly or by wrapping round; otherwise it reads its old colour |
| Drawing.SetAllFirstFailure | graphical_editor.py:44-45 | the first unaddressable coordinate raises BadCoordinateError for itself, after the earlier `set` calls took effect |
| Drawing.VerticalSucceedsIff | graphical_editor.py:33-38 | a vertical segment raises nothing exactly when it is empty or its column and both ends are addressable |
| Drawing.HorizontalSucceedsIff | graphical_editor.py:40-45 | a horizontal segment raises nothing exactly when it is empty or its row and both ends are addressable |
| Drawing.VerticalPaints | graphical_editor.py:33-38 | inside the image, `V col y1 yn c` colours exactly `(col, y1)..(col, yn)` inclusive and nothing else |
| Drawing.HorizontalPaints | graphical_editor.py:40-45 | inside the image, `H x1 xn row c` colours exactly `(x1, row)..(xn, row)` inclusive and nothing else |
| Drawing.VerticalWraps | graphical_editor.py:33-38 | for any addressable column and ends, wrapped round or not, `V col y1 yn c` raises nothing and colours exactly the pixels of internal column `col - 1` (or `col - 1 + w` for `col <= 0`) whose row some `y'` in `y1..yn` reaches; so `V 0 1 3 c` paints the last internal column |
| Drawing.HorizontalWraps | graphical_editor.py:40-45 | for any addressable row and ends, wrapped round or not, `H x1 xn row c` raises nothing and colours exactly the pixels of internal row `row - 1` (or `row - 1 + h` for `row <= 0`) whose column some `x'` in `x1..xn` reaches |
| Drawing.ColourPixel | graphical_editor.py:28-31 | `colour_pixel` is one `set`: it succeeds exactly when `(x, y)` is addressable, and then `get(x, y)` returns the colour |
| Drawing.DrawVerticalSegment | graphical_editor.py:33-38 | the loop leaves the grid and outcome of `set` on `(col, y1)`, …, `(col, yn)` in order |
| Drawing.DrawHorizontalSegment | graphical_editor.py:40-45 | the loop leaves the grid and outcome of `set` on `(x1, row)`, …, `(xn, row)` in order |
| RegionFill.IsValid | graphical_editor.py:66-71 | `is_valid`: `0 < x < width` and `0 < y < height` |
| RegionFill.IsTarget | graphical_editor.py:61-64 | `is_target`: `get(node)` returns the target colour |
| RegionFill.InRegion | graphical_editor.py:47-103 | the seed's region: the pixels reached from the seed by 4-neighbour steps, each step landing on a valid pixel of the target colour |
| RegionFill.Filled | graphical_editor.py:47-103 | the result of a fill: nothing changes if the seed already has the replacement colour. Otherwise only target pixels change, each to the replacement, and only valid ones besides the seed's own pixel, which is among them. All of them are in the seed's region. From a seed inside the valid columns, every valid pixel of the region changes; from a seed outside them, no other pixel changes |
| RegionFill.ValidLookup | graphical_editor.py:66-71 | a valid node is read without wrap-around |
| RegionFill.SameShapeLocate | graphical_editor.py:61-64 | grids of the same shape address the same pixels |
| RegionFill.TargetIsColour | graphical_editor.py:61-64 | on a valid node `is_target` tests the node's own pixel |
| RegionFill.RegionSeed | graphical_editor.py:59 | the seed belongs to its own region |
| RegionFill.RegionStep | graphical_editor.py:97-103 | a valid target-coloured 4-neighbour of a region pixel belongs to the region |
| RegionFill.RegionAlongRow | graphical_editor.py:73-84 | a run of valid target pixels along a row, starting in the region, stays in the region |
| RegionFill.RegionAlongColumn | graphical_editor.py:97-103 | a run of valid target pixels along a column, starting in the region, stays in the region |
| RegionFill.CountInShrinks | graphical_editor.py:92-93 | recolouring target pixels never raises a column's count of the target colour, and lowers it if any pixel changed |
| RegionFill.CountShrinks | graphical_editor.py:86-103 | the same for the whole grid: painting a run lowers the number of target pixels, which is why the loop ends |
| RegionFill.XmostTarget | graphical_editor.py:73-84 | `xmost_target(node, ∓1)` stops at the far end of the row's longest run of valid target pixels through a valid target node: every pixel from the node to that end is valid and target-coloured, and the next one is not; a node that is not a valid target pixel comes back unchanged |
| RegionFill.ClosedCarries | graphical_editor.py:97-103 | a pixel painted before keeps its target neighbours covered when those neighbours are still waiting |
| RegionFill.StackPop | graphical_editor.py:87 | a popped node and the rest of the work list lie in the region |
| RegionFill.RunInRegion | graphical_editor.py:90-93 | every pixel of the run through a region node lies in the region |
| RegionFill.StackAppend | graphical_editor.py:100-103 | pushing region nodes keeps the work list inside the region |
| RegionFill.SkipStep | graphical_editor.py:87-89 | a popped node that no longer has the target colour can be dropped without breaking the loop invariant |
| RegionFill.SeedCarries | graphical_editor.py:87-103 | the pixels beside a painted seed on row 0 or row `height` stay covered through a step that creates no target pixel and drops only a node that is no longer waiting |
| RegionFill.RunRepaint | graphical_editor.py:92-93 | painting a run changes only target pixels to the replacement, only valid ones, and lowers the target count |
| RegionFill.RunGrid | graphical_editor.py:92-93 | `draw_horizontal_segment` over a run of valid target pixels paints exactly the run |
| RegionFill.RunList | graphical_editor.py:95-103 | the nodes pushed above and below a run lie in the region, and cover every target pixel above and below it |
| RegionFill.PaintRunStep | graphical_editor.py:89-103 | the loop invariant holds after one pass over a valid node, and the target count falls |
| RegionFill.RunSeedCovered | graphical_editor.py:89-103 | painting a run of valid pixels never touches the padding row, so the pixels beside a seed on row 0 or row `height` stay covered |
| RegionFill.SeedKept | graphical_editor.py:59 | the seed is on the work list until its pixel has been painted |
| RegionFill.RunClosed | graphical_editor.py:95-103 | after a pass, every painted valid pixel has all its target neighbours on the work list, and lies in the region |
| RegionFill.RunEnds | graphical_editor.py:80 | the pixels just past a painted maximal run are not target pixels waiting to be filled |
| RegionFill.RunOutside | graphical_editor.py:92-93 | a pass changes nothing outside its run, and removes only the popped node from the work list |
| RegionFill.PaintSeedStep | graphical_editor.py:89-103 | a seed outside the valid area is painted alone, and only its valid target neighbours are pushed |
| RegionFill.SeedGrid | graphical_editor.py:92-93 | painting a seed that is not valid changes only the pixel it addresses |
| RegionFill.SeedList | graphical_editor.py:97-103 | the nodes pushed beside a seed that is not valid lie in the region |
| RegionFill.SeedRepaint | graphical_editor.py:92-93 | recolouring the seed's pixel lowers the target count |
| RegionFill.SeedClosed | graphical_editor.py:97-103 | after painting a seed that is not valid, every changed valid pixel has its target neighbours waiting |
| RegionFill.SeedStepAlone | graphical_editor.py:97-103 | beside a seed outside the valid columns nothing is pushed, and no valid pixel but the seed's own has changed |
| RegionFill.PathPainted | graphical_editor.py:86-103 | with the work list empty and no valid pixel exempt, every region walk that starts on a changed valid pixel ends on a changed pixel |
| RegionFill.RegionPainted | graphical_editor.py:86-103 | from a valid seed, an empty work list means the whole region has been repainted |
| RegionFill.EdgeRegionPainted | graphical_editor.py:86-103 | from a seed inside the valid columns but outside the valid area, an empty work list means every valid pixel of the region has been repainted; the walk leaves such a seed up or down onto a pixel that was waiting |
| RegionFill.FilledAt | graphical_editor.py:47-103 | from any seed of a colour other than the replacement, a pixel ends up the replacement colour exactly when the seed addresses it, or when it is a valid pixel of the seed's region and the seed lies inside the valid columns; every other pixel keeps its colour |
| RegionFill.FillDeterministic | graphical_editor.py:86-103 | from any seed, `Filled` fixes the result uniquely: any two grids meeting it are equal |
| RegionFill.UniformFill | graphical_editor.py:47-103 | on an image of one colour, a fill from any valid pixel repaints every valid pixel |
| RegionFill.EdgeUniformFill | graphical_editor.py:47-103 | on an image of one colour, a fill from row 0 inside the valid columns (`F x 0 c`) also repaints every valid pixel |
| RegionFill.FillRegion | graphical_editor.py:47-103 | `fill_region` raises BadCoordinateError, changing nothing, when `get(x, y)` does; otherwise it changes nothing for a seed already of the replacement colour, and otherwise leaves exactly what `Filled` describes, for every seed: the seed's pixel, plus the valid pixels of the region when the seed lies inside the valid columns, turn the replacement colour |
| RegionFill.RunDrawable | graphical_editor.py:90-93 | the segment between the ends `xmost_target` finds lies inside the image, so `draw_horizontal_segment` over it raises nothing |
| RegionFill.PaintRun | graphical_editor.py:89-103 | one pass of the loop body on a target node keeps the loop invariant and lowers the target count |
| RegionFill.PaintStep | graphical_editor.py:90-103 | the run that `xmost_target` bounds, once painted, and the nodes pushed beside it keep the invariant |
| RegionFill.FillStart | graphical_editor.py:54-59 | with only the seed on the work list and nothing painted, the invariant holds |
| RegionFill.NodeAddressable | graphical_editor.py:87-89 | `is_target` on a popped node never raises: each node is valid or is the seed |
| RegionFill.FillEnd | graphical_editor.py:86 | when the work list is empty the invariant gives the fill's result |
| RegionFill.Frontier | graphical_editor.py:97-103 | the nodes the pushing loop puts in front of the work list: for each `x` of the run in turn, the valid target pixel above and then the one below, each pushed on the left |
| RegionFill.PushNeighbours | graphical_editor.py:97-103 | the loop pushes, in order, the valid target pixel above and then the one below each `x` of the run, onto the front of the work list |
| RegionFill.FrontierMembers | graphical_editor.py:97-103 | a node is pushed exactly when it is a valid target pixel directly above or below a pixel of the run |
| RegionFill.PickMembers | graphical_editor.py:99-103 | one test pushes the node exactly when it is valid and target-coloured |
| RegionFill.FrontierInRegion | graphical_editor.py:97-103 | every pushed node lies in the region |
| RegionFill.FrontierCovers | graphical_editor.py:97-103 | after the pushes, every target pixel above or below the run is waiting |
| Commands.Handler.Arity | graphical_editor.py:8-47 | the number of integer parameters each command function takes after `client` |
| Commands.Handler.ReportedArity | utils.py:5-8 | `number_args(f) - 1`: the length of the function's `co_varnames`, local variables included, less one |
| Commands.Handler.TouchesImage | graphical_editor.py:33-45 | a segment command reads `client.image` exactly when its list of cells to set is non-empty, because it reads it only inside its loop |
| Commands.CommandTable | graphical_editor.py:108-115 | the eight `(letter, function)` pairs of `main()`, in order |
| Commands.Registered | cli.py:98-103 | registering a table entry by entry defines exactly the table's names |
| Commands.RegisteredLast | cli.py:103 | a name maps to the function of its last registration |
| Commands.TableNamesDistinct | graphical_editor.py:108-115 | the eight command letters are distinct |
| Commands.TableRegistered | graphical_editor.py:108-118 | after `main()`'s registrations, each letter maps to the function beside it in the table |
| Commands.ReportedArityOvercounts | utils.py:5-8 | `number_args(f) - 1` overcounts the arguments exactly for the two segment commands and the fill, and never undercounts |
| CommandLine.Raised | cli.py:111-117 | a BadCoordinateError from a command passes through `process_command`: a failure stays a failure, is never one of the CLIError kinds, and still carries the original error |
| CommandLine.DimensionError | cli.py:85-95 | `new_image(m, n)` raises NewImageError exactly unless `1 <= m <= 250` and `1 <= n <= 250` |
| CommandLine.DimensionCheckOrder | cli.py:85-95 | both minimums are checked before either maximum: a width below 1 is reported whatever the height; a height below 1 is reported for any width of at least 1, even one above 250; a width above 250 is reported for any height of at least 1; with a width in range, the height alone decides |
| CommandLine.TypeErrorReport | cli.py:116-117 | what `process_command` reports, as written, for any TypeError raised while calling the function: BadNumberArgsError with the supplied count and `number_args(command) - 1` |
| CommandLine.NoImageMisreported | cli.py:81 | as written, `L 1 1 5` with no image reports BadNumberArgsError("L", 3, 3), not NoImageError("L") |
| CommandLine.BadArgsMisreported | cli.py:117 | as written, `V 1 2` reports 5 arguments required, where `draw_vertical_segment` takes 4 |
| CommandLine.Cli.constructor | cli.py:73-76 | a new CLI has no commands and no image, and is not running |
| CommandLine.Cli.CurrentImage | cli.py:78-83 | the `image` property returns the loaded image, or raises NoImageError naming the command when there is none |
| CommandLine.Cli.NewImage | cli.py:85-96 | on valid dimensions a fresh blank `Image(m + 1, n + 1)` replaces the loaded one; otherwise NewImageError, and nothing changes |
| CommandLine.Cli.RegisterCommand | cli.py:98-103 | `register_command` binds the name, keeping every other binding, the image and the running flag |
| CommandLine.Cli.Terminate | cli.py:119-123 | `terminate` clears the running flag and drops the image, keeping the commands |
| CommandLine.Cli.Ran | graphical_editor.py:8-103 | what running each command function does to the session and the image, what it raises and what it prints, with NoImageError when it reads `client.image` and there is none |
| CommandLine.Cli.Run | graphical_editor.py:8-103 | running a command function: NoImageError, with nothing changed, when it reads `client.image` and there is none; otherwise that function's effect on the session and image, its error, and the text `show` prints |
| CommandLine.Cli.ProcessCommand | cli.py:105-117 | `process_command` raises UnknownCommandError for an unregistered name and BadNumberArgsError for a wrong count, changing nothing in either case; otherwise it does what running the registered function does |
| Editor.NewSession | graphical_editor.py:105-118 | `main()` starts with a CLI that maps each command letter to its function, with no image, and not running |

## Left out

- `CLI.main_loop` (`cli.py:125-147`) is not modelled, nor the call to it
  from `main()`. It reads lines from the terminal, splits them, parses the
  integers and prints each error's message. Terminal input and output are
  outside the model. `running` is therefore never set to true; only
  `terminate` clears it.
- Printing is not modelled. `show` prints the image; the model returns
  `__repr__` as the `output` string of `Run` and `ProcessCommand`.
- `cli_message` and the message texts are not modelled. The first
  four constructors of `CommandLine.CliError` carry the same fields as the
  four Python CLIError exceptions. The texts of NewImageError are kept,
  because they are its only field. The message of BadNumberArgsError
  prints the supplied and required counts the wrong way round
  (`cli.py:54-56`); only text formatting is affected.
- Images.CoordError: BadCoordinateError's `image` field, a reference back
  to the Image that refused the coordinates (`image.py:17-20`), is dropped.
  Only `x` and `y` are kept, because no code reads the `image` field:
  `main_loop` prints only `e.x` and `e.y` (`cli.py:147`).
- `number_args` (`utils.py:5-8`) inspects a function's code object. The
  model declares each handler's arity, and reproduces what the reflection
  reports (`Commands.Handler.ReportedArity`) only for the finding below.
- Command functions are Python function values kept in a dictionary; here
  they are the constructors of `Commands.Handler`. `process_command`
  catches any KeyError or TypeError raised inside a command. None of the
  modelled command bodies raises either one on an image, apart from the
  NoImageError slip below.
- In-place list mutation and the aliasing it allows are not modelled.
  `Image.data` is a `seq` of columns that `Set` reassigns. No other code
  holds a reference to a column, so nothing observable is lost.
- `make_grid`'s warning about shared references does not apply: the
  columns hold integers.

## Findings

| source | as written | input that shows it | evidently intended | confidence | as-written member | corrected member |
|---|---|---|---|---|---|---|
| cli.py:81 | the `image` property raises `NoImageError()` without the `command` argument its constructor needs; Python raises TypeError instead, and `process_command` reports that as BadNumberArgsError | `L 1 1 5` before any `I`: reported as BadNumberArgsError("L", 3, 3), a wrong count of 3 where 3 are required | NoImageError("L"): "L can only be invoked after creating an image." | not executed | CommandLine.NoImageMisreported | CommandLine.Cli.Run |
| cli.py:117 | the required count is `number_args(command) - 1`, which counts the function's local variables (those no nested function captures) as well as its parameters | `V 1 2`: reported as 5 arguments required; `F 1 1` as 10 | the number of integer parameters: 4 for `V` and `H`, 3 for `F` | not executed | CommandLine.BadArgsMisreported | CommandLine.Cli.ProcessCommand |
