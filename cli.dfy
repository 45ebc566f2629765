/**
 * The command line session of cli.py: a dictionary of registered commands,
 * the loaded image if there is one, and the running flag; `new_image` with
 * its dimension checks, `register_command`, `terminate`, and
 * `process_command`, which looks a command up, checks its argument count and
 * runs it. The bodies of the command functions it runs come from
 * graphical_editor.py.
 */
module CommandLine {
  import opened Wrappers
  import opened Images
  import Drawing
  import RegionFill
  import Commands

  const MAX_IMAGE_HEIGHT: int := 250
  const MAX_IMAGE_WIDTH: int := 250

  /**
   * The errors that leave `process_command`: the four CLIError subclasses,
   * and the BadCoordinateError of an image operation, which passes through.
   */
  datatype CliError =
    | NewImageError(message: string)
    | UnknownCommandError(command: string)
    | BadNumberArgsError(command: string, argsSupplied: int, argsRequired: int)
    | NoImageError(command: string)
    | ImageError(error: CoordError)

  /**
   * An image operation's outcome, as `process_command` passes it on: a
   * failure stays a failure, is never one of the CLIError kinds, and still
   * carries the original error.
   */
  function Raised(o: Outcome<CoordError>): (r: Outcome<CliError>)
    ensures o.Fail? ==> r.Fail?
    ensures r.Fail? ==> r.error.ImageError? && o == Fail(r.error.error)
  {
    match o
    case Pass => Pass
    case Fail(e) => Fail(ImageError(e))
  }

  /**
   * The NewImageError `new_image(m, n)` raises, from the first failing check
   * in the source's order (width at least 1, height at least 1, width at most
   * MAX_IMAGE_WIDTH, height at most MAX_IMAGE_HEIGHT), or None.
   */
  function DimensionError(m: int, n: int): (e: Option<CliError>)
    ensures e.None? <==> 1 <= m <= MAX_IMAGE_WIDTH && 1 <= n <= MAX_IMAGE_HEIGHT
    ensures e.Some? ==> e.value.NewImageError?
  {
    if m < 1 then Some(NewImageError("Image must be minimum 1 pixel wide."))
    else if n < 1 then Some(NewImageError("Image must be minimum 1 pixel high."))
    else if m > MAX_IMAGE_WIDTH then
      Some(NewImageError("Image must be maximum " + Decimal(MAX_IMAGE_WIDTH) + " pixels wide."))
    else if n > MAX_IMAGE_HEIGHT then
      Some(NewImageError("Image must be maximum " + Decimal(MAX_IMAGE_HEIGHT) + " pixels high."))
    else None
  }

  /**
   * The order of the checks: both minimums before either maximum. A width
   * below 1 is reported whatever the height; a height below 1 is reported for
   * any width of at least 1, even one above the maximum; a width above the
   * maximum is reported for any height of at least 1; and with a width in
   * range the height alone decides.
   */
  lemma DimensionCheckOrder(m: int, n: int)
    ensures m < 1 ==> DimensionError(m, n) == DimensionError(0, 1)
    ensures 1 <= m && n < 1 ==> DimensionError(m, n) == DimensionError(1, 0)
    ensures m > MAX_IMAGE_WIDTH && 1 <= n ==> DimensionError(m, n) == DimensionError(MAX_IMAGE_WIDTH + 1, 1)
    ensures 1 <= m <= MAX_IMAGE_WIDTH ==> DimensionError(m, n) == DimensionError(1, n)
  {
  }

  /** The result `fill_region(x, y, replacement)` leads to on data `g0` of a `w` by `h` image. */
  ghost predicate FillOutcome(g0: Grid, g: Grid, w: int, h: int, x: int, y: int, replacement: int, r: Outcome<CliError>)
  {
    match Lookup(g0, x, y)
    case Failure(e) => r == Fail(ImageError(e)) && g == g0
    case Success(target) => r == Pass && RegionFill.Filled(g0, g, w, h, (x, y), target, replacement)
  }

  /**
   * What `process_command` reports, as written, for any TypeError raised
   * while calling the function `h` on `args`: BadNumberArgsError with the
   * required count `number_args(command) - 1`.
   */
  function TypeErrorReport(name: string, args: seq<int>, h: Commands.Handler): CliError
  {
    BadNumberArgsError(name, |args|, h.ReportedArity())
  }

  /**
   * `L 1 1 5` before any `I`: the `image` property raises `NoImageError()`
   * without the `command` argument its constructor requires, Python turns
   * that into a TypeError, and the command is reported as given a wrong
   * number of arguments (3 supplied where 3 are required).
   */
  lemma NoImageMisreported()
    ensures TypeErrorReport("L", [1, 1, 5], Commands.ColourPixel) == BadNumberArgsError("L", 3, 3)
    ensures TypeErrorReport("L", [1, 1, 5], Commands.ColourPixel) != NoImageError("L")
  {
  }

  /** `V 1 2` reports 5 arguments required, where `draw_vertical_segment` takes 4 after the client. */
  lemma BadArgsMisreported()
    ensures TypeErrorReport("V", [1, 2], Commands.DrawVerticalSegment) == BadNumberArgsError("V", 2, 5)
    ensures Commands.Handler.DrawVerticalSegment.Arity() == 4
  {
  }

  /** The `CLI` object. */
  class Cli {
    var commands: map<string, Commands.Handler>
    var image: Image?
    var running: bool

    ghost predicate Valid()
      reads this, image
    {
      image != null ==> image.Valid()
    }

    /** `CLI()`: no commands, no image, not running. */
    constructor ()
      ensures Valid() && commands == map[] && image == null && !running
    {
      commands := map[];
      image := null;
      running := false;
    }

    /** Nothing about the session or the image's pixels changed. */
    twostate predicate Untouched()
      reads this, image
    {
      image == old(image) && running == old(running) && (image != null ==> image.data == old(image.data))
    }

    /**
     * The `image` property, with the missing-image error raised as evidently
     * intended: the loaded image, or NoImageError for the command `name`.
     */
    function CurrentImage(name: string): (r: Result<Image, CliError>)
      reads this
      ensures r.Success? <==> image != null
      ensures r.Success? ==> r.value == image
      ensures r.Failure? ==> r.error == NoImageError(name)
    {
      if image == null then Failure(NoImageError(name)) else Success(image)
    }

    /**
     * `new_image(m, n)`: on valid dimensions, a blank `Image(m + 1, n + 1)`
     * replaces the loaded one; otherwise NewImageError and nothing changes.
     */
    method NewImage(m: int, n: int) returns (r: Outcome<CliError>)
      requires Valid()
      modifies this
      ensures Valid() && commands == old(commands) && running == old(running)
      ensures DimensionError(m, n).Some? ==> r == Fail(DimensionError(m, n).value) && image == old(image)
      ensures DimensionError(m, n).None? ==>
        r == Pass && image != null && fresh(image) && image.width == m + 1 && image.height == n + 1 &&
        image.data == MakeGrid(m + 1, n + 1, INITIAL_COLOUR)
    {
      var e := DimensionError(m, n);
      if e.Some? {
        return Fail(e.value);
      }
      image := new Image(m + 1, n + 1);
      r := Pass;
    }

    /** `register_command(name, command)`: binds `name`, leaving every other binding and the rest of the session. */
    method RegisterCommand(name: string, h: Commands.Handler)
      modifies this
      ensures commands == old(commands)[name := h]
      ensures image == old(image) && running == old(running)
    {
      commands := commands[name := h];
    }

    /** `terminate()`: stops the session and drops the image. */
    method Terminate()
      modifies this
      ensures !running && image == null && commands == old(commands)
    {
      running := false;
      image := null;
    }

    /** Drawing `cells` in `colour` with the `set` calls of a segment command, on the image if there is one. */
    twostate predicate Drew(cells: seq<Cell>, colour: int, new r: Outcome<CliError>, output: string)
      reads this, image
    {
      output == "" && running == old(running) && image == old(image) &&
      (image == null ==> r == Pass) &&
      (image != null ==>
        image.data == Drawing.SetAll(old(image.data), cells, colour).grid &&
        r == Raised(Drawing.SetAll(old(image.data), cells, colour).outcome))
    }

    /**
     * What running command function `h` on `args` did: NoImageError if it
     * reads `client.image` and there is none, otherwise that function's
     * effect, result, and printed text (only `show` prints).
     */
    twostate predicate Ran(h: Commands.Handler, name: string, args: seq<int>, new r: Outcome<CliError>, output: string)
      requires |args| == h.Arity()
      reads this, image
    {
      if old(image) == null && h.TouchesImage(args) then
        r == Fail(NoImageError(name)) && output == "" && Untouched()
      else
        match h
        case NewImage =>
          output == "" && running == old(running) &&
          (DimensionError(args[0], args[1]).Some? ==>
            r == Fail(DimensionError(args[0], args[1]).value) && Untouched()) &&
          (DimensionError(args[0], args[1]).None? ==>
            r == Pass && image != null && fresh(image) && image.width == args[0] + 1 &&
            image.height == args[1] + 1 && image.data == MakeGrid(args[0] + 1, args[1] + 1, INITIAL_COLOUR))
        case Terminate =>
          r == Pass && output == "" && image == null && !running
        case Show =>
          r == Pass && Untouched() && image != null && image.Valid() && output == Render(image.data, image.width, image.height)
        case Clear =>
          r == Pass && output == "" && running == old(running) && image == old(image) && image != null &&
          Cleared(old(image.data), image.data, image.width, image.height)
        case ColourPixel =>
          Drew([(args[0], args[1])], args[2], r, output)
        case DrawVerticalSegment =>
          Drew(Drawing.VerticalCells(args[0], args[1], args[2]), args[3], r, output)
        case DrawHorizontalSegment =>
          Drew(Drawing.HorizontalCells(args[0], args[1], args[2]), args[3], r, output)
        case FillRegion =>
          output == "" && running == old(running) && image == old(image) && image != null &&
          FillOutcome(old(image.data), image.data, image.width, image.height, args[0], args[1], args[2], r)
    }

    /** `command(self, *args)` with the right number of arguments: the command functions of graphical_editor.py. */
    method Run(h: Commands.Handler, name: string, args: seq<int>) returns (r: Outcome<CliError>, output: string)
      requires Valid() && |args| == h.Arity()
      modifies this, image
      ensures Valid() && commands == old(commands)
      ensures Ran(h, name, args, r, output)
    {
      output := "";
      if h.TouchesImage(args) {
        var current := CurrentImage(name);
        if current.Failure? {
          return Fail(current.error), "";
        }
      }
      match h
      case NewImage =>
        r := NewImage(args[0], args[1]);
      case Terminate =>
        Terminate();
        r := Pass;
      case Show =>
        output := image.ToString();
        r := Pass;
      case Clear =>
        image.Clear();
        r := Pass;
      case ColourPixel =>
        var d := Drawing.ColourPixel(image, args[0], args[1], args[2]);
        r := Raised(d);
      case DrawVerticalSegment =>
        r := Pass;
        if image != null {
          var d := Drawing.DrawVerticalSegment(image, args[0], args[1], args[2], args[3]);
          r := Raised(d);
        }
      case DrawHorizontalSegment =>
        r := Pass;
        if image != null {
          var d := Drawing.DrawHorizontalSegment(image, args[0], args[1], args[2], args[3]);
          r := Raised(d);
        }
      case FillRegion =>
        var d := RegionFill.FillRegion(image, args[0], args[1], args[2]);
        r := Raised(d);
    }

    /**
     * `process_command(name, args)`: UnknownCommandError for a name never
     * registered, BadNumberArgsError for a wrong number of arguments, and
     * otherwise whatever running the registered function does.
     */
    method ProcessCommand(name: string, args: seq<int>) returns (r: Outcome<CliError>, output: string)
      requires Valid()
      modifies this, image
      ensures Valid() && commands == old(commands)
      ensures name !in commands ==> r == Fail(UnknownCommandError(name)) && output == "" && Untouched()
      ensures name in commands && |args| != commands[name].Arity() ==>
        r == Fail(BadNumberArgsError(name, |args|, commands[name].Arity())) && output == "" && Untouched()
      ensures name in commands && |args| == commands[name].Arity() ==> Ran(commands[name], name, args, r, output)
    {
      if name !in commands {
        return Fail(UnknownCommandError(name)), "";
      }
      var h := commands[name];
      if |args| != h.Arity() {
        return Fail(BadNumberArgsError(name, |args|, h.Arity())), "";
      }
      r, output := Run(h, name, args);
    }
  }
}
