/**
 * The eight editor commands of graphical_editor.py, and the table `main()`
 * registers them under. A Python command is a function value stored in the
 * CLI's dictionary; here it is a `Handler` naming that function, with the
 * number of integer arguments it takes declared as data.
 */
module Commands {
  import Drawing

  /** The command functions of graphical_editor.py. */
  datatype Handler =
    | NewImage              // new_image(client, m, n)
    | Clear                 // clear(client)
    | ColourPixel           // colour_pixel(client, x, y, colour)
    | DrawVerticalSegment   // draw_vertical_segment(client, col, y_1, y_n, colour)
    | DrawHorizontalSegment // draw_horizontal_segment(client, x_1, x_n, row, colour)
    | FillRegion            // fill_region(client, x, y, replacement_colour)
    | Show                  // show(client)
    | Terminate             // terminate(client)
  {
    /** How many integer arguments the function takes after `client`. */
    function Arity(): nat
    {
      match this
      case NewImage => 2
      case Clear => 0
      case ColourPixel => 3
      case DrawVerticalSegment => 4
      case DrawHorizontalSegment => 4
      case FillRegion => 3
      case Show => 0
      case Terminate => 0
    }

    /**
     * What `number_args(f) - 1` evaluates to: the length of the function's
     * `co_varnames` less one. That tuple lists the local variables after the
     * parameters (not those a nested function captures), so it overcounts
     * for the two segment commands (loop variable) and for `fill_region`.
     */
    function ReportedArity(): nat
    {
      match this
      case NewImage => 2
      case Clear => 0
      case ColourPixel => 3
      case DrawVerticalSegment => 5
      case DrawHorizontalSegment => 5
      case FillRegion => 10
      case Show => 0
      case Terminate => 0
    }

    /**
     * Whether running the function with `args` reads `client.image`. Both
     * segment commands read it only inside their loop, so they read it
     * exactly when they have a cell to set; `new_image` and `terminate`
     * never do.
     */
    function TouchesImage(args: seq<int>): (b: bool)
      requires |args| == Arity()
      ensures this == DrawVerticalSegment ==> (b <==> Drawing.VerticalCells(args[0], args[1], args[2]) != [])
      ensures this == DrawHorizontalSegment ==> (b <==> Drawing.HorizontalCells(args[0], args[1], args[2]) != [])
    {
      match this
      case NewImage => false
      case Terminate => false
      case DrawVerticalSegment => args[1] <= args[2]
      case DrawHorizontalSegment => args[0] <= args[1]
      case _ => true
    }
  }

  /**
   * The required count BadNumberArgsError reports, as written, differs from
   * the number of arguments the function takes exactly for the segment
   * commands and the fill.
   */
  lemma ReportedArityOvercounts(h: Handler)
    ensures h.ReportedArity() != h.Arity() <==>
      h == DrawVerticalSegment || h == DrawHorizontalSegment || h == FillRegion
    ensures h.ReportedArity() >= h.Arity()
  {
  }

  /** The `commands` tuple of `main()`, in order. */
  function CommandTable(): seq<(string, Handler)>
  {
    [("I", NewImage), ("C", Clear), ("L", ColourPixel), ("V", DrawVerticalSegment),
     ("H", DrawHorizontalSegment), ("F", FillRegion), ("S", Show), ("X", Terminate)]
  }

  /** The dictionary that registering `table` entry by entry, later entries winning, leaves. */
  function Registered(table: seq<(string, Handler)>): (m: map<string, Handler>)
    ensures m.Keys == set k | 0 <= k < |table| :: table[k].0
    decreases |table|
  {
    if table == [] then map[]
    else
      var last := table[|table| - 1];
      var m := Registered(table[..|table| - 1])[last.0 := last.1];
      assert forall k :: 0 <= k < |table| - 1 ==> table[..|table| - 1][k] == table[k];
      m
  }

  /** `Registered(table)` maps a name to the handler of its last entry in `table`. */
  lemma {:induction false} RegisteredLast(table: seq<(string, Handler)>, k: nat)
    requires k < |table| && forall j :: k < j < |table| ==> table[j].0 != table[k].0
    ensures Registered(table)[table[k].0] == table[k].1
    decreases |table|
  {
    if k < |table| - 1 {
      var front := table[..|table| - 1];
      assert front[k] == table[k];
      RegisteredLast(front, k);
    }
  }

  /** Distinct names: the table needs no "later entries win" rule. */
  lemma TableNamesDistinct()
    ensures forall i, j :: 0 <= i < j < |CommandTable()| ==> CommandTable()[i].0 != CommandTable()[j].0
  {
  }

  /** After `main()`'s registrations, each name of the table is defined, to the function beside it. */
  lemma TableRegistered()
    ensures forall k :: 0 <= k < |CommandTable()| ==>
      CommandTable()[k].0 in Registered(CommandTable()) &&
      Registered(CommandTable())[CommandTable()[k].0] == CommandTable()[k].1
  {
    var t := CommandTable();
    TableNamesDistinct();
    forall k | 0 <= k < |t| ensures t[k].0 in Registered(t) && Registered(t)[t[k].0] == t[k].1 {
      RegisteredLast(t, k);
    }
  }
}
