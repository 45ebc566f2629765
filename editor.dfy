/** The start of graphical_editor.py's `main()`: a new CLI with the editor's command table registered. */
module Editor {
  import Commands
  import CommandLine

  /**
   * `interface = CLI()` and the loop registering each `(token, fn)` of the
   * command table, in order; the input loop that follows is not modelled.
   */
  method NewSession() returns (cli: CommandLine.Cli)
    ensures fresh(cli) && cli.Valid()
    ensures cli.commands == Commands.Registered(Commands.CommandTable())
    ensures cli.image == null && !cli.running
  {
    cli := new CommandLine.Cli();
    var table := Commands.CommandTable();
    var i := 0;
    while i < |table|
      invariant 0 <= i <= |table|
      invariant cli.commands == Commands.Registered(table[..i])
      invariant cli.image == null && !cli.running
    {
      cli.RegisterCommand(table[i].0, table[i].1);
      assert table[..i + 1][..i] == table[..i] && table[..i + 1][i] == table[i];
      i := i + 1;
    }
    assert table[..i] == table;
  }
}
