/**
 * The non-interactive input ports: ArrayInput (a cursor over a fixed list of
 * lines) and ArgumentInput (one line built from the process arguments).
 */
module Input {
  import opened Php
  import Output

  /** The name of the help command (HelpCommand::NAME), read when argv is empty. */
  const HelpCommandName: string := "help"

  /** An ArrayInput: each `read` returns the next line of the list, then null forever. */
  class ArrayInput {
    const commands: seq<string>
    var position: nat

    ghost predicate Valid()
      reads this
    {
      position <= |commands|
    }

    constructor (commands: seq<string>)
      ensures Valid() && this.commands == commands && position == 0
    {
      this.commands := commands;
      position := 0;
    }

    predicate IsInteractive()
      ensures !IsInteractive()
    {
      false
    }

    /** `read`: `each()` on the list; the output port and the prompt are not used. */
    method Read(output: Output.ArrayOutput, prompt: string) returns (line: Option<string>)
      requires Valid()
      modifies this`position
      ensures Valid()
      ensures old(position) < |commands| ==> line == Some(commands[old(position)]) && position == old(position) + 1
      ensures old(position) == |commands| ==> line == None && position == old(position)
    {
      if position == |commands| {
        return None;
      }
      line := Some(commands[position]);
      position := position + 1;
    }
  }

  /** How one argv element is written into the line: quoted and escaped when it holds a space. */
  function Quote(argument: string): (r: string)
    ensures ' ' !in argument ==> r == argument
    ensures ' ' in argument ==> |r| >= |argument| + 2 && r[0] == '"' && r[|r| - 1] == '"'
  {
    if ' ' in argument then "\"" + AddSlashes(argument) + "\"" else argument
  }

  function QuoteAll(arguments: seq<string>): (r: seq<string>)
    ensures |r| == |arguments|
    ensures forall k :: 0 <= k < |r| ==> r[k] == Quote(arguments[k])
  {
    if arguments == [] then [] else QuoteAll(arguments[..|arguments| - 1]) + [Quote(arguments[|arguments| - 1])]
  }

  /** The line an ArgumentInput reads: the quoted arguments joined by spaces, or `help` without any. */
  function ArgvLine(argv: Option<seq<string>>): string
  {
    if argv.Some? && argv.value != [] then Implode(" ", QuoteAll(argv.value)) else HelpCommandName
  }

  /** An ArgumentInput: its first `read` returns the argv line, every later one null. */
  class ArgumentInput {
    /** `$_SERVER['argv']`, None when it is not set. */
    const argv: Option<seq<string>>
    var input: Option<string>

    constructor (argv: Option<seq<string>>)
      ensures this.argv == argv && input == None
    {
      this.argv := argv;
      input := None;
    }

    predicate IsInteractive()
      ensures !IsInteractive()
    {
      false
    }

    method Read(output: Output.ArrayOutput, prompt: string) returns (line: Option<string>)
      modifies this`input
      ensures old(input).Some? ==> line == None && input == old(input)
      ensures old(input).None? ==> line == Some(ArgvLine(argv)) && input == line
    {
      if input.Some? {
        return None;
      }
      if argv.Some? && argv.value != [] {
        var arguments := argv.value;
        var i := 0;
        while i < |arguments|
          invariant 0 <= i <= |arguments| == |argv.value|
          invariant forall k :: 0 <= k < i ==> arguments[k] == Quote(argv.value[k])
          invariant forall k :: i <= k < |arguments| ==> arguments[k] == argv.value[k]
        {
          if ' ' in arguments[i] {
            arguments := arguments[i := "\"" + AddSlashes(arguments[i]) + "\""];
          }
          i := i + 1;
        }
        assert arguments == QuoteAll(argv.value);
        input := Some(Implode(" ", arguments));
      } else {
        input := Some(HelpCommandName);
      }
      line := input;
    }
  }

  lemma AddSlashesExample()
    ensures AddSlashes("value \"test\"") == "value \\\"test\\\""
  {
    assert "val" + "ue " + "\"" + "test" + "\"" == "value \"test\"";
    assert "val" + "ue " + "\\\"" + "test" + "\\\"" == "value \\\"test\\\"";
    AddSlashesPlain("val");
    AddSlashesPlain("ue ");
    AddSlashesPlain("test");
    assert AddSlashes("\"") == "\\\"";
    AddSlashesConcat("val", "ue ");
    AddSlashesConcat("val" + "ue ", "\"");
    AddSlashesConcat("val" + "ue " + "\"", "test");
    AddSlashesConcat("val" + "ue " + "\"" + "test", "\"");
  }

  lemma QuoteExample()
    ensures Quote("value") == "value"
    ensures Quote("value \"test\"") == "\"" + "value \\\"test\\\"" + "\""
  {
    assert forall k :: 0 <= k < 5 ==> "value"[k] != ' ';
    assert "value \"test\""[5] == ' ';
    AddSlashesExample();
  }

  /** Two arguments give one line: each quoted as needed, separated by one space. */
  lemma ArgvLinePair(a: string, b: string)
    ensures ArgvLine(Some([a, b])) == Quote(a) + " " + Quote(b)
  {
    var quoted := QuoteAll([a, b]);
    assert quoted == [Quote(a), Quote(b)];
    assert quoted[..1] == [Quote(a)];
    assert Implode(" ", [Quote(a)]) == Quote(a);
  }

  /** Without arguments the line is the help command. */
  lemma ArgvLineDefault()
    ensures ArgvLine(Some([])) == HelpCommandName && ArgvLine(None) == HelpCommandName
  {
  }

  /** The input port a CommandInput wraps. */
  datatype Port = ArrayPort(arrayInput: ArrayInput) | ArgumentPort(argumentInput: ArgumentInput)

  /** `isInteractive` of whichever port is wrapped. */
  function PortIsInteractive(p: Port): (r: bool)
    ensures !r
  {
    match p
    case ArrayPort(a) => a.IsInteractive()
    case ArgumentPort(a) => a.IsInteractive()
  }
}
