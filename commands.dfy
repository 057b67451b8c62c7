/**
 * Commands and their registry: the signature every command declares
 * (AbstractCommand), the help command that renders signatures
 * (HelpCommand), and the name-sorted container (CommandContainer) with its
 * lookups, its iterator and its autocompletion. A help command holds the
 * container and the container holds commands, so both classes live here.
 */
module Commands {
  import opened Php
  import opened Errors
  import opened CommandArguments
  import opened CommandInputs
  import opened Output

  // ---------------------------------------------------------------------
  // Signatures
  // ---------------------------------------------------------------------

  /** Declared flags: name to description; addFlag accepts any description, null included. */
  type Flags = seq<(string, Option<string>)>

  /** Everything a command declares about itself, as a value. */
  datatype Signature = Signature(name: string, description: Option<string>, arguments: seq<Argument>, flags: Flags)

  /** Required arguments come first, and only the last argument may be dynamic. */
  predicate WellOrdered(args: seq<Argument>)
  {
    && (forall i, j :: 0 <= i < j < |args| && args[j].isRequired ==> args[i].isRequired)
    && (forall i :: 0 <= i < |args| - 1 ==> !args[i].isDynamic)
  }

  /**
   * `addArgument`: the new argument is built (and validated) first, then
   * checked against the last declared one; on success it is appended.
   */
  function Appended(args: seq<Argument>, name: Value, description: Value, isRequired: Value, isDynamic: Value): (r: Result<seq<Argument>, CliError>)
    ensures var a := NewArgument(name, description, isRequired, isDynamic);
      && (a.Err? ==> r == Err(a.error))
      && (a.Ok? && args != [] && args[|args| - 1].isDynamic ==> r == Err(ArgumentAfterDynamic))
      && (a.Ok? && args != [] && !args[|args| - 1].isDynamic && !args[|args| - 1].isRequired && a.value.isRequired ==> r == Err(RequiredAfterOptional))
      && (r.Ok? ==> a.Ok? && r.value == args + [a.value])
  {
    match NewArgument(name, description, isRequired, isDynamic)
    case Err(e) => Err(e)
    case Ok(a) =>
      if args != [] && args[|args| - 1].isDynamic then Err(ArgumentAfterDynamic)
      else if args != [] && !args[|args| - 1].isRequired && a.isRequired then Err(RequiredAfterOptional)
      else Ok(args + [a])
  }

  /**
   * The two checks of addArgument are exactly what keeps the declarations
   * well ordered: a valid new argument is accepted if and only if the
   * longer list is still well ordered.
   */
  lemma AppendedKeepsOrder(args: seq<Argument>, name: Value, description: Value, isRequired: Value, isDynamic: Value)
    requires WellOrdered(args) && NewArgument(name, description, isRequired, isDynamic).Ok?
    ensures var a := NewArgument(name, description, isRequired, isDynamic).value;
      Appended(args, name, description, isRequired, isDynamic).Ok? <==> WellOrdered(args + [a])
  {
    var a := NewArgument(name, description, isRequired, isDynamic).value;
    var longer := args + [a];
    assert forall i :: 0 <= i < |args| ==> longer[i] == args[i];
    assert longer[|args|] == a;
  }

  /** One flag of the signature: ` [--name]`. */
  function FlagSyntax(flag: string): string
  {
    " [--" + flag + "]"
  }

  /** The flags of the signature, in declaration order. */
  function FlagsSyntax(flags: Flags): string
  {
    if flags == [] then "" else FlagsSyntax(flags[..|flags| - 1]) + FlagSyntax(flags[|flags| - 1].0)
  }

  /** One argument of the signature: ` <name>` when required, else ` [<name>` (closed at the end). */
  function ArgumentSyntax(a: Argument): string
  {
    if a.isRequired then " <" + a.name + ">" else " [<" + a.name + ">"
  }

  function ArgumentsSyntax(args: seq<Argument>): string
  {
    if args == [] then "" else ArgumentsSyntax(args[..|args| - 1]) + ArgumentSyntax(args[|args| - 1])
  }

  function OptionalCount(args: seq<Argument>): nat
  {
    if args == [] then 0 else OptionalCount(args[..|args| - 1]) + (if args[|args| - 1].isRequired then 0 else 1)
  }

  /** `str_repeat`. */
  function Repeat(c: char, n: nat): string
  {
    if n == 0 then "" else Repeat(c, n - 1) + [c]
  }

  /** The syntax `getSyntax` renders: name, flags, arguments, and one `]` per optional argument. */
  function Syntax(name: string, flags: Flags, args: seq<Argument>): string
  {
    name + FlagsSyntax(flags) + ArgumentsSyntax(args) + Repeat(']', OptionalCount(args))
  }

  predicate NoBrackets(s: string)
  {
    '[' !in s && ']' !in s
  }

  lemma LiteralCounts()
    ensures Count(" [--", '[') == 1 && Count(" [--", ']') == 0
    ensures Count("]", '[') == 0 && Count("]", ']') == 1
    ensures Count(" [<", '[') == 1 && Count(" [<", ']') == 0
    ensures Count(" <", '[') == 0 && Count(" <", ']') == 0
    ensures Count(">", '[') == 0 && Count(">", ']') == 0
  {
    CountAbsent(" <", '[');
    CountAbsent(" <", ']');
    CountAbsent(">", '[');
    CountAbsent(">", ']');
    CountAbsent(" [--", ']');
    CountAbsent(" [<", ']');
    CountAbsent("]", '[');
    CountAbsent(" ", '[');
    assert "]"[..0] == [];
    assert " [--"[..3] == " [-" && " [-"[..2] == " [" && " ["[..1] == " ";
    assert " [<"[..2] == " [";
  }

  /** Brackets around a name without brackets are the brackets of the fixed parts. */
  lemma PieceBrackets(open: string, name: string, close: string)
    requires NoBrackets(name)
    ensures Count(open + name + close, '[') == Count(open, '[') + Count(close, '[')
    ensures Count(open + name + close, ']') == Count(open, ']') + Count(close, ']')
  {
    CountConcat(open + name, close, '[');
    CountConcat(open + name, close, ']');
    CountConcat(open, name, '[');
    CountConcat(open, name, ']');
    CountAbsent(name, '[');
    CountAbsent(name, ']');
  }

  lemma {:induction false} FlagsSyntaxBrackets(flags: Flags)
    requires forall i :: 0 <= i < |flags| ==> NoBrackets(flags[i].0)
    ensures Count(FlagsSyntax(flags), '[') == |flags| && Count(FlagsSyntax(flags), ']') == |flags|
    decreases |flags|
  {
    if flags != [] {
      var init := flags[..|flags| - 1];
      var f := flags[|flags| - 1].0;
      FlagsSyntaxBrackets(init);
      CountConcat(FlagsSyntax(init), FlagSyntax(f), '[');
      CountConcat(FlagsSyntax(init), FlagSyntax(f), ']');
      PieceBrackets(" [--", f, "]");
      LiteralCounts();
    }
  }

  lemma {:induction false} ArgumentsSyntaxBrackets(args: seq<Argument>)
    requires forall i :: 0 <= i < |args| ==> NoBrackets(args[i].name)
    ensures Count(ArgumentsSyntax(args), '[') == OptionalCount(args) && Count(ArgumentsSyntax(args), ']') == 0
    decreases |args|
  {
    if args != [] {
      var init := args[..|args| - 1];
      var a := args[|args| - 1];
      ArgumentsSyntaxBrackets(init);
      CountConcat(ArgumentsSyntax(init), ArgumentSyntax(a), '[');
      CountConcat(ArgumentsSyntax(init), ArgumentSyntax(a), ']');
      PieceBrackets(if a.isRequired then " <" else " [<", a.name, ">");
      LiteralCounts();
    }
  }

  lemma {:induction false} RepeatCount(n: nat)
    ensures Count(Repeat(']', n), ']') == n && Count(Repeat(']', n), '[') == 0
  {
    if n > 0 {
      RepeatCount(n - 1);
      CountConcat(Repeat(']', n - 1), "]", ']');
      CountConcat(Repeat(']', n - 1), "]", '[');
      LiteralCounts();
    }
  }

  /**
   * The rendered syntax is balanced: when no name holds a bracket, it has
   * one `[` and one `]` per flag and per optional argument.
   */
  lemma SyntaxBalanced(name: string, flags: Flags, args: seq<Argument>)
    requires NoBrackets(name)
    requires forall i :: 0 <= i < |flags| ==> NoBrackets(flags[i].0)
    requires forall i :: 0 <= i < |args| ==> NoBrackets(args[i].name)
    ensures Count(Syntax(name, flags, args), '[') == |flags| + OptionalCount(args)
    ensures Count(Syntax(name, flags, args), ']') == |flags| + OptionalCount(args)
  {
    var f := FlagsSyntax(flags);
    var a := ArgumentsSyntax(args);
    var r := Repeat(']', OptionalCount(args));
    FlagsSyntaxBrackets(flags);
    ArgumentsSyntaxBrackets(args);
    RepeatCount(OptionalCount(args));
    CountAbsent(name, '[');
    CountAbsent(name, ']');
    CountConcat(name + f + a, r, '[');
    CountConcat(name + f + a, r, ']');
    CountConcat(name + f, a, '[');
    CountConcat(name + f, a, ']');
    CountConcat(name, f, '[');
    CountConcat(name, f, ']');
  }

  // ---------------------------------------------------------------------
  // Help texts
  // ---------------------------------------------------------------------

  const HelpName := "help"
  const HelpDescription := "Prints this help."
  const HelpArgument := Argument("command", Some(CommandArgumentDescription), false, true)
  const OverviewTitle := "Available commands:"
  const UsageLine := "Use 'help <command>' to get help for a specific command."

  /** A null description prints as nothing. */
  function DescriptionText(d: Option<string>): string
  {
    if d.Some? then d.value else ""
  }

  /** One bullet per command syntax, in the order given. */
  function Bullets(syntaxes: seq<string>): (r: seq<string>)
    ensures |r| == |syntaxes|
    ensures forall i :: 0 <= i < |syntaxes| ==> r[i] == "- " + syntaxes[i]
  {
    seq(|syntaxes|, i requires 0 <= i < |syntaxes| => "- " + syntaxes[i])
  }

  /** The overview: a title, the bullets, then the usage note between blank lines. */
  function OverviewLines(syntaxes: seq<string>): seq<string>
  {
    [OverviewTitle] + Bullets(syntaxes) + ["", UsageLine] + [""]
  }

  /** One line per flag: `- [--name] description`. */
  function FlagLines(flags: Flags): (r: seq<string>)
    ensures |r| == |flags|
    ensures forall i :: 0 <= i < |flags| ==> r[i] == "- [--" + flags[i].0 + "] " + DescriptionText(flags[i].1)
  {
    seq(|flags|, i requires 0 <= i < |flags| => "- [--" + flags[i].0 + "] " + DescriptionText(flags[i].1))
  }

  /** One line per argument: `- ` and the argument's own text. */
  function ArgumentLines(args: seq<Argument>): (r: seq<string>)
    ensures |r| == |args|
    ensures forall i :: 0 <= i < |args| ==> r[i] == "- " + ToString(args[i])
  {
    seq(|args|, i requires 0 <= i < |args| => "- " + ToString(args[i]))
  }

  /** The description and a blank line, when the description is truthy. */
  function DetailHead(s: Signature): seq<string>
  {
    if s.description.Some? && Truthy(s.description.value) then [s.description.value, ""] else []
  }

  /** The detail of one command: the head, the syntax, the flags, the arguments, a blank line. */
  function DetailLines(s: Signature): seq<string>
  {
    DetailHead(s) + ["Syntax: " + Syntax(s.name, s.flags, s.arguments)] + FlagLines(s.flags) + ArgumentLines(s.arguments) + [""]
  }

  /** Writing three groups of lines and then one more line. */
  lemma WrittenGroups(c: Channel, a: seq<string>, b: seq<string>, d: seq<string>, last: string)
    ensures Written(c, a + b + d + [last]) == Written(Written(Written(c, a), b), d).EndLine(last)
  {
    WrittenSnoc(c, a + b + d, last);
    WrittenConcat(c, a + b, d);
    WrittenConcat(c, a, b);
  }

  /** Writing the first i lines and then line i is writing the first i + 1. */
  lemma WrittenStep(c: Channel, lines: seq<string>, i: nat)
    requires i < |lines|
    ensures Written(c, lines[..i]).EndLine(lines[i]) == Written(c, lines[..i + 1])
  {
    WrittenSnoc(c, lines[..i], lines[i]);
    assert lines[..i] + [lines[i]] == lines[..i + 1];
  }

  lemma WrittenTwo(c: Channel, x: string, y: string)
    ensures Written(c, [x, y]) == c.EndLine(x).EndLine(y)
  {
    WrittenSnoc(c, [], x);
    WrittenSnoc(c, [x], y);
    assert [x] + [y] == [x, y];
  }

  // ---------------------------------------------------------------------
  // Commands
  // ---------------------------------------------------------------------

  /** What `execute` does: the help command prints help, every other command's body is not modelled. */
  datatype Kind = Help(container: CommandContainer) | Plain

  class Command {
    const name: string
    const description: Option<string>
    const kind: Kind
    var arguments: seq<Argument>
    var flags: Flags
    var input: Option<CommandInput>
    var output: Option<ArrayOutput>
    /** How many times `execute` has run (the test command's `isInvoked`). */
    var invocations: nat

    ghost predicate Valid()
      reads this
    {
      && Truthy(name) && (description.Some? ==> Truthy(description.value))
      && WellOrdered(arguments) && (forall i :: 0 <= i < |arguments| ==> WellFormed(arguments[i]))
      && UniqueKeys(flags)
    }

    /** The declarations as a value. */
    function Sig(): (s: Signature)
      reads this`arguments, this`flags
      ensures s.name == name && s.description == description && s.arguments == arguments && s.flags == flags
    {
      Signature(name, description, arguments, flags)
    }

    /** The constructor once setName and setDescription have accepted their values. */
    constructor (name: string, description: Option<string>, kind: Kind)
      requires Truthy(name) && (description.Some? ==> Truthy(description.value))
      ensures Valid()
      ensures this.name == name && this.description == description && this.kind == kind
      ensures arguments == [] && flags == [] && input == None && output == None && invocations == 0
    {
      this.name := name;
      this.description := description;
      this.kind := kind;
      arguments := [];
      flags := [];
      input := None;
      output := None;
      invocations := 0;
    }

    /** `addArgument`: on success exactly one argument is appended, on failure nothing changes. */
    method AddArgument(name: Value, description: Value, isRequired: Value, isDynamic: Value) returns (r: Outcome<CliError>)
      requires Valid()
      modifies this`arguments
      ensures Valid()
      ensures match Appended(old(arguments), name, description, isRequired, isDynamic)
        case Ok(args) => r == Pass && arguments == args
        case Err(e) => r == Fail(e) && arguments == old(arguments)
    {
      var argument := NewArgument(name, description, isRequired, isDynamic);
      if argument.Err? {
        return Fail(argument.error);
      }
      if arguments != [] {
        var last := arguments[|arguments| - 1];
        if last.isDynamic {
          return Fail(ArgumentAfterDynamic);
        }
        if !last.isRequired && argument.value.isRequired {
          return Fail(RequiredAfterOptional);
        }
      }
      AppendedKeepsOrder(arguments, name, description, isRequired, isDynamic);
      arguments := arguments + [argument.value];
      return Pass;
    }

    /** `addFlag`: `$flags[$name] = $description`. */
    method AddFlag(name: string, description: Option<string>)
      requires Valid()
      modifies this`flags
      ensures Valid()
      ensures flags == Put(old(flags), name, description)
    {
      PutUnique(flags, name, description);
      flags := Put(flags, name, description);
    }

    /** `getSyntax`, built with the loops of the source. */
    method GetSyntax() returns (syntax: string)
      ensures syntax == Syntax(name, flags, arguments)
    {
      var optionalArguments := 0;
      syntax := name;
      var i := 0;
      while i < |flags|
        invariant 0 <= i <= |flags|
        invariant syntax == name + FlagsSyntax(flags[..i])
      {
        assert flags[..i + 1][..i] == flags[..i];
        AppendAssoc(name, FlagsSyntax(flags[..i]), FlagSyntax(flags[i].0));
        syntax := syntax + (" [--" + flags[i].0 + "]");
        i := i + 1;
      }
      assert flags[..|flags|] == flags;
      ghost var prefix := syntax;
      var j := 0;
      while j < |arguments|
        invariant 0 <= j <= |arguments|
        invariant syntax == prefix + ArgumentsSyntax(arguments[..j])
        invariant optionalArguments == OptionalCount(arguments[..j])
      {
        assert arguments[..j + 1][..j] == arguments[..j];
        AppendAssoc(prefix, ArgumentsSyntax(arguments[..j]), ArgumentSyntax(arguments[j]));
        if arguments[j].isRequired {
          syntax := syntax + (" <" + arguments[j].name + ">");
        } else {
          syntax := syntax + (" [<" + arguments[j].name + ">");
          optionalArguments := optionalArguments + 1;
        }
        j := j + 1;
      }
      assert arguments[..|arguments|] == arguments;
      syntax := syntax + Repeat(']', optionalArguments);
    }

    method SetCommandInput(input: CommandInput)
      modifies this`input
      ensures this.input == Some(input)
    {
      this.input := Some(input);
    }

    method SetOutput(output: ArrayOutput)
      modifies this`output
      ensures this.output == Some(output)
    {
      this.output := Some(output);
    }

    /**
     * `execute`. The help command prints what HelpLines gives for its
     * `command` argument (null when not given) and fails with the
     * container's error, printing nothing, for an unknown name.
     */
    method Execute() returns (r: Outcome<CliError>)
      requires output.Some? && input.Some?
      requires kind.Help? ==> kind.container.Valid()
      modifies this`invocations, output.value`out
      modifies (if kind.Help? then {kind.container} else {})`cursor
      ensures invocations == old(invocations) + 1
      ensures kind.Plain? ==> r == Pass && output.value.out == old(output.value.out)
      ensures kind.Help? ==>
        && kind.container.Valid() && kind.container.commands == old(kind.container.commands)
        && match old(HelpLines(kind.container, input.value.GetArgument(Name("command"), None)))
           case Ok(lines) => r == Pass && output.value.out == Written(old(output.value.out), lines)
           case Err(e) => r == Fail(e) && output.value.out == old(output.value.out)
    {
      r := Pass;
      if kind.Help? {
        var requested := input.value.GetArgument(Name("command"), None);
        r := Help(requested);
      }
      invocations := invocations + 1;
    }

    /** The body of the help command's `execute`: the detail when a command is named, else the overview. */
    method Help(requested: Option<string>) returns (r: Outcome<CliError>)
      requires kind.Help? && kind.container.Valid() && output.Some?
      modifies output.value`out, kind.container`cursor
      ensures kind.container.Valid()
      ensures match old(HelpLines(kind.container, requested))
        case Ok(lines) => r == Pass && output.value.out == Written(old(output.value.out), lines)
        case Err(e) => r == Fail(e) && output.value.out == old(output.value.out)
    {
      if requested.Some? && Truthy(requested.value) {
        r := ShowCommand(requested.value);
      } else {
        ShowOverview();
        r := Pass;
      }
    }

    /** `showCommand`: the detail lines of the named command, or the container's error. */
    method ShowCommand(requested: string) returns (r: Outcome<CliError>)
      requires kind.Help? && kind.container.Valid() && output.Some?
      modifies output.value`out
      ensures match old(kind.container.GetCommand(requested))
        case Err(e) => r == Fail(e) && output.value.out == old(output.value.out)
        case Ok(shown) => r == Pass && output.value.out == Written(old(output.value.out), old(DetailLines(shown.Sig())))
    {
      var found := kind.container.GetCommand(requested);
      if found.Err? {
        return Fail(found.error);
      }
      ghost var shown := found.value;
      WriteDetail(output.value, found.value);
      r := Pass;
    }

    /** `showOverview`: walks the container with its iterator, one bullet per command. */
    method ShowOverview()
      requires kind.Help? && kind.container.Valid() && output.Some?
      modifies output.value`out, kind.container`cursor
      ensures kind.container.Valid()
      ensures output.value.out == Written(old(output.value.out), old(OverviewLines(Syntaxes(kind.container.commands))))
    {
      var container := kind.container;
      var out := output.value;
      ghost var start := out.out;
      ghost var bullets := Bullets(Syntaxes(container.commands));
      ghost var lines := OverviewLines(Syntaxes(container.commands));
      assert lines == [OverviewTitle] + bullets + ["", UsageLine] + [""];
      out.WriteLine(OverviewTitle);
      ghost var titled := Written(start, [OverviewTitle]);
      WrittenSnoc(start, [], OverviewTitle);
      assert [] + [OverviewTitle] == [OverviewTitle];
      assert out.out == titled;
      WriteBullets(out, container);
      ghost var listed := Written(titled, bullets);
      assert out.out == listed;
      out.WriteLine("");
      out.WriteLine(UsageLine);
      WrittenTwo(listed, "", UsageLine);
      assert out.out == Written(listed, ["", UsageLine]);
      out.WriteLine("");
      WrittenGroups(start, [OverviewTitle], bullets, ["", UsageLine], "");
    }
  }

  /** The loop of `showOverview`: one bullet per command, walking the container's iterator. */
  method WriteBullets(out: ArrayOutput, container: CommandContainer)
    requires container.Valid()
    modifies out`out, container`cursor
    ensures container.Valid() && container.commands == old(container.commands)
    ensures out.out == Written(old(out.out), old(Bullets(Syntaxes(container.commands))))
  {
    ghost var start := out.out;
    ghost var entries := container.commands;
    ghost var bullets := Bullets(Syntaxes(entries));
    forall i | 0 <= i < |entries|
      ensures bullets[i] == "- " + Syntax(entries[i].1.name, entries[i].1.flags, entries[i].1.arguments)
    {
      SyntaxesAt(entries, i);
    }
    container.Rewind();
    while container.IsValid()
      invariant container.Valid() && container.commands == entries
      invariant out.out == Written(start, bullets[..container.cursor])
      decreases |entries| - container.cursor
    {
      WriteNextBullet(out, container, start, bullets);
    }
    assert bullets[..container.cursor] == bullets;
  }

  /** One pass of the loop of `showOverview`, from the iterator's current command to the next. */
  method WriteNextBullet(out: ArrayOutput, container: CommandContainer, ghost start: Channel, ghost bullets: seq<string>)
    requires container.Valid() && container.cursor < |container.commands| == |bullets|
    requires var e := container.commands[container.cursor].1; bullets[container.cursor] == "- " + Syntax(e.name, e.flags, e.arguments)
    requires out.out == Written(start, bullets[..container.cursor])
    modifies out`out, container`cursor
    ensures container.Valid() && container.commands == old(container.commands) && container.cursor == old(container.cursor) + 1
    ensures out.out == Written(start, bullets[..container.cursor])
  {
    ghost var k := container.cursor;
    var command := container.Current().value;
    WriteBullet(out, command);
    WrittenStep(start, bullets, k);
    var next := container.Next();
  }

  /** One pass of the loop of `showOverview`: `- ` and the command's syntax. */
  method WriteBullet(out: ArrayOutput, command: Command)
    modifies out`out
    ensures out.out == old(out.out.EndLine("- " + Syntax(command.name, command.flags, command.arguments)))
  {
    var syntax := command.GetSyntax();
    out.WriteLine("- " + syntax);
  }

  /** The body of `showCommand` once the command is found. */
  method WriteDetail(out: ArrayOutput, command: Command)
    modifies out`out
    ensures out.out == Written(old(out.out), DetailLines(command.Sig()))
  {
    ghost var start := out.out;
    ghost var head := DetailHead(command.Sig());
    if command.description.Some? && Truthy(command.description.value) {
      out.WriteLine(command.description.value);
      out.WriteLine("");
      WrittenTwo(start, command.description.value, "");
    }
    assert out.out == Written(start, head);
    var syntax := command.GetSyntax();
    out.WriteLine("Syntax: " + syntax);
    WrittenSnoc(start, head, "Syntax: " + syntax);
    WriteFlagLines(out, command.flags);
    WriteArgumentLines(out, command.arguments);
    out.WriteLine("");
    WrittenGroups(start, head + ["Syntax: " + syntax], FlagLines(command.flags), ArgumentLines(command.arguments), "");
  }

  /** The flag loop of `showCommand`. */
  method WriteFlagLines(out: ArrayOutput, flags: Flags)
    modifies out`out
    ensures out.out == Written(old(out.out), FlagLines(flags))
  {
    ghost var start := out.out;
    ghost var lines := FlagLines(flags);
    var i := 0;
    while i < |flags|
      invariant 0 <= i <= |flags|
      invariant out.out == Written(start, lines[..i])
    {
      out.WriteLine("- [--" + flags[i].0 + "] " + DescriptionText(flags[i].1));
      WrittenStep(start, lines, i);
      i := i + 1;
    }
    assert lines[..i] == lines;
  }

  /** The argument loop of `showCommand`. */
  method WriteArgumentLines(out: ArrayOutput, args: seq<Argument>)
    modifies out`out
    ensures out.out == Written(old(out.out), ArgumentLines(args))
  {
    ghost var start := out.out;
    ghost var lines := ArgumentLines(args);
    var i := 0;
    while i < |args|
      invariant 0 <= i <= |args|
      invariant out.out == Written(start, lines[..i])
    {
      out.WriteLine("- " + ToString(args[i]));
      WrittenStep(start, lines, i);
      i := i + 1;
    }
    assert lines[..i] == lines;
  }

  /** The syntax of every command, in the order of the entries. */
  function Syntaxes(d: seq<(string, Command)>): (r: seq<string>)
    reads (set e | e in d :: e.1)`arguments, (set e | e in d :: e.1)`flags
    ensures |r| == |d|
  {
    if d == [] then []
    else
      var c := d[|d| - 1].1;
      Syntaxes(d[..|d| - 1]) + [Syntax(c.name, c.flags, c.arguments)]
  }

  lemma {:induction false} SyntaxesAt(d: seq<(string, Command)>, i: nat)
    requires i < |d|
    ensures Syntaxes(d)[i] == Syntax(d[i].1.name, d[i].1.flags, d[i].1.arguments)
    decreases |d|
  {
    if i < |d| - 1 {
      SyntaxesAt(d[..|d| - 1], i);
    }
  }

  /**
   * What the help command prints for the value of its `command` argument:
   * the overview when the value is null or falsy, else the detail of the
   * command of that name or the container's error.
   */
  function HelpLines(c: CommandContainer, requested: Option<string>): Result<seq<string>, CliError>
    requires c.Stored()
    reads c`commands, (set e | e in c.commands :: e.1)`arguments, (set e | e in c.commands :: e.1)`flags
  {
    if requested.Some? && Truthy(requested.value) then
      match c.GetCommand(requested.value)
      case Err(e) => Err(e)
      case Ok(shown) => Ok(DetailLines(shown.Sig()))
    else
      Ok(OverviewLines(Syntaxes(c.commands)))
  }

  /** `new HelpCommand($container)`: the name `help`, its description, and one optional dynamic argument `command`. */
  method NewHelpCommand(container: CommandContainer) returns (c: Command)
    ensures fresh(c) && c.Valid()
    ensures c.Sig() == Signature(HelpName, Some(HelpDescription), [HelpArgument], [])
    ensures c.kind == Help(container) && c.input == None && c.output == None && c.invocations == 0
  {
    c := new Command(HelpName, Some(HelpDescription), Help(container));
    var r := c.AddArgument(Str("command"), Str(CommandArgumentDescription), Bool(false), Bool(true));
  }

  /** `new ExitCommand()`: the name `exit`, its description, nothing declared. */
  method NewExitCommand() returns (c: Command)
    ensures fresh(c) && c.Valid()
    ensures c.Sig() == Signature("exit", Some("Exit the console."), [], [])
    ensures c.kind == Plain && c.input == None && c.output == None && c.invocations == 0
  {
    c := new Command("exit", Some("Exit the console."), Plain);
  }

  /** The AbstractCommand constructor: setName, then setDescription, each throwing on a value it rejects. */
  method NewCommand(name: Value, description: Value, kind: Kind) returns (r: Result<Command, CliError>)
    ensures r.Ok? <==> ValidName(name) && ValidDescription(description)
    ensures !ValidName(name) ==> r == Err(InvalidCommandName)
    ensures ValidName(name) && !ValidDescription(description) ==> r == Err(InvalidCommandDescription)
    ensures r.Ok? ==> && fresh(r.value) && r.value.Valid()
                      && r.value.Sig() == Signature(name.s, DescriptionOf(description), [], [])
                      && r.value.kind == kind && r.value.invocations == 0
  {
    if !ValidName(name) {
      return Err(InvalidCommandName);
    }
    if !ValidDescription(description) {
      return Err(InvalidCommandDescription);
    }
    var c := new Command(name.s, DescriptionOf(description), kind);
    return Ok(c);
  }

  /** A flag declared again keeps its place and takes the new description; a new flag goes last. */
  lemma AddFlagOverwrites(flags: Flags, name: string, description: Option<string>)
    requires UniqueKeys(flags)
    ensures var r := Put(flags, name, description);
      && UniqueKeys(r)
      && Lookup(r, name) == Some(description)
      && (forall k :: k != name ==> Lookup(r, k) == Lookup(flags, k))
      && |r| == (if Lookup(flags, name).Some? then |flags| else |flags| + 1)
  {
    PutUnique(flags, name, description);
    PutLookup(flags, name, description);
    PutPlace(flags, name, description);
  }

  // ---------------------------------------------------------------------
  // The container
  // ---------------------------------------------------------------------

  /** Keys in strictly increasing strcmp order, which is what `ksort` leaves. */
  predicate SortedKeys<V>(d: seq<(string, V)>)
  {
    forall i, j :: 0 <= i < j < |d| ==> StrLess(d[i].0, d[j].0)
  }

  /** One step of `ksort`: the entry goes before the first larger key. */
  function InsertSorted<V>(d: seq<(string, V)>, e: (string, V)): seq<(string, V)>
  {
    if d == [] then [e]
    else if StrLess(e.0, d[0].0) then [e] + d
    else [d[0]] + InsertSorted(d[1..], e)
  }

  /** `ksort` on string keys. */
  function KSort<V>(d: seq<(string, V)>): seq<(string, V)>
  {
    if d == [] then [] else InsertSorted(KSort(d[..|d| - 1]), d[|d| - 1])
  }

  lemma SortedUnique<V>(d: seq<(string, V)>)
    requires SortedKeys(d)
    ensures UniqueKeys(d)
  {
    forall i, j | 0 <= i < j < |d| ensures d[i].0 != d[j].0 {
      StrLessIrreflexive(d[i].0);
    }
  }

  /** A key below every key of a sorted array can go in front of it. */
  lemma SortedCons<V>(h: (string, V), d: seq<(string, V)>)
    requires SortedKeys(d) && forall x :: x in d ==> StrLess(h.0, x.0)
    ensures SortedKeys([h] + d)
  {
    var r := [h] + d;
    forall i, j | 0 <= i < j < |r| ensures StrLess(r[i].0, r[j].0) {
      assert r[j] == d[j - 1];
      if i > 0 {
        assert r[i] == d[i - 1];
      }
    }
  }

  /** The rest of a sorted array is sorted and lies above its first key. */
  lemma SortedTail<V>(d: seq<(string, V)>)
    requires SortedKeys(d) && d != []
    ensures SortedKeys(d[1..]) && forall x :: x in d[1..] ==> StrLess(d[0].0, x.0)
  {
    forall x | x in d[1..] ensures StrLess(d[0].0, x.0) {
      var j :| 0 <= j < |d| - 1 && d[1..][j] == x;
      assert d[j + 1] == x;
    }
    forall i, j | 0 <= i < j < |d| - 1 ensures StrLess(d[1..][i].0, d[1..][j].0) {
      assert d[1..][i] == d[i + 1] && d[1..][j] == d[j + 1];
    }
  }

  /** Inserting adds exactly the one entry, and its key looks up its value. */
  lemma {:induction false} InsertSortedEntries<V>(d: seq<(string, V)>, e: (string, V))
    requires Lookup(d, e.0) == None
    ensures |InsertSorted(d, e)| == |d| + 1
    ensures forall x :: x in InsertSorted(d, e) ==> x in d || x == e
    ensures forall x :: x in d ==> x in InsertSorted(d, e)
    ensures e in InsertSorted(d, e)
    ensures forall k :: Lookup(InsertSorted(d, e), k) == if k == e.0 then Some(e.1) else Lookup(d, k)
    decreases |d|
  {
    if d != [] {
      assert d == [d[0]] + d[1..];
      if !StrLess(e.0, d[0].0) {
        InsertSortedEntries(d[1..], e);
        assert ([d[0]] + InsertSorted(d[1..], e))[1..] == InsertSorted(d[1..], e);
      }
    }
  }

  /** Inserting a new key into sorted keys keeps them sorted. */
  lemma {:induction false} InsertSortedOrder<V>(d: seq<(string, V)>, e: (string, V))
    requires SortedKeys(d) && Lookup(d, e.0) == None
    ensures SortedKeys(InsertSorted(d, e))
    decreases |d|
  {
    if d == [] {
    } else if StrLess(e.0, d[0].0) {
      SortedTail(d);
      forall x | x in d ensures StrLess(e.0, x.0) {
        if x != d[0] {
          assert d == [d[0]] + d[1..];
          StrLessTransitive(e.0, d[0].0, x.0);
        }
      }
      SortedCons(e, d);
    } else {
      var rest := d[1..];
      SortedTail(d);
      InsertSortedOrder(rest, e);
      InsertSortedEntries(rest, e);
      var tail := InsertSorted(rest, e);
      StrLessTotal(d[0].0, e.0);
      assert d[0].0 != e.0;
      forall x | x in tail ensures StrLess(d[0].0, x.0) {
        if x != e {
          assert x in rest;
        }
      }
      SortedCons(d[0], tail);
    }
  }

  /** `ksort` on an array with unique keys sorts it and keeps every key with its value. */
  lemma {:induction false} KSortFacts<V>(d: seq<(string, V)>)
    requires UniqueKeys(d)
    ensures var r := KSort(d);
      && SortedKeys(r) && |r| == |d|
      && (forall x :: x in r ==> x in d)
      && (forall x :: x in d ==> x in r)
      && (forall k :: Lookup(r, k) == Lookup(d, k))
    decreases |d|
  {
    if d != [] {
      var init := d[..|d| - 1];
      var last := d[|d| - 1];
      assert d == init + [last];
      assert UniqueKeys(init);
      KSortFacts(init);
      KSortStep(init, last, KSort(init));
    }
  }

  /** The step of `KSortFacts`: inserting the last entry into the sorted rest. */
  lemma KSortStep<V>(init: seq<(string, V)>, last: (string, V), s: seq<(string, V)>)
    requires UniqueKeys(init + [last])
    requires SortedKeys(s) && |s| == |init|
    requires forall x :: x in s <==> x in init
    requires forall k :: Lookup(s, k) == Lookup(init, k)
    ensures var r := InsertSorted(s, last);
      && SortedKeys(r) && |r| == |init| + 1
      && (forall x :: x in r ==> x in init + [last])
      && (forall x :: x in init + [last] ==> x in r)
      && (forall k :: Lookup(r, k) == Lookup(init + [last], k))
  {
    forall i | 0 <= i < |init| ensures init[i].0 != last.0 {
      assert (init + [last])[i] == init[i] && (init + [last])[|init|] == last;
    }
    LookupFound(init, last.0);
    InsertSortedEntries(s, last);
    InsertSortedOrder(s, last);
    KSortLookup(init, last, s);
  }

  lemma KSortLookup<V>(init: seq<(string, V)>, last: (string, V), s: seq<(string, V)>)
    requires Lookup(init, last.0) == None
    requires forall k :: Lookup(s, k) == Lookup(init, k)
    ensures forall k :: Lookup(InsertSorted(s, last), k) == Lookup(init + [last], k)
  {
    InsertSortedEntries(s, last);
    forall k ensures Lookup(InsertSorted(s, last), k) == Lookup(init + [last], k) {
      LookupConcat(init, [last], k);
    }
  }

  /** unset keeps the order of the remaining entries. */
  lemma {:induction false} UnsetEntries<V>(d: seq<(string, V)>, k: string)
    ensures forall x :: x in Unset(d, k) ==> x in d && x.0 != k
    ensures forall x :: x in d && x.0 != k ==> x in Unset(d, k)
    ensures SortedKeys(d) ==> SortedKeys(Unset(d, k))
    decreases |d|
  {
    if d != [] {
      UnsetEntries(d[1..], k);
      assert d == [d[0]] + d[1..];
      if SortedKeys(d) {
        SortedTail(d);
        if d[0].0 != k {
          forall x | x in Unset(d[1..], k) ensures StrLess(d[0].0, x.0) {
            assert x in d[1..];
          }
          SortedCons(d[0], Unset(d[1..], k));
        }
      }
    }
  }

  /** The position of the entry with key k, or |d| when there is none. */
  function Position<V>(d: seq<(string, V)>, k: string): (p: nat)
    ensures p <= |d|
    ensures p < |d| ==> d[p].0 == k
    ensures forall i :: 0 <= i < p ==> d[i].0 != k
  {
    if d == [] then 0 else if d[0].0 == k then 0 else 1 + Position(d[1..], k)
  }

  class CommandContainer {
    var commands: seq<(string, Command)>
    /** The array's internal pointer, as a position; `|commands|` when it is past the end. */
    var cursor: nat

    /** Sorted by name and every command under its own name. */
    ghost predicate Stored()
      reads this`commands
    {
      && SortedKeys(commands)
      && (forall e :: e in commands ==> e.0 == e.1.name && Truthy(e.0))
    }

    /** The stored commands, and the pointer within bounds. */
    ghost predicate Valid()
      reads this`commands, this`cursor
    {
      Stored() && cursor <= |commands|
    }

    constructor ()
      ensures Valid() && commands == [] && cursor == 0
    {
      commands := [];
      cursor := 0;
    }

    /** `addCommand`: stored under its name, then `ksort`, which also rewinds the pointer. */
    method AddCommand(command: Command)
      requires Valid() && Truthy(command.name)
      modifies this`commands, this`cursor
      ensures Valid()
      ensures commands == KSort(Put(old(commands), command.name, command)) && cursor == 0
    {
      SortedUnique(commands);
      PutUnique(commands, command.name, command);
      var stored := Put(commands, command.name, command);
      PutEntries(commands, command.name, command);
      KSortFacts(stored);
      commands := KSort(stored);
      cursor := 0;
    }

    /** `hasCommand`: an error for a falsy name, else whether a command is stored under it. */
    function HasCommand(name: string): (r: Result<bool, CliError>)
      reads this`commands
      ensures !Truthy(name) <==> r == Err(InvalidLookupName)
      ensures Truthy(name) ==> r.Ok? && (r.value <==> exists i :: 0 <= i < |commands| && commands[i].0 == name)
    {
      LookupFound(commands, name);
      if !Truthy(name) then Err(InvalidLookupName) else Ok(Lookup(commands, name).Some?)
    }

    /** `getCommand`: the command stored under the name, or the error of hasCommand or of a missing command. */
    function GetCommand(name: string): (r: Result<Command, CliError>)
      requires Stored()
      reads this`commands
      ensures !Truthy(name) ==> r == Err(InvalidLookupName)
      ensures Truthy(name) && HasCommand(name) == Ok(false) ==> r == Err(CommandNotAdded(name))
      ensures HasCommand(name) == Ok(true) ==> r.Ok? && (name, r.value) in commands && r.value.name == name
    {
      LookupFound(commands, name);
      match HasCommand(name)
      case Err(e) => Err(e)
      case Ok(found) => if !found then Err(CommandNotAdded(name)) else Ok(Lookup(commands, name).value)
    }

    /** `removeCommand`: false and no change when the name is not stored, else the entry is unset. */
    method RemoveCommand(name: string) returns (r: Result<bool, CliError>)
      requires Valid()
      modifies this`commands, this`cursor
      ensures Valid()
      ensures r.Err? || r == Ok(false) ==> commands == old(commands) && cursor == old(cursor)
      ensures r == Err(InvalidLookupName) <==> !Truthy(name)
      ensures Truthy(name) ==> (r == Ok(true) <==> Lookup(old(commands), name).Some?)
      ensures r == Ok(true) ==> && commands == Unset(old(commands), name)
                                && cursor == if Position(old(commands), name) < old(cursor) then old(cursor) - 1 else old(cursor)
    {
      var has := HasCommand(name);
      if has.Err? {
        return has;
      }
      if !has.value {
        return Ok(false);
      }
      LookupFound(commands, name);
      SortedUnique(commands);
      UnsetEntries(commands, name);
      UnsetCount(commands, name);
      var p := Position(commands, name);
      commands := Unset(commands, name);
      if p < cursor {
        cursor := cursor - 1;
      }
      return Ok(true);
    }

    /** `count`. */
    function Count(): (n: nat)
      requires Valid()
      reads this
      ensures n == |KeySet(commands)|
    {
      SortedUnique(commands);
      KeySetSize(commands);
      |commands|
    }

    /** `rewind`. */
    method Rewind()
      modifies this`cursor
      ensures cursor == 0
    {
      cursor := 0;
    }

    /** `current`: the command at the pointer, None for PHP's false past the end. */
    function Current(): (r: Option<Command>)
      reads this
      ensures r.Some? <==> cursor < |commands|
      ensures r.Some? ==> r.value == commands[cursor].1
    {
      if cursor < |commands| then Some(commands[cursor].1) else None
    }

    /** `key`: the name at the pointer, None past the end. */
    function Key(): (r: Option<string>)
      reads this
      ensures r.Some? <==> cursor < |commands|
      ensures r.Some? ==> r.value == commands[cursor].0
    {
      if cursor < |commands| then Some(commands[cursor].0) else None
    }

    /** `next`: moves the pointer one entry on (it stays past the end once there) and returns the new current command. */
    method Next() returns (r: Option<Command>)
      requires Valid()
      modifies this`cursor
      ensures Valid()
      ensures cursor == Min(old(cursor) + 1, |commands|) && r == Current()
    {
      if cursor < |commands| {
        cursor := cursor + 1;
      }
      r := Current();
    }

    /**
     * `valid`: `isset($commands[key($commands)])`. Past the end the key is
     * null, which looks up "", and no command is named "".
     */
    function IsValid(): (r: bool)
      requires Valid()
      reads this
      ensures r <==> cursor < |commands|
    {
      var k := Key();
      LookupFound(commands, "");
      if k.Some? then
        SortedUnique(commands);
        LookupEntry(commands, cursor);
        Lookup(commands, k.value).Some?
      else
        assert forall i :: 0 <= i < |commands| ==> commands[i] in commands;
        Lookup(commands, "").Some?
    }

    /**
     * `autoComplete`: the commands whose name and the input start one
     * another, then for each what it contributes (see Words), stored with
     * each completion as both key and value.
     */
    method AutoComplete(input: string, completer: Completer) returns (completion: seq<(string, string)>)
      requires Valid()
      ensures completion == Completion(Candidates(commands, input), input, completer)
    {
      var candidates := FilterCandidates(commands, input);
      var tokens := Explode(input);
      var numTokens := |tokens|;
      completion := [];
      var j := 0;
      while j < |candidates|
        invariant 0 <= j <= |candidates|
        invariant completion == Completion(candidates[..j], input, completer)
      {
        CompletionNext(candidates, j, input, completer);
        completion := CompleteCommand(completion, candidates[j].1.name, input, numTokens, completer);
        j := j + 1;
      }
      assert candidates[..j] == candidates;
    }
  }

  /** After `$d[$k] = $v` the entries are the old ones without key k, and (k, v). */
  lemma {:induction false} PutEntries<V>(d: seq<(string, V)>, k: string, v: V)
    ensures forall x :: x in Put(d, k, v) ==> x in d || x == (k, v)
    decreases |d|
  {
    if d != [] && d[0].0 != k {
      PutEntries(d[1..], k, v);
    }
  }

  /** The names of the entries. */
  function KeySet<V>(d: seq<(string, V)>): set<string>
  {
    set i | 0 <= i < |d| :: d[i].0
  }

  /** In an array with unique keys there are as many keys as entries. */
  lemma {:induction false} KeySetSize<V>(d: seq<(string, V)>)
    requires UniqueKeys(d)
    ensures |KeySet(d)| == |d|
    decreases |d|
  {
    if d != [] {
      var init := d[..|d| - 1];
      assert UniqueKeys(init) by {
        forall i, j | 0 <= i < j < |init| ensures init[i].0 != init[j].0 {
          assert init[i] == d[i] && init[j] == d[j];
        }
      }
      KeySetSize(init);
      var last := d[|d| - 1].0;
      assert KeySet(d) == KeySet(init) + {last} by {
        forall k | k in KeySet(d) ensures k in KeySet(init) + {last} {
          var i :| 0 <= i < |d| && d[i].0 == k;
          if i < |d| - 1 {
            assert init[i] == d[i];
          }
        }
        forall k | k in KeySet(init) ensures k in KeySet(d) {
          var i :| 0 <= i < |init| && init[i].0 == k;
          assert d[i] == init[i];
        }
      }
      assert last !in KeySet(init) by {
        forall k | k in KeySet(init) ensures k != last {
          var i :| 0 <= i < |init| && init[i].0 == k;
          assert d[i] == init[i];
        }
      }
    }
  }

  /**
   * After addCommand the name finds the added command, every other name
   * finds what it found before, the names stay sorted, and the count grows
   * only for a new name.
   */
  lemma AddCommandEffect<V>(d: seq<(string, V)>, k: string, v: V)
    requires SortedKeys(d)
    ensures var r := KSort(Put(d, k, v));
      && SortedKeys(r)
      && Lookup(r, k) == Some(v)
      && (forall k' :: k' != k ==> Lookup(r, k') == Lookup(d, k'))
      && |r| == (if Lookup(d, k).Some? then |d| else |d| + 1)
  {
    SortedUnique(d);
    PutUnique(d, k, v);
    PutLookup(d, k, v);
    PutPlace(d, k, v);
    KSortFacts(Put(d, k, v));
  }

  /** After removeCommand of a stored name, it is gone, every other name is untouched, one entry less, still sorted. */
  lemma RemoveCommandEffect<V>(d: seq<(string, V)>, k: string)
    requires SortedKeys(d) && Lookup(d, k).Some?
    ensures var r := Unset(d, k);
      && SortedKeys(r)
      && Lookup(r, k) == None
      && (forall k' :: k' != k ==> Lookup(r, k') == Lookup(d, k'))
      && |r| == |d| - 1
  {
    SortedUnique(d);
    UnsetEntries(d, k);
    UnsetLookup(d, k);
    UnsetCount(d, k);
  }

  // ---------------------------------------------------------------------
  // Autocompletion
  // ---------------------------------------------------------------------

  /**
   * What an AutoCompletable command answers for the rest of the input:
   * None when the command is not AutoCompletable (or answers null).
   */
  type Completer = (string, string) -> Option<seq<string>>

  /** The filter of `autoComplete`, on `strncmp` in both directions. */
  predicate MutualPrefix(name: string, input: string)
  {
    StrncmpEqual(name, input, |input|) || StrncmpEqual(input, name, |name|)
  }

  /** The filter keeps a name exactly when one of name and input starts the other. */
  lemma MutualPrefixMeans(name: string, input: string)
    ensures MutualPrefix(name, input) <==> input <= name || name <= input
  {
    StrncmpIsPrefix(name, input);
    StrncmpIsPrefix(input, name);
  }

  /** The commands the filter keeps, in the container's order. */
  function Candidates(d: seq<(string, Command)>, input: string): seq<(string, Command)>
  {
    if d == [] then []
    else Candidates(d[..|d| - 1], input) + (if MutualPrefix(d[|d| - 1].0, input) then [d[|d| - 1]] else [])
  }

  lemma {:induction false} CandidatesFilter(d: seq<(string, Command)>, input: string)
    ensures forall x :: x in Candidates(d, input) ==> x in d && (input <= x.0 || x.0 <= input)
    ensures forall x :: x in d && (input <= x.0 || x.0 <= input) ==> x in Candidates(d, input)
    decreases |d|
  {
    if d != [] {
      var init := d[..|d| - 1];
      CandidatesFilter(init, input);
      assert d == init + [d[|d| - 1]];
      MutualPrefixMeans(d[|d| - 1].0, input);
      forall x | x in Candidates(d, input) ensures input <= x.0 || x.0 <= input {
        if x !in Candidates(init, input) {
          MutualPrefixMeans(x.0, input);
        }
      }
      forall x | x in d && (input <= x.0 || x.0 <= input) ensures x in Candidates(d, input) {
        MutualPrefixMeans(x.0, input);
      }
    }
  }

  /** The first n words of a name, each after a space unless what is joined so far is falsy. */
  function JoinWords(words: seq<string>, n: nat): string
    requires n <= |words|
  {
    if n == 0 then ""
    else
      var joined := JoinWords(words, n - 1);
      joined + (if Truthy(joined) then " " else "") + words[n - 1]
  }

  /** When the first word is truthy, the joined words are the words imploded with spaces. */
  lemma {:induction false} JoinWordsImplode(words: seq<string>, n: nat)
    requires 1 <= n <= |words| && Truthy(words[0])
    ensures JoinWords(words, n) == Implode(" ", words[..n])
    ensures Truthy(JoinWords(words, n))
  {
    if n == 1 {
      assert JoinWords(words, 0) == "";
    } else {
      JoinWordsImplode(words, n - 1);
      assert words[..n][..n - 1] == words[..n - 1];
    }
  }

  /** Each answer after the command name and a space. */
  function Prefixed(prefix: string, answers: seq<string>): (r: seq<string>)
    ensures |r| == |answers|
    ensures forall i :: 0 <= i < |answers| ==> r[i] == prefix + answers[i]
  {
    seq(|answers|, i requires 0 <= i < |answers| => prefix + answers[i])
  }

  /**
   * The completions one command contributes: as many of its words as the
   * input has when it has fewer, the name when as many, and when the input
   * has more words the command's own answers for the input after the name.
   */
  function Words(name: string, input: string, completer: Completer): seq<string>
  {
    var n := |Explode(input)|;
    var m := |Explode(name)|;
    if n < m then [JoinWords(Explode(name), n)]
    else if n == m then [name]
    else
      var commandInput := if |name| + 1 <= |input| then input[|name| + 1..] else "";
      match completer(name, commandInput)
      case None => []
      case Some(answers) => Prefixed(name + " ", answers)
  }

  /** The first loop of `autoComplete`: keeps the commands that pass the filter. */
  method FilterCandidates(commands: seq<(string, Command)>, input: string) returns (candidates: seq<(string, Command)>)
    ensures candidates == Candidates(commands, input)
  {
    candidates := [];
    var i := 0;
    while i < |commands|
      invariant 0 <= i <= |commands|
      invariant candidates == Candidates(commands[..i], input)
    {
      assert commands[..i + 1][..i] == commands[..i];
      // the names are unique, so `$commands[$commandName] = ...` appends
      if MutualPrefix(commands[i].0, input) {
        candidates := candidates + [commands[i]];
      }
      i := i + 1;
    }
    assert commands[..i] == commands;
  }

  /** The body of the second loop of `autoComplete`, for one candidate. */
  method CompleteCommand(completion: seq<(string, string)>, commandName: string, input: string, numTokens: nat, completer: Completer)
    returns (r: seq<(string, string)>)
    requires numTokens == |Explode(input)|
    ensures r == PutWords(completion, Words(commandName, input, completer))
  {
    var commandTokens := Explode(commandName);
    if numTokens < |commandTokens| {
      var joined := JoinFirst(commandTokens, numTokens);
      r := Put(completion, joined, joined);
      assert [joined][..0] == [];
    } else if numTokens == |commandTokens| {
      r := Put(completion, commandName, commandName);
      assert [commandName][..0] == [];
    } else {
      var commandInput := if |commandName| + 1 <= |input| then input[|commandName| + 1..] else "";
      var answers := completer(commandName, commandInput);
      r := completion;
      if answers.Some? {
        ghost var words := Prefixed(commandName + " ", answers.value);
        var k := 0;
        while k < |answers.value|
          invariant 0 <= k <= |answers.value|
          invariant r == PutWords(completion, words[..k])
        {
          assert words[..k + 1][..k] == words[..k];
          var full := commandName + " " + answers.value[k];
          r := Put(r, full, full);
          k := k + 1;
        }
        assert words[..k] == words;
      }
    }
  }

  /** The loop that joins the first n words of a command name. */
  method JoinFirst(words: seq<string>, n: nat) returns (joined: string)
    requires n <= |words|
    ensures joined == JoinWords(words, n)
  {
    joined := "";
    var k := 0;
    while k < n
      invariant 0 <= k <= n
      invariant joined == JoinWords(words, k)
    {
      joined := joined + (if Truthy(joined) then " " else "") + words[k];
      k := k + 1;
    }
  }

  /** `$completion[$w] = $w` for each word in turn. */
  function PutWords(completion: seq<(string, string)>, words: seq<string>): seq<(string, string)>
  {
    if words == [] then completion
    else
      var w := words[|words| - 1];
      Put(PutWords(completion, words[..|words| - 1]), w, w)
  }

  /** The completion of the candidates, in order. */
  function Completion(candidates: seq<(string, Command)>, input: string, completer: Completer): seq<(string, string)>
  {
    if candidates == [] then []
    else
      var last := candidates[|candidates| - 1].1;
      PutWords(Completion(candidates[..|candidates| - 1], input, completer), Words(last.name, input, completer))
  }

  /** One more candidate adds that candidate's words to the completion. */
  lemma CompletionNext(candidates: seq<(string, Command)>, j: nat, input: string, completer: Completer)
    requires j < |candidates|
    ensures Completion(candidates[..j + 1], input, completer)
         == PutWords(Completion(candidates[..j], input, completer), Words(candidates[j].1.name, input, completer))
  {
    assert candidates[..j + 1][..j] == candidates[..j];
  }

  /** Every completion is stored under itself. */
  predicate SelfKeyed(completion: seq<(string, string)>)
  {
    forall x :: x in completion ==> x.0 == x.1
  }

  lemma {:induction false} PutWordsFacts(completion: seq<(string, string)>, words: seq<string>)
    ensures forall k :: Lookup(PutWords(completion, words), k) == if k in words then Some(k) else Lookup(completion, k)
    ensures SelfKeyed(completion) ==> SelfKeyed(PutWords(completion, words))
    ensures UniqueKeys(completion) ==> UniqueKeys(PutWords(completion, words))
    decreases |words|
  {
    if words != [] {
      var init := words[..|words| - 1];
      var w := words[|words| - 1];
      PutWordsFacts(completion, init);
      var p := PutWords(completion, init);
      PutLookup(p, w, w);
      PutEntries(p, w, w);
      assert words == init + [w];
      if UniqueKeys(completion) {
        PutUnique(p, w, w);
      }
    }
  }

  /** What each candidate contributes, in order. */
  function Contributions(candidates: seq<(string, Command)>, input: string, completer: Completer): (r: seq<seq<string>>)
    ensures |r| == |candidates|
    ensures forall i :: 0 <= i < |candidates| ==> r[i] == Words(candidates[i].1.name, input, completer)
  {
    if candidates == [] then []
    else
      var init := candidates[..|candidates| - 1];
      var last := candidates[|candidates| - 1].1;
      var r := Contributions(init, input, completer) + [Words(last.name, input, completer)];
      assert forall i :: 0 <= i < |init| ==> init[i] == candidates[i];
      r
  }

  /** Some group holds k. */
  ghost predicate InSome(groups: seq<seq<string>>, k: string)
  {
    exists i :: 0 <= i < |groups| && k in groups[i]
  }

  lemma InSomeSnoc(groups: seq<seq<string>>, g: seq<string>, k: string)
    ensures InSome(groups + [g], k) <==> InSome(groups, k) || k in g
  {
    var all := groups + [g];
    if InSome(all, k) {
      var i :| 0 <= i < |all| && k in all[i];
      if i < |groups| {
        assert all[i] == groups[i];
      }
    }
    if InSome(groups, k) {
      var i :| 0 <= i < |groups| && k in groups[i];
      assert all[i] == groups[i];
    }
    if k in g {
      assert all[|groups|] == g;
    }
  }

  /**
   * The completion is exactly what the candidates contribute: a key is
   * present if and only if some candidate contributes it, it is stored
   * under itself, and no key occurs twice.
   */
  lemma {:induction false} CompletionExact(candidates: seq<(string, Command)>, input: string, completer: Completer)
    ensures forall k :: Lookup(Completion(candidates, input, completer), k).Some? <==> InSome(Contributions(candidates, input, completer), k)
    ensures forall k :: Lookup(Completion(candidates, input, completer), k).Some? ==>
      Lookup(Completion(candidates, input, completer), k) == Some(k)
    ensures SelfKeyed(Completion(candidates, input, completer))
    ensures UniqueKeys(Completion(candidates, input, completer))
    decreases |candidates|
  {
    if candidates != [] {
      var init := candidates[..|candidates| - 1];
      var last := candidates[|candidates| - 1].1;
      CompletionExact(init, input, completer);
      PutWordsFacts(Completion(init, input, completer), Words(last.name, input, completer));
      var before := Contributions(init, input, completer);
      var words := Words(last.name, input, completer);
      assert Contributions(candidates, input, completer) == before + [words];
      forall k ensures Lookup(Completion(candidates, input, completer), k).Some? <==> InSome(before + [words], k) {
        InSomeSnoc(before, words, k);
      }
    }
  }

  /**
   * A candidate whose name has fewer words than the input starts the
   * input, so the text after the name and its space is a real substring.
   */
  lemma SubcommandInput(name: string, input: string)
    requires MutualPrefix(name, input) && |Explode(input)| > |Explode(name)|
    ensures name <= input && |name| + 1 <= |input|
  {
    MutualPrefixMeans(name, input);
    if input <= name {
      PrefixWords(input, name);
    }
    PrefixSameLength(name, input);
  }

  lemma PrefixSameLength(a: string, b: string)
    requires a <= b
    ensures |a| == |b| ==> a == b
  {
  }

  /** A prefix of a string has no more words than the string. */
  lemma PrefixWords(a: string, b: string)
    requires a <= b
    ensures |Explode(a)| <= |Explode(b)|
  {
    ExplodeLength(a);
    ExplodeLength(b);
    assert b == a + b[|a|..];
    CountConcat(a, b[|a|..], ' ');
  }

  // ---------------------------------------------------------------------
  // Worked examples
  // ---------------------------------------------------------------------

  const TestArguments := [
    Argument("required", Some("required description"), true, false),
    Argument("optional", Some("optional description"), false, false),
    Argument("dynamic", Some("dynamic description"), false, true)]

  lemma ArgumentsSyntaxOne(a: Argument)
    ensures ArgumentsSyntax([a]) == ArgumentSyntax(a)
    ensures OptionalCount([a]) == if a.isRequired then 0 else 1
  {
    assert [a][..0] == [];
  }

  lemma ArgumentsSyntaxThree(a: Argument, b: Argument, c: Argument)
    ensures ArgumentsSyntax([a, b, c]) == ArgumentSyntax(a) + ArgumentSyntax(b) + ArgumentSyntax(c)
    ensures OptionalCount([a, b, c]) == (if a.isRequired then 0 else 1) + (if b.isRequired then 0 else 1) + (if c.isRequired then 0 else 1)
  {
    ArgumentsSyntaxOne(a);
    assert [a, b][..1] == [a];
    assert ArgumentsSyntax([a, b]) == ArgumentSyntax(a) + ArgumentSyntax(b);
    assert [a, b, c][..2] == [a, b];
  }

  /**
   * The syntax of a command shaped like the test command: one flag, then
   * a required, an optional and a dynamic optional argument.
   */
  lemma TestSyntaxShape(name: string, flag: string, flagDescription: Option<string>, required: Argument, optional: Argument, dynamic: Argument)
    requires required.isRequired && !optional.isRequired && !dynamic.isRequired
    ensures Syntax(name, [(flag, flagDescription)], [required, optional, dynamic])
      == name + (" [--" + flag + "]") + (" <" + required.name + ">") + (" [<" + optional.name + ">")
         + (" [<" + dynamic.name + ">") + "]]"
  {
    var f: Flags := [(flag, flagDescription)];
    assert f[..0] == [];
    assert FlagsSyntax(f) == " [--" + flag + "]";
    ArgumentsSyntaxThree(required, optional, dynamic);
    var a, b, c := ArgumentSyntax(required), ArgumentSyntax(optional), ArgumentSyntax(dynamic);
    assert Repeat(']', 2) == "]]" by {
      assert Repeat(']', 1) == [']'];
    }
    AppendAssoc(name + FlagsSyntax(f), a + b, c);
    AppendAssoc(name + FlagsSyntax(f), a, b);
  }

  /** The syntax of a command with one optional argument and no flags. */
  lemma OneOptionalSyntax(name: string, a: Argument)
    requires !a.isRequired
    ensures Syntax(name, [], [a]) == name + (" [<" + a.name + ">") + "]"
  {
    var f: Flags := [];
    assert FlagsSyntax(f) == "";
    ArgumentsSyntaxOne(a);
    var s := ArgumentSyntax(a);
    assert s == " [<" + a.name + ">";
    assert Repeat(']', 1) == [']'];
    assert Syntax(name, f, [a]) == name + "" + s + "]";
    assert name + "" == name;
  }

  /** The overview lists each syntax after `- `, between the title and the usage note. */
  lemma OverviewOfTwo(first: string, second: string)
    ensures OverviewLines([first, second]) == [OverviewTitle, "- " + first, "- " + second, "", UsageLine, ""]
  {
    var b := Bullets([first, second]);
    assert b == ["- " + first, "- " + second];
  }

  /** The detail of a command with a description, no flags and one argument. */
  lemma DetailOfOne(name: string, description: string, a: Argument)
    requires Truthy(description)
    ensures DetailLines(Signature(name, Some(description), [a], []))
      == [description, "", "Syntax: " + Syntax(name, [], [a]), "- " + ToString(a), ""]
  {
    assert ArgumentLines([a]) == ["- " + ToString(a)];
    assert FlagLines([]) == [];
  }

  /** A word without a space explodes into itself. */
  lemma OneWord(w: string)
    requires ' ' !in w
    ensures |Explode(w)| == 1
  {
    ExplodeLength(w);
    CountAbsent(w, ' ');
  }

  /** An input of one word completes a one-word candidate to its name. */
  lemma SingleWordCompletes(name: string, input: string, completer: Completer, completion: seq<(string, string)>)
    requires ' ' !in name && ' ' !in input
    ensures PutWords(completion, Words(name, input, completer)) == Put(completion, name, name)
  {
    OneWord(name);
    OneWord(input);
    assert [name][..0] == [];
  }

  /** The filter over three entries keeps each that passes, in order. */
  lemma CandidatesThree(x: (string, Command), y: (string, Command), z: (string, Command), input: string)
    ensures Candidates([x, y, z], input)
      == (if MutualPrefix(x.0, input) then [x] else []) + (if MutualPrefix(y.0, input) then [y] else [])
         + (if MutualPrefix(z.0, input) then [z] else [])
  {
    assert [x][..0] == [];
    assert Candidates([x], input) == (if MutualPrefix(x.0, input) then [x] else []);
    assert [x, y][..1] == [x];
    assert Candidates([x, y], input) == (if MutualPrefix(x.0, input) then [x] else []) + (if MutualPrefix(y.0, input) then [y] else []);
    assert [x, y, z][..2] == [x, y];
  }

  lemma CompletionOne(x: (string, Command), input: string, completer: Completer)
    ensures Completion([x], input, completer) == PutWords([], Words(x.1.name, input, completer))
  {
    assert [x][..0] == [];
  }

  lemma CompletionThree(x: (string, Command), y: (string, Command), z: (string, Command), input: string, completer: Completer)
    ensures Completion([x, y, z], input, completer)
      == PutWords(PutWords(PutWords([], Words(x.1.name, input, completer)), Words(y.1.name, input, completer)), Words(z.1.name, input, completer))
  {
    assert [x, y, z][..2] == [x, y] && [x, y][..1] == [x];
    CompletionOne(x, input, completer);
  }

  /** An empty input completes every command to its own name. */
  lemma EmptyInputExample(x: (string, Command), y: (string, Command), z: (string, Command), completer: Completer)
    requires x.1.name == x.0 && y.1.name == y.0 && z.1.name == z.0
    requires ' ' !in x.0 && ' ' !in y.0 && ' ' !in z.0
    requires x.0 != y.0 && x.0 != z.0 && y.0 != z.0
    ensures Completion(Candidates([x, y, z], ""), "", completer) == [(x.0, x.0), (y.0, y.0), (z.0, z.0)]
  {
    MutualPrefixMeans(x.0, "");
    MutualPrefixMeans(y.0, "");
    MutualPrefixMeans(z.0, "");
    CandidatesThree(x, y, z, "");
    assert Candidates([x, y, z], "") == [x, y, z];
    CompletionThree(x, y, z, "", completer);
    var c0: seq<(string, string)> := [];
    SingleWordCompletes(x.0, "", completer, c0);
    SingleWordCompletes(y.0, "", completer, Put(c0, x.0, x.0));
    SingleWordCompletes(z.0, "", completer, Put(Put(c0, x.0, x.0), y.0, y.0));
    PutThreeDistinct(x.0, y.0, z.0);
    assert Completion([x, y, z], "", completer) == Put(Put(Put(c0, x.0, x.0), y.0, y.0), z.0, z.0);
  }

  /** Three distinct keys put into an empty array come out in the order they were put. */
  lemma PutThreeDistinct(a: string, b: string, c: string)
    requires a != b && a != c && b != c
    ensures Put(Put(Put([], a, a), b, b), c, c) == [(a, a), (b, b), (c, c)]
  {
    var c0: seq<(string, string)> := [];
    var c1: seq<(string, string)> := [(a, a)];
    assert Put(c0, a, a) == c1;
    assert c1[1..] == [];
    assert Put(c1, b, b) == [(a, a), (b, b)];
    var c2: seq<(string, string)> := [(a, a), (b, b)];
    assert c2[1..] == [(b, b)];
    assert Put(c2[1..], c, c) == [(b, b), (c, c)];
  }

  /** An input that starts only the last of three one-word names completes to that name alone. */
  lemma PrefixInputExample(x: (string, Command), y: (string, Command), z: (string, Command), input: string, completer: Completer)
    requires z.1.name == z.0 && ' ' !in z.0 && ' ' !in input
    requires input <= z.0
    requires !(input <= x.0 || x.0 <= input) && !(input <= y.0 || y.0 <= input)
    ensures Completion(Candidates([x, y, z], input), input, completer) == [(z.0, z.0)]
  {
    MutualPrefixMeans(x.0, input);
    MutualPrefixMeans(y.0, input);
    MutualPrefixMeans(z.0, input);
    CandidatesThree(x, y, z, input);
    CompletionOne(z, input, completer);
    var c0: seq<(string, string)> := [];
    SingleWordCompletes(z.0, input, completer, c0);
  }

  /**
   * An input of a one-word name, a space and one more word has more words
   * than the name: the command's own completion of that word is asked for,
   * and each answer comes back after the name and a space.
   */
  lemma SubcommandWords(name: string, word: string, completer: Completer)
    requires ' ' !in name && ' ' !in word
    ensures Words(name, name + " " + word, completer)
      == match completer(name, word) case None => [] case Some(answers) => Prefixed(name + " ", answers)
  {
    var input := name + " " + word;
    ExplodeLength(input);
    CountConcat(name + " ", word, ' ');
    CountConcat(name, " ", ' ');
    CountAbsent(name, ' ');
    CountAbsent(word, ' ');
    assert " "[..0] == [];
    OneWord(name);
    assert input[|name| + 1..] == word;
  }

  /** When the help command answers `exit` for `e`, the input `help e` completes to `help exit`. */
  lemma SubcommandExample(x: (string, Command), y: (string, Command), z: (string, Command), word: string, answer: string, completer: Completer)
    requires y.1.name == y.0 && ' ' !in y.0 && ' ' !in word
    requires !(y.0 + " " + word <= x.0 || x.0 <= y.0 + " " + word)
    requires !(y.0 + " " + word <= z.0 || z.0 <= y.0 + " " + word)
    requires completer(y.0, word) == Some([answer])
    ensures Completion(Candidates([x, y, z], y.0 + " " + word), y.0 + " " + word, completer)
      == [(y.0 + " " + answer, y.0 + " " + answer)]
  {
    var input := y.0 + " " + word;
    MutualPrefixMeans(x.0, input);
    MutualPrefixMeans(y.0, input);
    MutualPrefixMeans(z.0, input);
    assert y.0 <= input;
    CandidatesThree(x, y, z, input);
    CompletionOne(y, input, completer);
    SubcommandWords(y.0, word, completer);
    assert Prefixed(y.0 + " ", [answer]) == [y.0 + " " + answer];
    var w := [y.0 + " " + answer];
    assert w[..0] == [];
  }
}
