# ride-lib-cli: command resolution and argument parsing, in Dafny

This project models the core of the PHP shell library `ride/lib-cli` and proves properties about it:

- **The command line parser** (`ArgumentParser`). It has three parts:
  - a character-level tokenizer that honours single and double quotes and backslash-escaped quotes;
  - a classifier that sorts tokens into positional values and the flag forms `--k`, `--k=v`, `-abc` and `-x=v`;
  - the split of a line into a command, arguments and flags, where a number of leading values belong to the command name.
- **The parsed input** (`CommandInput`). It holds positional and named arguments and a flag map. Its slots are renamed in place, and a dynamic argument swallows the slots after it.
- **Argument declarations** (`CommandArgument`) and **commands** (`AbstractCommand`). These cover validation, the ordering rules for arguments, flags, and the syntax line.
- **The registry** (`CommandContainer`). It is a name-sorted map with add, remove, lookup, count and iteration, plus the autocompleter.
- **The interpreter** (`CommandInterpreter.interpret`). It resolves the longest-prefix command, parses with a word offset, then checks in a fixed order: required arguments, then argument count, then flags. Only then does it dispatch.
- **Small collaborators**:
  - the help command, which produces its overview and detail text;
  - an in-memory output with a pending partial line;
  - an input that replays a list;
  - an input that builds one line from the process arguments.

## How the model is organised

PHP strings are byte strings, and a Dafny `string` stands for one: each `char` is one byte. `strlen`, `substr`, `str_split` and string offsets therefore count and split chars exactly as PHP counts and splits bytes. A character that UTF-8 encodes in several bytes is several chars in the model.

PHP arrays are ordered key/value sequences `seq<(K, V)>`. `Lookup`, `Put` and `Unset` follow PHP's insertion order and overwrite-in-place rules. Array keys go through PHP's integer-key coercion (`KeyOf`).

Objects whose methods update their fields are Dafny classes:
- `CommandInput`, `Command`, `CommandContainer`, `ArrayOutput`, `ArrayInput` and `ArgumentInput`;
- their methods carry `modifies` clauses and state their whole new state;
- the loops of the source are `while` loops with invariants.

Each method is proved against a specification function, and the properties are lemmas about those functions. For example:
- `GetArguments` is proved against `Tokens`;
- `ParseArguments` against `Parse`;
- `GetCommandInput` against `CommandParts`;
- `AutoComplete` against `Completion`;
- `Interpret` against `Resolve`, `Checked` and `HelpLines`.

Exceptions become the `CliError` datatype (module `Errors`), with the messages the exception classes build. Operations that throw return `Result` or `Outcome`.

Modules:

| module | file | models |
|---|---|---|
| `Php` | php.dfy | the PHP built-ins the core relies on: array keys, `trim`, `explode`/`implode`, `strpos`, `substr_count`, `addslashes`, `strncmp`, `strcmp` order, `is_numeric`, ordered arrays |
| `Errors` | errors.dfy | the exceptions |
| `Output` | output.dfy | ArrayOutput |
| `Input` | input.dfy | ArrayInput, ArgumentInput |
| `CommandInputs` | command_input.dfy | CommandInput |
| `CommandArguments` | command_argument.dfy | CommandArgument |
| `ArgumentParser` | argument_parser.dfy | ArgumentParser |
| `Commands` | commands.dfy | AbstractCommand, HelpCommand, ExitCommand, CommandContainer |
| `Interpreter` | interpreter.dfy | CommandInterpreter |

## Model

| member | source | states |
|---|---|---|
| Php.KeyOf | src/ride/library/cli/input/CommandInput.php:139 | a string used as an array key stays a string key unless it is a canonical decimal integer in the 64-bit range, which becomes that integer key |
| Php.KeyOfIntToString | src/ride/library/cli/input/CommandInput.php:139 | the decimal text of any 64-bit integer is coerced back to that integer key |
| Php.CanonicalRoundTrip | src/ride/library/cli/input/CommandInput.php:139 | a canonical digit string is the decimal text of its own value |
| Php.NameKey | src/ride/library/cli/input/CommandInput.php:139 | a key that starts with neither a digit nor `-` stays a string key |
| Php.Trim | src/pallo/library/cli/input/ArgumentParser.php:121 | `trim` is never longer than its input, and a non-empty result neither starts nor ends with a whitespace character |
| Php.TrimIsSlice | src/pallo/library/cli/input/ArgumentParser.php:121 | `trim` cuts only whitespace characters, from both ends, and keeps the middle |
| Php.TrimEmpty | src/pallo/library/cli/input/ArgumentParser.php:121-123 | `trim` gives "" exactly when the string is all whitespace |
| Php.CountConcat | src/ride/library/cli/CommandInterpreter.php:82 | `substr_count` over a concatenation is the sum of the counts |
| Php.ExplodeLength | src/ride/library/cli/command/CommandContainer.php:106-107 | `explode(' ', s)` has one more piece than s has spaces |
| Php.ImplodeExplode | src/ride/library/cli/command/CommandContainer.php:113 | joining the pieces of `explode(' ', s)` with spaces gives s back |
| Php.ExplodeImplode | src/ride/library/cli/input/ArgumentInput.php:45 | exploding the space-join of space-free words gives the words back |
| Php.StrposFacts | src/pallo/library/cli/input/ArgumentParser.php:23-26 | `strpos` is false exactly when the character is absent; otherwise it is the first position of that character |
| Php.AddSlashesConcat | src/ride/library/cli/input/ArgumentInput.php:42 | `addslashes` works character by character: it distributes over concatenation |
| Php.AddSlashesPlain | src/ride/library/cli/input/ArgumentInput.php:42 | a string without quotes, backslashes or NUL is left unchanged by `addslashes` |
| Php.StrncmpIsPrefix | src/ride/library/cli/CommandInterpreter.php:68 | `strncmp(a, b, strlen(b)) == 0` holds exactly when b is a prefix of a |
| Php.StrLessIrreflexive | src/ride/library/cli/command/CommandContainer.php:30 | the key order `ksort` uses is irreflexive |
| Php.StrLessTotal | src/ride/library/cli/command/CommandContainer.php:30 | the key order is total on distinct strings |
| Php.StrLessAsymmetric | src/ride/library/cli/command/CommandContainer.php:30 | the key order is asymmetric |
| Php.StrLessTransitive | src/ride/library/cli/command/CommandContainer.php:30 | the key order is transitive |
| Php.LookupFound | src/ride/library/cli/input/CommandInput.php:93 | `isset($a[$k])` is false exactly when no entry has key k, and a found value is stored under k |
| Php.PutLookup | src/ride/library/cli/input/CommandInput.php:139 | after `$a[$k] = $v`, k maps to v and every other key is unchanged |
| Php.UnsetLookup | src/ride/library/cli/input/CommandInput.php:141 | after `unset($a[$k])`, k is absent and every other key is unchanged |
| Php.PutPlace | src/ride/library/cli/command/CommandContainer.php:28 | assignment overwrites an existing key in place, and otherwise appends one entry at the end |
| Php.PutUnique | src/ride/library/cli/command/CommandContainer.php:28 | assignment keeps keys unique |
| Php.PutAbsent | src/pallo/library/cli/input/ArgumentParser.php:199 | assigning an absent key appends the entry |
| Php.UnsetCount | src/ride/library/cli/input/CommandInput.php:122-124 | `unset` of a present key lowers `count` by one and keeps keys unique; of an absent key it changes nothing |
| Php.UnsetConcat | src/ride/library/cli/command/CommandContainer.php:43 | `unset` acts on each part of an array independently |
| Php.LookupEntry | src/ride/library/cli/command/CommandContainer.php:75 | with unique keys, every entry is what a lookup of its key returns |
| Php.LookupConcat | src/ride/library/cli/input/CommandInput.php:103-107 | a lookup in a concatenation finds the first part's entry before the second's |
| Php.SkipDigits | src/pallo/library/cli/input/ArgumentParser.php:40 | the digit run `is_numeric` scans stays in bounds and holds only digits |
| Php.NotNumericStart | src/pallo/library/cli/input/ArgumentParser.php:40 | a key starting with a letter-like character is not numeric, so it is a flag |
| Output.Channel.Append | src/ride/library/cli/output/ArrayOutput.php:41-43 | `write` adds to the pending line and adds no completed line |
| Output.Channel.EndLine | src/ride/library/cli/output/ArrayOutput.php:50-56 | `writeLine` completes exactly one line (the pending text plus the argument), keeps earlier lines, and clears the pending text |
| Output.Channel.Shown | src/ride/library/cli/output/ArrayOutput.php:62-70 | `getOutput` is the completed lines plus the pending line exactly when that line is truthy (not "" and not "0") |
| Output.ShownKeepsContent | src/ride/library/cli/output/ArrayOutput.php:62-70 | everything written is shown, except a pending "0", which PHP's truthiness hides |
| Output.JoinedAppend | src/ride/library/cli/output/ArrayOutput.php:42 | writing text adds exactly that text to the channel's content |
| Output.WriteThenWriteLine | test/src/ride/library/cli/output/ArrayOutputTest.php:9-21 | `write('Te'); writeLine('st')` shows `['Test']`, and `write('Te')` alone shows `['Te']` |
| Output.EmptyLineRecorded | test/src/ride/library/cli/CliTest.php:51-60 | `writeLine('')` with nothing pending records an empty line |
| Output.WrittenSnoc | src/ride/library/cli/command/HelpCommand.php:79-87 | writing the lines one by one adds each of them in turn |
| Output.WrittenConcat | src/ride/library/cli/command/HelpCommand.php:79-87 | writing a + b is writing a, then b |
| Output.WrittenLines | src/ride/library/cli/command/HelpCommand.php:79-87 | writing whole lines completes the pending text with the first line and appends the others |
| Output.ArrayOutput.constructor | src/ride/library/cli/output/ArrayOutput.php:16-34 | both channels start empty |
| Output.ArrayOutput.Write | src/ride/library/cli/output/ArrayOutput.php:41-43 | the output channel becomes `Append(text)` and the error channel is untouched |
| Output.ArrayOutput.WriteLine | src/ride/library/cli/output/ArrayOutput.php:50-56 | the output channel becomes `EndLine(text)` and the error channel is untouched |
| Output.ArrayOutput.GetOutput | src/ride/library/cli/output/ArrayOutput.php:62-70 | returns `Shown()` of the output channel and changes nothing |
| Output.ArrayOutput.WriteError | src/ride/library/cli/output/ArrayOutput.php:77-79 | the error channel becomes `Append(text)` and the output channel is untouched |
| Output.ArrayOutput.WriteErrorLine | src/ride/library/cli/output/ArrayOutput.php:86-92 | the error channel becomes `EndLine(text)` and the output channel is untouched |
| Output.ArrayOutput.GetErrorOutput | src/ride/library/cli/output/ArrayOutput.php:98-106 | returns `Shown()` of the error channel and changes nothing |
| Input.ArrayInput.constructor | src/ride/library/cli/input/ArrayInput.php:16-20 | the list is kept and the cursor is at its start |
| Input.ArrayInput.IsInteractive | src/ride/library/cli/input/ArrayInput.php:26-28 | never interactive |
| Input.ArrayInput.Read | src/ride/library/cli/input/ArrayInput.php:36-43 | the k-th read returns the k-th line and advances; once the list is exhausted every read returns null and nothing changes |
| Input.Quote | src/ride/library/cli/input/ArgumentInput.php:37-43 | an element without a space is kept; one with a space is wrapped in double quotes around its `addslashes` form |
| Input.QuoteAll | src/ride/library/cli/input/ArgumentInput.php:37-43 | the loop rewrites every element to its quoted form, in place and in order |
| Input.ArgumentInput.constructor | src/ride/library/cli/input/ArgumentInput.php:33-34 | argv becomes a parameter instead of a global, and no line has been read yet |
| Input.ArgumentInput.IsInteractive | src/ride/library/cli/input/ArgumentInput.php:18-20 | never interactive |
| Input.ArgumentInput.Read | src/ride/library/cli/input/ArgumentInput.php:28-51 | the first read returns and keeps the quoted, space-joined argv, or `help` without arguments; every later read returns null |
| Input.AddSlashesExample | test/src/ride/library/cli/input/ArgumentInputTest.php:33-43 | `value "test"` is escaped to `value \"test\"` |
| Input.QuoteExample | test/src/ride/library/cli/input/ArgumentInputTest.php:33-43 | `value` passes through, and `value "test"` becomes `"value \"test\""` |
| Input.ArgvLinePair | test/src/ride/library/cli/input/ArgumentInputTest.php:33-43 | two arguments give their quoted forms separated by one space |
| Input.ArgvLineDefault | test/src/ride/library/cli/input/ArgumentInputTest.php:22-27 | with argv absent or empty, the line is `help` |
| Input.PortIsInteractive | src/ride/library/cli/input/CommandInput.php:223 | neither input port is interactive |
| CommandInputs.Numbered | src/pallo/library/cli/input/ArgumentParser.php:46 | the positional values are stored under keys 0, 1, … in order |
| CommandInputs.NumberedUnique | src/pallo/library/cli/input/ArgumentParser.php:46 | those keys are distinct |
| CommandInputs.RenamedLookup | src/ride/library/cli/input/CommandInput.php:134-142 | after renaming key i to n, i is absent, n holds i's old value, and every other key is unchanged |
| CommandInputs.RenamedCount | src/ride/library/cli/input/CommandInput.php:122-124 | renaming to a fresh key keeps the count; renaming a slot to its own key deletes it |
| CommandInputs.NumberedUnsetFirst | src/ride/library/cli/input/CommandInput.php:162 | removing the first numbered slot leaves the rest numbered from the next index |
| CommandInputs.AbsorbStep | src/ride/library/cli/input/CommandInput.php:159-163 | one pass of the dynamic loop appends a space and the next slot to the named value, then removes that slot |
| CommandInputs.AbsorbPrefix | src/ride/library/cli/input/CommandInput.php:159-163 | after t passes, the named value is the space-join of its first value and the next t slots, and those slots are gone |
| CommandInputs.AbsorbAll | src/ride/library/cli/input/CommandInput.php:158-163 | the loop runs to the count taken before it, absorbing every later slot |
| CommandInputs.RenameFirstNumbered | src/ride/library/cli/input/CommandInput.php:154 | the first step of `nameDynamicArgument` moves slot i to the name |
| CommandInputs.DynamicArgumentJoins | src/ride/library/cli/input/CommandInput.php:153-164 | for contiguous slots from i, the name ends up holding them all joined by single spaces and no slot from i on remains |
| CommandInputs.CommandInput.constructor | src/ride/library/cli/input/CommandInput.php:50-61 | keeps the full command, arguments and flags; without a command, the command is the full command; no input is wrapped |
| CommandInputs.CommandInput.GetArgument | src/ride/library/cli/input/CommandInput.php:102-108 | returns the stored value when the key is present and the default exactly when it is absent |
| CommandInputs.CommandInput.HasArgument | src/ride/library/cli/input/CommandInput.php:92-94 | true exactly when the key is present, so it agrees with `getArgument` |
| CommandInputs.CommandInput.HasArguments | src/ride/library/cli/input/CommandInput.php:83-85 | true exactly when some argument is stored |
| CommandInputs.CommandInput.NameArgument | src/ride/library/cli/input/CommandInput.php:134-142 | fails with "No argument set at index" and changes nothing when the index is absent; otherwise the slot is renamed to the coerced name |
| CommandInputs.CommandInput.NameDynamicArgument | src/ride/library/cli/input/CommandInput.php:153-164 | the same failure, or the rename followed by the absorbing loop up to the count taken after the rename |
| CommandInputs.CommandInput.HasFlag | src/ride/library/cli/input/CommandInput.php:179-181 | true exactly when the flag is stored, whatever its value |
| CommandInputs.CommandInput.HasFlags | src/ride/library/cli/input/CommandInput.php:170-172 | true exactly when some flag is stored |
| CommandInputs.CommandInput.GetFlag | src/ride/library/cli/input/CommandInput.php:189-195 | the default exactly when the flag is absent, otherwise the stored value |
| CommandInputs.CommandInput.SetInput | src/ride/library/cli/input/CommandInput.php:210-212 | the port is wrapped |
| CommandInputs.CommandInput.IsInteractive | src/ride/library/cli/input/CommandInput.php:218-224 | fails without a wrapped input, otherwise the wrapped input's answer |
| CommandInputs.CommandInput.Read | src/ride/library/cli/input/CommandInput.php:234-240 | fails without a wrapped input, otherwise does exactly what the wrapped input's `read` does |
| CommandInputs.FalseFlagIsSet | test/src/ride/library/cli/input/CommandInputTest.php:29-34 | a flag stored as false is set, and `getFlag` returns false rather than the default |
| CommandInputs.NameArgumentsExample | test/src/ride/library/cli/input/CommandInputTest.php:37-47 | naming slots 0 and 1 `arg1` and `arg2` gives `{arg1: value, arg2: value2}` |
| CommandInputs.NameDynamicArgumentExample | test/src/ride/library/cli/input/CommandInputTest.php:49-54 | naming slot 0 `arg1` dynamically gives `{arg1: "value value2"}` |
| CommandArguments.DescriptionOf | src/pallo/library/cli/command/CommandArgument.php:99-105 | an accepted description is null or a truthy string |
| CommandArguments.NewArgument | src/pallo/library/cli/command/CommandArgument.php:44-49 | succeeds exactly on a truthy string name, a valid description and two booleans, with the getters returning them; otherwise fails with the first failing setter's error, in setter order |
| CommandArguments.ArgumentDefaults | test/src/ride/library/cli/command/CommandArgumentTest.php:9-21 | by default an argument is neither required nor dynamic |
| CommandArguments.ToString | src/pallo/library/cli/command/CommandArgument.php:55-67 | the text starts with `[` exactly when the argument is optional |
| CommandArguments.ArgumentTextRoundTrip | src/pallo/library/cli/command/CommandArgument.php:55-67 | the name, the required flag and the description can be read back from `__toString` |
| CommandArguments.HelpArgumentText | test/src/ride/library/cli/command/HelpCommandTest.php:59 | the help command's argument prints as `[<command>] Provide a name…` |
| CommandArguments.ArgumentTextExamples | src/pallo/library/cli/command/CommandArgument.php:55-67 | `<name> description` when required and `[<name>] description` when optional |
| ArgumentParser.GetArguments | src/pallo/library/cli/input/ArgumentParser.php:62-130 | a non-string fails with its type name in the message; a string gives `Tokens`: the character loop, then trim and drop empties |
| ArgumentParser.RunConcat | src/pallo/library/cli/input/ArgumentParser.php:73-112 | scanning a + b is scanning a, then b from where a left off |
| ArgumentParser.RunRead | src/pallo/library/cli/input/ArgumentParser.php:73-74 | the loop reads every character once, and remembers the last one |
| ArgumentParser.CleanUpTrimmed | src/pallo/library/cli/input/ArgumentParser.php:119-127 | every token is non-empty and has no whitespace at either end |
| ArgumentParser.CleanUpConcat | src/pallo/library/cli/input/ArgumentParser.php:119-127 | cleaning up works piece by piece, in order |
| ArgumentParser.TrimTrim | src/pallo/library/cli/input/ArgumentParser.php:121 | trimming twice is trimming once |
| ArgumentParser.RunPlain | src/pallo/library/cli/input/ArgumentParser.php:96-112 | without quote characters the loop cuts at every space, exactly as `explode(' ', …)` does |
| ArgumentParser.NoQuoteTokens | src/pallo/library/cli/input/ArgumentParser.php:96-127 | for input without quotes, the tokens are the space-split pieces, trimmed, with empties dropped, in order |
| ArgumentParser.RunInQuote | src/pallo/library/cli/input/ArgumentParser.php:76-93 | inside a quote every other character is kept, spaces and the other quote kind included |
| ArgumentParser.QuotedSegment | src/pallo/library/cli/input/ArgumentParser.php:76-101 | an unescaped matching quote ends the quoted segment and pushes the argument |
| ArgumentParser.EscapedQuote | src/pallo/library/cli/input/ArgumentParser.php:78-80 | a backslash then the matching quote leaves the quote in place of the backslash, and the quote stays open |
| ArgumentParser.WordThenQuote | src/pallo/library/cli/input/ArgumentParser.php:96-101 | a quote after a word opens a quoted segment that continues the same argument |
| ArgumentParser.TwoEscapedQuotes | test/src/ride/library/cli/input/ArgumentParserTest.php:55-69 | a word, then a quoted segment holding two escaped quotes, scans to one argument |
| ArgumentParser.EscapedQuoteExample | test/src/ride/library/cli/input/ArgumentParserTest.php:55-69 | `--var="test \"value\""` gives the single token `--var=test "value"` |
| ArgumentParser.ArgvRoundTrip | src/ride/library/cli/input/ArgumentInput.php:37-45 | the line ArgumentInput builds from argv tokenizes back into argv, when no element has surrounding whitespace or a character `addslashes` escapes |
| ArgumentParser.RunArgument | src/ride/library/cli/input/ArgumentInput.php:37-43 | one element as ArgumentInput writes it scans into that element, quoted or not |
| ArgumentParser.ArgvStep | src/ride/library/cli/input/ArgumentInput.php:45 | a space and one more element add exactly that element to the tokens |
| ArgumentParser.StrSplit | src/pallo/library/cli/input/ArgumentParser.php:190 | `str_split` gives one string per character, and `[""]` for the empty string |
| ArgumentParser.ParseArguments | src/pallo/library/cli/input/ArgumentParser.php:168-204 | the loop builds `Parse(arguments)`, the array of the flag and value branches |
| ArgumentParser.ParseArgument | src/pallo/library/cli/input/ArgumentParser.php:172-200 | one pass of the loop is `ParseToken` |
| ArgumentParser.Assign | src/pallo/library/cli/input/ArgumentParser.php:178 | `$a[$k] = $v` overwrites or appends, and moves the next free integer index past an integer key |
| ArgumentParser.ParseValid | src/pallo/library/cli/input/ArgumentParser.php:168-204 | the parsed array keeps unique keys, and its next free index is above every integer key |
| ArgumentParser.PushAppends | src/pallo/library/cli/input/ArgumentParser.php:199 | `$a[] = $v` appends at the next free index |
| ArgumentParser.ParsePositional | src/pallo/library/cli/input/ArgumentParser.php:197-200 | with flag names that are not integers, the values are numbered 0, 1, … in their original order |
| ArgumentParser.ClassifyLongValue | src/pallo/library/cli/input/ArgumentParser.php:180-182 | `--k=v` is the long flag k with value v, cut at the first `=` |
| ArgumentParser.ClassifyLongSwitch | src/pallo/library/cli/input/ArgumentParser.php:175-176 | `--k` without `=` is the long switch k |
| ArgumentParser.ClassifyShortValue | src/pallo/library/cli/input/ArgumentParser.php:186-188 | `-x=v` sets x to v |
| ArgumentParser.ClassifyShorts | src/pallo/library/cli/input/ArgumentParser.php:189-190 | any other `-abc` is one switch per character |
| ArgumentParser.TwoByteShortValue | src/pallo/library/cli/input/ArgumentParser.php:186-190 | a flag letter of two bytes before `=v` (`-é=v` in UTF-8) is not a short value: byte 2 is not `=`, so every byte after the dash becomes a switch |
| ArgumentParser.LongValueWins | src/pallo/library/cli/input/ArgumentParser.php:181-182 | `--k=v` always sets k to v (last wins) and changes no other key |
| ArgumentParser.LongSwitchKeeps | src/pallo/library/cli/input/ArgumentParser.php:176-179 | bare `--k` sets k to true only when k is unset, and changes no other key |
| ArgumentParser.ShortValueWins | src/pallo/library/cli/input/ArgumentParser.php:186-188 | `-x=v` sets x to v and changes no other key |
| ArgumentParser.ShortsSetEach | src/pallo/library/cli/input/ArgumentParser.php:190-195 | `-abc` sets each of its characters to true unless already set, and changes no other key |
| ArgumentParser.SetAllLookup | src/pallo/library/cli/input/ArgumentParser.php:191-195 | the inner loop over characters keeps set keys and adds the others as true |
| ArgumentParser.ParseSnoc | src/pallo/library/cli/input/ArgumentParser.php:171 | the loop handles the tokens in order, one at a time |
| ArgumentParser.ParseExample | test/src/ride/library/cli/input/ArgumentParserTest.php:78-121 | `admin/system -a -bc -d=value --e --fg --h=test --ij=test` parses to the value and the flags a, b, c, d, e, fg, h and ij, in that order |
| ArgumentParser.DealSplit | src/pallo/library/cli/input/ArgumentParser.php:39-51 | of the numeric entries, the first `offset` join the command with spaces and the rest become arguments, in order (a negative offset is truthy and takes them all) |
| ArgumentParser.DealFlags | src/pallo/library/cli/input/ArgumentParser.php:48-49 | a non-numeric key is a flag with its parsed value, and a numeric key is never a flag |
| ArgumentParser.DealUnique | src/pallo/library/cli/input/ArgumentParser.php:49 | the flag map keeps unique names |
| ArgumentParser.NoSpaceCommand | src/pallo/library/cli/input/ArgumentParser.php:23-26 | a line without a space is the command itself, with no arguments and no flags, whatever the offset |
| ArgumentParser.ParseNumericValues | src/pallo/library/cli/input/ArgumentParser.php:39-47 | when no flag name is numeric, the numeric entries are exactly the positional tokens, in order |
| ArgumentParser.CommandOffset | src/pallo/library/cli/input/ArgumentParser.php:23-53 | the command is the first word plus the first `offset` values, the arguments are the remaining values numbered from 0, and the flags are the parsed non-numeric names |
| ArgumentParser.GetCommandInput | src/pallo/library/cli/input/ArgumentParser.php:19-54 | builds a fresh CommandInput holding exactly `CommandParts(line, offset)`, with the line as its command when there is no space |
| ArgumentParser.CommandLineExample | test/src/ride/library/cli/input/ArgumentParserTest.php:18-31 | `command subcommand argument1 --flag1=value` with offset 1 gives the command `command subcommand`, the arguments `[argument1]` and the flags `{flag1: value}`; `command` alone is a bare command |
| Commands.Appended | src/ride/library/cli/command/AbstractCommand.php:150-166 | a bad argument fails first; then it fails after a dynamic argument, or for a required argument after an optional one; otherwise exactly one argument is appended at the end |
| Commands.AppendedKeepsOrder | src/ride/library/cli/command/AbstractCommand.php:153-165 | `addArgument` succeeds exactly when the result still has required arguments first and only a last argument dynamic |
| Commands.SyntaxBalanced | src/ride/library/cli/command/AbstractCommand.php:113-137 | the syntax opens and closes one bracket per flag and per optional argument |
| Commands.FlagsSyntaxBrackets | src/ride/library/cli/command/AbstractCommand.php:118-120 | each flag adds ` [--f]`: one opening and one closing bracket |
| Commands.ArgumentsSyntaxBrackets | src/ride/library/cli/command/AbstractCommand.php:122-132 | each optional argument opens one bracket, and required ones open none |
| Commands.RepeatCount | src/ride/library/cli/command/AbstractCommand.php:134 | `str_repeat(']', n)` closes n brackets |
| Commands.TestSyntaxShape | test/src/ride/library/cli/command/AbstractCommandTest.php:25-30 | one flag with required, optional and dynamic arguments renders as `name [--flag] <required> [<optional> [<dynamic>]]` |
| Commands.OneOptionalSyntax | test/src/ride/library/cli/command/HelpCommandTest.php:29-35 | one optional argument renders as `name [<arg>]`, as in `help [<command>]` |
| Commands.Bullets | src/ride/library/cli/command/HelpCommand.php:81-83 | one `- <syntax>` line per command, in order |
| Commands.FlagLines | src/ride/library/cli/command/HelpCommand.php:65-67 | one `- [--f] description` line per flag, in order |
| Commands.ArgumentLines | src/ride/library/cli/command/HelpCommand.php:68-70 | one `- <argument text>` line per argument, in order |
| Commands.WrittenGroups | src/ride/library/cli/command/HelpCommand.php:59-71 | writing the detail group by group is writing its lines in one go |
| Commands.OverviewOfTwo | test/src/ride/library/cli/command/HelpCommandTest.php:12-38 | the overview of two commands is the title, two bullets, "", the usage line and "" |
| Commands.DetailOfOne | test/src/ride/library/cli/command/HelpCommandTest.php:40-63 | the detail is the description, "", `Syntax: …`, one line per argument, and "" |
| Commands.Command.Sig | src/ride/library/cli/command/AbstractCommand.php:83-194 | the getters return the name, description, arguments and flags |
| Commands.Command.constructor | src/ride/library/cli/command/AbstractCommand.php:57-63 | starts with no arguments, no flags, no input or output, never executed |
| Commands.NewCommand | src/ride/library/cli/command/AbstractCommand.php:57-99 | fails on a name that is not a truthy string, then on a description that is neither null nor a truthy string; otherwise gives a fresh command with an empty signature |
| Commands.Command.AddArgument | src/ride/library/cli/command/AbstractCommand.php:150-166 | the arguments become `Appended(…)` on success and stay unchanged on failure; the ordering invariant is kept |
| Commands.Command.AddFlag | src/ride/library/cli/command/AbstractCommand.php:183-185 | the flags become `$flags[$name] = $description` |
| Commands.AddFlagOverwrites | src/ride/library/cli/command/AbstractCommand.php:183-185 | an existing flag name gets the new description and no second entry; a new one adds one entry; other flags are unchanged |
| Commands.Command.GetSyntax | src/ride/library/cli/command/AbstractCommand.php:113-137 | the loop builds `Syntax(name, flags, arguments)` |
| Commands.Command.SetCommandInput | src/ride/library/cli/command/AbstractCommand.php:201-203 | the input is set |
| Commands.Command.SetOutput | src/ride/library/cli/command/AbstractCommand.php:210-212 | the output is set |
| Commands.Command.Execute | src/ride/library/cli/command/HelpCommand.php:38-45 | counts one invocation; a plain command writes nothing; the help command writes `HelpLines` for its `command` argument or fails with the container's error |
| Commands.Command.Help | src/ride/library/cli/command/HelpCommand.php:38-45 | a truthy requested name gives its detail (or the lookup error) and anything else gives the overview |
| Commands.Command.ShowCommand | src/ride/library/cli/command/HelpCommand.php:52-72 | an unregistered name fails with the container's error and writes nothing; otherwise the detail lines are written |
| Commands.Command.ShowOverview | src/ride/library/cli/command/HelpCommand.php:78-88 | writes the title, one bullet per registered command in container order, "", the usage line and "" |
| Commands.WriteBullets | src/ride/library/cli/command/HelpCommand.php:81-83 | the loop over the container writes one bullet per command in key order and leaves the registry unchanged |
| Commands.WriteDetail | src/ride/library/cli/command/HelpCommand.php:55-71 | writes exactly the detail lines of the command |
| Commands.WriteFlagLines | src/ride/library/cli/command/HelpCommand.php:65-67 | the loop writes `FlagLines` |
| Commands.WriteArgumentLines | src/ride/library/cli/command/HelpCommand.php:68-70 | the loop writes `ArgumentLines` |
| Commands.SyntaxesAt | src/ride/library/cli/command/HelpCommand.php:82 | the i-th overview entry is the syntax of the i-th registered command |
| Commands.NewHelpCommand | src/ride/library/cli/command/HelpCommand.php:26-32 | the name `help`, the description `Prints this help.`, one optional dynamic argument `command`, and no flags |
| Commands.NewExitCommand | src/ride/library/cli/command/ExitCommand.php:14-22 | the name `exit`, its description, no arguments and no flags |
| Commands.KSortFacts | src/ride/library/cli/command/CommandContainer.php:30 | `ksort` gives strictly sorted keys with the same entries and the same lookups |
| Commands.InsertSortedOrder | src/ride/library/cli/command/CommandContainer.php:30 | inserting into a sorted array keeps it sorted |
| Commands.SortedUnique | src/ride/library/cli/command/CommandContainer.php:30 | sorted keys are unique |
| Commands.UnsetEntries | src/ride/library/cli/command/CommandContainer.php:43 | `unset` keeps every other entry and keeps the keys sorted |
| Commands.CommandContainer.constructor | src/ride/library/cli/command/CommandContainer.php:20 | the registry starts empty |
| Commands.CommandContainer.AddCommand | src/ride/library/cli/command/CommandContainer.php:27-31 | the commands become `ksort` of the assignment, and the cursor is reset |
| Commands.AddCommandEffect | src/ride/library/cli/command/CommandContainer.php:27-31 | after adding c, its name maps to c, a command of the same name is replaced, other names are unchanged, and keys stay sorted |
| Commands.CommandContainer.HasCommand | src/ride/library/cli/command/CommandContainer.php:55-61 | fails exactly on a falsy name, otherwise tells whether the name is registered |
| Commands.CommandContainer.GetCommand | src/ride/library/cli/command/CommandContainer.php:70-76 | fails on a falsy name or an unregistered one, otherwise returns the command registered under that name |
| Commands.CommandContainer.RemoveCommand | src/ride/library/cli/command/CommandContainer.php:38-46 | an absent name returns false and changes nothing; a present one returns true and removes only that entry |
| Commands.RemoveCommandEffect | src/ride/library/cli/command/CommandContainer.php:38-46 | removal leaves the name absent, every other name unchanged, the keys sorted and one entry fewer |
| Commands.CommandContainer.Count | src/ride/library/cli/command/CommandContainer.php:186-188 | the number of distinct registered names |
| Commands.KeySetSize | src/ride/library/cli/command/CommandContainer.php:186-188 | unique keys count as many names as entries |
| Commands.CommandContainer.Rewind | src/ride/library/cli/command/CommandContainer.php:146-148 | the cursor goes to the first command |
| Commands.CommandContainer.Current | src/ride/library/cli/command/CommandContainer.php:154-156 | the command under the cursor, or false past the end |
| Commands.CommandContainer.Key | src/ride/library/cli/command/CommandContainer.php:162-164 | the name under the cursor, or null past the end |
| Commands.CommandContainer.Next | src/ride/library/cli/command/CommandContainer.php:170-172 | advances the cursor (stopping at the end) and returns the new current command |
| Commands.CommandContainer.IsValid | src/ride/library/cli/command/CommandContainer.php:178-180 | true exactly while the cursor is on a command |
| Commands.CandidatesFilter | src/ride/library/cli/command/CommandContainer.php:96-104 | a command is a candidate exactly when its name is a prefix of the input or the input is a prefix of its name |
| Commands.MutualPrefixMeans | src/ride/library/cli/command/CommandContainer.php:99 | the two `strncmp` tests are those two prefix relations |
| Commands.FilterCandidates | src/ride/library/cli/command/CommandContainer.php:96-104 | the loop keeps exactly `Candidates`, in order |
| Commands.JoinWordsImplode | src/ride/library/cli/command/CommandContainer.php:117-120 | the joining loop gives the first n words of the name separated by spaces |
| Commands.JoinFirst | src/ride/library/cli/command/CommandContainer.php:117-120 | the loop computes `JoinWords` |
| Commands.Prefixed | src/ride/library/cli/command/CommandContainer.php:132-134 | each delegated answer is prefixed with the command name and a space |
| Commands.CompleteCommand | src/ride/library/cli/command/CommandContainer.php:111-136 | one command's contribution: the first n words, the full name, or the delegated answers |
| Commands.SubcommandInput | src/ride/library/cli/command/CommandContainer.php:125-129 | when the input has more words than the name, the name is a prefix of the input, so the text after `name + " "` is well defined |
| Commands.CommandContainer.AutoComplete | src/ride/library/cli/command/CommandContainer.php:93-140 | the result is `Completion` of the candidates |
| Commands.PutWordsFacts | src/ride/library/cli/command/CommandContainer.php:122-133 | adding words stores each word under itself and keeps the earlier entries |
| Commands.CompletionExact | src/ride/library/cli/command/CommandContainer.php:93-140 | a completion is offered exactly when some candidate contributes it; every key equals its value; keys are unique |
| Commands.SingleWordCompletes | src/ride/library/cli/command/CommandContainer.php:123-124 | a one-word input against a one-word name offers the full name |
| Commands.EmptyInputExample | test/src/ride/library/cli/command/CommandContainerTest.php:73-78 | the empty input offers every registered one-word name, in order |
| Commands.PrefixInputExample | test/src/ride/library/cli/command/CommandContainerTest.php:73-78 | an input that prefixes only one name offers just that name |
| Commands.SubcommandExample | src/ride/library/cli/command/CommandContainer.php:125-136 | a command that completes itself answers for the text after its name, and the answer comes back prefixed with the name |
| Interpreter.Resolve | src/ride/library/cli/CommandInterpreter.php:65-75 | the resolved command is registered and its name is a prefix of the line |
| Interpreter.ResolveLongest | src/ride/library/cli/CommandInterpreter.php:65-79 | nothing is found exactly when no name prefixes the line; otherwise no prefixing name is longer than the one found |
| Interpreter.ResolveUnique | src/ride/library/cli/CommandInterpreter.php:72 | with unique names, every other prefixing name is strictly shorter |
| Interpreter.FindCommand | src/ride/library/cli/CommandInterpreter.php:65-75 | the loop over the container finds `Resolve(…)` and leaves the registry unchanged |
| Interpreter.FirstMissing | src/ride/library/cli/CommandInterpreter.php:87-93 | the first required argument whose slot is absent or empty, and none before it |
| Interpreter.NameFromError | src/ride/library/cli/CommandInterpreter.php:87-93 | the only failure of the naming loop is ArgumentNotSet for a required argument |
| Interpreter.RepeatedNameOverwrites | src/ride/library/cli/CommandInterpreter.php:95-101 | two required arguments with the same name: the second rename overwrites the first, so only the second value is left, under that name |
| Interpreter.NameArguments | src/ride/library/cli/CommandInterpreter.php:85-104 | the loop fails with `NameFrom`'s error, or leaves the slots renamed as `NameFrom` says |
| Interpreter.NameFromSlots | src/ride/library/cli/CommandInterpreter.php:85-104 | for distinct, non-integer argument names: from slot i on, the loop fails at the first missing required argument, or else ends with the slots bound to the declared names |
| Interpreter.ArgumentsBound | src/ride/library/cli/CommandInterpreter.php:85-104 | for distinct, non-integer argument names: on numbered values, the loop fails with ArgumentNotSet for the first missing required argument, or binds the values to the declared names |
| Interpreter.BoundLookup | src/ride/library/cli/CommandInterpreter.php:95-101 | for distinct, non-integer argument names: each declared name holds its own value, except that a dynamic last argument holds all the remaining values joined by spaces |
| Interpreter.BoundCount | src/ride/library/cli/CommandInterpreter.php:106-108 | more entries remain than declared arguments exactly when there are more values and the last argument is not dynamic |
| Interpreter.NamedSlots | src/ride/library/cli/CommandInterpreter.php:95-101 | the first arguments' values end up under their names, in order |
| Interpreter.UnknownFlag | src/ride/library/cli/CommandInterpreter.php:110-117 | the first input flag that the command does not declare, or none when all are declared |
| Interpreter.FindUnknownFlag | src/ride/library/cli/CommandInterpreter.php:113-117 | the loop finds `UnknownFlag` |
| Interpreter.Checked | src/ride/library/cli/CommandInterpreter.php:85-117 | on success no more slots than arguments remain and every flag is declared; the only failures are ArgumentNotSet, InvalidArgumentCount and InvalidFlag |
| Interpreter.CheckLine | src/ride/library/cli/CommandInterpreter.php:82-117 | parses with offset = the number of spaces in the name; then either fails with the first error of `Checked`, or gives a fresh input with the renamed slots and the parsed flags |
| Interpreter.Dispatch | src/ride/library/cli/CommandInterpreter.php:119-125 | wraps the input port, hands input and output to the command, and executes it once |
| Interpreter.RunCommand | src/ride/library/cli/CommandInterpreter.php:82-125 | a failed check changes nothing and executes nothing; otherwise the command runs once with the checked input bound |
| Interpreter.CommandInterpreter.constructor | src/ride/library/cli/CommandInterpreter.php:37-44 | keeps the container |
| Interpreter.CommandInterpreter.Interpret | src/ride/library/cli/CommandInterpreter.php:63-126 | no prefixing name fails with CommandNotFound carrying the line; otherwise the resolved command runs as `RunCommand` describes; the registry is unchanged |
| Interpreter.TestArgumentsShape | test/src/ride/library/cli/command/TestCommand.php:12 | the test command's arguments are well ordered |
| Interpreter.MissingRequiredExample | test/src/ride/library/cli/CommandInterpreterTest.php:59-61 | `name` without its required value fails with ArgumentNotSet("required"), the "No required provided" of the shell |
| Interpreter.RequiredGivenExample | test/src/ride/library/cli/CommandInterpreterTest.php:33-39 | `name required` passes the checks with the value bound to `required` |
| Interpreter.OneValueChecked | src/ride/library/cli/CommandInterpreter.php:85-117 | for distinct, non-integer argument names: one non-empty value for a command whose only required argument is the first binds that value to that argument's name |
| Interpreter.UnknownFlagExample | test/src/ride/library/cli/CommandInterpreterTest.php:66-68 | an undeclared flag after valid arguments fails with InvalidFlag |
| Interpreter.ExtraValueExample | test/src/ride/library/cli/CommandInterpreterTest.php:73-75 | `exit arg1` fails with InvalidArgumentCount |

## Left out

- The REPL drivers `src/ride/library/cli/Cli.php` and `src/pallo/library/cli/Cli.php` are not modelled. They read input in a loop, `eval` PHP code, keep exit codes and print stack traces.
- `src/pallo/library/cli/CommandInterpreter.php` repeats the ride interpreter under another namespace. The one model stands for both.
- Terminal and stream I/O is not modelled: ReadlineInput, PhpInput, StreamOutput and PhpOutput. The output port is ArrayOutput, and the input ports are ArrayInput and ArgumentInput.
- ArgumentInput reads `$_SERVER['argv']`; here argv is a constructor parameter. PHP's argv also starts with the script path; that element is simply part of the parameter.
- ExitCommand and PhpCommand: their `execute` bodies are empty or evaluate PHP. A command's `Kind` is `Help(container)` or `Plain`, and `Plain` runs no body.
- The interfaces (Command, Input, Output, AutoCompletable, AutoCompletableInput) are not separate types. A command's `autoComplete` becomes the `Completer` parameter of `Commands.CommandContainer.AutoComplete`: a function from a command name and input to the answers, or to none when the command cannot complete.
- `isInvoked` of the test command is the `invocations` counter of `Command`.
- Aliases (`addAlias`, `getAliases`, `replaceAliases`) are used by the tests, but no source file defines them, so they are not modelled. The tests `n required` and the alias autocomplete are not claimed.
- The autocomplete test expecting `help exit` for `help e` needs HelpCommand to complete itself, which it does not. Only the general delegation rule is proved (`Commands.SubcommandExample`).
- Commands.EmptyInputExample and Commands.PrefixInputExample are stated for any three one-word commands rather than the literal `exit`, `help` and `name`.
- Interpreter.MissingRequiredExample, Interpreter.RequiredGivenExample, Interpreter.UnknownFlagExample and Interpreter.ExtraValueExample are stated on the parsed parts of the line, not the literal line. The parsing of lines is proved separately (`ArgumentParser.CommandOffset`, `ArgumentParser.CommandLineExample`).
- Interpreter.CommandInterpreter.constructor: the injected ArgumentParser and `getCommandContainer` are not modelled. The one parser has no state, so the default is always used.
- The getters that return a field unchanged are the fields themselves: `getFullCommand`, `getCommand`, `getArguments`, `getFlags`, `getName`, `getDescription` and `CommandContainer::getCommands`.
- Exceptions are the `Errors.CliError` datatype. `src/ride/library/cli/CommandInterpreter.php:115` throws `InvalidFlagException` without importing it; the model raises the intended InvalidFlag error.
- `ksort` uses code-point order on names. PHP 7's `ksort` compares numeric-looking keys numerically, which is not modelled; command names are words.
- ArgumentParser.ParseArguments: a positional `true` (from a flag such as `--5`, whose name PHP coerces to an integer) is stored as the string "1", the text it takes when the command line is assembled.
- ArgumentParser.Assign: the next free index is an unbounded integer. PHP's refusal to append past the largest 64-bit key is not modelled.
- ArgumentParser.ParseNumericValues and ArgumentParser.CommandOffset assume that no flag name is numeric. `getCommandInput` itself models `is_numeric` in full (`IsNumericKey`).
- ArgumentParser.ArgvRoundTrip holds only for elements without quotes, backslashes, NUL or surrounding whitespace. `addslashes` also escapes a single quote, which the tokenizer keeps with its backslash inside double quotes.
- ArgumentParser.StrSplit: splits into one piece per char, and a char is one byte. A multibyte UTF-8 character must therefore be given as its bytes, several chars, which `str_split` then splits apart as PHP does. Text written as Unicode code points, one char per character, is not re-encoded into bytes.
- ArgumentParser.ClassifyShortValue: tests the char at position 2, which is byte 2 in PHP. For `-é=v`, given as bytes, that char is not `=`, so the token gets one switch per byte as in PHP (`ArgumentParser.TwoByteShortValue`). The contract's `ShortValue(x, v)` holds only when x is a single byte.
- ArgumentParser.ClassifyShorts: one switch per char, which is one per byte. A multibyte flag letter gives one switch per byte, as PHP does, only when it is given as bytes.
- ArgumentParser.ShortsSetEach: sets each char, which is each byte, of the cluster to true. A multibyte flag letter gives one key per byte, as in PHP, under the same byte reading.
- Interpreter.NameFromSlots, Interpreter.ArgumentsBound, Interpreter.BoundLookup and Interpreter.OneValueChecked assume distinct, non-integer argument names (`PlainNames`). `addArgument` accepts repeated or integer-like names. With two arguments both named `x`, the second rename overwrites `$arguments['x']` and the first value is lost (`Interpreter.RepeatedNameOverwrites`). An argument named `1` overwrites slot 1 before that slot is read. The loop itself (`Interpreter.NameFrom`, `Interpreter.Checked`, `Interpreter.CommandInterpreter.Interpret`) is modelled on all names, these cases included.
- Interpreter.Declared matches `isset($flags[$flag])`, so a flag declared with a null description counts as undeclared, as in PHP.
- Commands.JoinWords: a falsy first word of a command name (such as "0") makes PHP skip the separator. Commands.JoinWordsImplode is stated for truthy first words.
- PHP's `each()` and string-offset writes follow PHP 7 semantics, which is what the source needs.
