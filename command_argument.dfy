/**
 * The declaration of one positional argument of a command (CommandArgument):
 * a name, an optional description, whether a value must be given and
 * whether it is dynamic (a dynamic argument takes every remaining value).
 * The object is immutable once its validating constructor has run, so it
 * is a value here.
 */
module CommandArguments {
  import opened Php
  import opened Errors

  datatype Argument = Argument(name: string, description: Option<string>, isRequired: bool, isDynamic: bool)

  /** What the setters let through: a truthy name and a null or truthy description. */
  predicate WellFormed(a: Argument)
  {
    Truthy(a.name) && (a.description.Some? ==> Truthy(a.description.value))
  }

  /** The guard of `setName`: a string that is not falsy. */
  predicate ValidName(v: Value)
  {
    v.Str? && Truthy(v.s)
  }

  /** The guard of `setDescription`: null, or a string that is not falsy. */
  predicate ValidDescription(v: Value)
  {
    v.Null? || (v.Str? && Truthy(v.s))
  }

  /** The stored description: null stays absent. */
  function DescriptionOf(v: Value): (d: Option<string>)
    requires ValidDescription(v)
    ensures d.None? <==> v.Null?
    ensures d.Some? ==> Truthy(d.value)
  {
    if v.Null? then None else Some(v.s)
  }

  /**
   * The constructor: setName, setDescription, setIsRequired and
   * setIsDynamic run in this order and the first one that rejects its value
   * throws; otherwise the getters return the given values.
   */
  function NewArgument(name: Value, description: Value, isRequired: Value, isDynamic: Value): (r: Result<Argument, CliError>)
    ensures r.Ok? <==> ValidName(name) && ValidDescription(description) && isRequired.Bool? && isDynamic.Bool?
    ensures r.Ok? ==> WellFormed(r.value)
    ensures r.Ok? ==> && r.value.name == name.s && r.value.description == DescriptionOf(description)
                      && r.value.isRequired == isRequired.b && r.value.isDynamic == isDynamic.b
    ensures !ValidName(name) ==> r == Err(InvalidArgumentName)
    ensures ValidName(name) && !ValidDescription(description) ==> r == Err(InvalidArgumentDescription)
    ensures ValidName(name) && ValidDescription(description) && !isRequired.Bool? ==> r == Err(InvalidRequiredFlag)
    ensures ValidName(name) && ValidDescription(description) && isRequired.Bool? && !isDynamic.Bool? ==> r == Err(InvalidDynamicFlag)
  {
    if !ValidName(name) then Err(InvalidArgumentName)
    else if !ValidDescription(description) then Err(InvalidArgumentDescription)
    else if !isRequired.Bool? then Err(InvalidRequiredFlag)
    else if !isDynamic.Bool? then Err(InvalidDynamicFlag)
    else Ok(Argument(name.s, DescriptionOf(description), isRequired.b, isDynamic.b))
  }

  /** With PHP's default parameters an argument is neither required nor dynamic. */
  lemma ArgumentDefaults(name: string)
    requires Truthy(name)
    ensures NewArgument(Str(name), Null, Bool(false), Bool(false)) == Ok(Argument(name, None, false, false))
  {
  }

  /** `__toString`: `<name>` or `[<name>]`, then a space and the description when there is one. */
  function ToString(a: Argument): (r: string)
    ensures r != [] && (r[0] == '[' <==> !a.isRequired)
  {
    (if !a.isRequired then "[<" + a.name + ">]" else "<" + a.name + ">")
    + (if a.description.Some? && Truthy(a.description.value) then " " + a.description.value else "")
  }

  /**
   * Reads the text `__toString` writes back into a name, whether it is
   * required and the description; None when the text has another shape.
   */
  function ReadArgumentText(s: string): (r: Option<(string, bool, Option<string>)>)
  {
    if |s| >= 2 && s[..2] == "[<" then ReadNamed(s[2..], "]", false)
    else if s != [] && s[0] == '<' then ReadNamed(s[1..], "", true)
    else None
  }

  /** The part after the opening: the name up to `>`, the closing text, then nothing or a space and the description. */
  function ReadNamed(s: string, closing: string, required: bool): (r: Option<(string, bool, Option<string>)>)
  {
    match Strpos(s, '>')
    case None => None
    case Some(j) =>
      StrposFacts(s, '>');
      var rest := s[j + 1..];
      if !(closing <= rest) then None
      else
        var t := rest[|closing|..];
        if t == [] then Some((s[..j], required, None))
        else if t[0] == ' ' then Some((s[..j], required, Some(t[1..])))
        else None
  }

  /** The text after the opening bracket reads back as the name, the closing text and the description. */
  lemma ReadNamedOf(name: string, closing: string, description: Option<string>, required: bool)
    requires '>' !in name
    ensures var tail := if description.Some? then " " + description.value else "";
      ReadNamed(name + (">" + closing + tail), closing, required) == Some((name, required, description))
  {
    var tail := if description.Some? then " " + description.value else "";
    var s := name + (">" + closing + tail);
    assert s[..|name|] == name;
    StrposAt(s, '>', |name|);
    assert s[|name| + 1..] == closing + tail;
    assert (closing + tail)[|closing|..] == tail;
  }

  /** The text of a well-formed argument whose name holds no `>` gives back all three parts. */
  lemma ArgumentTextRoundTrip(a: Argument)
    requires WellFormed(a) && '>' !in a.name
    ensures ReadArgumentText(ToString(a)) == Some((a.name, a.isRequired, a.description))
  {
    var open := if a.isRequired then "<" else "[<";
    var close := if a.isRequired then "" else "]";
    var tail := if a.description.Some? then " " + a.description.value else "";
    var s := open + (a.name + (">" + close + tail));
    assert ToString(a) == s;
    ReadNamedOf(a.name, close, a.description, a.isRequired);
    assert s[|open|..] == a.name + (">" + close + tail);
    assert s[0] == open[0];
    if !a.isRequired {
      assert s[..2] == "[<";
    } else {
      assert |s| >= 2 ==> s[..2][0] == '<';
    }
  }

  const CommandArgumentDescription := "Provide a name of a command to get the detailed help of the command"

  /** The argument of the help command as its detail lists it. */
  lemma HelpArgumentText()
    ensures ToString(Argument("command", Some(CommandArgumentDescription), false, true))
      == "[<command>]" + " " + CommandArgumentDescription
  {
  }

  /** The two shapes of the tests: required and optional, both with a description. */
  lemma ArgumentTextExamples()
    ensures ToString(Argument("name", Some("description"), true, false)) == "<name> description"
    ensures ToString(Argument("name", Some("description"), false, false)) == "[<name>] description"
  {
  }
}
