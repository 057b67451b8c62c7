/**
 * The parsed form of one command line (CommandInput): the command, the
 * positional arguments under their array keys, the flags, and the input
 * port the running command may read from. The interpreter renames the
 * numbered slots in place to the declared argument names.
 */
module CommandInputs {
  import opened Php
  import opened Errors
  import Input
  import Output

  /** A flag's value: a boolean (`true` for `--k` or `-k`) or the text after `=`. */
  datatype FlagValue = Switch(on: bool) | Text(text: string)

  /** The positional arguments: an ordered PHP array from keys to values. */
  type Slots = seq<(Key, string)>

  /** Values stored under the consecutive integer keys from, from + 1, …, as `$a[] = $v` lays them out. */
  function Numbered(from: int, values: seq<string>): (d: Slots)
    ensures |d| == |values|
    ensures forall j :: 0 <= j < |values| ==> d[j] == (Index(from + j), values[j])
  {
    seq(|values|, j requires 0 <= j < |values| => (Index(from + j), values[j]))
  }

  /** Consecutive integer keys never repeat. */
  lemma NumberedUnique(from: int, values: seq<string>)
    ensures UniqueKeys(Numbered(from, values))
  {
  }

  /** `$d[$to] = $d[$from]; unset($d[$from]);` */
  function Renamed(d: Slots, from: Key, to: Key): Slots
    requires Lookup(d, from).Some?
  {
    Unset(Put(d, to, Lookup(d, from).value), from)
  }

  /** Renaming moves the value: `from` is gone, `to` holds its value, every other key is untouched. */
  lemma RenamedLookup(d: Slots, from: Key, to: Key)
    requires Lookup(d, from).Some?
    ensures Lookup(Renamed(d, from, to), from) == None
    ensures to != from ==> Lookup(Renamed(d, from, to), to) == Lookup(d, from)
    ensures forall k :: k != from && k != to ==> Lookup(Renamed(d, from, to), k) == Lookup(d, k)
  {
    var p := Put(d, to, Lookup(d, from).value);
    PutLookup(d, to, Lookup(d, from).value);
    UnsetLookup(p, from);
  }

  /** Renaming to a fresh key keeps the number of entries; renaming a key to itself drops it. */
  lemma RenamedCount(d: Slots, from: Key, to: Key)
    requires UniqueKeys(d) && Lookup(d, from).Some?
    ensures UniqueKeys(Renamed(d, from, to))
    ensures to != from && Lookup(d, to) == None ==> |Renamed(d, from, to)| == |d|
    ensures to == from ==> |Renamed(d, from, to)| == |d| - 1
  {
    var v := Lookup(d, from).value;
    PutPlace(d, to, v);
    PutLookup(d, to, v);
    PutUnique(d, to, v);
    UnsetCount(Put(d, to, v), from);
  }

  /** One pass of the loop in nameDynamicArgument: slot i is appended to `key` after a space, then unset. */
  function AbsorbSlot(d: Slots, key: Key, i: int): Slots
  {
    var current := Lookup(d, key);
    var next := Lookup(d, Index(i));
    var joined := (if current.Some? then current.value else "") + " " + (if next.Some? then next.value else "");
    Unset(Put(d, key, joined), Index(i))
  }

  /** The loop of nameDynamicArgument run for the slots from, …, to - 1. */
  function Absorb(d: Slots, key: Key, from: int, to: int): Slots
    decreases to - from
  {
    if to <= from then d else AbsorbSlot(Absorb(d, key, from, to - 1), key, to - 1)
  }

  /** Every integer key of the array is below `bound`; named keys do not matter. */
  ghost predicate IndexesBelow(d: Slots, bound: int)
  {
    forall i :: 0 <= i < |d| && d[i].0.Index? ==> d[i].0.i < bound
  }

  /** An array whose integer keys are below n has nothing at n or beyond. */
  lemma IndexesBelowLookup(d: Slots, bound: int, n: int)
    requires IndexesBelow(d, bound) && bound <= n
    ensures Lookup(d, Index(n)) == None
  {
    LookupFound(d, Index(n));
  }

  /** Numbered slots hold no named key and no integer key outside their range. */
  lemma NumberedLookupOutside(from: int, values: seq<string>, k: Key)
    requires k.Name? || k.i < from || from + |values| <= k.i
    ensures Lookup(Numbered(from, values), k) == None
  {
    LookupFound(Numbered(from, values), k);
  }

  /** Unsetting the first numbered slot leaves the numbered slots after it. */
  lemma NumberedUnsetFirst(from: int, values: seq<string>)
    requires values != []
    ensures Unset(Numbered(from, values), Index(from)) == Numbered(from + 1, values[1..])
  {
    var d := Numbered(from, values);
    assert d[1..] == Numbered(from + 1, values[1..]);
    NumberedLookupOutside(from + 1, values[1..], Index(from));
    UnsetAbsent(d[1..], Index(from));
  }

  /**
   * One pass of the loop over `p + numbered + a + [(key, joined)]`: the
   * first numbered value is appended to the named value after a space and
   * its slot disappears.
   */
  lemma AbsorbStep(p: Slots, from: int, values: seq<string>, a: Slots, key: Key, joined: string)
    requires values != [] && key.Name?
    requires IndexesBelow(p, from) && IndexesBelow(a, from)
    requires Lookup(p, key) == None && Lookup(a, key) == None
    ensures AbsorbSlot(p + Numbered(from, values) + a + [(key, joined)], key, from)
         == p + Numbered(from + 1, values[1..]) + a + [(key, joined + " " + values[0])]
  {
    var n := Numbered(from, values);
    var front := p + n + a;
    var d := front + [(key, joined)];
    NumberedLookupOutside(from, values, key);
    LookupConcat(p, n, key);
    LookupConcat(p + n, a, key);
    LookupConcat(front, [(key, joined)], key);
    IndexesBelowLookup(p, from, from);
    IndexesBelowLookup(a, from, from);
    LookupConcat(p, n, Index(from));
    LookupConcat(p + n, a, Index(from));
    LookupConcat(front, [(key, joined)], Index(from));
    assert Lookup(d, key) == Some(joined);
    assert Lookup(d, Index(from)) == Some(values[0]);
    var next := joined + " " + values[0];
    PutLast(front, key, joined, next);
    UnsetConcat(front, [(key, next)], Index(from));
    UnsetConcat(p + n, a, Index(from));
    UnsetConcat(p, n, Index(from));
    UnsetAbsent(p, Index(from));
    UnsetAbsent(a, Index(from));
    NumberedUnsetFirst(from, values);
  }

  /** Joining one more value adds a space and that value. */
  lemma ImplodeNext(first: string, values: seq<string>, t: nat)
    requires 0 < t <= |values|
    ensures Implode(" ", [first] + values[..t]) == Implode(" ", [first] + values[..t - 1]) + " " + values[t - 1]
  {
    var parts := [first] + values[..t];
    assert parts[..|parts| - 1] == [first] + values[..t - 1];
  }

  /** The loop's last pass works on what the earlier passes left. */
  lemma AbsorbUnfold(d: Slots, key: Key, from: int, i: int, prev: Slots)
    requires from <= i && Absorb(d, key, from, i) == prev
    ensures Absorb(d, key, from, i + 1) == AbsorbSlot(prev, key, i)
  {
  }

  /** One more pass of the loop appends the next numbered value after a space. */
  lemma AbsorbNext(p: Slots, from: int, values: seq<string>, a: Slots, key: Key, first: string, t: nat)
    requires 0 < t <= |values| && key.Name?
    requires IndexesBelow(p, from) && IndexesBelow(a, from)
    requires Lookup(p, key) == None && Lookup(a, key) == None
    requires Absorb(p + Numbered(from, values) + a + [(key, first)], key, from, from + (t - 1))
          == p + Numbered(from + (t - 1), values[t - 1..]) + a + [(key, Implode(" ", [first] + values[..t - 1]))]
    ensures Absorb(p + Numbered(from, values) + a + [(key, first)], key, from, from + t)
         == p + Numbered(from + t, values[t..]) + a + [(key, Implode(" ", [first] + values[..t]))]
  {
    var d := p + Numbered(from, values) + a + [(key, first)];
    var i := from + (t - 1);
    var joined := Implode(" ", [first] + values[..t - 1]);
    var rest := values[t - 1..];
    var prev := p + Numbered(i, rest) + a + [(key, joined)];
    AbsorbUnfold(d, key, from, i, prev);
    AbsorbStep(p, i, rest, a, key, joined);
    assert rest[0] == values[t - 1] && rest[1..] == values[t..] && i + 1 == from + t;
    ImplodeNext(first, values, t);
    assert Numbered(i + 1, rest[1..]) == Numbered(from + t, values[t..]);
    assert joined + " " + rest[0] == Implode(" ", [first] + values[..t]);
  }

  /** After t passes the first t numbered values have been appended, in order, after spaces. */
  lemma {:induction false} AbsorbPrefix(p: Slots, from: int, values: seq<string>, a: Slots, key: Key, first: string, t: nat)
    requires t <= |values| && key.Name?
    requires IndexesBelow(p, from) && IndexesBelow(a, from)
    requires Lookup(p, key) == None && Lookup(a, key) == None
    ensures Absorb(p + Numbered(from, values) + a + [(key, first)], key, from, from + t)
         == p + Numbered(from + t, values[t..]) + a + [(key, Implode(" ", [first] + values[..t]))]
  {
    if t > 0 {
      AbsorbPrefix(p, from, values, a, key, first, t - 1);
      AbsorbNext(p, from, values, a, key, first, t);
    } else {
      assert values[0..] == values;
    }
  }

  /** Naming slot `from` of `p + numbered + a` moves its value to a new last entry under `key`. */
  lemma RenameFirstNumbered(p: Slots, from: int, values: seq<string>, a: Slots, key: Key)
    requires values != [] && key.Name?
    requires IndexesBelow(p, from) && IndexesBelow(a, from)
    requires Lookup(p, key) == None && Lookup(a, key) == None
    ensures var d := p + Numbered(from, values) + a;
      && Lookup(d, Index(from)) == Some(values[0])
      && Renamed(d, Index(from), key) == p + Numbered(from + 1, values[1..]) + a + [(key, values[0])]
  {
    var n := Numbered(from, values);
    var d := p + n + a;
    IndexesBelowLookup(p, from, from);
    IndexesBelowLookup(a, from, from);
    LookupConcat(p, n, Index(from));
    LookupConcat(p + n, a, Index(from));
    NumberedLookupOutside(from, values, key);
    LookupConcat(p, n, key);
    LookupConcat(p + n, a, key);
    PutAbsent(d, key, values[0]);
    UnsetConcat(d, [(key, values[0])], Index(from));
    UnsetConcat(p + n, a, Index(from));
    UnsetConcat(p, n, Index(from));
    UnsetAbsent(p, Index(from));
    UnsetAbsent(a, Index(from));
    NumberedUnsetFirst(from, values);
  }

  /** After a pass per numbered slot, all numbered values have been appended and no numbered slot is left. */
  lemma AbsorbAll(p: Slots, from: int, values: seq<string>, a: Slots, key: Key, first: string)
    requires key.Name?
    requires IndexesBelow(p, from) && IndexesBelow(a, from)
    requires Lookup(p, key) == None && Lookup(a, key) == None
    ensures var d := p + Numbered(from, values) + a + [(key, first)];
      Absorb(d, key, from, |d| - |p| - |a| - 1 + from) == p + a + [(key, Implode(" ", [first] + values))]
  {
    AbsorbPrefix(p, from, values, a, key, first, |values|);
    assert values[|values|..] == [] && values[..|values|] == values;
    assert Numbered(from + |values|, []) == [];
    assert p + [] == p;
  }

  /**
   * nameDynamicArgument on slot `from` of `p + numbered + a`, where the
   * other arrays hold exactly `from` entries, leaves one named entry
   * holding every numbered value joined with single spaces.
   */
  lemma DynamicArgumentJoins(p: Slots, from: int, values: seq<string>, a: Slots, key: Key)
    requires values != [] && key.Name? && |p| + |a| == from
    requires IndexesBelow(p, from) && IndexesBelow(a, from)
    requires Lookup(p, key) == None && Lookup(a, key) == None
    ensures var d := p + Numbered(from, values) + a;
      && Lookup(d, Index(from)).Some?
      && var named := Renamed(d, Index(from), key);
      Absorb(named, key, from + 1, |named|) == p + a + [(key, Implode(" ", values))]
  {
    RenameFirstNumbered(p, from, values, a, key);
    var rest := values[1..];
    var named := p + Numbered(from + 1, rest) + a + [(key, values[0])];
    assert |named| == from + 1 + |rest|;
    AbsorbAll(p, from + 1, rest, a, key, values[0]);
    assert Absorb(named, key, from + 1, |named|) == p + a + [(key, Implode(" ", [values[0]] + rest))];
    assert [values[0]] + rest == values;
  }

  class CommandInput {
    const fullCommand: string
    const command: string
    var arguments: Slots
    const flags: seq<(string, FlagValue)>
    var input: Option<Input.Port>

    /** Both arrays are PHP arrays: no key twice. */
    ghost predicate Valid()
      reads this
    {
      UniqueKeys(arguments) && UniqueKeys(flags)
    }

    /** Without a command name, the command is the full command line. */
    constructor (fullCommand: string, command: Option<string>, arguments: Slots, flags: seq<(string, FlagValue)>)
      requires UniqueKeys(arguments) && UniqueKeys(flags)
      ensures Valid()
      ensures this.fullCommand == fullCommand
      ensures command.None? ==> this.command == fullCommand
      ensures command.Some? ==> this.command == command.value
      ensures this.arguments == arguments && this.flags == flags && input == None
    {
      this.fullCommand := fullCommand;
      this.command := if command.Some? then command.value else fullCommand;
      this.arguments := arguments;
      this.flags := flags;
      input := None;
    }

    /** `getArgument($index, $default)`: the stored value, or the default when the slot is absent. */
    function GetArgument(index: Key, default: Option<string>): (r: Option<string>)
      reads this
      ensures r == default || (r.Some? && (index, r.value) in arguments)
      ensures (exists i :: 0 <= i < |arguments| && arguments[i].0 == index) ==> r.Some? && (index, r.value) in arguments
      ensures (forall i :: 0 <= i < |arguments| ==> arguments[i].0 != index) ==> r == default
    {
      LookupFound(arguments, index);
      var v := Lookup(arguments, index);
      if v.Some? then v else default
    }

    /** `hasArguments`: a non-empty array is truthy. */
    function HasArguments(): (r: bool)
      reads this
      ensures r <==> exists i :: 0 <= i < |arguments| && HasArgument(arguments[i].0)
    {
      if arguments != [] then
        assert HasArgument(arguments[0].0);
        true
      else false
    }

    /** `hasArgument`: the slot is present exactly when getArgument finds a value in it. */
    function HasArgument(index: Key): (r: bool)
      reads this
      ensures r <==> GetArgument(index, None).Some?
      ensures r <==> exists i :: 0 <= i < |arguments| && arguments[i].0 == index
    {
      LookupFound(arguments, index);
      Lookup(arguments, index).Some?
    }

    /** `getArgumentCount`. */
    function ArgumentCount(): nat
      reads this
    {
      |arguments|
    }

    /** `nameArgument`: moves the value of slot `index` to the key `name` coerces to. */
    method NameArgument(index: Key, name: string) returns (r: Outcome<CliError>)
      requires Valid()
      modifies this`arguments
      ensures Valid()
      ensures r == Pass <==> old(HasArgument(index))
      ensures r.Fail? ==> r.error == NoArgumentAtIndex(index) && arguments == old(arguments)
      ensures r.Pass? ==> arguments == Renamed(old(arguments), index, KeyOf(name))
    {
      var value := Lookup(arguments, index);
      if value.None? {
        return Fail(NoArgumentAtIndex(index));
      }
      RenamedCount(arguments, index, KeyOf(name));
      arguments := Unset(Put(arguments, KeyOf(name), value.value), index);
      return Pass;
    }

    /**
     * `nameDynamicArgument`: names slot `index`, then appends every slot
     * index + 1, …, count - 1 (count taken after the renaming) to it and
     * unsets that slot.
     */
    method NameDynamicArgument(index: int, name: string) returns (r: Outcome<CliError>)
      requires Valid()
      modifies this`arguments
      ensures Valid()
      ensures r == Pass <==> old(HasArgument(Index(index)))
      ensures r.Fail? ==> r.error == NoArgumentAtIndex(Index(index)) && arguments == old(arguments)
      ensures r.Pass? ==>
        var named := Renamed(old(arguments), Index(index), KeyOf(name));
        arguments == Absorb(named, KeyOf(name), index + 1, |named|)
    {
      r := NameArgument(Index(index), name);
      if r.Fail? {
        return;
      }
      var key := KeyOf(name);
      var slots := arguments;
      ghost var named := slots;
      var count := |slots|;
      var i := index + 1;
      while i < count
        invariant index + 1 <= i && (i <= count || i == index + 1)
        invariant slots == Absorb(named, key, index + 1, i)
        invariant UniqueKeys(slots)
      {
        var current := Lookup(slots, key);
        var next := Lookup(slots, Index(i));
        var joined := (if current.Some? then current.value else "") + " " + (if next.Some? then next.value else "");
        PutUnique(slots, key, joined);
        UnsetCount(Put(slots, key, joined), Index(i));
        slots := Unset(Put(slots, key, joined), Index(i));
        i := i + 1;
      }
      arguments := slots;
    }

    /** `hasFlag`: set, whatever its value (false included). */
    function HasFlag(name: string): (r: bool)
      reads this
      ensures r <==> exists i :: 0 <= i < |flags| && flags[i].0 == name
    {
      LookupFound(flags, name);
      Lookup(flags, name).Some?
    }

    /** `hasFlags`: a non-empty array is truthy. */
    function HasFlags(): (r: bool)
      reads this
      ensures r <==> exists i :: 0 <= i < |flags| && HasFlag(flags[i].0)
    {
      if flags != [] then
        assert HasFlag(flags[0].0);
        true
      else false
    }

    /** `getFlag($name, $default)`. */
    function GetFlag(name: string, default: Option<FlagValue>): (r: Option<FlagValue>)
      reads this
      ensures !HasFlag(name) ==> r == default
      ensures HasFlag(name) ==> r.Some? && (name, r.value) in flags
    {
      LookupFound(flags, name);
      var v := Lookup(flags, name);
      if v.Some? then v else default
    }

    /** `setInput`: the port later reads go to. */
    method SetInput(port: Input.Port)
      modifies this`input
      ensures input == Some(port)
    {
      input := Some(port);
    }

    /** `isInteractive`: an error without a wrapped port, else the port's answer. */
    function IsInteractive(): (r: Result<bool, CliError>)
      reads this
      ensures input.None? ==> r == Err(NoInputToCheck)
      ensures input.Some? ==> r == Ok(Input.PortIsInteractive(input.value))
    {
      if input.None? then Err(NoInputToCheck) else Ok(Input.PortIsInteractive(input.value))
    }

    /** `read`: an error without a wrapped port, else the port's `read`. */
    method Read(output: Output.ArrayOutput, prompt: string) returns (r: Result<Option<string>, CliError>)
      requires input.Some? && input.value.ArrayPort? ==> input.value.arrayInput.Valid()
      modifies if input.Some? && input.value.ArrayPort? then {input.value.arrayInput} else {}
      modifies if input.Some? && input.value.ArgumentPort? then {input.value.argumentInput} else {}
      ensures input.None? ==> r == Err(NoInputToRead)
      ensures input.Some? && input.value.ArrayPort? ==>
        var a := input.value.arrayInput;
        && a.Valid()
        && (old(a.position) < |a.commands| ==> r == Ok(Some(a.commands[old(a.position)])) && a.position == old(a.position) + 1)
        && (old(a.position) == |a.commands| ==> r == Ok(None) && a.position == old(a.position))
      ensures input.Some? && input.value.ArgumentPort? ==>
        var a := input.value.argumentInput;
        && (old(a.input).Some? ==> r == Ok(None) && a.input == old(a.input))
        && (old(a.input).None? ==> r == Ok(Some(Input.ArgvLine(a.argv))) && a.input == Some(Input.ArgvLine(a.argv)))
    {
      if input.None? {
        return Err(NoInputToRead);
      }
      match input.value
      case ArrayPort(a) =>
        var line := a.Read(output, prompt);
        r := Ok(line);
      case ArgumentPort(a) =>
        var line := a.Read(output, prompt);
        r := Ok(line);
    }
  }

  /** A flag stored with the value false is still set, and getFlag returns it. */
  lemma FalseFlagIsSet(ci: CommandInput, name: string, default: Option<FlagValue>)
    requires ci.Valid() && (name, Switch(false)) in ci.flags
    ensures ci.HasFlag(name) && ci.GetFlag(name, default) == Some(Switch(false))
  {
    var i :| 0 <= i < |ci.flags| && ci.flags[i] == (name, Switch(false));
    LookupEntry(ci.flags, i);
  }

  /** Naming slots 0 and 1 of two values moves them under the two names, in that order. */
  lemma NameArgumentsExample()
    ensures var d := Numbered(0, ["value", "value2"]);
      && Lookup(d, Index(0)).Some?
      && var first := Renamed(d, Index(0), KeyOf("arg1"));
      && Lookup(first, Index(1)).Some?
      && Renamed(first, Index(1), KeyOf("arg2")) == [(Name("arg1"), "value"), (Name("arg2"), "value2")]
  {
    var d := Numbered(0, ["value", "value2"]);
    assert d == [] + Numbered(0, ["value"]) + Numbered(1, ["value2"]);
    assert !IsIntegerKey("arg1") && !IsIntegerKey("arg2");
    RenameFirstNumbered([], 0, ["value", "value2"], [], Name("arg1"));
    var first := Numbered(1, ["value2"]) + [(Name("arg1"), "value")];
    assert Renamed(d, Index(0), KeyOf("arg1")) == [] + Numbered(1, ["value2"]) + [] + [(Name("arg1"), "value")];
    RenameFirstNumbered([], 1, ["value2"], [(Name("arg1"), "value")], Name("arg2"));
    assert Numbered(2, []) == [];
  }

  /** Naming slot 0 of two values as dynamic joins both under the one name. */
  lemma NameDynamicArgumentExample()
    ensures var d := Numbered(0, ["value", "value2"]);
      && Lookup(d, Index(0)).Some?
      && var named := Renamed(d, Index(0), KeyOf("arg1"));
      Absorb(named, KeyOf("arg1"), 1, |named|) == [(Name("arg1"), "value value2")]
  {
    var values := ["value", "value2"];
    var d := Numbered(0, values);
    assert KeyOf("arg1") == Name("arg1") by {
      assert !IsIntegerKey("arg1");
    }
    assert [] + d + [] == d;
    DynamicArgumentJoins([], 0, values, [], Name("arg1"));
    assert Implode(" ", values) == "value value2" by {
      assert values[..1] == ["value"];
      assert "value" + " " + "value2" == "value value2";
    }
  }
}
