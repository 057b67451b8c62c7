/**
 * The interpreter (CommandInterpreter): finds the registered command whose
 * name is the longest prefix of the line, parses the line with as many
 * leading values added to the command as the name has spaces, checks the
 * arguments (required ones present, slots renamed to the declared names, a
 * dynamic argument swallowing the rest), the argument count and the flags,
 * and only then hands the input and output to the command and executes it.
 */
module Interpreter {
  import opened Php
  import opened Errors
  import opened CommandArguments
  import opened CommandInputs
  import opened ArgumentParser
  import opened Output
  import Input
  import opened Commands

  // ---------------------------------------------------------------------
  // Resolution
  // ---------------------------------------------------------------------

  /**
   * The resolution loop over the container in its order: an entry whose
   * name starts the line (`strncmp` over the name's length) replaces the
   * one found so far only when its name is strictly longer.
   */
  function Resolve(d: seq<(string, Command)>, line: string): (r: Option<(string, Command)>)
    ensures r.Some? ==> r.value in d && r.value.0 <= line
  {
    if d == [] then None
    else
      var best := Resolve(d[..|d| - 1], line);
      var e := d[|d| - 1];
      StrncmpIsPrefix(line, e.0);
      if StrncmpEqual(line, e.0, |e.0|) && (best.None? || |best.value.0| < |e.0|) then Some(e) else best
  }

  /**
   * Nothing is found exactly when no name starts the line, and what is
   * found is a longest name that starts the line.
   */
  lemma {:induction false} ResolveLongest(d: seq<(string, Command)>, line: string)
    ensures Resolve(d, line).None? ==> forall i :: 0 <= i < |d| ==> !(d[i].0 <= line)
    ensures (forall i :: 0 <= i < |d| ==> !(d[i].0 <= line)) ==> Resolve(d, line).None?
    ensures Resolve(d, line).Some? ==> forall i :: 0 <= i < |d| && d[i].0 <= line ==> |d[i].0| <= |Resolve(d, line).value.0|
    decreases |d|
  {
    if d != [] {
      var init := d[..|d| - 1];
      ResolveLongest(init, line);
      StrncmpIsPrefix(line, d[|d| - 1].0);
      assert forall i :: 0 <= i < |d| - 1 ==> d[i] == init[i];
    }
  }

  /** Two prefixes of the same line with the same length are the same string. */
  lemma SamePrefix(a: string, b: string, line: string)
    requires a <= line && b <= line && |a| == |b|
    ensures a == b
  {
    assert a == line[..|a|] && b == line[..|b|];
  }

  /** With distinct names every other name that starts the line is strictly shorter than the one found. */
  lemma ResolveUnique(d: seq<(string, Command)>, line: string)
    requires UniqueKeys(d)
    requires Resolve(d, line).Some?
    ensures forall i :: 0 <= i < |d| && d[i].0 <= line && d[i] != Resolve(d, line).value ==> |d[i].0| < |Resolve(d, line).value.0|
  {
    var e := Resolve(d, line).value;
    ResolveLongest(d, line);
    forall i | 0 <= i < |d| && d[i].0 <= line && d[i] != e
      ensures |d[i].0| < |e.0|
    {
      var j :| 0 <= j < |d| && d[j] == e;
      if |d[i].0| == |e.0| {
        SamePrefix(d[i].0, e.0, line);
        assert false;
      }
    }
  }

  /** The commands the interpreter may touch for this line: the resolved one, if any. */
  function Chosen(d: seq<(string, Command)>, line: string): (s: set<Command>)
    ensures forall c :: c in s ==> exists e :: e in d && e.1 == c && e.0 <= line
  {
    match Resolve(d, line)
    case None => {}
    case Some(e) => {e.1}
  }

  /** The containers a resolved help command walks while it executes. */
  function HelpContainers(d: seq<(string, Command)>, line: string): set<CommandContainer>
  {
    set c | c in Chosen(d, line) && c.kind.Help? :: c.kind.container
  }

  /** The command found so far is the one Resolve picks, under its own name. */
  predicate Tracks(found: Option<Command>, r: Option<(string, Command)>)
  {
    && (found.None? <==> r.None?)
    && (found.Some? ==> found.value == r.value.1 && found.value.name == r.value.0)
  }

  /** One pass of the resolution loop keeps the command found in step with Resolve. */
  lemma FoundNext(d: seq<(string, Command)>, k: nat, line: string, found: Option<Command>)
    requires k < |d| && d[k].0 == d[k].1.name && Tracks(found, Resolve(d[..k], line))
    ensures var name := d[k].0;
      Tracks(if StrncmpEqual(line, name, |name|) && (found.None? || |found.value.name| < |name|) then Some(d[k].1) else found,
             Resolve(d[..k + 1], line))
  {
    assert d[..k + 1][..k] == d[..k];
  }

  /** The resolution loop of `interpret`, walking the container with its iterator. */
  method FindCommand(container: CommandContainer, line: string) returns (found: Option<Command>)
    requires container.Valid()
    modifies container`cursor
    ensures container.Valid() && container.commands == old(container.commands)
    ensures found.None? <==> Resolve(container.commands, line).None?
    ensures found.Some? ==> found.value == Resolve(container.commands, line).value.1
  {
    ghost var entries := container.commands;
    container.Rewind();
    found := None;
    while container.IsValid()
      invariant container.Valid() && container.commands == entries
      invariant forall e :: e in entries ==> e.0 == e.1.name
      invariant Tracks(found, Resolve(entries[..container.cursor], line))
      decreases |entries| - container.cursor
    {
      ghost var k := container.cursor;
      var commandName := container.Key().value;
      var command := container.Current().value;
      assert entries[k].0 == entries[k].1.name;
      FoundNext(entries, k, line, found);
      found := if StrncmpEqual(line, commandName, |commandName|) && (found.None? || |found.value.name| < |commandName|)
        then Some(command) else found;
      var next := container.Next();
      assert container.cursor == k + 1;
    }
    assert entries[..container.cursor] == entries;
  }

  // ---------------------------------------------------------------------
  // Argument validation
  // ---------------------------------------------------------------------

  /** The required argument at position i has no value: its slot is absent or holds "". */
  predicate Missing(args: seq<Argument>, values: seq<string>, i: nat)
    requires i < |args|
  {
    args[i].isRequired && (i >= |values| || values[i] == "")
  }

  /** The first argument from position i on that is required and missing. */
  function FirstMissing(args: seq<Argument>, values: seq<string>, i: nat): (r: Option<nat>)
    ensures r.Some? ==> i <= r.value < |args| && Missing(args, values, r.value)
    ensures r.Some? ==> forall k :: i <= k < r.value ==> !Missing(args, values, k)
    ensures r.None? ==> forall k :: i <= k < |args| ==> !Missing(args, values, k)
    decreases |args| - i
  {
    if i >= |args| then None
    else if Missing(args, values, i) then Some(i)
    else FirstMissing(args, values, i + 1)
  }

  /** nameDynamicArgument as a value: slot i is renamed, then every later slot is appended to it. */
  function DynamicNamed(slots: Slots, i: int, name: string): Slots
    requires Lookup(slots, Index(i)).Some?
  {
    var named := Renamed(slots, Index(i), KeyOf(name));
    Absorb(named, KeyOf(name), i + 1, |named|)
  }

  /**
   * The argument loop of `interpret` from position i on: a required
   * argument whose slot is absent or "" stops it with ArgumentNotSet; a
   * present slot is renamed to the argument's name, by nameDynamicArgument
   * for a dynamic argument and by nameArgument otherwise.
   */
  function NameFrom(args: seq<Argument>, slots: Slots, i: nat): Result<Slots, CliError>
    decreases |args| - i
  {
    if i >= |args| then Ok(slots)
    else
      var a := args[i];
      var value := Lookup(slots, Index(i));
      if a.isRequired && (value.None? || value.value == "") then Err(ArgumentNotSet(a.name))
      else if value.None? then NameFrom(args, slots, i + 1)
      else if a.isDynamic then NameFrom(args, DynamicNamed(slots, i, a.name), i + 1)
      else NameFrom(args, Renamed(slots, Index(i), KeyOf(a.name)), i + 1)
  }

  /**
   * Two required arguments with the same name: the second rename overwrites
   * the first, so only the second value is left, under that name.
   */
  lemma RepeatedNameOverwrites(x: string, a: string, b: string)
    requires KeyOf(x) == Name(x) && a != "" && b != ""
    ensures var arg := Argument(x, None, true, false);
      NameFrom([arg, arg], Numbered(0, [a, b]), 0) == Ok([(Name(x), b)])
  {
    var arg := Argument(x, None, true, false);
    var d0 := Numbered(0, [a, b]);
    assert d0 == [(Index(0), a), (Index(1), b)];
    var d1 := [(Index(1), b), (Name(x), a)];
    RenameStep(Index(0), a, Index(1), b, Name(x));
    RenameStep(Index(1), b, Name(x), a, Name(x));
    assert NameFrom([arg, arg], d0, 0) == NameFrom([arg, arg], d1, 1);
    assert NameFrom([arg, arg], d1, 1) == NameFrom([arg, arg], [(Name(x), b)], 2);
  }

  /** Renaming the first of two entries to a third key: `Renamed` of a pair, spelled out. */
  lemma RenameStep(k0: Key, v0: string, k1: Key, v1: string, to: Key)
    requires k0 != k1 && k0 != to
    ensures Renamed([(k0, v0), (k1, v1)], k0, to) == if k1 == to then [(to, v0)] else [(k1, v1), (to, v0)]
  {
    var d := [(k0, v0), (k1, v1)];
    assert d[1..] == [(k1, v1)] && d[1..][1..] == [];
    assert Lookup(d, k0) == Some(v0);
    var put := Put(d, to, v0);
    assert put == [(k0, v0)] + Put(d[1..], to, v0);
    if k1 == to {
      assert Put(d[1..], to, v0) == [(to, v0)] + d[1..][1..];
      assert put == [(k0, v0), (to, v0)];
      assert put[1..] == [(to, v0)] && put[1..][1..] == [];
      assert Unset(put, k0) == Unset(put[1..], k0);
      assert Unset(put[1..], k0) == [(to, v0)] + Unset(put[1..][1..], k0);
    } else {
      assert Put(d[1..], to, v0) == [(k1, v1)] + Put(d[1..][1..], to, v0);
      assert put == [(k0, v0), (k1, v1), (to, v0)];
      var rest := put[1..];
      assert rest == [(k1, v1), (to, v0)] && rest[1..] == [(to, v0)] && rest[1..][1..] == [];
      assert Unset(put, k0) == Unset(rest, k0);
      assert Unset(rest, k0) == [(k1, v1)] + Unset(rest[1..], k0);
      assert Unset(rest[1..], k0) == [(to, v0)] + Unset(rest[1..][1..], k0);
    }
  }

  /** `isset($flags[$flag])`: declared, with a description that is not null. */
  predicate Declared(declared: Flags, flag: string)
  {
    var description := Lookup(declared, flag);
    description.Some? && description.value.Some?
  }

  /** The flag loop of `interpret`: the first given flag, in order, that is not declared. */
  function UnknownFlag(flags: seq<(string, FlagValue)>, declared: Flags): (r: Option<string>)
    ensures r.None? <==> forall i :: 0 <= i < |flags| ==> Declared(declared, flags[i].0)
    ensures r.Some? ==> exists i :: && 0 <= i < |flags| && flags[i].0 == r.value && !Declared(declared, r.value)
                                   && forall j :: 0 <= j < i ==> Declared(declared, flags[j].0)
  {
    if flags == [] then None
    else if !Declared(declared, flags[0].0) then Some(flags[0].0)
    else
      var r := UnknownFlag(flags[1..], declared);
      assert forall i :: 1 <= i < |flags| ==> flags[1..][i - 1] == flags[i];
      r
  }

  /**
   * The checks of `interpret` in their order: the arguments, then the
   * count of what is left (more entries than declared arguments fails),
   * then the flags. Ok holds the renamed arguments the command receives.
   */
  function Checked(args: seq<Argument>, declared: Flags, parts: Parts): (r: Result<Slots, CliError>)
    ensures r.Ok? ==> |r.value| <= |args|
    ensures r.Ok? ==> forall i :: 0 <= i < |parts.flags| ==> Declared(declared, parts.flags[i].0)
    ensures r.Err? ==> r.error.ArgumentNotSet? || r.error == InvalidArgumentCount || r.error.InvalidFlag?
  {
    match NameFrom(args, parts.arguments, 0)
    case Err(e) => NameFromError(args, parts.arguments, 0); Err(e)
    case Ok(slots) =>
      if |args| < |slots| then Err(InvalidArgumentCount)
      else
        match UnknownFlag(parts.flags, declared)
        case Some(f) => Err(InvalidFlag(f))
        case None => Ok(slots)
  }

  /** The argument loop only ever stops with ArgumentNotSet, for a required argument. */
  lemma {:induction false} NameFromError(args: seq<Argument>, slots: Slots, i: nat)
    ensures NameFrom(args, slots, i).Err? ==>
      exists j :: i <= j < |args| && args[j].isRequired && NameFrom(args, slots, i).error == ArgumentNotSet(args[j].name)
    decreases |args| - i
  {
    if i < |args| {
      var a := args[i];
      var value := Lookup(slots, Index(i));
      if a.isRequired && (value.None? || value.value == "") {
      } else if value.None? {
        NameFromError(args, slots, i + 1);
      } else if a.isDynamic {
        NameFromError(args, DynamicNamed(slots, i, a.name), i + 1);
      } else {
        NameFromError(args, Renamed(slots, Index(i), KeyOf(a.name)), i + 1);
      }
    }
  }

  /** The argument loop of `interpret`, renaming the slots of the parsed input in place. */
  method NameArguments(input: CommandInput, args: seq<Argument>) returns (r: Outcome<CliError>)
    requires input.Valid()
    modifies input`arguments
    ensures input.Valid()
    ensures match NameFrom(args, old(input.arguments), 0)
      case Err(e) => r == Fail(e)
      case Ok(slots) => r == Pass && input.arguments == slots
  {
    ghost var start := input.arguments;
    var index := 0;
    while index < |args|
      invariant 0 <= index <= |args| && input.Valid()
      invariant NameFrom(args, input.arguments, index) == NameFrom(args, start, 0)
    {
      r := NameOne(input, args, index);
      if r.Fail? {
        return;
      }
      index := index + 1;
    }
    return Pass;
  }

  /** One pass of the argument loop of `interpret`, for the argument at `index`. */
  method NameOne(input: CommandInput, args: seq<Argument>, index: nat) returns (r: Outcome<CliError>)
    requires input.Valid() && index < |args|
    modifies input`arguments
    ensures input.Valid()
    ensures r.Fail? ==> NameFrom(args, old(input.arguments), index) == Err(r.error)
    ensures r.Pass? ==> NameFrom(args, input.arguments, index + 1) == NameFrom(args, old(input.arguments), index)
  {
    var argument := args[index];
    if argument.isRequired {
      var value := input.GetArgument(Index(index), None);
      if value.None? || value.value == "" {
        return Fail(ArgumentNotSet(argument.name));
      }
    }
    if input.HasArgument(Index(index)) {
      if argument.isDynamic {
        var named := input.NameDynamicArgument(index, argument.name);
      } else {
        var named := input.NameArgument(Index(index), argument.name);
      }
    }
    return Pass;
  }

  /** The flag loop of `interpret`: the first given flag that is not declared, if any. */
  method FindUnknownFlag(flags: seq<(string, FlagValue)>, declared: Flags) returns (unknown: Option<string>)
    ensures unknown == UnknownFlag(flags, declared)
  {
    var k := 0;
    while k < |flags|
      invariant 0 <= k <= |flags|
      invariant UnknownFlag(flags, declared) == UnknownFlag(flags[k..], declared)
    {
      assert flags[k..][1..] == flags[k + 1..];
      if !Declared(declared, flags[k].0) {
        return Some(flags[k].0);
      }
      k := k + 1;
    }
    return None;
  }

  // ---------------------------------------------------------------------
  // What the argument loop leaves, for the numbered slots the parser makes
  // ---------------------------------------------------------------------

  /** Names the loop can use as they are: none integer-like, no two the same. */
  predicate PlainNames(args: seq<Argument>)
  {
    && (forall j :: 0 <= j < |args| ==> KeyOf(args[j].name) == Name(args[j].name))
    && (forall i, j :: 0 <= i < j < |args| ==> args[i].name != args[j].name)
  }

  /** The values of the first |args| slots under the names of the arguments, in order. */
  function NamedSlots(args: seq<Argument>, values: seq<string>): (d: Slots)
    requires |args| <= |values|
    ensures |d| == |args|
    ensures forall j :: 0 <= j < |args| ==> d[j] == (Name(args[j].name), values[j])
  {
    seq(|args|, j requires 0 <= j < |args| => (Name(args[j].name), values[j]))
  }

  /**
   * The arguments once every value has been named: as many named slots as
   * there are values and arguments; beyond the arguments a dynamic last
   * argument holds the rest joined with spaces, else the extra values stay
   * in their numbered slots.
   */
  function Bound(args: seq<Argument>, values: seq<string>): Slots
  {
    var n := |args|;
    if |values| <= n then NamedSlots(args[..|values|], values)
    else if n > 0 && args[n - 1].isDynamic then
      NamedSlots(args[..n - 1], values) + [(Name(args[n - 1].name), Implode(" ", values[n - 1..]))]
    else Numbered(n, values[n..]) + NamedSlots(args, values)
  }

  /** The slots before the loop handles argument i: values from i on numbered, the earlier ones named. */
  function SlotsAt(args: seq<Argument>, values: seq<string>, i: nat): Slots
    requires i <= |args|
  {
    if i <= |values| then Numbered(i, values[i..]) + NamedSlots(args[..i], values)
    else NamedSlots(args[..|values|], values)
  }

  /** Named slots hold no integer key, and no name of a later argument. */
  lemma NamedSlotsLookup(args: seq<Argument>, values: seq<string>, i: nat, m: nat)
    requires PlainNames(args) && m <= i < |args| && m <= |values|
    ensures Lookup(NamedSlots(args[..m], values), Name(args[i].name)) == None
    ensures forall n :: Lookup(NamedSlots(args[..m], values), Index(n)) == None
    ensures IndexesBelow(NamedSlots(args[..m], values), 0)
  {
    var d := NamedSlots(args[..m], values);
    LookupFound(d, Name(args[i].name));
    forall n ensures Lookup(d, Index(n)) == None {
      LookupFound(d, Index(n));
    }
  }

  /** Naming one more slot extends the named slots by one entry. */
  lemma NamedSlotsSnoc(args: seq<Argument>, values: seq<string>, i: nat)
    requires i < |args| && i < |values|
    ensures NamedSlots(args[..i + 1], values) == NamedSlots(args[..i], values) + [(Name(args[i].name), values[i])]
  {
  }

  /** After the last argument the slots are Bound, unless a dynamic last argument still had values to take. */
  lemma SlotsAtEnd(args: seq<Argument>, values: seq<string>)
    requires 0 < |args| < |values| ==> !args[|args| - 1].isDynamic
    ensures SlotsAt(args, values, |args|) == Bound(args, values)
  {
    var n, m := |args|, |values|;
    assert args[..n] == args;
    if n <= m {
      assert Numbered(n, values[n..]) + NamedSlots(args[..n], values) == SlotsAt(args, values, n);
      if m == n {
        assert values[n..] == [];
        assert Numbered(n, values[n..]) == [];
        assert [] + NamedSlots(args[..n], values) == NamedSlots(args[..n], values);
      }
    }
  }

  /** A slot the parser numbered is still there when its argument comes, and naming it gives the next state. */
  lemma SlotsAtPresent(args: seq<Argument>, values: seq<string>, i: nat)
    requires PlainNames(args) && i < |args| && i < |values|
    ensures Lookup(SlotsAt(args, values, i), Index(i)) == Some(values[i])
    ensures Renamed(SlotsAt(args, values, i), Index(i), KeyOf(args[i].name)) == SlotsAt(args, values, i + 1)
  {
    var key := Name(args[i].name);
    var named := NamedSlots(args[..i], values);
    var rest := values[i..];
    NamedSlotsLookup(args, values, i, i);
    assert SlotsAt(args, values, i) == [] + Numbered(i, rest) + named by {
      assert [] + Numbered(i, rest) == Numbered(i, rest);
    }
    RenameFirstNumbered([], i, rest, named, key);
    assert SlotsAt(args, values, i + 1) == [] + Numbered(i + 1, rest[1..]) + named + [(key, rest[0])] by {
      assert rest[1..] == values[i + 1..];
      assert [] + Numbered(i + 1, rest[1..]) == Numbered(i + 1, rest[1..]);
      NamedSlotsSnoc(args, values, i);
    }
  }

  /** A dynamic last argument with a value takes every value from its position on, which is Bound. */
  lemma SlotsAtDynamic(args: seq<Argument>, values: seq<string>, i: nat)
    requires PlainNames(args) && i == |args| - 1 && i < |values| && args[i].isDynamic
    ensures Lookup(SlotsAt(args, values, i), Index(i)).Some?
    ensures DynamicNamed(SlotsAt(args, values, i), i, args[i].name) == Bound(args, values)
  {
    var key := Name(args[i].name);
    var named := NamedSlots(args[..i], values);
    NamedSlotsLookup(args, values, i, i);
    assert [] + Numbered(i, values[i..]) + named == SlotsAt(args, values, i);
    DynamicArgumentJoins([], i, values[i..], named, key);
    assert DynamicNamed(SlotsAt(args, values, i), i, args[i].name) == [] + named + [(key, Implode(" ", values[i..]))];
    if |values| == |args| {
      assert values[i..] == [values[i]];
      NamedSlotsSnoc(args, values, i);
      assert args[..i + 1] == args[..|values|];
    }
  }

  /** Past the last value nothing is found and nothing changes. */
  lemma SlotsAtAbsent(args: seq<Argument>, values: seq<string>, i: nat)
    requires PlainNames(args) && |values| <= i < |args|
    ensures Lookup(SlotsAt(args, values, i), Index(i)) == None
    ensures SlotsAt(args, values, i + 1) == SlotsAt(args, values, i)
  {
    NamedSlotsLookup(args, values, i, |values|);
    if i == |values| {
      assert values[i..] == [];
      assert Numbered(i, values[i..]) == [];
      assert [] + NamedSlots(args[..i], values) == NamedSlots(args[..i], values);
    }
  }

  /** The loop from position i on, over the slots it finds there, ends in Bound or the first missing argument. */
  lemma {:induction false} NameFromSlots(args: seq<Argument>, values: seq<string>, i: nat)
    requires WellOrdered(args) && PlainNames(args) && i <= |args|
    requires i == |args| && 0 < |args| < |values| ==> !args[|args| - 1].isDynamic
    ensures NameFrom(args, SlotsAt(args, values, i), i) ==
      match FirstMissing(args, values, i)
      case Some(j) => Err(ArgumentNotSet(args[j].name))
      case None => Ok(Bound(args, values))
    decreases |args| - i
  {
    if i == |args| {
      SlotsAtEnd(args, values);
    } else if i < |values| {
      SlotsAtPresent(args, values, i);
      if args[i].isRequired && values[i] == "" {
      } else if args[i].isDynamic {
        SlotsAtDynamic(args, values, i);
      } else {
        NameFromSlots(args, values, i + 1);
      }
    } else {
      SlotsAtAbsent(args, values, i);
      NameFromSlots(args, values, i + 1);
    }
  }

  /**
   * The argument loop over the values the parser numbers from 0 stops at
   * the first required argument without a value, else leaves Bound.
   */
  lemma ArgumentsBound(args: seq<Argument>, values: seq<string>)
    requires WellOrdered(args) && PlainNames(args)
    ensures NameFrom(args, Numbered(0, values), 0) ==
      match FirstMissing(args, values, 0)
      case Some(j) => Err(ArgumentNotSet(args[j].name))
      case None => Ok(Bound(args, values))
  {
    assert values[0..] == values;
    assert SlotsAt(args, values, 0) == Numbered(0, values);
    NameFromSlots(args, values, 0);
  }

  /** More values than arguments are an error exactly when the last argument is not dynamic. */
  lemma BoundCount(args: seq<Argument>, values: seq<string>)
    ensures |args| < |Bound(args, values)| <==> |args| < |values| && (|args| == 0 || !args[|args| - 1].isDynamic)
  {
  }

  /** An entry whose key appears nowhere else is what Lookup finds for that key. */
  lemma LookupOnly(b: Slots, k: nat, key: Key)
    requires k < |b| && b[k].0 == key
    requires forall i :: 0 <= i < |b| && i != k ==> b[i].0 != key
    ensures Lookup(b, key) == Some(b[k].1)
  {
    LookupFound(b, key);
  }

  /** No more values than arguments: each value is under its argument's name. */
  lemma BoundLookupShort(args: seq<Argument>, values: seq<string>, j: nat)
    requires PlainNames(args) && j < |values| <= |args|
    ensures Lookup(Bound(args, values), Name(args[j].name)) == Some(values[j])
  {
    var key := Name(args[j].name);
    var b := NamedSlots(args[..|values|], values);
    assert forall i :: 0 <= i < |b| && i != j ==> b[i].0 != key by {
      forall i | 0 <= i < |b| && i != j ensures b[i].0 != key {
        assert b[i].0 == Name(args[i].name);
      }
    }
    LookupOnly(b, j, key);
  }

  /** The slots Bound leaves for a dynamic last argument: each key occurs once, at its argument's position. */
  lemma DynamicSlotsKeys(args: seq<Argument>, values: seq<string>, j: nat)
    requires PlainNames(args) && j < |args| < |values|
    ensures var n := |args|;
      var b := NamedSlots(args[..n - 1], values) + [(Name(args[n - 1].name), Implode(" ", values[n - 1..]))];
      && |b| == n && b[j].1 == (if j == n - 1 then Implode(" ", values[j..]) else values[j])
      && b[j].0 == Name(args[j].name)
      && forall i :: 0 <= i < |b| && i != j ==> b[i].0 != Name(args[j].name)
  {
    var n := |args|;
    var b := NamedSlots(args[..n - 1], values) + [(Name(args[n - 1].name), Implode(" ", values[n - 1..]))];
    forall i | 0 <= i < |b| && i != j ensures b[i].0 != Name(args[j].name) {
      assert b[i].0 == Name(args[i].name);
    }
  }

  /** More values than arguments and a dynamic last one: it holds the rest joined, the others their value. */
  lemma BoundLookupDynamic(args: seq<Argument>, values: seq<string>, j: nat)
    requires PlainNames(args) && j < |args| < |values| && args[|args| - 1].isDynamic
    ensures Lookup(Bound(args, values), Name(args[j].name))
         == Some(if j == |args| - 1 then Implode(" ", values[j..]) else values[j])
  {
    var n := |args|;
    var b := NamedSlots(args[..n - 1], values) + [(Name(args[n - 1].name), Implode(" ", values[n - 1..]))];
    DynamicSlotsKeys(args, values, j);
    LookupOnly(b, j, Name(args[j].name));
  }

  /** The slots Bound leaves without a dynamic last argument: the extra values, then each argument's key once. */
  lemma ExtraSlotsKeys(args: seq<Argument>, values: seq<string>, j: nat)
    requires PlainNames(args) && j < |args| < |values|
    ensures var n := |args|;
      var b := Numbered(n, values[n..]) + NamedSlots(args, values);
      var k := (|values| - n) + j;
      && k < |b| && b[k] == (Name(args[j].name), values[j])
      && forall i :: 0 <= i < |b| && i != k ==> b[i].0 != Name(args[j].name)
  {
    var n := |args|;
    var b := Numbered(n, values[n..]) + NamedSlots(args, values);
    var k := (|values| - n) + j;
    forall i | 0 <= i < |b| && i != k ensures b[i].0 != Name(args[j].name) {
      if i >= |values| - n {
        assert b[i].0 == Name(args[i - (|values| - n)].name);
      }
    }
  }

  lemma ExtraBound(args: seq<Argument>, values: seq<string>)
    requires 0 < |args| < |values| && !args[|args| - 1].isDynamic
    ensures Bound(args, values) == Numbered(|args|, values[|args|..]) + NamedSlots(args, values)
  {
  }

  /** More values than arguments and no dynamic last one: each argument's value is under its name. */
  lemma BoundLookupExtra(args: seq<Argument>, values: seq<string>, j: nat)
    requires PlainNames(args) && j < |args| < |values| && !args[|args| - 1].isDynamic
    ensures Lookup(Bound(args, values), Name(args[j].name)) == Some(values[j])
  {
    var n := |args|;
    var b := Numbered(n, values[n..]) + NamedSlots(args, values);
    ExtraBound(args, values);
    ExtraSlotsKeys(args, values, j);
    LookupOnly(b, (|values| - n) + j, Name(args[j].name));
  }

  /** In Bound every argument with a value holds it, the dynamic last one all values from its position on. */
  lemma BoundLookup(args: seq<Argument>, values: seq<string>, j: nat)
    requires PlainNames(args) && j < |args| && j < |values|
    ensures Lookup(Bound(args, values), Name(args[j].name))
         == Some(if args[j].isDynamic && j == |args| - 1 then Implode(" ", values[j..]) else values[j])
  {
    if |values| <= |args| {
      BoundLookupShort(args, values, j);
      if args[j].isDynamic && j == |args| - 1 {
        assert values[j..] == [values[j]];
      }
    } else if args[|args| - 1].isDynamic {
      BoundLookupDynamic(args, values, j);
    } else {
      BoundLookupExtra(args, values, j);
    }
  }

  // ---------------------------------------------------------------------
  // The interpreter
  // ---------------------------------------------------------------------

  /**
   * The checks of `interpret` on a resolved command: parse the line with as
   * many leading values added to the command as its name has spaces, name
   * the arguments, count what is left and look for an undeclared flag.
   */
  method CheckLine(command: Command, line: string) returns (r: Result<CommandInput, CliError>)
    ensures var parts := CommandParts(line, Count(command.name, ' '));
      match Checked(command.arguments, command.flags, parts)
      case Err(error) => r == Err(error)
      case Ok(slots) =>
        && r.Ok? && fresh(r.value) && r.value.Valid() && r.value.input == None
        && r.value.arguments == slots && r.value.flags == parts.flags && r.value.fullCommand == line
  {
    ghost var parts := CommandParts(line, Count(command.name, ' '));
    var input := GetCommandInput(line, Count(command.name, ' '));
    var named := NameArguments(input, command.arguments);
    if named.Fail? {
      return Err(named.error);
    }
    if |command.arguments| < input.ArgumentCount() {
      return Err(InvalidArgumentCount);
    }
    var unknown := FindUnknownFlag(input.flags, command.flags);
    if unknown.Some? {
      return Err(InvalidFlag(unknown.value));
    }
    return Ok(input);
  }

  /** The end of `interpret`: hand the port to the input, the input and output to the command, and execute it. */
  method Dispatch(command: Command, input: CommandInput, port: Input.Port, output: ArrayOutput) returns (r: Outcome<CliError>)
    requires command.kind.Help? ==> command.kind.container.Valid()
    modifies input`input, command`input, command`output, command`invocations, output`out
    modifies (if command.kind.Help? then {command.kind.container} else {})`cursor
    ensures input.input == Some(port) && command.input == Some(input) && command.output == Some(output)
    ensures command.invocations == old(command.invocations) + 1
    ensures command.kind.Plain? ==> r == Pass && output.out == old(output.out)
    ensures command.kind.Help? ==>
      && command.kind.container.Valid() && command.kind.container.commands == old(command.kind.container.commands)
      && match old(HelpLines(command.kind.container, Lookup(input.arguments, Name("command"))))
         case Ok(lines) => r == Pass && output.out == Written(old(output.out), lines)
         case Err(error) => r == Fail(error) && output.out == old(output.out)
  {
    ghost var requested := Lookup(input.arguments, Name("command"));
    ghost var lines: Result<seq<string>, CliError> := Ok([]);
    if command.kind.Help? {
      lines := HelpLines(command.kind.container, requested);
    }
    input.SetInput(port);
    assert command.kind.Help? ==> HelpLines(command.kind.container, requested) == lines;
    command.SetCommandInput(input);
    assert command.kind.Help? ==> HelpLines(command.kind.container, requested) == lines;
    command.SetOutput(output);
    assert command.kind.Help? ==> HelpLines(command.kind.container, requested) == lines;
    assert input.GetArgument(Name("command"), None) == requested;
    r := command.Execute();
  }

  /**
   * What `interpret` leaves once it resolved command c for the line, the
   * count of its executions having been `before` and the output `out0`:
   * when a check fails, its error and nothing run; else the command holds
   * the checked input and the output, has run once, and the help command
   * has written its lines or failed with the container's error.
   */
  ghost predicate Ran(c: Command, line: string, port: Input.Port, output: ArrayOutput, r: Outcome<CliError>, before: nat, out0: Channel)
    reads c, output, if c.input.Some? then {c.input.value} else {}
    reads if c.kind.Help? then {c.kind.container} + set e | e in c.kind.container.commands :: e.1 else {}
  {
    var parts := CommandParts(line, Count(c.name, ' '));
    match Checked(c.arguments, c.flags, parts)
    case Err(error) => r == Fail(error) && c.invocations == before && output.out == out0
    case Ok(slots) =>
      && c.invocations == before + 1
      && c.output == Some(output) && c.input.Some?
      && c.input.value.arguments == slots && c.input.value.flags == parts.flags
      && c.input.value.fullCommand == line && c.input.value.input == Some(port)
      && (c.kind.Plain? ==> r == Pass && output.out == out0)
      && (c.kind.Help? ==>
           && c.kind.container.Valid()
           && match HelpLines(c.kind.container, Lookup(slots, Name("command")))
              case Ok(lines) => r == Pass && output.out == Written(out0, lines)
              case Err(error) => r == Fail(error) && output.out == out0)
  }

  /** `interpret` once the command is found: check the line, and run the command only when every check passed. */
  method RunCommand(command: Command, line: string, port: Input.Port, output: ArrayOutput) returns (r: Outcome<CliError>)
    requires command.kind.Help? ==> command.kind.container.Valid()
    modifies command`input, command`output, command`invocations, output`out
    modifies (if command.kind.Help? then {command.kind.container} else {})`cursor
    ensures command.kind.Help? ==> command.kind.container.Valid() && command.kind.container.commands == old(command.kind.container.commands)
    ensures Ran(command, line, port, output, r, old(command.invocations), old(output.out))
  {
    var checked := CheckLine(command, line);
    if checked.Err? {
      return Fail(checked.error);
    }
    ghost var requested := Lookup(checked.value.arguments, Name("command"));
    ghost var lines: Result<seq<string>, CliError> := Ok([]);
    if command.kind.Help? {
      lines := HelpLines(command.kind.container, requested);
    }
    r := Dispatch(command, checked.value, port, output);
    assert command.kind.Help? ==> HelpLines(command.kind.container, requested) == lines;
  }

  class CommandInterpreter {
    const container: CommandContainer

    constructor (container: CommandContainer)
      ensures this.container == container
    {
      this.container := container;
    }

    /**
     * `interpret`: resolve, parse, check, then set the input and output of
     * the command and execute it, once and only when every check passed.
     */
    method Interpret(line: string, port: Input.Port, output: ArrayOutput) returns (r: Outcome<CliError>)
      requires container.Valid()
      requires forall e :: e in container.commands && e.1.kind.Help? ==> e.1.kind.container.Valid()
      modifies container`cursor, output`out
      modifies Chosen(container.commands, line)`input, Chosen(container.commands, line)`output
      modifies Chosen(container.commands, line)`invocations, HelpContainers(container.commands, line)`cursor
      ensures container.Valid() && container.commands == old(container.commands)
      ensures match old(Resolve(container.commands, line))
        case None => r == Fail(CommandNotFound(line))
        case Some(e) => Ran(e.1, line, port, output, r, old(e.1.invocations), old(output.out))
    {
      var found := FindCommand(container, line);
      if found.None? {
        return Fail(CommandNotFound(line));
      }
      var command := found.value;
      ghost var e := Resolve(container.commands, line).value;
      assert e in container.commands;
      r := RunCommand(command, line, port, output);
    }
  }

  // ---------------------------------------------------------------------
  // The cases of the interpreter's tests, on the parsed input
  // ---------------------------------------------------------------------

  /** The arguments of the test command: required, optional, dynamic optional. */
  lemma TestArgumentsShape()
    ensures WellOrdered(TestArguments) && PlainNames(TestArguments)
  {
    NameKey("required");
    NameKey("optional");
    NameKey("dynamic");
    TestArgumentsOrdered();
    forall j | 0 <= j < |TestArguments| ensures KeyOf(TestArguments[j].name) == Name(TestArguments[j].name) {
    }
  }

  lemma TestArgumentsOrdered()
    ensures WellOrdered(TestArguments)
    ensures forall i, j :: 0 <= i < j < |TestArguments| ==> TestArguments[i].name != TestArguments[j].name
  {
  }

  /** `name` alone: the required argument has no value. */
  lemma MissingRequiredExample(declared: Flags, line: string)
    ensures Checked(TestArguments, declared, Parts(line, None, [], [])) == Err(ArgumentNotSet("required"))
  {
  }

  /** One non-empty value and no flag: only the first argument may be required, and it gets the value. */
  lemma OneValueChecked(args: seq<Argument>, declared: Flags, line: string, command: string, v: string)
    requires WellOrdered(args) && PlainNames(args) && |args| > 0 && v != ""
    requires forall k :: 1 <= k < |args| ==> !args[k].isRequired
    ensures Checked(args, declared, Parts(line, Some(command), Numbered(0, [v]), [])) == Ok([(Name(args[0].name), v)])
  {
    ArgumentsBound(args, [v]);
    assert !Missing(args, [v], 0);
    assert FirstMissing(args, [v], 0) == None;
    assert Bound(args, [v]) == NamedSlots(args[..1], [v]);
    assert NamedSlots(args[..1], [v]) == [(Name(args[0].name), v)];
  }

  /** `name required`: the value is named after the required argument and the command runs with it. */
  lemma RequiredGivenExample(declared: Flags, line: string, command: string, v: string)
    requires v != ""
    ensures Checked(TestArguments, declared, Parts(line, Some(command), Numbered(0, [v]), [])) == Ok([(Name("required"), v)])
  {
    TestArgumentsShape();
    OneValueChecked(TestArguments, declared, line, command, v);
  }

  /** `name required --unexisting-flag`: the arguments pass and the undeclared flag is refused. */
  lemma UnknownFlagExample(line: string, command: string, v: string, flag: string, value: FlagValue)
    requires v != "" && flag != "flag"
    ensures Checked(TestArguments, [("flag", Some("flag description"))], Parts(line, Some(command), Numbered(0, [v]), [(flag, value)]))
         == Err(InvalidFlag(flag))
  {
    RequiredGivenExample([("flag", Some("flag description"))], line, command, v);
    var declared: Flags := [("flag", Some("flag description"))];
    assert declared[1..] == [];
    assert !Declared(declared, flag);
  }

  /** `exit arg1`: a command without arguments refuses any value. */
  lemma ExtraValueExample(line: string, command: string, v: string)
    ensures Checked([], [], Parts(line, Some(command), Numbered(0, [v]), [])) == Err(InvalidArgumentCount)
  {
  }
}
