/**
 * The command line parser (ArgumentParser): a character-level tokenizer
 * that honours quotes, a classifier that sorts tokens into positional
 * values and flags, and the split of a line into command, arguments and
 * flags with a number of leading values that belong to the command name.
 */
module ArgumentParser {
  import opened Php
  import opened Errors
  import opened CommandInputs
  import Input

  // ---------------------------------------------------------------------
  // getArguments: the tokenizer
  // ---------------------------------------------------------------------

  /**
   * The variables of the tokenizer loop after some characters: the
   * arguments pushed so far, the argument being built, the quote that is
   * open (if any), how many characters were read and the last of them.
   */
  datatype Scan = Scan(pieces: seq<string>, current: string, open: Option<char>, read: nat, last: Option<char>)

  const Start := Scan([], "", None, 0, None)

  predicate IsQuote(c: char)
  {
    c == '"' || c == '\''
  }

  /**
   * An escaped quote overwrites the last character of the argument (the
   * backslash that was appended just before it). Writing at offset -1 of
   * an empty string is refused by PHP and changes nothing.
   */
  function Escaped(current: string, quote: char): string
  {
    if current == "" then current else current[..|current| - 1] + [quote]
  }

  /** One pass of the loop in getArguments, for character c. */
  function Step(st: Scan, c: char): Scan
  {
    var next := st.(read := st.read + 1, last := Some(c));
    if st.open.Some? then
      if c == st.open.value then
        if st.read > 1 && st.last == Some('\\') then
          next.(current := Escaped(st.current, c))
        else
          next.(pieces := st.pieces + [st.current], current := "", open := None)
      else
        next.(current := st.current + [c])
    else if IsQuote(c) then
      next.(open := Some(c))
    else if c == ' ' then
      next.(pieces := st.pieces + [st.current], current := "")
    else
      next.(current := st.current + [c])
  }

  /** The loop run over every character of s, starting from st. */
  function Run(st: Scan, s: string): Scan
  {
    if s == [] then st else Step(Run(st, s[..|s| - 1]), s[|s| - 1])
  }

  /** After the loop the argument being built is pushed unless it is empty. */
  function Finish(st: Scan): seq<string>
  {
    if st.current != "" then st.pieces + [st.current] else st.pieces
  }

  /** The second loop of getArguments: every argument trimmed, the empty ones dropped. */
  function CleanUp(pieces: seq<string>): (r: seq<string>)
  {
    if pieces == [] then []
    else
      var t := Trim(pieces[|pieces| - 1]);
      CleanUp(pieces[..|pieces| - 1]) + (if t == "" then [] else [t])
  }

  /** `getArguments` on a string. */
  function Tokens(s: string): seq<string>
  {
    CleanUp(Finish(Run(Start, s)))
  }

  /** Running over a + b is running over a, then over b. */
  lemma {:induction false} RunConcat(st: Scan, a: string, b: string)
    ensures Run(st, a + b) == Run(Run(st, a), b)
    decreases |b|
  {
    if b == [] {
      assert a + b == a;
    } else {
      var init := b[..|b| - 1];
      RunConcat(st, a, init);
      assert (a + b)[..|a + b| - 1] == a + init;
    }
  }

  /** Every character read is counted, and the last one is remembered. */
  lemma {:induction false} RunRead(st: Scan, s: string)
    ensures Run(st, s).read == st.read + |s|
    ensures s != [] ==> Run(st, s).last == Some(s[|s| - 1])
    ensures s == [] ==> Run(st, s) == st
    decreases |s|
  {
    if s != [] {
      RunRead(st, s[..|s| - 1]);
    }
  }

  /** `trim` is idempotent. */
  lemma TrimTrim(s: string)
    ensures Trim(Trim(s)) == Trim(s)
  {
    var r := Trim(s);
    if r != [] {
      assert TrimLeft(r) == r;
      assert TrimRight(r) == r;
    }
  }

  /** A string that starts and ends with a non-trim character is its own trim. */
  lemma TrimKeeps(s: string)
    requires s != [] && !IsTrimChar(s[0]) && !IsTrimChar(s[|s| - 1])
    ensures Trim(s) == s
  {
  }

  /** A cleaned piece: its trim, or nothing when the trim is empty. */
  function Cleaned(piece: string): seq<string>
  {
    var t := Trim(piece);
    if t == "" then [] else [t]
  }

  lemma CleanUpLast(pieces: seq<string>)
    requires pieces != []
    ensures CleanUp(pieces) == CleanUp(pieces[..|pieces| - 1]) + Cleaned(pieces[|pieces| - 1])
  {
  }

  /** A token is non-empty and its own trim. */
  ghost predicate AllTrimmed(tokens: seq<string>)
  {
    forall k :: 0 <= k < |tokens| ==> tokens[k] != "" && Trim(tokens[k]) == tokens[k]
  }

  /** Every token is non-empty and already trimmed. */
  lemma {:induction false} CleanUpTrimmed(pieces: seq<string>)
    ensures AllTrimmed(CleanUp(pieces))
    decreases |pieces|
  {
    if pieces != [] {
      var front := pieces[..|pieces| - 1];
      var tail := Cleaned(pieces[|pieces| - 1]);
      CleanUpTrimmed(front);
      TrimTrim(pieces[|pieces| - 1]);
      CleanUpLast(pieces);
      var r := CleanUp(front) + tail;
      forall k | 0 <= k < |r| ensures r[k] != "" && Trim(r[k]) == r[k] {
        if k < |CleanUp(front)| {
          assert r[k] == CleanUp(front)[k];
        } else {
          assert r[k] == tail[0];
        }
      }
    }
  }

  /** Cleaning works piece by piece, so it distributes over concatenation. */
  lemma {:induction false} CleanUpConcat(a: seq<string>, b: seq<string>)
    ensures CleanUp(a + b) == CleanUp(a) + CleanUp(b)
    decreases |b|
  {
    if b == [] {
      assert a + b == a;
    } else {
      var init := b[..|b| - 1];
      var x := Cleaned(b[|b| - 1]);
      CleanUpConcat(a, init);
      var ab := a + b;
      assert ab[..|ab| - 1] == a + init;
      assert ab[|ab| - 1] == b[|b| - 1];
      CleanUpLast(ab);
      CleanUpLast(b);
      AppendAssoc(CleanUp(a), CleanUp(init), x);
    }
  }

  predicate NoQuote(s: string)
  {
    forall k :: 0 <= k < |s| ==> !IsQuote(s[k])
  }

  /** A word without spaces explodes to itself. */
  lemma ExplodeWord(w: string)
    requires NoSpace(w)
    ensures Explode(w) == [w]
  {
    ExplodeAppendWord("", w);
    assert "" + w == w;
    assert [""][..0] == [];
  }

  /** One unquoted character either ends the argument being built (a space) or extends it. */
  lemma PlainStep(r: Scan, done: seq<string>, e: seq<string>, c: char)
    requires r.open == None && !IsQuote(c) && e != []
    requires r.pieces + [r.current] == done + e
    ensures Step(r, c).open == None
    ensures Step(r, c).pieces + [Step(r, c).current]
      == done + (if c == ' ' then e + [""] else e[..|e| - 1] + [e[|e| - 1] + [c]])
  {
    assert r.current == e[|e| - 1] && r.pieces == done + e[..|e| - 1] by {
      assert (r.pieces + [r.current])[|r.pieces|] == r.current;
      assert (r.pieces + [r.current])[..|r.pieces|] == r.pieces;
      assert (done + e)[..|r.pieces|] == done + e[..|e| - 1];
    }
    if c != ' ' {
      AppendAssoc(done, e[..|e| - 1], [e[|e| - 1] + [c]]);
    }
  }

  /** Without quotes the loop only splits at spaces: its pieces are those of `explode(' ', ...)`. */
  lemma {:induction false} RunPlain(st: Scan, s: string)
    requires st.open == None && NoQuote(s) && NoSpace(st.current)
    ensures Run(st, s).open == None
    ensures Run(st, s).pieces + [Run(st, s).current] == st.pieces + Explode(st.current + s)
    decreases |s|
  {
    if s == [] {
      ExplodeWord(st.current);
      assert st.current + s == st.current;
    } else {
      var init := s[..|s| - 1];
      var c := s[|s| - 1];
      assert NoQuote(init) by {
        forall k | 0 <= k < |init| ensures !IsQuote(init[k]) {
          assert init[k] == s[k];
        }
      }
      RunPlain(st, init);
      PlainStep(Run(st, init), st.pieces, Explode(st.current + init), c);
      ExplodeAppend(st.current + init, c);
      assert st.current + init + [c] == st.current + s;
    }
  }

  /**
   * For input without quote characters, getArguments is `explode(' ', s)`
   * with every piece trimmed and the empty ones dropped.
   */
  lemma NoQuoteTokens(s: string)
    requires NoQuote(s)
    ensures Tokens(s) == CleanUp(Explode(s))
  {
    RunPlain(Start, s);
    assert "" + s == s;
    var st := Run(Start, s);
    var all := st.pieces + [st.current];
    assert all == Explode(s);
    if st.current == "" {
      CleanUpLast(all);
      assert all[..|all| - 1] == st.pieces;
      assert Cleaned(st.current) == [];
      assert CleanUp(all) == CleanUp(st.pieces) + [];
    }
  }

  /** Inside an open quote every character other than that quote is kept, spaces and the other quote included. */
  lemma {:induction false} RunInQuote(st: Scan, w: string)
    requires st.open.Some? && st.open.value !in w
    ensures Run(st, w) == st.(current := st.current + w, read := st.read + |w|, last := if w == [] then st.last else Some(w[|w| - 1]))
    decreases |w|
  {
    if w == [] {
      assert st.current + w == st.current;
    } else {
      var init := w[..|w| - 1];
      assert st.open.value !in init by {
        assert forall k :: 0 <= k < |init| ==> init[k] == w[k];
      }
      RunInQuote(st, init);
      assert init + [w[|w| - 1]] == w;
      AppendAssoc(st.current, init, [w[|w| - 1]]);
    }
  }

  /** A quoted segment is added to the argument being built, which is then pushed. */
  lemma QuotedSegment(st: Scan, q: char, w: string)
    requires st.open == None && IsQuote(q) && q !in w
    requires w != [] ==> w[|w| - 1] != '\\'
    ensures Run(st, [q] + w + [q]) == Scan(st.pieces + [st.current + w], "", None, st.read + |w| + 2, Some(q))
  {
    var entered := Step(st, q);
    assert Run(st, [q]) == entered by {
      assert [q][..0] == [];
    }
    RunInQuote(entered, w);
    RunConcat(st, [q], w);
    var inside := Run(entered, w);
    assert Run(st, [q] + w + [q]) == Step(inside, q) by {
      assert ([q] + w + [q])[..|w| + 1] == [q] + w;
    }
  }

  /** Running over s + [c] is one more pass of the loop after running over s. */
  lemma RunSnoc(st: Scan, s: string, c: char)
    ensures Run(st, s + [c]) == Step(Run(st, s), c)
  {
    assert (s + [c])[..|s|] == s;
  }

  lemma SnocPair<T>(w: seq<T>, x: T, y: T)
    ensures w + [x, y] == w + [x] + [y]
  {
  }

  /** The quote that follows a backslash inside that quote takes the backslash's place. */
  lemma EscapeStep(mid: Scan, q: char, kept: string)
    requires mid.open == Some(q) && mid.read > 1 && mid.last == Some('\\')
    requires mid.current == kept + ['\\']
    ensures Step(mid, q) == mid.(current := kept + [q], read := mid.read + 1, last := Some(q))
  {
    assert mid.current[..|mid.current| - 1] == kept;
  }

  /** Inside a quote, a backslash followed by that quote leaves the quote in place of the backslash. */
  lemma EscapedQuote(st: Scan, w: string)
    requires st.open.Some? && IsQuote(st.open.value) && st.open.value !in w && st.read >= 1
    ensures var q := st.open.value;
      Run(st, w + ['\\', q]) == st.(current := st.current + w + [q], read := st.read + |w| + 2, last := Some(q))
  {
    var q := st.open.value;
    var wb := w + ['\\'];
    assert q !in wb by {
      assert forall k :: 0 <= k < |w| ==> wb[k] == w[k];
    }
    RunInQuote(st, wb);
    var mid := Run(st, wb);
    AppendAssoc(st.current, w, ['\\']);
    EscapeStep(mid, q, st.current + w);
    RunSnoc(st, wb, q);
    SnocPair(w, '\\', q);
  }

  /** The loop over the characters, as far as character i. */
  lemma RunPrefix(st: Scan, s: string, i: nat)
    requires i < |s|
    ensures Run(st, s[..i + 1]) == Step(Run(st, s[..i]), s[i])
  {
    assert s[..i + 1][..i] == s[..i];
  }

  /** The first loop of getArguments and the push after it: the raw arguments. */
  method ScanArguments(s: string) returns (arguments: seq<string>)
    ensures arguments == Finish(Run(Start, s))
  {
    arguments := [];
    var argument := "";
    var open: Option<char> := None;
    var i := 0;
    while i < |s|
      invariant 0 <= i <= |s|
      invariant Run(Start, s[..i]) == Scan(arguments, argument, open, i, if i == 0 then None else Some(s[i - 1]))
    {
      var c := s[i];
      RunPrefix(Start, s, i);
      if open.Some? {
        if c == open.value {
          if i > 1 && s[i - 1] == '\\' {
            argument := Escaped(argument, c);
          } else {
            arguments := arguments + [argument];
            argument := "";
            open := None;
          }
        } else {
          argument := argument + [c];
        }
      } else if c == '"' || c == '\'' {
        open := Some(c);
      } else if c == ' ' {
        arguments := arguments + [argument];
        argument := "";
      } else {
        argument := argument + [c];
      }
      i := i + 1;
    }
    assert s[..i] == s;
    if argument != "" {
      arguments := arguments + [argument];
    }
  }

  /** The second loop of getArguments: every argument trimmed, the empty ones dropped. */
  method TrimArguments(arguments: seq<string>) returns (result: seq<string>)
    ensures result == CleanUp(arguments)
  {
    result := [];
    var k := 0;
    while k < |arguments|
      invariant 0 <= k <= |arguments|
      invariant result == CleanUp(arguments[..k])
    {
      assert arguments[..k + 1][..k] == arguments[..k];
      var trimmed := Trim(arguments[k]);
      if trimmed != "" {
        result := result + [trimmed];
      }
      k := k + 1;
    }
    assert arguments[..k] == arguments;
  }

  /**
   * `getArguments`: a non-string is refused with its type in the message;
   * a string is scanned character by character, then every argument is
   * trimmed and the empty ones dropped.
   */
  method GetArguments(value: Value) returns (r: Result<seq<string>, CliError>)
    ensures !value.Str? ==> r == Err(InvalidArgumentString(TypeName(value)))
    ensures value.Str? ==> r == Ok(Tokens(value.s))
  {
    if !value.Str? {
      return Err(InvalidArgumentString(TypeName(value)));
    }
    var arguments := ScanArguments(value.s);
    var result := TrimArguments(arguments);
    return Ok(result);
  }

  /** A quote-free, space-free word followed by a quote: the word is being built and the quote is open. */
  lemma WordThenQuote(a: string, q: char)
    requires a != [] && NoQuote(a) && NoSpace(a) && IsQuote(q)
    ensures Run(Start, a + [q]) == Scan([], a, Some(q), |a| + 1, Some(q))
  {
    RunPlain(Start, a);
    ExplodeWord(a);
    assert "" + a == a;
    RunRead(Start, a);
    var st0 := Run(Start, a);
    assert st0.pieces + [st0.current] == [a];
    assert |st0.pieces| == 0;
    assert (st0.pieces + [st0.current])[0] == st0.current;
    RunConcat(Start, a, [q]);
    assert Run(st0, [q]) == Step(st0, q) by { assert [q][..0] == []; }
  }

  /** A word, then a quoted part holding two escaped quotes: one argument with both quotes in place. */
  lemma TwoEscapedQuotes(a: string, q: char, w1: string, w2: string)
    requires a != [] && NoQuote(a) && NoSpace(a) && IsQuote(q) && q !in w1 && q !in w2
    ensures Run(Start, a + [q] + (w1 + ['\\', q]) + (w2 + ['\\', q]) + [q])
         == Scan([a + w1 + [q] + w2 + [q]], "", None, |a| + |w1| + |w2| + 6, Some(q))
  {
    var s1 := a + [q];
    var s2 := s1 + (w1 + ['\\', q]);
    var s3 := s2 + (w2 + ['\\', q]);
    var st1 := Scan([], a, Some(q), |a| + 1, Some(q));
    var st2 := Scan([], a + w1 + [q], Some(q), |a| + |w1| + 3, Some(q));
    var st3 := Scan([], a + w1 + [q] + w2 + [q], Some(q), |a| + |w1| + |w2| + 5, Some(q));
    assert Run(Start, s1) == st1 by {
      WordThenQuote(a, q);
    }
    assert Run(Start, s2) == st2 by {
      RunConcat(Start, s1, w1 + ['\\', q]);
      EscapedQuote(st1, w1);
    }
    assert Run(Start, s3) == st3 by {
      RunConcat(Start, s2, w2 + ['\\', q]);
      EscapedQuote(st2, w2);
    }
    RunConcat(Start, s3, [q]);
    assert Run(st3, [q]) == Step(st3, q) by { assert [q][..0] == []; }
  }

  /** The quoted flag value of the tests: `--var="test \"value\""` is one token `--var=test "value"`. */
  lemma EscapedQuoteExample()
    ensures Tokens("--var=\"test \\\"value\\\"\"") == ["--var=test \"value\""]
  {
    var q := '"';
    var a, w1, w2 := "--var=", "test ", "value";
    var token := a + w1 + [q] + w2 + [q];
    assert token == "--var=test \"value\"";
    assert a + [q] + (w1 + ['\\', q]) + (w2 + ['\\', q]) + [q] == "--var=\"test \\\"value\\\"\"";
    assert NoQuote(a) && NoSpace(a) && q !in w1 && q !in w2;
    TwoEscapedQuotes(a, q, w1, w2);
    TrimKeeps(token);
    assert CleanUp([token]) == CleanUp([]) + Cleaned(token);
  }

  // ---------------------------------------------------------------------
  // parseArguments: the classifier
  // ---------------------------------------------------------------------

  /** What a token is, by its leading dashes and its `=`. */
  datatype Token =
    | Value(text: string)                          // no leading dash
    | Long(name: string, given: Option<string>) // `--name` or `--name=value`
    | ShortValue(name: string, text: string)       // `-x=value`
    | Shorts(names: seq<string>)                   // `-abc`: one name per character

  /** `str_split`: one string per character, and [""] for the empty string. */
  function StrSplit(s: string): (r: seq<string>)
    ensures |r| == if s == "" then 1 else |s|
    ensures s != "" ==> forall k :: 0 <= k < |s| ==> r[k] == [s[k]]
  {
    if s == "" then [""] else seq(|s|, k requires 0 <= k < |s| => [s[k]])
  }

  /** The branches of parseArguments. */
  function Classify(t: string): Token
  {
    if |t| >= 2 && t[..2] == "--" then
      match Strpos(t, '=')
      case None => Long(t[2..], None)
      case Some(eq) =>
        StrposFacts(t, '=');
        assert eq >= 2 by { assert t[0] == '-' && t[1] == '-'; }
        Long(t[2..eq], Some(t[eq + 1..]))
    else if |t| >= 1 && t[0] == '-' then
      if |t| >= 3 && t[2] == '=' then ShortValue(t[1..2], t[3..])
      else Shorts(StrSplit(t[1..]))
    else Value(t)
  }

  /**
   * The array parseArguments builds: its entries in insertion order, and the
   * integer key that `$a[] = ...` uses next (one more than the largest
   * integer key so far, and never below 0).
   */
  datatype Parsed = Parsed(entries: seq<(Key, FlagValue)>, next: int)

  const Empty := Parsed([], 0)

  /** `$a[$name] = $v`, with the key coerced as PHP does. */
  function Set(p: Parsed, name: string, v: FlagValue): Parsed
  {
    var k := KeyOf(name);
    Parsed(Put(p.entries, k, v), if k.Index? && k.i >= p.next then k.i + 1 else p.next)
  }

  /** `if (!isset($a[$name])) $a[$name] = true;` */
  function SetIfAbsent(p: Parsed, name: string): Parsed
  {
    if Lookup(p.entries, KeyOf(name)).Some? then p else Set(p, name, Switch(true))
  }

  /** `$a[] = $value`. */
  function Push(p: Parsed, value: string): Parsed
  {
    Parsed(Put(p.entries, Index(p.next), Text(value)), p.next + 1)
  }

  /** The inner loop over the characters of `-abc`. */
  function SetAllIfAbsent(p: Parsed, names: seq<string>): Parsed
  {
    if names == [] then p else SetIfAbsent(SetAllIfAbsent(p, names[..|names| - 1]), names[|names| - 1])
  }

  function ParseToken(p: Parsed, t: string): Parsed
  {
    match Classify(t)
    case Value(v) => Push(p, v)
    case Long(name, None) => SetIfAbsent(p, name)
    case Long(name, Some(v)) => Set(p, name, Text(v))
    case ShortValue(name, v) => Set(p, name, Text(v))
    case Shorts(names) => SetAllIfAbsent(p, names)
  }

  /** `parseArguments`: the tokens folded into one PHP array. */
  function Parse(tokens: seq<string>): Parsed
  {
    if tokens == [] then Empty else ParseToken(Parse(tokens[..|tokens| - 1]), tokens[|tokens| - 1])
  }

  /** A PHP array as parseArguments sees it: unique keys, and every integer key below the next free one. */
  ghost predicate ParsedValid(p: Parsed)
  {
    && UniqueKeys(p.entries) && p.next >= 0
    && forall i :: 0 <= i < |p.entries| && p.entries[i].0.Index? ==> p.entries[i].0.i < p.next
  }

  lemma SetValid(p: Parsed, name: string, v: FlagValue)
    requires ParsedValid(p)
    ensures ParsedValid(Set(p, name, v))
  {
    var k := KeyOf(name);
    PutPlace(p.entries, k, v);
    PutUnique(p.entries, k, v);
  }

  /** `$a[] = $v` never meets an existing key: it appends one entry. */
  lemma PushAppends(p: Parsed, value: string)
    requires ParsedValid(p)
    ensures Push(p, value).entries == p.entries + [(Index(p.next), Text(value))]
    ensures ParsedValid(Push(p, value))
  {
    LookupFound(p.entries, Index(p.next));
    PutAbsent(p.entries, Index(p.next), Text(value));
    PutUnique(p.entries, Index(p.next), Text(value));
  }

  lemma {:induction false} SetAllValid(p: Parsed, names: seq<string>)
    requires ParsedValid(p)
    ensures ParsedValid(SetAllIfAbsent(p, names))
    decreases |names|
  {
    if names != [] {
      SetAllValid(p, names[..|names| - 1]);
      SetValid(SetAllIfAbsent(p, names[..|names| - 1]), names[|names| - 1], Switch(true));
    }
  }

  lemma ParseTokenValid(p: Parsed, t: string)
    requires ParsedValid(p)
    ensures ParsedValid(ParseToken(p, t))
  {
    match Classify(t)
    case Value(v) => PushAppends(p, v);
    case Long(name, None) => SetValid(p, name, Switch(true));
    case Long(name, Some(v)) => SetValid(p, name, Text(v));
    case ShortValue(name, v) => SetValid(p, name, Text(v));
    case Shorts(names) => SetAllValid(p, names);
  }

  /** parseArguments builds a proper PHP array: no key twice. */
  lemma {:induction false} ParseValid(tokens: seq<string>)
    ensures ParsedValid(Parse(tokens))
    decreases |tokens|
  {
    if tokens != [] {
      ParseValid(tokens[..|tokens| - 1]);
      ParseTokenValid(Parse(tokens[..|tokens| - 1]), tokens[|tokens| - 1]);
    }
  }

  /** How PHP prints a flag value: true as "1", false as "", text as itself. */
  function ValueText(v: FlagValue): string
  {
    match v
    case Switch(b) => if b then "1" else ""
    case Text(t) => t
  }

  /** The entries under integer keys, in order, with their values as strings. */
  function IndexEntries(d: seq<(Key, FlagValue)>): Slots
  {
    if d == [] then []
    else (if d[0].0.Index? then [(d[0].0, ValueText(d[0].1))] else []) + IndexEntries(d[1..])
  }

  lemma {:induction false} IndexEntriesConcat(a: seq<(Key, FlagValue)>, b: seq<(Key, FlagValue)>)
    ensures IndexEntries(a + b) == IndexEntries(a) + IndexEntries(b)
    decreases |a|
  {
    if a == [] {
      assert a + b == b;
    } else {
      IndexEntriesConcat(a[1..], b);
      IndexEntriesCons(a, b);
    }
  }

  lemma IndexEntriesCons(a: seq<(Key, FlagValue)>, b: seq<(Key, FlagValue)>)
    requires a != []
    ensures var h := if a[0].0.Index? then [(a[0].0, ValueText(a[0].1))] else [];
      IndexEntries(a + b) == h + IndexEntries(a[1..] + b)
  {
    assert (a + b)[0] == a[0] && (a + b)[1..] == a[1..] + b;
  }

  /** Setting a string key leaves the integer-keyed entries alone. */
  lemma {:induction false} IndexEntriesPutName(d: seq<(Key, FlagValue)>, n: string, v: FlagValue)
    ensures IndexEntries(Put(d, Name(n), v)) == IndexEntries(d)
    decreases |d|
  {
    if d != [] && d[0].0 != Name(n) {
      IndexEntriesPutName(d[1..], n, v);
      var rest := Put(d[1..], Name(n), v);
      assert ([d[0]] + rest)[0] == d[0] && ([d[0]] + rest)[1..] == rest;
    } else if d != [] {
      assert ([(Name(n), v)] + d[1..])[1..] == d[1..];
    }
  }

  /** The tokens that parseArguments keeps as values, in order. */
  function Plain(tokens: seq<string>): seq<string>
  {
    if tokens == [] then []
    else
      var t := tokens[|tokens| - 1];
      Plain(tokens[..|tokens| - 1]) + (if Classify(t).Value? then [t] else [])
  }

  /** The names a flag token sets all stay string keys (none looks like an integer). */
  predicate NamedFlags(tok: Token)
  {
    match tok
    case Value(_) => true
    case Long(name, _) => KeyOf(name).Name?
    case ShortValue(name, _) => KeyOf(name).Name?
    case Shorts(names) => forall k :: 0 <= k < |names| ==> KeyOf(names[k]).Name?
  }

  lemma {:induction false} SetAllNamed(p: Parsed, names: seq<string>)
    requires forall k :: 0 <= k < |names| ==> KeyOf(names[k]).Name?
    ensures IndexEntries(SetAllIfAbsent(p, names).entries) == IndexEntries(p.entries)
    ensures SetAllIfAbsent(p, names).next == p.next
    decreases |names|
  {
    if names != [] {
      var init := names[..|names| - 1];
      assert forall k :: 0 <= k < |init| ==> init[k] == names[k];
      SetAllNamed(p, init);
      var q := SetAllIfAbsent(p, init);
      var n := names[|names| - 1];
      IndexEntriesPutName(q.entries, KeyOf(n).s, Switch(true));
    }
  }

  /** One token adds its value under the next integer key, or leaves the values alone. */
  lemma ParseTokenPositional(p: Parsed, t: string)
    requires ParsedValid(p) && NamedFlags(Classify(t))
    ensures Classify(t).Value? ==>
      && IndexEntries(ParseToken(p, t).entries) == IndexEntries(p.entries) + [(Index(p.next), t)]
      && ParseToken(p, t).next == p.next + 1
    ensures !Classify(t).Value? ==>
      && IndexEntries(ParseToken(p, t).entries) == IndexEntries(p.entries)
      && ParseToken(p, t).next == p.next
  {
    match Classify(t)
    case Value(v) =>
      PushAppends(p, v);
      IndexEntriesConcat(p.entries, [(Index(p.next), Text(v))]);
      assert IndexEntries([(Index(p.next), Text(v))]) == [(Index(p.next), v)] + IndexEntries([]);
      assert v == t;
    case Long(name, None) =>
      IndexEntriesPutName(p.entries, name, Switch(true));
    case Long(name, Some(v)) =>
      IndexEntriesPutName(p.entries, name, Text(v));
    case ShortValue(name, v) =>
      IndexEntriesPutName(p.entries, name, Text(v));
    case Shorts(names) =>
      SetAllNamed(p, names);
  }

  /**
   * When no flag name looks like an integer, the values of parseArguments
   * are exactly the plain tokens, in their order, under keys 0, 1, 2, ...
   */
  lemma {:induction false} ParsePositional(tokens: seq<string>)
    requires forall k :: 0 <= k < |tokens| ==> NamedFlags(Classify(tokens[k]))
    ensures IndexEntries(Parse(tokens).entries) == Numbered(0, Plain(tokens))
    ensures Parse(tokens).next == |Plain(tokens)|
    decreases |tokens|
  {
    if tokens != [] {
      var init := tokens[..|tokens| - 1];
      var t := tokens[|tokens| - 1];
      assert forall k :: 0 <= k < |init| ==> init[k] == tokens[k];
      ParsePositional(init);
      ParseValid(init);
      ParseTokenPositional(Parse(init), t);
      var n := |Plain(init)|;
      if Classify(t).Value? {
        assert Numbered(0, Plain(init) + [t]) == Numbered(0, Plain(init)) + [(Index(n), t)];
      } else {
        assert Plain(init) + [] == Plain(init);
      }
    }
  }

  /** `--name=value`, with no `=` in the name, is a valued long flag. */
  lemma ClassifyLongValue(name: string, v: string)
    requires '=' !in name
    ensures Classify("--" + name + "=" + v) == Long(name, Some(v))
  {
    var t := "--" + name + "=" + v;
    var eq := 2 + |name|;
    assert t[..eq] == "--" + name;
    assert '=' !in t[..eq] by {
      forall k | 0 <= k < eq ensures t[k] != '=' {
        if k >= 2 { assert t[k] == name[k - 2]; }
      }
    }
    StrposAt(t, '=', eq);
    assert t[..2] == "--";
    assert t[2..eq] == name;
    assert t[eq + 1..] == v;
  }

  /** `--name`, with no `=` in the name, is a bare long flag. */
  lemma ClassifyLongSwitch(name: string)
    requires '=' !in name
    ensures Classify("--" + name) == Long(name, None)
  {
    var t := "--" + name;
    assert '=' !in t by {
      forall k | 0 <= k < |t| ensures t[k] != '=' {
        if k >= 2 { assert t[k] == name[k - 2]; }
      }
    }
    StrposFacts(t, '=');
    assert t[..2] == "--";
    assert t[2..] == name;
  }

  /** `-x=value` is a valued short flag named by the one character x. */
  lemma ClassifyShortValue(x: char, v: string)
    requires x != '-'
    ensures Classify(['-', x, '='] + v) == ShortValue([x], v)
  {
    var t := ['-', x, '='] + v;
    assert t[..2] != "--" by { assert t[..2][1] == x; }
    assert t[1..2] == [x];
    assert t[3..] == v;
  }

  /** `-abc` (no second dash, no `=` in third place) is a run of short flags, one per character. */
  lemma ClassifyShorts(cs: string)
    requires cs != [] && cs[0] != '-' && (|cs| >= 2 ==> cs[1] != '=')
    ensures Classify("-" + cs) == Shorts(StrSplit(cs))
  {
    var t := "-" + cs;
    assert t[..2] != "--" by { assert t[1] == cs[0]; }
    assert |t| >= 3 ==> t[2] == cs[1];
    assert t[1..] == cs;
  }

  /**
   * A flag letter of two bytes followed by `=v`, as in `-é=v` in UTF-8: the
   * byte at position 2 is the letter's second byte, not `=`, so every byte
   * after the dash, `=` and the value included, becomes a switch.
   */
  lemma TwoByteShortValue(b1: char, b2: char, v: string)
    requires b1 != '-' && b2 != '='
    ensures Classify(['-', b1, b2, '='] + v) == Shorts(StrSplit([b1, b2, '='] + v))
  {
    ClassifyShorts([b1, b2, '='] + v);
    assert "-" + ([b1, b2, '='] + v) == ['-', b1, b2, '='] + v;
  }

  /** `--name=value` sets name to value whatever it held before (the last one wins), and nothing else. */
  lemma LongValueWins(tokens: seq<string>, name: string, v: string)
    requires '=' !in name
    ensures var d := Parse(tokens + ["--" + name + "=" + v]).entries;
      && Lookup(d, KeyOf(name)) == Some(Text(v))
      && forall j :: j != KeyOf(name) ==> Lookup(d, j) == Lookup(Parse(tokens).entries, j)
  {
    var t := "--" + name + "=" + v;
    assert (tokens + [t])[..|tokens|] == tokens;
    ClassifyLongValue(name, v);
    PutLookup(Parse(tokens).entries, KeyOf(name), Text(v));
  }

  /** A bare `--name` sets name to true only when it is not set yet, and touches nothing else. */
  lemma LongSwitchKeeps(tokens: seq<string>, name: string)
    requires '=' !in name
    ensures var before := Parse(tokens).entries;
      var d := Parse(tokens + ["--" + name]).entries;
      && Lookup(d, KeyOf(name)) == (if Lookup(before, KeyOf(name)).Some? then Lookup(before, KeyOf(name)) else Some(Switch(true)))
      && forall j :: j != KeyOf(name) ==> Lookup(d, j) == Lookup(before, j)
  {
    var t := "--" + name;
    assert (tokens + [t])[..|tokens|] == tokens;
    ClassifyLongSwitch(name);
    PutLookup(Parse(tokens).entries, KeyOf(name), Switch(true));
  }

  /** `-x=value` sets x to value whatever it held before, and nothing else. */
  lemma ShortValueWins(tokens: seq<string>, x: char, v: string)
    requires x != '-'
    ensures var d := Parse(tokens + [['-', x, '='] + v]).entries;
      && Lookup(d, KeyOf([x])) == Some(Text(v))
      && forall j :: j != KeyOf([x]) ==> Lookup(d, j) == Lookup(Parse(tokens).entries, j)
  {
    var t := ['-', x, '='] + v;
    assert (tokens + [t])[..|tokens|] == tokens;
    ClassifyShortValue(x, v);
    PutLookup(Parse(tokens).entries, KeyOf([x]), Text(v));
  }

  /** Whether one of the names maps to the key j. */
  ghost predicate Names(names: seq<string>, j: Key)
  {
    exists k :: 0 <= k < |names| && KeyOf(names[k]) == j
  }

  /** The `-abc` loop: every name not yet set becomes true; set keys and other keys keep their values. */
  lemma {:induction false} SetAllLookup(p: Parsed, names: seq<string>, j: Key)
    ensures Lookup(SetAllIfAbsent(p, names).entries, j) ==
      if Lookup(p.entries, j).Some? then Lookup(p.entries, j)
      else if Names(names, j) then Some(Switch(true))
      else None
    decreases |names|
  {
    if names != [] {
      var init := names[..|names| - 1];
      var n := names[|names| - 1];
      SetAllLookup(p, init, j);
      var q := SetAllIfAbsent(p, init);
      if Lookup(q.entries, KeyOf(n)).None? {
        PutLookup(q.entries, KeyOf(n), Switch(true));
      }
      if Names(init, j) {
        var k :| 0 <= k < |init| && KeyOf(init[k]) == j;
        assert names[k] == init[k];
      }
      if Names(names, j) && !Names(init, j) {
        var k :| 0 <= k < |names| && KeyOf(names[k]) == j;
        assert k == |init| by {
          assert forall m :: 0 <= m < |init| ==> init[m] == names[m];
        }
      }
      if KeyOf(n) == j {
        assert KeyOf(names[|names| - 1]) == j;
      }
    }
  }

  /** `-bc` sets b and c to true unless already set, and touches nothing else. */
  lemma ShortsSetEach(tokens: seq<string>, cs: string, j: Key)
    requires cs != [] && cs[0] != '-' && (|cs| >= 2 ==> cs[1] != '=')
    ensures var before := Lookup(Parse(tokens).entries, j);
      Lookup(Parse(tokens + ["-" + cs]).entries, j) ==
        if before.Some? then before
        else if exists k :: 0 <= k < |cs| && KeyOf([cs[k]]) == j then Some(Switch(true))
        else None
  {
    var t := "-" + cs;
    assert (tokens + [t])[..|tokens|] == tokens;
    ClassifyShorts(cs);
    SetAllLookup(Parse(tokens), StrSplit(cs), j);
    ShortsNames(cs, j);
  }

  /** A key is among the names of a short run exactly when one of its letters gives it. */
  lemma ShortsNames(cs: string, j: Key)
    requires cs != []
    ensures Names(StrSplit(cs), j) <==> exists k :: 0 <= k < |cs| && KeyOf([cs[k]]) == j
  {
    var names := StrSplit(cs);
    if exists k :: 0 <= k < |cs| && KeyOf([cs[k]]) == j {
      var k :| 0 <= k < |cs| && KeyOf([cs[k]]) == j;
      assert KeyOf(names[k]) == j;
    }
    if Names(names, j) {
      var k :| 0 <= k < |names| && KeyOf(names[k]) == j;
      assert KeyOf([cs[k]]) == j;
    }
  }

  lemma ParseSnoc(tokens: seq<string>, t: string)
    ensures Parse(tokens + [t]) == ParseToken(Parse(tokens), t)
  {
    assert (tokens + [t])[..|tokens|] == tokens;
  }

  /** Setting a string key that is not there yet appends one entry. */
  lemma SetFresh(p: Parsed, name: string, v: FlagValue)
    requires KeyOf(name) == Name(name) && Lookup(p.entries, Name(name)) == None
    ensures Set(p, name, v) == Parsed(p.entries + [(Name(name), v)], p.next)
    ensures SetIfAbsent(p, name) == Parsed(p.entries + [(Name(name), Switch(true))], p.next)
  {
    PutAbsent(p.entries, Name(name), v);
    PutAbsent(p.entries, Name(name), Switch(true));
  }

  /** A token that does not start with a dash is a value: it is appended under the next integer key. */
  lemma ParseAppendValue(tokens: seq<string>, v: string)
    requires v == [] || v[0] != '-'
    ensures Parse(tokens + [v]) == Parsed(Parse(tokens).entries + [(Index(Parse(tokens).next), Text(v))], Parse(tokens).next + 1)
  {
    ParseSnoc(tokens, v);
    ParseValid(tokens);
    ValueToken(Parse(tokens), v);
  }

  /** A value token is pushed under the next integer key. */
  lemma ValueToken(p: Parsed, v: string)
    requires ParsedValid(p) && (v == [] || v[0] != '-')
    ensures ParseToken(p, v) == Parsed(p.entries + [(Index(p.next), Text(v))], p.next + 1)
  {
    assert Classify(v) == Value(v);
    PushAppends(p, v);
  }

  /** A flag token that sets one string key not set before appends that one entry. */
  lemma ParseAppendFlag(tokens: seq<string>, t: string, name: string, v: FlagValue)
    requires KeyOf(name) == Name(name) && Lookup(Parse(tokens).entries, Name(name)) == None
    requires || (Classify(t) == Long(name, None) && v == Switch(true))
             || (Classify(t).Long? && Classify(t).name == name && Classify(t).given.Some? && v == Text(Classify(t).given.value))
             || (Classify(t).ShortValue? && Classify(t).name == name && v == Text(Classify(t).text))
             || (Classify(t) == Shorts([name]) && v == Switch(true))
    ensures Parse(tokens + [t]) == Parsed(Parse(tokens).entries + [(Name(name), v)], Parse(tokens).next)
  {
    ParseSnoc(tokens, t);
    FlagToken(Parse(tokens), t, name, v);
  }

  lemma FlagToken(p: Parsed, t: string, name: string, v: FlagValue)
    requires KeyOf(name) == Name(name) && Lookup(p.entries, Name(name)) == None
    requires || (Classify(t) == Long(name, None) && v == Switch(true))
             || (Classify(t).Long? && Classify(t).name == name && Classify(t).given.Some? && v == Text(Classify(t).given.value))
             || (Classify(t).ShortValue? && Classify(t).name == name && v == Text(Classify(t).text))
             || (Classify(t) == Shorts([name]) && v == Switch(true))
    ensures ParseToken(p, t) == Parsed(p.entries + [(Name(name), v)], p.next)
  {
    SetFresh(p, name, v);
    if Classify(t).Shorts? {
      assert SetAllIfAbsent(p, [name]) == SetIfAbsent(SetAllIfAbsent(p, []), name) by {
        assert [name][..0] == [];
      }
    }
  }

  /** A run `-xy` of two short flags not set before appends both, in order. */
  lemma ParseAppendPair(tokens: seq<string>, t: string, x: string, y: string)
    requires KeyOf(x) == Name(x) && KeyOf(y) == Name(y) && x != y
    requires Lookup(Parse(tokens).entries, Name(x)) == None && Lookup(Parse(tokens).entries, Name(y)) == None
    requires Classify(t) == Shorts([x, y])
    ensures Parse(tokens + [t]) == Parsed(Parse(tokens).entries + [(Name(x), Switch(true)), (Name(y), Switch(true))], Parse(tokens).next)
  {
    ParseSnoc(tokens, t);
    PairToken(Parse(tokens), x, y);
  }

  lemma PairToken(p: Parsed, x: string, y: string)
    requires KeyOf(x) == Name(x) && KeyOf(y) == Name(y) && x != y
    requires Lookup(p.entries, Name(x)) == None && Lookup(p.entries, Name(y)) == None
    ensures SetAllIfAbsent(p, [x, y]) == Parsed(p.entries + [(Name(x), Switch(true)), (Name(y), Switch(true))], p.next)
  {
    SetAllPair(p, x, y);
    SetFresh(p, x, Switch(true));
    var q := Parsed(p.entries + [(Name(x), Switch(true))], p.next);
    assert Lookup(q.entries, Name(y)) == None by {
      LookupConcat(p.entries, [(Name(x), Switch(true))], Name(y));
    }
    SetFresh(q, y, Switch(true));
    assert q.entries + [(Name(y), Switch(true))] == p.entries + [(Name(x), Switch(true)), (Name(y), Switch(true))];
  }

  /** The inner loop over two characters handles the first, then the second. */
  lemma SetAllPair(p: Parsed, x: string, y: string)
    ensures SetAllIfAbsent(p, [x, y]) == SetIfAbsent(SetIfAbsent(p, x), y)
  {
    assert SetAllIfAbsent(p, [x]) == SetIfAbsent(p, x) by {
      assert [x][..0] == [];
    }
    assert SetAllIfAbsent(p, [x, y]) == SetIfAbsent(SetAllIfAbsent(p, [x]), y) by {
      assert [x, y][..1] == [x];
    }
  }

  /** Whether no entry carries the key. */
  predicate Fresh(d: seq<(Key, FlagValue)>, k: Key)
  {
    forall i :: 0 <= i < |d| ==> d[i].0 != k
  }

  /**
   * `parseArguments`: the tokens sorted into flags and values, with the
   * array built up entry by entry as the source does.
   */
  method ParseArguments(arguments: seq<string>) returns (r: Parsed)
    ensures r == Parse(arguments)
  {
    var parsed: seq<(Key, FlagValue)> := [];
    var next := 0;
    var i := 0;
    while i < |arguments|
      invariant 0 <= i <= |arguments|
      invariant Parsed(parsed, next) == Parse(arguments[..i])
    {
      var argument := arguments[i];
      assert arguments[..i + 1] == arguments[..i] + [argument];
      ParseSnoc(arguments[..i], argument);
      parsed, next := ParseArgument(parsed, next, argument);
      i := i + 1;
    }
    assert arguments[..i] == arguments;
    return Parsed(parsed, next);
  }

  /** `$parsedArguments[$key] = $value`, with the next free integer key kept up to date. */
  method Assign(parsed: seq<(Key, FlagValue)>, next: int, key: Key, value: FlagValue)
    returns (parsed': seq<(Key, FlagValue)>, next': int)
    ensures parsed' == Put(parsed, key, value)
    ensures next' == if key.Index? && key.i >= next then key.i + 1 else next
  {
    parsed' := Put(parsed, key, value);
    next' := next;
    if key.Index? && key.i >= next {
      next' := key.i + 1;
    }
  }

  /** The body of the loop of parseArguments, for one token. */
  method ParseArgument(parsed: seq<(Key, FlagValue)>, next: int, argument: string)
    returns (parsed': seq<(Key, FlagValue)>, next': int)
    ensures Parsed(parsed', next') == ParseToken(Parsed(parsed, next), argument)
  {
    parsed', next' := parsed, next;
    if |argument| >= 2 && argument[..2] == "--" {
      var eqPos := Strpos(argument, '=');
      if eqPos.None? {
        var key := KeyOf(argument[2..]);
        assert Classify(argument) == Long(argument[2..], None);
        if Lookup(parsed, key).None? {
          parsed', next' := Assign(parsed, next, key, Switch(true));
        }
      } else {
        StrposFacts(argument, '=');
        assert eqPos.value >= 2 by { assert argument[0] == '-' && argument[1] == '-'; }
        var key := KeyOf(argument[2..eqPos.value]);
        assert Classify(argument) == Long(argument[2..eqPos.value], Some(argument[eqPos.value + 1..]));
        parsed', next' := Assign(parsed, next, key, Text(argument[eqPos.value + 1..]));
      }
    } else if |argument| >= 1 && argument[0] == '-' {
      if |argument| >= 3 && argument[2] == '=' {
        var key := KeyOf(argument[1..2]);
        assert Classify(argument) == ShortValue(argument[1..2], argument[3..]);
        parsed', next' := Assign(parsed, next, key, Text(argument[3..]));
      } else {
        var flags := StrSplit(argument[1..]);
        assert Classify(argument) == Shorts(flags);
        parsed', next' := SetShorts(parsed, next, flags);
      }
    } else {
      assert Classify(argument) == Value(argument);
      parsed' := Put(parsed, Index(next), Text(argument));
      next' := next + 1;
    }
  }

  /** The inner loop of parseArguments over the letters of `-abc`: each set to true unless already set. */
  method SetShorts(parsed: seq<(Key, FlagValue)>, next: int, flags: seq<string>)
    returns (parsed': seq<(Key, FlagValue)>, next': int)
    ensures Parsed(parsed', next') == SetAllIfAbsent(Parsed(parsed, next), flags)
  {
    parsed', next' := parsed, next;
    var m := 0;
    while m < |flags|
      invariant 0 <= m <= |flags|
      invariant Parsed(parsed', next') == SetAllIfAbsent(Parsed(parsed, next), flags[..m])
    {
      assert flags[..m + 1][..m] == flags[..m];
      var key := KeyOf(flags[m]);
      if Lookup(parsed', key).None? {
        parsed', next' := Assign(parsed', next', key, Switch(true));
      }
      m := m + 1;
    }
    assert flags[..m] == flags;
  }

  // ---------------------------------------------------------------------
  // getCommandInput
  // ---------------------------------------------------------------------

  /** `is_numeric($key)` on a key of the parsed array: integer keys always are. */
  predicate IsNumericKey(k: Key)
  {
    k.Index? || IsNumeric(k.s)
  }

  /** What the loop of getCommandInput has built so far. */
  datatype Dealt = Dealt(command: string, arguments: seq<string>, flags: seq<(string, FlagValue)>, offset: int)

  /**
   * The loop of getCommandInput over the parsed array: numeric entries go to
   * the command while the offset is non-zero (counting it down), then to the
   * arguments; every other entry is a flag.
   */
  function Deal(entries: seq<(Key, FlagValue)>, command: string, offset: int): Dealt
  {
    if entries == [] then Dealt(command, [], [], offset)
    else DealEntry(Deal(entries[..|entries| - 1], command, offset), entries[|entries| - 1])
  }

  /** One pass of that loop. */
  function DealEntry(d: Dealt, entry: (Key, FlagValue)): Dealt
  {
    var (key, value) := entry;
    if IsNumericKey(key) then
      if d.offset != 0 then d.(command := d.command + " " + ValueText(value), offset := d.offset - 1)
      else d.(arguments := d.arguments + [ValueText(value)])
    else d.(flags := Put(d.flags, key.s, value))
  }

  /** The values under numeric keys, in order, as strings. */
  function NumericValues(entries: seq<(Key, FlagValue)>): seq<string>
  {
    if entries == [] then []
    else
      var (key, value) := entries[|entries| - 1];
      NumericValues(entries[..|entries| - 1]) + (if IsNumericKey(key) then [ValueText(value)] else [])
  }

  /** The dealt state after the numeric values vs: the first m on the command, the rest as arguments. */
  ghost predicate SplitAt(d: Dealt, command: string, vs: seq<string>, offset: int)
  {
    var m := if offset < 0 then |vs| else Min(offset, |vs|);
    && d.command == Implode(" ", [command] + vs[..m])
    && d.arguments == vs[m..]
    && d.offset == offset - m
  }

  lemma DealNumericStep(d: Dealt, command: string, vs: seq<string>, offset: int, v: string)
    requires SplitAt(d, command, vs, offset)
    ensures SplitAt(if d.offset != 0 then d.(command := d.command + " " + v, offset := d.offset - 1)
                    else d.(arguments := d.arguments + [v]), command, vs + [v], offset)
  {
    var m := if offset < 0 then |vs| else Min(offset, |vs|);
    var vs' := vs + [v];
    if d.offset != 0 {
      assert m == |vs|;
      assert vs'[..m + 1] == vs' && vs[..m] == vs;
      var parts := [command] + vs + [v];
      assert parts[..|parts| - 1] == [command] + vs;
      assert [command] + vs' == parts;
    } else {
      assert vs'[..m] == vs[..m];
      assert vs'[m..] == vs[m..] + [v];
    }
  }

  /**
   * The first `offset` numeric values are joined onto the command with single
   * spaces and the rest become the arguments, in order; a negative offset
   * (truthy for ever) takes them all.
   */
  lemma {:induction false} DealSplit(entries: seq<(Key, FlagValue)>, command: string, offset: int)
    ensures SplitAt(Deal(entries, command, offset), command, NumericValues(entries), offset)
    decreases |entries|
  {
    if entries == [] {
      assert [command] + [] == [command];
    } else {
      var init := entries[..|entries| - 1];
      var (key, value) := entries[|entries| - 1];
      DealSplit(init, command, offset);
      var d := Deal(init, command, offset);
      var vs := NumericValues(init);
      if IsNumericKey(key) {
        var v := ValueText(value);
        assert NumericValues(entries) == vs + [v];
        assert Deal(entries, command, offset) ==
          if d.offset != 0 then d.(command := d.command + " " + v, offset := d.offset - 1)
          else d.(arguments := d.arguments + [v]);
        DealNumericStep(d, command, vs, offset, v);
      } else {
        assert NumericValues(entries) == vs by {
          assert NumericValues(entries) == vs + [];
          assert vs + [] == vs;
        }
        var d' := d.(flags := Put(d.flags, key.s, value));
        assert Deal(entries, command, offset) == d';
        assert SplitAt(d', command, vs, offset) by {
          assert d'.command == d.command && d'.arguments == d.arguments && d'.offset == d.offset;
        }
      }
    }
  }

  /** A flag is kept under its name exactly when the name is not numeric. */
  lemma {:induction false} DealFlags(entries: seq<(Key, FlagValue)>, command: string, offset: int, n: string)
    requires UniqueKeys(entries)
    ensures Lookup(Deal(entries, command, offset).flags, n) == if IsNumeric(n) then None else Lookup(entries, Name(n))
    decreases |entries|
  {
    if entries != [] {
      var init := entries[..|entries| - 1];
      var (key, value) := entries[|entries| - 1];
      assert init + [(key, value)] == entries;
      assert UniqueKeys(init);
      DealFlags(init, command, offset, n);
      LookupConcat(init, [(key, value)], Name(n));
      var flags := Deal(init, command, offset).flags;
      if !IsNumericKey(key) {
        PutLookup(flags, key.s, value);
        if key == Name(n) {
          LookupFound(init, key);
        }
      }
    }
  }

  lemma {:induction false} DealUnique(entries: seq<(Key, FlagValue)>, command: string, offset: int)
    ensures UniqueKeys(Deal(entries, command, offset).flags)
    decreases |entries|
  {
    if entries != [] {
      var init := entries[..|entries| - 1];
      DealUnique(init, command, offset);
      var (key, value) := entries[|entries| - 1];
      if !IsNumericKey(key) {
        PutUnique(Deal(init, command, offset).flags, key.s, value);
      }
    }
  }

  /** What getCommandInput passes to `new CommandInput(...)`. */
  datatype Parts = Parts(fullCommand: string, command: Option<string>, arguments: Slots, flags: seq<(string, FlagValue)>)

  /**
   * `getCommandInput($line, $argumentOffset)`: a line without a space is a
   * bare command; otherwise the first word and `offset` numeric values make
   * the command, the remaining numeric values are arguments 0, 1, ... and the
   * rest are flags.
   */
  function CommandParts(line: string, offset: int): Parts
  {
    match Strpos(line, ' ')
    case None => Parts(line, None, [], [])
    case Some(position) =>
      StrposFacts(line, ' ');
      var d := Deal(Parse(Tokens(line[position..])).entries, line[..position], offset);
      Parts(line, Some(d.command), Numbered(0, d.arguments), d.flags)
  }

  /** A line without a space is the command itself, with no arguments and no flags. */
  lemma NoSpaceCommand(line: string)
    requires ' ' !in line
    ensures CommandParts(line, 0) == Parts(line, None, [], [])
    ensures forall offset :: CommandParts(line, offset) == Parts(line, None, [], [])
  {
    StrposFacts(line, ' ');
  }

  /** Tokens whose flag names are all plain names, none of them numeric. */
  predicate NumericFree(tokens: seq<string>)
  {
    forall k :: 0 <= k < |tokens| ==> NamedFlags(Classify(tokens[k])) && !NumericFlag(Classify(tokens[k]))
  }

  predicate NumericFlag(tok: Token)
  {
    match tok
    case Value(_) => false
    case Long(name, _) => IsNumeric(name)
    case ShortValue(name, _) => IsNumeric(name)
    case Shorts(names) => exists k :: 0 <= k < |names| && IsNumeric(names[k])
  }

  lemma {:induction false} NumericValuesConcat(a: seq<(Key, FlagValue)>, b: seq<(Key, FlagValue)>)
    ensures NumericValues(a + b) == NumericValues(a) + NumericValues(b)
    decreases |b|
  {
    if b == [] {
      assert a + b == a;
    } else {
      var init := b[..|b| - 1];
      assert (a + b)[..|a + b| - 1] == a + init;
      NumericValuesConcat(a, init);
    }
  }

  /** Setting a string key that is not numeric leaves the numeric values alone. */
  lemma {:induction false} NumericValuesPutName(d: seq<(Key, FlagValue)>, n: string, v: FlagValue)
    requires !IsNumeric(n)
    ensures NumericValues(Put(d, Name(n), v)) == NumericValues(d)
    decreases |d|
  {
    if d == [] {
      assert NumericValues([(Name(n), v)]) == NumericValues([]) + [];
    } else if d[0].0 == Name(n) {
      NumericValuesConcat([(Name(n), v)], d[1..]);
      NumericValuesConcat([d[0]], d[1..]);
      assert [d[0]] + d[1..] == d;
      assert NumericValues([(Name(n), v)]) == NumericValues([]) + [];
      assert NumericValues([d[0]]) == NumericValues([]) + [];
    } else {
      NumericValuesPutName(d[1..], n, v);
      NumericValuesConcat([d[0]], Put(d[1..], Name(n), v));
      NumericValuesConcat([d[0]], d[1..]);
      assert [d[0]] + d[1..] == d;
    }
  }

  lemma {:induction false} SetAllNumericFree(p: Parsed, names: seq<string>)
    requires forall k :: 0 <= k < |names| ==> KeyOf(names[k]).Name? && !IsNumeric(names[k])
    ensures NumericValues(SetAllIfAbsent(p, names).entries) == NumericValues(p.entries)
    ensures SetAllIfAbsent(p, names).next == p.next
    decreases |names|
  {
    if names != [] {
      var init := names[..|names| - 1];
      assert forall k :: 0 <= k < |init| ==> init[k] == names[k];
      SetAllNumericFree(p, init);
      var q := SetAllIfAbsent(p, init);
      var n := names[|names| - 1];
      NumericValuesPutName(q.entries, n, Switch(true));
    }
  }

  lemma ParseTokenNumeric(p: Parsed, t: string)
    requires ParsedValid(p) && NamedFlags(Classify(t)) && !NumericFlag(Classify(t))
    ensures NumericValues(ParseToken(p, t).entries) ==
      NumericValues(p.entries) + (if Classify(t).Value? then [t] else [])
  {
    match Classify(t)
    case Value(v) =>
      PushAppends(p, v);
      NumericValuesConcat(p.entries, [(Index(p.next), Text(v))]);
      assert NumericValues([(Index(p.next), Text(v))]) == NumericValues([]) + [v];
    case Long(name, None) =>
      NumericValuesPutName(p.entries, name, Switch(true));
    case Long(name, Some(v)) =>
      NumericValuesPutName(p.entries, name, Text(v));
    case ShortValue(name, v) =>
      NumericValuesPutName(p.entries, name, Text(v));
    case Shorts(names) =>
      SetAllNumericFree(p, names);
  }

  /** When no flag name is numeric, the numeric values of parseArguments are the plain tokens, in order. */
  lemma {:induction false} ParseNumericValues(tokens: seq<string>)
    requires NumericFree(tokens)
    ensures NumericValues(Parse(tokens).entries) == Plain(tokens)
    decreases |tokens|
  {
    if tokens != [] {
      var init := tokens[..|tokens| - 1];
      var t := tokens[|tokens| - 1];
      assert forall k :: 0 <= k < |init| ==> init[k] == tokens[k];
      ParseNumericValues(init);
      ParseValid(init);
      ParseTokenNumeric(Parse(init), t);
    }
  }

  /**
   * With a space in the line and no numeric flag name, the command is the
   * first word followed by the first `offset` values, joined by single
   * spaces; the remaining values are arguments 0, 1, ... in order; and each
   * flag holds what parseArguments gave it.
   */
  lemma CommandOffset(line: string, offset: nat, position: nat)
    requires position < |line| && line[position] == ' ' && ' ' !in line[..position]
    requires NumericFree(Tokens(line[position..]))
    ensures var vs := Plain(Tokens(line[position..]));
      var m := Min(offset, |vs|);
      var parts := CommandParts(line, offset);
      && parts.fullCommand == line
      && parts.command == Some(Implode(" ", [line[..position]] + vs[..m]))
      && parts.arguments == Numbered(0, vs[m..])
      && forall n :: Lookup(parts.flags, n) ==
           if IsNumeric(n) then None else Lookup(Parse(Tokens(line[position..])).entries, Name(n))
  {
    StrposAt(line, ' ', position);
    var tokens := Tokens(line[position..]);
    var entries := Parse(tokens).entries;
    ParseNumericValues(tokens);
    DealSplit(entries, line[..position], offset);
    ParseValid(tokens);
    forall n ensures Lookup(CommandParts(line, offset).flags, n) ==
      if IsNumeric(n) then None else Lookup(entries, Name(n))
    {
      DealFlags(entries, line[..position], offset, n);
    }
  }

  /**
   * The loop of getCommandInput over the parsed array: the command grows by
   * the first `offset` numeric values, the other numeric values become
   * arguments 0, 1, ... and every other entry is a flag.
   */
  method DealEntries(entries: seq<(Key, FlagValue)>, head: string, offset: int)
    returns (command: string, arguments: Slots, flags: seq<(string, FlagValue)>)
    ensures var d := Deal(entries, head, offset);
      command == d.command && arguments == Numbered(0, d.arguments) && flags == d.flags
    ensures UniqueKeys(arguments) && UniqueKeys(flags)
  {
    command := head;
    arguments := [];
    flags := [];
    var argumentOffset := offset;
    ghost var values: seq<string> := [];
    var k := 0;
    while k < |entries|
      invariant 0 <= k <= |entries|
      invariant Dealt(command, values, flags, argumentOffset) == Deal(entries[..k], head, offset)
      invariant arguments == Numbered(0, values)
    {
      assert entries[..k + 1][..k] == entries[..k];
      ghost var before := Dealt(command, values, flags, argumentOffset);
      var (key, value) := entries[k];
      if IsNumericKey(key) {
        if argumentOffset != 0 {
          command := command + " " + ValueText(value);
          argumentOffset := argumentOffset - 1;
        } else {
          NumberedSnoc(values, ValueText(value));
          arguments := arguments + [(Index(|arguments|), ValueText(value))];
          values := values + [ValueText(value)];
        }
      } else {
        flags := Put(flags, key.s, value);
      }
      assert Dealt(command, values, flags, argumentOffset) == DealEntry(before, entries[k]);
      k := k + 1;
    }
    assert entries[..k] == entries;
    DealUnique(entries, head, offset);
    NumberedUnique(0, values);
  }

  /** Appending a value to the numbered arguments appends it under the next index. */
  lemma NumberedSnoc(values: seq<string>, v: string)
    ensures Numbered(0, values + [v]) == Numbered(0, values) + [(Index(|values|), v)]
  {
  }

  /**
   * `getCommandInput`: splits off the command word, tokenizes and parses the
   * rest, and sorts the parsed entries into command words, arguments and flags.
   */
  method GetCommandInput(line: string, offset: int) returns (ci: CommandInput)
    ensures fresh(ci) && ci.input == None && ci.Valid()
    ensures var parts := CommandParts(line, offset);
      && ci.fullCommand == parts.fullCommand
      && ci.command == (if parts.command.Some? then parts.command.value else line)
      && ci.arguments == parts.arguments && ci.flags == parts.flags
  {
    var position := Strpos(line, ' ');
    if position.None? {
      ci := new CommandInput(line, None, [], []);
      return;
    }
    StrposFacts(line, ' ');
    var rest := line[position.value..];
    var tokens := GetArguments(Str(rest));
    var parsed := ParseArguments(tokens.value);
    assert parsed == Parse(Tokens(line[position.value..]));
    var command, arguments, flags := DealEntries(parsed.entries, line[..position.value], offset);
    ci := new CommandInput(line, Some(command), arguments, flags);
  }

  /** A non-empty word that `trim` leaves alone. */
  predicate Untrimmed(w: string)
  {
    w != "" && !IsTrimChar(w[0]) && !IsTrimChar(w[|w| - 1])
  }

  lemma {:induction false} NoQuoteImplode(parts: seq<string>)
    requires forall k :: 0 <= k < |parts| ==> NoQuote(parts[k])
    ensures NoQuote(Implode(" ", parts))
    decreases |parts|
  {
    if |parts| > 1 {
      var init := parts[..|parts| - 1];
      assert forall k :: 0 <= k < |init| ==> init[k] == parts[k];
      NoQuoteImplode(init);
      var a := Implode(" ", init);
      var w := parts[|parts| - 1];
      assert NoQuote(w);
      forall k | 0 <= k < |a + " " + w| ensures !IsQuote((a + " " + w)[k]) {
        if k < |a| {
          assert (a + " " + w)[k] == a[k];
        } else if k > |a| {
          assert (a + " " + w)[k] == w[k - |a| - 1];
        }
      }
    }
  }

  lemma {:induction false} CleanUpWords(ws: seq<string>)
    requires forall k :: 0 <= k < |ws| ==> Untrimmed(ws[k])
    ensures CleanUp(ws) == ws
    decreases |ws|
  {
    if ws != [] {
      var init := ws[..|ws| - 1];
      var w := ws[|ws| - 1];
      assert forall k :: 0 <= k < |init| ==> init[k] == ws[k];
      CleanUpWords(init);
      CleanUpLast(ws);
      assert Untrimmed(w);
      TrimKeeps(w);
      assert Cleaned(w) == [w];
      assert init + [w] == ws;
    }
  }

  /** A line of words after a leading space, with no quotes and nothing to trim, tokenizes into exactly those words. */
  lemma SpacedWordsTokens(ws: seq<string>)
    requires forall k :: 0 <= k < |ws| ==> Untrimmed(ws[k]) && NoSpace(ws[k]) && NoQuote(ws[k])
    ensures Tokens(Implode(" ", [""] + ws)) == ws
  {
    var parts := [""] + ws;
    forall k | 0 <= k < |parts| ensures NoQuote(parts[k]) && NoSpace(parts[k]) {
      if k > 0 {
        assert parts[k] == ws[k - 1];
      }
    }
    var line := Implode(" ", parts);
    assert NoQuote(line) by {
      NoQuoteImplode(parts);
    }
    assert Explode(line) == parts by {
      ExplodeImplode(parts);
    }
    NoQuoteTokens(line);
    assert CleanUp([""]) == [] by {
      TrimEmpty("");
      CleanUpLast([""]);
      assert [""][..0] == [];
    }
    CleanUpConcat([""], ws);
    CleanUpWords(ws);
  }

  // ---------------------------------------------------------------------
  // The line ArgumentInput builds, read back by getArguments
  // ---------------------------------------------------------------------

  /** An argv element with nothing to trim and no character that `addslashes` escapes. */
  predicate ArgvWord(w: string)
  {
    Untrimmed(w) && forall k :: 0 <= k < |w| ==> !NeedsSlash(w[k])
  }

  lemma ArgvWordQuote(w: string)
    requires ArgvWord(w)
    ensures NoQuote(w) && '"' !in w && (w != [] ==> w[|w| - 1] != '\\')
    ensures ' ' in w ==> Input.Quote(w) == ['"'] + w + ['"']
    ensures ' ' !in w ==> Input.Quote(w) == w && NoSpace(w)
  {
    assert forall k :: 0 <= k < |w| ==> w[k] != '"';
    if ' ' in w {
      AddSlashesPlain(w);
    }
  }

  /** One element as ArgumentInput writes it, scanned from a state between arguments. */
  lemma RunArgument(st: Scan, w: string)
    requires st.open == None && st.current == "" && ArgvWord(w)
    ensures var r := Run(st, Input.Quote(w));
      && r.open == None && NoSpace(r.current)
      && r.pieces + [r.current] == st.pieces + (if ' ' in w then [w, ""] else [w])
  {
    ArgvWordQuote(w);
    if ' ' in w {
      QuotedSegment(st, '"', w);
      assert st.current + w == w;
    } else {
      RunPlainWord(st, w);
    }
  }

  /** A word without spaces or quotes, scanned from a state between arguments, becomes the current argument. */
  lemma RunPlainWord(st: Scan, w: string)
    requires st.open == None && st.current == "" && NoQuote(w) && NoSpace(w)
    ensures var r := Run(st, w);
      r.open == None && NoSpace(r.current) && r.pieces + [r.current] == st.pieces + [w]
  {
    RunPlain(st, w);
    assert st.current + w == w;
    ExplodeWord(w);
    var r := Run(st, w);
    assert r.current == w by {
      assert (r.pieces + [r.current])[|r.pieces|] == r.current;
      assert (st.pieces + [w])[|st.pieces|] == w;
    }
  }

  /** What one element leaves behind is that element once cleaned up. */
  lemma ArgumentPieces(w: string)
    requires ArgvWord(w)
    ensures CleanUp(if ' ' in w then [w, ""] else [w]) == [w]
  {
    CleanUpWords([w]);
    if ' ' in w {
      CleanUpLast([w, ""]);
      assert [w, ""][..1] == [w];
      TrimEmpty("");
    }
  }

  /** A space and one more element after a line scanned outside any quote add that element. */
  lemma ArgvStep(a: string, w: string)
    requires Run(Start, a).open == None && NoSpace(Run(Start, a).current) && ArgvWord(w)
    ensures var s0 := Run(Start, a);
      var r := Run(Start, a + " " + Input.Quote(w));
      && r.open == None && NoSpace(r.current)
      && CleanUp(r.pieces + [r.current]) == CleanUp(s0.pieces + [s0.current]) + [w]
  {
    var s0 := Run(Start, a);
    var s1 := Run(Start, a + " ");
    assert s1 == Step(s0, ' ') by {
      RunConcat(Start, a, " ");
      assert " "[..0] == [];
    }
    RunArgument(s1, w);
    RunConcat(Start, a + " ", Input.Quote(w));
    ArgumentPieces(w);
    CleanUpConcat(s0.pieces + [s0.current], if ' ' in w then [w, ""] else [w]);
  }

  lemma {:induction false} RunArgv(ws: seq<string>)
    requires ws != [] && forall k :: 0 <= k < |ws| ==> ArgvWord(ws[k])
    ensures var r := Run(Start, Implode(" ", Input.QuoteAll(ws)));
      r.open == None && NoSpace(r.current) && CleanUp(r.pieces + [r.current]) == ws
    decreases |ws|
  {
    var w := ws[|ws| - 1];
    if |ws| == 1 {
      assert ws == [w];
      RunArgvOne(w);
    } else {
      var init := ws[..|ws| - 1];
      assert forall k :: 0 <= k < |init| ==> init[k] == ws[k];
      RunArgv(init);
      QuoteAllLine(ws);
      ArgvStep(Implode(" ", Input.QuoteAll(init)), w);
      SplitLast(ws);
    }
  }

  /** A single argument is read back as itself. */
  lemma RunArgvOne(w: string)
    requires ArgvWord(w)
    ensures var r := Run(Start, Implode(" ", Input.QuoteAll([w])));
      r.open == None && NoSpace(r.current) && CleanUp(r.pieces + [r.current]) == [w]
  {
    var q := Input.Quote(w);
    assert Implode(" ", Input.QuoteAll([w])) == q by {
      assert Input.QuoteAll([w]) == [q];
    }
    RunArgument(Start, w);
    ArgumentPieces(w);
    var r := Run(Start, q);
    assert r.pieces + [r.current] == (if ' ' in w then [w, ""] else [w]) by {
      assert Start.pieces == [];
    }
  }

  /** The line of several arguments is the line of all but the last, a space and the last one quoted. */
  lemma QuoteAllLine(ws: seq<string>)
    requires |ws| > 1
    ensures Implode(" ", Input.QuoteAll(ws)) == Implode(" ", Input.QuoteAll(ws[..|ws| - 1])) + " " + Input.Quote(ws[|ws| - 1])
  {
    var init := ws[..|ws| - 1];
    assert Input.QuoteAll(ws) == Input.QuoteAll(init) + [Input.Quote(ws[|ws| - 1])];
    ImplodeSnoc(" ", Input.QuoteAll(init), Input.Quote(ws[|ws| - 1]));
  }

  /**
   * The line ArgumentInput reads from its arguments gives those arguments
   * back when getArguments splits it, provided none of them has
   * whitespace at either end or a character that `addslashes` escapes.
   */
  lemma ArgvRoundTrip(argv: seq<string>)
    requires argv != [] && forall k :: 0 <= k < |argv| ==> ArgvWord(argv[k])
    ensures Tokens(Input.ArgvLine(Some(argv))) == argv
  {
    RunArgv(argv);
    var r := Run(Start, Input.ArgvLine(Some(argv)));
    if r.current == "" {
      var all := r.pieces + [r.current];
      CleanUpLast(all);
      assert all[..|all| - 1] == r.pieces;
      TrimEmpty("");
      assert CleanUp(all) == CleanUp(r.pieces) + [];
    }
  }

  lemma ImplodeThree(a: string, b: string, c: string)
    ensures Implode(" ", ["", a, b, c]) == " " + a + " " + b + " " + c
  {
    assert ["", a, b, c][..3] == ["", a, b];
    assert ["", a, b][..2] == ["", a];
    assert ["", a][..1] == [""];
    assert Implode(" ", ["", a]) == " " + a by {
      assert Implode(" ", ["", a]) == Implode(" ", [""]) + " " + a;
      assert "" + " " == " ";
    }
  }

  /** The line of the parser's own test: `command subcommand argument1 --flag1=value`. */
  const ExampleLine := "command" + " " + "subcommand" + " " + "argument1" + " " + "--flag1=value"

  lemma ExampleLineCommand()
    ensures ExampleLine == "command" + (" " + "subcommand" + " " + "argument1" + " " + "--flag1=value")
  {
    AppendAssoc("command", " " + "subcommand" + " " + "argument1" + " ", "--flag1=value");
  }

  lemma SplitAtSpace(line: string, command: string, rest: string)
    requires line == command + rest && rest != [] && rest[0] == ' ' && ' ' !in command
    ensures line[|command|] == ' ' && ' ' !in line[..|command|] && line[..|command|] == command && line[|command|..] == rest
  {
    assert line[..|command|] == command;
  }

  lemma ExampleLineWords()
    ensures var ws := ["subcommand", "argument1", "--flag1=value"];
      forall k :: 0 <= k < 3 ==> Untrimmed(ws[k]) && NoSpace(ws[k]) && NoQuote(ws[k])
  {
  }

  lemma ExampleFlagName()
    ensures KeyOf("flag1") == Name("flag1") && !IsNumeric("flag1")
  {
    NameKey("flag1");
    NotNumericStart("flag1");
  }

  lemma ExampleFlagToken()
    ensures Classify("--flag1=value") == Long("flag1", Some("value"))
  {
    ClassifyLongValue("flag1", "value");
    assert "--flag1=value" == "--" + "flag1" + "=" + "value";
  }

  lemma ParseTwoValues(ts: seq<string>)
    requires |ts| == 2 && ts[0] != [] && ts[0][0] != '-' && ts[1] != [] && ts[1][0] != '-'
    ensures Parse(ts) == Parsed([(Index(0), Text(ts[0])), (Index(1), Text(ts[1]))], 2)
  {
    assert ts[..1] == [] + [ts[0]] && ts == ts[..1] + [ts[1]];
    ParseAppendValue([], ts[0]);
    ParseAppendValue(ts[..1], ts[1]);
  }

  lemma CommandLineParse(ts: seq<string>)
    requires |ts| == 3 && ts[0] != [] && ts[0][0] != '-' && ts[1] != [] && ts[1][0] != '-'
    requires KeyOf("flag1") == Name("flag1") && Classify(ts[2]) == Long("flag1", Some("value"))
    ensures Parse(ts).entries == [(Index(0), Text(ts[0])), (Index(1), Text(ts[1])), (Name("flag1"), Text("value"))]
  {
    assert ts == ts[..2] + [ts[2]];
    ParseTwoValues(ts[..2]);
    var e := [(Index(0), Text(ts[0])), (Index(1), Text(ts[1]))];
    LookupFound(e, Name("flag1"));
    ParseAppendFlag(ts[..2], ts[2], "flag1", Text("value"));
  }

  lemma CommandLineDeal(command: string, v0: string, v1: string, f: string, fv: FlagValue)
    requires !IsNumeric(f)
    ensures Deal([(Index(0), Text(v0)), (Index(1), Text(v1)), (Name(f), fv)], command, 1) ==
      Dealt(command + " " + v0, [v1], [(f, fv)], 0)
  {
    var e := [(Index(0), Text(v0)), (Index(1), Text(v1)), (Name(f), fv)];
    assert e[..2][..1] == [e[0]] && [e[0]][..0] == [] && e[..2] == [e[0], e[1]];
    var d1 := Dealt(command + " " + v0, [], [], 0);
    assert Deal([e[0]], command, 1) == d1 by {
      assert Deal([], command, 1) == Dealt(command, [], [], 1);
      assert IsNumericKey(e[0].0);
    }
    var d2 := Dealt(command + " " + v0, [v1], [], 0);
    assert Deal(e[..2], command, 1) == d2 by {
      assert IsNumericKey(e[1].0);
      assert [] + [v1] == [v1];
    }
    assert !IsNumericKey(e[2].0);
    assert Put([], f, fv) == [(f, fv)];
  }

  /** The line splits at its first space into the command and the three words. */
  lemma CommandLineTokens(line: string, command: string, ws: seq<string>)
    requires |ws| == 3 && line == command + (" " + ws[0] + " " + ws[1] + " " + ws[2]) && ' ' !in command
    requires forall k :: 0 <= k < 3 ==> Untrimmed(ws[k]) && NoSpace(ws[k]) && NoQuote(ws[k])
    ensures Strpos(line, ' ') == Some(|command|) && line[..|command|] == command
    ensures Tokens(line[|command|..]) == ws
  {
    var rest := " " + ws[0] + " " + ws[1] + " " + ws[2];
    SplitAtSpace(line, command, rest);
    StrposAt(line, ' ', |command|);
    ImplodeThree(ws[0], ws[1], ws[2]);
    assert [""] + ws == ["", ws[0], ws[1], ws[2]];
    SpacedWordsTokens(ws);
  }

  lemma CommandLineWords(line: string, command: string, ws: seq<string>)
    requires |ws| == 3 && line == command + (" " + ws[0] + " " + ws[1] + " " + ws[2]) && ' ' !in command
    requires forall k :: 0 <= k < 3 ==> Untrimmed(ws[k]) && NoSpace(ws[k]) && NoQuote(ws[k])
    requires ws[0] != [] && ws[1] != [] && ws[0][0] != '-' && ws[1][0] != '-'
    requires KeyOf("flag1") == Name("flag1") && !IsNumeric("flag1") && Classify(ws[2]) == Long("flag1", Some("value"))
    ensures CommandParts(line, 1) ==
      Parts(line, Some(command + " " + ws[0]), [(Index(0), ws[1])], [("flag1", Text("value"))])
  {
    CommandLineTokens(line, command, ws);
    CommandLineParse(ws);
    CommandLineDeal(command, ws[0], ws[1], "flag1", Text("value"));
    assert Numbered(0, [ws[1]]) == [(Index(0), ws[1])];
  }

  lemma CommandHasNoSpace()
    ensures ' ' !in "command"
  {
  }

  /**
   * The example of the parser's own tests: with offset 1 the first value joins
   * the command, the second is argument 0 and `--flag1=value` is a flag; a
   * line without a space is a bare command.
   */
  lemma CommandLineExample()
    ensures CommandParts(ExampleLine, 1) ==
      Parts(ExampleLine, Some("command" + " " + "subcommand"), [(Index(0), "argument1")], [("flag1", Text("value"))])
    ensures CommandParts("command", 0) == Parts("command", None, [], [])
  {
    ExampleLineCommand();
    ExampleLineWords();
    ExampleFlagName();
    ExampleFlagToken();
    CommandHasNoSpace();
    CommandLineWords(ExampleLine, "command", ["subcommand", "argument1", "--flag1=value"]);
    NoSpaceCommand("command");
  }

  /** One flag token of a worked example, setting a key not seen before. */
  lemma ExampleStep(ts: seq<string>, k: nat, e: seq<(Key, FlagValue)>, j: nat, name: string, v: FlagValue)
    requires k < |ts| && j < |e|
    requires Parse(ts[..k]) == Parsed(e[..j], 1)
    requires KeyOf(name) == Name(name) && Fresh(e[..j], Name(name)) && e[j] == (Name(name), v)
    requires || (Classify(ts[k]) == Long(name, None) && v == Switch(true))
             || (Classify(ts[k]).Long? && Classify(ts[k]).name == name && Classify(ts[k]).given.Some? && v == Text(Classify(ts[k]).given.value))
             || (Classify(ts[k]).ShortValue? && Classify(ts[k]).name == name && v == Text(Classify(ts[k]).text))
             || (Classify(ts[k]) == Shorts([name]) && v == Switch(true))
    ensures Parse(ts[..k + 1]) == Parsed(e[..j + 1], 1)
  {
    LookupFound(e[..j], Name(name));
    assert ts[..k + 1] == ts[..k] + [ts[k]];
    assert e[..j + 1] == e[..j] + [e[j]];
    ParseAppendFlag(ts[..k], ts[k], name, v);
  }

  const ExampleTokens := ["admin/system", "-a", "-bc", "-d=value", "--e", "--fg", "--h=test", "--ij=test"]

  const ExampleEntries := [(Index(0), Text("admin/system")), (Name("a"), Switch(true)), (Name("b"), Switch(true)), (Name("c"), Switch(true)), (Name("d"), Text("value")), (Name("e"), Switch(true)), (Name("fg"), Switch(true)), (Name("h"), Text("test")), (Name("ij"), Text("test"))]

  lemma ExampleFacts0()
    ensures ExampleTokens[..1] == [] + [ExampleTokens[0]] && ExampleEntries[..1] == [(Index(0), Text(ExampleTokens[0]))]
    ensures ExampleTokens[0] != [] && ExampleTokens[0][0] != '-'
  {
  }

  lemma ExampleFresh1()
    ensures KeyOf("a") == Name("a") && Fresh(ExampleEntries[..1], Name("a")) && ExampleEntries[1] == (Name("a"), Switch(true))
  {
    NameKey("a");
  }

  lemma ExampleClassify1()
    ensures Classify(ExampleTokens[1]) == Shorts(["a"])
  {
    ClassifyShorts("a");
    assert StrSplit("a") == ["a"];
  }

  lemma ExampleFresh2()
    ensures KeyOf("b") == Name("b") && KeyOf("c") == Name("c")
    ensures Lookup(ExampleEntries[..2], Name("b")) == None && Lookup(ExampleEntries[..2], Name("c")) == None
    ensures ExampleEntries[..4] == ExampleEntries[..2] + [(Name("b"), Switch(true)), (Name("c"), Switch(true))]
  {
    NameKey("b"); NameKey("c");
    LookupFound(ExampleEntries[..2], Name("b"));
    LookupFound(ExampleEntries[..2], Name("c"));
  }

  lemma ExampleClassify2()
    ensures Classify(ExampleTokens[2]) == Shorts(["b", "c"])
  {
    ClassifyShorts("bc");
    assert StrSplit("bc") == ["b", "c"];
  }

  lemma ExampleFresh4()
    ensures KeyOf("d") == Name("d") && Fresh(ExampleEntries[..4], Name("d")) && ExampleEntries[4] == (Name("d"), Text("value"))
  {
    NameKey("d");
  }

  lemma ExampleClassify4()
    ensures Classify(ExampleTokens[3]) == ShortValue("d", "value")
  {
    ClassifyShortValue('d', "value");
    assert ExampleTokens[3] == ['-', 'd', '='] + "value";
  }

  lemma ExampleFresh5()
    ensures KeyOf("e") == Name("e") && Fresh(ExampleEntries[..5], Name("e")) && ExampleEntries[5] == (Name("e"), Switch(true))
  {
    NameKey("e");
  }

  lemma ExampleClassify5()
    ensures Classify(ExampleTokens[4]) == Long("e", None)
  {
    ClassifyLongSwitch("e");
    assert ExampleTokens[4] == "--" + "e";
  }

  lemma ExampleFresh6()
    ensures KeyOf("fg") == Name("fg") && Fresh(ExampleEntries[..6], Name("fg")) && ExampleEntries[6] == (Name("fg"), Switch(true))
  {
    NameKey("fg");
  }

  lemma ExampleClassify6()
    ensures Classify(ExampleTokens[5]) == Long("fg", None)
  {
    ClassifyLongSwitch("fg");
    assert ExampleTokens[5] == "--" + "fg";
  }

  lemma ExampleFresh7()
    ensures KeyOf("h") == Name("h") && Fresh(ExampleEntries[..7], Name("h")) && ExampleEntries[7] == (Name("h"), Text("test"))
  {
    NameKey("h");
  }

  lemma ExampleClassify7()
    ensures Classify(ExampleTokens[6]) == Long("h", Some("test"))
  {
    ClassifyLongValue("h", "test");
    assert ExampleTokens[6] == "--" + "h" + "=" + "test";
  }

  lemma ExampleFresh8()
    ensures KeyOf("ij") == Name("ij") && Fresh(ExampleEntries[..8], Name("ij")) && ExampleEntries[8] == (Name("ij"), Text("test"))
  {
    NameKey("ij");
  }

  lemma ExampleClassify8()
    ensures Classify(ExampleTokens[7]) == Long("ij", Some("test"))
  {
    ClassifyLongValue("ij", "test");
    assert ExampleTokens[7] == "--" + "ij" + "=" + "test";
  }

  lemma ParseExampleFirst(ts: seq<string>, e: seq<(Key, FlagValue)>)
    requires |ts| == 8 && |e| == 9
    requires ts[..1] == [] + [ts[0]] && e[..1] == [(Index(0), Text(ts[0]))]
    requires ts[0] != [] && ts[0][0] != '-'
    requires KeyOf("a") == Name("a") && Fresh(e[..1], Name("a")) && e[1] == (Name("a"), Switch(true))
    requires Classify(ts[1]) == Shorts(["a"])
    requires KeyOf("b") == Name("b") && KeyOf("c") == Name("c")
    requires Lookup(e[..2], Name("b")) == None && Lookup(e[..2], Name("c")) == None
    requires e[..4] == e[..2] + [(Name("b"), Switch(true)), (Name("c"), Switch(true))]
    requires Classify(ts[2]) == Shorts(["b", "c"])
    ensures Parse(ts[..3]) == Parsed(e[..4], 1)
  {
    ParseAppendValue([], ts[0]);
    ExampleStep(ts, 1, e, 1, "a", Switch(true));
    assert ts[..3] == ts[..2] + [ts[2]];
    ParseAppendPair(ts[..2], ts[2], "b", "c");
  }

  lemma ParseExampleMiddle(ts: seq<string>, e: seq<(Key, FlagValue)>)
    requires |ts| == 8 && |e| == 9
    requires Parse(ts[..3]) == Parsed(e[..4], 1)
    requires KeyOf("d") == Name("d") && Fresh(e[..4], Name("d")) && e[4] == (Name("d"), Text("value"))
    requires Classify(ts[3]) == ShortValue("d", "value")
    requires KeyOf("e") == Name("e") && Fresh(e[..5], Name("e")) && e[5] == (Name("e"), Switch(true))
    requires Classify(ts[4]) == Long("e", None)
    requires KeyOf("fg") == Name("fg") && Fresh(e[..6], Name("fg")) && e[6] == (Name("fg"), Switch(true))
    requires Classify(ts[5]) == Long("fg", None)
    ensures Parse(ts[..6]) == Parsed(e[..7], 1)
  {
    ExampleStep(ts, 3, e, 4, "d", Text("value"));
    ExampleStep(ts, 4, e, 5, "e", Switch(true));
    ExampleStep(ts, 5, e, 6, "fg", Switch(true));
  }

  lemma ParseExampleLast(ts: seq<string>, e: seq<(Key, FlagValue)>)
    requires |ts| == 8 && |e| == 9
    requires Parse(ts[..6]) == Parsed(e[..7], 1)
    requires KeyOf("h") == Name("h") && Fresh(e[..7], Name("h")) && e[7] == (Name("h"), Text("test"))
    requires Classify(ts[6]) == Long("h", Some("test"))
    requires KeyOf("ij") == Name("ij") && Fresh(e[..8], Name("ij")) && e[8] == (Name("ij"), Text("test"))
    requires Classify(ts[7]) == Long("ij", Some("test"))
    ensures Parse(ts) == Parsed(e, 1)
  {
    ExampleStep(ts, 6, e, 7, "h", Text("test"));
    ExampleStep(ts, 7, e, 8, "ij", Text("test"));
    assert ts[..8] == ts && e[..9] == e;
  }

  /** The flag example of the parser's own tests: values, short runs, short and long values, long switches. */
  lemma ParseExample()
    ensures Parse(["admin/system", "-a", "-bc", "-d=value", "--e", "--fg", "--h=test", "--ij=test"]).entries ==
      [(Index(0), Text("admin/system")),
       (Name("a"), Switch(true)),
       (Name("b"), Switch(true)),
       (Name("c"), Switch(true)),
       (Name("d"), Text("value")),
       (Name("e"), Switch(true)),
       (Name("fg"), Switch(true)),
       (Name("h"), Text("test")),
       (Name("ij"), Text("test"))]
  {
    ExampleFacts0(); ExampleFresh1(); ExampleClassify1(); ExampleFresh2(); ExampleClassify2();
    ParseExampleFirst(ExampleTokens, ExampleEntries);
    ExampleFresh4(); ExampleFresh5(); ExampleFresh6(); ExampleFresh7(); ExampleFresh8();
    ExampleClassify4(); ExampleClassify5(); ExampleClassify6(); ExampleClassify7(); ExampleClassify8();
    ParseExampleMiddle(ExampleTokens, ExampleEntries);
    ParseExampleLast(ExampleTokens, ExampleEntries);
  }
}
