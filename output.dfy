/**
 * The in-memory output port (ArrayOutput): every channel keeps the lines
 * written so far plus a pending partial line.
 */
module Output {
  import opened Php

  /**
   * One channel of an ArrayOutput: the completed lines and the pending
   * partial line. PHP starts the pending line as null; appending to null
   * and to "" give the same string and both are falsy, so "" stands for null.
   */
  datatype Channel = Channel(lines: seq<string>, pending: string)
  {
    /** `write`: the text goes to the pending line. */
    function Append(text: string): (c: Channel)
      ensures c.lines == lines
      ensures Content(c) == Content(this) + text
    {
      AppendAssoc(Joined(lines), pending, text);
      Channel(lines, pending + text)
    }

    /** `writeLine`: the pending line plus the text becomes a completed line. */
    function EndLine(text: string): (c: Channel)
      ensures c.pending == "" && |c.lines| == |lines| + 1 && c.lines[..|lines|] == lines
      ensures Content(c) == Content(this) + text
    {
      var c := Channel(lines + [pending + text], "");
      JoinedAppend(lines, pending + text);
      AppendAssoc(Joined(lines), pending, text);
      assert c.lines[..|lines|] == lines;
      c
    }

    /** `getOutput`: the completed lines, and the pending line when it is truthy. */
    function Shown(): (r: seq<string>)
      ensures r == lines || r == lines + [pending]
      ensures |r| == |lines| + 1 <==> pending != "" && pending != "0"
    {
      if Truthy(pending) then lines + [pending] else lines
    }
  }

  const Empty := Channel([], "")

  /** The lines glued together. */
  function Joined(lines: seq<string>): string
  {
    if lines == [] then "" else Joined(lines[..|lines| - 1]) + lines[|lines| - 1]
  }

  lemma JoinedAppend(lines: seq<string>, line: string)
    ensures Joined(lines + [line]) == Joined(lines) + line
  {
    assert (lines + [line])[..|lines|] == lines;
  }

  /** All text a channel has received, in order: completed lines, then the pending line. */
  function Content(c: Channel): string
  {
    Joined(c.lines) + c.pending
  }

  /**
   * `getOutput` loses no text unless the pending line is exactly "0",
   * which PHP treats as false and leaves out.
   */
  lemma {:induction false} ShownKeepsContent(c: Channel)
    ensures c.pending != "0" ==> Joined(c.Shown()) == Content(c)
    ensures c.pending == "0" ==> Joined(c.Shown()) + "0" == Content(c)
  {
    if Truthy(c.pending) {
      JoinedAppend(c.lines, c.pending);
    } else {
      assert Joined(c.lines) + "" == Joined(c.lines);
    }
  }

  /** The example of the tests: write('Te') then writeLine('st') shows one line. */
  lemma WriteThenWriteLine()
    ensures Empty.Append("Te").EndLine("st").Shown() == ["Test"]
    ensures Empty.Append("Te").Shown() == ["Te"]
  {
    assert "" + "Te" == "Te";
    assert "Te" + "st" == "Test";
  }

  /** writeLine('') with nothing pending records one empty line. */
  lemma EmptyLineRecorded(c: Channel)
    requires c.pending == ""
    ensures c.EndLine("").lines == c.lines + [""]
  {
  }

  /** The channel after `writeLine` of each of the lines, in order. */
  function Written(c: Channel, lines: seq<string>): Channel
  {
    if lines == [] then c else Written(c, lines[..|lines| - 1]).EndLine(lines[|lines| - 1])
  }

  /** Writing one more line extends the fold by one `writeLine`. */
  lemma WrittenSnoc(c: Channel, lines: seq<string>, line: string)
    ensures Written(c, lines + [line]) == Written(c, lines).EndLine(line)
  {
    assert (lines + [line])[..|lines|] == lines;
  }

  /** Writing two groups of lines is writing them all. */
  lemma {:induction false} WrittenConcat(c: Channel, a: seq<string>, b: seq<string>)
    ensures Written(c, a + b) == Written(Written(c, a), b)
    decreases |b|
  {
    if b == [] {
      assert a + b == a;
    } else {
      var init := b[..|b| - 1];
      assert a + b == (a + init) + [b[|b| - 1]];
      WrittenSnoc(c, a + init, b[|b| - 1]);
      WrittenConcat(c, a, init);
      WrittenSnoc(Written(c, a), init, b[|b| - 1]);
    }
  }

  /**
   * With nothing pending, the written lines become completed lines exactly
   * as given; with a pending part, it is glued to the first of them.
   */
  lemma {:induction false} WrittenLines(c: Channel, lines: seq<string>)
    ensures lines == [] ==> Written(c, lines) == c
    ensures lines != [] ==> Written(c, lines) == Channel(c.lines + [c.pending + lines[0]] + lines[1..], "")
    decreases |lines|
  {
    if |lines| == 1 {
      assert lines[..0] == [] && lines[1..] == [];
    } else if |lines| > 1 {
      var init := lines[..|lines| - 1];
      var last := lines[|lines| - 1];
      WrittenLines(c, init);
      var w := Written(c, init);
      assert w.pending == "" && "" + last == last;
      assert w.EndLine(last).lines == w.lines + [last];
      assert init[0] == lines[0];
      assert init[1..] + [last] == lines[1..];
    }
  }

  /** An ArrayOutput: an output channel and an independent error channel. */
  class ArrayOutput {
    var out: Channel
    var err: Channel

    constructor ()
      ensures out == Empty && err == Empty
    {
      out := Empty;
      err := Empty;
    }

    method Write(text: string)
      modifies this`out
      ensures out == old(out).Append(text)
    {
      out := Channel(out.lines, out.pending + text);
    }

    method WriteLine(text: string)
      modifies this`out
      ensures out == old(out).EndLine(text)
    {
      Write(text);
      out := Channel(out.lines + [out.pending], "");
    }

    method GetOutput() returns (r: seq<string>)
      ensures r == out.Shown()
    {
      r := out.lines;
      if Truthy(out.pending) {
        r := r + [out.pending];
      }
    }

    method WriteError(text: string)
      modifies this`err
      ensures err == old(err).Append(text)
    {
      err := Channel(err.lines, err.pending + text);
    }

    method WriteErrorLine(text: string)
      modifies this`err
      ensures err == old(err).EndLine(text)
    {
      WriteError(text);
      err := Channel(err.lines + [err.pending], "");
    }

    method GetErrorOutput() returns (r: seq<string>)
      ensures r == err.Shown()
    {
      r := err.lines;
      if Truthy(err.pending) {
        r := r + [err.pending];
      }
    }
  }
}
