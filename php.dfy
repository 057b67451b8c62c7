/**
 * The parts of the PHP runtime that the shell library leans on, stated once:
 * optional and failing results, the dynamic values its validating setters
 * inspect, string truthiness, array-key coercion, and the string built-ins
 * (trim, explode, implode, substr_count, addslashes, strncmp, strcmp order).
 *
 * PHP strings are byte strings. A Dafny `string` here stands for one: each
 * `char` is one byte, so `strlen`, `substr`, `str_split` and the string
 * offsets work on chars exactly as PHP's do on bytes.
 */
module Php {

  datatype Option<+T> = None | Some(value: T)

  /** The outcome of an operation that returns a value or throws. */
  datatype Result<+T, +E> = Ok(value: T) | Err(error: E)

  /** The outcome of an operation that returns nothing or throws. */
  datatype Outcome<+E> = Pass | Fail(error: E)

  /** A PHP value, as far as the `is_string`/`is_bool` guards look at it. */
  datatype Value = Null | Bool(b: bool) | Int(i: int) | Str(s: string) | Array | Object

  /** What `gettype` answers for a value. */
  function TypeName(v: Value): string
  {
    match v
    case Null => "NULL"
    case Bool(_) => "boolean"
    case Int(_) => "integer"
    case Str(_) => "string"
    case Array => "array"
    case Object => "object"
  }

  /** A string is truthy in PHP unless it is "" or "0". */
  predicate Truthy(s: string)
  {
    s != "" && s != "0"
  }

  function Min(a: int, b: int): int
  {
    if a < b then a else b
  }

  lemma SplitLast<T>(s: seq<T>)
    requires |s| > 0
    ensures s[..|s| - 1] + [s[|s| - 1]] == s
  {
  }

  lemma AppendAssoc<T>(a: seq<T>, b: seq<T>, c: seq<T>)
    ensures a + b + c == a + (b + c)
  {
  }

  // ---------------------------------------------------------------------
  // Decimal integers and array keys
  // ---------------------------------------------------------------------

  predicate IsDigit(c: char)
  {
    '0' <= c <= '9'
  }

  predicate AllDigits(s: string)
  {
    forall k :: 0 <= k < |s| ==> IsDigit(s[k])
  }

  function DigitsValue(s: string): nat
    requires AllDigits(s)
  {
    if s == [] then 0 else DigitsValue(s[..|s| - 1]) * 10 + (s[|s| - 1] as int - '0' as int)
  }

  function NatToString(n: nat): (r: string)
    ensures |r| > 0 && AllDigits(r)
  {
    if n < 10 then [('0' as int + n) as char]
    else NatToString(n / 10) + [('0' as int + n % 10) as char]
  }

  /** The decimal form PHP prints for an integer. */
  function IntToString(i: int): string
  {
    if i < 0 then "-" + NatToString(-i) else NatToString(i)
  }

  /** A digit string without a superfluous leading zero. */
  predicate IsCanonicalNat(s: string)
  {
    |s| > 0 && AllDigits(s) && (s[0] == '0' ==> |s| == 1)
  }

  const MaxInt: int := 0x7FFF_FFFF_FFFF_FFFF

  /**
   * The strings that a PHP array stores under an integer key: canonical
   * decimal integers ("-0" excluded) within the 64-bit range.
   */
  predicate IsIntegerKey(s: string)
  {
    if |s| > 0 && s[0] == '-' then
      IsCanonicalNat(s[1..]) && s[1..] != "0" && DigitsValue(s[1..]) <= MaxInt + 1
    else
      IsCanonicalNat(s) && DigitsValue(s) <= MaxInt
  }

  /** A key of a PHP array: integer keys and string keys are kept apart. */
  datatype Key = Index(i: int) | Name(s: string)

  /** The key that `$array[$s]` uses: an integer-looking string becomes an integer. */
  function KeyOf(s: string): (k: Key)
    ensures k.Name? ==> k.s == s
    ensures k.Index? ==> -MaxInt - 1 <= k.i <= MaxInt && IntToString(k.i) == s
  {
    if IsIntegerKey(s) then
      var k := if s[0] == '-' then -(DigitsValue(s[1..]) as int) else DigitsValue(s);
      CanonicalRoundTrip(if s[0] == '-' then s[1..] else s);
      if s[0] == '-' then assert "-" + s[1..] == s; Index(k) else Index(k)
    else Name(s)
  }

  /** A string that starts with neither a digit nor a minus sign stays a string key. */
  lemma NameKey(s: string)
    requires s != [] && !IsDigit(s[0]) && s[0] != '-'
    ensures KeyOf(s) == Name(s)
  {
    assert !AllDigits(s);
  }

  lemma {:induction false} DigitsValueAppend(s: string, c: char)
    requires AllDigits(s) && IsDigit(c)
    ensures AllDigits(s + [c]) && DigitsValue(s + [c]) == DigitsValue(s) * 10 + (c as int - '0' as int)
  {
    assert (s + [c])[..|s + [c]| - 1] == s;
  }

  lemma {:induction false} NatToStringValue(n: nat)
    ensures DigitsValue(NatToString(n)) == n
    ensures IsCanonicalNat(NatToString(n))
    ensures n > 0 ==> NatToString(n)[0] != '0'
  {
    if n < 10 {
      assert NatToString(n)[..0] == [];
    } else {
      NatToStringValue(n / 10);
      DigitsValueAppend(NatToString(n / 10), ('0' as int + n % 10) as char);
    }
  }

  /** A canonical digit string is what NatToString prints for its value. */
  lemma {:induction false} CanonicalRoundTrip(s: string)
    requires IsCanonicalNat(s)
    ensures NatToString(DigitsValue(s)) == s
    decreases |s|
  {
    var init, last := s[..|s| - 1], s[|s| - 1];
    assert s == init + [last];
    if init == [] {
      assert DigitsValue(s) == last as int - '0' as int by {
        assert s[..|s| - 1] == [];
      }
    } else {
      assert init[0] == s[0];
      CanonicalRoundTrip(init);
      assert DigitsValue(init) > 0 by {
        assert NatToString(0) == "0";
      }
      var v := DigitsValue(s);
      assert v == DigitsValue(init) * 10 + (last as int - '0' as int);
      assert v / 10 == DigitsValue(init) && v % 10 == last as int - '0' as int;
    }
  }

  /** Every 64-bit integer is stored under the key its decimal form coerces to. */
  lemma KeyOfIntToString(i: int)
    requires -MaxInt - 1 <= i <= MaxInt
    ensures KeyOf(IntToString(i)) == Index(i)
  {
    if i < 0 {
      var digits := NatToString(-i);
      NatToStringValue(-i);
      var s := "-" + digits;
      assert s[0] == '-' && s[1..] == digits;
      assert digits != "0" by {
        assert digits[0] != '0';
      }
    } else {
      var digits := NatToString(i);
      NatToStringValue(i);
      assert IsDigit(digits[0]);
    }
  }

  // ---------------------------------------------------------------------
  // trim
  // ---------------------------------------------------------------------

  /** The characters `trim` strips by default. */
  const TrimChars: set<char> := {' ', '\t', '\n', '\r', '\0', '\U{000B}'}

  predicate IsTrimChar(c: char)
  {
    c in TrimChars
  }

  predicate AllTrimChars(s: string)
  {
    forall k :: 0 <= k < |s| ==> IsTrimChar(s[k])
  }

  function TrimLeft(s: string): string
  {
    if s == [] || !IsTrimChar(s[0]) then s else TrimLeft(s[1..])
  }

  function TrimRight(s: string): string
  {
    if s == [] || !IsTrimChar(s[|s| - 1]) then s else TrimRight(s[..|s| - 1])
  }

  /** `ltrim` drops a prefix of trim characters and stops at the first other character. */
  lemma {:induction false} TrimLeftFacts(s: string)
    ensures var r := TrimLeft(s);
      && |r| <= |s| && r == s[|s| - |r|..]
      && AllTrimChars(s[..|s| - |r|])
      && (r != [] ==> !IsTrimChar(r[0]))
    decreases |s|
  {
    if s != [] && IsTrimChar(s[0]) {
      TrimLeftFacts(s[1..]);
      var r := TrimLeft(s[1..]);
      assert s[1..][|s| - 1 - |r|..] == s[|s| - |r|..];
      forall k | 0 <= k < |s| - |r| ensures IsTrimChar(s[k]) {
        if k > 0 {
          assert s[k] == s[1..][..|s| - 1 - |r|][k - 1];
        }
      }
    }
  }

  /** `rtrim` drops a suffix of trim characters and stops at the last other character. */
  lemma {:induction false} TrimRightFacts(s: string)
    ensures var r := TrimRight(s);
      && |r| <= |s| && r == s[..|r|]
      && AllTrimChars(s[|r|..])
      && (r != [] ==> !IsTrimChar(r[|r| - 1]))
    decreases |s|
  {
    if s != [] && IsTrimChar(s[|s| - 1]) {
      var init := s[..|s| - 1];
      TrimRightFacts(init);
      var r := TrimRight(init);
      assert init[..|r|] == s[..|r|];
      forall k | |r| <= k < |s| ensures IsTrimChar(s[k]) {
        if k < |s| - 1 {
          assert s[k] == init[|r|..][k - |r|];
        }
      }
    }
  }

  /** `trim($s)`: the slice of s left after stripping trim characters at both ends. */
  function Trim(s: string): (r: string)
    ensures |r| <= |s|
    ensures r != [] ==> !IsTrimChar(r[0]) && !IsTrimChar(r[|r| - 1])
  {
    TrimLeftFacts(s);
    TrimRightFacts(TrimLeft(s));
    var r := TrimRight(TrimLeft(s));
    assert r != [] ==> r[0] == TrimLeft(s)[0];
    r
  }

  lemma AllTrimConcat(a: string, b: string)
    ensures AllTrimChars(a + b) <==> AllTrimChars(a) && AllTrimChars(b)
  {
    if AllTrimChars(a) && AllTrimChars(b) {
      forall k | 0 <= k < |a + b| ensures IsTrimChar((a + b)[k]) {
        if k >= |a| { assert (a + b)[k] == b[k - |a|]; }
      }
    }
    if AllTrimChars(a + b) {
      forall k | 0 <= k < |a| ensures IsTrimChar(a[k]) {
        assert a[k] == (a + b)[k];
      }
      forall k | 0 <= k < |b| ensures IsTrimChar(b[k]) {
        assert b[k] == (a + b)[k + |a|];
      }
    }
  }

  /** What `trim` keeps is a slice of its input with only trim characters around it. */
  lemma TrimIsSlice(s: string) returns (i: nat)
    ensures i + |Trim(s)| <= |s| && Trim(s) == s[i..i + |Trim(s)|]
    ensures AllTrimChars(s[..i]) && AllTrimChars(s[i + |Trim(s)|..])
  {
    var l := TrimLeft(s);
    TrimLeftFacts(s);
    TrimRightFacts(l);
    var r := TrimRight(l);
    i := |s| - |l|;
    assert AllTrimChars(s[..i]);
    assert AllTrimChars(l[|r|..]);
    assert s[i + |r|..] == l[|r|..];
  }

  /** `trim` leaves nothing exactly when every character is a trim character. */
  lemma TrimEmpty(s: string)
    ensures Trim(s) == [] <==> AllTrimChars(s)
  {
    var l := TrimLeft(s);
    TrimLeftFacts(s);
    TrimRightFacts(l);
    var i := |s| - |l|;
    assert s == s[..i] + l;
    AllTrimConcat(s[..i], l);
    if Trim(s) == [] {
      assert l[0..] == l;
    }
  }

  // ---------------------------------------------------------------------
  // explode / implode / substr_count
  // ---------------------------------------------------------------------

  function Count(s: string, c: char): nat
  {
    if s == [] then 0 else Count(s[..|s| - 1], c) + (if s[|s| - 1] == c then 1 else 0)
  }

  /** substr_count adds up over a concatenation. */
  lemma {:induction false} CountConcat(a: string, b: string, c: char)
    ensures Count(a + b, c) == Count(a, c) + Count(b, c)
    decreases |b|
  {
    if b == [] {
      assert a + b == a;
    } else {
      assert (a + b)[..|a + b| - 1] == a + b[..|b| - 1];
      CountConcat(a, b[..|b| - 1], c);
    }
  }

  /** A character that does not occur is counted zero times. */
  lemma {:induction false} CountAbsent(s: string, c: char)
    requires c !in s
    ensures Count(s, c) == 0
    decreases |s|
  {
    if s != [] {
      assert c !in s[..|s| - 1];
      CountAbsent(s[..|s| - 1], c);
    }
  }

  /** `explode(' ', $s)`: the pieces between single spaces, empty pieces included. */
  function Explode(s: string): (r: seq<string>)
    ensures |r| > 0
  {
    if s == [] then [""]
    else
      var e := Explode(s[..|s| - 1]);
      var c := s[|s| - 1];
      if c == ' ' then e + [""] else e[..|e| - 1] + [e[|e| - 1] + [c]]
  }

  /** `explode` yields one piece more than there are spaces. */
  lemma {:induction false} ExplodeLength(s: string)
    ensures |Explode(s)| == Count(s, ' ') + 1
    decreases |s|
  {
    if s != [] { ExplodeLength(s[..|s| - 1]); }
  }

  predicate NoSpace(w: string)
  {
    forall k :: 0 <= k < |w| ==> w[k] != ' '
  }

  /** `strpos($s, $c)` for one character: the first position of c, None for PHP's false. */
  function Strpos(s: string, c: char): Option<nat>
  {
    if s == [] then None
    else if s[0] == c then Some(0)
    else match Strpos(s[1..], c)
      case None => None
      case Some(i) => Some(i + 1)
  }

  /** strpos finds the first occurrence, and fails only when there is none. */
  lemma {:induction false} StrposFacts(s: string, c: char)
    ensures Strpos(s, c).None? <==> c !in s
    ensures Strpos(s, c).Some? ==> var i := Strpos(s, c).value;
      i < |s| && s[i] == c && c !in s[..i]
    decreases |s|
  {
    if s != [] && s[0] != c {
      StrposFacts(s[1..], c);
      assert s == [s[0]] + s[1..];
      if Strpos(s[1..], c).Some? {
        var i := Strpos(s[1..], c).value;
        assert s[..i + 1] == [s[0]] + s[1..][..i];
      }
    }
  }

  lemma StrposAt(s: string, c: char, i: nat)
    requires i < |s| && s[i] == c && c !in s[..i]
    ensures Strpos(s, c) == Some(i)
  {
    StrposFacts(s, c);
    assert c in s;
    var j := Strpos(s, c).value;
    assert forall m :: 0 <= m < i ==> s[m] != c by {
      forall m | 0 <= m < i ensures s[m] != c { assert s[..i][m] == s[m]; }
    }
    assert forall m :: 0 <= m < j ==> s[m] != c by {
      forall m | 0 <= m < j ensures s[m] != c { assert s[..j][m] == s[m]; }
    }
  }

  /** `implode($sep, $parts)`. */
  function Implode(sep: string, parts: seq<string>): string
  {
    if parts == [] then ""
    else if |parts| == 1 then parts[0]
    else Implode(sep, parts[..|parts| - 1]) + sep + parts[|parts| - 1]
  }

  lemma {:induction false} ImplodeAppendChar(parts: seq<string>, c: char)
    requires |parts| > 0
    ensures Implode(" ", parts[..|parts| - 1] + [parts[|parts| - 1] + [c]]) == Implode(" ", parts) + [c]
  {
    var n := |parts|;
    var q := parts[..n - 1] + [parts[n - 1] + [c]];
    if n > 1 {
      assert q[..n - 1] == parts[..n - 1];
    }
  }

  /** Joining the pieces of `explode` with single spaces gives the string back. */
  lemma {:induction false} ImplodeExplode(s: string)
    ensures Implode(" ", Explode(s)) == s
    decreases |s|
  {
    if s != [] {
      var init := s[..|s| - 1];
      ImplodeExplode(init);
      var e := Explode(init);
      if s[|s| - 1] == ' ' {
        assert (e + [""])[..|e|] == e;
      } else {
        ImplodeAppendChar(e, s[|s| - 1]);
      }
      assert init + [s[|s| - 1]] == s;
    }
  }

  lemma ExplodeAppend(t: string, c: char)
    ensures c == ' ' ==> Explode(t + [c]) == Explode(t) + [""]
    ensures c != ' ' ==> var e := Explode(t); Explode(t + [c]) == e[..|e| - 1] + [e[|e| - 1] + [c]]
  {
    assert (t + [c])[..|t + [c]| - 1] == t;
  }

  lemma ExplodeAppendWordStep(t: string, w: string)
    requires w != [] && w[|w| - 1] != ' '
    requires var e := Explode(t); Explode(t + w[..|w| - 1]) == e[..|e| - 1] + [e[|e| - 1] + w[..|w| - 1]]
    ensures var e := Explode(t); Explode(t + w) == e[..|e| - 1] + [e[|e| - 1] + w]
  {
    var init, c := w[..|w| - 1], w[|w| - 1];
    var e := Explode(t);
    var front, last := e[..|e| - 1], e[|e| - 1];
    var e2 := Explode(t + init);
    assert e2 == front + [last + init];
    assert e2[..|e2| - 1] == front;
    assert e2[|e2| - 1] == last + init;
    ExplodeAppend(t + init, c);
    assert Explode(t + init + [c]) == front + [last + init + [c]];
    SplitLast(w);
    AppendAssoc(t, init, [c]);
    AppendAssoc(last, init, [c]);
  }

  /** Appending a space-free word extends the last piece by that word. */
  lemma {:induction false} ExplodeAppendWord(t: string, w: string)
    requires NoSpace(w)
    ensures var e := Explode(t); Explode(t + w) == e[..|e| - 1] + [e[|e| - 1] + w]
    decreases |w|
  {
    if w == [] {
      var e := Explode(t);
      assert t + w == t;
      assert e[|e| - 1] + w == e[|e| - 1];
      assert e[..|e| - 1] + [e[|e| - 1]] == e;
    } else {
      assert forall k :: 0 <= k < |w| - 1 ==> w[..|w| - 1][k] == w[k];
      ExplodeAppendWord(t, w[..|w| - 1]);
      ExplodeAppendWordStep(t, w);
    }
  }

  /** Joining one more piece appends the separator and the piece. */
  lemma ImplodeSnoc(sep: string, front: seq<string>, last: string)
    requires |front| > 0
    ensures Implode(sep, front + [last]) == Implode(sep, front) + sep + last
  {
    var parts := front + [last];
    assert parts[..|parts| - 1] == front;
  }

  /** A space followed by a space-free word adds that word as one more piece. */
  lemma ExplodeSpaceWord(s: string, w: string)
    requires NoSpace(w)
    ensures Explode(s + " " + w) == Explode(s) + [w]
  {
    var t := s + " ";
    assert t == s + [' '];
    ExplodeAppend(s, ' ');
    var e := Explode(t);
    assert e[..|e| - 1] == Explode(s);
    assert e[|e| - 1] + w == w;
    ExplodeAppendWord(t, w);
  }

  /** One more space-free word joined with a space explodes to one more piece. */
  lemma ExplodeImplodeNext(front: seq<string>, last: string)
    requires |front| > 0 && NoSpace(last) && Explode(Implode(" ", front)) == front
    ensures Explode(Implode(" ", front + [last])) == front + [last]
  {
    ImplodeSnoc(" ", front, last);
    ExplodeSpaceWord(Implode(" ", front), last);
  }

  /** Space-free pieces survive a join with spaces followed by `explode`. */
  lemma {:induction false} ExplodeImplode(parts: seq<string>)
    requires |parts| > 0
    requires forall k :: 0 <= k < |parts| ==> NoSpace(parts[k])
    ensures Explode(Implode(" ", parts)) == parts
    decreases |parts|
  {
    var n := |parts|;
    var last := parts[n - 1];
    if n == 1 {
      ExplodeAppendWord("", last);
      assert "" + last == last;
      assert Explode("") == [""];
    } else {
      var front := parts[..n - 1];
      assert forall k :: 0 <= k < |front| ==> front[k] == parts[k];
      ExplodeImplode(front);
      ExplodeImplodeNext(front, last);
      SplitLast(parts);
    }
  }

  // ---------------------------------------------------------------------
  // addslashes
  // ---------------------------------------------------------------------

  /** `addslashes`: a backslash before each quote, double quote and backslash; NUL becomes `\0`. */
  function AddSlashes(s: string): (r: string)
    ensures |r| >= |s|
  {
    if s == [] then ""
    else
      var c := s[0];
      var e := if c == '\'' || c == '"' || c == '\\' then ['\\', c] else if c == '\0' then "\\0" else [c];
      e + AddSlashes(s[1..])
  }

  /** The characters `addslashes` escapes. */
  predicate NeedsSlash(c: char)
  {
    c == '\'' || c == '"' || c == '\\' || c == '\0'
  }

  lemma {:induction false} AddSlashesConcat(a: string, b: string)
    ensures AddSlashes(a + b) == AddSlashes(a) + AddSlashes(b)
    decreases |a|
  {
    if a != [] {
      assert (a + b)[0] == a[0];
      assert (a + b)[1..] == a[1..] + b;
      AddSlashesConcat(a[1..], b);
      var c := a[0];
      var e := if c == '\'' || c == '"' || c == '\\' then ['\\', c] else if c == '\0' then "\\0" else [c];
      AppendAssoc(e, AddSlashes(a[1..]), AddSlashes(b));
    } else {
      assert a + b == b;
      assert AddSlashes(a) + AddSlashes(b) == AddSlashes(b);
    }
  }

  /** A string without quotes, backslashes and NUL passes through `addslashes` unchanged. */
  lemma {:induction false} AddSlashesPlain(s: string)
    requires forall k :: 0 <= k < |s| ==> !NeedsSlash(s[k])
    ensures AddSlashes(s) == s
    decreases |s|
  {
    if s != [] {
      AddSlashesPlain(s[1..]);
    }
  }

  // ---------------------------------------------------------------------
  // strncmp and the byte order used by ksort
  // ---------------------------------------------------------------------

  /**
   * `strncmp($a, $b, $n) == 0` with PHP's binary-safe rule: the first
   * min(n, |a|, |b|) characters agree and both strings offer the same
   * number of characters up to n.
   */
  predicate StrncmpEqual(a: string, b: string, n: nat)
  {
    var k := Min(n, Min(|a|, |b|));
    a[..k] == b[..k] && Min(n, |a|) == Min(n, |b|)
  }

  /** Comparing the first |b| characters finds b exactly when b is a prefix of a. */
  lemma StrncmpIsPrefix(a: string, b: string)
    ensures StrncmpEqual(a, b, |b|) <==> b <= a
  {
    if b <= a {
      assert a[..|b|] == b;
    }
  }

  /** strcmp order: byte by byte, each char standing for one byte, a shorter prefix first. */
  predicate StrLess(a: string, b: string)
    decreases |a|
  {
    if a == [] then b != []
    else if b == [] then false
    else if a[0] != b[0] then a[0] < b[0]
    else StrLess(a[1..], b[1..])
  }

  lemma {:induction false} StrLessIrreflexive(a: string)
    ensures !StrLess(a, a)
    decreases |a|
  {
    if a != [] { StrLessIrreflexive(a[1..]); }
  }

  lemma {:induction false} StrLessTotal(a: string, b: string)
    ensures a == b || StrLess(a, b) || StrLess(b, a)
    decreases |a|
  {
    if a != [] && b != [] && a[0] == b[0] {
      StrLessTotal(a[1..], b[1..]);
      if a[1..] == b[1..] {
        assert a == [a[0]] + a[1..] && b == [b[0]] + b[1..];
      }
    }
  }

  lemma {:induction false} StrLessAsymmetric(a: string, b: string)
    ensures !(StrLess(a, b) && StrLess(b, a))
    decreases |a|
  {
    if a != [] && b != [] && a[0] == b[0] { StrLessAsymmetric(a[1..], b[1..]); }
  }

  lemma {:induction false} StrLessTransitive(a: string, b: string, c: string)
    requires StrLess(a, b) && StrLess(b, c)
    ensures StrLess(a, c)
    decreases |a|
  {
    if a != [] && a[0] == b[0] && b[0] == c[0] {
      StrLessTransitive(a[1..], b[1..], c[1..]);
    }
  }

  // ---------------------------------------------------------------------
  // Ordered arrays (PHP arrays as key/value entries in insertion order)
  // ---------------------------------------------------------------------

  /** No key occurs twice, as in every PHP array. */
  predicate UniqueKeys<K(==,!new), V>(d: seq<(K, V)>)
  {
    forall i, j :: 0 <= i < j < |d| ==> d[i].0 != d[j].0
  }

  /** `$d[$k]`, None when the key is absent. */
  function Lookup<K(==), V>(d: seq<(K, V)>, k: K): Option<V>
  {
    if d == [] then None else if d[0].0 == k then Some(d[0].1) else Lookup(d[1..], k)
  }

  /** `$d[$k] = $v`: an existing entry is overwritten in place, a new key goes last. */
  function Put<K(==), V>(d: seq<(K, V)>, k: K, v: V): seq<(K, V)>
  {
    if d == [] then [(k, v)] else if d[0].0 == k then [(k, v)] + d[1..] else [d[0]] + Put(d[1..], k, v)
  }

  /** `unset($d[$k])`: the entry with key k is dropped, the others keep their order. */
  function Unset<K(==), V>(d: seq<(K, V)>, k: K): seq<(K, V)>
  {
    if d == [] then [] else if d[0].0 == k then Unset(d[1..], k) else [d[0]] + Unset(d[1..], k)
  }

  /** Lookup finds a key exactly when some entry carries it, and then returns an entry's value. */
  lemma {:induction false} LookupFound<K(!new), V>(d: seq<(K, V)>, k: K)
    ensures Lookup(d, k).None? <==> forall i :: 0 <= i < |d| ==> d[i].0 != k
    ensures Lookup(d, k).Some? ==> (k, Lookup(d, k).value) in d
    decreases |d|
  {
    if d != [] && d[0].0 != k {
      LookupFound(d[1..], k);
      assert forall i :: 1 <= i < |d| ==> d[i] == d[1..][i - 1];
    }
  }

  /** After `$d[$k] = $v`, k holds v and every other key looks up as before. */
  lemma {:induction false} PutLookup<K(!new), V>(d: seq<(K, V)>, k: K, v: V)
    ensures Lookup(Put(d, k, v), k) == Some(v)
    ensures forall k' :: k' != k ==> Lookup(Put(d, k, v), k') == Lookup(d, k')
    decreases |d|
  {
    if d == [] {
    } else if d[0].0 == k {
      assert ([(k, v)] + d[1..])[1..] == d[1..];
    } else {
      PutLookup(d[1..], k, v);
      var rest := Put(d[1..], k, v);
      assert ([d[0]] + rest)[1..] == rest;
    }
  }

  /** After `unset($d[$k])`, k is absent and every other key looks up as before. */
  lemma {:induction false} UnsetLookup<K(!new), V>(d: seq<(K, V)>, k: K)
    ensures Lookup(Unset(d, k), k) == None
    ensures forall k' :: k' != k ==> Lookup(Unset(d, k), k') == Lookup(d, k')
    decreases |d|
  {
    if d != [] {
      UnsetLookup(d[1..], k);
      var rest := Unset(d[1..], k);
      assert ([d[0]] + rest)[1..] == rest;
    }
  }

  /** Put keeps the order: an existing key stays in its place, a new key goes last. */
  lemma {:induction false} PutPlace<K(!new), V>(d: seq<(K, V)>, k: K, v: V)
    ensures var r := Put(d, k, v);
      && |r| == (if Lookup(d, k).Some? then |d| else |d| + 1)
      && (forall i :: 0 <= i < |d| ==> r[i].0 == d[i].0)
      && (|r| > |d| ==> r[|d|] == (k, v))
    decreases |d|
  {
    if d == [] {
    } else if d[0].0 == k {
      assert Put(d, k, v) == [(k, v)] + d[1..];
    } else {
      PutPlace(d[1..], k, v);
      var rest := Put(d[1..], k, v);
      assert Put(d, k, v) == [d[0]] + rest;
    }
  }

  /** Keys stay unique under Put. */
  lemma PutUnique<K(!new), V>(d: seq<(K, V)>, k: K, v: V)
    requires UniqueKeys(d)
    ensures UniqueKeys(Put(d, k, v))
  {
    PutPlace(d, k, v);
    if Lookup(d, k).None? {
      LookupFound(d, k);
    }
  }

  /** Setting a key the array lacks appends one entry. */
  lemma {:induction false} PutAbsent<K(!new), V>(d: seq<(K, V)>, k: K, v: V)
    requires Lookup(d, k) == None
    ensures Put(d, k, v) == d + [(k, v)]
    decreases |d|
  {
    if d != [] {
      PutAbsent(d[1..], k, v);
      assert [d[0]] + (d[1..] + [(k, v)]) == d + [(k, v)];
    }
  }

  /** Setting the key of the last entry, when no earlier entry has it, replaces that entry. */
  lemma {:induction false} PutLast<K(!new), V>(d: seq<(K, V)>, k: K, u: V, v: V)
    requires Lookup(d, k) == None
    ensures Put(d + [(k, u)], k, v) == d + [(k, v)]
    decreases |d|
  {
    if d == [] {
      assert [(k, u)][1..] == [];
    } else {
      assert (d + [(k, u)])[1..] == d[1..] + [(k, u)];
      PutLast(d[1..], k, u, v);
      assert [d[0]] + (d[1..] + [(k, v)]) == d + [(k, v)];
    }
  }

  /** unset works entry by entry, so it distributes over concatenation. */
  lemma {:induction false} UnsetConcat<K(!new), V>(a: seq<(K, V)>, b: seq<(K, V)>, k: K)
    ensures Unset(a + b, k) == Unset(a, k) + Unset(b, k)
    decreases |a|
  {
    if a == [] {
      assert a + b == b;
    } else {
      assert (a + b)[0] == a[0] && (a + b)[1..] == a[1..] + b;
      UnsetConcat(a[1..], b, k);
      if a[0].0 != k {
        assert [a[0]] + (Unset(a[1..], k) + Unset(b, k)) == [a[0]] + Unset(a[1..], k) + Unset(b, k);
      }
    }
  }

  /** unset of an absent key changes nothing. */
  lemma {:induction false} UnsetAbsent<K(!new), V>(d: seq<(K, V)>, k: K)
    requires Lookup(d, k) == None
    ensures Unset(d, k) == d
    decreases |d|
  {
    if d != [] {
      UnsetAbsent(d[1..], k);
    }
  }

  /** With unique keys, unset removes exactly one entry when the key is present and keeps keys unique. */
  lemma {:induction false} UnsetCount<K(!new), V>(d: seq<(K, V)>, k: K)
    requires UniqueKeys(d)
    ensures |Unset(d, k)| == if Lookup(d, k).Some? then |d| - 1 else |d|
    ensures UniqueKeys(Unset(d, k))
    decreases |d|
  {
    if d != [] {
      assert UniqueKeys(d[1..]) by {
        forall i, j | 0 <= i < j < |d| - 1 ensures d[1..][i].0 != d[1..][j].0 {
          assert d[1..][i] == d[i + 1] && d[1..][j] == d[j + 1];
        }
      }
      UnsetCount(d[1..], k);
      assert Lookup(d[1..], d[0].0) == None by {
        forall i | 0 <= i < |d| - 1 ensures d[1..][i].0 != d[0].0 {
          assert d[1..][i] == d[i + 1];
        }
        LookupFound(d[1..], d[0].0);
      }
      if d[0].0 != k {
        var rest := Unset(d[1..], k);
        var r := [d[0]] + rest;
        UnsetLookup(d[1..], k);
        assert Lookup(rest, d[0].0) == None;
        LookupFound(rest, d[0].0);
        forall i, j | 0 <= i < j < |r| ensures r[i].0 != r[j].0 {
          if i == 0 {
            assert r[j] == rest[j - 1];
          } else {
            assert r[i] == rest[i - 1] && r[j] == rest[j - 1];
          }
        }
      }
    }
  }

  /** In an array with unique keys, every entry is what its key looks up. */
  lemma {:induction false} LookupEntry<K(!new), V>(d: seq<(K, V)>, i: int)
    requires UniqueKeys(d) && 0 <= i < |d|
    ensures Lookup(d, d[i].0) == Some(d[i].1)
    decreases |d|
  {
    if i > 0 {
      assert d[0].0 != d[i].0;
      assert d[1..][i - 1] == d[i];
      LookupEntry(d[1..], i - 1);
    }
  }

  /** A lookup in two arrays laid end to end finds the first one's entry, else the second one's. */
  lemma {:induction false} LookupConcat<K(!new), V>(a: seq<(K, V)>, b: seq<(K, V)>, k: K)
    ensures Lookup(a + b, k) == if Lookup(a, k).Some? then Lookup(a, k) else Lookup(b, k)
    decreases |a|
  {
    if a == [] {
      assert a + b == b;
    } else {
      assert (a + b)[0] == a[0] && (a + b)[1..] == a[1..] + b;
      LookupConcat(a[1..], b, k);
    }
  }

  // ---------------------------------------------------------------------
  // is_numeric
  // ---------------------------------------------------------------------

  /** The white space `is_numeric` accepts before a number. */
  const NumericSpace: set<char> := {' ', '\t', '\n', '\r', '\U{000B}', '\U{000C}'}

  function SkipSpace(s: string, i: nat): (j: nat)
    requires i <= |s|
    ensures i <= j <= |s|
    decreases |s| - i
  {
    if i < |s| && s[i] in NumericSpace then SkipSpace(s, i + 1) else i
  }

  function SkipDigits(s: string, i: nat): (j: nat)
    requires i <= |s|
    ensures i <= j <= |s|
    ensures forall k :: i <= k < j ==> IsDigit(s[k])
    decreases |s| - i
  {
    if i < |s| && IsDigit(s[i]) then SkipDigits(s, i + 1) else i
  }

  /**
   * PHP 7 `is_numeric` on a string: optional leading white space, an
   * optional sign, digits with an optional decimal point (at least one
   * digit on either side), an optional exponent, and nothing after.
   */
  predicate IsNumeric(s: string)
  {
    var a := SkipSpace(s, 0);
    var b := if a < |s| && (s[a] == '+' || s[a] == '-') then a + 1 else a;
    var c := SkipDigits(s, b);
    var d := if c < |s| && s[c] == '.' then SkipDigits(s, c + 1) else c;
    var mantissa := c > b || d > c + 1;
    var f := if d < |s| && (s[d] == 'e' || s[d] == 'E') then
               (if d + 1 < |s| && (s[d + 1] == '+' || s[d + 1] == '-') then d + 2 else d + 1)
             else d;
    var end := if f > d && SkipDigits(s, f) > f then SkipDigits(s, f) else d;
    mantissa && end == |s|
  }
  /** A string that starts with a letter (no space, sign, digit or point) is not numeric. */
  lemma NotNumericStart(s: string)
    requires s != [] && s[0] !in NumericSpace && s[0] != '+' && s[0] != '-' && !IsDigit(s[0]) && s[0] != '.'
    ensures !IsNumeric(s)
  {
    assert SkipSpace(s, 0) == 0;
    assert SkipDigits(s, 0) == 0;
  }

}
