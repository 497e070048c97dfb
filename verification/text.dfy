/** Character-level helpers the C++ code gets from <string>: `find`, the
    tab-splitting loop of the report reader, `std::getline`, `to_string`
    and `stoi`. */
module Text {
  import opened Results

  // ---------------------------------------------------------------------
  // Searching and counting
  // ---------------------------------------------------------------------

  /** Index of the first `c` in `s`, as `std::string::find` returns it
      (`None` stands for `npos`). */
  function IndexOf(s: string, c: char): (r: Option<nat>)
    ensures r.Some? ==> r.value < |s| && s[r.value] == c && c !in s[..r.value]
    ensures r.None? <==> c !in s
  {
    if s == [] then None
    else if s[0] == c then Some(0)
    else match IndexOf(s[1..], c)
      case None => None
      case Some(i) =>
        assert s[..i + 1] == [s[0]] + s[1..][..i];
        Some(i + 1)
  }

  /** Number of occurrences of `c` in `s`. */
  function Count(s: string, c: char): nat
  {
    if s == [] then 0 else (if s[0] == c then 1 else 0) + Count(s[1..], c)
  }

  lemma {:induction false} CountAppend(a: string, b: string, c: char)
    ensures Count(a + b, c) == Count(a, c) + Count(b, c)
  {
    if a == [] {
      assert a + b == b;
    } else {
      assert (a + b)[1..] == a[1..] + b;
      CountAppend(a[1..], b, c);
    }
  }

  lemma {:induction false} CountAbsent(s: string, c: char)
    requires c !in s
    ensures Count(s, c) == 0
  {
    if s != [] {
      assert c !in s[1..];
      CountAbsent(s[1..], c);
    }
  }

  // ---------------------------------------------------------------------
  // Splitting at a separator and joining back
  // ---------------------------------------------------------------------

  /** Fields separated by single `sep` characters. */
  function Join(fields: seq<string>, sep: char): string
  {
    if fields == [] then ""
    else if |fields| == 1 then fields[0]
    else fields[0] + [sep] + Join(fields[1..], sep)
  }

  /** The report reader's tokeniser: repeatedly cut the prefix before the
      first `sep`, drop the separator, and keep the remainder as the last
      field. */
  function Split(s: string, sep: char): (fields: seq<string>)
    ensures |fields| == Count(s, sep) + 1
    ensures forall i :: 0 <= i < |fields| ==> sep !in fields[i]
    ensures Join(fields, sep) == s
    decreases |s|
  {
    match IndexOf(s, sep)
    case None =>
      CountAbsent(s, sep);
      [s]
    case Some(i) =>
      var rest := Split(s[i + 1..], sep);
      SplitStep(s, sep, i, rest);
      [s[..i]] + rest
  }

  /** The fields of `s` when the first separator is at `i`: the prefix,
      then the fields of the text after the separator. */
  predicate SplitsAs(s: string, sep: char, fields: seq<string>)
  {
    && |fields| == Count(s, sep) + 1
    && (forall i :: 0 <= i < |fields| ==> sep !in fields[i])
    && Join(fields, sep) == s
  }

  lemma SplitStep(s: string, sep: char, i: nat, rest: seq<string>)
    requires i < |s| && s[i] == sep && sep !in s[..i]
    requires |rest| == Count(s[i + 1..], sep) + 1
    requires forall k :: 0 <= k < |rest| ==> sep !in rest[k]
    requires Join(rest, sep) == s[i + 1..]
    ensures SplitsAs(s, sep, [s[..i]] + rest)
  {
    var fields := [s[..i]] + rest;
    assert s == s[..i] + ([sep] + s[i + 1..]);
    CountAbsent(s[..i], sep);
    CountAppend(s[..i], [sep] + s[i + 1..], sep);
    CountAppend([sep], s[i + 1..], sep);
    assert fields[1..] == rest;
  }

  /** A character that is neither the separator nor in any field does not
      occur in the joined string. */
  lemma {:induction false} JoinExcludes(fields: seq<string>, sep: char, c: char)
    requires c != sep
    requires forall i :: 0 <= i < |fields| ==> c !in fields[i]
    ensures c !in Join(fields, sep)
  {
    if |fields| > 1 {
      JoinExcludes(fields[1..], sep, c);
    }
  }

  /** Splitting a line that was built by joining tab-free fields gives the
      fields back. */
  lemma {:induction false} SplitJoin(fields: seq<string>, sep: char)
    requires |fields| >= 1
    requires forall i :: 0 <= i < |fields| ==> sep !in fields[i]
    ensures Split(Join(fields, sep), sep) == fields
  {
    if |fields| > 1 {
      var head := fields[0];
      var tail := Join(fields[1..], sep);
      var s := Join(fields, sep);
      assert s == head + [sep] + tail;
      assert s[|head|] == sep;
      assert s[..|head|] == head;
      assert IndexOf(s, sep) == Some(|head|);
      assert s[|head| + 1..] == tail;
      SplitJoin(fields[1..], sep);
    }
  }

  // ---------------------------------------------------------------------
  // Lines, as written with `<< endl` and read with `std::getline`
  // ---------------------------------------------------------------------

  /** A file holding `lines`, each terminated by a newline. */
  function Unlines(lines: seq<string>): string
  {
    if lines == [] then "" else lines[0] + "\n" + Unlines(lines[1..])
  }

  /** The lines `std::getline` yields from `text`: a final newline does not
      start an extra empty line. */
  function Lines(text: string): seq<string>
  {
    if text == [] then []
    else if text[|text| - 1] == '\n' then Split(text[..|text| - 1], '\n')
    else Split(text, '\n')
  }

  lemma {:induction false} UnlinesIsJoin(lines: seq<string>)
    requires |lines| >= 1
    ensures Unlines(lines) == Join(lines, '\n') + "\n"
  {
    if |lines| > 1 {
      UnlinesIsJoin(lines[1..]);
    }
  }

  /** Reading back a file written line by line returns the lines written,
      provided none of them contains a newline. */
  lemma {:induction false} LinesUnlines(lines: seq<string>)
    requires forall i :: 0 <= i < |lines| ==> '\n' !in lines[i]
    ensures Lines(Unlines(lines)) == lines
  {
    if lines != [] {
      UnlinesIsJoin(lines);
      var text := Unlines(lines);
      assert text[..|text| - 1] == Join(lines, '\n');
      SplitJoin(lines, '\n');
    }
  }

  // ---------------------------------------------------------------------
  // Decimal numerals: `to_string` and `stoi`
  // ---------------------------------------------------------------------

  predicate IsDigit(c: char) { '0' <= c <= '9' }

  predicate AllDigits(s: string) { forall i :: 0 <= i < |s| ==> IsDigit(s[i]) }

  function DigitChar(d: nat): (c: char)
    requires d < 10
    ensures IsDigit(c)
  {
    ('0' as int + d) as char
  }

  function DigitValue(c: char): nat
    requires IsDigit(c)
  {
    c as int - '0' as int
  }

  /** Value of a string of decimal digits, most significant first. */
  function DigitsValue(s: string): nat
    requires AllDigits(s)
  {
    if s == [] then 0 else DigitsValue(s[..|s| - 1]) * 10 + DigitValue(s[|s| - 1])
  }

  /** `to_string` of a non-negative number: a non-empty digit string with no
      leading zero that denotes `n`. */
  function NatToString(n: nat): (s: string)
    ensures |s| >= 1 && AllDigits(s)
    ensures DigitsValue(s) == n
    ensures s[0] == '0' <==> n == 0
    decreases n
  {
    if n < 10 then [DigitChar(n)]
    else
      var prefix := NatToString(n / 10);
      var s := prefix + [DigitChar(n % 10)];
      assert s[..|s| - 1] == prefix;
      s
  }

  /** `to_string` of a signed number. */
  function IntToString(n: int): string
  {
    if n < 0 then "-" + NatToString(-n) else NatToString(n)
  }

  /** A numeral is a minus sign and digits: no tab, no newline. */
  lemma IntToStringPlain(n: int)
    ensures '\t' !in IntToString(n) && '\n' !in IntToString(n)
  {
    var d := NatToString(if n < 0 then -n else n);
    assert forall i :: 0 <= i < |d| ==> d[i] != '\t' && d[i] != '\n';
  }

  predicate IsSpace(c: char)
  {
    c == ' ' || c == '\t' || c == '\n' || c == '\r' || c == '\U{B}' || c == '\U{C}'
  }

  /** Drops leading white space, as `strtol` does before the number. */
  function SkipSpace(s: string): (t: string)
    ensures |t| <= |s| && t == s[|s| - |t|..]
    ensures t == [] || !IsSpace(t[0])
  {
    if s != [] && IsSpace(s[0]) then SkipSpace(s[1..]) else s
  }

  /** The longest prefix of `s` made of digits. */
  function DigitRun(s: string): (d: string)
    ensures |d| <= |s| && d == s[..|d|] && AllDigits(d)
    ensures |d| == |s| || !IsDigit(s[|d|])
  {
    if s != [] && IsDigit(s[0]) then
      var rest := DigitRun(s[1..]);
      assert [s[0]] + rest == s[..|rest| + 1];
      [s[0]] + rest
    else []
  }

  lemma {:induction false} DigitRunOfDigits(d: string, rest: string)
    requires AllDigits(d)
    requires rest == [] || !IsDigit(rest[0])
    ensures DigitRun(d + rest) == d
  {
    if d != [] {
      assert (d + rest)[1..] == d[1..] + rest;
      DigitRunOfDigits(d[1..], rest);
    } else {
      assert d + rest == rest;
    }
  }

  const IntMin: int := -0x8000_0000
  const IntMax: int := 0x7fff_ffff

  /** The range of a C++ `int` on the platforms the program targets. */
  predicate IsInt(x: int) { IntMin <= x <= IntMax }

  /** A numeral after the white space: an optional sign, then at least
      one digit; the text after the digits is ignored. `None` when there
      is no digit or the value does not fit an `int`. */
  function Numeral(t: string): (r: Option<int>)
    ensures r.Some? ==> IsInt(r.value)
    ensures r.Some? ==> |t| > 0 && (IsDigit(t[0]) || (|t| > 1 && IsDigit(t[1])))
  {
    var signed := |t| > 0 && (t[0] == '-' || t[0] == '+');
    var u := if signed then t[1..] else t;
    var d := DigitRun(u);
    if d == [] then None
    else
      var v: int := if signed && t[0] == '-' then -(DigitsValue(d) as int) else DigitsValue(d);
      if IsInt(v) then Some(v) else None
  }

  /** `std::stoi`: optional white space, then a numeral. `None` stands for
      the exception `stoi` throws when there is no digit or the value does
      not fit an `int`. */
  function StoI(s: string): (r: Option<int>)
    ensures r.Some? ==> IsInt(r.value)
    ensures r.Some? ==> exists i :: 0 <= i < |s| && IsDigit(s[i])
  {
    var t := SkipSpace(s);
    var r := Numeral(t);
    if r.Some? then
      var k := |s| - |t|;
      assert IsDigit(s[k]) || IsDigit(s[k + 1]);
      r
    else r
  }

  /** White space skipping stops at once before a non-space. */
  lemma SkipSpaceNone(s: string)
    requires s != [] && !IsSpace(s[0])
    ensures SkipSpace(s) == s
  {
  }

  /** `stoi` reads back what `to_string` wrote, for every `int`. */
  lemma {:induction false} StoIToString(n: int)
    requires IsInt(n)
    ensures StoI(IntToString(n)) == Some(n)
  {
    hide Numeral, NatToString, DigitsValue, DigitRun, SkipSpace;
    var s := IntToString(n);
    assert s[0] == '-' || IsDigit(s[0]);
    SkipSpaceNone(s);
    if n < 0 {
      NumeralNegative(NatToString(-n));
    } else {
      NumeralDigits(s);
    }
  }

  /** A digit string reads as its value. */
  lemma NumeralDigits(d: string)
    requires d != [] && AllDigits(d) && IsInt(DigitsValue(d))
    ensures Numeral(d) == Some(DigitsValue(d))
  {
    hide DigitsValue;
    DigitRunOfDigits(d, []);
    assert d + [] == d;
  }

  /** A minus sign and a digit string read as the negated value. */
  lemma NumeralNegative(d: string)
    requires d != [] && AllDigits(d) && IsInt(-(DigitsValue(d) as int))
    ensures Numeral("-" + d) == Some(-(DigitsValue(d) as int))
  {
    hide DigitsValue;
    var t := "-" + d;
    assert t[1..] == d;
    DigitRunOfDigits(d, []);
    assert d + [] == d;
  }
}
