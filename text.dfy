/** The .NET string and integer primitives the solvers rely on, over `string == seq<char>`. */
module Text {
  import opened Results

  /** `char.IsWhiteSpace`, the test of `string.Trim`, `StringSplitOptions.TrimEntries` and
      `string.IsNullOrWhiteSpace`: the Unicode space separators, the line and paragraph
      separators, and the control characters U+0009..U+000D and U+0085. */
  function IsWhiteSpace(c: char): (ws: bool)
    ensures IsNumberWhiteSpace(c) ==> ws
    ensures ws ==> !IsDecimalDigit(c)
  {
    ('\t' <= c <= '\r') || c == ' ' || c == '\U{0085}' || c == '\U{00A0}' || c == '\U{1680}' ||
    ('\U{2000}' <= c <= '\U{200A}') || c == '\U{2028}' || c == '\U{2029}' || c == '\U{202F}' ||
    c == '\U{205F}' || c == '\U{3000}'
  }

  /** The white space `int.TryParse` skips around a number: U+0009..U+000D and U+0020 only. */
  predicate IsNumberWhiteSpace(c: char)
  {
    c == ' ' || ('\t' <= c <= '\r')
  }

  /** The digits `int.TryParse` reads: '0'..'9' only. */
  predicate IsDigit(c: char)
  {
    '0' <= c <= '9'
  }

  /** `start <= n < start + 10`: one run of ten decimal digits, zero to nine. */
  predicate InDigitRun(n: int, start: int)
  {
    start <= n < start + 10
  }

  /** `char.IsDigit`: a decimal digit (Unicode category Nd) of any script among the characters of
      one UTF-16 code unit, such as '0'..'9', U+0663 ARABIC-INDIC DIGIT THREE or U+FF15 FULLWIDTH
      DIGIT FIVE; each script's digits are one run of ten code points. */
  function IsDecimalDigit(c: char): (d: bool)
    ensures IsDigit(c) ==> d
    ensures d ==> c != '(' && c != ',' && c != ')'
  {
    var n := c as int;
    InDigitRun(n, 0x0030) || InDigitRun(n, 0x0660) || InDigitRun(n, 0x06F0) || InDigitRun(n, 0x07C0) ||
    InDigitRun(n, 0x0966) || InDigitRun(n, 0x09E6) || InDigitRun(n, 0x0A66) || InDigitRun(n, 0x0AE6) ||
    InDigitRun(n, 0x0B66) || InDigitRun(n, 0x0BE6) || InDigitRun(n, 0x0C66) || InDigitRun(n, 0x0CE6) ||
    InDigitRun(n, 0x0D66) || InDigitRun(n, 0x0DE6) || InDigitRun(n, 0x0E50) || InDigitRun(n, 0x0ED0) ||
    InDigitRun(n, 0x0F20) || InDigitRun(n, 0x1040) || InDigitRun(n, 0x1090) || InDigitRun(n, 0x17E0) ||
    InDigitRun(n, 0x1810) || InDigitRun(n, 0x1946) || InDigitRun(n, 0x19D0) || InDigitRun(n, 0x1A80) ||
    InDigitRun(n, 0x1A90) || InDigitRun(n, 0x1B50) || InDigitRun(n, 0x1BB0) || InDigitRun(n, 0x1C40) ||
    InDigitRun(n, 0x1C50) || InDigitRun(n, 0xA620) || InDigitRun(n, 0xA8D0) || InDigitRun(n, 0xA900) ||
    InDigitRun(n, 0xA9D0) || InDigitRun(n, 0xA9F0) || InDigitRun(n, 0xAA50) || InDigitRun(n, 0xABF0) ||
    InDigitRun(n, 0xFF10)
  }

  predicate AllDecimalDigits(s: string)
  {
    forall i :: 0 <= i < |s| ==> IsDecimalDigit(s[i])
  }

  /** Every digit `int.TryParse` reads is a digit to `char.IsDigit`, and U+0663 is one more. */
  lemma DigitsAreDecimalDigits(c: char)
    ensures IsDigit(c) ==> IsDecimalDigit(c)
    ensures IsDecimalDigit('\U{0663}') && !IsDigit('\U{0663}')
  {
  }

  predicate AllDigits(s: string)
  {
    forall i :: 0 <= i < |s| ==> IsDigit(s[i])
  }

  function DigitValue(c: char): nat
    requires IsDigit(c)
  {
    c as int - '0' as int
  }

  function DigitChar(d: nat): char
    requires d < 10
  {
    (d + '0' as int) as char
  }

  /** The value of a run of decimal digits, most significant digit first. */
  function DigitsValue(s: string): nat
    requires AllDigits(s)
  {
    if s == [] then 0 else DigitsValue(s[..|s| - 1]) * 10 + DigitValue(s[|s| - 1])
  }

  const IntMin: int := -0x8000_0000
  const IntMax: int := 0x7FFF_FFFF

  predicate InInt32(n: int)
  {
    IntMin <= n <= IntMax
  }

  /** `s` without its leading characters of class `white`. */
  function TrimStart(s: string, white: char -> bool): string
  {
    if s != [] && white(s[0]) then TrimStart(s[1..], white) else s
  }

  /** `s` without its trailing characters of class `white`. */
  function TrimEnd(s: string, white: char -> bool): string
  {
    if s != [] && white(s[|s| - 1]) then TrimEnd(s[..|s| - 1], white) else s
  }

  /** Trimming the start keeps a suffix that does not start with a character of the class. */
  lemma {:induction false} TrimStartSuffix(s: string, white: char -> bool)
    ensures |TrimStart(s, white)| <= |s| && TrimStart(s, white) == s[|s| - |TrimStart(s, white)|..]
    ensures TrimStart(s, white) != [] ==> !white(TrimStart(s, white)[0])
  {
    if s != [] && white(s[0]) {
      TrimStartSuffix(s[1..], white);
    }
  }

  /** Trimming the end keeps a prefix that does not end with a character of the class. */
  lemma {:induction false} TrimEndPrefix(s: string, white: char -> bool)
    ensures |TrimEnd(s, white)| <= |s| && TrimEnd(s, white) == s[..|TrimEnd(s, white)|]
    ensures TrimEnd(s, white) != [] ==> !white(TrimEnd(s, white)[|TrimEnd(s, white)| - 1])
  {
    if s != [] && white(s[|s| - 1]) {
      TrimEndPrefix(s[..|s| - 1], white);
    }
  }

  /** `string.Trim()` */
  function Trim(s: string): (r: string)
    ensures |r| <= |s|
    ensures r != [] ==> !IsWhiteSpace(r[0]) && !IsWhiteSpace(r[|r| - 1])
  {
    TrimStartSuffix(s, IsWhiteSpace);
    TrimEndPrefix(TrimStart(s, IsWhiteSpace), IsWhiteSpace);
    TrimEnd(TrimStart(s, IsWhiteSpace), IsWhiteSpace)
  }

  predicate IsNul(c: char)
  {
    c == '\0'
  }

  /** `int.TryParse(s, out v)` with the default number style: optional white space around the
      number (`IsNumberWhiteSpace`), an optional sign, at least one digit '0'..'9', and a value
      that fits 32 bits. After the number and its trailing white space only U+0000 characters
      may follow. */
  function ParseInt(s: string): (r: Option<int>)
    ensures r.Some? ==> InInt32(r.value)
    ensures s == [] ==> r.None?
  {
    var t := TrimEnd(TrimStart(TrimEnd(s, IsNul), IsNumberWhiteSpace), IsNumberWhiteSpace);
    var signed := |t| > 0 && (t[0] == '-' || t[0] == '+');
    var digits := if signed then t[1..] else t;
    if digits == [] || !AllDigits(digits) then None
    else
      var v: int := if signed && t[0] == '-' then -(DigitsValue(digits) as int) else DigitsValue(digits);
      if InInt32(v) then Some(v) else None
  }

  /** `n.ToString()` for a natural number. */
  function NatToString(n: nat): (s: string)
    ensures s != [] && AllDigits(s) && DigitsValue(s) == n
  {
    if n < 10 then [DigitChar(n)]
    else
      var prefix := NatToString(n / 10);
      var s := prefix + [DigitChar(n % 10)];
      assert s[..|s| - 1] == prefix;
      s
  }

  /** `n.ToString()`: a minus sign for a negative number, then the digits of its magnitude. */
  function IntToString(n: int): (s: string)
    ensures s != [] && IsDigit(s[|s| - 1])
    ensures s[0] == '-' <==> n < 0
    ensures forall i :: 0 <= i < |s| ==> IsDigit(s[i]) || (i == 0 && s[i] == '-')
  {
    if n < 0 then "-" + NatToString(-(n as int)) else NatToString(n)
  }

  lemma TrimNoWhiteSpace(s: string)
    requires s != [] && !IsWhiteSpace(s[0]) && !IsWhiteSpace(s[|s| - 1])
    ensures Trim(s) == s
  {
  }

  /** Trimming a non-empty text that ends in a character of none of the classes leaves it alone. */
  lemma NumberTrimLeavesNumber(s: string)
    requires s != [] && !IsNumberWhiteSpace(s[0]) && !IsNumberWhiteSpace(s[|s| - 1]) && !IsNul(s[|s| - 1])
    ensures TrimEnd(TrimStart(TrimEnd(s, IsNul), IsNumberWhiteSpace), IsNumberWhiteSpace) == s
  {
  }

  /** Rendering a 32-bit integer and parsing it back gives the integer. */
  lemma ParseIntToString(n: int)
    requires InInt32(n)
    ensures ParseInt(IntToString(n)) == Some(n)
  {
    var s := IntToString(n);
    NumberTrimLeavesNumber(s);
    if n < 0 {
      assert s[1..] == NatToString(-n);
    }
  }

  /** `s.Split(sep)`: the pieces between separators, empty pieces included. */
  function Split(s: string, sep: char): (parts: seq<string>)
    ensures |parts| >= 1
    ensures forall i :: 0 <= i < |parts| ==> sep !in parts[i]
    ensures sep !in s ==> parts == [s]
  {
    if s == [] then [""]
    else
      var rest := Split(s[1..], sep);
      if s[0] == sep then [""] + rest
      else
        assert s == [s[0]] + s[1..];
        [[s[0]] + rest[0]] + rest[1..]
  }

  /** Splitting at the first separator: the text before it is one piece, the rest splits on. */
  lemma {:induction false} SplitAtSeparator(x: string, y: string, sep: char)
    requires sep !in x
    ensures Split(x + [sep] + y, sep) == [x] + Split(y, sep)
  {
    if x == [] {
      assert x + [sep] + y == [sep] + y;
    } else {
      var whole := x + [sep] + y;
      assert whole[0] == x[0] && whole[0] != sep;
      assert whole[1..] == x[1..] + [sep] + y;
      SplitAtSeparator(x[1..], y, sep);
      var rest := Split(whole[1..], sep);
      assert rest[0] == x[1..];
      assert Split(whole, sep) == [[x[0]] + rest[0]] + rest[1..];
      assert [x[0]] + x[1..] == x;
    }
  }

  /** The numbers written out with `sep` between them. */
  function JoinInts(values: seq<int>, sep: char): string
    requires |values| >= 1
  {
    if |values| == 1 then IntToString(values[0]) else IntToString(values[0]) + [sep] + JoinInts(values[1..], sep)
  }

  /** A separator that cannot occur in a number splits the joined numbers back into their texts. */
  lemma {:induction false} SplitJoinedInts(values: seq<int>, sep: char)
    requires |values| >= 1 && !IsDigit(sep) && sep != '-'
    ensures |Split(JoinInts(values, sep), sep)| == |values|
    ensures forall k :: 0 <= k < |values| ==> Split(JoinInts(values, sep), sep)[k] == IntToString(values[k])
  {
    var s := IntToString(values[0]);
    NoSeparatorInInt(values[0], sep);
    if |values| > 1 {
      var rest := values[1..];
      SplitAtSeparator(s, JoinInts(rest, sep), sep);
      SplitJoinedInts(rest, sep);
      var parts := Split(JoinInts(values, sep), sep);
      assert parts == [s] + Split(JoinInts(rest, sep), sep);
      forall k | 1 <= k < |values| ensures parts[k] == IntToString(values[k]) {
        assert parts[k] == Split(JoinInts(rest, sep), sep)[k - 1];
        assert rest[k - 1] == values[k];
      }
    }
  }

  lemma NoSeparatorInInt(n: int, sep: char)
    requires !IsDigit(sep) && sep != '-'
    ensures sep !in IntToString(n)
  {
    var s := IntToString(n);
    forall i | 0 <= i < |s| ensures s[i] != sep {
      assert IsDigit(s[i]) || s[i] == '-';
    }
  }

  /** Joining 32-bit numbers, splitting them apart again and parsing each piece gives the numbers. */
  lemma ParseJoinedInts(values: seq<int>, sep: char)
    requires |values| >= 1 && !IsDigit(sep) && sep != '-'
    requires forall k :: 0 <= k < |values| ==> InInt32(values[k])
    ensures ParseInts(Split(JoinInts(values, sep), sep)) == AllParsed(values)
  {
    SplitJoinedInts(values, sep);
    var pieces := Split(JoinInts(values, sep), sep);
    FirstFailureAll(ParseEach(pieces));
    assert |pieces| == |values|;
    forall k | 0 <= k < |values| ensures ParseInt(pieces[k]) == Some(values[k]) {
      ParseIntToString(values[k]);
    }
    var parsed := ParseInts(pieces);
    assert parsed.AllParsed?;
    assert parsed.values == values;
  }

  /** `StringSplitOptions.RemoveEmptyEntries`: the non-empty pieces, in order. */
  function RemoveEmpty(parts: seq<string>): (r: seq<string>)
    ensures forall i :: 0 <= i < |r| ==> r[i] != ""
    ensures |r| <= |parts|
  {
    if parts == [] then []
    else (if parts[0] == "" then [] else [parts[0]]) + RemoveEmpty(parts[1..])
  }

  /** Removing empty pieces works piece by piece, so the pieces kept stay in their order. */
  lemma {:induction false} RemoveEmptyAppend(a: seq<string>, b: seq<string>)
    ensures RemoveEmpty(a + b) == RemoveEmpty(a) + RemoveEmpty(b)
  {
    if a != [] {
      assert (a + b)[0] == a[0] && (a + b)[1..] == a[1..] + b;
      RemoveEmptyAppend(a[1..], b);
    } else {
      assert a + b == b;
    }
  }

  /** Every non-empty piece is kept, as often as it occurs. */
  lemma {:induction false} RemoveEmptyCounts(parts: seq<string>)
    ensures forall s :: s != "" ==> multiset(RemoveEmpty(parts))[s] == multiset(parts)[s]
  {
    if parts != [] {
      RemoveEmptyCounts(parts[1..]);
      assert parts == [parts[0]] + parts[1..];
      assert multiset(parts) == multiset([parts[0]]) + multiset(parts[1..]);
    }
  }

  /** `StringSplitOptions.TrimEntries`: every piece trimmed. */
  function TrimEach(parts: seq<string>): (r: seq<string>)
    ensures |r| == |parts|
  {
    seq(|parts|, i requires 0 <= i < |parts| => Trim(parts[i]))
  }

  /** `reader.ReadLine()` on a reader positioned at line `i`; `None` past the end. */
  function ReadLine(lines: seq<string>, i: nat): (line: Option<string>)
    ensures line.Some? <==> i < |lines|
    ensures line.Some? ==> line.value == lines[i]
  {
    if i < |lines| then Some(lines[i]) else None
  }

  function IsNullOrEmpty(line: Option<string>): (empty: bool)
    ensures empty ==> IsNullOrWhiteSpace(line)
  {
    line.None? || line.value == ""
  }

  predicate IsBlank(s: string)
  {
    forall i :: 0 <= i < |s| ==> IsWhiteSpace(s[i])
  }

  function IsNullOrWhiteSpace(line: Option<string>): (blank: bool)
    ensures line.Some? && (exists k :: 0 <= k < |line.value| && IsDecimalDigit(line.value[k])) ==> !blank
  {
    line.None? || IsBlank(line.value)
  }

  /** The number of lines a `while (!string.IsNullOrEmpty(line))` loop consumes. */
  function UntilEmpty(lines: seq<string>): (n: nat)
    ensures n <= |lines|
    ensures forall i :: 0 <= i < n ==> lines[i] != ""
    ensures n < |lines| ==> lines[n] == ""
  {
    if lines == [] || lines[0] == "" then 0 else 1 + UntilEmpty(lines[1..])
  }

  /** A loop reading lines until an empty one stops exactly at `UntilEmpty`. */
  lemma ReadsUntilEmpty(lines: seq<string>, n: nat)
    requires n <= UntilEmpty(lines)
    ensures !IsNullOrEmpty(ReadLine(lines, n)) <==> n < UntilEmpty(lines)
    ensures n < UntilEmpty(lines) ==> ReadLine(lines, n) == Some(lines[n])
  {
  }

  /** The number of lines a `while (!string.IsNullOrWhiteSpace(line))` loop consumes. */
  function UntilBlank(lines: seq<string>): (n: nat)
    ensures n <= |lines|
    ensures forall i :: 0 <= i < n ==> !IsBlank(lines[i])
    ensures n < |lines| ==> IsBlank(lines[n])
  {
    if lines == [] || IsBlank(lines[0]) then 0 else 1 + UntilBlank(lines[1..])
  }

  /** The outcome of parsing each token with `int.TryParse`, stopping at the first failure. */
  datatype IntsParse = AllParsed(values: seq<int>) | BadToken(index: nat)

  /** `int.TryParse` applied to each token. */
  function ParseEach(tokens: seq<string>): (parsed: seq<Option<int>>)
    ensures |parsed| == |tokens|
    ensures forall i :: 0 <= i < |tokens| ==> parsed[i] == ParseInt(tokens[i])
  {
    seq(|tokens|, i requires 0 <= i < |tokens| => ParseInt(tokens[i]))
  }

  /** The parsed values in order, or the index of the first token that did not parse. */
  function FirstFailure(parsed: seq<Option<int>>): (r: IntsParse)
    ensures r.AllParsed? ==> |r.values| == |parsed|
    ensures r.BadToken? ==> r.index < |parsed|
  {
    if parsed == [] then AllParsed([])
    else
      var n := |parsed| - 1;
      match FirstFailure(parsed[..n])
      case BadToken(k) => BadToken(k)
      case AllParsed(values) =>
        match parsed[n]
        case None => BadToken(n)
        case Some(v) => AllParsed(values + [v])
  }

  /** Parsing each token with `int.TryParse`, stopping at the first failure. */
  function ParseInts(tokens: seq<string>): (r: IntsParse)
    ensures r.AllParsed? ==> |r.values| == |tokens|
    ensures r.BadToken? ==> r.index < |tokens|
  {
    FirstFailure(ParseEach(tokens))
  }

  /** Every token parses exactly when parsing gets through them all, and then each value is its
      token's; otherwise the token named is the first that does not parse. */
  lemma {:induction false} FirstFailureAll(parsed: seq<Option<int>>)
    ensures FirstFailure(parsed).AllParsed? <==> forall i :: 0 <= i < |parsed| ==> parsed[i].Some?
    ensures FirstFailure(parsed).AllParsed? ==>
      forall i :: 0 <= i < |parsed| ==> FirstFailure(parsed).values[i] == parsed[i].value
    ensures FirstFailure(parsed).BadToken? ==>
      parsed[FirstFailure(parsed).index].None? &&
      forall i :: 0 <= i < FirstFailure(parsed).index ==> parsed[i].Some?
  {
    if parsed != [] {
      var n := |parsed| - 1;
      var init := parsed[..n];
      FirstFailureAll(init);
      assert forall i :: 0 <= i < n ==> init[i] == parsed[i];
      if FirstFailure(init).BadToken? {
        assert parsed[FirstFailure(init).index].None?;
      }
    }
  }

  /** Parsing one more token: the loop step of every caller that parses tokens one by one and stops
      at the first that is not a number. */
  lemma FirstFailureStep(parsed: seq<Option<int>>, i: nat)
    requires i < |parsed| && FirstFailure(parsed[..i]).AllParsed?
    ensures parsed[i].Some? ==>
      FirstFailure(parsed[..i + 1]) == AllParsed(FirstFailure(parsed[..i]).values + [parsed[i].value])
    ensures parsed[i].None? ==> FirstFailure(parsed[..i + 1]) == BadToken(i)
  {
    var prefix := parsed[..i + 1];
    assert prefix[..i] == parsed[..i];
    assert prefix[i] == parsed[i];
  }

  /** Once a token fails, later tokens do not matter. */
  lemma {:induction false} FirstFailureStays(parsed: seq<Option<int>>, n: nat)
    requires n <= |parsed| && FirstFailure(parsed[..n]).BadToken?
    ensures FirstFailure(parsed) == FirstFailure(parsed[..n])
  {
    if n < |parsed| {
      assert parsed[..|parsed| - 1][..n] == parsed[..n];
      FirstFailureStays(parsed[..|parsed| - 1], n);
    } else {
      assert parsed[..n] == parsed;
    }
  }
}
