/** Day 7: equation lines `value: a b c`. Only the reading of the equations is there; the solver
    answers that no solution was found. */
module Day07 {
  import opened Results
  import opened Text

  /** A test value and the numbers to combine into it. */
  datatype Equation = Equation(value: int, arguments: seq<int>)

  /** The equation a line describes: exactly one ':' with an integer before it, and
      space-separated integers after it (runs of spaces allowed); otherwise why it is rejected. */
  function EquationOf(line: string): (r: Result<Equation>)
    ensures r.Ok? ==> ':' in line && InInt32(r.value.value)
  {
    var equationSides := Split(line, ':');
    if |equationSides| != 2 then FailWith("Unable to find sides of equation", None)
    else if ParseInt(equationSides[0]).None? then FailWith("Failed to parse equation value", None)
    else
      match Arguments(RemoveEmpty(Split(equationSides[1], ' ')))
      case Fail(f) => Fail(f)
      case Ok(values) => Ok(Equation(ParseInt(equationSides[0]).value, values))
  }

  /** The failure for argument `i`, counted from 0, reported 1-based. */
  function ArgumentError(i: nat): Result<seq<int>>
  {
    FailWith("Failed to parse value of argument " + IntToString(i + 1), None)
  }

  /** The arguments of an equation, or the 1-based position of the first that is not a number. */
  function Arguments(args: seq<string>): (r: Result<seq<int>>)
    ensures r.Ok? ==> |r.value| == |args|
    ensures r.Fail? ==> args != []
  {
    match ParseInts(args)
    case BadToken(i) => ArgumentError(i)
    case AllParsed(values) => Ok(values)
  }

  /** A line without a colon has no sides. */
  lemma NoColonNoSides(line: string)
    requires ':' !in line
    ensures EquationOf(line) == FailWith("Unable to find sides of equation", None)
  {
  }

  /** `ParseEquation(line)`: the sides, the value, then the arguments appended one by one. */
  method ParseEquation(line: string) returns (r: Result<Equation>)
    ensures r == EquationOf(line)
  {
    var equationSides := Split(line, ':');
    if |equationSides| != 2 {
      return FailWith("Unable to find sides of equation", None);
    }
    var value := ParseInt(equationSides[0]);
    if value.None? {
      return FailWith("Failed to parse equation value", None);
    }
    var arguments := ParseArguments(RemoveEmpty(Split(equationSides[1], ' ')));
    if arguments.Fail? {
      return Fail(arguments.failure);
    }
    return Ok(Equation(value.value, arguments.value));
  }

  /** The loop of `ParseEquation` that appends the arguments one by one. */
  method ParseArguments(args: seq<string>) returns (r: Result<seq<int>>)
    ensures r == Arguments(args)
  {
    ghost var parsed := ParseEach(args);
    var arguments: seq<int> := [];
    for i := 0 to |args|
      invariant FirstFailure(parsed[..i]) == AllParsed(arguments)
    {
      FirstFailureStep(parsed, i);
      var argValue := ParseInt(args[i]);
      assert argValue == parsed[i];
      if argValue.None? {
        FirstFailureStays(parsed, i + 1);
        return ArgumentError(i);
      }
      arguments := arguments + [argValue.value];
    }
    assert parsed[..|args|] == parsed;
    return Ok(arguments);
  }

  /** Dropping empty pieces leaves a list without empty pieces as it is. */
  lemma {:induction false} RemoveEmptyKeepsNonEmpty(parts: seq<string>)
    requires forall i :: 0 <= i < |parts| ==> parts[i] != ""
    ensures RemoveEmpty(parts) == parts
  {
    if parts != [] {
      RemoveEmptyKeepsNonEmpty(parts[1..]);
      assert [parts[0]] + parts[1..] == parts;
    }
  }

  /** The text of an equation as the puzzle writes it: the value, a colon, then a space before each
      argument. */
  function EquationText(equation: Equation): string
    requires |equation.arguments| >= 1
  {
    IntToString(equation.value) + ":" + " " + JoinInts(equation.arguments, ' ')
  }

  /** An equation written out reads back as itself. */
  lemma EquationRoundTrip(equation: Equation)
    requires |equation.arguments| >= 1
    requires InInt32(equation.value) && forall k :: 0 <= k < |equation.arguments| ==> InInt32(equation.arguments[k])
    ensures EquationOf(EquationText(equation)) == Ok(equation)
  {
    var head := IntToString(equation.value);
    var joined := JoinInts(equation.arguments, ' ');
    var rhs := " " + joined;
    EquationTextSides(equation);
    ParseIntToString(equation.value);
    ArgumentTexts(equation.arguments);
    ParseJoinedInts(equation.arguments, ' ');
    assert Arguments(RemoveEmpty(Split(rhs, ' '))) == Ok(equation.arguments);
  }

  /** The colon splits an equation's text into the value's text and the arguments' text. */
  lemma EquationTextSides(equation: Equation)
    requires |equation.arguments| >= 1
    ensures Split(EquationText(equation), ':') ==
      [IntToString(equation.value), " " + JoinInts(equation.arguments, ' ')]
  {
    var head := IntToString(equation.value);
    var rhs := " " + JoinInts(equation.arguments, ' ');
    NoSeparatorInInt(equation.value, ':');
    assert ':' !in rhs by {
      forall k | 0 <= k < |rhs| ensures rhs[k] != ':' {
        JoinedIntsChars(equation.arguments, ' ', k);
      }
    }
    SplitAtSeparator(head, rhs, ':');
    assert EquationText(equation) == head + [':'] + rhs;
  }

  /** The space before the first argument only adds an empty piece, which is dropped. */
  lemma ArgumentTexts(arguments: seq<int>)
    requires |arguments| >= 1
    ensures RemoveEmpty(Split(" " + JoinInts(arguments, ' '), ' ')) == Split(JoinInts(arguments, ' '), ' ')
  {
    var joined := JoinInts(arguments, ' ');
    var rhs := " " + joined;
    assert rhs[0] == ' ' && rhs[1..] == joined;
    var pieces := Split(joined, ' ');
    assert Split(rhs, ' ') == [""] + pieces;
    assert RemoveEmpty(Split(rhs, ' ')) == RemoveEmpty(pieces) by {
      assert (Split(rhs, ' '))[1..] == pieces;
    }
    SplitJoinedInts(arguments, ' ');
    RemoveEmptyKeepsNonEmpty(pieces);
  }

  /** The characters of numbers joined with a separator are digits, minus signs or the separator. */
  lemma JoinedIntsChars(values: seq<int>, sep: char, k: int)
    requires |values| >= 1
    ensures 0 <= k < |" " + JoinInts(values, sep)| ==>
      var c := (" " + JoinInts(values, sep))[k]; c == ' ' || c == sep || c == '-' || IsDigit(c)
  {
    if 0 < k < |" " + JoinInts(values, sep)| {
      JoinIntsChars(values, sep, k - 1);
    }
  }

  lemma {:induction false} JoinIntsChars(values: seq<int>, sep: char, k: int)
    requires |values| >= 1 && 0 <= k < |JoinInts(values, sep)|
    ensures var c := JoinInts(values, sep)[k]; c == sep || c == '-' || IsDigit(c)
  {
    var joined := JoinInts(values, sep);
    var first := IntToString(values[0]);
    if |values| == 1 {
      assert joined[k] == first[k];
    } else {
      var rest := JoinInts(values[1..], sep);
      assert joined == first + [sep] + rest;
      if k < |first| {
        assert joined[k] == first[k];
      } else if k == |first| {
        assert joined[k] == sep;
      } else {
        assert joined[k] == rest[k - |first| - 1];
        JoinIntsChars(values[1..], sep, k - |first| - 1);
      }
    }
  }

  /** What each line parses to. */
  function LineEquations(lines: seq<string>): (results: seq<Result<Equation>>)
    ensures |results| == |lines|
    ensures forall i :: 0 <= i < |lines| ==> results[i] == EquationOf(lines[i])
  {
    seq(|lines|, i requires 0 <= i < |lines| => EquationOf(lines[i]))
  }

  /** The parsed equations in order, or the first failure wrapped with its line number, counted
      from one. */
  function Collect(results: seq<Result<Equation>>): (r: Result<seq<Equation>>)
    ensures r.Fail? ==> "Error on line " <= r.failure.reason && r.failure.inner.Some?
  {
    if results == [] then Ok([])
    else
      var n := |results| - 1;
      match Collect(results[..n])
      case Fail(f) => Fail(f)
      case Ok(equations) =>
        match results[n]
        case Fail(f) => FailWith("Error on line " + IntToString(n + 1), Some(f))
        case Ok(equation) => Ok(equations + [equation])
  }

  /** The equations on `lines`. */
  function Equations(lines: seq<string>): (r: Result<seq<Equation>>)
    ensures r.Ok? ==> |r.value| == |lines|
  {
    CollectAllLines(LineEquations(lines));
    Collect(LineEquations(lines))
  }

  /** Collecting succeeds exactly when every line parses, and then gives the parsed equations in
      order, one per line. */
  lemma {:induction false} CollectAllLines(results: seq<Result<Equation>>)
    ensures Collect(results).Ok? <==> forall i :: 0 <= i < |results| ==> results[i].Ok?
    ensures Collect(results).Ok? ==>
      |Collect(results).value| == |results| &&
      forall i :: 0 <= i < |results| ==> Collect(results).value[i] == results[i].value
  {
    if results != [] {
      var n := |results| - 1;
      var init := results[..n];
      CollectAllLines(init);
      assert forall i :: 0 <= i < n ==> init[i] == results[i];
      if Collect(init).Fail? {
        var i :| 0 <= i < n && init[i].Fail?;
        assert results[i].Fail?;
      }
    }
  }

  /** A failure names the first line that does not parse, and wraps its reason. */
  lemma {:induction false} CollectFirstBadLine(results: seq<Result<Equation>>, n: nat)
    requires n < |results| && results[n].Fail?
    requires forall i :: 0 <= i < n ==> results[i].Ok?
    ensures Collect(results) == FailWith("Error on line " + IntToString(n + 1), Some(results[n].failure))
  {
    var last := |results| - 1;
    if n == last {
      CollectAllLines(results[..n]);
      assert forall i :: 0 <= i < n ==> results[..n][i] == results[i];
    } else {
      assert results[..last][n] == results[n];
      assert forall i :: 0 <= i < n ==> results[..last][i] == results[i];
      CollectFirstBadLine(results[..last], n);
    }
  }

  lemma CollectStep(results: seq<Result<Equation>>, n: nat)
    requires n < |results| && Collect(results[..n]).Ok?
    ensures results[n].Fail? ==>
      Collect(results[..n + 1]) == FailWith("Error on line " + IntToString(n + 1), Some(results[n].failure))
    ensures results[n].Ok? ==> Collect(results[..n + 1]) == Ok(Collect(results[..n]).value + [results[n].value])
  {
    var prefix := results[..n + 1];
    assert prefix[..n] == results[..n];
    assert prefix[n] == results[n];
  }

  lemma {:induction false} CollectFailureStays(results: seq<Result<Equation>>, n: nat)
    requires n <= |results| && Collect(results[..n]).Fail?
    ensures Collect(results) == Collect(results[..n])
  {
    if n < |results| {
      assert results[..|results| - 1][..n] == results[..n];
      CollectFailureStays(results[..|results| - 1], n);
    } else {
      assert results[..n] == results;
    }
  }

  /** `ReadEquations()`: the equations on the lines before the first empty one. */
  method ReadEquations(lines: seq<string>) returns (r: Result<seq<Equation>>)
    ensures r == Equations(lines[..UntilEmpty(lines)])
  {
    ghost var results := LineEquations(lines[..UntilEmpty(lines)]);
    var equations: seq<Equation> := [];
    var line := ReadLine(lines, 0);
    var lineNumber := 0;
    while !IsNullOrEmpty(line)
      invariant lineNumber <= |results| && line == ReadLine(lines, lineNumber)
      invariant Collect(results[..lineNumber]) == Ok(equations)
      decreases |lines| - lineNumber
    {
      assert results[lineNumber] == EquationOf(line.value);
      CollectStep(results, lineNumber);
      lineNumber := lineNumber + 1;
      var equationResult := ParseEquation(line.value);
      if equationResult.Fail? {
        CollectFailureStays(results, lineNumber);
        return FailWith("Error on line " + IntToString(lineNumber), Some(equationResult.failure));
      }
      equations := equations + [equationResult.value];
      line := ReadLine(lines, lineNumber);
    }
    assert results[..lineNumber] == results;
    return Ok(equations);
  }

  /** `Solve(variant)`: a reading failure is reported as such; otherwise there is no solution. */
  method Solve(lines: seq<string>, variant: Option<SolutionVariant>) returns (r: Result<string>)
    ensures r.Fail?
    ensures Equations(lines[..UntilEmpty(lines)]).Fail? ==>
      r == FailWith("Failed to read equations", Some(Equations(lines[..UntilEmpty(lines)]).failure))
    ensures Equations(lines[..UntilEmpty(lines)]).Ok? ==> r == FailWith("No solution found", None)
  {
    var equationResult := ReadEquations(lines);
    if equationResult.Fail? {
      return FailWith("Failed to read equations", Some(equationResult.failure));
    }
    var equations := equationResult.value;
    return FailWith("No solution found", None);
  }
}
