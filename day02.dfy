/** Day 2: reports of levels, counted as safe when they move steadily in one direction; part two
    lets a "problem dampener" forgive one bad level. */
module Day02 {
  import opened Results
  import opened Text

  // ---------------------------------------------------------------- safety

  /** One step from `a` to `b` in the direction `ascending`, by at least one and at most three. */
  function StepOk(a: int, b: int, ascending: bool): (ok: bool)
    ensures ok <==> if ascending then 1 <= b - a <= 3 else 1 <= a - b <= 3
  {
    var difference := if b >= a then b - a else a - b;
    (if ascending then a < b else a > b) && 1 <= difference <= 3
  }

  /** The safety rule as the solver applies it: the first pair fixes the direction (an equal first
      pair counts as descending), and every step must go that way by 1 to 3. */
  function Safe(report: seq<int>): (safe: bool)
    ensures |report| <= 1 ==> safe
    ensures |report| >= 2 && report[0] == report[1] ==> !safe
  {
    |report| <= 1 ||
    forall i :: 1 <= i < |report| ==> StepOk(report[i - 1], report[i], report[0] < report[1])
  }

  /** The puzzle's own wording: the levels all increase, or all decrease, by 1 to 3 each step. */
  predicate Gradual(report: seq<int>, increasing: bool)
  {
    forall i :: 1 <= i < |report| ==>
      if increasing then 1 <= report[i] - report[i - 1] <= 3 else 1 <= report[i - 1] - report[i] <= 3
  }

  /** The solver's rule is exactly the puzzle's rule. */
  lemma SafeIffGradual(report: seq<int>)
    ensures Safe(report) <==> Gradual(report, true) || Gradual(report, false)
  {
    if |report| >= 2 {
      if Gradual(report, true) {
        assert report[0] < report[1] by { assert 1 <= report[1] - report[0]; }
      } else if Gradual(report, false) {
        assert report[0] > report[1] by { assert 1 <= report[0] - report[1]; }
      }
      if Safe(report) {
        assert StepOk(report[0], report[1], report[0] < report[1]);
        if report[0] < report[1] {
          assert Gradual(report, true);
        } else {
          assert Gradual(report, false);
        }
      }
    }
  }

  /** `TestReportSafety(report)`: walks the levels keeping the previous level and the direction
      fixed by the first pair, and gives up at the first step that breaks either rule. */
  method TestReportSafety(report: seq<int>) returns (isSafe: bool)
    ensures isSafe == Safe(report)
  {
    isSafe := true;
    var lastNumber: Option<int> := None;
    var isAscending: Option<bool> := None;
    var k := 0;
    while k < |report|
      invariant 0 <= k <= |report|
      invariant lastNumber == if k == 0 then None else Some(report[k - 1])
      invariant isAscending == if k < 2 then None else Some(report[0] < report[1])
      invariant forall i :: 1 <= i < k ==> StepOk(report[i - 1], report[i], report[0] < report[1])
    {
      var number := report[k];
      if lastNumber.None? {
        lastNumber := Some(number);
        k := k + 1;
        continue;
      }
      if isAscending.None? {
        isAscending := Some(lastNumber.value < number);
      }
      if (isAscending.value && lastNumber.value >= number) || (!isAscending.value && lastNumber.value <= number) {
        isSafe := false;
        break;
      }
      var difference := if number - lastNumber.value >= 0 then number - lastNumber.value else lastNumber.value - number;
      if difference < 1 || difference > 3 {
        isSafe := false;
        break;
      }
      lastNumber := Some(number);
      k := k + 1;
    }
  }

  // ---------------------------------------------------------------- dampener

  /** `report` with the level at index `i` removed, the others in their order. */
  function Without(report: seq<int>, i: nat): (dampened: seq<int>)
    requires i < |report|
    ensures |dampened| == |report| - 1
    ensures forall k :: 0 <= k < |dampened| ==> dampened[k] == if k < i then report[k] else report[k + 1]
  {
    report[..i] + report[i + 1..]
  }

  /** Removing a level removes exactly that one occurrence. */
  lemma WithoutMultiset(report: seq<int>, i: nat)
    requires i < |report|
    ensures multiset(Without(report, i)) == multiset(report) - multiset{report[i]}
  {
    assert report == report[..i] + [report[i]] + report[i + 1..];
  }

  /** Dropping the last level of a safe report of three or more levels keeps it safe. */
  lemma SafeWithoutLast(report: seq<int>)
    requires |report| >= 3 && Safe(report)
    ensures Safe(Without(report, |report| - 1))
  {
  }

  /** `ProduceDampenedReports(report)`: one copy of the report per index, with that level left out. */
  method ProduceDampenedReports(report: seq<int>) returns (dampenedReports: seq<seq<int>>)
    ensures |dampenedReports| == |report|
    ensures forall i :: 0 <= i < |report| ==> dampenedReports[i] == Without(report, i)
  {
    var numberCount := |report|;
    dampenedReports := [];
    for i := 0 to numberCount
      invariant |dampenedReports| == i
      invariant forall j :: 0 <= j < i ==> dampenedReports[j] == Without(report, j)
    {
      var dampenedReport := CopyWithout(report, i);
      dampenedReports := dampenedReports + [dampenedReport];
    }
  }

  /** The inner loop of `ProduceDampenedReports`: every level but the one at index `i`, in order. */
  method CopyWithout(report: seq<int>, i: nat) returns (dampenedReport: seq<int>)
    requires i < |report|
    ensures dampenedReport == Without(report, i)
  {
    var numberCount := |report|;
    dampenedReport := [];
    for i2 := 0 to numberCount
      invariant dampenedReport == if i2 <= i then report[..i2] else report[..i] + report[i + 1..i2]
    {
      if i == i2 {
        continue;
      }
      dampenedReport := dampenedReport + [report[i2]];
      assert i2 < i ==> report[..i2 + 1] == report[..i2] + [report[i2]];
      assert i2 > i ==> report[i + 1..i2 + 1] == report[i + 1..i2] + [report[i2]];
    }
    assert report[i + 1..numberCount] == report[i + 1..];
  }

  // ---------------------------------------------------------------- parsing

  /** The report on `line`: its single-space-separated pieces as 32-bit integers, or the 1-based
      position of the first piece that is not one. */
  function Report(line: string): (r: Result<seq<int>>)
    ensures r.Ok? ==> |r.value| == |Split(line, ' ')|
    ensures r.Fail? ==> ParseInts(Split(line, ' ')).BadToken?
  {
    match ParseInts(Split(line, ' '))
    case AllParsed(values) => Ok(values)
    case BadToken(index) => PositionError(index)
  }

  /** The failure for the piece at 0-based `index`, reported by its 1-based position. */
  function PositionError(index: nat): Result<seq<int>>
  {
    FailWith("Invalid report number at position " + IntToString(index + 1), None)
  }

  /** `ParseReport(line)`: parses the pieces one by one, stopping at the first bad one. */
  method ParseReport(line: string) returns (r: Result<seq<int>>)
    ensures r == Report(line)
  {
    var reportNumbers := Split(line, ' ');
    var report: seq<int> := [];
    for i := 0 to |reportNumbers|
      invariant FirstFailure(ParseEach(reportNumbers)[..i]) == AllParsed(report)
    {
      FirstFailureStep(ParseEach(reportNumbers), i);
      var number := ParseInt(reportNumbers[i]);
      if number.None? {
        FirstFailureStays(ParseEach(reportNumbers), i + 1);
        return PositionError(i);
      }
      report := report + [number.value];
    }
    assert ParseEach(reportNumbers)[..|reportNumbers|] == ParseEach(reportNumbers);
    return Ok(report);
  }

  /** A line of 32-bit levels separated by single spaces, as the puzzle input writes them,
      parses back to those levels. */
  lemma ReportRoundTrip(levels: seq<int>)
    requires |levels| >= 1 && forall k :: 0 <= k < |levels| ==> InInt32(levels[k])
    ensures Report(JoinInts(levels, ' ')) == Ok(levels)
  {
    ParseJoinedInts(levels, ' ');
  }

  // ---------------------------------------------------------------- solving

  /** Whether a report adds to the count: it is safe, or (with the dampener) some copy of it with
      one level left out is safe. */
  predicate Counts(report: seq<int>, useDampener: bool)
  {
    Safe(report) || (useDampener && exists i :: 0 <= i < |report| && Safe(Without(report, i)))
  }

  /** What one line does to the count so far: the failure of a line that is not a report, wrapped
      with its 0-based line number, or the count plus one when the report counts. */
  function LineTally(count: nat, line: string, lineNumber: nat, useDampener: bool): (r: Result<nat>)
    ensures r.Ok? <==> Report(line).Ok?
    ensures r.Ok? ==> r.value == count + (if Counts(Report(line).value, useDampener) then 1 else 0)
  {
    match Report(line)
    case Fail(f) => ReportError(lineNumber, f)
    case Ok(report) => Ok(count + if Counts(report, useDampener) then 1 else 0)
  }

  /** The failure of a line that is not a report, with its 0-based line number. */
  function ReportError(lineNumber: nat, failure: Failure): Result<nat>
  {
    FailWith("Error parsing report on line: " + IntToString(lineNumber), Some(failure))
  }

  /** The count of reports that count on `lines` (each line non-empty), or the failure of the
      first line that is not a report. */
  function Tally(lines: seq<string>, useDampener: bool): (r: Result<nat>)
    ensures r.Ok? ==> r.value <= |lines|
  {
    if lines == [] then Ok(0)
    else
      var n := |lines| - 1;
      match Tally(lines[..n], useDampener)
      case Fail(f) => Fail(f)
      case Ok(count) => LineTally(count, lines[n], n, useDampener)
  }

  /** With the dampener the count is never lower, and the same lines fail. */
  lemma {:induction false} DampenerNeverLowers(lines: seq<string>)
    ensures Tally(lines, true).Ok? == Tally(lines, false).Ok?
    ensures Tally(lines, false).Ok? ==> Tally(lines, false).value <= Tally(lines, true).value
    ensures Tally(lines, false).Fail? ==> Tally(lines, true) == Tally(lines, false)
  {
    if lines != [] {
      DampenerNeverLowers(lines[..|lines| - 1]);
    }
  }

  lemma TallyStep(lines: seq<string>, n: nat, useDampener: bool)
    requires n < |lines| && Tally(lines[..n], useDampener).Ok?
    ensures Tally(lines[..n + 1], useDampener) == LineTally(Tally(lines[..n], useDampener).value, lines[n], n, useDampener)
  {
    var prefix := lines[..n + 1];
    assert prefix[..n] == lines[..n];
    assert prefix[n] == lines[n];
  }

  lemma {:induction false} TallyFailureStays(lines: seq<string>, n: nat, useDampener: bool)
    requires n <= |lines| && Tally(lines[..n], useDampener).Fail?
    ensures Tally(lines, useDampener) == Tally(lines[..n], useDampener)
  {
    if n < |lines| {
      assert lines[..|lines| - 1][..n] == lines[..n];
      TallyFailureStays(lines[..|lines| - 1], n, useDampener);
    } else {
      assert lines[..n] == lines;
    }
  }

  /** `Solve(variant)`: counts the reports on the lines before the first empty one; part two turns
      the dampener on; the first unparsable line fails the whole count. */
  method Solve(lines: seq<string>, variant: Option<SolutionVariant>) returns (r: Result<string>)
    ensures var tally := Tally(lines[..UntilEmpty(lines)], variant == Some(PartTwo));
      r == if tally.Ok? then Ok(IntToString(tally.value)) else Fail(tally.failure)
  {
    var useDampener := variant == Some(PartTwo);
    var tally := CountReports(lines, useDampener);
    if tally.Fail? {
      return Fail(tally.failure);
    }
    r := Ok(IntToString(tally.value));
  }

  /** The solver's loop: one report per line until an empty line or the end of the input. */
  method CountReports(lines: seq<string>, useDampener: bool) returns (tally: Result<nat>)
    ensures tally == Tally(lines[..UntilEmpty(lines)], useDampener)
  {
    ghost var read := lines[..UntilEmpty(lines)];
    var line := ReadLine(lines, 0);
    var lineNumber := 0;
    var safeReportCount := 0;
    while !IsNullOrEmpty(line)
      invariant 0 <= lineNumber <= UntilEmpty(lines)
      invariant line == ReadLine(lines, lineNumber)
      invariant Tally(read[..lineNumber], useDampener) == Ok(safeReportCount)
      decreases UntilEmpty(lines) - lineNumber
    {
      ReadsUntilEmpty(lines, lineNumber);
      var next := CountLine(line.value, lineNumber, safeReportCount, useDampener);
      TallyStep(read, lineNumber, useDampener);
      if next.Fail? {
        TallyFailureStays(read, lineNumber + 1, useDampener);
        return next;
      }
      safeReportCount := next.value;
      line := ReadLine(lines, lineNumber + 1);
      lineNumber := lineNumber + 1;
    }
    ReadsUntilEmpty(lines, lineNumber);
    assert read[..lineNumber] == read;
    return Ok(safeReportCount);
  }

  /** One pass of the solver's loop: the line is parsed as a report, a failure is wrapped with the
      line number, and otherwise the count goes up when the report counts. */
  method CountLine(line: string, lineNumber: nat, safeReportCount: nat, useDampener: bool) returns (next: Result<nat>)
    ensures next == LineTally(safeReportCount, line, lineNumber, useDampener)
  {
    var reportResult := ParseReport(line);
    if reportResult.Fail? {
      return ReportError(lineNumber, reportResult.failure);
    }
    var counted := CountsReport(reportResult.value, useDampener);
    return Ok(safeReportCount + if counted then 1 else 0);
  }

  /** The body of the solver's loop for one report: the safety test, then, when the dampener is on
      and the report is unsafe, the dampened copies in order until one is safe. */
  method CountsReport(report: seq<int>, useDampener: bool) returns (counted: bool)
    ensures counted == Counts(report, useDampener)
  {
    counted := TestReportSafety(report);
    if !counted && useDampener {
      var dampenedReports := ProduceDampenedReports(report);
      for j := 0 to |dampenedReports|
        invariant forall i :: 0 <= i < j ==> !Safe(Without(report, i))
      {
        var safe := TestReportSafety(dampenedReports[j]);
        if safe {
          counted := true;
          break;
        }
      }
    }
  }
}
