/** The older Day 1 solver. Its input parsing and its part-one computation are line for line those
    of the current Day 1 solver and are modelled by the same members; what differs is `Solve`,
    which answers part one whatever variant it is asked for. */
module Day01Legacy {
  import opened Results
  import opened Text
  import opened Day01

  /** `Solve(solutionVariant)`: parses the input, then always computes the sorted distance sum. */
  method Solve(lines: seq<string>, variant: Option<SolutionVariant>) returns (r: Result<string>)
    ensures Parse(lines[..UntilEmpty(lines)]).Fail? ==>
      r == FailWith("Failed to parse input.", Some(Parse(lines[..UntilEmpty(lines)]).failure))
    ensures Parse(lines[..UntilEmpty(lines)]).Ok? ==>
      var (left, right) := Parse(lines[..UntilEmpty(lines)]).value;
      r == Ok(IntToString(DistanceSum(SortSeq(left), SortSeq(right))))
  {
    var input := ParseInput(lines);
    if input.Fail? {
      return FailWith("Failed to parse input.", Some(input.failure));
    }
    var (leftList, rightList) := input.value;
    var left := new int[|leftList|](k requires 0 <= k < |leftList| => leftList[k]);
    var right := new int[|rightList|](k requires 0 <= k < |rightList| => rightList[k]);
    assert left[..] == leftList && right[..] == rightList;
    r := GetSimilarityByDistance(left, right);
  }
}
