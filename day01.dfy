/** Day 1: two columns of numbers, compared by the distance between their sorted forms (part one)
    and by a similarity score that weights each left number by its count on the right (part two). */
module Day01 {
  import opened Results
  import opened Text

  // ---------------------------------------------------------------- parsing

  /** The tokens of an input line: split at single spaces, each piece trimmed, empty pieces dropped. */
  function Tokens(line: string): (tokens: seq<string>)
    ensures forall k :: 0 <= k < |tokens| ==> tokens[k] != ""
    ensures |tokens| <= |Split(line, ' ')|
  {
    RemoveEmpty(TrimEach(Split(line, ' ')))
  }

  /** The two numbers on line `lineNumber` (counted from 0), or why the line is rejected. */
  function ParseLine(line: string, lineNumber: nat): (r: Result<(int, int)>)
    ensures r.Ok? <==>
      |Tokens(line)| == 2 && ParseInt(Tokens(line)[0]).Some? && ParseInt(Tokens(line)[1]).Some?
    ensures r.Ok? ==> InInt32(r.value.0) && InInt32(r.value.1)
  {
    var tokens := Tokens(line);
    if |tokens| != 2 then
      FailWith("Wrong number of elements on line " + IntToString(lineNumber), None)
    else if ParseInt(tokens[0]).None? then
      FailWith("Invalid integer in left list on line " + IntToString(lineNumber), None)
    else if ParseInt(tokens[1]).None? then
      FailWith("Invalid integer in right list on line " + IntToString(lineNumber), None)
    else
      Ok((ParseInt(tokens[0]).value, ParseInt(tokens[1]).value))
  }

  /** The outcome of each line, line `k` being line number `k`. */
  function LineResults(lines: seq<string>): (results: seq<Result<(int, int)>>)
    ensures |results| == |lines|
  {
    seq(|lines|, k requires 0 <= k < |lines| => ParseLine(lines[k], k))
  }

  /** The two lists gathered from the per-line outcomes, or the first failure among them. */
  function Collect(results: seq<Result<(int, int)>>): (r: Result<(seq<int>, seq<int>)>)
    ensures r.Ok? <==> forall k :: 0 <= k < |results| ==> results[k].Ok?
    ensures r.Ok? ==> |r.value.0| == |results| && |r.value.1| == |results|
    ensures r.Ok? ==> forall k :: 0 <= k < |results| ==> results[k].value == (r.value.0[k], r.value.1[k])
  {
    if results == [] then Ok(([], []))
    else
      var init := results[..|results| - 1];
      assert forall k :: 0 <= k < |init| ==> init[k] == results[k];
      match Collect(init)
      case Fail(f) => Fail(f)
      case Ok((left, right)) =>
        match results[|results| - 1]
        case Fail(f) => Fail(f)
        case Ok((a, b)) => Ok((left + [a], right + [b]))
  }

  /** The two lists read from `lines`, or the failure of the first malformed line. */
  function Parse(lines: seq<string>): (r: Result<(seq<int>, seq<int>)>)
    ensures r.Ok? ==> |r.value.0| == |lines| && |r.value.1| == |lines|
    ensures lines == [] ==> r == Ok(([], []))
  {
    var results := LineResults(lines);
    assert forall k :: 0 <= k < |lines| ==> results[k] == ParseLine(lines[k], k);
    Collect(results)
  }

  lemma SplitPair(sa: string, sb: string)
    requires ' ' !in sa && ' ' !in sb
    ensures Split(sa + "   " + sb, ' ') == [sa, "", "", sb]
  {
    assert sa + "   " + sb == sa + [' '] + ("" + [' '] + ("" + [' '] + sb));
    SplitAtSeparator(sa, "" + [' '] + ("" + [' '] + sb), ' ');
    SplitAtSeparator("", "" + [' '] + sb, ' ');
    SplitAtSeparator("", sb, ' ');
  }

  /** Two space-free words that neither start nor end with white space, three spaces apart,
      are the line's two tokens. */
  lemma TokensOfPair(sa: string, sb: string)
    requires sa != [] && sb != [] && ' ' !in sa && ' ' !in sb
    requires !IsWhiteSpace(sa[0]) && !IsWhiteSpace(sa[|sa| - 1])
    requires !IsWhiteSpace(sb[0]) && !IsWhiteSpace(sb[|sb| - 1])
    ensures Tokens(sa + "   " + sb) == [sa, sb]
  {
    SplitPair(sa, sb);
    TrimNoWhiteSpace(sa);
    TrimNoWhiteSpace(sb);
    var pieces := [sa, "", "", sb];
    assert TrimEach(pieces) == pieces by {
      assert Trim("") == "";
    }
    assert RemoveEmpty(pieces[3..]) == [sb];
    assert RemoveEmpty(pieces[2..]) == [sb];
    assert RemoveEmpty(pieces[1..]) == [sb];
  }

  /** A white space character after a word is trimmed off its token. */
  lemma TrimsTrailingWhiteSpace(w: string, c: char)
    requires w != [] && !IsWhiteSpace(w[0]) && !IsWhiteSpace(w[|w| - 1]) && IsWhiteSpace(c)
    ensures Trim(w + [c]) == w
  {
    var t := w + [c];
    assert TrimStart(t, IsWhiteSpace) == t;
    assert t[..|t| - 1] == w;
    TrimNoWhiteSpace(w);
  }

  /** Two space-free words, the first followed by another white space character and then a
      space, are the line's two tokens. */
  lemma TokensAfterWhiteSpace(sa: string, sb: string, c: char)
    requires sa != [] && sb != [] && ' ' !in sa && ' ' !in sb && c != ' ' && IsWhiteSpace(c)
    requires !IsWhiteSpace(sa[0]) && !IsWhiteSpace(sa[|sa| - 1])
    requires !IsWhiteSpace(sb[0]) && !IsWhiteSpace(sb[|sb| - 1])
    ensures Tokens(sa + [c] + [' '] + sb) == [sa, sb]
  {
    var first := sa + [c];
    assert ' ' !in first by {
      assert forall k :: 0 <= k < |sa| ==> first[k] == sa[k];
    }
    SplitAtSeparator(first, sb, ' ');
    var parts := Split(sa + [c] + [' '] + sb, ' ');
    assert parts == [first, sb] by {
      assert sa + [c] + [' '] + sb == first + [' '] + sb;
    }
    TrimsTrailingWhiteSpace(sa, c);
    TrimNoWhiteSpace(sb);
    assert TrimEach(parts) == [sa, sb];
    assert RemoveEmpty([sa, sb][1..]) == [sb];
  }

  /** `TrimEntries` trims every Unicode white space character, so a no-break space (U+00A0)
      between a number and the separating space is not part of the number's token. */
  lemma NoBreakSpaceTrimmed(a: int, b: int, lineNumber: nat)
    requires InInt32(a) && InInt32(b)
    ensures ParseLine(IntToString(a) + "\U{00A0} " + IntToString(b), lineNumber) == Ok((a, b))
  {
    var sa, sb := IntToString(a), IntToString(b);
    assert sa + "\U{00A0} " + sb == sa + ['\U{00A0}'] + [' '] + sb;
    NoSeparatorInInt(a, ' ');
    NoSeparatorInInt(b, ' ');
    TokensAfterWhiteSpace(sa, sb, '\U{00A0}');
    ParseIntToString(a);
    ParseIntToString(b);
  }

  /** A line of two 32-bit numbers three spaces apart, as the puzzle input writes them, parses
      back to the two numbers. */
  lemma ParseLineRoundTrip(a: int, b: int, lineNumber: nat)
    requires InInt32(a) && InInt32(b)
    ensures ParseLine(IntToString(a) + "   " + IntToString(b), lineNumber) == Ok((a, b))
  {
    TokensOfPair(IntToString(a), IntToString(b));
    ParseIntToString(a);
    ParseIntToString(b);
  }

  /** Gathering fails with the failure of the first failing outcome. */
  lemma {:induction false} CollectReportsFirstFailure(results: seq<Result<(int, int)>>, k: nat)
    requires k < |results| && results[k].Fail?
    requires forall j :: 0 <= j < k ==> results[j].Ok?
    ensures Collect(results) == Fail(results[k].failure)
  {
    var n := |results| - 1;
    var init := results[..n];
    if k < n {
      assert forall j :: 0 <= j <= k ==> init[j] == results[j];
      CollectReportsFirstFailure(init, k);
    } else {
      assert forall j :: 0 <= j < k ==> init[j] == results[j];
      assert Collect(init).Ok?;
    }
  }

  lemma {:induction false} CollectFailureStays(results: seq<Result<(int, int)>>, n: nat)
    requires n <= |results| && Collect(results[..n]).Fail?
    ensures Collect(results) == Collect(results[..n])
  {
    if n < |results| {
      assert results[..|results| - 1][..n] == results[..n];
      CollectFailureStays(results[..|results| - 1], n);
    } else {
      assert results[..n] == results;
    }
  }

  /** One more outcome extends the gathered lists, or fails with that outcome's failure. */
  lemma CollectStep(results: seq<Result<(int, int)>>, n: nat)
    requires n < |results| && Collect(results[..n]).Ok?
    ensures results[n].Fail? ==> Collect(results[..n + 1]) == Fail(results[n].failure)
    ensures results[n].Ok? ==>
      Collect(results[..n + 1]) == Ok((Collect(results[..n]).value.0 + [results[n].value.0],
                                      Collect(results[..n]).value.1 + [results[n].value.1]))
  {
    var prefix := results[..n + 1];
    assert prefix[..n] == results[..n];
    assert prefix[n] == results[n];
  }

  /** `ParseInput()`: reads lines until an empty one or the end of input; each line adds its two
      numbers to the left and right lists; the first malformed line fails the whole parse. */
  method ParseInput(lines: seq<string>) returns (r: Result<(seq<int>, seq<int>)>)
    ensures r == Parse(lines[..UntilEmpty(lines)])
  {
    ghost var results := LineResults(lines[..UntilEmpty(lines)]);
    var leftList: seq<int> := [];
    var rightList: seq<int> := [];
    var lineNumber := 0;
    var line := ReadLine(lines, lineNumber);
    while !IsNullOrEmpty(line)
      invariant 0 <= lineNumber <= UntilEmpty(lines)
      invariant line == ReadLine(lines, lineNumber)
      invariant Collect(results[..lineNumber]) == Ok((leftList, rightList))
      decreases UntilEmpty(lines) - lineNumber
    {
      assert lineNumber < UntilEmpty(lines) && line.value == lines[lineNumber];
      var parsed := ParseLine(line.value, lineNumber);
      assert results[lineNumber] == parsed;
      CollectStep(results, lineNumber);
      if parsed.Fail? {
        CollectFailureStays(results, lineNumber + 1);
        return Fail(parsed.failure);
      }
      leftList := leftList + [parsed.value.0];
      rightList := rightList + [parsed.value.1];
      line := ReadLine(lines, lineNumber + 1);
      lineNumber := lineNumber + 1;
    }
    assert results[..lineNumber] == results;
    r := Ok((leftList, rightList));
  }

  // ---------------------------------------------------------------- part one

  predicate Sorted(s: seq<int>)
  {
    forall i, j :: 0 <= i < j < |s| ==> s[i] <= s[j]
  }

  /** `x` placed into the sorted `s` before the first element not smaller than it. */
  function Insert(x: int, s: seq<int>): (r: seq<int>)
    requires Sorted(s)
    ensures |r| == |s| + 1 && Sorted(r) && multiset(r) == multiset(s) + multiset{x}
    ensures r[0] == if s == [] || x <= s[0] then x else s[0]
  {
    if s == [] || x <= s[0] then
      ConsSorted(x, s);
      [x] + s
    else
      assert s == [s[0]] + s[1..];
      var rest := Insert(x, s[1..]);
      ConsSorted(s[0], rest);
      [s[0]] + rest
  }

  /** A head no larger than any element of a sorted tail keeps the list sorted. */
  lemma ConsSorted(head: int, tail: seq<int>)
    requires Sorted(tail)
    requires tail != [] ==> head <= tail[0]
    ensures Sorted([head] + tail)
  {
  }

  /** The list in ascending order: what `List<int>.Sort()` leaves behind. */
  function SortSeq(s: seq<int>): (r: seq<int>)
    ensures |r| == |s| && Sorted(r) && multiset(r) == multiset(s)
  {
    if s == [] then []
    else
      assert s == s[..|s| - 1] + [s[|s| - 1]];
      Insert(s[|s| - 1], SortSeq(s[..|s| - 1]))
  }

  /** Two ascending lists with the same elements are the same list. */
  lemma {:induction false} SortedUnique(a: seq<int>, b: seq<int>)
    requires Sorted(a) && Sorted(b) && multiset(a) == multiset(b)
    ensures a == b
  {
    if a != [] {
      assert b != [] by {
        assert |multiset(b)| == |multiset(a)| == |a|;
      }
      assert b[0] in multiset(a) && a[0] in multiset(b);
      HeadIsLeast(a, b[0]);
      HeadIsLeast(b, a[0]);
      assert a[0] == b[0];
      SplitHead(a);
      SplitHead(b);
      assert multiset(a[1..]) == multiset(b[1..]);
      SortedUnique(a[1..], b[1..]);
    }
  }

  /** The first element of an ascending list is at most any of its elements. */
  lemma HeadIsLeast(s: seq<int>, x: int)
    requires Sorted(s) && x in multiset(s)
    ensures s[0] <= x
  {
    var i :| 0 <= i < |s| && s[i] == x;
    assert i == 0 || s[0] <= s[i];
  }

  /** A list is its first element followed by the rest, and the rest is sorted if the list is. */
  lemma SplitHead(s: seq<int>)
    requires s != []
    ensures s == [s[0]] + s[1..]
    ensures multiset(s[1..]) == multiset(s) - multiset{s[0]}
    ensures Sorted(s) ==> Sorted(s[1..])
  {
    assert s == [s[0]] + s[1..];
  }

  /** Sorting a permutation gives the same list, so sorting is also idempotent. */
  lemma SortSeqByElements(s: seq<int>, t: seq<int>)
    requires multiset(s) == multiset(t)
    ensures SortSeq(s) == SortSeq(t)
  {
    SortedUnique(SortSeq(s), SortSeq(t));
  }

  function Abs(x: int): nat
  {
    if x < 0 then -x else x
  }

  /** The sum of the distances between elements at equal positions. */
  function DistanceSum(a: seq<int>, b: seq<int>): (d: nat)
    requires |a| == |b|
    ensures d == 0 <==> a == b
  {
    if a == [] then 0
    else
      var n := |a| - 1;
      assert a == a[..n] + [a[n]] && b == b[..n] + [b[n]];
      DistanceSum(a[..n], b[..n]) + Abs(a[n] - b[n])
  }

  lemma {:induction false} DistanceSumSymmetric(a: seq<int>, b: seq<int>)
    requires |a| == |b|
    ensures DistanceSum(a, b) == DistanceSum(b, a)
  {
    if a != [] {
      DistanceSumSymmetric(a[..|a| - 1], b[..|b| - 1]);
    }
  }

  /** The part-one answer is zero exactly when the two lists hold the same numbers, counted with
      multiplicity, in whatever order. */
  lemma DistanceZeroIffSameElements(left: seq<int>, right: seq<int>)
    requires |left| == |right|
    ensures DistanceSum(SortSeq(left), SortSeq(right)) == 0 <==> multiset(left) == multiset(right)
  {
    if multiset(left) == multiset(right) {
      SortSeqByElements(left, right);
    }
  }

  /** The state of an insertion step: `s[..i + 1]` without position `j` is sorted, and the
      element at `j` is no larger than anything after it up to `i`, and the elements before `j`
      are no larger than those after it. */
  ghost predicate Inserting(s: seq<int>, j: nat, i: nat)
  {
    j <= i < |s| &&
    (forall p, q :: 0 <= p < q <= i && p != j && q != j ==> s[p] <= s[q]) &&
    (forall q :: j < q <= i ==> s[j] <= s[q]) &&
    (forall p, q :: 0 <= p < j < q <= i ==> s[p] <= s[q])
  }

  lemma InsertingStart(s: seq<int>, i: nat)
    requires i < |s| && Sorted(s[..i])
    ensures Inserting(s, i, i)
  {
    assert forall p :: 0 <= p < i ==> s[..i][p] == s[p];
  }

  lemma InsertingSwap(s: seq<int>, j: nat, i: nat)
    requires Inserting(s, j, i) && 0 < j && s[j - 1] > s[j]
    ensures Inserting(s[j - 1 := s[j]][j := s[j - 1]], j - 1, i)
    ensures multiset(s[j - 1 := s[j]][j := s[j - 1]]) == multiset(s)
  {
    var t := s[j - 1 := s[j]][j := s[j - 1]];
    assert forall k :: 0 <= k < |s| && k != j - 1 && k != j ==> t[k] == s[k];
    assert forall p, q :: 0 <= p < q <= i && p != j - 1 && q != j - 1 ==> t[p] <= t[q];
    assert forall q :: j - 1 < q <= i ==> t[j - 1] <= t[q];
    assert forall p, q :: 0 <= p < j - 1 < q <= i ==> t[p] <= t[q];
  }

  lemma InsertingDone(s: seq<int>, j: nat, i: nat)
    requires Inserting(s, j, i) && (j == 0 || s[j - 1] <= s[j])
    ensures Sorted(s[..i + 1])
  {
  }

  /** One step of the insertion sort: moves `a[i]` left past the larger elements of the sorted
      prefix `a[..i]`, so that `a[..i + 1]` is sorted. */
  method InsertInPlace(a: array<int>, i: nat)
    requires i < a.Length && Sorted(a[..i])
    modifies a
    ensures Sorted(a[..i + 1]) && multiset(a[..]) == multiset(old(a[..]))
  {
    InsertingStart(a[..], i);
    var j := i;
    while j > 0 && a[j - 1] > a[j]
      invariant 0 <= j <= i
      invariant Inserting(a[..], j, i)
      invariant multiset(a[..]) == multiset(old(a[..]))
    {
      InsertingSwap(a[..], j, i);
      a[j - 1], a[j] := a[j], a[j - 1];
      j := j - 1;
    }
    InsertingDone(a[..], j, i);
  }

  /** `List<int>.Sort()`: sorts the list in place (here by insertion). */
  method SortInPlace(a: array<int>)
    modifies a
    ensures a[..] == SortSeq(old(a[..]))
  {
    var i := 0;
    while i < a.Length
      invariant 0 <= i <= a.Length
      invariant Sorted(a[..i])
      invariant multiset(a[..]) == multiset(old(a[..]))
    {
      InsertInPlace(a, i);
      i := i + 1;
    }
    assert a[..i] == a[..];
    SortedUnique(a[..], SortSeq(old(a[..])));
  }

  /** The summing loop of `GetSimilarityByDistance`: adds up the distances between the elements
      at equal positions. */
  method SumDistances(left: array<int>, right: array<int>) returns (distanceSum: int)
    requires left.Length == right.Length
    ensures distanceSum == DistanceSum(left[..], right[..])
  {
    distanceSum := 0;
    var i := 0;
    while i < left.Length
      invariant 0 <= i <= left.Length
      invariant distanceSum == DistanceSum(left[..i], right[..i])
    {
      assert left[..i + 1][..i] == left[..i] && right[..i + 1][..i] == right[..i];
      distanceSum := distanceSum + Abs(left[i] - right[i]);
      i := i + 1;
    }
    assert left[..i] == left[..] && right[..i] == right[..];
  }

  /** `GetSimilarityByDistance`: sorts both lists in place; with unequal lengths fails, naming
      both, else answers the sum of distances between equal positions of the sorted lists. */
  method GetSimilarityByDistance(left: array<int>, right: array<int>) returns (r: Result<string>)
    modifies left, right
    ensures left[..] == SortSeq(old(left[..])) && right[..] == SortSeq(old(right[..]))
    ensures left.Length != right.Length ==>
      r == FailWith("Left (" + IntToString(left.Length) + ") and right (" + IntToString(right.Length)
                    + ") list count mismatch", None)
    ensures left.Length == right.Length ==> r == Ok(IntToString(DistanceSum(left[..], right[..])))
  {
    SortInPlace(left);
    ghost var sortedLeft := left[..];
    SortInPlace(right);
    if left == right {
      SortSeqByElements(sortedLeft, old(left[..]));
      assert SortSeq(sortedLeft) == sortedLeft;
    }
    if left.Length != right.Length {
      return FailWith("Left (" + IntToString(left.Length) + ") and right (" + IntToString(right.Length)
                      + ") list count mismatch", None);
    }
    var distanceSum := SumDistances(left, right);
    return Ok(IntToString(distanceSum));
  }

  // ---------------------------------------------------------------- part two

  /** The similarity score: each left number times the number of times it occurs on the right. */
  function OccurrenceScore(left: seq<int>, right: seq<int>): (score: int)
    ensures right == [] ==> score == 0
  {
    if left == [] then 0
    else
      var n := |left| - 1;
      OccurrenceScore(left[..n], right) + left[n] * multiset(right)[left[n]]
  }

  lemma {:induction false} OccurrenceScoreAppend(a: seq<int>, b: seq<int>, right: seq<int>)
    ensures OccurrenceScore(a + b, right) == OccurrenceScore(a, right) + OccurrenceScore(b, right)
  {
    if b != [] {
      var n := |b| - 1;
      assert (a + b)[..|a + b| - 1] == a + b[..n];
      OccurrenceScoreAppend(a, b[..n], right);
    } else {
      assert a + b == a;
    }
  }

  /** The score does not depend on the order of the left list. */
  lemma {:induction false} OccurrenceScorePermutation(l1: seq<int>, l2: seq<int>, right: seq<int>)
    requires multiset(l1) == multiset(l2)
    ensures OccurrenceScore(l1, right) == OccurrenceScore(l2, right)
  {
    if l1 != [] {
      var n := |l1| - 1;
      var x := l1[n];
      assert l1 == l1[..n] + [x];
      assert x in multiset(l2);
      var k :| 0 <= k < |l2| && l2[k] == x;
      assert l2 == l2[..k] + [x] + l2[k + 1..];
      var rest := l2[..k] + l2[k + 1..];
      assert multiset(l1[..n]) == multiset(rest) by {
        assert multiset(l1[..n]) == multiset(l1) - multiset{x};
        assert multiset(rest) == multiset(l2[..k]) + multiset(l2[k + 1..]);
        assert multiset(l2) == multiset(l2[..k]) + multiset{x} + multiset(l2[k + 1..]);
      }
      OccurrenceScorePermutation(l1[..n], rest, right);
      OccurrenceScoreAppend(l2[..k] + [x], l2[k + 1..], right);
      OccurrenceScoreAppend(l2[..k], l2[k + 1..], right);
      assert (l2[..k] + [x])[..k] == l2[..k];
    }
  }

  /** A left number that never occurs on the right adds nothing to the score. */
  lemma {:induction false} OccurrenceScoreIgnoresAbsent(left: seq<int>, right: seq<int>)
    requires forall i :: 0 <= i < |left| ==> left[i] !in right
    ensures OccurrenceScore(left, right) == 0
  {
    if left != [] {
      var n := |left| - 1;
      OccurrenceScoreIgnoresAbsent(left[..n], right);
    }
  }

  /** `GetSimilarityByOccurrence`: counts each right number in a dictionary, then sums each left
      number times its count (zero when absent). */
  method GetSimilarityByOccurrence(left: seq<int>, right: seq<int>) returns (r: Result<string>)
    ensures r == Ok(IntToString(OccurrenceScore(left, right)))
  {
    var rightListCounts: map<int, nat> := map[];
    var i := 0;
    while i < |right|
      invariant 0 <= i <= |right|
      invariant forall x :: x in rightListCounts <==> x in multiset(right[..i])
      invariant forall x :: x in rightListCounts ==> rightListCounts[x] == multiset(right[..i])[x]
    {
      var rightNumber := right[i];
      if rightNumber !in rightListCounts {
        rightListCounts := rightListCounts[rightNumber := 0];
      }
      assert right[..i + 1] == right[..i] + [rightNumber];
      rightListCounts := rightListCounts[rightNumber := rightListCounts[rightNumber] + 1];
      i := i + 1;
    }
    assert right[..i] == right;
    var scoreSum := 0;
    var j := 0;
    while j < |left|
      invariant 0 <= j <= |left|
      invariant scoreSum == OccurrenceScore(left[..j], right)
    {
      var leftNumber := left[j];
      var rightListCount := 0;
      if leftNumber in rightListCounts {
        rightListCount := rightListCounts[leftNumber];
      }
      assert left[..j + 1][..j] == left[..j];
      scoreSum := scoreSum + leftNumber * rightListCount;
      j := j + 1;
    }
    assert left[..j] == left;
    return Ok(IntToString(scoreSum));
  }

  // ---------------------------------------------------------------- solving

  /** `Solve(variant)`: parses the input; part one answers the distance of the sorted lists,
      part two the similarity score, any other variant fails. */
  method Solve(lines: seq<string>, variant: Option<SolutionVariant>) returns (r: Result<string>)
    ensures Parse(lines[..UntilEmpty(lines)]).Fail? ==>
      r == FailWith("Failed to parse input.", Some(Parse(lines[..UntilEmpty(lines)]).failure))
    ensures Parse(lines[..UntilEmpty(lines)]).Ok? ==>
      var (left, right) := Parse(lines[..UntilEmpty(lines)]).value;
      r == match variant
           case Some(PartOne) => Ok(IntToString(DistanceSum(SortSeq(left), SortSeq(right))))
           case Some(PartTwo) => Ok(IntToString(OccurrenceScore(left, right)))
           case None => FailWith("Unknown solution variant", None)
  {
    var input := ParseInput(lines);
    if input.Fail? {
      return FailWith("Failed to parse input.", Some(input.failure));
    }
    var (leftList, rightList) := input.value;
    match variant {
      case Some(PartOne) =>
        var left := new int[|leftList|](k requires 0 <= k < |leftList| => leftList[k]);
        var right := new int[|rightList|](k requires 0 <= k < |rightList| => rightList[k]);
        assert left[..] == leftList && right[..] == rightList;
        r := GetSimilarityByDistance(left, right);
      case Some(PartTwo) =>
        r := GetSimilarityByOccurrence(leftList, rightList);
      case None =>
        r := FailWith("Unknown solution variant", None);
    }
  }
}
