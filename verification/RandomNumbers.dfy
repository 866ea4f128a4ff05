/** Random non-negative numbers with a given sum, drawn by stars and bars
    (src/FuzzyProofGenerator.ts, generateRandomNumbers). `Math.random` is a free choice, so
    what is stated holds for every outcome. */
module RandomNumbers {
  import opened Results
  import opened GeneratorErrors
  import opened Sorting

  function Sum(s: seq<int>): int {
    if s == [] then 0 else Sum(s[..|s| - 1]) + s[|s| - 1]
  }

  predicate NonNegative(s: seq<int>) {
    forall i | 0 <= i < |s| :: 0 <= s[i]
  }

  lemma SumAppend(s: seq<int>, x: int)
    ensures Sum(s + [x]) == Sum(s) + x
  {
    assert (s + [x])[..|s|] == s;
  }

  lemma {:induction false} SumSplit(left: seq<int>, right: seq<int>)
    ensures Sum(left + right) == Sum(left) + Sum(right)
  {
    if right == [] {
      assert left + right == left;
    } else {
      var k := |right| - 1;
      assert left + right == (left + right[..k]) + [right[k]];
      SumSplit(left, right[..k]);
      SumAppend(left + right[..k], right[k]);
    }
  }

  lemma {:induction false} SumNonNegative(s: seq<int>)
    requires NonNegative(s)
    ensures 0 <= Sum(s)
  {
    if s != [] {
      SumNonNegative(s[..|s| - 1]);
    }
  }

  // ---------- A free number is always left to draw ----------

  lemma {:induction false} FreeNumberExists(picked: seq<int>, low: int, high: int) returns (x: int)
    requires |picked| <= high - low
    ensures low <= x <= high && x !in picked
    decreases |picked|
  {
    if high !in picked {
      x := high;
    } else {
      var i :| 0 <= i < |picked| && picked[i] == high;
      var others := picked[..i] + picked[i + 1..];
      x := FreeNumberExists(others, low, high - 1);
      forall k | 0 <= k < |picked|
        ensures picked[k] != x
      {
        if k != i {
          assert picked[k] == others[if k < i then k else k - 1];
          assert picked[k] in others;
        }
      }
    }
  }

  // ---------- Stars and bars ----------

  /** The positions of n - 1 bars among `upper` = sum + n - 1 places, from left to right. */
  predicate Bars(picks: seq<int>, upper: int) {
    && (forall i | 0 <= i < |picks| :: 1 <= picks[i] <= upper)
    && (forall i, j | 0 <= i < j < |picks| :: picks[i] < picks[j])
  }

  /** The numbers of stars between neighbouring bars. */
  function Gaps(picks: seq<int>, upper: int): (gaps: seq<int>)
    requires picks != []
  {
    seq(|picks| + 1, i requires 0 <= i <= |picks| =>
      if i == 0 then picks[0] - 1
      else if i < |picks| then picks[i] - picks[i - 1] - 1
      else upper - picks[|picks| - 1])
  }

  /** Where the bars stand for given numbers of stars. */
  function BarsOf(gaps: seq<int>): seq<int>
    requires 2 <= |gaps|
  {
    seq(|gaps| - 1, i requires 0 <= i < |gaps| - 1 => Sum(gaps[..i + 1]) + i + 1)
  }

  lemma {:induction false} GapsPrefixSum(picks: seq<int>, upper: int, i: nat)
    requires picks != [] && i < |picks|
    ensures Sum(Gaps(picks, upper)[..i + 1]) == picks[i] - i - 1
  {
    var gaps := Gaps(picks, upper);
    assert gaps[..i + 1] == gaps[..i] + [gaps[i]];
    SumAppend(gaps[..i], gaps[i]);
    if i > 0 {
      GapsPrefixSum(picks, upper, i - 1);
    }
  }

  /** Bars give non-negative numbers with the right sum, and can be recovered from them. */
  lemma GapsOfBars(picks: seq<int>, upper: int)
    requires picks != [] && Bars(picks, upper)
    ensures NonNegative(Gaps(picks, upper))
    ensures Sum(Gaps(picks, upper)) == upper - |picks|
    ensures BarsOf(Gaps(picks, upper)) == picks
  {
    var gaps := Gaps(picks, upper);
    GapsSum(picks, upper);
    forall i | 0 <= i < |picks|
      ensures BarsOf(gaps)[i] == picks[i]
    {
      GapsPrefixSum(picks, upper, i);
    }
  }

  lemma GapsSum(picks: seq<int>, upper: int)
    requires picks != []
    ensures Sum(Gaps(picks, upper)) == upper - |picks|
  {
    var gaps, last := Gaps(picks, upper), |picks| - 1;
    GapsPrefixSum(picks, upper, last);
    assert gaps == gaps[..last + 1] + [gaps[last + 1]];
    SumAppend(gaps[..last + 1], gaps[last + 1]);
  }

  lemma PrefixSumStep(gaps: seq<int>, i: nat)
    requires i < |gaps|
    ensures Sum(gaps[..i + 1]) == Sum(gaps[..i]) + gaps[i]
  {
    assert gaps[..i + 1] == gaps[..i] + [gaps[i]];
    SumAppend(gaps[..i], gaps[i]);
  }

  lemma BarInRange(gaps: seq<int>, i: nat)
    requires NonNegative(gaps) && i + 1 < |gaps|
    ensures 1 <= BarsOf(gaps)[i] <= Sum(gaps) + |gaps| - 1
  {
    assert gaps == gaps[..i + 1] + gaps[i + 1..];
    SumSplit(gaps[..i + 1], gaps[i + 1..]);
    SumNonNegative(gaps[..i + 1]);
    SumNonNegative(gaps[i + 1..]);
    assert BarsOf(gaps)[i] == Sum(gaps[..i + 1]) + i + 1;
  }

  lemma BarAt(gaps: seq<int>, i: nat)
    requires i + 1 < |gaps|
    ensures BarsOf(gaps)[i] == Sum(gaps[..i + 1]) + i + 1
  {
  }

  /** The gap after the i-th bar, from the numbers of stars up to its ends. */
  lemma GapBetween(picks: seq<int>, upper: int, i: nat, before: int, after: int)
    requires picks != [] && i <= |picks|
    requires i == 0 ==> before == 0
    requires 0 < i ==> picks[i - 1] == before + i
    requires if i < |picks| then picks[i] == after + i + 1 else upper == after + |picks|
    ensures Gaps(picks, upper)[i] == after - before
  {
  }

  lemma GapAt(gaps: seq<int>, upper: int, i: nat)
    requires 2 <= |gaps| && i < |gaps|
    requires upper == Sum(gaps) + |gaps| - 1
    ensures Gaps(BarsOf(gaps), upper)[i] == gaps[i]
  {
    PrefixSumStep(gaps, i);
    if i == 0 {
      assert gaps[..i] == [];
    } else {
      BarAt(gaps, i - 1);
    }
    if i + 1 < |gaps| {
      BarAt(gaps, i);
    } else {
      assert gaps[..i + 1] == gaps;
    }
    GapBetween(BarsOf(gaps), upper, i, Sum(gaps[..i]), Sum(gaps[..i + 1]));
  }

  lemma GapsAll(gaps: seq<int>, upper: int)
    requires 2 <= |gaps|
    requires upper == Sum(gaps) + |gaps| - 1
    ensures Gaps(BarsOf(gaps), upper) == gaps
  {
    forall i | 0 <= i < |gaps|
      ensures Gaps(BarsOf(gaps), upper)[i] == gaps[i]
    {
      GapAt(gaps, upper, i);
    }
  }

  /** And every list of two or more non-negative numbers comes from bars, by the same map. */
  lemma BarsOfGaps(gaps: seq<int>, upper: int)
    requires 2 <= |gaps| && NonNegative(gaps)
    requires upper == Sum(gaps) + |gaps| - 1
    ensures Bars(BarsOf(gaps), upper)
    ensures Gaps(BarsOf(gaps), upper) == gaps
  {
    forall i | 0 <= i < |gaps| - 1
      ensures 1 <= BarsOf(gaps)[i] <= upper
    {
      BarInRange(gaps, i);
    }
    GapsAll(gaps, upper);
    forall i, j | 0 <= i < j < |gaps| - 1
      ensures BarsOf(gaps)[i] < BarsOf(gaps)[j]
    {
      BarsIncrease(gaps, i, j);
    }
  }

  lemma {:induction false} BarsIncrease(gaps: seq<int>, i: nat, j: nat)
    requires NonNegative(gaps) && i < j < |gaps| - 1
    ensures BarsOf(gaps)[i] < BarsOf(gaps)[j]
  {
    PrefixSumStep(gaps, j);
    BarAt(gaps, j);
    BarAt(gaps, j - 1);
    if i < j - 1 {
      BarsIncrease(gaps, i, j - 1);
    }
  }

  /** Some outcome of the random choices gives these numbers. */
  ghost predicate CanBeDrawn(sum: int, numberCount: nat, numbers: seq<int>) {
    if numberCount == 0 then numbers == []
    else if numberCount == 1 then numbers == [sum]
    else exists picks: seq<int> :: DrawnBy(picks, sum, numbers) && |numbers| == numberCount
  }

  predicate DrawnBy(picks: seq<int>, sum: int, numbers: seq<int>) {
    picks != [] && Bars(picks, sum + |picks|) && numbers == Gaps(picks, sum + |picks|)
  }

  /** These are all lists of that many non-negative numbers with that sum, except that the empty
      list comes whatever the sum. */
  lemma CanBeDrawnIff(sum: int, numberCount: nat, numbers: seq<int>)
    requires 0 <= sum
    ensures CanBeDrawn(sum, numberCount, numbers) <==>
              |numbers| == numberCount && NonNegative(numbers) && (0 < numberCount ==> Sum(numbers) == sum)
  {
    if numberCount == 1 {
      if |numbers| == 1 {
        assert numbers[..0] == [];
      }
    } else if 2 <= numberCount {
      if |numbers| == numberCount {
        DrawnIff(sum, numbers);
      }
    }
  }

  lemma DrawnIff(sum: int, numbers: seq<int>)
    requires 2 <= |numbers|
    ensures (exists picks: seq<int> :: DrawnBy(picks, sum, numbers)) <==> NonNegative(numbers) && Sum(numbers) == sum
  {
    if picks: seq<int> :| DrawnBy(picks, sum, numbers) {
      DrawnSum(picks, sum, numbers);
    }
    if NonNegative(numbers) && Sum(numbers) == sum {
      var picks := SumDrawn(numbers);
    }
  }

  lemma DrawnSum(picks: seq<int>, sum: int, numbers: seq<int>)
    requires DrawnBy(picks, sum, numbers)
    ensures NonNegative(numbers) && Sum(numbers) == sum
  {
    GapsOfBars(picks, sum + |picks|);
  }

  lemma SumDrawn(numbers: seq<int>) returns (picks: seq<int>)
    requires 2 <= |numbers| && NonNegative(numbers)
    ensures DrawnBy(picks, Sum(numbers), numbers)
  {
    picks := BarsFor(numbers, Sum(numbers) + |numbers| - 1);
    assert Sum(numbers) + |numbers| - 1 == Sum(numbers) + |picks|;
  }

  lemma BarsFor(gaps: seq<int>, upper: int) returns (picks: seq<int>)
    requires 2 <= |gaps| && NonNegative(gaps) && upper == Sum(gaps) + |gaps| - 1
    ensures |picks| == |gaps| - 1 && Bars(picks, upper) && Gaps(picks, upper) == gaps
  {
    BarsOfGaps(gaps, upper);
    picks := BarsOf(gaps);
  }

  lemma SortedPicksAreBars(picked: seq<int>, sorted: seq<int>, upper: int)
    requires Distinct(picked) && forall i | 0 <= i < |picked| :: 1 <= picked[i] <= upper
    requires sorted == SortBy(picked, x => x)
    ensures Bars(sorted, upper) && |sorted| == |picked|
  {
    Sorted(picked, x => x);
    Rearranged(picked, sorted);
    assert forall i | 0 <= i < |sorted| :: sorted[i] in picked;
    forall i, j | 0 <= i < j < |sorted|
      ensures sorted[i] < sorted[j]
    {
      assert sorted[i] != sorted[j];
    }
  }

  /** The pick loop and the sort. A number that was picked already is drawn again, so each
      round ends with some number not picked before; there always is one. */
  method PickBars(count: nat, upper: int) returns (sorted: seq<int>)
    requires count <= upper
    ensures |sorted| == count && Bars(sorted, upper)
  {
    var picked: seq<int> := [];
    for i := 0 to count
      invariant |picked| == i && Distinct(picked)
      invariant forall k | 0 <= k < i :: 1 <= picked[k] <= upper
    {
      ghost var free := FreeNumberExists(picked, 1, upper);
      var x :| 1 <= x <= upper && x !in picked;
      picked := picked + [x];
    }
    sorted := SortBy(picked, x => x);
    SortedPicksAreBars(picked, sorted, upper);
  }

  /** One number is the sum itself, and no numbers are the empty list. */
  method GenerateRandomNumbers(sum: int, numberCount: int) returns (r: Result<seq<int>, Error>)
    ensures r.Success? <==> 0 <= sum && 0 <= numberCount
    ensures r.Success? ==> |r.value| == numberCount && NonNegative(r.value)
    ensures r.Success? && 0 < numberCount ==> Sum(r.value) == sum
    ensures r.Success? ==> CanBeDrawn(sum, numberCount, r.value)
  {
    if sum < 0 {
      return Failure(AssertionFailed);
    }
    :- Need(0 <= numberCount, AssertionFailed);
    if numberCount == 0 {
      return Success([]);
    }
    if numberCount == 1 {
      SumAppend([], sum);
      return Success([sum]);
    }
    var upper := sum + numberCount - 1;
    var sorted := PickBars(numberCount - 1, upper);

    var generated := [sorted[0] - 1];
    for i := 1 to numberCount - 1
      invariant generated == Gaps(sorted, upper)[..i]
    {
      generated := generated + [sorted[i] - sorted[i - 1] - 1];
    }
    generated := generated + [upper - sorted[|sorted| - 1]];
    assert generated == Gaps(sorted, upper);
    assert DrawnBy(sorted, sum, generated);
    CanBeDrawnIff(sum, numberCount, generated);
    r := Success(generated);
  }
}
