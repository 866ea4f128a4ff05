/** Cutting a nibble path into one section per pattern symbol (src/FuzzyProofGenerator.ts,
    generateRandomPathData and generatePathData). */
module PathSections {
  import opened Results
  import opened Bytes
  import opened GeneratorErrors
  import opened Patterns
  import opened RandomNumbers

  predicate KnownSymbols(pattern: string) {
    forall i | 0 <= i < |pattern| :: KnownSymbol(pattern[i])
  }

  /** When generatePathData returns: the section lengths fit the pattern and the path exactly,
      and a last section that is not a branch's is not empty. */
  predicate Divisible(pattern: string, pathLength: int, lengths: seq<int>)
    requires pattern != ""
  {
    && KnownSymbols(pattern)
    && |lengths| == |pattern| - CountBranches(pattern)
    && CountBranches(pattern) + Sum(lengths) == pathLength
    && (pattern[|pattern| - 1] != 'b' ==> lengths != [] && 0 < lengths[|lengths| - 1])
  }

  /** The same, as the loop finds out: every symbol finds path and lengths left, none remain. */
  predicate Fits(pattern: string, pathLength: int, lengths: seq<int>) {
    if pattern == "" then pathLength == 0 && lengths == []
    else
      && 0 < pathLength
      && KnownSymbol(pattern[0])
      && if pattern[0] == 'b' then Fits(pattern[1..], pathLength - 1, lengths)
         else lengths != [] && Fits(pattern[1..], pathLength - lengths[0], lengths[1..])
  }

  lemma SumFirst(lengths: seq<int>)
    requires lengths != []
    ensures Sum(lengths) == lengths[0] + Sum(lengths[1..])
  {
    assert lengths == [lengths[0]] + lengths[1..];
    SumSplit([lengths[0]], lengths[1..]);
    SumAppend([], lengths[0]);
  }

  lemma KnownStep(pattern: string)
    requires pattern != ""
    ensures KnownSymbols(pattern) <==> KnownSymbol(pattern[0]) && KnownSymbols(pattern[1..])
  {
    assert pattern == [pattern[0]] + pattern[1..];
  }

  lemma DivisibleStep(pattern: string, pathLength: int, lengths: seq<int>)
    requires 2 <= |pattern|
    ensures Divisible(pattern, pathLength, lengths) <==>
              && KnownSymbol(pattern[0])
              && if pattern[0] == 'b' then Divisible(pattern[1..], pathLength - 1, lengths)
                 else lengths != [] && Divisible(pattern[1..], pathLength - lengths[0], lengths[1..])
  {
    var tail := pattern[1..];
    KnownStep(pattern);
    assert pattern[|pattern| - 1] == tail[|tail| - 1];
    if pattern[0] != 'b' && lengths != [] {
      SumFirst(lengths);
      if tail[|tail| - 1] != 'b' {
        LastNotBranch(tail);
      }
    }
  }

  lemma DivisiblePathPositive(pattern: string, pathLength: int, lengths: seq<int>)
    requires pattern != "" && NonNegative(lengths) && Divisible(pattern, pathLength, lengths)
    ensures 0 < pathLength
  {
    SumNonNegative(lengths);
    if pattern[|pattern| - 1] == 'b' {
      CountBranchesStep(pattern, |pattern| - 1);
      assert pattern[..|pattern|] == pattern;
    } else {
      SumNonNegative(lengths[..|lengths| - 1]);
    }
  }

  lemma {:induction false} FitsIffDivisible(pattern: string, pathLength: int, lengths: seq<int>)
    requires pattern != "" && NonNegative(lengths)
    ensures Fits(pattern, pathLength, lengths) <==> Divisible(pattern, pathLength, lengths)
    decreases |pattern|
  {
    if |pattern| == 1 {
      FitsSingle(pattern, pathLength, lengths);
    } else {
      DivisibleStep(pattern, pathLength, lengths);
      if Divisible(pattern, pathLength, lengths) {
        DivisiblePathPositive(pattern, pathLength, lengths);
      }
      if pattern[0] == 'b' {
        FitsIffDivisible(pattern[1..], pathLength - 1, lengths);
      } else if lengths != [] {
        FitsIffDivisible(pattern[1..], pathLength - lengths[0], lengths[1..]);
      }
    }
  }

  lemma FitsSingle(pattern: string, pathLength: int, lengths: seq<int>)
    requires |pattern| == 1 && NonNegative(lengths)
    ensures Fits(pattern, pathLength, lengths) <==> Divisible(pattern, pathLength, lengths)
  {
    assert pattern[1..] == "";
    KnownStep(pattern);
    if lengths != [] {
      SumFirst(lengths);
      assert |lengths| == 1 ==> lengths[1..] == [] && Sum(lengths[1..]) == 0;
    }
  }

  /** The sections: one nibble for a branch, the next of the lengths for another symbol. */
  function Cut(pattern: string, nibblePath: Buffer, lengths: seq<int>): (sections: seq<Buffer>)
    requires NonNegative(lengths) && Fits(pattern, |nibblePath|, lengths)
    ensures |sections| == |pattern|
  {
    if pattern == "" then []
    else if pattern[0] == 'b' then
      [nibblePath[..1]] + Cut(pattern[1..], nibblePath[1..], lengths)
    else
      FitsNonNegative(pattern[1..], |nibblePath| - lengths[0], lengths[1..]);
      [nibblePath[..lengths[0]]] + Cut(pattern[1..], nibblePath[lengths[0]..], lengths[1..])
  }

  lemma FitsNonNegative(pattern: string, pathLength: int, lengths: seq<int>)
    requires Fits(pattern, pathLength, lengths)
    ensures 0 <= pathLength
  {
  }

  /** The lengths of the sections that are not a branch's, in order. */
  function OtherLengths(pattern: string, sections: seq<Buffer>): seq<int>
    requires |sections| == |pattern|
  {
    if pattern == "" then []
    else (if pattern[0] == 'b' then [] else [|sections[0]|]) + OtherLengths(pattern[1..], sections[1..])
  }

  predicate SingleNibbles(pattern: string, sections: seq<Buffer>)
    requires |sections| == |pattern|
  {
    forall i | 0 <= i < |pattern| && pattern[i] == 'b' :: |sections[i]| == 1
  }

  lemma CutFirst(pattern: string, nibblePath: Buffer, lengths: seq<int>)
    requires pattern != "" && NonNegative(lengths) && Fits(pattern, |nibblePath|, lengths)
    ensures pattern[0] == 'b' ==>
              && 1 <= |nibblePath| && Fits(pattern[1..], |nibblePath| - 1, lengths)
              && Cut(pattern, nibblePath, lengths) == [nibblePath[..1]] + Cut(pattern[1..], nibblePath[1..], lengths)
    ensures pattern[0] != 'b' ==>
              && lengths != [] && lengths[0] <= |nibblePath| && Fits(pattern[1..], |nibblePath| - lengths[0], lengths[1..])
              && Cut(pattern, nibblePath, lengths)
              == [nibblePath[..lengths[0]]] + Cut(pattern[1..], nibblePath[lengths[0]..], lengths[1..])
  {
    if pattern[0] != 'b' {
      FitsNonNegative(pattern[1..], |nibblePath| - lengths[0], lengths[1..]);
    }
  }

  lemma {:induction false} CutFlattens(pattern: string, nibblePath: Buffer, lengths: seq<int>)
    requires NonNegative(lengths) && Fits(pattern, |nibblePath|, lengths)
    ensures Flatten(Cut(pattern, nibblePath, lengths)) == nibblePath
    decreases |pattern|
  {
    if pattern != "" {
      CutFirst(pattern, nibblePath, lengths);
      if pattern[0] == 'b' {
        CutFlattens(pattern[1..], nibblePath[1..], lengths);
        OneMoreSection(nibblePath, 1, Cut(pattern[1..], nibblePath[1..], lengths), Cut(pattern, nibblePath, lengths));
      } else {
        CutFlattens(pattern[1..], nibblePath[lengths[0]..], lengths[1..]);
        OneMoreSection(nibblePath, lengths[0], Cut(pattern[1..], nibblePath[lengths[0]..], lengths[1..]),
                       Cut(pattern, nibblePath, lengths));
      }
    }
  }

  lemma OneMoreSection(nibblePath: Buffer, k: nat, others: seq<Buffer>, sections: seq<Buffer>)
    requires k <= |nibblePath| && Flatten(others) == nibblePath[k..] && sections == [nibblePath[..k]] + others
    ensures Flatten(sections) == nibblePath
  {
    FlattenSplit(nibblePath, k, others);
  }

  lemma FlattenSplit(b: Buffer, k: nat, parts: seq<Buffer>)
    requires k <= |b| && Flatten(parts) == b[k..]
    ensures Flatten([b[..k]] + parts) == b
  {
    FlattenFirst(b[..k], parts);
    assert b == b[..k] + b[k..];
  }

  lemma {:induction false} CutMeasures(pattern: string, nibblePath: Buffer, lengths: seq<int>)
    requires NonNegative(lengths) && Fits(pattern, |nibblePath|, lengths)
    ensures var sections := Cut(pattern, nibblePath, lengths);
            |sections| == |pattern| && SingleNibbles(pattern, sections) && OtherLengths(pattern, sections) == lengths
    decreases |pattern|
  {
    CutFlattens(pattern, nibblePath, lengths);
    if pattern != "" {
      CutFirst(pattern, nibblePath, lengths);
      if pattern[0] == 'b' {
        var others := Cut(pattern[1..], nibblePath[1..], lengths);
        CutMeasures(pattern[1..], nibblePath[1..], lengths);
        MeasuresOneMore(pattern, nibblePath[..1], others, lengths);
      } else {
        var others := Cut(pattern[1..], nibblePath[lengths[0]..], lengths[1..]);
        CutMeasures(pattern[1..], nibblePath[lengths[0]..], lengths[1..]);
        MeasuresOneMore(pattern, nibblePath[..lengths[0]], others, lengths[1..]);
        assert lengths == [lengths[0]] + lengths[1..];
      }
    }
  }

  lemma MeasuresOneMore(pattern: string, first: Buffer, others: seq<Buffer>, rest: seq<int>)
    requires pattern != "" && |others| == |pattern| - 1
    requires SingleNibbles(pattern[1..], others) && OtherLengths(pattern[1..], others) == rest
    requires pattern[0] == 'b' ==> |first| == 1
    ensures SingleNibbles(pattern, [first] + others)
    ensures OtherLengths(pattern, [first] + others) == (if pattern[0] == 'b' then rest else [|first|] + rest)
  {
    var sections := [first] + others;
    assert sections[1..] == others;
    forall i | 0 <= i < |pattern| && pattern[i] == 'b'
      ensures |sections[i]| == 1
    {
      if i > 0 {
        assert pattern[1..][i - 1] == 'b' && sections[i] == others[i - 1];
      }
    }
  }

  /** Nothing of the path is lost, moved or repeated, and every section has its length. */
  lemma CutPartitions(pattern: string, nibblePath: Buffer, lengths: seq<int>)
    requires NonNegative(lengths) && Fits(pattern, |nibblePath|, lengths)
    ensures var sections := Cut(pattern, nibblePath, lengths);
            && Flatten(sections) == nibblePath
            && |sections| == |pattern|
            && SingleNibbles(pattern, sections)
            && OtherLengths(pattern, sections) == lengths
  {
    CutFlattens(pattern, nibblePath, lengths);
    CutMeasures(pattern, nibblePath, lengths);
  }

  lemma {:induction false} OtherLengthsPositive(pattern: string, sections: seq<Buffer>)
    requires |sections| == |pattern| && SingleNibbles(pattern, sections)
    requires forall k | 0 <= k < |OtherLengths(pattern, sections)| :: 1 <= OtherLengths(pattern, sections)[k]
    ensures forall i | 0 <= i < |sections| :: 1 <= |sections[i]|
    decreases |pattern|
  {
    if pattern != "" {
      var rest := OtherLengths(pattern[1..], sections[1..]);
      var all := OtherLengths(pattern, sections);
      assert forall k | 0 <= k < |rest| :: rest[k] == all[k + |all| - |rest|];
      OtherLengthsPositive(pattern[1..], sections[1..]);
      assert pattern[0] != 'b' ==> all[0] == |sections[0]|;
      assert forall i | 1 <= i < |sections| :: sections[i] == sections[1..][i - 1];
    }
  }

  function Min(a: int, b: int): int {
    if a < b then a else b
  }

  function Max(a: int, b: int): int {
    if a < b then b else a
  }

  /** An index given to `slice`: a negative one counts from the end, one past the end is the end. */
  function SliceIndex(index: int, length: nat): (r: nat)
    ensures r <= length
  {
    if index < 0 then Max(length + index, 0) else Min(index, length)
  }

  /** `slice`, which gives the empty buffer when the start is not before the end. */
  function Slice(b: Buffer, from: int, to: int): Buffer {
    var start, end := SliceIndex(from, |b|), SliceIndex(to, |b|);
    if start < end then b[start..end] else []
  }

  // ---------- The loop ----------

  /** What the loop makes of the symbols from i on, with the path read up to p and k lengths
      used, for any lengths: the sections, or the first error. */
  function SectionsFrom(pattern: string, i: nat, nibblePath: Buffer, p: int, lengths: seq<int>, k: nat)
    : (r: Result<seq<Buffer>, Error>)
    requires i <= |pattern| && k <= |lengths|
    ensures r.Success? ==> |r.value| == |pattern| - i
    decreases |pattern| - i
  {
    if i == |pattern| then
      if p == |nibblePath| && k == |lengths| then Success([]) else Failure(AssertionFailed)
    else if |nibblePath| <= p then Failure(AssertionFailed)
    else if pattern[i] == 'b' then
      After([Slice(nibblePath, p, p + 1)], SectionsFrom(pattern, i + 1, nibblePath, p + 1, lengths, k))
    else if pattern[i] == 'e' || pattern[i] == 'l' then
      if |lengths| <= k then Failure(AssertionFailed)
      else
        After([Slice(nibblePath, p, p + lengths[k])],
              SectionsFrom(pattern, i + 1, nibblePath, p + lengths[k], lengths, k + 1))
    else Failure(UnexpectedSymbol(pattern[0]))
  }

  function After(done: seq<Buffer>, rest: Result<seq<Buffer>, Error>): (r: Result<seq<Buffer>, Error>)
    ensures r.Success? <==> rest.Success?
    ensures r.Failure? ==> r == rest
    ensures r.Success? ==> r.value == done + rest.value
  {
    if rest.Success? then Success(done + rest.value) else rest
  }

  lemma AfterOneMore(done: seq<Buffer>, section: Buffer, rest: Result<seq<Buffer>, Error>)
    ensures After(done, After([section], rest)) == After(done + [section], rest)
  {
    if rest.Success? {
      assert done + ([section] + rest.value) == (done + [section]) + rest.value;
    }
  }

  lemma AfterNothing(rest: Result<seq<Buffer>, Error>)
    ensures After([], rest) == rest
  {
    if rest.Success? {
      assert [] + rest.value == rest.value;
    }
  }

  /** The length of the section a symbol takes, if there is one for it. */
  function Taken(symbol: char, pathLeft: int, lengths: seq<int>, k: nat): Option<int>
    requires k <= |lengths|
  {
    if pathLeft <= 0 || !KnownSymbol(symbol) then None
    else if symbol == 'b' then Some(1)
    else if k < |lengths| then Some(lengths[k])
    else None
  }

  /** One more section cut off keeps what is done and what is left adding up to the whole. */
  lemma CutOneMore(pattern: string, i: nat, nibblePath: Buffer, p: int, lengths: seq<int>, k: nat,
                   all: Result<seq<Buffer>, Error>, done: seq<Buffer>)
    requires i < |pattern| && k <= |lengths|
    requires all == After(done, SectionsFrom(pattern, i, nibblePath, p, lengths, k))
    ensures Taken(pattern[i], |nibblePath| - p, lengths, k).None? ==>
              all == Failure(if |nibblePath| <= p || KnownSymbol(pattern[i]) then AssertionFailed
                             else UnexpectedSymbol(pattern[0]))
    ensures Taken(pattern[i], |nibblePath| - p, lengths, k).Some? ==>
              var taken, next := Taken(pattern[i], |nibblePath| - p, lengths, k).value, if pattern[i] == 'b' then k else k + 1;
              all == After(done + [Slice(nibblePath, p, p + taken)],
                           SectionsFrom(pattern, i + 1, nibblePath, p + taken, lengths, next))
  {
    var taken := Taken(pattern[i], |nibblePath| - p, lengths, k);
    if taken.Some? {
      AfterOneMore(done, Slice(nibblePath, p, p + taken.value),
                   SectionsFrom(pattern, i + 1, nibblePath, p + taken.value, lengths, if pattern[i] == 'b' then k else k + 1));
    }
  }

  /** The loop over the pattern, and the two assertions behind it. */
  method CutSections(pattern: string, nibblePath: Buffer, lengths: seq<int>) returns (r: Result<seq<Buffer>, Error>)
    ensures r == SectionsFrom(pattern, 0, nibblePath, 0, lengths, 0)
  {
    ghost var all := SectionsFrom(pattern, 0, nibblePath, 0, lengths, 0);
    AfterNothing(all);
    var pathData: seq<Buffer> := [];
    var sectionsIndex, pathIndex := 0, 0;
    for i := 0 to |pattern|
      invariant 0 <= sectionsIndex <= |lengths|
      invariant all == After(pathData, SectionsFrom(pattern, i, nibblePath, pathIndex, lengths, sectionsIndex))
    {
      CutOneMore(pattern, i, nibblePath, pathIndex, lengths, sectionsIndex, all, pathData);
      :- Need(pathIndex < |nibblePath|, AssertionFailed);
      match pattern[i] {
        case 'b' =>
          pathData := pathData + [Slice(nibblePath, pathIndex, pathIndex + 1)];
          pathIndex := pathIndex + 1;
          assert all == After(pathData, SectionsFrom(pattern, i + 1, nibblePath, pathIndex, lengths, sectionsIndex));
        case 'e' | 'l' =>
          :- Need(sectionsIndex < |lengths|, AssertionFailed);
          pathData := pathData + [Slice(nibblePath, pathIndex, pathIndex + lengths[sectionsIndex])];
          pathIndex := pathIndex + lengths[sectionsIndex];
          sectionsIndex := sectionsIndex + 1;
          assert all == After(pathData, SectionsFrom(pattern, i + 1, nibblePath, pathIndex, lengths, sectionsIndex));
        case _ =>
          return Failure(UnexpectedSymbol(pattern[0]));
      }
    }
    assert pathData + [] == pathData;
    :- Need(pathIndex == |nibblePath|, AssertionFailed);
    :- Need(sectionsIndex == |lengths|, AssertionFailed);
    r := Success(pathData);
  }

  // ---------- When the loop comes through ----------

  lemma {:induction false} SectionsIffFits(pattern: string, i: nat, nibblePath: Buffer, p: int, lengths: seq<int>, k: nat)
    requires i <= |pattern| && k <= |lengths|
    ensures SectionsFrom(pattern, i, nibblePath, p, lengths, k).Success? <==>
              Fits(pattern[i..], |nibblePath| - p, lengths[k..])
    decreases |pattern| - i
  {
    if i < |pattern| {
      FitsStep(pattern, i, |nibblePath| - p, lengths, k);
      if pattern[i] == 'b' {
        SectionsIffFits(pattern, i + 1, nibblePath, p + 1, lengths, k);
      } else if k < |lengths| {
        SectionsIffFits(pattern, i + 1, nibblePath, p + lengths[k], lengths, k + 1);
      }
    }
  }

  lemma FitsStep(pattern: string, i: nat, pathLeft: int, lengths: seq<int>, k: nat)
    requires i < |pattern| && k <= |lengths|
    ensures Fits(pattern[i..], pathLeft, lengths[k..]) <==>
              && 0 < pathLeft
              && KnownSymbol(pattern[i])
              && if pattern[i] == 'b' then Fits(pattern[i + 1..], pathLeft - 1, lengths[k..])
                 else k < |lengths| && Fits(pattern[i + 1..], pathLeft - lengths[k], lengths[k + 1..])
  {
    assert pattern[i..][1..] == pattern[i + 1..];
    if k < |lengths| {
      assert lengths[k..][1..] == lengths[k + 1..];
    }
  }

  lemma SliceIsPart(b: Buffer, p: nat, k: nat)
    requires p + k <= |b|
    ensures Slice(b, p, p + k) == b[p..][..k] && b[p..][k..] == b[p + k..]
  {
    assert Slice(b, p, p + k) == b[p..p + k];
  }

  lemma CutBranch(pattern: string, i: nat, nibblePath: Buffer, p: nat, lengths: seq<int>, k: nat)
    requires i < |pattern| && p < |nibblePath| && k <= |lengths| && NonNegative(lengths) && pattern[i] == 'b'
    requires Fits(pattern[i..], |nibblePath| - p, lengths[k..])
    ensures Fits(pattern[i + 1..], |nibblePath| - p - 1, lengths[k..])
    ensures Cut(pattern[i..], nibblePath[p..], lengths[k..])
         == [Slice(nibblePath, p, p + 1)] + Cut(pattern[i + 1..], nibblePath[p + 1..], lengths[k..])
  {
    FitsStep(pattern, i, |nibblePath| - p, lengths, k);
    assert pattern[i..][1..] == pattern[i + 1..];
    SliceIsPart(nibblePath, p, 1);
  }

  lemma CutOther(pattern: string, i: nat, nibblePath: Buffer, p: nat, lengths: seq<int>, k: nat)
    requires i < |pattern| && p < |nibblePath| && k < |lengths| && NonNegative(lengths) && pattern[i] != 'b'
    requires Fits(pattern[i..], |nibblePath| - p, lengths[k..])
    ensures p + lengths[k] <= |nibblePath| && Fits(pattern[i + 1..], |nibblePath| - p - lengths[k], lengths[k + 1..])
    ensures Cut(pattern[i..], nibblePath[p..], lengths[k..])
         == [Slice(nibblePath, p, p + lengths[k])] + Cut(pattern[i + 1..], nibblePath[p + lengths[k]..], lengths[k + 1..])
  {
    FitsStep(pattern, i, |nibblePath| - p, lengths, k);
    FitsNonNegative(pattern[i + 1..], |nibblePath| - p - lengths[k], lengths[k + 1..]);
    assert pattern[i..][1..] == pattern[i + 1..] && lengths[k..][1..] == lengths[k + 1..];
    SliceIsPart(nibblePath, p, lengths[k]);
  }

  lemma SectionsCutBranch(pattern: string, i: nat, nibblePath: Buffer, p: nat, lengths: seq<int>, k: nat)
    requires i < |pattern| && p < |nibblePath| && k <= |lengths| && NonNegative(lengths) && pattern[i] == 'b'
    requires Fits(pattern[i..], |nibblePath| - p, lengths[k..]) && Fits(pattern[i + 1..], |nibblePath| - p - 1, lengths[k..])
    requires SectionsFrom(pattern, i + 1, nibblePath, p + 1, lengths, k)
          == Success(Cut(pattern[i + 1..], nibblePath[p + 1..], lengths[k..]))
    ensures SectionsFrom(pattern, i, nibblePath, p, lengths, k) == Success(Cut(pattern[i..], nibblePath[p..], lengths[k..]))
  {
    CutBranch(pattern, i, nibblePath, p, lengths, k);
  }

  lemma SectionsCutOther(pattern: string, i: nat, nibblePath: Buffer, p: nat, lengths: seq<int>, k: nat)
    requires i < |pattern| && p < |nibblePath| && k < |lengths| && NonNegative(lengths)
    requires pattern[i] == 'e' || pattern[i] == 'l'
    requires p + lengths[k] <= |nibblePath| && Fits(pattern[i..], |nibblePath| - p, lengths[k..])
    requires Fits(pattern[i + 1..], |nibblePath| - p - lengths[k], lengths[k + 1..])
    requires SectionsFrom(pattern, i + 1, nibblePath, p + lengths[k], lengths, k + 1)
          == Success(Cut(pattern[i + 1..], nibblePath[p + lengths[k]..], lengths[k + 1..]))
    ensures SectionsFrom(pattern, i, nibblePath, p, lengths, k) == Success(Cut(pattern[i..], nibblePath[p..], lengths[k..]))
  {
    CutOther(pattern, i, nibblePath, p, lengths, k);
  }

  /** For lengths that are not negative the sections are the parts of the path, in order. */
  lemma {:induction false} SectionsAreCut(pattern: string, i: nat, nibblePath: Buffer, p: nat, lengths: seq<int>, k: nat)
    requires i <= |pattern| && p <= |nibblePath| && k <= |lengths| && NonNegative(lengths)
    requires Fits(pattern[i..], |nibblePath| - p, lengths[k..])
    ensures SectionsFrom(pattern, i, nibblePath, p, lengths, k)
         == Success(Cut(pattern[i..], nibblePath[p..], lengths[k..]))
    decreases |pattern| - i
  {
    if i < |pattern| {
      FitsStep(pattern, i, |nibblePath| - p, lengths, k);
      if pattern[i] == 'b' {
        SectionsAreCut(pattern, i + 1, nibblePath, p + 1, lengths, k);
        SectionsCutBranch(pattern, i, nibblePath, p, lengths, k);
      } else {
        CutOther(pattern, i, nibblePath, p, lengths, k);
        SectionsAreCut(pattern, i + 1, nibblePath, p + lengths[k], lengths, k + 1);
        SectionsCutOther(pattern, i, nibblePath, p, lengths, k);
      }
    }
  }

  /** Lengths that are not negative partition the path exactly if they divide it; the last
      assertion, that the sections give the path back, is then met. */
  lemma DividedSections(pattern: string, nibblePath: Buffer, lengths: seq<int>)
    requires pattern != "" && NonNegative(lengths)
    ensures var sections := SectionsFrom(pattern, 0, nibblePath, 0, lengths, 0);
            && (sections.Success? <==> Divisible(pattern, |nibblePath|, lengths))
            && (sections.Success? ==>
                  && Flatten(sections.value) == nibblePath
                  && SingleNibbles(pattern, sections.value)
                  && OtherLengths(pattern, sections.value) == lengths)
  {
    assert pattern[0..] == pattern && nibblePath[0..] == nibblePath && lengths[0..] == lengths;
    SectionsIffFits(pattern, 0, nibblePath, 0, lengths, 0);
    FitsIffDivisible(pattern, |nibblePath|, lengths);
    if Fits(pattern, |nibblePath|, lengths) {
      SectionsAreCut(pattern, 0, nibblePath, 0, lengths, 0);
      CutPartitions(pattern, nibblePath, lengths);
    }
  }

  /** Returns what the loop cut, if that gives the path back. */
  method GeneratePathData(pattern: string, nibblePath: Buffer, lengths: seq<int>)
    returns (r: Result<seq<Buffer>, Error>)
    ensures var sections := SectionsFrom(pattern, 0, nibblePath, 0, lengths, 0);
            if pattern == "" || |nibblePath| < |pattern| then r == Failure(AssertionFailed)
            else if sections.Failure? then r == sections
            else r == if Flatten(sections.value) == nibblePath then sections else Failure(AssertionFailed)
    ensures r.Success? ==> |r.value| == |pattern| && Flatten(r.value) == nibblePath
    ensures r.Success? ==> Fits(pattern, |nibblePath|, lengths)
    ensures NonNegative(lengths) ==>
              (r.Success? <==> pattern != "" && |pattern| <= |nibblePath| && Divisible(pattern, |nibblePath|, lengths))
    ensures NonNegative(lengths) && r.Success? ==>
              SingleNibbles(pattern, r.value) && OtherLengths(pattern, r.value) == lengths
    ensures r.Failure? && KnownSymbols(pattern) ==> r.error == AssertionFailed
  {
    NamedSymbol(pattern, nibblePath, lengths);
    if |pattern| == 0 {
      return Failure(AssertionFailed);
    }
    :- Need(|pattern| <= |nibblePath|, AssertionFailed);
    SectionsIffFits(pattern, 0, nibblePath, 0, lengths, 0);
    assert pattern[0..] == pattern && lengths[0..] == lengths;
    if NonNegative(lengths) {
      DividedSections(pattern, nibblePath, lengths);
    }
    r := CutSections(pattern, nibblePath, lengths);
    if r.Success? && Flatten(r.value) != nibblePath {
      return Failure(AssertionFailed);
    }
  }

  // ---------- The symbol an error names ----------

  /** How far the path is read, and how many lengths are used, before a position. */
  function Position(pattern: string, lengths: seq<int>, i: nat): int
    requires i <= |pattern| && Others(pattern, i) <= |lengths|
  {
    CountBranches(pattern[..i]) + Sum(lengths[..Others(pattern, i)])
  }

  function Others(pattern: string, i: nat): nat
    requires i <= |pattern|
  {
    i - CountBranches(pattern[..i])
  }

  /** The loop comes to this position, with some of the path left. */
  predicate Reaches(pattern: string, pathLength: int, lengths: seq<int>, i: nat)
    requires i <= |pattern|
  {
    && (forall j | 0 <= j < i :: KnownSymbol(pattern[j]))
    && Others(pattern, i) <= |lengths|
    && forall j | 0 <= j <= i :: Others(pattern, j) <= |lengths| && Position(pattern, lengths, j) < pathLength
  }

  /** The loop stops at a symbol it does not know. */
  predicate StopsAt(pattern: string, pathLength: int, lengths: seq<int>, i: nat)
    requires i < |pattern|
  {
    !KnownSymbol(pattern[i]) && Reaches(pattern, pathLength, lengths, i)
  }

  lemma PositionStep(pattern: string, lengths: seq<int>, i: nat)
    requires i < |pattern| && Others(pattern, i) <= |lengths|
    ensures Others(pattern, i + 1) == Others(pattern, i) + if pattern[i] == 'b' then 0 else 1
    ensures var length := if Others(pattern, i) < |lengths| then lengths[Others(pattern, i)] else 0;
            var taken := if pattern[i] == 'b' then 1 else length;
            Others(pattern, i + 1) <= |lengths| ==> Position(pattern, lengths, i + 1) == Position(pattern, lengths, i) + taken
  {
    CountBranchesStep(pattern, i);
    if pattern[i] != 'b' && Others(pattern, i) < |lengths| {
      PrefixSumStep(lengths, Others(pattern, i));
    }
  }

  lemma {:induction false} ErrorFrom(pattern: string, i: nat, nibblePath: Buffer, lengths: seq<int>)
    requires i <= |pattern| && Others(pattern, i) <= |lengths|
    requires (forall j | 0 <= j < i :: KnownSymbol(pattern[j]))
    requires forall j | 0 <= j < i :: Others(pattern, j) <= |lengths| && Position(pattern, lengths, j) < |nibblePath|
    ensures var r := SectionsFrom(pattern, i, nibblePath, Position(pattern, lengths, i), lengths, Others(pattern, i));
            r.Failure? && r.error != AssertionFailed ==>
              && r.error == UnexpectedSymbol(pattern[0])
              && exists u | 0 <= u < |pattern| :: StopsAt(pattern, |nibblePath|, lengths, u)
    ensures var r := SectionsFrom(pattern, i, nibblePath, Position(pattern, lengths, i), lengths, Others(pattern, i));
            forall u | i <= u < |pattern| && StopsAt(pattern, |nibblePath|, lengths, u) ::
              r == Failure(UnexpectedSymbol(pattern[0]))
    decreases |pattern| - i
  {
    var p, k := Position(pattern, lengths, i), Others(pattern, i);
    if i < |pattern| && p < |nibblePath| {
      PositionStep(pattern, lengths, i);
      if KnownSymbol(pattern[i]) {
        if pattern[i] == 'b' || k < |lengths| {
          ErrorFrom(pattern, i + 1, nibblePath, lengths);
        } else {
          forall u | i <= u < |pattern|
            ensures !StopsAt(pattern, |nibblePath|, lengths, u)
          {
          }
        }
      } else {
        assert StopsAt(pattern, |nibblePath|, lengths, i);
      }
    }
  }

  /** An unknown symbol is reported exactly if the loop comes to one. The error names the first
      symbol of the pattern, which is the one that stopped the loop only at the beginning. */
  lemma NamedSymbol(pattern: string, nibblePath: Buffer, lengths: seq<int>)
    ensures var r := SectionsFrom(pattern, 0, nibblePath, 0, lengths, 0);
            && (r.Failure? && r.error != AssertionFailed <==>
                  exists u | 0 <= u < |pattern| :: StopsAt(pattern, |nibblePath|, lengths, u))
            && forall u | 0 <= u < |pattern| && StopsAt(pattern, |nibblePath|, lengths, u) ::
                 && r == Failure(UnexpectedSymbol(pattern[0]))
                 && (pattern[0] == pattern[u] <==> u == 0)
                 && (KnownSymbol(pattern[0]) <==> u != 0)
  {
    assert pattern[..0] == "" && lengths[..0] == [];
    ErrorFrom(pattern, 0, nibblePath, lengths);
  }

  /** The path 00, the pattern "lx" and the length 1: the error names l. */
  lemma WrongSymbolNamed()
    ensures SectionsFrom("lx", 0, [0, 0], 0, [1], 0) == Failure(UnexpectedSymbol('l'))
  {
    assert SectionsFrom("lx", 1, [0, 0], 1, [1], 1) == Failure(UnexpectedSymbol('l'));
  }

  /** When generateRandomPathData returns, whatever numbers it draws: a path at least as long
      as the pattern, and exactly as long when no symbol can take more than one nibble. */
  predicate RandomlyDivisible(pattern: string, pathLength: nat) {
    && pattern != ""
    && |pattern| <= pathLength
    && KnownSymbols(pattern)
    && (CountBranches(pattern) == |pattern| ==> pathLength == |pattern|)
  }

  /** Non-empty sections that make up the path, with single nibbles for branches. */
  predicate Partition(pattern: string, nibblePath: Buffer, sections: seq<Buffer>) {
    && |sections| == |pattern|
    && Flatten(sections) == nibblePath
    && SingleNibbles(pattern, sections)
    && forall i | 0 <= i < |sections| :: 1 <= |sections[i]|
  }

  function Incremented(numbers: seq<int>): (r: seq<int>)
    ensures |r| == |numbers|
  {
    seq(|numbers|, i requires 0 <= i < |numbers| => numbers[i] + 1)
  }

  /** Some outcome of the random choices gives these sections. */
  ghost predicate CanBeCut(pattern: string, nibblePath: Buffer, sections: seq<Buffer>) {
    exists numbers: seq<int> :: CutBy(pattern, nibblePath, sections, numbers)
  }

  ghost predicate CutBy(pattern: string, nibblePath: Buffer, sections: seq<Buffer>, numbers: seq<int>) {
    && CanBeDrawn(|nibblePath| - |pattern|, |pattern| - CountBranches(pattern), numbers)
    && SectionsFrom(pattern, 0, nibblePath, 0, Incremented(numbers), 0) == Success(sections)
  }

  method GenerateRandomPathData(pattern: string, nibblePath: Buffer) returns (r: Result<seq<Buffer>, Error>)
    ensures r.Success? <==> RandomlyDivisible(pattern, |nibblePath|)
    ensures r.Success? ==> Partition(pattern, nibblePath, r.value)
    ensures r.Success? ==> CanBeCut(pattern, nibblePath, r.value)
    ensures r.Failure? && KnownSymbols(pattern) ==> r.error == AssertionFailed
  {
    if |pattern| == 0 {
      return Failure(AssertionFailed);
    }
    :- Need(|pattern| <= |nibblePath|, AssertionFailed);
    var numberCount := |pattern| - CountBranches(pattern);
    var sum := |nibblePath| - |pattern|;
    var drawn := GenerateRandomNumbers(sum, numberCount);
    assert drawn.Success?;
    var randomNumbers := drawn.value;
    var lengths := Incremented(randomNumbers);
    IncrementedDivides(pattern, |nibblePath|, randomNumbers);
    r := GeneratePathData(pattern, nibblePath, lengths);
    if r.Success? {
      assert CutBy(pattern, nibblePath, r.value, randomNumbers);
      CanBeCutIffPartition(pattern, nibblePath, r.value);
    }
  }

  /** Drawn numbers, each with one added, divide the path unless no symbol takes the rest of it. */
  lemma IncrementedDivides(pattern: string, pathLength: nat, numbers: seq<int>)
    requires pattern != "" && |pattern| <= pathLength && NonNegative(numbers)
    requires |numbers| == |pattern| - CountBranches(pattern)
    requires 0 < |numbers| ==> Sum(numbers) == pathLength - |pattern|
    ensures NonNegative(Incremented(numbers))
    ensures Divisible(pattern, pathLength, Incremented(numbers)) <==> RandomlyDivisible(pattern, pathLength)
  {
    SumIncremented(numbers, Incremented(numbers));
    assert numbers == [] <==> CountBranches(pattern) == |pattern|;
    if pattern[|pattern| - 1] != 'b' {
      LastNotBranch(pattern);
    }
  }

  lemma {:induction false} SumIncremented(numbers: seq<int>, incremented: seq<int>)
    requires |numbers| == |incremented|
    requires forall i | 0 <= i < |numbers| :: incremented[i] == numbers[i] + 1
    ensures Sum(incremented) == Sum(numbers) + |numbers|
    decreases |numbers|
  {
    if numbers != [] {
      SumIncremented(numbers[..|numbers| - 1], incremented[..|numbers| - 1]);
    }
  }

  /** Cutting at the lengths of given sections gives the sections. */
  lemma {:induction false} CutRecovers(pattern: string, sections: seq<Buffer>)
    requires KnownSymbols(pattern) && Partition(pattern, Flatten(sections), sections)
    ensures NonNegative(OtherLengths(pattern, sections))
    ensures Fits(pattern, |Flatten(sections)|, OtherLengths(pattern, sections))
    ensures Cut(pattern, Flatten(sections), OtherLengths(pattern, sections)) == sections
    decreases |pattern|
  {
    if pattern != "" {
      KnownStep(pattern);
      PartitionRest(pattern, sections);
      CutRecovers(pattern[1..], sections[1..]);
      RecoverFirst(pattern, sections, OtherLengths(pattern[1..], sections[1..]));
    }
  }

  lemma RecoverFirst(pattern: string, sections: seq<Buffer>, rest: seq<int>)
    requires pattern != "" && |sections| == |pattern| && KnownSymbol(pattern[0])
    requires 1 <= |sections[0]| && (pattern[0] == 'b' ==> |sections[0]| == 1)
    requires rest == OtherLengths(pattern[1..], sections[1..]) && NonNegative(rest)
    requires Fits(pattern[1..], |Flatten(sections[1..])|, rest)
    requires Cut(pattern[1..], Flatten(sections[1..]), rest) == sections[1..]
    ensures NonNegative(OtherLengths(pattern, sections))
    ensures Fits(pattern, |Flatten(sections)|, OtherLengths(pattern, sections))
    ensures Cut(pattern, Flatten(sections), OtherLengths(pattern, sections)) == sections
  {
    var first, lengths := sections[0], OtherLengths(pattern, sections);
    if pattern[0] == 'b' {
      assert lengths == rest;
    } else {
      assert lengths == [|first|] + rest && lengths[1..] == rest;
    }
    RecoverSection(pattern, first, Flatten(sections[1..]), lengths, rest);
    assert sections == [first] + sections[1..];
  }

  lemma RecoverSection(pattern: string, first: Buffer, path: Buffer, lengths: seq<int>, rest: seq<int>)
    requires pattern != "" && first != [] && KnownSymbol(pattern[0])
    requires if pattern[0] == 'b' then |first| == 1 && lengths == rest
             else lengths != [] && lengths[0] == |first| && lengths[1..] == rest
    requires NonNegative(rest) && Fits(pattern[1..], |path|, rest)
    ensures NonNegative(lengths) && Fits(pattern, |first + path|, lengths)
    ensures Cut(pattern, first + path, lengths) == [first] + Cut(pattern[1..], path, rest)
  {
    assert (first + path)[..|first|] == first && (first + path)[|first|..] == path;
  }

  lemma PartitionRest(pattern: string, sections: seq<Buffer>)
    requires pattern != "" && Partition(pattern, Flatten(sections), sections)
    ensures Partition(pattern[1..], Flatten(sections[1..]), sections[1..])
  {
    forall i | 0 <= i < |sections| - 1
      ensures sections[1..][i] == sections[i + 1] && pattern[1..][i] == pattern[i + 1]
    {
    }
  }

  /** Every partition of the path is a possible outcome, and there are no others. */
  lemma CanBeCutIffPartition(pattern: string, nibblePath: Buffer, sections: seq<Buffer>)
    requires RandomlyDivisible(pattern, |nibblePath|)
    ensures CanBeCut(pattern, nibblePath, sections) <==> Partition(pattern, nibblePath, sections)
  {
    if CanBeCut(pattern, nibblePath, sections) {
      var numbers: seq<int> :| CutBy(pattern, nibblePath, sections, numbers);
      CanBeDrawnIff(|nibblePath| - |pattern|, |pattern| - CountBranches(pattern), numbers);
      DividedSections(pattern, nibblePath, Incremented(numbers));
      OtherLengthsPositive(pattern, sections);
    }
    if Partition(pattern, nibblePath, sections) {
      PartitionIsCut(pattern, nibblePath, sections);
    }
  }

  lemma PartitionIsCut(pattern: string, nibblePath: Buffer, sections: seq<Buffer>)
    requires RandomlyDivisible(pattern, |nibblePath|) && Partition(pattern, nibblePath, sections)
    ensures CanBeCut(pattern, nibblePath, sections)
  {
    var lengths := OtherLengths(pattern, sections);
    PartitionDivides(pattern, nibblePath, sections);
    var numbers := seq(|lengths|, i requires 0 <= i < |lengths| => lengths[i] - 1);
    assert Incremented(numbers) == lengths;
    SumIncremented(numbers, lengths);
    CanBeDrawnIff(|nibblePath| - |pattern|, |pattern| - CountBranches(pattern), numbers);
    assert CutBy(pattern, nibblePath, sections, numbers);
  }

  lemma PartitionDivides(pattern: string, nibblePath: Buffer, sections: seq<Buffer>)
    requires RandomlyDivisible(pattern, |nibblePath|) && Partition(pattern, nibblePath, sections)
    ensures var lengths := OtherLengths(pattern, sections);
            && (forall k | 0 <= k < |lengths| :: 1 <= lengths[k])
            && Divisible(pattern, |nibblePath|, lengths)
            && SectionsFrom(pattern, 0, nibblePath, 0, lengths, 0) == Success(sections)
  {
    var lengths := OtherLengths(pattern, sections);
    CutRecovers(pattern, sections);
    LengthsPositive(pattern, sections);
    assert pattern[0..] == pattern && nibblePath[0..] == nibblePath && lengths[0..] == lengths;
    SectionsAreCut(pattern, 0, nibblePath, 0, lengths, 0);
    FitsIffDivisible(pattern, |nibblePath|, lengths);
  }

  lemma {:induction false} LengthsPositive(pattern: string, sections: seq<Buffer>)
    requires |sections| == |pattern| && forall i | 0 <= i < |sections| :: 1 <= |sections[i]|
    ensures forall k | 0 <= k < |OtherLengths(pattern, sections)| :: 1 <= OtherLengths(pattern, sections)[k]
    decreases |pattern|
  {
    if pattern != "" {
      LengthsPositive(pattern[1..], sections[1..]);
    }
  }
}
