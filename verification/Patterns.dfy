/** The pattern language of the generator: `b`ranch, `e`xtension and `l`eaf symbols from the
    root of the trie down to the node holding the value
    (src/FuzzyProofGenerator.ts, assertPatternValidity and the process functions). */
module Patterns {
  import opened Results
  import opened GeneratorErrors

  function AssertPatternValidity(pattern: string): Outcome<Error> {
    if |pattern| == 0 then Fail(EmptyPattern)
    else match pattern[0]
      case 'b' => ProcessBranch(pattern, 1)
      case 'e' => ProcessExtension(pattern, 1)
      case 'l' => ProcessLeaf(pattern, 1)
      case _ => Fail(UnexpectedSymbol(pattern[0]))
  }

  function ProcessLeaf(pattern: string, index: nat): Outcome<Error> {
    if index != |pattern| then Fail(LeafNotLast) else Pass
  }

  function ProcessBranch(pattern: string, index: nat): Outcome<Error>
    requires 1 <= index <= |pattern|
    decreases |pattern| - index
  {
    if index == |pattern| then
      if |pattern| == 1 || pattern[index - 2] != 'b' then Fail(SingleEndingBranch) else Pass
    else match pattern[index]
      case 'b' => ProcessBranch(pattern, index + 1)
      case 'e' => ProcessExtension(pattern, index + 1)
      case 'l' => ProcessLeaf(pattern, index + 1)
      case _ => Fail(UnexpectedSymbol(pattern[index]))
  }

  function ProcessExtension(pattern: string, index: nat): Outcome<Error>
    requires 1 <= index <= |pattern|
    decreases |pattern| - index
  {
    if |pattern| == index then Fail(EndsWithExtension)
    else match pattern[index]
      case 'b' => ProcessBranch(pattern, index + 1)
      case 'e' => Fail(ConsecutiveExtensions)
      case 'l' => Fail(LeafAfterExtension)
      case _ => Fail(UnexpectedSymbol(pattern[index]))
  }

  predicate KnownSymbol(symbol: char) {
    symbol == 'b' || symbol == 'e' || symbol == 'l'
  }

  /** The symbol that is reported as unexpected is the first unknown one. */
  predicate FirstUnknown(pattern: string, i: int, symbol: char) {
    && 0 <= i < |pattern| && pattern[i] == symbol && !KnownSymbol(symbol)
    && forall j | 0 <= j < i :: KnownSymbol(pattern[j])
  }

  lemma ReportedIsUnknown(pattern: string, symbol: char)
    requires AssertPatternValidity(pattern) == Fail(UnexpectedSymbol(symbol))
    ensures exists i :: FirstUnknown(pattern, i, symbol)
  {
    if !KnownSymbol(pattern[0]) {
      assert FirstUnknown(pattern, 0, symbol);
    } else {
      ReportedFrom(pattern, 1, symbol);
    }
  }

  lemma {:induction false} ReportedFrom(pattern: string, index: nat, symbol: char)
    requires 1 <= index <= |pattern| && forall j | 0 <= j < index :: KnownSymbol(pattern[j])
    requires || ProcessBranch(pattern, index) == Fail(UnexpectedSymbol(symbol))
             || ProcessExtension(pattern, index) == Fail(UnexpectedSymbol(symbol))
    ensures exists i :: FirstUnknown(pattern, i, symbol)
    decreases |pattern| - index
  {
    if !KnownSymbol(pattern[index]) {
      assert FirstUnknown(pattern, index, symbol);
    } else {
      ReportedFrom(pattern, index + 1, symbol);
    }
  }

  // ---------- What is wrong with a pattern ----------

  /** The fault at a position, or behind the last symbol, in terms of that symbol and the one or two
      before it. */
  predicate FaultAt(pattern: string, i: nat, error: Error)
    requires i <= |pattern|
  {
    var end := i == |pattern|;
    match error
    case EmptyPattern => pattern == ""
    case LeafNotLast => 0 < i && !end && pattern[i - 1] == 'l'
    case ConsecutiveExtensions => 0 < i && !end && pattern[i - 1] == 'e' && pattern[i] == 'e'
    case LeafAfterExtension => 0 < i && !end && pattern[i - 1] == 'e' && pattern[i] == 'l'
    case EndsWithExtension => 0 < i && end && pattern[i - 1] == 'e'
    case SingleEndingBranch => 0 < i && end && pattern[i - 1] == 'b' && (i == 1 || pattern[i - 2] != 'b')
    case UnexpectedSymbol(symbol) =>
      !end && pattern[i] == symbol && !KnownSymbol(symbol) && (i == 0 || pattern[i - 1] != 'l')
    case AssertionFailed => false
  }

  ghost predicate Faultless(pattern: string, i: nat)
    requires i <= |pattern|
  {
    forall error :: !FaultAt(pattern, i, error)
  }

  /** The first fault of the pattern. */
  ghost predicate FirstFault(pattern: string, i: nat, error: Error) {
    i <= |pattern| && FaultAt(pattern, i, error) && forall j: nat | j < i :: Faultless(pattern, j)
  }

  /** The check reports the first fault, and accepts exactly the patterns without one. */
  lemma FirstFaultIsReported(pattern: string, error: Error)
    ensures AssertPatternValidity(pattern) == Fail(error) <==> exists i: nat :: FirstFault(pattern, i, error)
    ensures Valid(pattern) <==> forall i: nat | i <= |pattern| :: Faultless(pattern, i)
  {
    var checked := AssertPatternValidity(pattern);
    FaultOfCheck(pattern);
    if i: nat :| FirstFault(pattern, i, error) {
      assert !Faultless(pattern, i);
      var k: nat :| FirstFault(pattern, k, checked.error);
      assert !Faultless(pattern, k);
      assert i == k;
    } else if Valid(pattern) {
      assert forall i: nat | i <= |pattern| :: Faultless(pattern, i);
    } else {
      var k: nat :| FirstFault(pattern, k, checked.error);
      assert !Faultless(pattern, k);
    }
  }

  /** What the process functions say from a position on, according to the symbol before it. */
  function CheckFrom(pattern: string, index: nat): Outcome<Error>
    requires 1 <= index <= |pattern| && KnownSymbol(pattern[index - 1])
  {
    match pattern[index - 1]
    case 'b' => ProcessBranch(pattern, index)
    case 'e' => ProcessExtension(pattern, index)
    case _ => ProcessLeaf(pattern, index)
  }

  lemma FaultOfCheck(pattern: string)
    ensures var checked := AssertPatternValidity(pattern);
            if checked.Fail? then exists i: nat :: FirstFault(pattern, i, checked.error)
            else forall i: nat | i <= |pattern| :: Faultless(pattern, i)
  {
    var checked := AssertPatternValidity(pattern);
    if pattern == "" || !KnownSymbol(pattern[0]) {
      assert FirstFault(pattern, 0, checked.error);
    } else {
      assert checked == CheckFrom(pattern, 1);
      FaultFrom(pattern, 1);
    }
  }

  lemma {:induction false} FaultFrom(pattern: string, index: nat)
    requires 1 <= index <= |pattern| && KnownSymbol(pattern[index - 1])
    requires forall j: nat | j < index :: Faultless(pattern, j)
    ensures var checked := CheckFrom(pattern, index);
            if checked.Fail? then exists i: nat :: FirstFault(pattern, i, checked.error)
            else forall i: nat | i <= |pattern| :: Faultless(pattern, i)
    decreases |pattern| - index
  {
    var checked := CheckFrom(pattern, index);
    if exists error :: FaultAt(pattern, index, error) {
      assert FaultAt(pattern, index, checked.error);
      assert FirstFault(pattern, index, checked.error);
    } else {
      assert Faultless(pattern, index);
      if index < |pattern| {
        NothingWrongAt(pattern, index);
        FaultFrom(pattern, index + 1);
      } else {
        assert !FaultAt(pattern, index, EndsWithExtension) && !FaultAt(pattern, index, SingleEndingBranch);
        assert checked.Pass?;
      }
    }
  }

  lemma NothingWrongAt(pattern: string, index: nat)
    requires 1 <= index < |pattern| && KnownSymbol(pattern[index - 1]) && Faultless(pattern, index)
    ensures KnownSymbol(pattern[index]) && CheckFrom(pattern, index) == CheckFrom(pattern, index + 1)
  {
    assert !FaultAt(pattern, index, UnexpectedSymbol(pattern[index]));
    assert !FaultAt(pattern, index, LeafNotLast);
    assert !FaultAt(pattern, index, ConsecutiveExtensions);
    assert !FaultAt(pattern, index, LeafAfterExtension);
  }

  // ---------- The language, declared ----------

  /** One step of a path: a branch, or an extension followed by the branch it leads to. */
  datatype Step = Plain | Extended

  function Spell(steps: seq<Step>): string {
    if steps == [] then ""
    else (if steps[0].Plain? then "b" else "eb") + Spell(steps[1..])
  }

  /** (b|eb)*l, or (b|eb)+b. */
  ghost predicate InLanguage(pattern: string) {
    exists steps: seq<Step> :: SpelledBy(pattern, steps)
  }

  predicate SpelledBy(pattern: string, steps: seq<Step>) {
    pattern == Spell(steps) + "l" || (steps != [] && pattern == Spell(steps) + "b")
  }

  predicate Valid(pattern: string) {
    AssertPatternValidity(pattern).Pass?
  }

  /** The validity check accepts exactly the language. */
  lemma ValidIffInLanguage(pattern: string)
    ensures Valid(pattern) <==> InLanguage(pattern)
  {
    if Valid(pattern) {
      var steps := ValidSteps(pattern);
      assert SpelledBy(pattern, steps);
    }
    if InLanguage(pattern) {
      var steps: seq<Step> :| SpelledBy(pattern, steps);
      SpelledIsValid(pattern, steps, if pattern == Spell(steps) + "l" then 'l' else 'b');
    }
  }

  lemma SpelledIsValid(pattern: string, steps: seq<Step>, last: char)
    requires last == 'l' || (last == 'b' && steps != [])
    requires pattern == Spell(steps) + [last]
    ensures Valid(pattern)
  {
    if steps == [] {
      assert pattern == "l";
    } else {
      var k := if steps[0].Plain? then 1 else 2;
      assert pattern[..k] == if steps[0].Plain? then "b" else "eb";
      assert forall i | 0 <= i < k :: pattern[i] == pattern[..k][i];
      assert pattern[k..] == Spell(steps[1..]) + [last];
      SpelledIsProcessed(pattern, k, steps[1..], last);
    }
  }

  lemma ValidSteps(pattern: string) returns (steps: seq<Step>)
    requires Valid(pattern)
    ensures SpelledBy(pattern, steps)
  {
    if pattern[0] == 'l' {
      steps := [];
    } else {
      var first := if pattern[0] == 'b' then Plain else Extended;
      var k := if pattern[0] == 'b' then 1 else 2;
      var rest := ProcessedSteps(pattern, k);
      steps := [first] + rest;
      assert pattern == pattern[..k] + pattern[k..];
      assert pattern[..k] == if first.Plain? then "b" else "eb";
    }
  }

  /** After a branch the accepted remainders are (b|eb)*l and (b|eb)*b; the empty remainder is
      accepted only right after two branches. */
  lemma {:induction false} ProcessedSteps(pattern: string, index: nat) returns (steps: seq<Step>)
    requires 1 <= index <= |pattern| && pattern[index - 1] == 'b'
    requires ProcessBranch(pattern, index).Pass?
    requires index == |pattern| ==> 2 <= index && pattern[index - 2] == 'b'
    ensures index < |pattern| ==>
              pattern[index..] == Spell(steps) + "l" || pattern[index..] == Spell(steps) + "b"
    decreases |pattern| - index
  {
    steps := [];
    if index < |pattern| {
      var rest := pattern[index..];
      if rest != "l" && rest != "b" {
        var first := if pattern[index] == 'b' then Plain else Extended;
        var k := if pattern[index] == 'b' then 1 else 2;
        steps := ProcessedSteps(pattern, index + k);
        steps := [first] + steps;
        assert rest == rest[..k] + pattern[index + k..];
        assert rest[..k] == if first.Plain? then "b" else "eb";
      }
    }
  }

  lemma FirstStepSpelled(rest: string, steps: seq<Step>, last: char)
    requires steps != [] && rest == Spell(steps) + [last]
    ensures var k := if steps[0].Plain? then 1 else 2;
            && k < |rest| && rest[k..] == Spell(steps[1..]) + [last]
            && (if k == 1 then rest[0] == 'b' else rest[0] == 'e' && rest[1] == 'b')
  {
    var first := if steps[0].Plain? then "b" else "eb";
    assert rest == first + (Spell(steps[1..]) + [last]);
  }

  lemma {:induction false} SpelledIsProcessed(pattern: string, index: nat, steps: seq<Step>, last: char)
    requires 1 <= index <= |pattern| && pattern[index - 1] == 'b'
    requires last == 'l' || last == 'b'
    requires pattern[index..] == Spell(steps) + [last]
    ensures ProcessBranch(pattern, index).Pass?
    decreases |steps|
  {
    var rest := pattern[index..];
    assert pattern[index] == rest[0];
    if steps == [] {
      assert |pattern| == index + 1;
    } else {
      var k := if steps[0].Plain? then 1 else 2;
      FirstStepSpelled(rest, steps, last);
      assert pattern[index + k..] == rest[k..];
      assert k == 2 ==> pattern[index + 1] == rest[1];
      SpelledIsProcessed(pattern, index + k, steps[1..], last);
    }
  }

  // ---------- The same language, symbol by symbol ----------

  /** An extension leads to a branch, a leaf is last, a last branch follows a branch. */
  predicate WellPlaced(pattern: string, i: nat)
    requires i < |pattern|
  {
    match pattern[i]
    case 'b' => i + 1 == |pattern| ==> 1 <= i && pattern[i - 1] == 'b'
    case 'e' => i + 1 < |pattern| && pattern[i + 1] == 'b'
    case 'l' => i + 1 == |pattern|
    case _ => false
  }

  lemma ValidIffWellPlaced(pattern: string)
    ensures Valid(pattern) <==> pattern != "" && forall i | 0 <= i < |pattern| :: WellPlaced(pattern, i)
  {
    if pattern != "" {
      if pattern[0] == 'b' {
        ProcessedIffWellPlaced(pattern, 1);
      } else if pattern[0] == 'e' && 1 < |pattern| && pattern[1] == 'b' {
        ProcessedIffWellPlaced(pattern, 2);
        assert WellPlaced(pattern, 0);
      } else {
        assert WellPlaced(pattern, 0) ==> pattern == "l";
      }
    }
  }

  lemma {:induction false} ProcessedIffWellPlaced(pattern: string, index: nat)
    requires 1 <= index <= |pattern| && pattern[index - 1] == 'b'
    ensures ProcessBranch(pattern, index).Pass?
       <==> forall i | index - 1 <= i < |pattern| :: WellPlaced(pattern, i)
    decreases |pattern| - index
  {
    if index < |pattern| {
      assert WellPlaced(pattern, index - 1);
      if pattern[index] == 'b' {
        ProcessedIffWellPlaced(pattern, index + 1);
      } else if pattern[index] == 'e' && index + 1 < |pattern| && pattern[index + 1] == 'b' {
        ProcessedIffWellPlaced(pattern, index + 2);
        assert WellPlaced(pattern, index);
      } else {
        assert WellPlaced(pattern, index) ==> pattern[index] == 'l' && index + 1 == |pattern|;
      }
    } else {
      assert WellPlaced(pattern, index - 1) <==> 2 <= index && pattern[index - 2] == 'b';
    }
  }

  // ---------- Counting branches ----------

  /** The number of pieces `split('b')` cuts the pattern into, less one. */
  function CountBranches(pattern: string): (count: nat)
    ensures count <= |pattern|
  {
    if pattern == "" then 0
    else CountBranches(pattern[1..]) + if pattern[0] == 'b' then 1 else 0
  }

  lemma {:induction false} CountBranchesSplit(left: string, right: string)
    ensures CountBranches(left + right) == CountBranches(left) + CountBranches(right)
  {
    if left == "" {
      assert left + right == right;
    } else {
      assert (left + right)[1..] == left[1..] + right;
      CountBranchesSplit(left[1..], right);
    }
  }

  lemma CountBranchesStep(pattern: string, i: nat)
    requires i < |pattern|
    ensures CountBranches(pattern[..i + 1]) == CountBranches(pattern[..i]) + if pattern[i] == 'b' then 1 else 0
  {
    assert pattern[..i + 1] == pattern[..i] + [pattern[i]];
    CountBranchesSplit(pattern[..i], [pattern[i]]);
  }

  lemma LastNotBranch(pattern: string)
    requires pattern != "" && pattern[|pattern| - 1] != 'b'
    ensures CountBranches(pattern) < |pattern|
  {
    CountBranchesStep(pattern, |pattern| - 1);
    assert pattern[..|pattern|] == pattern;
  }
}
