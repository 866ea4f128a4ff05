/** The ways in which the proof generator throws. */
module GeneratorErrors {
  datatype Error =
    | EmptyPattern
    | UnexpectedSymbol(symbol: char)
    | LeafNotLast
    | SingleEndingBranch
    | EndsWithExtension
    | ConsecutiveExtensions
    | LeafAfterExtension
    | AssertionFailed
}
