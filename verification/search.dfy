/** What a JavaScript regular expression search without the sticky flag reports
    (`RegExp.prototype.test`, and element 0 of `String.prototype.match` with the `g`
    flag). The search tries the pattern anchored at index 0, 1, 2, ... and stops at the
    first index where it succeeds; each pattern's module writes that scan over its own
    anchored matcher. */
module Search {
  /** A match: where it starts in the searched string, and its text. */
  datatype Match = Match(start: nat, text: string)
}
