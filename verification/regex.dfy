/** The two pieces of Python `re` semantics the scripts' patterns share. */
module Regex {

  /** `.` does not match a newline: `s[i..j]` has none. */
  predicate NoNewline(s: string, i: int, j: int) {
    forall k | i <= k < j && 0 <= k < |s| :: s[k] != '\n'
  }

  /** `$` (without MULTILINE): the end of the string, or just before a
      final newline. */
  predicate EndAnchor(s: string, e: int) {
    e == |s| || (0 <= e == |s| - 1 && s[e] == '\n')
  }
}
