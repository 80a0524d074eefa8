/** Letter case in the C locale. */
module Ascii {
  predicate IsUpper(c: char) {
    'A' <= c <= 'Z'
  }

  predicate IsLower(c: char) {
    'a' <= c <= 'z'
  }

  function Lower(c: char): char {
    if IsUpper(c) then (c as int + 32) as char else c
  }

  function LowerAll(s: string): (t: string)
    ensures |t| == |s|
    ensures forall i :: 0 <= i < |s| ==> t[i] == Lower(s[i])
  {
    if s == [] then [] else LowerAll(s[..|s| - 1]) + [Lower(s[|s| - 1])]
  }
}
