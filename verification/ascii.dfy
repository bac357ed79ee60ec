/** ASCII case mapping, the part of Python's `str.lower` that column labels use. */
module Ascii {

  predicate IsUpper(c: char) {
    'A' <= c <= 'Z'
  }

  /** Maps an upper-case ASCII letter to its lower-case partner; every other character is kept. */
  function LowerChar(c: char): (d: char)
    ensures !IsUpper(d)
    ensures !IsUpper(c) ==> d == c
    ensures IsUpper(c) ==> 'a' <= d <= 'z' && d as int - 'a' as int == c as int - 'A' as int
  {
    if IsUpper(c) then (c as int - 'A' as int + 'a' as int) as char else c
  }

  /** A string with no upper-case ASCII letter. */
  predicate IsLower(s: string) {
    forall i | 0 <= i < |s| :: !IsUpper(s[i])
  }

  /** Lower-cases every character of `s`, position by position. */
  function Lower(s: string): (r: string)
    ensures |r| == |s|
    ensures IsLower(r)
    ensures forall i | 0 <= i < |s| :: r[i] == LowerChar(s[i])
  {
    if |s| == 0 then "" else [LowerChar(s[0])] + Lower(s[1..])
  }

  /** Lower-casing leaves a string alone exactly when it is already lower-case. */
  lemma LowerFixedPoint(s: string)
    ensures Lower(s) == s <==> IsLower(s)
  {
  }

  lemma LowerIdempotent(s: string)
    ensures Lower(Lower(s)) == Lower(s)
  {
  }
}
