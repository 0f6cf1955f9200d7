/** Character classes shared by the grammar model and the argument parser.
    Rust's `char::is_uppercase` and `str::to_lowercase` are Unicode-aware;
    this model restricts them to ASCII. */
module Chars {

  /** ASCII stand-in for `char::is_uppercase`: nonterminals are the upper-case letters. */
  predicate IsUpper(c: char) {
    'A' <= c <= 'Z'
  }

  /** ASCII stand-in for lower-casing one character. */
  function ToLowerChar(c: char): (d: char)
    ensures !IsUpper(d)
    ensures !IsUpper(c) ==> d == c
    ensures IsUpper(c) ==> d as int == c as int + 32
  {
    if IsUpper(c) then (c as int + 32) as char else c
  }

  /** ASCII stand-in for `str::to_lowercase`: lower-cases every character, keeps the length. */
  function ToLower(s: string): (r: string)
    ensures |r| == |s|
    ensures forall i :: 0 <= i < |s| ==> r[i] == ToLowerChar(s[i])
  {
    seq(|s|, i requires 0 <= i < |s| => ToLowerChar(s[i]))
  }
}
