/** `String.prototype.toLowerCase`, restricted to the ASCII letters. */
module Ascii {

  predicate IsUpper(c: char) {
    'A' <= c <= 'Z'
  }

  /** True when some character of `s` is an upper-case ASCII letter. */
  predicate HasUpper(s: string) {
    exists i :: 0 <= i < |s| && IsUpper(s[i])
  }

  /** Lower-cases one character: 'A'..'Z' become 'a'..'z', all else is kept. */
  function ToLowerChar(c: char): (r: char)
    ensures !IsUpper(r)
    ensures r == c || IsUpper(c)
    ensures IsUpper(c) ==> 'a' <= r <= 'z' && r as int - c as int == 'a' as int - 'A' as int
  {
    if IsUpper(c) then (c as int - 'A' as int + 'a' as int) as char else c
  }

  function ToLower(s: string): (r: string)
    ensures |r| == |s|
    ensures forall i :: 0 <= i < |s| ==> r[i] == ToLowerChar(s[i])
    ensures !HasUpper(r)
  {
    seq(|s|, i requires 0 <= i < |s| => ToLowerChar(s[i]))
  }

  /** Lower-casing twice is lower-casing once. */
  lemma ToLowerIdempotent(s: string)
    ensures ToLower(ToLower(s)) == ToLower(s)
  {
  }

  /** A string with an upper-case letter is never the lower-cased form of anything. */
  lemma UpperIsNoLowerForm(k: string, s: string)
    requires HasUpper(k)
    ensures ToLower(s) != k
  {
  }

  /** Two characters have the same lower-case form exactly when they are equal
      or differ only in the case of one ASCII letter. */
  lemma ToLowerCharEq(c: char, d: char)
    ensures ToLowerChar(c) == ToLowerChar(d) <==>
              c == d
              || (IsUpper(c) && d as int == c as int - 'A' as int + 'a' as int)
              || (IsUpper(d) && c as int == d as int - 'A' as int + 'a' as int)
  {
  }
}
