/**
 * Python's `str.startswith` and `str.upper`, which the service relies on, and a search for one
 * character, which only the data-URL parser (the inverse of the service's URL construction) uses.
 */
module Strings {
  import opened Wrappers

  /** `s.startswith(prefix)`. */
  predicate StartsWith(s: string, prefix: string) {
    |prefix| <= |s| && s[..|prefix|] == prefix
  }

  /** Upper-casing of one character, restricted to the ASCII letters. */
  function UpperChar(ch: char): char {
    if 'a' <= ch <= 'z' then (ch as int - 32) as char else ch
  }

  predicate IsAsciiLower(ch: char) {
    'a' <= ch <= 'z'
  }

  /** `s.upper()` on ASCII text: every lower-case letter becomes its capital, everything else stays. */
  function Upper(s: string): (u: string)
    ensures |u| == |s|
    ensures forall i :: 0 <= i < |s| ==> u[i] == UpperChar(s[i])
    ensures forall i :: 0 <= i < |u| ==> !IsAsciiLower(u[i])
  {
    if s == [] then [] else [UpperChar(s[0])] + Upper(s[1..])
  }

  /** Upper-casing twice is upper-casing once. */
  lemma {:induction false} UpperIdempotent(s: string)
    ensures Upper(Upper(s)) == Upper(s)
  {
    if s != [] {
      UpperIdempotent(s[1..]);
      assert Upper(s)[1..] == Upper(s[1..]);
    }
  }

  /** The first position holding `ch`, or `None`; a helper of the data-URL parser. */
  function IndexOf(s: string, ch: char): (r: Option<nat>)
    ensures r.None? <==> ch !in s
    ensures r.Some? ==> r.value < |s| && s[r.value] == ch && ch !in s[..r.value]
  {
    if s == [] then None
    else if s[0] == ch then Some(0)
    else match IndexOf(s[1..], ch)
      case None => None
      case Some(i) => Some(i + 1)
  }

  /** A position holding `ch` with no `ch` before it is the position `s.find(ch)` reports. */
  lemma IndexOfFirst(s: string, ch: char, k: nat)
    requires k < |s| && s[k] == ch && ch !in s[..k]
    ensures IndexOf(s, ch) == Some(k)
  {
  }

  /** The two halves of a concatenation are its prefix and its suffix. */
  lemma ConcatSlices(a: string, b: string)
    ensures (a + b)[..|a|] == a && (a + b)[|a|..] == b
  {
  }
}
