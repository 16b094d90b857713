/** The part of JavaScript's string library that the login form uses: `String.prototype.trim`. */
module Text {

  /** The ECMAScript WhiteSpace and LineTerminator code points, which `trim` removes at both ends. */
  predicate IsTrimmable(c: char)
  {
    c == '\t' || c == '\n' || c == '\U{000B}' || c == '\U{000C}' || c == '\r' || c == ' '
    || c == '\U{00A0}' || c == '\U{1680}' || ('\U{2000}' <= c <= '\U{200A}')
    || c == '\U{2028}' || c == '\U{2029}' || c == '\U{202F}' || c == '\U{205F}'
    || c == '\U{3000}' || c == '\U{FEFF}'
  }

  /** The index of the first character at or after `from` that is not white space, or `|s|`. */
  function SkipSpace(s: string, from: nat): (k: nat)
    requires from <= |s|
    ensures from <= k <= |s|
    ensures forall i :: from <= i < k ==> IsTrimmable(s[i])
    ensures k < |s| ==> !IsTrimmable(s[k])
    decreases |s| - from
  {
    if from < |s| && IsTrimmable(s[from]) then SkipSpace(s, from + 1) else from
  }

  /** The index just after the last character before `upto` that is not white space, looking no
    * further back than `floor`. */
  function SkipSpaceBack(s: string, upto: nat, floor: nat): (e: nat)
    requires floor <= upto <= |s|
    ensures floor <= e <= upto
    ensures forall i :: e <= i < upto ==> IsTrimmable(s[i])
    ensures e > floor ==> !IsTrimmable(s[e - 1])
    decreases upto
  {
    if upto > floor && IsTrimmable(s[upto - 1]) then SkipSpaceBack(s, upto - 1, floor) else upto
  }

  /** The number of white-space characters `trim` drops from the front of `s`. */
  function LeadingSpace(s: string): nat
  {
    SkipSpace(s, 0)
  }

  /** `s.trim()`: the slice of `s` left after dropping white space at both ends. Everything dropped
    * is white space, and the result neither starts nor ends with white space. */
  function Trim(s: string): (r: string)
    ensures r != [] ==> !IsTrimmable(r[0]) && !IsTrimmable(r[|r| - 1])
    ensures LeadingSpace(s) + |r| <= |s| && r == s[LeadingSpace(s)..LeadingSpace(s) + |r|]
    ensures forall i :: 0 <= i < LeadingSpace(s) ==> IsTrimmable(s[i])
    ensures forall i :: LeadingSpace(s) + |r| <= i < |s| ==> IsTrimmable(s[i])
  {
    var k := SkipSpace(s, 0);
    var e := SkipSpaceBack(s, |s|, k);
    s[k..e]
  }

  /** `trim` returns the empty string exactly when every character of `s` is white space. */
  lemma TrimEmptyIffAllSpace(s: string)
    ensures Trim(s) == [] <==> forall i :: 0 <= i < |s| ==> IsTrimmable(s[i])
  {
    if Trim(s) != [] {
      // the first character kept is not white space
      assert s[LeadingSpace(s)] == Trim(s)[0];
    }
  }
}
