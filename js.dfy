/** Values and built-ins of the browser's JavaScript that the page script relies on. */
module Js {

  /** A DOM lookup or attribute read that may yield `null`. */
  datatype Option<T> = None | Some(value: T)

  /** `String(b)`: the text a boolean becomes when written into an attribute. */
  function BoolText(b: bool): string
  {
    if b then "true" else "false"
  }

  /** JavaScript truthiness of a `getAttribute` result: `null` and `""` are falsy. */
  predicate Truthy(attr: Option<string>)
  {
    attr.Some? && attr.value != ""
  }

  /** `pat` occurs in `s` starting at index `i`. */
  ghost predicate OccursAt(s: string, pat: string, i: int)
  {
    0 <= i && i + |pat| <= |s| && s[i..i + |pat|] == pat
  }

  /** `s.includes(pat)`: whether `pat` is a substring of `s` (case-sensitive). */
  function Includes(s: string, pat: string): (r: bool)
    ensures r <==> exists i :: OccursAt(s, pat, i)
    decreases |s|
  {
    if |pat| > |s| then false
    else if s[..|pat|] == pat then
      assert OccursAt(s, pat, 0);
      true
    else
      var r := Includes(s[1..], pat);
      ShiftOccurrence(s, pat);
      r
  }

  /** Occurrences in `s` past index 0 are exactly the occurrences in `s[1..]`, shifted by one. */
  lemma ShiftOccurrence(s: string, pat: string)
    requires |pat| <= |s| && s[..|pat|] != pat
    ensures (exists i :: OccursAt(s, pat, i)) <==> (exists i :: OccursAt(s[1..], pat, i))
  {
    if exists i :: OccursAt(s, pat, i) {
      var i :| OccursAt(s, pat, i);
      assert i != 0;
      assert s[1..][i - 1..i - 1 + |pat|] == s[i..i + |pat|];
      assert OccursAt(s[1..], pat, i - 1);
    }
    if exists i :: OccursAt(s[1..], pat, i) {
      var i :| OccursAt(s[1..], pat, i);
      assert s[1..][i..i + |pat|] == s[i + 1..i + 1 + |pat|];
      assert OccursAt(s, pat, i + 1);
    }
  }
}
