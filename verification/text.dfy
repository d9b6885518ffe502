/** The few string operations of Go's `strings` package the shell relies on. */
module Text {

  predicate HasPrefix(s: string, p: string)
  {
    |p| <= |s| && s[..|p|] == p
  }

  predicate HasSuffix(s: string, p: string)
  {
    |p| <= |s| && s[|s| - |p|..] == p
  }

  /** Unicode White_Space, as `unicode.IsSpace` decides it. */
  predicate IsSpace(c: char)
  {
    || c == ' '
    || ('\t' <= c <= '\r')
    || c == '\U{85}' || c == '\U{A0}' || c == '\U{1680}'
    || ('\U{2000}' <= c <= '\U{200A}')
    || c == '\U{2028}' || c == '\U{2029}' || c == '\U{202F}'
    || c == '\U{205F}' || c == '\U{3000}'
  }

  predicate AllSpace(s: string)
  {
    forall i :: 0 <= i < |s| ==> IsSpace(s[i])
  }

  /** The number of white-space characters that open s. */
  function LeadingSpace(s: string): (i: nat)
    ensures i <= |s| && AllSpace(s[..i])
    ensures i == |s| || !IsSpace(s[i])
    decreases |s|
  {
    if s != [] && IsSpace(s[0]) then
      var i := LeadingSpace(s[1..]);
      assert s[..i + 1] == [s[0]] + s[1..][..i];
      i + 1
    else 0
  }

  /** The end of s once the white space closing it is dropped, never below lo. */
  function TrailingEnd(s: string, lo: nat): (j: nat)
    requires lo <= |s|
    ensures lo <= j <= |s| && AllSpace(s[j..])
    ensures j == lo || !IsSpace(s[j - 1])
    decreases |s| - lo
  {
    if lo < |s| && IsSpace(s[|s| - 1]) then
      var j := TrailingEnd(s[..|s| - 1], lo);
      assert s[j..] == s[..|s| - 1][j..] + [s[|s| - 1]];
      j
    else |s|
  }

  /** strings.TrimSpace: the slice of s left after dropping the white space
      at both ends. */
  function TrimSpace(s: string): (r: string)
    ensures exists i, j :: 0 <= i <= j <= |s| && r == s[i..j] && AllSpace(s[..i]) && AllSpace(s[j..])
    ensures r == [] || (!IsSpace(r[0]) && !IsSpace(r[|r| - 1]))
  {
    var i := LeadingSpace(s);
    var j := TrailingEnd(s, i);
    assert j > i ==> s[i..j][0] == s[i];
    s[i..j]
  }

  /** A line trims to nothing exactly when every character of it is white space. */
  lemma TrimSpaceEmpty(s: string)
    ensures TrimSpace(s) == [] <==> AllSpace(s)
  {
    var r := TrimSpace(s);
    var i, j :| 0 <= i <= j <= |s| && r == s[i..j] && AllSpace(s[..i]) && AllSpace(s[j..]);
    if r == [] {
      forall k | 0 <= k < |s|
        ensures IsSpace(s[k])
      {
        if k < i {
          assert s[k] == s[..i][k];
        } else {
          assert s[k] == s[j..][k - j];
        }
      }
    }
  }

  function LowerChar(c: char): char
  {
    if 'A' <= c <= 'Z' then (c as int + 32) as char else c
  }

  /** strings.ToLower restricted to ASCII letters. */
  function Lower(s: string): (r: string)
    ensures |r| == |s|
    ensures forall i :: 0 <= i < |s| ==> r[i] == LowerChar(s[i])
  {
    if s == [] then [] else [LowerChar(s[0])] + Lower(s[1..])
  }

  /** Lower-casing a lower-case word changes nothing. */
  lemma {:induction false} LowerIdempotent(s: string)
    ensures Lower(Lower(s)) == Lower(s)
  {
    var l := Lower(s);
    assert forall i :: 0 <= i < |l| ==> LowerChar(l[i]) == l[i];
  }
}
