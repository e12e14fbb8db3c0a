/** NUL-terminated character strings as C reads them. */
module CStrings {
  /** The characters of a NUL-terminated string: those before its first NUL, all of them if it has none. */
  function CString(s: seq<char>): (r: seq<char>)
    ensures |r| <= |s| && r == s[..|r|] && '\0' !in r
    ensures |r| < |s| ==> s[|r|] == '\0'
  {
    if s == [] || s[0] == '\0' then [] else [s[0]] + CString(s[1..])
  }

  /** A prefix without a NUL is a prefix of the string it starts. */
  lemma CStringPrefix(s: seq<char>, i: int)
    requires 0 <= i <= |s| && '\0' !in s[..i]
    ensures i <= |CString(s)| && CString(s)[..i] == s[..i]
    ensures (i == |s| || s[i] == '\0') ==> CString(s) == s[..i]
  {
  }

  /** A string without NUL, a NUL, then anything: the string is what a C reader sees. */
  lemma {:induction false} CStringStops(x: seq<char>, y: seq<char>)
    requires '\0' !in x
    ensures CString(x + ['\0'] + y) == x
  {
    if x != [] {
      assert (x + ['\0'] + y)[1..] == x[1..] + ['\0'] + y;
      CStringStops(x[1..], y);
    }
  }

  /** A string holding a NUL has its C string end before its own end. */
  lemma CStringEnds(s: seq<char>)
    requires '\0' in s
    ensures |CString(s)| < |s|
  {
  }

  /** Dropping k characters of the C string drops them from what a C reader sees. */
  lemma CStringDrop(s: seq<char>, k: int)
    requires 0 <= k <= |CString(s)|
    ensures CString(s[k..]) == CString(s)[k..]
  {
    var n := |CString(s)|;
    assert s[k..][..n - k] == s[k..n];
    CStringPrefix(s[k..], n - k);
  }

  /** Writing past the terminating NUL does not change the C string. */
  lemma CStringWrite(s: seq<char>, j: int, c: char)
    requires |CString(s)| < j < |s|
    ensures CString(s[j := c]) == CString(s)
  {
    var n := |CString(s)|;
    assert s[j := c][..n] == s[..n];
    CStringPrefix(s[j := c], n);
  }

  /** With a NUL at e and none in [a, e), the C string at a is exactly s[a..e]. */
  lemma CStringUpTo(s: seq<char>, a: int, e: int)
    requires 0 <= a <= e < |s| && s[e] == '\0' && forall k :: a <= k < e ==> s[k] != '\0'
    ensures CString(s[a..]) == s[a..e]
  {
    assert s[a..][..e - a] == s[a..e];
    CStringPrefix(s[a..], e - a);
  }

  /** A NUL-free prefix of s starts the C string of s, and the rest of it is read on from there. */
  lemma CStringSplit(s: seq<char>, a: int)
    requires 0 <= a <= |s| && '\0' !in s[..a]
    ensures CString(s) == s[..a] + CString(s[a..])
  {
    CStringPrefix(s, a);
    CStringDrop(s, a);
  }
}
