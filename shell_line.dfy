/**
 * The clean-up the shell's main does to a line it has read, before it is
 * tokenized (user/crash.c): an empty line or one starting with '#' is
 * skipped, the line is cut at its first '#', trailing blanks and tabs are
 * overwritten with NULs, and a line left empty is skipped.  The line is
 * the first len characters of the buffer.
 */
module ShellLine {
  import opened Wrappers
  import opened CStrings

  /** The characters trimmed from the end of a line. */
  predicate IsBlank(c: char)
  {
    c == ' ' || c == '\t'
  }

  /** The index of the first '#' of the line, or its length if it has none. */
  function HashAt(l: seq<char>): (h: nat)
    ensures h <= |l| && '#' !in l[..h] && (h < |l| ==> l[h] == '#')
  {
    if l == [] || l[0] == '#' then 0
    else
      assert l[..1 + HashAt(l[1..])] == [l[0]] + l[1..][..HashAt(l[1..])];
      1 + HashAt(l[1..])
  }

  /** The line without its trailing blanks: the shortest prefix followed by blanks only. */
  function TrimEnd(c: seq<char>): (t: seq<char>)
    ensures |t| <= |c| && t == c[..|t|]
    ensures t == [] || !IsBlank(t[|t| - 1])
    ensures forall k :: |t| <= k < |c| ==> IsBlank(c[k])
    decreases |c|
  {
    if c != [] && IsBlank(c[|c| - 1]) then TrimEnd(c[..|c| - 1]) else c
  }

  /**
   * What is left of the line for the tokenizer, or None when the shell
   * skips it: an empty line, one starting with a NUL or a '#', and one
   * that holds only blanks before its first '#'.
   */
  function Cleaned(l: seq<char>): Option<seq<char>>
  {
    if l == [] || l[0] == '\0' || l[0] == '#' then None
    else
      var t := TrimEnd(l[..HashAt(l)]);
      if t == [] || t[0] == '\0' then None else Some(t)
  }

  /** The buffer with NULs over [n, h). */
  function Blanked(s: seq<char>, n: nat, h: nat): (r: seq<char>)
    requires n <= h <= |s|
    ensures |r| == |s|
  {
    seq(|s|, k requires 0 <= k < |s| => if n <= k < h then '\0' else s[k])
  }

  /** One more NUL, just before the blanked run, extends it. */
  lemma BlankedStep(s: seq<char>, n: nat, h: nat)
    requires 0 < n <= h <= |s|
    ensures Blanked(s, n, h)[n - 1 := '\0'] == Blanked(s, n - 1, h)
  {
  }

  /** The buffer after the clean-up: a NUL over the first '#', NULs over the blanks before it. */
  function CleanBuffer(s: seq<char>, len: nat): (r: seq<char>)
    requires len <= |s|
    ensures |r| == |s|
  {
    var l := s[..len];
    if len == 0 || s[0] == '\0' || s[0] == '#' then s
    else
      var h := HashAt(l);
      var cut := if h < len then s[h := '\0'] else s;
      Blanked(cut, |TrimEnd(l[..h])|, h)
  }

  /**
   * The clean-up of a line of len characters in the buffer; keep says
   * whether the shell goes on with the line, n is its new length.
   */
  method CleanLine(buf: array<char>, len: nat) returns (keep: bool, n: nat)
    requires len <= buf.Length
    modifies buf
    ensures keep <==> Cleaned(old(buf[..len])).Some?
    ensures keep ==> n == |Cleaned(old(buf[..len])).value| && buf[..n] == Cleaned(old(buf[..len])).value
    ensures buf[..] == CleanBuffer(old(buf[..]), len)
  {
    keep, n := false, len;
    if len == 0 || buf[0] == '\0' {
      return;
    }
    if buf[0] == '#' {
      return;
    }
    ghost var s := buf[..];
    ghost var l := s[..len];
    var h := CutComment(buf, len);
    assert buf[..h] == l[..h];
    n := TrimBlanks(buf, h);
    assert buf[..n] == TrimEnd(l[..h]) by {
      assert buf[..n] == l[..h][..n];
    }
    if n == 0 || buf[0] == '\0' {
      return;
    }
    keep := true;
  }

  /** The loop that cuts the line at its first '#': h is where it was, or len. */
  method CutComment(buf: array<char>, len: nat) returns (h: nat)
    requires len <= buf.Length
    modifies buf
    ensures h == HashAt(old(buf[..len]))
    ensures buf[..] == if h < len then old(buf[..])[h := '\0'] else old(buf[..])
  {
    ghost var l := buf[..len];
    h := len;
    for i := 0 to len
      invariant h == len && buf[..] == old(buf[..]) && '#' !in l[..i]
    {
      if buf[i] == '#' {
        buf[i] := '\0';
        h := i;
        break;
      }
    }
    assert h < len ==> l[..h] == l[..HashAt(l)];
  }

  /** The loop that overwrites the trailing blanks of the first h characters; n is the length left. */
  method TrimBlanks(buf: array<char>, h: nat) returns (n: nat)
    requires h <= buf.Length
    modifies buf
    ensures n == |TrimEnd(old(buf[..h]))| && buf[..] == Blanked(old(buf[..]), n, h)
  {
    ghost var s := buf[..];
    ghost var t := TrimEnd(s[..h]);
    n := h;
    assert buf[..] == Blanked(s, h, h);
    while n > 0 && (buf[n - 1] == ' ' || buf[n - 1] == '\t')
      invariant |t| <= n <= h && TrimEnd(s[..n]) == t
      invariant buf[..] == Blanked(s, n, h)
      decreases n
    {
      assert s[..n][..n - 1] == s[..n - 1];
      BlankedStep(s, n, h);
      buf[n - 1] := '\0';
      n := n - 1;
    }
    assert n > 0 ==> !IsBlank(s[..n][n - 1]);
  }

  // ---------------------------------------------------------------------
  // What the clean-up leaves

  /**
   * A kept line is a non-empty prefix of the line, holds no '#', does not
   * end in a blank, and only blanks follow it before the first '#'.
   */
  lemma CleanedShape(l: seq<char>)
    requires Cleaned(l).Some?
    ensures var t := Cleaned(l).value;
      && t != [] && t == l[..|t|] && '#' !in t && !IsBlank(t[|t| - 1])
      && l[0] != '#' && l[0] != '\0'
      && forall k :: |t| <= k < HashAt(l) ==> IsBlank(l[k])
  {
    var h := HashAt(l);
    var t := TrimEnd(l[..h]);
    assert t == l[..|t|];
    assert forall k :: |t| <= k < h ==> l[..h][k] == l[k];
  }

  /** A line is skipped exactly when it is empty, starts with a NUL or a '#', or is blank up to its first '#'. */
  lemma CleanedNone(l: seq<char>)
    ensures Cleaned(l).None? <==>
      (l == [] || l[0] == '\0' || l[0] == '#' || forall k :: 0 <= k < HashAt(l) ==> IsBlank(l[k]))
  {
    if l != [] && l[0] != '\0' && l[0] != '#' {
      var h := HashAt(l);
      var t := TrimEnd(l[..h]);
      assert forall k :: 0 <= k < h ==> l[..h][k] == l[k];
      if t != [] {
        assert t[0] == l[0];
        assert !IsBlank(l[|t| - 1]) by {
          assert t[|t| - 1] == l[..h][|t| - 1];
        }
      }
    }
  }

  /** Cleaning a kept line again keeps it as it is. */
  lemma CleanedIdempotent(l: seq<char>)
    requires Cleaned(l).Some?
    ensures Cleaned(Cleaned(l).value) == Cleaned(l)
  {
    var t := Cleaned(l).value;
    CleanedShape(l);
    assert HashAt(t) == |t|;
    assert t[..|t|] == t;
  }

  /**
   * When the line was the C string of its buffer, the buffer after the
   * clean-up reads as the kept line.
   */
  lemma CleanBufferReads(s: seq<char>, len: nat)
    requires len < |s| && s[len] == '\0' && '\0' !in s[..len] && Cleaned(s[..len]).Some?
    ensures CString(CleanBuffer(s, len)) == Cleaned(s[..len]).value
  {
    var l := s[..len];
    var r := CleanBuffer(s, len);
    var t := Cleaned(l).value;
    CleanedShape(l);
    assert r[..|t|] == t by {
      assert forall k :: 0 <= k < |t| ==> r[k] == s[k] == l[k];
    }
    assert '\0' !in t by {
      assert forall k :: 0 <= k < |t| ==> t[k] == l[k];
    }
    CStringPrefix(r, |t|);
  }
}
