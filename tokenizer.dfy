/**
 * The tokenizer of user/crash.c: `strspn`, `strcspn` and `next_token`
 * working on a NUL-terminated line held in a character array, and the loop
 * of the shell's `main` that cuts a line into its tokens.  A `char *` into
 * the line is an index into the array; NULL is `None`.  The delimiter set
 * is the content of a C string, so it never holds a NUL; the terminator
 * the C loops stop at is the index just past its end.
 */
module Tokenizer {
  import opened Wrappers
  import opened CStrings

  /** The bytes of the shell's line buffer, `char buf[256]`. */
  const LINE_BUFFER := 256
  /** The slots of `char *tokens[128]` in the shell's `main`. */
  const TOKEN_SLOTS_AS_WRITTEN := 128
  /** Room for every token a line of the buffer can hold, and the NULL after them. */
  const TOKEN_SLOTS := 129

  /** A C string starts at index p of s: p is inside s and a NUL follows. */
  predicate Terminated(s: seq<char>, p: int)
  {
    0 <= p < |s| && '\0' in s[p..]
  }

  /** A non-empty run of characters with no NUL and no delimiter. */
  predicate IsWord(w: seq<char>, delim: seq<char>)
  {
    w != [] && forall k :: 0 <= k < |w| ==> w[k] != '\0' && w[k] !in delim
  }

  /** The first index from i on that holds no delimiter (a NUL is never one), or the end. */
  function Skip(s: seq<char>, i: int, delim: seq<char>): (j: int)
    requires 0 <= i <= |s|
    ensures i <= j <= |s| && forall k :: i <= k < j ==> s[k] in delim
    ensures j < |s| ==> s[j] !in delim
    decreases |s| - i
  {
    if i == |s| || s[i] !in delim then i else Skip(s, i + 1, delim)
  }

  /** The first index from i on that holds a delimiter or the NUL, or the end. */
  function WordEnd(s: seq<char>, i: int, delim: seq<char>): (j: int)
    requires 0 <= i <= |s|
    ensures i <= j <= |s| && forall k :: i <= k < j ==> s[k] != '\0' && s[k] !in delim
    ensures j < |s| ==> s[j] == '\0' || s[j] in delim
    decreases |s| - i
  {
    if i == |s| || s[i] == '\0' || s[i] in delim then i else WordEnd(s, i + 1, delim)
  }

  /**
   * The tokens of a string without NUL: its maximal runs of non-delimiter
   * characters, in order.
   */
  function Tokens(s: seq<char>, delim: seq<char>): seq<seq<char>>
    requires '\0' !in s
    decreases |s|
  {
    if s == [] then []
    else if s[0] in delim then Tokens(s[1..], delim)
    else
      var n := WordEnd(s, 0, delim);
      [s[..n]] + Tokens(s[n..], delim)
  }

  /** Words put one after the other with a separator between each two. */
  function Join(ws: seq<seq<char>>, sep: seq<char>): seq<char>
  {
    if ws == [] then []
    else if |ws| == 1 then ws[0]
    else ws[0] + sep + Join(ws[1..], sep)
  }

  // ---------------------------------------------------------------------
  // What the tokens of a string are

  /** Leading delimiters do not change the tokens. */
  lemma {:induction false} TokensSkip(d: seq<char>, s: seq<char>, delim: seq<char>)
    requires '\0' !in s && '\0' !in d && forall k :: 0 <= k < |d| ==> d[k] in delim
    ensures Tokens(d + s, delim) == Tokens(s, delim)
    decreases |d|
  {
    if d != [] {
      assert (d + s)[0] == d[0];
      assert (d + s)[1..] == d[1..] + s;
      assert '\0' !in d[1..] by { assert forall c :: c in d[1..] ==> c in d; }
      TokensSkip(d[1..], s, delim);
    } else {
      assert d + s == s;
    }
  }

  /** A word followed by the end of the string or a delimiter is the first token. */
  lemma TokensWord(w: seq<char>, s: seq<char>, delim: seq<char>)
    requires IsWord(w, delim) && '\0' !in s && (s == [] || s[0] in delim)
    ensures '\0' !in w + s && Tokens(w + s, delim) == [w] + Tokens(s, delim)
  {
    var x := w + s;
    assert x[0] == w[0];
    WordEndIs(x, 0, |w|, delim);
    assert x[..|w|] == w && x[|w|..] == s;
  }

  /** An index that stops a word and follows a run with no stop is the word's end. */
  lemma {:induction false} WordEndIs(s: seq<char>, i: int, j: int, delim: seq<char>)
    requires 0 <= i <= j <= |s|
    requires forall k :: i <= k < j ==> s[k] != '\0' && s[k] !in delim
    requires j < |s| ==> s[j] == '\0' || s[j] in delim
    ensures WordEnd(s, i, delim) == j
    decreases j - i
  {
    if i < j {
      WordEndIs(s, i + 1, j, delim);
    }
  }

  /** Every token is a word: non-empty, with no NUL and no delimiter. */
  lemma {:induction false} TokensAreWords(s: seq<char>, delim: seq<char>)
    requires '\0' !in s
    ensures forall i :: 0 <= i < |Tokens(s, delim)| ==> IsWord(Tokens(s, delim)[i], delim)
    decreases |s|
  {
    if s != [] {
      TokensAreWords(s[1..], delim);
      if s[0] !in delim {
        var n := WordEnd(s, 0, delim);
        TokensAreWords(s[n..], delim);
      }
    }
  }

  /**
   * Joining words with a non-empty run of delimiters and tokenizing the
   * result gives the words back.
   */
  lemma {:induction false} TokensJoin(ws: seq<seq<char>>, sep: seq<char>, delim: seq<char>)
    requires forall i :: 0 <= i < |ws| ==> IsWord(ws[i], delim)
    requires sep != [] && '\0' !in sep && forall k :: 0 <= k < |sep| ==> sep[k] in delim
    ensures '\0' !in Join(ws, sep) && Tokens(Join(ws, sep), delim) == ws
    decreases |ws|
  {
    if ws == [] {
    } else if |ws| == 1 {
      TokensWord(ws[0], [], delim);
      assert ws[0] + [] == ws[0];
    } else {
      var rest := Join(ws[1..], sep);
      TokensJoin(ws[1..], sep, delim);
      assert sep[0] in delim;
      assert (sep + rest)[0] == sep[0];
      TokensWord(ws[0], sep + rest, delim);
      TokensSkip(sep, rest, delim);
      assert ws[0] + sep + rest == ws[0] + (sep + rest);
      assert [ws[0]] + ws[1..] == ws;
    }
  }

  /** A string of n characters has at most (n + 1) / 2 tokens. */
  lemma {:induction false} TokensBound(s: seq<char>, delim: seq<char>)
    requires '\0' !in s
    ensures |Tokens(s, delim)| <= (|s| + 1) / 2
    decreases |s|
  {
    if s == [] {
    } else if s[0] in delim {
      TokensBound(s[1..], delim);
    } else {
      var n := WordEnd(s, 0, delim);
      if n < |s| {
        var t := s[n..];
        assert t[0] in delim && t[1..] == s[n + 1..];
        TokensSkip(t[..1], t[1..], delim);
        assert t[..1] + t[1..] == t;
        TokensBound(s[n + 1..], delim);
      }
    }
  }

  // ---------------------------------------------------------------------
  // The tokens of a C string inside the line buffer

  /** A C string that starts at p and has no NUL before q goes on at q. */
  lemma TerminatedAfter(s: seq<char>, p: int, q: int)
    requires Terminated(s, p) && p <= q <= |s| && forall k :: p <= k < q ==> s[k] != '\0'
    ensures Terminated(s, q)
  {
    var j :| 0 <= j < |s[p..]| && s[p..][j] == '\0';
    assert s[p + j] == '\0';
    assert s[q..][p + j - q] == '\0';
  }

  /**
   * The tokens of the C string at index p of the line, read in place:
   * the same runs `Tokens` takes, found by walking the line itself.
   */
  function TokensFrom(s: seq<char>, p: int, delim: seq<char>): seq<seq<char>>
    requires Terminated(s, p) && '\0' !in delim
    decreases |s| - p
  {
    if s[p] == '\0' then []
    else if s[p] in delim then
      TerminatedAfter(s, p, p + 1);
      TokensFrom(s, p + 1, delim)
    else
      var e := WordEnd(s, p, delim);
      TerminatedAfter(s, p, e);
      [s[p..e]] + TokensFrom(s, e, delim)
  }

  /** Walking the line in place yields the tokens of the C string. */
  lemma {:induction false} TokensFromIs(s: seq<char>, p: int, delim: seq<char>)
    requires Terminated(s, p) && '\0' !in delim
    ensures TokensFrom(s, p, delim) == Tokens(CString(s[p..]), delim)
    decreases |s| - p
  {
    var c := CString(s[p..]);
    assert s[p..][0] == s[p];
    if s[p] == '\0' {
    } else if s[p] in delim {
      TerminatedAfter(s, p, p + 1);
      assert s[p..][1..] == s[p + 1..];
      TokensFromIs(s, p + 1, delim);
    } else {
      var e := WordEnd(s, p, delim);
      TerminatedAfter(s, p, e);
      var n := e - p;
      assert s[p..][..n] == s[p..e];
      CStringPrefix(s[p..], n);
      assert n < |c| ==> c[n] == s[e];
      WordEndIs(c, 0, n, delim);
      CStringDrop(s[p..], n);
      assert s[p..][n..] == s[e..];
      TokensFromIs(s, e, delim);
    }
  }

  /** Leading delimiters, skipped in place, do not change the tokens. */
  lemma {:induction false} TokensFromSkip(s: seq<char>, p: int, delim: seq<char>)
    requires Terminated(s, p) && '\0' !in delim
    ensures Terminated(s, Skip(s, p, delim))
    ensures TokensFrom(s, p, delim) == TokensFrom(s, Skip(s, p, delim), delim)
    decreases |s| - p
  {
    TerminatedAfter(s, p, Skip(s, p, delim));
    if s[p] in delim {
      TerminatedAfter(s, p, p + 1);
      TokensFromSkip(s, p + 1, delim);
    }
  }

  /** The tokens read from q on depend on the line from q on only. */
  lemma TokensFromFrame(s: seq<char>, t: seq<char>, q: int, delim: seq<char>)
    requires Terminated(s, q) && '\0' !in delim && q <= |t| && t[q..] == s[q..]
    ensures Terminated(t, q) && TokensFrom(t, q, delim) == TokensFrom(s, q, delim)
  {
    TokensFromIs(s, q, delim);
    TokensFromIs(t, q, delim);
  }


  // ---------------------------------------------------------------------
  // The C functions, on the line buffer

  /**
   * `strspn(str, chars)` for the string at index start of str: the length
   * of its leading run of characters of chars.
   */
  method StrSpn(str: array<char>, start: nat, chars: seq<char>) returns (n: nat)
    requires Terminated(str[..], start) && '\0' !in chars
    ensures start + n == Skip(str[..], start, chars)
  {
    ghost var s := str[..];
    n := 0;
    while str[start + n] != '\0'
      invariant Terminated(s, start + n)
      invariant Skip(s, start, chars) == Skip(s, start + n, chars)
      decreases |s| - start - n
    {
      var found := OneOf(str[start + n], chars);
      if !found {
        return n;
      }
      TerminatedAfter(s, start + n, start + n + 1);
      n := n + 1;
    }
  }

  /**
   * `strcspn(str, chars)` for the string at index start of str: the length
   * of its leading run holding no character of chars, ended by one of them
   * or by the NUL.
   */
  method StrCSpn(str: array<char>, start: nat, chars: seq<char>) returns (n: nat)
    requires Terminated(str[..], start) && '\0' !in chars
    ensures start + n == WordEnd(str[..], start, chars)
  {
    ghost var s := str[..];
    n := 0;
    while true
      invariant Terminated(s, start + n)
      invariant WordEnd(s, start, chars) == WordEnd(s, start + n, chars)
      decreases |s| - start - n
    {
      var c := str[start + n];
      var found := OneOf(c, chars);
      if found || c == '\0' {
        return n;
      }
      TerminatedAfter(s, start + n, start + n + 1);
      n := n + 1;
    }
  }

  /**
   * The inner scan of both: walk the characters of chars until c or the
   * terminator turns up.
   */
  method OneOf(c: char, chars: seq<char>) returns (found: bool)
    ensures found <==> c in chars
  {
    var j := 0;
    while j < |chars| && chars[j] != c
      invariant j <= |chars| && forall k :: 0 <= k < j ==> chars[k] != c
    {
      j := j + 1;
    }
    found := j < |chars|;
  }

  /**
   * The result of `next_token`: the token (NULL if none), the new value of
   * `*str_ptr`, and the line after the call.
   */
  datatype Cut = Cut(token: Option<nat>, rest: Option<nat>, line: seq<char>)

  /**
   * What `next_token` does to the C string at index p of the line s: it
   * skips the leading delimiters to a and measures the run from a to e.
   * An empty run means only delimiters remained, and both the result and
   * `*str_ptr` become NULL.  Else the token at a is returned; a delimiter
   * at e is overwritten with a NUL and `*str_ptr` moves past it, while a
   * token that ended the string leaves `*str_ptr` NULL.
   */
  function NextTokenOf(s: seq<char>, p: int, delim: seq<char>): (r: Cut)
    requires Terminated(s, p) && '\0' !in delim
    ensures |r.line| == |s|
  {
    var a := Skip(s, p, delim);
    TerminatedAfter(s, p, a);
    var e := WordEnd(s, a, delim);
    TerminatedAfter(s, a, e);
    if e == a then Cut(None, None, s)
    else if s[e] == '\0' then Cut(Some(a), None, s)
    else Cut(Some(a), Some(e + 1), s[e := '\0'])
  }

  /** `next_token(&str_ptr, delim)`, with `*str_ptr` passed in and its new value returned. */
  method NextToken(buf: array<char>, strPtr: Option<nat>, delim: seq<char>) returns (tok: Option<nat>, next: Option<nat>)
    requires '\0' !in delim && (strPtr.Some? ==> Terminated(buf[..], strPtr.value))
    modifies buf
    ensures strPtr.None? ==> tok.None? && next.None? && buf[..] == old(buf[..])
    ensures strPtr.Some? ==> Cut(tok, next, buf[..]) == NextTokenOf(old(buf[..]), strPtr.value, delim)
  {
    if strPtr.None? {
      return None, None;
    }
    ghost var s := buf[..];
    var a, e := Measure(buf, strPtr.value, delim);
    if e == a {
      return None, None;
    }
    tok := Some(a);
    if buf[e] == '\0' {
      next := None;
    } else {
      buf[e] := '\0';
      assert buf[..] == s[e := '\0'];
      next := Some(e + 1);
    }
  }

  /** The two scans of `next_token`: the token of the string at p runs from a to e. */
  method Measure(buf: array<char>, p: nat, delim: seq<char>) returns (a: nat, e: nat)
    requires '\0' !in delim && Terminated(buf[..], p)
    ensures a == Skip(buf[..], p, delim) && e == WordEnd(buf[..], a, delim) && e < buf.Length
  {
    var tokStart := StrSpn(buf, p, delim);
    a := p + tokStart;
    TerminatedAfter(buf[..], p, a);
    var tokEnd := StrCSpn(buf, a, delim);
    e := a + tokEnd;
    TerminatedAfter(buf[..], a, e);
  }

  /** `next_token` finds no token exactly when only delimiters remain, and then changes nothing. */
  lemma NextTokenNone(s: seq<char>, p: int, delim: seq<char>)
    requires Terminated(s, p) && '\0' !in delim
    ensures var r := NextTokenOf(s, p, delim);
      (r.token.None? <==> TokensFrom(s, p, delim) == []) && (r.token.None? ==> r.rest.None? && r.line == s)
  {
    TokensFromSkip(s, p, delim);
    var a := Skip(s, p, delim);
    var e := WordEnd(s, a, delim);
    TerminatedAfter(s, a, e);
    if e > a {
      assert TokensFrom(s, a, delim) == [s[a..e]] + TokensFrom(s, e, delim);
    }
  }

  /** A non-empty run at a, after the leading delimiters, is the first token, and a word. */
  lemma FirstWord(s: seq<char>, a: int, delim: seq<char>)
    requires Terminated(s, a) && '\0' !in delim && WordEnd(s, a, delim) > a
    ensures var e := WordEnd(s, a, delim);
      && e < |s| && Terminated(s, e) && IsWord(s[a..e], delim)
      && TokensFrom(s, a, delim) == [s[a..e]] + TokensFrom(s, e, delim)
  {
    TerminatedAfter(s, a, WordEnd(s, a, delim));
  }

  /**
   * The token `next_token` returns starts after the leading delimiters,
   * reads back after the call as the first token, and is a word; if it
   * ended the string, nothing changed and it was the only token.
   */
  lemma NextTokenWord(s: seq<char>, p: int, delim: seq<char>)
    requires Terminated(s, p) && '\0' !in delim && NextTokenOf(s, p, delim).token.Some?
    ensures var r := NextTokenOf(s, p, delim); var a := r.token.value; var ts := TokensFrom(s, p, delim);
      && ts != [] && p <= a && a + |ts[0]| < |s| && (forall k :: p <= k < a ==> s[k] in delim)
      && CString(r.line[a..]) == ts[0] && IsWord(ts[0], delim)
      && (r.rest.None? ==> r.line == s && s[a + |ts[0]|] == '\0' && |ts| == 1)
  {
    TokensFromSkip(s, p, delim);
    var a := Skip(s, p, delim);
    FirstWord(s, a, delim);
    var e := WordEnd(s, a, delim);
    CStringUpTo(NextTokenOf(s, p, delim).line, a, e);
  }

  /**
   * When a delimiter ends the token, `next_token` writes a NUL over it and
   * `*str_ptr` moves past it; the tokens from there are the remaining ones.
   */
  lemma NextTokenRest(s: seq<char>, p: int, delim: seq<char>)
    requires Terminated(s, p) && '\0' !in delim && NextTokenOf(s, p, delim).rest.Some?
    ensures var r := NextTokenOf(s, p, delim); var q := r.rest.value; var ts := TokensFrom(s, p, delim);
      && r.token.Some? && ts != [] && q == r.token.value + |ts[0]| + 1 && q <= |s|
      && s[q - 1] in delim && r.line == s[q - 1 := '\0']
      && Terminated(r.line, q) && TokensFrom(r.line, q, delim) == ts[1..]
  {
    TokensFromSkip(s, p, delim);
    var a := Skip(s, p, delim);
    FirstWord(s, a, delim);
    var e := WordEnd(s, a, delim);
    TerminatedAfter(s, e, e + 1);
    TokensFromFrame(s, s[e := '\0'], e + 1, delim);
  }

  /** The C string at x is kept by a write past its NUL. */
  lemma CStringKept(s: seq<char>, x: int, e: int, c: char)
    requires 0 <= x <= |s| && x + |CString(s[x..])| < e < |s|
    ensures CString(s[e := c][x..]) == CString(s[x..])
  {
    assert s[e := c][x..] == s[x..][e - x := c];
    CStringWrite(s[x..], e - x, c);
  }

  // ---------------------------------------------------------------------
  // The tokenize loop of the shell's main

  /**
   * Token i of ts starts at starts[i] of the line, reads back there as
   * ts[i], and ends before limit, where later writes to the line happen.
   */
  ghost predicate Marks(line: seq<char>, starts: seq<nat>, ts: seq<seq<char>>, limit: int)
  {
    |starts| <= |ts| && limit <= |line|
    && forall i :: 0 <= i < |starts| ==> starts[i] + |ts[i]| < limit && CString(line[starts[i]..]) == ts[i]
  }

  /** A write at or past the limit keeps every token read so far. */
  lemma MarksWrite(line: seq<char>, starts: seq<nat>, ts: seq<seq<char>>, limit: int, e: int, limit': int)
    requires Marks(line, starts, ts, limit) && 0 <= limit <= e < |line| && limit <= limit' <= |line|
    ensures Marks(line[e := '\0'], starts, ts, limit')
  {
    forall i | 0 <= i < |starts|
      ensures CString(line[e := '\0'][starts[i]..]) == ts[i]
    {
      CStringKept(line, starts[i], e, '\0');
    }
  }

  /** A token that reads back at a and ends before the limit joins the marks. */
  lemma MarksExtend(line: seq<char>, starts: seq<nat>, ts: seq<seq<char>>, limit: int, a: nat)
    requires Marks(line, starts, ts, limit) && |starts| < |ts|
    requires a + |ts[|starts|]| < limit && CString(line[a..]) == ts[|starts|]
    ensures Marks(line, starts + [a], ts, limit)
  {
  }

  /** A call of `next_token` that finds the last token records it after the ones before. */
  lemma StepLast(s: seq<char>, p: int, delim: seq<char>, starts: seq<nat>, ts: seq<seq<char>>)
    requires Terminated(s, p) && '\0' !in delim && Marks(s, starts, ts, p)
    requires TokensFrom(s, p, delim) == ts[|starts|..]
    requires NextTokenOf(s, p, delim).token.Some? && NextTokenOf(s, p, delim).rest.None?
    ensures |starts| + 1 == |ts| && Marks(s, starts + [NextTokenOf(s, p, delim).token.value], ts, |s|)
  {
    NextTokenWord(s, p, delim);
    assert ts[|starts|] == TokensFrom(s, p, delim)[0];
    assert Marks(s, starts, ts, |s|);
    MarksExtend(s, starts, ts, |s|, NextTokenOf(s, p, delim).token.value);
  }

  /**
   * A call of `next_token` that finds a token followed by a delimiter
   * records it after the ones before and leaves the rest for later calls.
   */
  lemma StepMore(s: seq<char>, p: int, delim: seq<char>, starts: seq<nat>, ts: seq<seq<char>>)
    requires Terminated(s, p) && '\0' !in delim && Marks(s, starts, ts, p)
    requires TokensFrom(s, p, delim) == ts[|starts|..] && NextTokenOf(s, p, delim).rest.Some?
    ensures var r := NextTokenOf(s, p, delim); var q := r.rest.value;
      && r.token.Some? && |starts| < |ts|
      && Terminated(r.line, q) && TokensFrom(r.line, q, delim) == ts[|starts| + 1..]
      && Marks(r.line, starts + [r.token.value], ts, q)
  {
    var r := NextTokenOf(s, p, delim);
    NextTokenRest(s, p, delim);
    var q := r.rest.value;
    var n := |starts|;
    assert ts[n..][1..] == ts[n + 1..];
    MarksWrite(s, starts, ts, p, q - 1, q);
    NextTokenWord(s, p, delim);
    MarksExtend(r.line, starts, ts, q, r.token.value);
  }

  /** The first token found leaves the C string of the line as the leading delimiters and that token. */
  lemma FirstCut(s: seq<char>, delim: seq<char>)
    requires Terminated(s, 0) && '\0' !in delim && NextTokenOf(s, 0, delim).token.Some?
    ensures var r := NextTokenOf(s, 0, delim); var a := r.token.value;
      a == Skip(s, 0, delim) && TokensFrom(s, 0, delim) != []
      && CString(r.line) == s[..a] + TokensFrom(s, 0, delim)[0]
  {
    NextTokenWord(s, 0, delim);
    var r := NextTokenOf(s, 0, delim);
    var a := r.token.value;
    assert r.line[..a] == s[..a];
    CStringSplit(r.line, a);
  }

  /** A call of `next_token` past the end of the line's C string keeps that C string. */
  lemma StepKeepsLine(s: seq<char>, p: int, delim: seq<char>)
    requires Terminated(s, p) && '\0' !in delim && |CString(s)| < p
    ensures CString(NextTokenOf(s, p, delim).line) == CString(s)
  {
    var e := WordEnd(s, Skip(s, p, delim), delim);
    if e < |s| {
      CStringWrite(s, e, '\0');
    }
  }

  /**
   * The state of the tokenize loop: the tokens found so far are cut off in
   * place, and the remaining ones are read on from `next_tok`.
   */
  ghost predicate Reading(line: seq<char>, delim: seq<char>, ts: seq<seq<char>>, starts: seq<nat>, next: Option<nat>)
  {
    && '\0' !in delim
    && (next.Some? ==> Terminated(line, next.value) && Marks(line, starts, ts, next.value)
                       && TokensFrom(line, next.value, delim) == ts[|starts|..])
    && (next.None? ==> Marks(line, starts, ts, |line|) && |starts| == |ts|)
  }

  /**
   * What the line reads as a C string during the loop: the original line
   * before the first token, its leading delimiters and first token after.
   */
  ghost predicate Recorded(line: seq<char>, s0: seq<char>, delim: seq<char>, ts: seq<seq<char>>, starts: seq<nat>, next: Option<nat>)
    requires '\0' !in delim
  {
    && (starts == [] ==> next == Some(0) && line == s0)
    && (starts != [] ==> |ts| > 0 && starts[0] == Skip(s0, 0, delim) && CString(line) == s0[..starts[0]] + ts[0])
  }

  /** One call of `next_token` in the loop, when it finds a token, keeps the loop's reading state. */
  lemma ReadingFound(line: seq<char>, delim: seq<char>, ts: seq<seq<char>>, starts: seq<nat>, p: nat)
    requires Reading(line, delim, ts, starts, Some(p)) && NextTokenOf(line, p, delim).token.Some?
    ensures var r := NextTokenOf(line, p, delim);
      |starts| < |ts| && Reading(r.line, delim, ts, starts + [r.token.value], r.rest)
  {
    if NextTokenOf(line, p, delim).rest.None? {
      StepLast(line, p, delim, starts, ts);
    } else {
      StepMore(line, p, delim, starts, ts);
    }
  }

  /** One call of `next_token` in the loop, when it finds a token, keeps what the line reads as. */
  lemma RecordedFound(line: seq<char>, s0: seq<char>, delim: seq<char>, ts: seq<seq<char>>, starts: seq<nat>, p: nat)
    requires Reading(line, delim, ts, starts, Some(p)) && Recorded(line, s0, delim, ts, starts, Some(p))
    requires NextTokenOf(line, p, delim).token.Some?
    ensures var r := NextTokenOf(line, p, delim);
      Recorded(r.line, s0, delim, ts, starts + [r.token.value], r.rest)
  {
    if starts == [] {
      FirstCut(s0, delim);
      assert s0[0..] == s0;
    } else {
      StepKeepsLine(line, p, delim);
    }
  }

  /** When `next_token` finds none, every token has been found. */
  lemma ReadingDone(line: seq<char>, delim: seq<char>, ts: seq<seq<char>>, starts: seq<nat>, next: Option<nat>)
    requires Reading(line, delim, ts, starts, next)
    requires next.Some? ==> NextTokenOf(line, next.value, delim).token.None?
    ensures |starts| == |ts| && Marks(line, starts, ts, |line|)
  {
    if next.Some? {
      NextTokenNone(line, next.value, delim);
    }
  }

  /**
   * The loop `while ((curr_tok = next_token(&next_tok, " \t\n")) != 0)` of
   * the shell's main, with the delimiters as a parameter: it stores the
   * start of every token of the line's C string in order, then NULL.  The
   * array has TOKEN_SLOTS entries; see TokenSlotsOverflow for the 128 of
   * the source.  After the loop the line's C string, which the shell
   * records in its history, is its leading delimiters and its first token.
   */
  method Tokenize(buf: array<char>, delim: seq<char>) returns (tokens: array<Option<nat>>, count: nat)
    requires '\0' in buf[..] && buf.Length <= LINE_BUFFER && '\0' !in delim
    modifies buf
    ensures fresh(tokens) && tokens.Length == TOKEN_SLOTS
    ensures var s := old(buf[..]); var ts := Tokens(CString(s), delim);
      && count == |ts| && count < TOKEN_SLOTS && tokens[count] == None
      && (forall i :: 0 <= i < count ==>
            tokens[i].Some? && tokens[i].value < buf.Length && CString(buf[tokens[i].value..]) == ts[i])
      && (count > 0 ==> tokens[0] == Some(Skip(s, 0, delim)) && CString(buf[..]) == s[..Skip(s, 0, delim)] + ts[0])
  {
    ghost var s0 := buf[..];
    ghost var ts := Tokens(CString(s0), delim);
    assert s0[0..] == s0;
    TokensFromIs(s0, 0, delim);
    CStringEnds(s0);
    TokensBound(CString(s0), delim);
    ghost var starts;
    tokens, count, starts := CollectTokens(buf, delim, s0, ts);
  }

  /** One round of the tokenize loop: the state before the call of `next_token` and after it. */
  lemma Advance(before: seq<char>, after: seq<char>, s0: seq<char>, delim: seq<char>, ts: seq<seq<char>>,
                starts: seq<nat>, p: Option<nat>, tok: Option<nat>, next: Option<nat>)
    requires Reading(before, delim, ts, starts, p) && Recorded(before, s0, delim, ts, starts, p)
    requires p.None? ==> tok.None? && after == before
    requires p.Some? ==> Cut(tok, next, after) == NextTokenOf(before, p.value, delim)
    ensures tok.None? ==>
      && |starts| == |ts| && Marks(after, starts, ts, |after|)
      && (starts != [] ==> starts[0] == Skip(s0, 0, delim) && CString(after) == s0[..starts[0]] + ts[0])
    ensures tok.Some? ==>
      && |starts| < |ts| && Reading(after, delim, ts, starts + [tok.value], next)
      && Recorded(after, s0, delim, ts, starts + [tok.value], next)
  {
    if tok.None? {
      ReadingDone(before, delim, ts, starts, p);
    } else {
      ReadingFound(before, delim, ts, starts, p.value);
      RecordedFound(before, s0, delim, ts, starts, p.value);
    }
  }

  /** The token slots holding the given starts, then NULL. */
  function Slots(starts: seq<nat>): (r: seq<Option<nat>>)
    requires |starts| <= TOKEN_SLOTS
    ensures |r| == TOKEN_SLOTS
    ensures forall i :: 0 <= i < |starts| ==> r[i] == Some(starts[i])
    ensures forall i :: |starts| <= i < TOKEN_SLOTS ==> r[i] == None
  {
    seq(TOKEN_SLOTS, i requires 0 <= i < TOKEN_SLOTS => if i < |starts| then Some(starts[i]) else None)
  }

  /** Storing the next start fills the next slot. */
  lemma SlotsPush(starts: seq<nat>, a: nat)
    requires |starts| < TOKEN_SLOTS
    ensures Slots(starts)[|starts| := Some(a)] == Slots(starts + [a])
  {
  }

  /** The loop of Tokenize; starts are the token starts it stores. */
  method CollectTokens(buf: array<char>, delim: seq<char>, ghost s0: seq<char>, ghost ts: seq<seq<char>>)
    returns (tokens: array<Option<nat>>, count: nat, ghost starts: seq<nat>)
    requires '\0' !in delim && buf[..] == s0 && Terminated(s0, 0) && TokensFrom(s0, 0, delim) == ts && |ts| < TOKEN_SLOTS
    modifies buf
    ensures fresh(tokens) && tokens.Length == TOKEN_SLOTS
    ensures count == |starts| == |ts| && tokens[count] == None && Marks(buf[..], starts, ts, buf.Length)
    ensures tokens[..] == Slots(starts)
    ensures count > 0 ==> starts[0] == Skip(s0, 0, delim) && CString(buf[..]) == s0[..starts[0]] + ts[0]
  {
    tokens := new Option<nat>[TOKEN_SLOTS](_ => None);
    count := 0;
    starts := [];
    var next: Option<nat> := Some(0);
    var tok: Option<nat>;
    while true
      invariant count == |starts| <= |ts| < TOKEN_SLOTS
      invariant tokens[..] == Slots(starts)
      invariant Reading(buf[..], delim, ts, starts, next) && Recorded(buf[..], s0, delim, ts, starts, next)
      decreases if next.Some? then |ts| - count + 1 else 0
    {
      ghost var before := buf[..];
      ghost var p := next;
      tok, next := NextToken(buf, next, delim);
      Advance(before, buf[..], s0, delim, ts, starts, p, tok, next);
      if tok.None? {
        break;
      }
      ghost var slots := tokens[..];
      tokens[count] := tok;
      assert tokens[..] == slots[count := tok];
      SlotsPush(starts, tok.value);
      starts := starts + [tok.value];
      count := count + 1;
    }
  }

  // ---------------------------------------------------------------------
  // The size of `tokens` in the shell's main

  /** The delimiters the shell's main passes to `next_token`. */
  const SHELL_DELIMS := " \t\n"

  /** Words of one character joined by one-character separators take two characters a word, less one. */
  lemma {:induction false} JoinLength(ws: seq<seq<char>>, sep: seq<char>)
    requires ws != [] && |sep| == 1 && forall i :: 0 <= i < |ws| ==> |ws[i]| == 1
    ensures |Join(ws, sep)| == 2 * |ws| - 1
    decreases |ws|
  {
    if |ws| > 1 {
      JoinLength(ws[1..], sep);
    }
  }

  /**
   * `char *tokens[128]` is one slot short: the line of 128 words "a"
   * separated by single blanks fills the 256-byte buffer with its NUL,
   * yields 128 tokens, and `tokens[token_cnt] = 0` then writes slot 128.
   */
  lemma TokenSlotsOverflow()
    ensures var line := Join(seq(128, _ => "a"), " ");
      && |line| + 1 == LINE_BUFFER && '\0' !in line
      && |Tokens(line, SHELL_DELIMS)| == TOKEN_SLOTS_AS_WRITTEN
  {
    var ws: seq<seq<char>> := seq(128, _ => "a");
    JoinLength(ws, " ");
    TokensJoin(ws, " ", SHELL_DELIMS);
  }
}
