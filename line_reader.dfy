/**
 * The buffered line reader of user/catlines2.c.  `fgets2` hands out one
 * line at a time from a 512-byte buffer that it refills with `read` only
 * once every byte in it has been handed out; the buffer and the two
 * indices into it are globals, so bytes left over stay for the next call.
 * `read` on the file is the input source: a sequence of replies, each the
 * bytes one call returns (none at the end of the file) or a failure.
 */
module LineReader {
  import opened Wrappers

  /** `BUFFER_SIZE`: the bytes of `read_buffer`, and what one `read` asks for. */
  const BUFFER_SIZE := 512
  /** `char buf[128]` in `main`, the `max` it passes to `fgets2`. */
  const LINE_MAX := 128

  /** What one `read(fd, read_buffer, BUFFER_SIZE)` returns: so many bytes, or -1. */
  datatype ReadReply = Bytes(data: seq<char>) | Failure

  /** A reply that is a return value of at most 0: end of file or failure. */
  predicate EndOfInput(r: ReadReply)
  {
    r.Failure? || r.data == []
  }

  /** A reply `read` can give for a 512-byte request. */
  predicate Fits(r: ReadReply)
  {
    r.Bytes? ==> |r.data| <= BUFFER_SIZE
  }

  /** The characters that end a line. */
  predicate IsEol(c: char)
  {
    c == '\n' || c == '\r'
  }

  /** The bytes the replies deliver, in order. */
  function Flatten(rs: seq<ReadReply>): seq<char>
  {
    if rs == [] then [] else (if rs[0].Bytes? then rs[0].data else []) + Flatten(rs[1..])
  }

  /** Everything still to be read: the bytes left in the buffer, then the replies to come. */
  function Stream(buffered: seq<char>, rs: seq<ReadReply>): seq<char>
  {
    buffered + Flatten(rs)
  }

  /** The next character `fgets2` gets, if any, and the buffered bytes and replies left after it. */
  datatype Fetch = Fetch(c: Option<char>, buffered: seq<char>, rest: seq<ReadReply>)

  /**
   * Getting the next character: from the buffer while it has bytes, else
   * from a new read; a read of at most 0 bytes gives none.  When the
   * replies are used up `read` goes on returning 0.
   */
  function NextOf(buffered: seq<char>, rs: seq<ReadReply>): Fetch
  {
    if buffered != [] then Fetch(Some(buffered[0]), buffered[1..], rs)
    else if rs == [] then Fetch(None, [], [])
    else if EndOfInput(rs[0]) then Fetch(None, [], rs[1..])
    else Fetch(Some(rs[0].data[0]), rs[0].data[1..], rs[1..])
  }

  /** A line, and the buffered bytes and replies left after it. */
  datatype Got = Got(line: seq<char>, buffered: seq<char>, rest: seq<ReadReply>)

  /** The characters `fgets2(buf, max, fd)` has room for before the NUL. */
  function Room(max: int): nat
  {
    if max > 1 then max - 1 else 0
  }

  /**
   * One call of `fgets2` with room for `room` characters: get characters
   * until there is no room, none comes, or a newline or carriage return
   * has been taken.
   */
  function LineOf(buffered: seq<char>, rs: seq<ReadReply>, room: nat): Got
    decreases room
  {
    if room == 0 then Got([], buffered, rs)
    else
      var f := NextOf(buffered, rs);
      if f.c.None? then Got([], f.buffered, f.rest)
      else if IsEol(f.c.value) then Got([f.c.value], f.buffered, f.rest)
      else Prepend([f.c.value], LineOf(f.buffered, f.rest, room - 1))
  }

  /** p, then what g read. */
  function Prepend(p: seq<char>, g: Got): Got
  {
    g.(line := p + g.line)
  }

  /** One unfolding of LineOf with room left. */
  lemma LineUnfold(buffered: seq<char>, rs: seq<ReadReply>, room: nat)
    requires room > 0
    ensures var f := NextOf(buffered, rs);
      LineOf(buffered, rs, room) ==
        if f.c.None? then Got([], f.buffered, f.rest)
        else if IsEol(f.c.value) then Got([f.c.value], f.buffered, f.rest)
        else Prepend([f.c.value], LineOf(f.buffered, f.rest, room - 1))
  {
  }

  /** The fetch that gave (got, c) and left `buffered` and `rs`. */
  function Fetched(got: bool, c: char, buffered: seq<char>, rs: seq<ReadReply>): Fetch
  {
    Fetch(if got then Some(c) else None, buffered, rs)
  }

  /**
   * One round of `fgets2`'s loop once the first i characters of the line
   * g0 have been taken, and the fetch gave (got, c) and left b1 and rs1:
   * the line ends here, or its next character is c and the rest of it
   * comes after.
   */
  lemma LineStep(g0: Got, i: nat, b: seq<char>, rs: seq<ReadReply>, room: nat,
                 got: bool, c: char, b1: seq<char>, rs1: seq<ReadReply>)
    requires room > 0 && i <= |g0.line| && LineOf(b, rs, room) == g0.(line := g0.line[i..])
    requires NextOf(b, rs) == Fetched(got, c, b1, rs1)
    ensures !got ==> g0 == Got(g0.line[..i], b1, rs1)
    ensures got ==> i < |g0.line| && g0.line[i] == c
    ensures got && IsEol(c) ==> g0 == Got(g0.line[..i + 1], b1, rs1)
    ensures got && !IsEol(c) ==> LineOf(b1, rs1, room - 1) == g0.(line := g0.line[i + 1..])
  {
    LineUnfold(b, rs, room);
    if got {
      assert g0.line[i..][1..] == g0.line[i + 1..];
    }
  }

  /**
   * The lines `main` prints, until `fgets2(buf, 128, fd)` returns 0.
   */
  function LinesOf(buffered: seq<char>, rs: seq<ReadReply>): seq<seq<char>>
    decreases |Stream(buffered, rs)|
  {
    var g := LineOf(buffered, rs, Room(LINE_MAX));
    if g.line == [] then []
    else
      LineStream(buffered, rs, Room(LINE_MAX));
      [g.line] + LinesOf(g.buffered, g.rest)
  }

  /** One unfolding of LinesOf. */
  lemma LinesUnfold(buffered: seq<char>, rs: seq<ReadReply>)
    ensures var g := LineOf(buffered, rs, Room(LINE_MAX));
      LinesOf(buffered, rs) == if g.line == [] then [] else [g.line] + LinesOf(g.buffered, g.rest)
  {
  }

  /** The lines one after the other. */
  function Concat(ls: seq<seq<char>>): seq<char>
  {
    if ls == [] then [] else ls[0] + Concat(ls[1..])
  }

  /**
   * The globals `read_buffer`, `buffer_pos` and `buffer_len`, with the
   * replies the file still has for `read`.
   */
  class Reader {
    /** `read_buffer`. */
    const readBuffer: array<char>
    /** `buffer_pos`: the next byte to hand out. */
    var bufferPos: int
    /** `buffer_len`: what the last `read` returned. */
    var bufferLen: int
    /** The replies of the `read` calls to come. */
    var replies: seq<ReadReply>
    /** The bytes read but not yet handed out: `read_buffer[buffer_pos..buffer_len)`. */
    ghost var buffered: seq<char>

    ghost predicate Valid()
      reads this, readBuffer
    {
      && readBuffer.Length == BUFFER_SIZE
      && 0 <= bufferPos && -1 <= bufferLen <= BUFFER_SIZE
      && (bufferPos <= bufferLen || bufferPos == 0)
      && |buffered| == (if bufferPos < bufferLen then bufferLen - bufferPos else 0)
      && (forall k :: 0 <= k < |buffered| ==> buffered[k] == readBuffer[bufferPos + k])
      && forall k :: 0 <= k < |replies| ==> Fits(replies[k])
    }

    /** The globals as the program starts, reading a file that gives the replies. */
    constructor (rs: seq<ReadReply>)
      requires forall k :: 0 <= k < |rs| ==> Fits(rs[k])
      ensures Valid() && buffered == [] && replies == rs
    {
      readBuffer := new char[BUFFER_SIZE](_ => '\0');
      bufferPos, bufferLen := 0, 0;
      replies := rs;
      buffered := [];
    }

    /**
     * `read(fd, read_buffer, BUFFER_SIZE)` once every buffered byte has
     * been handed out: the next reply; its bytes land at the start of the
     * buffer.
     */
    method Read() returns (r: int)
      requires Valid() && bufferPos >= bufferLen
      modifies this, readBuffer
      ensures Valid() && bufferPos == old(bufferPos) && bufferLen == old(bufferLen) && buffered == []
      ensures old(replies) == [] ==> r == 0 && replies == []
      ensures old(replies) != [] ==> replies == old(replies[1..]) && match old(replies[0])
        case Failure => r == -1
        case Bytes(data) => r == |data| && readBuffer[..r] == data
    {
      if replies == [] {
        return 0;
      }
      var reply := replies[0];
      replies := replies[1..];
      match reply
      case Failure => r := -1;
      case Bytes(data) =>
        for k := 0 to |data|
          modifies readBuffer
          invariant readBuffer[..k] == data[..k]
        {
          readBuffer[k] := data[k];
        }
        r := |data|;
    }

    /**
     * `fgets2(buf, max, fd)`: the next line into buf, NUL-terminated; the
     * result is its length.  The bytes of buf after the NUL are untouched.
     */
    method Fgets2(buf: array<char>, max: int) returns (n: int)
      requires Valid() && buf != readBuffer && 1 <= buf.Length && max <= buf.Length
      modifies this, readBuffer, buf
      ensures Valid()
      ensures var g := LineOf(old(buffered), old(replies), Room(max));
        && n == |g.line| && n < buf.Length && buf[..n] == g.line && buf[n] == '\0' && buf[n + 1..] == old(buf[n + 1..])
        && buffered == g.buffered && replies == g.rest
    {
      n := TakeLine(buf, max);
      buf[n] := '\0';
      assert buf[n + 1..] == old(buf[n + 1..]);
    }

    /** The loop of `fgets2`: the characters of the line go to buf[0..i). */
    method TakeLine(buf: array<char>, max: int) returns (i: int)
      requires Valid() && buf != readBuffer && 1 <= buf.Length && max <= buf.Length
      modifies this, readBuffer, buf
      ensures Valid() && 0 <= i < buf.Length && forall k :: i <= k < buf.Length ==> buf[k] == old(buf[k])
      ensures LineOf(old(buffered), old(replies), Room(max)) == Got(buf[..i], buffered, replies)
    {
      ghost var g0 := LineOf(buffered, replies, Room(max));
      ghost var b0 := buf[..];
      ghost var left: nat := Room(max);
      i := 0;
      while i + 1 < max
        invariant Valid() && 0 <= i < buf.Length && i <= |g0.line| && left + i == Room(max)
        invariant LineOf(buffered, replies, left) == g0.(line := g0.line[i..])
        invariant forall k :: 0 <= k < i ==> buf[k] == g0.line[k]
        invariant forall k :: i <= k < buf.Length ==> buf[k] == b0[k]
        decreases max - i
      {
        ghost var b, rs := buffered, replies;
        var got, c := TakeChar(buf, i);
        LineStep(g0, i, b, rs, left, got, c, buffered, replies);
        if !got {
          break;
        }
        i, left := i + 1, left - 1;
        if IsEol(c) {
          break;
        }
      }
      LineBound(buffered, replies, left);
      assert buf[..i] == g0.line;
    }

    /**
     * One round of `fgets2`'s loop up to `buf[i++] = c`: a refill with
     * `read` when every buffered byte has been handed out (got is false
     * when it returns at most 0), then the byte at `buffer_pos` goes to
     * buf[i].
     */
    method TakeChar(buf: array<char>, i: int) returns (got: bool, c: char)
      requires Valid() && buf != readBuffer && 0 <= i < buf.Length
      modifies this, readBuffer, buf
      ensures Valid()
      ensures NextOf(old(buffered), old(replies)) == Fetched(got, c, buffered, replies)
      ensures forall k :: 0 <= k < buf.Length && k != i ==> buf[k] == old(buf[k])
      ensures buf[i] == if got then c else old(buf[i])
    {
      got, c := false, '\0';
      if bufferPos >= bufferLen {
        bufferLen := Read();
        bufferPos := 0;
        buffered := if bufferLen > 0 then readBuffer[..bufferLen] else [];
        if bufferLen <= 0 {
          return;
        }
      }
      c := readBuffer[bufferPos];
      bufferPos := bufferPos + 1;
      buffered := buffered[1..];
      buf[i] := c;
      got := true;
    }

    /**
     * `main` once the file is open: reset the buffer, then take lines with
     * `fgets2(buf, 128, fd)` while it returns more than 0; the lines are
     * what it prints.
     */
    method CatLines() returns (lines: seq<seq<char>>)
      requires Valid()
      modifies this, readBuffer
      ensures Valid() && lines == LinesOf([], old(replies)) && buffered == []
    {
      bufferPos, bufferLen := 0, 0;
      buffered := [];
      var buf := new char[LINE_MAX];
      lines := [];
      ghost var rs0 := replies;
      while true
        invariant Valid() && fresh(buf) && buf.Length == LINE_MAX
        invariant lines + LinesOf(buffered, replies) == LinesOf([], rs0)
        decreases |Stream(buffered, replies)|
      {
        ghost var b, rs := buffered, replies;
        var n := Fgets2(buf, LINE_MAX);
        LineStream(b, rs, Room(LINE_MAX));
        if n <= 0 {
          LineEmptyRest(b, rs, Room(LINE_MAX));
          break;
        }
        lines := lines + [buf[..n]];
      }
    }
  }

  // ---------------------------------------------------------------------
  // What a call of fgets2 hands out

  /** Getting a character takes it off the front of the input, and none comes only at the end of the input. */
  lemma NextStream(buffered: seq<char>, rs: seq<ReadReply>)
    ensures var f := NextOf(buffered, rs);
      && (if f.c.Some? then [f.c.value] else []) + Stream(f.buffered, f.rest) == Stream(buffered, rs)
      && (f.c.None? <==> buffered == [] && (rs == [] || EndOfInput(rs[0])))
  {
    if buffered == [] && rs != [] {
      assert Flatten(rs) == (if rs[0].Bytes? then rs[0].data else []) + Flatten(rs[1..]);
    }
  }

  /** The line fits the room, and with no room nothing is read or taken. */
  lemma {:induction false} LineBound(buffered: seq<char>, rs: seq<ReadReply>, room: nat)
    ensures |LineOf(buffered, rs, room).line| <= room
    ensures room == 0 ==> LineOf(buffered, rs, room) == Got([], buffered, rs)
    decreases room
  {
    var f := NextOf(buffered, rs);
    if room > 0 && f.c.Some? && !IsEol(f.c.value) {
      LineBound(f.buffered, f.rest, room - 1);
    }
  }

  /** Characters come out in the order of the input, none lost and none twice. */
  lemma {:induction false} LineStream(buffered: seq<char>, rs: seq<ReadReply>, room: nat)
    ensures var g := LineOf(buffered, rs, room);
      g.line + Stream(g.buffered, g.rest) == Stream(buffered, rs)
    decreases room
  {
    if room > 0 {
      var f := NextOf(buffered, rs);
      NextStream(buffered, rs);
      if f.c.Some? && !IsEol(f.c.value) {
        LineStream(f.buffered, f.rest, room - 1);
        var g := LineOf(f.buffered, f.rest, room - 1);
        assert [f.c.value] + g.line + Stream(g.buffered, g.rest) == [f.c.value] + Stream(f.buffered, f.rest);
      }
    }
  }

  /** Only the last character of a line can end a line. */
  lemma {:induction false} LineEol(buffered: seq<char>, rs: seq<ReadReply>, room: nat)
    ensures var l := LineOf(buffered, rs, room).line;
      forall k {:trigger l[k]} :: 0 <= k < |l| - 1 ==> !IsEol(l[k])
    decreases room
  {
    if room > 0 {
      LineUnfold(buffered, rs, room);
    }
    var f := NextOf(buffered, rs);
    if room > 0 && f.c.Some? && !IsEol(f.c.value) {
      LineEol(f.buffered, f.rest, room - 1);
      var l := LineOf(f.buffered, f.rest, room - 1).line;
      assert forall k :: 0 < k < |l| ==> ([f.c.value] + l)[k] == l[k - 1];
    }
  }

  /** The replies left after a line are the last ones of those before it. */
  lemma {:induction false} LineRest(buffered: seq<char>, rs: seq<ReadReply>, room: nat)
    ensures var g := LineOf(buffered, rs, room);
      |g.rest| <= |rs| && g.rest == rs[|rs| - |g.rest|..]
    decreases room
  {
    var f := NextOf(buffered, rs);
    if room > 0 && f.c.Some? && !IsEol(f.c.value) {
      LineRest(f.buffered, f.rest, room - 1);
      var g := LineOf(f.buffered, f.rest, room - 1);
      if f.rest != rs {
        assert rs[1..][|rs| - 1 - |g.rest|..] == rs[|rs| - |g.rest|..];
      }
    }
  }

  /**
   * A line shorter than the room that does not end in a newline or a
   * carriage return ended at a read of at most 0 bytes: the buffer is
   * empty, and either the replies ran out or the reply just taken was
   * the end of the input.
   */
  lemma LineShort(buffered: seq<char>, rs: seq<ReadReply>, room: nat)
    requires var l := LineOf(buffered, rs, room).line;
      |l| < room && (l == [] || !IsEol(l[|l| - 1]))
    ensures var g := LineOf(buffered, rs, room);
      && g.buffered == []
      && (g.rest == [] || (|g.rest| < |rs| && EndOfInput(rs[|rs| - |g.rest| - 1])))
  {
    ShortEmptiesBuffer(buffered, rs, room);
    ShortEndsInput(buffered, rs, room);
  }

  /** The buffer half of LineShort. */
  lemma {:induction false} ShortEmptiesBuffer(buffered: seq<char>, rs: seq<ReadReply>, room: nat)
    requires var l := LineOf(buffered, rs, room).line;
      |l| < room && (l == [] || !IsEol(l[|l| - 1]))
    ensures LineOf(buffered, rs, room).buffered == []
    decreases room
  {
    var f := NextOf(buffered, rs);
    LineUnfold(buffered, rs, room);
    if f.c.Some? && !IsEol(f.c.value) {
      var g := LineOf(f.buffered, f.rest, room - 1);
      var l := [f.c.value] + g.line;
      assert LineOf(buffered, rs, room) == Got(l, g.buffered, g.rest);
      assert g.line != [] ==> l[|l| - 1] == g.line[|g.line| - 1];
      ShortEmptiesBuffer(f.buffered, f.rest, room - 1);
    }
  }

  /** The replies half of LineShort. */
  lemma {:induction false} ShortEndsInput(buffered: seq<char>, rs: seq<ReadReply>, room: nat)
    requires var l := LineOf(buffered, rs, room).line;
      |l| < room && (l == [] || !IsEol(l[|l| - 1]))
    ensures var rest := LineOf(buffered, rs, room).rest;
      rest == [] || (|rest| < |rs| && EndOfInput(rs[|rs| - |rest| - 1]))
    decreases room
  {
    var f := NextOf(buffered, rs);
    LineUnfold(buffered, rs, room);
    if f.c.None? {
      assert LineOf(buffered, rs, room).rest == f.rest;
      if rs != [] {
        assert f.rest == rs[1..] && EndOfInput(rs[0]);
        assert |rs| - |f.rest| - 1 == 0;
      }
    } else if !IsEol(f.c.value) {
      var g := LineOf(f.buffered, f.rest, room - 1);
      var l := [f.c.value] + g.line;
      assert LineOf(buffered, rs, room).rest == g.rest && LineOf(buffered, rs, room).line == l;
      assert g.line != [] ==> l[|l| - 1] == g.line[|g.line| - 1];
      ShortEndsInput(f.buffered, f.rest, room - 1);
      if buffered != [] {
        assert f.rest == rs;
      } else if g.rest != [] {
        RestShift(rs, f.rest, g.rest);
      }
    }
  }

  /** Counting back from the end of the replies, one taken off the front makes no difference. */
  lemma RestShift(rs: seq<ReadReply>, after: seq<ReadReply>, rest: seq<ReadReply>)
    requires rs != [] && after == rs[1..] && rest != [] && |rest| < |after|
    ensures after[|after| - |rest| - 1] == rs[|rs| - |rest| - 1]
  {
  }

  /** `fgets2` returns 0 exactly when it has no room or meets the end of the input with nothing buffered. */
  lemma LineEmpty(buffered: seq<char>, rs: seq<ReadReply>, room: nat)
    ensures LineOf(buffered, rs, room).line == [] <==>
      room == 0 || (buffered == [] && (rs == [] || EndOfInput(rs[0])))
  {
    NextStream(buffered, rs);
  }

  /** When `fgets2` returns 0 with room to spare, nothing is left in the buffer. */
  lemma LineEmptyRest(buffered: seq<char>, rs: seq<ReadReply>, room: nat)
    requires room > 0 && LineOf(buffered, rs, room).line == []
    ensures LineOf(buffered, rs, room).buffered == []
  {
    LineEmpty(buffered, rs, room);
  }

  /** `fgets2` reads nothing while the buffer holds the whole line. */
  lemma {:induction false} LineNoRead(buffered: seq<char>, rs: seq<ReadReply>, room: nat)
    requires room <= |buffered| || exists k :: 0 <= k < |buffered| && IsEol(buffered[k])
    ensures LineOf(buffered, rs, room).rest == rs
    decreases room
  {
    if room > 0 && !IsEol(buffered[0]) {
      if room > |buffered| {
        var k :| 0 <= k < |buffered| && IsEol(buffered[k]);
        assert IsEol(buffered[1..][k - 1]);
      }
      LineNoRead(buffered[1..], rs, room - 1);
    }
  }

  // ---------------------------------------------------------------------
  // What main prints

  /** Every printed line is non-empty, fits `buf`, and holds no line end before its last character. */
  lemma {:induction false} LinesShape(buffered: seq<char>, rs: seq<ReadReply>)
    ensures var ls := LinesOf(buffered, rs);
      forall i :: 0 <= i < |ls| ==>
        && ls[i] != [] && |ls[i]| < LINE_MAX
        && forall k {:trigger ls[i][k]} :: 0 <= k < |ls[i]| - 1 ==> !IsEol(ls[i][k])
    decreases |Stream(buffered, rs)|
  {
    var g := LineOf(buffered, rs, Room(LINE_MAX));
    LinesUnfold(buffered, rs);
    if g.line != [] {
      LineBound(buffered, rs, Room(LINE_MAX));
      LineEol(buffered, rs, Room(LINE_MAX));
      LineStream(buffered, rs, Room(LINE_MAX));
      LinesShape(g.buffered, g.rest);
      var ls, tail := LinesOf(buffered, rs), LinesOf(g.buffered, g.rest);
      assert ls == [g.line] + tail;
      assert forall i :: 0 < i < |ls| ==> ls[i] == tail[i - 1];
    }
  }

  /**
   * When no read fails and none returns 0 before the replies run out,
   * `main` prints the whole file: its lines put together are the input.
   */
  lemma {:induction false} LinesCover(buffered: seq<char>, rs: seq<ReadReply>)
    requires forall k :: 0 <= k < |rs| ==> !EndOfInput(rs[k])
    ensures Concat(LinesOf(buffered, rs)) == Stream(buffered, rs)
    decreases |Stream(buffered, rs)|
  {
    var g := LineOf(buffered, rs, Room(LINE_MAX));
    LineStream(buffered, rs, Room(LINE_MAX));
    LineRest(buffered, rs, Room(LINE_MAX));
    LinesUnfold(buffered, rs);
    if g.line == [] {
      LineEmpty(buffered, rs, Room(LINE_MAX));
    } else {
      assert forall k :: 0 <= k < |g.rest| ==> g.rest[k] == rs[|rs| - |g.rest| + k];
      LinesCover(g.buffered, g.rest);
    }
  }
}
