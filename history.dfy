/**
 * The command history of the shell (user/crash.c): `char *history[100]`
 * and `history_count`.  Command n (counting from 1) is stored in slot
 * (n - 1) % 100, over the one stored there before; the ghost log holds
 * every command recorded, in order.  A stored `char *` is its C string's
 * contents, NULL is None.
 */
module ShellHistory {
  import opened Wrappers

  /** `MAX_HISTORY`. */
  const MAX_HISTORY := 100

  /** What slot j holds after the commands of log were recorded: the last of them numbered j mod 100. */
  function SlotOf(log: seq<seq<char>>, j: int): Option<seq<char>>
    decreases |log|
  {
    if log == [] then None
    else if (|log| - 1) % MAX_HISTORY == j then Some(log[|log| - 1])
    else SlotOf(log[..|log| - 1], j)
  }

  /** The slots hold what recording the commands of log leaves in them. */
  ghost predicate SlotsAre(s: seq<Option<seq<char>>>, log: seq<seq<char>>)
  {
    |s| == MAX_HISTORY && forall j :: 0 <= j < MAX_HISTORY ==> s[j] == SlotOf(log, j)
  }

  /** A slot that holds a command starting with the prefix. */
  predicate Hit(o: Option<seq<char>>, prefix: seq<char>)
  {
    o.Some? && prefix <= o.value
  }

  /** The scan of `get_history_by_prefix` finds no match at number i: its slot holds none. */
  predicate Missed(s: seq<Option<seq<char>>>, i: int, prefix: seq<char>)
    requires |s| == MAX_HISTORY
  {
    !Hit(s[(i - 1) % MAX_HISTORY], prefix)
  }

  /** The most recent of the commands log[lo..hi] that starts with the prefix. */
  function LatestBelow(log: seq<seq<char>>, lo: int, hi: int, prefix: seq<char>): Option<seq<char>>
    requires 0 <= lo && hi <= |log|
    decreases hi - lo
  {
    if hi <= lo then None
    else if prefix <= log[hi - 1] then Some(log[hi - 1])
    else LatestBelow(log, lo, hi - 1, prefix)
  }

  /** The start of the window of the last 100 commands. */
  function WindowStart(n: nat): (lo: nat)
    ensures lo <= n && n - lo <= MAX_HISTORY
  {
    if n > MAX_HISTORY then n - MAX_HISTORY else 0
  }

  /** The most recent of the last 100 commands that starts with the prefix. */
  function Latest(log: seq<seq<char>>, prefix: seq<char>): Option<seq<char>>
  {
    LatestBelow(log, WindowStart(|log|), |log|, prefix)
  }

  class History {
    /** `history`: 100 slots, each NULL or a command. */
    const slots: array<Option<seq<char>>>
    /** `history_count`: the number of the last command recorded. */
    var count: int
    /** The commands recorded, oldest first. */
    ghost var log: seq<seq<char>>

    ghost predicate Valid()
      reads this, slots
    {
      slots.Length == MAX_HISTORY && count == |log| && SlotsAre(slots[..], log)
    }

    /** The empty history the shell starts with. */
    constructor ()
      ensures Valid() && log == [] && fresh(slots)
    {
      slots := new Option<seq<char>>[MAX_HISTORY](_ => None);
      count := 0;
      log := [];
    }

    /** `add_to_history(cmd, cmd_num)`: slot (cmd_num - 1) % 100 gets a copy of cmd. */
    method AddToHistory(cmd: seq<char>, cmdNum: int)
      requires slots.Length == MAX_HISTORY && cmdNum >= 1
      modifies slots
      ensures slots[..] == old(slots[..])[(cmdNum - 1) % MAX_HISTORY := Some(cmd)]
    {
      var index := (cmdNum - 1) % MAX_HISTORY;
      slots[index] := Some(cmd);
    }

    /**
     * What the shell's main does with a command: `add_to_history(buf,
     * cmd_num)` then `history_count = cmd_num`, where cmd_num is always
     * one more than `history_count`.
     */
    method Record(cmd: seq<char>)
      requires Valid()
      modifies this, slots
      ensures Valid() && log == old(log) + [cmd]
    {
      AddToHistory(cmd, count + 1);
      count := count + 1;
      log := log + [cmd];
      assert log[..|log| - 1] == old(log);
    }

    /** `get_history_by_num(num)`: NULL out of 1..history_count or for an empty slot, else what slot (num - 1) % 100 holds. */
    function ByNum(num: int): Option<seq<char>>
      reads this, slots
      requires slots.Length == MAX_HISTORY
    {
      if num <= 0 || num > count then None else slots[(num - 1) % MAX_HISTORY]
    }

    /** `get_history_by_num` that also answers NULL for a command no longer kept. */
    function ByNumWindowed(num: int): Option<seq<char>>
      reads this, slots
      requires slots.Length == MAX_HISTORY
    {
      if num <= 0 || num > count || num <= count - MAX_HISTORY then None else slots[(num - 1) % MAX_HISTORY]
    }

    /** `get_last_history()`: NULL for an empty history, else `get_history_by_num(history_count)`. */
    function Last(): Option<seq<char>>
      reads this, slots
      requires slots.Length == MAX_HISTORY
    {
      if count == 0 then None else ByNum(count)
    }

    /** One of the last 100 commands is found again by its number. */
    lemma ByNumRecent(num: int)
      requires Valid() && 1 <= num <= |log| && |log| - MAX_HISTORY < num
      ensures ByNum(num) == Some(log[num - 1])
    {
      SlotOfWindow(log, num - 1);
    }

    /**
     * An older command number answers with a newer command: the one of
     * the last 100 that shares its slot.
     */
    lemma ByNumAliases(num: int)
      requires Valid() && 1 <= num <= |log| - MAX_HISTORY
      ensures var k := |log| - MAX_HISTORY + (num - 1 - (|log| - MAX_HISTORY)) % MAX_HISTORY;
        num - 1 < k < |log| && ByNum(num) == Some(log[k]) && k % MAX_HISTORY == (num - 1) % MAX_HISTORY
    {
      var k := |log| - MAX_HISTORY + (num - 1 - (|log| - MAX_HISTORY)) % MAX_HISTORY;
      WindowSlot(|log| - MAX_HISTORY, num - 1);
      SlotOfWindow(log, k);
    }

    /** With the window check, a number finds its own command, and nothing once it is no longer kept. */
    lemma ByNumWindowedIs(num: int)
      requires Valid()
      ensures ByNumWindowed(num) == if 1 <= num <= |log| && |log| - MAX_HISTORY < num then Some(log[num - 1]) else None
    {
      if 1 <= num <= |log| && |log| - MAX_HISTORY < num {
        SlotOfWindow(log, num - 1);
      }
    }

    /** The last command is the one recorded last. */
    lemma LastIs()
      requires Valid()
      ensures Last() == if log == [] then None else Some(log[|log| - 1])
    {
      if log != [] {
        ByNumRecent(count);
      }
    }

    /**
     * `get_history_by_prefix(prefix)`: from `history_count` down to 1, the
     * first stored command that starts with the prefix, or NULL.  The
     * prefix is a C string's contents.
     */
    method ByPrefix(prefix: seq<char>) returns (r: Option<seq<char>>)
      requires Valid() && '\0' !in prefix
      ensures r == Latest(log, prefix)
    {
      ghost var s := slots[..];
      var i := count;
      while i > 0
        invariant 0 <= i <= count
        invariant |s| == MAX_HISTORY && forall i' :: i < i' <= count ==> Missed(s, i', prefix)
      {
        var index := (i - 1) % MAX_HISTORY;
        if slots[index].Some? {
          var matched := StartsWith(slots[index].value, prefix);
          if matched {
            FoundIsLatest(s, log, prefix, i);
            return slots[index];
          }
        }
        i := i - 1;
      }
      NoneIsLatest(s, log, prefix);
      return None;
    }
  }

  /** The inner loop of `get_history_by_prefix`: compare up to the prefix's NUL, reading the command's own NUL past its end. */
  method StartsWith(cmd: seq<char>, prefix: seq<char>) returns (matched: bool)
    requires '\0' !in prefix
    ensures matched <==> prefix <= cmd
  {
    matched := true;
    var j := 0;
    while j < |prefix|
      invariant 0 <= j <= |prefix| && j <= |cmd| && cmd[..j] == prefix[..j]
    {
      var c := if j < |cmd| then cmd[j] else '\0';
      if c != prefix[j] {
        matched := false;
        assert j == |cmd| || cmd[j] != prefix[j];
        break;
      }
      j := j + 1;
    }
  }

  // ---------------------------------------------------------------------
  // The slots and the log

  /** Each of the last 100 commands is still in its slot. */
  lemma {:induction false} SlotOfWindow(log: seq<seq<char>>, k: int)
    requires 0 <= k < |log| && |log| - MAX_HISTORY <= k
    ensures SlotOf(log, k % MAX_HISTORY) == Some(log[k])
    decreases |log|
  {
    if k < |log| - 1 {
      SlotOfWindow(log[..|log| - 1], k);
    }
  }

  /** The number x below lo shares its slot with exactly one of lo..lo + 99, the one computed here. */
  lemma WindowSlot(lo: int, x: int)
    requires x < lo
    ensures var k := lo + (x - lo) % MAX_HISTORY;
      lo <= k < lo + MAX_HISTORY && k % MAX_HISTORY == x % MAX_HISTORY
  {
    var d := x - lo;
    var q := d / MAX_HISTORY;
    assert d == MAX_HISTORY * q + d % MAX_HISTORY;
    var k := lo + d % MAX_HISTORY;
    assert k == x + MAX_HISTORY * (-q);
    ModShift(x, -q);
  }

  /** Adding a multiple of 100 keeps the slot. */
  lemma ModShift(x: int, m: int)
    ensures (x + MAX_HISTORY * m) % MAX_HISTORY == x % MAX_HISTORY
  {
    var y := x + MAX_HISTORY * m;
    assert y == MAX_HISTORY * (x / MAX_HISTORY + m) + x % MAX_HISTORY;
  }

  /** LatestBelow finds the command at m when it matches and no later one does. */
  lemma {:induction false} LatestAt(log: seq<seq<char>>, lo: int, hi: int, m: int, prefix: seq<char>)
    requires 0 <= lo <= m < hi <= |log| && prefix <= log[m]
    requires forall k :: m < k < hi ==> !(prefix <= log[k])
    ensures LatestBelow(log, lo, hi, prefix) == Some(log[m])
    decreases hi
  {
    if m < hi - 1 {
      LatestAt(log, lo, hi - 1, m, prefix);
    }
  }

  /** LatestBelow finds nothing when nothing matches. */
  lemma {:induction false} LatestNone(log: seq<seq<char>>, lo: int, hi: int, prefix: seq<char>)
    requires 0 <= lo && hi <= |log| && forall k :: lo <= k < hi ==> !(prefix <= log[k])
    ensures LatestBelow(log, lo, hi, prefix).None?
    decreases hi - lo
  {
    if lo < hi {
      LatestNone(log, lo, hi - 1, prefix);
    }
  }

  /**
   * LatestBelow is the most recent match: None exactly when nothing
   * matches, else a matching command with no match after it.
   */
  lemma {:induction false} LatestBelowIs(log: seq<seq<char>>, lo: int, hi: int, prefix: seq<char>)
    requires 0 <= lo && hi <= |log|
    ensures var r := LatestBelow(log, lo, hi, prefix);
      && (r.None? <==> forall k :: lo <= k < hi ==> !(prefix <= log[k]))
      && (r.Some? ==> exists m :: lo <= m < hi && r.value == log[m] && prefix <= log[m]
                                  && forall k :: m < k < hi ==> !(prefix <= log[k]))
    decreases hi - lo
  {
    if lo < hi && !(prefix <= log[hi - 1]) {
      LatestBelowIs(log, lo, hi - 1, prefix);
    }
  }

  /**
   * The first hit of the downward scan is the most recent matching command
   * of the last 100: an older number revisits a slot already scanned.
   */
  lemma FoundIsLatest(s: seq<Option<seq<char>>>, log: seq<seq<char>>, prefix: seq<char>, i: int)
    requires SlotsAre(s, log) && 1 <= i <= |log| && Hit(s[(i - 1) % MAX_HISTORY], prefix)
    requires forall i' :: i < i' <= |log| ==> Missed(s, i', prefix)
    ensures s[(i - 1) % MAX_HISTORY] == Latest(log, prefix)
  {
    var lo := WindowStart(|log|);
    if i - 1 < lo {
      OlderMissed(s, log, prefix, i);
      assert false;
    }
    SlotOfWindow(log, i - 1);
    forall k | i - 1 < k < |log|
      ensures !(prefix <= log[k])
    {
      SlotOfWindow(log, k);
      assert Missed(s, k + 1, prefix);
    }
    LatestAt(log, lo, |log|, i - 1, prefix);
  }

  /** A number older than the last 100 revisits the slot of a newer number already scanned. */
  lemma OlderMissed(s: seq<Option<seq<char>>>, log: seq<seq<char>>, prefix: seq<char>, i: int)
    requires SlotsAre(s, log) && 1 <= i && i - 1 < WindowStart(|log|)
    requires forall i' :: i < i' <= |log| ==> Missed(s, i', prefix)
    ensures Missed(s, i, prefix)
  {
    var lo := WindowStart(|log|);
    var k := lo + (i - 1 - lo) % MAX_HISTORY;
    WindowSlot(lo, i - 1);
    SlotOfWindow(log, k);
    assert Missed(s, k + 1, prefix);
  }

  /** A scan that hits nothing means no command of the last 100 matches. */
  lemma NoneIsLatest(s: seq<Option<seq<char>>>, log: seq<seq<char>>, prefix: seq<char>)
    requires SlotsAre(s, log)
    requires forall i' :: 0 < i' <= |log| ==> Missed(s, i', prefix)
    ensures Latest(log, prefix).None?
  {
    var lo := WindowStart(|log|);
    forall k | lo <= k < |log|
      ensures !(prefix <= log[k])
    {
      SlotOfWindow(log, k);
      assert Missed(s, k + 1, prefix);
    }
    LatestNone(log, lo, |log|, prefix);
  }
}
