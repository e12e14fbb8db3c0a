/**
 * The layout user/umalloc.c keeps its heap in, stated on plain values.
 * Every block starts with a 32-byte header; each header field lives in its
 * own map keyed by the header's address, and the block list is the ordered
 * sequence of header addresses.  The lemmas are what a split, a merge, an
 * appended page and a released tail do to the layout.
 */
module HeapLayout {
  import opened ListOrder

  /** `sizeof(struct mem_block)`: name, size word and two block links. */
  const HEADER_SIZE: int := 32
  /** A free block's payload has to hold the two free-list links. */
  const FREE_NODE_SIZE: int := 16
  /** The smallest block `split` leaves behind: a header and a free-list node. */
  const MIN_BLOCK: int := HEADER_SIZE + FREE_NODE_SIZE
  const NAME_LEN: int := 8

  /** The eight NUL bytes a fresh header's name is cleared to. */
  function ZeroName(): (r: seq<char>)
    ensures |r| == NAME_LEN
    ensures forall i :: 0 <= i < |r| ==> r[i] == '\0'
  {
    ['\0', '\0', '\0', '\0', '\0', '\0', '\0', '\0']
  }

  /** The free bit of the header at `a`. */
  predicate Flag(isFree: map<int, bool>, a: int)
  {
    a in isFree && isFree[a]
  }

  /** Block i is a multiple of 16 and at least a minimum block. */
  ghost predicate SizedAt(s: seq<int>, size: map<int, nat>, i: int)
    requires 0 <= i < |s|
  {
    s[i] in size && size[s[i]] >= MIN_BLOCK && size[s[i]] % 16 == 0
  }

  ghost predicate Sized(s: seq<int>, size: map<int, nat>)
  {
    forall i :: 0 <= i < |s| ==> SizedAt(s, size, i)
  }

  /** Block i ends where block i + 1 starts. */
  ghost predicate AdjacentAt(s: seq<int>, size: map<int, nat>, i: int)
    requires 0 <= i < |s| - 1
  {
    s[i] in size && s[i] + size[s[i]] == s[i + 1]
  }

  /** Every block ends where the next one in list order starts. */
  ghost predicate Adjacent(s: seq<int>, size: map<int, nat>)
  {
    forall i :: 0 <= i < |s| - 1 ==> AdjacentAt(s, size, i)
  }

  /** The first block starts at `base` and the last ends at `brk`. */
  ghost predicate Spans(s: seq<int>, size: map<int, nat>, base: int, brk: int)
  {
    (s == [] ==> brk == base) &&
    (s != [] ==> s[0] == base && s[|s| - 1] in size && s[|s| - 1] + size[s[|s| - 1]] == brk)
  }

  /** The blocks cover [base, brk) without gap or overlap, in list order. */
  ghost predicate Tiled(s: seq<int>, size: map<int, nat>, base: int, brk: int)
  {
    Spans(s, size, base, brk) && Sized(s, size) && Adjacent(s, size)
  }

  /** Position i is the only one holding s[i]. */
  ghost predicate UniqueAt(s: seq<int>, i: int)
    requires 0 <= i < |s|
  {
    forall m :: 0 <= m < |s| && m != i ==> s[m] != s[i]
  }

  /** Every block has an eight-byte name. */
  ghost predicate Named(s: seq<int>, name: map<int, seq<char>>)
  {
    forall a :: a in s ==> a in name && |name[a]| == NAME_LEN
  }

  /** Every entry of the free list is a block. */
  ghost predicate Listed(frees: seq<int>, s: seq<int>)
  {
    forall a :: a in frees ==> a in s
  }

  /**
   * A block's free bit is set exactly when it is on the free list; the block
   * `e` is exempt, for the moments between flipping a bit and relinking.
   */
  ghost predicate FlagsMatch(s: seq<int>, frees: seq<int>, isFree: map<int, bool>, e: int)
  {
    forall a :: a in s ==> a in isFree && (a != e ==> (isFree[a] <==> a in frees))
  }

  /** Blocks i and i + 1 are not both free, unless one of them is `x`. */
  ghost predicate ApartAt(s: seq<int>, isFree: map<int, bool>, x: int, i: int)
    requires 0 <= i < |s| - 1
  {
    s[i] != x && s[i + 1] != x ==> !(Flag(isFree, s[i]) && Flag(isFree, s[i + 1]))
  }

  /** No two neighbouring blocks are both free, except next to block `x`. */
  ghost predicate CoalescedAround(s: seq<int>, isFree: map<int, bool>, x: int)
  {
    forall i :: 0 <= i < |s| - 1 ==> ApartAt(s, isFree, x, i)
  }

  /** Every free block's neighbours are in use. */
  ghost predicate Coalesced(s: seq<int>, isFree: map<int, bool>)
  {
    CoalescedAround(s, isFree, NULL)
  }

  /** No free block sits at `a`: it is NULL or its free bit is clear. */
  predicate NotFree(isFree: map<int, bool>, a: int)
  {
    a == NULL || !Flag(isFree, a)
  }

  /** The sizes met walking the order `s`, as `get_size` reads them. */
  ghost function SizesOf(s: seq<int>, size: map<int, nat>): seq<nat>
  {
    seq(|s|, i requires 0 <= i < |s| => if s[i] in size then size[s[i]] else 0)
  }

  /** What a program sees of a block in use: its size (header included) and its name. */
  datatype Alloc = Alloc(size: nat, name: seq<char>)

  /** The blocks in use, by header address. */
  ghost function AllocMap(s: seq<int>, isFree: map<int, bool>, size: map<int, nat>, name: map<int, seq<char>>): map<int, Alloc>
  {
    map a | a in s && a in isFree && !isFree[a] && a in size && a in name :: Alloc(size[a], name[a])
  }

  // ---------------------------------------------------------------------
  // Tiling

  lemma AlignedSum(a: int, b: int)
    requires a % 16 == 0 && b % 16 == 0
    ensures (a - b) % 16 == 0 && (a + b) % 16 == 0
  {
    assert a == 16 * (a / 16);
    assert b == 16 * (b / 16);
    assert a - b == 16 * (a / 16 - b / 16);
    assert a + b == 16 * (a / 16 + b / 16);
  }

  /** The address order of a tiled heap ascends and every block lies in [base, brk). */
  lemma {:induction false} TiledBounds(s: seq<int>, size: map<int, nat>, base: int, brk: int, i: int)
    requires Tiled(s, size, base, brk) && 0 <= i < |s|
    ensures s[i] in size && base <= s[i] && s[i] + size[s[i]] <= brk
    decreases |s| - i
  {
    TiledFrom(s, size, base, brk, i);
    assert SizedAt(s, size, i);
    if i + 1 < |s| {
      TiledBounds(s, size, base, brk, i + 1);
      assert AdjacentAt(s, size, i);
    }
  }

  lemma {:induction false} TiledFrom(s: seq<int>, size: map<int, nat>, base: int, brk: int, i: int)
    requires Tiled(s, size, base, brk) && 0 <= i < |s|
    ensures base <= s[i]
    decreases i
  {
    if i > 0 {
      TiledFrom(s, size, base, brk, i - 1);
      assert AdjacentAt(s, size, i - 1);
    }
  }

  /** Every block of a tiling starts a multiple of 16 bytes past `base`. */
  lemma {:induction false} TiledAligned(s: seq<int>, size: map<int, nat>, base: int, brk: int, i: int)
    requires Tiled(s, size, base, brk) && 0 <= i < |s|
    ensures (s[i] - base) % 16 == 0
    decreases i
  {
    if i > 0 {
      TiledAligned(s, size, base, brk, i - 1);
      assert AdjacentAt(s, size, i - 1) && SizedAt(s, size, i - 1);
      AlignedSum(s[i - 1] - base, size[s[i - 1]]);
    }
  }

  /**
   * Two different blocks of a tiled heap do not overlap: blocks handed out
   * by the allocator are disjoint byte ranges.
   */
  lemma {:induction false} TiledDisjoint(s: seq<int>, size: map<int, nat>, base: int, brk: int, i: int, j: int)
    requires Tiled(s, size, base, brk) && 0 <= i < j < |s|
    ensures s[i] in size && s[i] + size[s[i]] <= s[j]
    decreases j - i
  {
    if j > i + 1 {
      TiledDisjoint(s, size, base, brk, i, j - 1);
      assert SizedAt(s, size, j - 1);
    }
    assert AdjacentAt(s, size, j - 1);
  }

  lemma TiledAscending(s: seq<int>, size: map<int, nat>, base: int, brk: int)
    requires Tiled(s, size, base, brk)
    ensures Ascending(s)
  {
    forall i | 0 <= i < |s| - 1 ensures Rising(s, i) {
      assert AdjacentAt(s, size, i) && SizedAt(s, size, i);
    }
  }

  /** Splitting block i at offset n tiles the same range with one more block. */
  lemma TiledSplit(s: seq<int>, size: map<int, nat>, base: int, brk: int, i: int, n: int)
    requires Tiled(s, size, base, brk) && Ascending(s) && 0 <= i < |s|
    requires n >= MIN_BLOCK && n % 16 == 0 && s[i] in size && size[s[i]] >= n + MIN_BLOCK
    ensures s[i] + n !in s
    ensures Tiled(s[..i + 1] + [s[i] + n] + s[i + 1..], size[s[i] := n][s[i] + n := size[s[i]] - n], base, brk)
  {
    SplitFresh(s, size, base, brk, i, n);
    assert SizedAt(s, size, i);
    if i + 1 < |s| {
      assert AdjacentAt(s, size, i);
    }
    AlignedSum(size[s[i]], n);
    SplitSized(s, size, i, n);
    SplitAdjacent(s, size, i, n);
    SplitSpans(s, size, base, brk, i, n);
  }

  lemma SplitFresh(s: seq<int>, size: map<int, nat>, base: int, brk: int, i: int, n: int)
    requires Tiled(s, size, base, brk) && Ascending(s) && 0 <= i < |s|
    requires s[i] in size && 0 < n < size[s[i]]
    ensures s[i] + n !in s
    ensures UniqueAt(s, i)
  {
    AscendingDistinct(s);
    DistinctPairs(s);
    forall j | 0 <= j < |s| ensures s[j] != s[i] + n {
      if j < i {
        AscendingLess(s, j, i);
      } else if j > i {
        if j > i + 1 {
          AscendingLess(s, i + 1, j);
        }
        assert AdjacentAt(s, size, i);
      }
    }
  }

  lemma SplitSized(s: seq<int>, size: map<int, nat>, i: int, n: int)
    requires Sized(s, size) && 0 <= i < |s| && UniqueAt(s, i) && s[i] + n !in s
    requires n >= MIN_BLOCK && n % 16 == 0 && s[i] in size && size[s[i]] >= n + MIN_BLOCK && (size[s[i]] - n) % 16 == 0
    ensures Sized(s[..i + 1] + [s[i] + n] + s[i + 1..], size[s[i] := n][s[i] + n := size[s[i]] - n])
  {
    var t := s[..i + 1] + [s[i] + n] + s[i + 1..];
    var size' := size[s[i] := n][s[i] + n := size[s[i]] - n];
    InsertAtIndex(s, i + 1, s[i] + n);
    forall j | 0 <= j < |t| ensures SizedAt(t, size', j) {
      if j < i {
        assert t[j] == s[j] && SizedAt(s, size, j);
      } else if j > i + 1 {
        assert t[j] == s[j - 1] && SizedAt(s, size, j - 1);
      }
    }
  }

  lemma SplitAdjacent(s: seq<int>, size: map<int, nat>, i: int, n: int)
    requires Adjacent(s, size) && 0 <= i < |s| && UniqueAt(s, i) && s[i] + n !in s
    requires s[i] in size && 0 <= n <= size[s[i]]
    ensures Adjacent(s[..i + 1] + [s[i] + n] + s[i + 1..], size[s[i] := n][s[i] + n := size[s[i]] - n])
  {
    var t := s[..i + 1] + [s[i] + n] + s[i + 1..];
    var size' := size[s[i] := n][s[i] + n := size[s[i]] - n];
    forall j | 0 <= j < |t| - 1 ensures AdjacentAt(t, size', j) {
      SplitStep(s, size, i, n, j);
    }
  }

  lemma SplitSpans(s: seq<int>, size: map<int, nat>, base: int, brk: int, i: int, n: int)
    requires Spans(s, size, base, brk) && 0 <= i < |s| && UniqueAt(s, i) && s[i] + n !in s
    requires s[i] in size && 0 <= n <= size[s[i]] && (i + 1 < |s| ==> s[i] + size[s[i]] == s[i + 1])
    ensures Spans(s[..i + 1] + [s[i] + n] + s[i + 1..], size[s[i] := n][s[i] + n := size[s[i]] - n], base, brk)
  {
    var t := s[..i + 1] + [s[i] + n] + s[i + 1..];
    InsertAtIndex(s, i + 1, s[i] + n);
    assert t[0] == s[0];
    if i + 1 < |s| {
      var l := |s| - 1;
      assert t[l + 1] == s[l];
      assert s[l] != s[i];
    }
  }

  lemma SplitStep(s: seq<int>, size: map<int, nat>, i: int, n: int, j: int)
    requires 0 <= i < |s| && 0 <= j < |s|
    requires Adjacent(s, size)
    requires s[i] in size && 0 <= n <= size[s[i]] && s[i] + n !in s && UniqueAt(s, i)
    ensures AdjacentAt(s[..i + 1] + [s[i] + n] + s[i + 1..], size[s[i] := n][s[i] + n := size[s[i]] - n], j)
  {
    var t := s[..i + 1] + [s[i] + n] + s[i + 1..];
    InsertAtIndex(s, i + 1, s[i] + n);
    if j < i {
      assert t[j] == s[j] && t[j + 1] == s[j + 1] && AdjacentAt(s, size, j);
    } else if j == i {
      assert t[j] == s[i] && t[j + 1] == s[i] + n;
    } else if j == i + 1 {
      assert t[j + 1] == s[i + 1] && AdjacentAt(s, size, i);
    } else {
      assert t[j] == s[j - 1] && t[j + 1] == s[j] && AdjacentAt(s, size, j - 1);
    }
  }

  /** Merging block i with block i + 1 tiles the same range with one block fewer. */
  lemma TiledMerge(s: seq<int>, size: map<int, nat>, base: int, brk: int, i: int)
    requires Tiled(s, size, base, brk) && Distinct(s) && 0 <= i < |s| - 1
    ensures s[i] in size && s[i + 1] in size
    ensures Tiled(s[..i + 1] + s[i + 2..], size[s[i] := size[s[i]] + size[s[i + 1]]], base, brk)
  {
    DistinctPairs(s);
    assert UniqueAt(s, i);
    assert SizedAt(s, size, i) && SizedAt(s, size, i + 1);
    AlignedSum(size[s[i]], size[s[i + 1]]);
    MergeSized(s, size, i);
    MergeAdjacent(s, size, i);
    var t := s[..i + 1] + s[i + 2..];
    RemoveAtIndex(s, i + 1);
    assert SizedAt(s, size, |s| - 1);
    if i + 2 < |s| {
      assert t[|t| - 1] == s[|s| - 1] && s[|s| - 1] != s[i];
    } else {
      assert t[|t| - 1] == s[i] && AdjacentAt(s, size, i);
    }
  }

  lemma MergeSized(s: seq<int>, size: map<int, nat>, i: int)
    requires Sized(s, size) && 0 <= i < |s| - 1 && UniqueAt(s, i)
    requires s[i] in size && s[i + 1] in size && (size[s[i]] + size[s[i + 1]]) % 16 == 0
    ensures Sized(s[..i + 1] + s[i + 2..], size[s[i] := size[s[i]] + size[s[i + 1]]])
  {
    var t := s[..i + 1] + s[i + 2..];
    var size' := size[s[i] := size[s[i]] + size[s[i + 1]]];
    RemoveAtIndex(s, i + 1);
    assert SizedAt(s, size, i) && SizedAt(s, size, i + 1);
    forall j | 0 <= j < |t| ensures SizedAt(t, size', j) {
      if j < i {
        assert t[j] == s[j] && SizedAt(s, size, j);
      } else if j > i {
        assert t[j] == s[j + 1] && SizedAt(s, size, j + 1);
      }
    }
  }

  lemma MergeAdjacent(s: seq<int>, size: map<int, nat>, i: int)
    requires Adjacent(s, size) && 0 <= i < |s| - 1 && UniqueAt(s, i) && s[i] in size && s[i + 1] in size
    ensures Adjacent(s[..i + 1] + s[i + 2..], size[s[i] := size[s[i]] + size[s[i + 1]]])
  {
    var t := s[..i + 1] + s[i + 2..];
    var size' := size[s[i] := size[s[i]] + size[s[i + 1]]];
    forall j | 0 <= j < |t| - 1 ensures AdjacentAt(t, size', j) {
      MergeStep(s, size, i, j);
    }
  }

  lemma MergeStep(s: seq<int>, size: map<int, nat>, i: int, j: int)
    requires 0 <= i < |s| - 1 && 0 <= j < |s| - 2
    requires Adjacent(s, size) && UniqueAt(s, i) && s[i] in size && s[i + 1] in size
    ensures AdjacentAt(s[..i + 1] + s[i + 2..], size[s[i] := size[s[i]] + size[s[i + 1]]], j)
  {
    var t := s[..i + 1] + s[i + 2..];
    RemoveAtIndex(s, i + 1);
    if j < i {
      assert t[j] == s[j] && t[j + 1] == s[j + 1] && AdjacentAt(s, size, j);
    } else if j == i {
      assert t[j] == s[i] && t[j + 1] == s[i + 2] && AdjacentAt(s, size, i) && AdjacentAt(s, size, i + 1);
    } else {
      assert t[j] == s[j + 1] && t[j + 1] == s[j + 2] && AdjacentAt(s, size, j + 1);
    }
  }

  /** Dropping the last block leaves the heap tiled up to that block's start. */
  lemma TiledPop(s: seq<int>, size: map<int, nat>, base: int, brk: int)
    requires Tiled(s, size, base, brk) && s != []
    ensures Tiled(s[..|s| - 1], size, base, brk - size[s[|s| - 1]])
  {
    var t := s[..|s| - 1];
    if |s| >= 2 {
      assert AdjacentAt(s, size, |s| - 2);
    }
    forall j | 0 <= j < |t| ensures SizedAt(t, size, j) {
      assert SizedAt(s, size, j);
    }
    forall j | 0 <= j < |t| - 1 ensures AdjacentAt(t, size, j) {
      assert AdjacentAt(s, size, j);
    }
  }

  /** A new block placed at the break extends the tiling. */
  lemma TiledAppend(s: seq<int>, size: map<int, nat>, base: int, brk: int, n: int)
    requires Tiled(s, size, base, brk) && Ascending(s) && n >= MIN_BLOCK && n % 16 == 0
    ensures brk !in s
    ensures Tiled(s + [brk], size[brk := n], base, brk + n)
  {
    var t := s + [brk];
    var size' := size[brk := n];
    if s != [] {
      assert SizedAt(s, size, |s| - 1);
      forall j | 0 <= j < |s| ensures s[j] < brk {
        if j < |s| - 1 {
          AscendingLess(s, j, |s| - 1);
        }
      }
    }
    forall j | 0 <= j < |t| ensures SizedAt(t, size', j) {
      if j < |s| {
        assert SizedAt(s, size, j);
      }
    }
    forall j | 0 <= j < |t| - 1 ensures AdjacentAt(t, size', j) {
      if j < |s| - 1 {
        assert AdjacentAt(s, size, j);
      }
    }
  }

  // ---------------------------------------------------------------------
  // Coalescing

  /**
   * If block i is next to no free block, or is itself in use, the exemption
   * around it can be dropped.
   */
  lemma CoalescedClose(s: seq<int>, isFree: map<int, bool>, i: int)
    requires 0 <= i < |s| && CoalescedAround(s, isFree, s[i]) && NonNull(s) && Distinct(s)
    requires i > 0 ==> !(Flag(isFree, s[i - 1]) && Flag(isFree, s[i]))
    requires i + 1 < |s| ==> !(Flag(isFree, s[i]) && Flag(isFree, s[i + 1]))
    ensures Coalesced(s, isFree)
  {
    DistinctPairs(s);
    forall j | 0 <= j < |s| - 1 ensures ApartAt(s, isFree, NULL, j) {
      assert ApartAt(s, isFree, s[i], j);
      if s[j] == s[i] {
        assert j == i;
      } else if s[j + 1] == s[i] {
        assert j + 1 == i;
      }
    }
  }

  lemma CoalescedWiden(s: seq<int>, isFree: map<int, bool>, x: int)
    requires Coalesced(s, isFree) && NonNull(s)
    ensures CoalescedAround(s, isFree, x)
  {
    forall j | 0 <= j < |s| - 1 ensures ApartAt(s, isFree, x, j) {
      assert ApartAt(s, isFree, NULL, j);
    }
  }

  /** Every block of a tiling is sized and lies inside [base, brk). */
  lemma TiledIn(s: seq<int>, size: map<int, nat>, base: int, brk: int, x: int)
    requires Tiled(s, size, base, brk) && x in s
    ensures x in size && size[x] >= MIN_BLOCK && size[x] % 16 == 0 && base <= x && x + size[x] <= brk
  {
    var i :| 0 <= i < |s| && s[i] == x;
    TiledBounds(s, size, base, brk, i);
    assert SizedAt(s, size, i);
  }

  /** Every block of a tiling starts below the break. */
  lemma TiledPrecedes(s: seq<int>, size: map<int, nat>, base: int, brk: int)
    requires Tiled(s, size, base, brk)
    ensures Precedes(s, brk)
  {
    forall i | 0 <= i < |s| ensures Lower(s, i, brk) {
      TiledBounds(s, size, base, brk, i);
      assert SizedAt(s, size, i);
    }
  }

  // ---------------------------------------------------------------------
  // Names, free bits and list membership

  lemma NamedInsert(s: seq<int>, name: map<int, seq<char>>, k: int, x: int, nm: seq<char>)
    requires Named(s, name) && 0 <= k <= |s| && |nm| == NAME_LEN
    ensures Named(s[..k] + [x] + s[k..], name[x := nm])
  {
    InsertMembers(s, k, x);
  }

  lemma NamedWithout(s: seq<int>, name: map<int, seq<char>>, x: int)
    requires Named(s, name)
    ensures Named(Without(s, x), name)
  {
  }

  /** A block inserted into the block list is exempt until its free bit is settled. */
  lemma FlagsInsert(s: seq<int>, frees: seq<int>, isFree: map<int, bool>, k: int, x: int, v: bool)
    requires FlagsMatch(s, frees, isFree, NULL) && Listed(frees, s) && NonNull(s) && 0 <= k <= |s|
    ensures FlagsMatch(s[..k] + [x] + s[k..], frees, isFree[x := v], x)
    ensures Listed(frees, s[..k] + [x] + s[k..])
  {
    InsertMembers(s, k, x);
  }

  /** Writing the free bit of `x` leaves only `x` possibly out of step. */
  lemma FlagsExempt(s: seq<int>, frees: seq<int>, isFree: map<int, bool>, e: int, x: int, v: bool)
    requires FlagsMatch(s, frees, isFree, e) && (e == NULL || e == x) && NonNull(s)
    ensures FlagsMatch(s, frees, isFree[x := v], x)
  {
  }

  /** Once the free bit of `x` agrees with the free list, nothing is exempt. */
  lemma FlagsSettle(s: seq<int>, frees: seq<int>, isFree: map<int, bool>, x: int)
    requires FlagsMatch(s, frees, isFree, x) && x in isFree && (isFree[x] <==> x in frees)
    ensures FlagsMatch(s, frees, isFree, NULL)
  {
  }

  /** Appending a free block to the free list settles it. */
  lemma FlagsJoin(s: seq<int>, frees: seq<int>, isFree: map<int, bool>, x: int)
    requires FlagsMatch(s, frees, isFree, x) && Listed(frees, s) && x in s && Flag(isFree, x)
    ensures FlagsMatch(s, frees + [x], isFree, NULL) && Listed(frees + [x], s)
  {
  }

  /** Unlinking `x` from the free list alone leaves `x` exempt. */
  lemma FlagsDrop(s: seq<int>, frees: seq<int>, isFree: map<int, bool>, x: int)
    requires FlagsMatch(s, frees, isFree, NULL) && Listed(frees, s) && Distinct(frees) && NonNull(s)
    ensures FlagsMatch(s, Without(frees, x), isFree, x) && Listed(Without(frees, x), s)
    ensures x !in Without(frees, x)
  {
    WithoutMembers(frees, x);
  }

  /** Taking `x` out of both lists leaves the rest in step. */
  lemma FlagsRemove(s: seq<int>, frees: seq<int>, isFree: map<int, bool>, e: int, x: int)
    requires FlagsMatch(s, frees, isFree, e) && Listed(frees, s) && (e == NULL || e == x)
    requires Distinct(s) && Distinct(frees)
    ensures FlagsMatch(Without(s, x), Without(frees, x), isFree, NULL)
    ensures Listed(Without(frees, x), Without(s, x))
  {
    WithoutMembers(s, x);
    WithoutMembers(frees, x);
  }

  // ---------------------------------------------------------------------
  // Coalescing

  lemma CoalescedInsert(s: seq<int>, isFree: map<int, bool>, k: int, x: int, v: bool)
    requires Coalesced(s, isFree) && NonNull(s) && 0 <= k <= |s| && x !in s
    ensures CoalescedAround(s[..k] + [x] + s[k..], isFree[x := v], x)
  {
    var t := s[..k] + [x] + s[k..];
    var isFree' := isFree[x := v];
    InsertAtIndex(s, k, x);
    forall j | 0 <= j < |t| - 1 ensures ApartAt(t, isFree', x, j) {
      if j + 1 < k {
        assert t[j] == s[j] && t[j + 1] == s[j + 1] && ApartAt(s, isFree, NULL, j);
      } else if j > k {
        assert t[j] == s[j - 1] && t[j + 1] == s[j] && ApartAt(s, isFree, NULL, j - 1);
      }
    }
  }

  lemma CoalescedSet(s: seq<int>, isFree: map<int, bool>, x: int, v: bool)
    requires Coalesced(s, isFree) && NonNull(s)
    ensures CoalescedAround(s, isFree[x := v], x)
    ensures !v ==> Coalesced(s, isFree[x := v])
  {
    var isFree' := isFree[x := v];
    forall j | 0 <= j < |s| - 1 ensures ApartAt(s, isFree', x, j) && (!v ==> ApartAt(s, isFree', NULL, j)) {
      assert ApartAt(s, isFree, NULL, j);
    }
  }

  /** The exemption around a block in use can be dropped. */
  lemma CoalescedUsed(s: seq<int>, isFree: map<int, bool>, x: int)
    requires CoalescedAround(s, isFree, x) && !Flag(isFree, x)
    ensures Coalesced(s, isFree)
  {
    forall j | 0 <= j < |s| - 1 ensures ApartAt(s, isFree, NULL, j) {
      assert ApartAt(s, isFree, x, j);
    }
  }

  /**
   * Block i absorbing its free successor keeps the rest coalesced, and the
   * block after the absorbed one, whose neighbour was free, is in use.
   */
  lemma CoalescedMergeNext(s: seq<int>, isFree: map<int, bool>, i: int)
    requires 0 <= i < |s| - 1 && CoalescedAround(s, isFree, s[i]) && Distinct(s) && Flag(isFree, s[i + 1])
    ensures CoalescedAround(s[..i + 1] + s[i + 2..], isFree, s[i])
    ensures i + 2 < |s| ==> !Flag(isFree, s[i + 2])
  {
    DistinctPairs(s);
    var t := s[..i + 1] + s[i + 2..];
    RemoveAtIndex(s, i + 1);
    forall j | 0 <= j < |t| - 1 ensures ApartAt(t, isFree, s[i], j) {
      if j < i {
        assert t[j] == s[j] && t[j + 1] == s[j + 1] && ApartAt(s, isFree, s[i], j);
      } else if j > i {
        assert t[j] == s[j + 1] && t[j + 1] == s[j + 2] && ApartAt(s, isFree, s[i], j + 1);
      }
    }
    if i + 2 < |s| {
      assert ApartAt(s, isFree, s[i], i + 1);
    }
  }

  /** A free block i absorbed by its free predecessor leaves the list coalesced. */
  lemma CoalescedMergePrev(s: seq<int>, isFree: map<int, bool>, i: int)
    requires 0 < i < |s| && CoalescedAround(s, isFree, s[i]) && Distinct(s)
    requires i + 1 < |s| ==> !Flag(isFree, s[i + 1])
    ensures Coalesced(s[..i] + s[i + 1..], isFree)
  {
    DistinctPairs(s);
    var t := s[..i] + s[i + 1..];
    RemoveAtIndex(s, i);
    forall j | 0 <= j < |t| - 1 ensures ApartAt(t, isFree, NULL, j) {
      if j + 1 < i {
        assert t[j] == s[j] && t[j + 1] == s[j + 1] && ApartAt(s, isFree, s[i], j);
      } else if j + 1 == i {
        assert t[j + 1] == s[i + 1];
      } else {
        assert t[j] == s[j + 1] && t[j + 1] == s[j + 2] && ApartAt(s, isFree, s[i], j + 1);
      }
    }
  }

  lemma CoalescedPop(s: seq<int>, isFree: map<int, bool>)
    requires Coalesced(s, isFree) && s != []
    ensures Coalesced(s[..|s| - 1], isFree)
  {
    var t := s[..|s| - 1];
    forall j | 0 <= j < |t| - 1 ensures ApartAt(t, isFree, NULL, j) {
      assert t[j] == s[j] && t[j + 1] == s[j + 1] && ApartAt(s, isFree, NULL, j);
    }
  }

  // ---------------------------------------------------------------------
  // The blocks in use

  /** Setting a free bit takes a block out of use; clearing it puts it in. */
  lemma AllocFlip(s: seq<int>, isFree: map<int, bool>, size: map<int, nat>, name: map<int, seq<char>>, x: int, v: bool)
    requires x in s && x in size && x in name
    ensures AllocMap(s, isFree[x := v], size, name) ==
      if v then AllocMap(s, isFree, size, name) - {x}
      else AllocMap(s, isFree, size, name)[x := Alloc(size[x], name[x])]
  {
  }

  /** Resizing a block changes its entry, if it is in use. */
  lemma AllocResize(s: seq<int>, isFree: map<int, bool>, size: map<int, nat>, name: map<int, seq<char>>, x: int, n: nat)
    requires x in size
    ensures var A := AllocMap(s, isFree, size, name);
      AllocMap(s, isFree, size[x := n], name) == if x in A then A[x := Alloc(n, name[x])] else A
  {
  }

  /** Renaming a block changes its entry, if it is in use. */
  lemma AllocRename(s: seq<int>, isFree: map<int, bool>, size: map<int, nat>, name: map<int, seq<char>>, x: int, nm: seq<char>)
    requires x in name
    ensures var A := AllocMap(s, isFree, size, name);
      AllocMap(s, isFree, size, name[x := nm]) == if x in A then A[x := Alloc(size[x], nm)] else A
  {
  }

  /** A new free block adds nothing in use. */
  lemma AllocAddFree(s: seq<int>, isFree: map<int, bool>, size: map<int, nat>, name: map<int, seq<char>>,
                     k: int, x: int, n: nat, nm: seq<char>)
    requires 0 <= k <= |s| && x !in s
    ensures AllocMap(s[..k] + [x] + s[k..], isFree[x := true], size[x := n], name[x := nm]) == AllocMap(s, isFree, size, name)
  {
    InsertMembers(s, k, x);
  }

  /** Splitting block i at n resizes its entry, if it is in use, and adds no entry for the free rest. */
  lemma AllocSplit(s: seq<int>, isFree: map<int, bool>, size: map<int, nat>, name: map<int, seq<char>>,
                   i: int, n: nat, nm: seq<char>)
    requires 0 <= i < |s| && s[i] + n !in s && s[i] in size && n <= size[s[i]]
    ensures var A := AllocMap(s, isFree, size, name); var x := s[i];
      AllocMap(s[..i + 1] + [x + n] + s[i + 1..], isFree[x + n := true], size[x := n][x + n := size[x] - n], name[x + n := nm]) ==
      if x in A then A[x := Alloc(n, name[x])] else A
  {
    var x := s[i];
    AllocResize(s, isFree, size, name, x, n);
    AllocAddFree(s, isFree, size[x := n], name, i + 1, x + n, size[x] - n, nm);
  }

  /** A new block in use gets its own entry. */
  lemma AllocAddUsed(s: seq<int>, isFree: map<int, bool>, size: map<int, nat>, name: map<int, seq<char>>,
                     x: int, n: nat, nm: seq<char>)
    requires x !in s
    ensures AllocMap(s + [x], isFree[x := false], size[x := n], name[x := nm]) ==
      AllocMap(s, isFree, size, name)[x := Alloc(n, nm)]
  {
  }

  /** Dropping a free block from the block list changes nothing in use. */
  lemma AllocRemoveFree(s: seq<int>, isFree: map<int, bool>, size: map<int, nat>, name: map<int, seq<char>>, x: int)
    requires Distinct(s) && Flag(isFree, x)
    ensures AllocMap(Without(s, x), isFree, size, name) == AllocMap(s, isFree, size, name)
  {
    WithoutMembers(s, x);
    var l := AllocMap(Without(s, x), isFree, size, name);
    var r := AllocMap(s, isFree, size, name);
    assert l.Keys == r.Keys;
  }
}
