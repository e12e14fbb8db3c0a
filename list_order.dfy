/**
 * Doubly linked lists kept as an order (a sequence of node addresses) plus
 * one map per link field.  The lemmas are the two splices a list undergoes:
 * unlinking the node at a position and inserting a node at a gap.
 */
module ListOrder {

  const NULL: int := 0

  /** One link field of every node: address to the address it points at. */
  type Links = map<int, int>

  /** Successor of entry i in a list given by its order, NULL after the last. */
  function NextOf(s: seq<int>, i: int): int
    requires 0 <= i < |s|
  {
    if i + 1 < |s| then s[i + 1] else NULL
  }

  /** Predecessor of entry i, NULL before the first. */
  function PrevOf(s: seq<int>, i: int): int
    requires 0 <= i < |s|
  {
    if i > 0 then s[i - 1] else NULL
  }

  /** The entry on the left of gap position k (0..|s|), NULL at the front. */
  function Before(s: seq<int>, k: int): int
    requires 0 <= k <= |s|
  {
    if k > 0 then s[k - 1] else NULL
  }

  /** The entry on the right of gap position k, NULL at the end. */
  function After(s: seq<int>, k: int): int
    requires 0 <= k <= |s|
  {
    if k < |s| then s[k] else NULL
  }

  /** Entry i is below entry i + 1. */
  ghost predicate Rising(s: seq<int>, i: int)
    requires 0 <= i < |s| - 1
  {
    s[i] < s[i + 1]
  }

  /** Each entry is below the one after it. */
  ghost predicate Ascending(s: seq<int>)
  {
    forall i :: 0 <= i < |s| - 1 ==> Rising(s, i)
  }

  /** Positions i and j hold different entries. */
  ghost predicate Differ(s: seq<int>, i: int, j: int)
    requires 0 <= i < |s| && 0 <= j < |s|
  {
    s[i] != s[j]
  }

  /**
   * No entry occurs twice.  The pairs are behind `Differ`, so a proof that
   * needs them asks for them (`DistinctPairs`).
   */
  ghost predicate Distinct(s: seq<int>)
  {
    forall i, j :: 0 <= i < j < |s| ==> Differ(s, i, j)
  }

  lemma DistinctPairs(s: seq<int>)
    requires Distinct(s)
    ensures forall i, j :: 0 <= i < j < |s| ==> s[i] != s[j]
  {
    forall i, j | 0 <= i < j < |s| ensures s[i] != s[j] {
      assert Differ(s, i, j);
    }
  }

  lemma PairsDistinct(s: seq<int>)
    requires forall i, j :: 0 <= i < j < |s| ==> s[i] != s[j]
    ensures Distinct(s)
  {
  }

  ghost predicate NonNull(s: seq<int>)
  {
    forall i :: 0 <= i < |s| ==> s[i] > NULL
  }

  /** Entry i lies below address b. */
  ghost predicate Lower(s: seq<int>, i: int, b: int)
    requires 0 <= i < |s|
  {
    s[i] < b
  }

  /** Every entry lies below address b (the entries are reached through `Lower`). */
  ghost predicate Precedes(s: seq<int>, b: int)
  {
    forall i :: 0 <= i < |s| ==> Lower(s, i, b)
  }

  /** Entry i is a node whose two links name its neighbours in the order `s`. */
  ghost predicate LinkAt(s: seq<int>, nxt: Links, prv: Links, i: int)
    requires 0 <= i < |s|
  {
    s[i] > NULL && s[i] in nxt && s[i] in prv && nxt[s[i]] == NextOf(s, i) && prv[s[i]] == PrevOf(s, i)
  }

  /** The two link maps agree with the order `s`. */
  ghost predicate Linked(s: seq<int>, nxt: Links, prv: Links)
  {
    forall i :: 0 <= i < |s| ==> LinkAt(s, nxt, prv, i)
  }

  /** `first` is the list's head pointer. */
  ghost predicate HeadIs(s: seq<int>, first: int)
  {
    (s == [] ==> first == NULL) && (s != [] ==> first == s[0])
  }

  /** `last` is the list's tail pointer. */
  ghost predicate TailIs(s: seq<int>, last: int)
  {
    (s == [] ==> last == NULL) && (s != [] ==> last == s[|s| - 1])
  }

  /** The first position of `x` in `s`. */
  function IndexOf(s: seq<int>, x: int): (r: nat)
    requires x in s
    ensures r < |s| && s[r] == x
  {
    if s[0] == x then 0 else 1 + IndexOf(s[1..], x)
  }

  /** `s` without the first occurrence of `x`. */
  function Without(s: seq<int>, x: int): (r: seq<int>)
    ensures x !in s ==> r == s
    ensures x in s ==> |r| == |s| - 1
    ensures forall y :: y in r ==> y in s
  {
    if x in s then s[..IndexOf(s, x)] + s[IndexOf(s, x) + 1..] else s
  }

  /** No earlier position holds `x`. */
  lemma {:induction false} IndexOfLeast(s: seq<int>, x: int, j: int)
    requires 0 <= j < |s| && s[j] == x
    ensures IndexOf(s, x) <= j
  {
    if s[0] != x {
      IndexOfLeast(s[1..], x, j - 1);
    }
  }

  lemma IndexOfDistinct(s: seq<int>, i: int)
    requires Distinct(s) && 0 <= i < |s|
    ensures IndexOf(s, s[i]) == i
  {
    DistinctPairs(s);
  }

  lemma {:induction false} AscendingLess(s: seq<int>, i: int, j: int)
    requires Ascending(s) && 0 <= i < j < |s|
    ensures s[i] < s[j]
    decreases j - i
  {
    if j > i + 1 {
      AscendingLess(s, i, j - 1);
      assert Rising(s, j - 1);
    } else {
      assert Rising(s, i);
    }
  }

  lemma AscendingDistinct(s: seq<int>)
    requires Ascending(s)
    ensures Distinct(s)
  {
    forall i, j | 0 <= i < j < |s| ensures Differ(s, i, j) {
      AscendingLess(s, i, j);
    }
  }

  /** Writing the links of a node outside the list leaves the list linked. */
  lemma LinkedFrame(s: seq<int>, nxt: Links, prv: Links, b: int, x: int, y: int)
    requires Linked(s, nxt, prv) && b !in s
    ensures Linked(s, nxt[b := x], prv[b := y])
  {
    var nxt', prv' := nxt[b := x], prv[b := y];
    forall j | 0 <= j < |s| ensures LinkAt(s, nxt', prv', j) {
      assert LinkAt(s, nxt, prv, j);
    }
  }

  /** Every entry of a linked list is a node. */
  lemma LinkedNonNull(s: seq<int>, nxt: Links, prv: Links)
    requires Linked(s, nxt, prv)
    ensures NonNull(s)
  {
    forall j | 0 <= j < |s| ensures s[j] > NULL {
      assert LinkAt(s, nxt, prv, j);
    }
  }

  // ---------------------------------------------------------------------
  // Unlinking the entry at position i

  lemma RemoveAtIndex(s: seq<int>, i: int)
    requires 0 <= i < |s|
    ensures |s[..i] + s[i + 1..]| == |s| - 1
    ensures forall j :: 0 <= j < i ==> (s[..i] + s[i + 1..])[j] == s[j]
    ensures forall j :: i < j < |s| ==> (s[..i] + s[i + 1..])[j - 1] == s[j]
  {
  }

  lemma RemoveAtDistinct(s: seq<int>, i: int)
    requires Distinct(s) && 0 <= i < |s|
    ensures Distinct(s[..i] + s[i + 1..])
    ensures s[i] !in s[..i] + s[i + 1..]
    ensures Without(s, s[i]) == s[..i] + s[i + 1..]
  {
    RemoveAtPairs(s, i);
    RemoveAtGone(s, i);
    IndexOfDistinct(s, i);
  }

  lemma RemoveAtPairs(s: seq<int>, i: int)
    requires Distinct(s) && 0 <= i < |s|
    ensures Distinct(s[..i] + s[i + 1..])
  {
    var t := s[..i] + s[i + 1..];
    RemoveAtIndex(s, i);
    forall a, c | 0 <= a < c < |t| ensures Differ(t, a, c) {
      var a' := if a < i then a else a + 1;
      var c' := if c < i then c else c + 1;
      assert t[a] == s[a'] && t[c] == s[c'] && Differ(s, a', c');
    }
  }

  lemma RemoveAtGone(s: seq<int>, i: int)
    requires Distinct(s) && 0 <= i < |s|
    ensures s[i] !in s[..i] + s[i + 1..]
  {
    var t := s[..i] + s[i + 1..];
    RemoveAtIndex(s, i);
    forall a | 0 <= a < |t| ensures t[a] != s[i] {
      var a' := if a < i then a else a + 1;
      assert t[a] == s[a'] && if a' < i then Differ(s, a', i) else Differ(s, i, a');
    }
  }

  /** The successor links once entry i is unlinked: its predecessor skips it. */
  ghost function UnlinkNext(s: seq<int>, nxt: Links, i: int): Links
    requires 0 <= i < |s|
  {
    if PrevOf(s, i) != NULL then nxt[PrevOf(s, i) := NextOf(s, i)] else nxt
  }

  /** The predecessor links once entry i is unlinked: its successor skips it. */
  ghost function UnlinkPrev(s: seq<int>, prv: Links, i: int): Links
    requires 0 <= i < |s|
  {
    if NextOf(s, i) != NULL then prv[NextOf(s, i) := PrevOf(s, i)] else prv
  }

  lemma UnlinkAt(s: seq<int>, nxt: Links, prv: Links, i: int, j: int)
    requires Linked(s, nxt, prv) && Distinct(s) && 0 <= i < |s| && 0 <= j < |s| - 1
    ensures LinkAt(s[..i] + s[i + 1..], UnlinkNext(s, nxt, i), UnlinkPrev(s, prv, i), j)
  {
    var m := if j < i then j else j + 1;
    DistinctPairs(s);
    assert LinkAt(s, nxt, prv, m);
    UnlinkKept(s, nxt, prv, i, j, m);
  }

  lemma UnlinkKept(s: seq<int>, nxt: Links, prv: Links, i: int, j: int, m: int)
    requires 0 <= i < |s| && 0 <= j < |s| - 1 && m == (if j < i then j else j + 1)
    requires LinkAt(s, nxt, prv, m)
    requires s[m] == PrevOf(s, i) ==> m == i - 1
    requires s[m] == NextOf(s, i) ==> m == i + 1
    ensures LinkAt(s[..i] + s[i + 1..], UnlinkNext(s, nxt, i), UnlinkPrev(s, prv, i), j)
  {
    RemoveAtIndex(s, i);
  }

  /**
   * Unlinking entry i by pointing its predecessor at its successor and back
   * leaves the other entries linked in their order; the unlinked entry's own
   * links are not written.
   */
  lemma Unlink(s: seq<int>, nxt: Links, prv: Links, i: int)
    requires Linked(s, nxt, prv) && Distinct(s) && 0 <= i < |s|
    ensures Linked(s[..i] + s[i + 1..], UnlinkNext(s, nxt, i), UnlinkPrev(s, prv, i))
  {
    var t := s[..i] + s[i + 1..];
    forall j | 0 <= j < |t| ensures LinkAt(t, UnlinkNext(s, nxt, i), UnlinkPrev(s, prv, i), j) {
      UnlinkAt(s, nxt, prv, i, j);
    }
  }

  /** The head and tail pointers after unlinking entry i. */
  lemma UnlinkEnds(s: seq<int>, i: int, first: int, last: int)
    requires HeadIs(s, first) && TailIs(s, last) && NonNull(s) && 0 <= i < |s|
    ensures HeadIs(s[..i] + s[i + 1..], if PrevOf(s, i) != NULL then first else NextOf(s, i))
    ensures TailIs(s[..i] + s[i + 1..], if NextOf(s, i) != NULL then last else PrevOf(s, i))
  {
    RemoveAtIndex(s, i);
  }

  // ---------------------------------------------------------------------
  // Inserting b at gap position k

  lemma InsertAtIndex(s: seq<int>, k: int, b: int)
    requires 0 <= k <= |s|
    ensures |s[..k] + [b] + s[k..]| == |s| + 1
    ensures (s[..k] + [b] + s[k..])[k] == b
    ensures forall j :: 0 <= j < k ==> (s[..k] + [b] + s[k..])[j] == s[j]
    ensures forall j :: k <= j < |s| ==> (s[..k] + [b] + s[k..])[j + 1] == s[j]
  {
  }

  lemma InsertAtDistinct(s: seq<int>, k: int, b: int)
    requires Distinct(s) && 0 <= k <= |s| && b !in s
    ensures Distinct(s[..k] + [b] + s[k..])
  {
    var t := s[..k] + [b] + s[k..];
    InsertAtIndex(s, k, b);
    DistinctPairs(s);
    forall a, c | 0 <= a < c < |t| ensures t[a] != t[c] {
      if a < k && c < k { assert t[a] == s[a] && t[c] == s[c]; }
      else if a < k && c == k { assert t[a] == s[a]; }
      else if a < k { assert t[a] == s[a] && t[c] == s[c - 1]; }
      else if a == k { assert t[c] == s[c - 1]; }
      else { assert t[a] == s[a - 1] && t[c] == s[c - 1]; }
    }
    PairsDistinct(t);
  }


  /** The successor links once b is inserted at gap k: b's own, then its predecessor's. */
  ghost function InsertNext(s: seq<int>, nxt: Links, k: int, b: int): Links
    requires 0 <= k <= |s|
  {
    if Before(s, k) != NULL then nxt[b := After(s, k)][Before(s, k) := b] else nxt[b := After(s, k)]
  }

  /** The predecessor links once b is inserted at gap k: b's own, then its successor's. */
  ghost function InsertPrev(s: seq<int>, prv: Links, k: int, b: int): Links
    requires 0 <= k <= |s|
  {
    if After(s, k) != NULL then prv[b := Before(s, k)][After(s, k) := b] else prv[b := Before(s, k)]
  }

  lemma InsertAt(s: seq<int>, nxt: Links, prv: Links, k: int, b: int, j: int)
    requires Linked(s, nxt, prv) && Distinct(s) && 0 <= k <= |s| && 0 <= j <= |s|
    requires b > NULL && b !in s
    ensures LinkAt(s[..k] + [b] + s[k..], InsertNext(s, nxt, k, b), InsertPrev(s, prv, k, b), j)
  {
    DistinctPairs(s);
    if j == k {
      InsertNew(s, nxt, prv, k, b);
    } else {
      var i := if j < k then j else j - 1;
      assert LinkAt(s, nxt, prv, i);
      InsertKept(s, nxt, prv, k, b, j, i);
    }
  }

  lemma InsertNew(s: seq<int>, nxt: Links, prv: Links, k: int, b: int)
    requires 0 <= k <= |s| && b > NULL && b != Before(s, k) && b != After(s, k)
    ensures LinkAt(s[..k] + [b] + s[k..], InsertNext(s, nxt, k, b), InsertPrev(s, prv, k, b), k)
  {
    InsertAtIndex(s, k, b);
  }

  lemma InsertKept(s: seq<int>, nxt: Links, prv: Links, k: int, b: int, j: int, i: int)
    requires 0 <= k <= |s| && 0 <= j <= |s| && j != k && i == (if j < k then j else j - 1)
    requires LinkAt(s, nxt, prv, i) && s[i] != b
    requires s[i] == Before(s, k) ==> i == k - 1
    requires s[i] == After(s, k) ==> i == k
    ensures LinkAt(s[..k] + [b] + s[k..], InsertNext(s, nxt, k, b), InsertPrev(s, prv, k, b), j)
  {
    InsertAtIndex(s, k, b);
  }

  /**
   * Inserting b at gap k by writing b's own links and then pointing its new
   * neighbours at it links the lengthened list in order.
   */
  lemma Insert(s: seq<int>, nxt: Links, prv: Links, k: int, b: int)
    requires Linked(s, nxt, prv) && Distinct(s) && 0 <= k <= |s|
    requires b > NULL && b !in s
    ensures Linked(s[..k] + [b] + s[k..], InsertNext(s, nxt, k, b), InsertPrev(s, prv, k, b))
  {
    var t := s[..k] + [b] + s[k..];
    assert |t| == |s| + 1;
    forall j | 0 <= j < |t| ensures LinkAt(t, InsertNext(s, nxt, k, b), InsertPrev(s, prv, k, b), j) {
      InsertAt(s, nxt, prv, k, b, j);
    }
  }

  /** Inserting b adds b and keeps every other entry. */
  lemma InsertMembers(s: seq<int>, k: int, b: int)
    requires 0 <= k <= |s|
    ensures forall a :: a in s[..k] + [b] + s[k..] <==> a in s || a == b
  {
    assert s == s[..k] + s[k..];
  }

  /** In a list without repeats, taking x out removes exactly x. */
  lemma WithoutMembers(s: seq<int>, x: int)
    requires Distinct(s)
    ensures forall a :: a in Without(s, x) <==> a in s && a != x
  {
    if x in s {
      var i := IndexOf(s, x);
      assert s == s[..i] + [x] + s[i + 1..];
      DistinctPairs(s);
      var rest := s[i + 1..];
      forall j | 0 <= j < |rest| ensures rest[j] != x {
        assert rest[j] == s[i + 1 + j];
      }
    }
  }

  /** Appending b does not move the first occurrence of an earlier entry. */
  lemma {:induction false} IndexOfAppend(s: seq<int>, x: int, b: int)
    requires x in s
    ensures IndexOf(s + [b], x) == IndexOf(s, x)
  {
    if s[0] != x {
      assert (s + [b])[1..] == s[1..] + [b];
      IndexOfAppend(s[1..], x, b);
    }
  }

  /** Taking x out of a list with b appended, x not b, takes it out before b. */
  lemma WithoutAppend(s: seq<int>, x: int, b: int)
    requires x != b
    ensures Without(s + [b], x) == Without(s, x) + [b]
  {
    var t := s + [b];
    if x in s {
      var i := IndexOf(s, x);
      IndexOfAppend(s, x, b);
      assert x in t && IndexOf(t, x) == i;
      assert t[..i] == s[..i];
      assert t[i + 1..] == s[i + 1..] + [b];
      assert s[..i] + (s[i + 1..] + [b]) == (s[..i] + s[i + 1..]) + [b];
    } else {
      assert x !in t;
    }
  }

  /** Removing an inserted node gives the list back. */
  lemma InsertWithout(s: seq<int>, k: int, b: int)
    requires 0 <= k <= |s| && b !in s
    ensures b in s[..k] + [b] + s[k..]
    ensures Without(s[..k] + [b] + s[k..], b) == s
  {
    var t := s[..k] + [b] + s[k..];
    InsertAtIndex(s, k, b);
    var r := IndexOf(t, b);
    IndexOfLeast(t, b, k);
    assert r == k;
    assert t[..k] == s[..k];
    assert t[k + 1..] == s[k..];
    assert s[..k] + s[k..] == s;
  }

  /**
   * The gap an ordered insertion links b into: before the head if b is
   * below it, otherwise after the last entry reached by walking from the
   * head while the next entry is below b.
   */
  function Gap(s: seq<int>, b: int): (k: nat)
    ensures k <= |s|
    ensures k > 0 ==> s[k - 1] <= b
    ensures k < |s| ==> b <= s[k]
  {
    if s == [] || b < s[0] then 0 else GapFrom(s, b, 1)
  }

  /** The walk of `Gap` from entry j - 1 on. */
  function GapFrom(s: seq<int>, b: int, j: nat): (k: nat)
    requires 1 <= j <= |s| && s[j - 1] <= b
    ensures j <= k <= |s| && s[k - 1] <= b
    ensures k < |s| ==> b <= s[k]
    decreases |s| - j
  {
    if j == |s| || s[j] >= b then j else GapFrom(s, b, j + 1)
  }

  /** A node placed between a smaller and a larger neighbour keeps the order ascending. */
  lemma InsertAscending(s: seq<int>, k: int, b: int)
    requires Ascending(s) && 0 <= k <= |s|
    requires k > 0 ==> s[k - 1] < b
    requires k < |s| ==> b < s[k]
    ensures Ascending(s[..k] + [b] + s[k..])
  {
    var t := s[..k] + [b] + s[k..];
    InsertAtIndex(s, k, b);
    forall j | 0 <= j < |t| - 1 ensures Rising(t, j) {
      if j + 1 < k {
        assert Rising(s, j);
      } else if j > k {
        assert t[j] == s[j - 1] && Rising(s, j - 1);
      }
    }
  }

  /** Below every entry, the walk runs to the end: b is appended. */
  lemma {:induction false} GapFromEnd(s: seq<int>, b: int, j: nat)
    requires 1 <= j <= |s| && Precedes(s, b)
    ensures Lower(s, j - 1, b) && GapFrom(s, b, j) == |s|
    decreases |s| - j
  {
    assert Lower(s, j - 1, b);
    if j < |s| {
      assert Lower(s, j, b);
      GapFromEnd(s, b, j + 1);
    }
  }

  lemma GapEnd(s: seq<int>, b: int)
    requires Precedes(s, b)
    ensures Gap(s, b) == |s|
  {
    if s != [] {
      assert Lower(s, 0, b);
      GapFromEnd(s, b, 1);
    }
  }

  /** The head and tail pointers after inserting b at gap k. */
  lemma InsertEnds(s: seq<int>, k: int, b: int, first: int, last: int)
    requires HeadIs(s, first) && TailIs(s, last) && NonNull(s) && 0 <= k <= |s|
    ensures HeadIs(s[..k] + [b] + s[k..], if Before(s, k) != NULL then first else b)
    ensures TailIs(s[..k] + [b] + s[k..], if After(s, k) != NULL then last else b)
  {
    InsertAtIndex(s, k, b);
    if k > 0 {
      assert (s[..k] + [b] + s[k..])[0] == s[0];
    }
    if k < |s| {
      assert (s[..k] + [b] + s[k..])[|s| - 1 + 1] == s[|s| - 1];
    }
  }

  // ---------------------------------------------------------------------
  // Unlinking a node by its own links

  /**
   * Node `b` is not in the list, yet its links name the two sides of one gap
   * of it, as they do right after `b` was unlinked.
   */
  ghost predicate StaleLinks(s: seq<int>, nxt: Links, prv: Links, b: int)
  {
    b !in s && b in nxt && b in prv &&
    exists k :: 0 <= k <= |s| && Before(s, k) == prv[b] && After(s, k) == nxt[b]
  }

  /** The outcome of unlinking `b` through its own links. */
  ghost predicate UnlinkedNode(s: seq<int>, nxt: Links, prv: Links, first: int, b: int)
    requires b in nxt && b in prv
  {
    var p := prv[b];
    var n := nxt[b];
    var nxt' := if p != NULL then nxt[p := n] else nxt;
    var prv' := if n != NULL then prv[n := p] else prv;
    var first' := if p != NULL then first else n;
    var t := Without(s, b);
    Linked(t, nxt', prv') && Distinct(t) && HeadIs(t, first') && StaleLinks(t, nxt', prv', b) &&
    (b !in s ==> nxt' == nxt && prv' == prv && first' == first)
  }

  /**
   * Unlinking a listed node removes it from the order and leaves its links
   * stale; unlinking a node whose links are already stale changes nothing.
   */
  lemma UnlinkNode(s: seq<int>, nxt: Links, prv: Links, first: int, b: int)
    requires Linked(s, nxt, prv) && Distinct(s) && HeadIs(s, first) && b > NULL
    requires b in s || StaleLinks(s, nxt, prv, b)
    ensures b in nxt && b in prv && UnlinkedNode(s, nxt, prv, first, b)
  {
    if b in s {
      UnlinkListed(s, nxt, prv, first, IndexOf(s, b));
    } else {
      UnlinkStale(s, nxt, prv, first, b);
    }
  }

  lemma UnlinkListed(s: seq<int>, nxt: Links, prv: Links, first: int, i: int)
    requires Linked(s, nxt, prv) && Distinct(s) && HeadIs(s, first) && 0 <= i < |s|
    ensures LinkAt(s, nxt, prv, i) && UnlinkedNode(s, nxt, prv, first, s[i])
  {
    var b := s[i];
    var t := s[..i] + s[i + 1..];
    assert LinkAt(s, nxt, prv, i);
    var p := prv[b];
    var n := nxt[b];
    var nxt' := UnlinkNext(s, nxt, i);
    var prv' := UnlinkPrev(s, prv, i);
    LinkedNonNull(s, nxt, prv);
    Unlink(s, nxt, prv, i);
    UnlinkEnds(s, i, first, if s == [] then NULL else s[|s| - 1]);
    RemoveAtDistinct(s, i);
    assert Without(s, b) == t;
    assert StaleLinks(t, nxt', prv', b) by {
      DistinctPairs(s);
      RemoveAtIndex(s, i);
      assert p != b && n != b;
      assert Before(t, i) == p && After(t, i) == n;
    }
  }

  lemma UnlinkStale(s: seq<int>, nxt: Links, prv: Links, first: int, b: int)
    requires Linked(s, nxt, prv) && Distinct(s) && HeadIs(s, first) && StaleLinks(s, nxt, prv, b)
    ensures UnlinkedNode(s, nxt, prv, first, b)
  {
    var p := prv[b];
    var n := nxt[b];
    var k :| 0 <= k <= |s| && Before(s, k) == p && After(s, k) == n;
    assert Without(s, b) == s;
    if p != NULL {
      assert LinkAt(s, nxt, prv, k - 1);
      assert nxt[p := n] == nxt;
    } else {
      LinkedNonNull(s, nxt, prv);
      assert k == 0;
    }
    if n != NULL {
      assert LinkAt(s, nxt, prv, k);
      assert prv[n := p] == prv;
    }
  }

  // ---------------------------------------------------------------------
  // Lists with a head and a tail pointer

  /** A list linked in its order, without repeats, with its head and tail pointers. */
  ghost predicate DoubleList(s: seq<int>, nxt: Links, prv: Links, first: int, last: int)
  {
    Linked(s, nxt, prv) && Distinct(s) && HeadIs(s, first) && TailIs(s, last)
  }

  /** Inserting b at a gap, then removing it again, gives the list back. */
  lemma InsertDouble(s: seq<int>, nxt: Links, prv: Links, first: int, last: int, k: int, b: int)
    requires DoubleList(s, nxt, prv, first, last) && 0 <= k <= |s| && b > NULL && b !in s
    ensures DoubleList(s[..k] + [b] + s[k..], InsertNext(s, nxt, k, b), InsertPrev(s, prv, k, b),
                       if Before(s, k) != NULL then first else b, if After(s, k) != NULL then last else b)
    ensures b in s[..k] + [b] + s[k..] && Without(s[..k] + [b] + s[k..], b) == s
  {
    LinkedNonNull(s, nxt, prv);
    Insert(s, nxt, prv, k, b);
    InsertEnds(s, k, b, first, last);
    InsertAtDistinct(s, k, b);
    InsertWithout(s, k, b);
  }

  /** Unlinking a listed node through its own links keeps the rest linked. */
  lemma UnlinkDouble(s: seq<int>, nxt: Links, prv: Links, first: int, last: int, b: int)
    requires DoubleList(s, nxt, prv, first, last) && b in s
    ensures b in nxt && b in prv
    ensures var p := prv[b];
      var n := nxt[b];
      DoubleList(Without(s, b), if p != NULL then nxt[p := n] else nxt, if n != NULL then prv[n := p] else prv,
                 if p != NULL then first else n, if n != NULL then last else p)
  {
    var i := IndexOf(s, b);
    assert LinkAt(s, nxt, prv, i);
    LinkedNonNull(s, nxt, prv);
    Unlink(s, nxt, prv, i);
    UnlinkEnds(s, i, first, last);
    RemoveAtDistinct(s, i);
  }
}
