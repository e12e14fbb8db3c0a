/**
 * The whole allocator state of user/umalloc.c as one value, the pointer
 * surgery of each helper as a function from state to state, and the
 * lemmas saying which invariants each step keeps.  The class in
 * umalloc.dfy performs the same steps on its fields; each of its methods
 * is proved to move its state exactly as the function here says.
 */
module HeapState {
  import opened ListOrder
  import opened HeapLayout

  /**
   * The most the heap grows to: the modelled `sbrk` refuses to move the break
   * further, so every block size fits a `uint` and its negation an `int`.
   */
  const HEAP_LIMIT: int := 0x7FFF_F000

  /**
   * The globals `head`, `tail` and `free_head`, every header field and
   * free-list node (one map per field, keyed by header address), the
   * program break and where the heap starts.  `blocks` and `frees` are the
   * orders in which the block list and the free list visit the blocks.
   */
  datatype State = State(
    size: map<int, nat>, isFree: map<int, bool>, name: map<int, seq<char>>,
    nextBlock: Links, prevBlock: Links, nextFree: Links, prevFree: Links,
    head: int, tail: int, freeHead: int, base: int, brk: int,
    blocks: seq<int>, frees: seq<int>)

  /** No blocks, both lists empty, the break at `base`. */
  function Empty(base: int): State
  {
    State(map[], map[], map[], map[], map[], map[], map[], NULL, NULL, NULL, base, base, [], [])
  }

  // ---------------------------------------------------------------------
  // Invariants

  /** The block list links every block, from `head` to `tail`. */
  ghost predicate BlockList(h: State)
  {
    DoubleList(h.blocks, h.nextBlock, h.prevBlock, h.head, h.tail)
  }

  /** The free list links the free blocks from `free_head`, in the order they were added. */
  ghost predicate FreeList(h: State)
  {
    Linked(h.frees, h.nextFree, h.prevFree) && Distinct(h.frees) && HeadIs(h.frees, h.freeHead)
  }

  /** The blocks tile [base, brk) and each header carries an eight-byte name. */
  ghost predicate Layout(h: State)
  {
    0 < h.base <= h.brk <= h.base + HEAP_LIMIT && Tiled(h.blocks, h.size, h.base, h.brk) && Named(h.blocks, h.name)
  }

  /** Free bits agree with free-list membership, except at block `e`. */
  ghost predicate Flags(h: State, e: int)
  {
    Listed(h.frees, h.blocks) && FlagsMatch(h.blocks, h.frees, h.isFree, e)
  }

  ghost predicate Wf(h: State, e: int)
  {
    BlockList(h) && FreeList(h) && Layout(h) && Flags(h, e)
  }

  /** The state between two calls of the public interface: well formed and coalesced. */
  ghost predicate Valid(h: State)
  {
    Wf(h, NULL) && Coalesced(h.blocks, h.isFree)
  }

  /**
   * Block `b` is off the free list but its stale links still name two
   * neighbours in it: unlinking it again changes nothing.
   */
  ghost predicate Detached(h: State, b: int)
  {
    StaleLinks(h.frees, h.nextFree, h.prevFree, b)
  }

  /** The blocks in use, as a program sees them. */
  ghost function Allocated(h: State): map<int, Alloc>
  {
    AllocMap(h.blocks, h.isFree, h.size, h.name)
  }

  /** The block before `b` in address order, NULL for the first. */
  ghost function Pred(h: State, b: int): int
    requires b in h.blocks
  {
    PrevOf(h.blocks, IndexOf(h.blocks, b))
  }

  /** The block after `b` in address order, NULL for the last. */
  ghost function Succ(h: State, b: int): int
    requires b in h.blocks
  {
    NextOf(h.blocks, IndexOf(h.blocks, b))
  }

  /** The sizes met walking the free list from its head. */
  ghost function FreeSizes(h: State): seq<nat>
  {
    SizesOf(h.frees, h.size)
  }

  // ---------------------------------------------------------------------
  // The steps

  /** `set_free` (v) and `set_used` (not v) on the header at `b`. */
  function SetFlag(h: State, b: int, v: bool): State
  {
    h.(isFree := h.isFree[b := v])
  }

  /** `sbrk(n)` once granted: the break moves by n. */
  function Moved(h: State, n: int): State
  {
    h.(brk := h.brk + n)
  }

  /**
   * `malloc` on fresh memory: the break moves up by n and a header for a
   * block in use of n bytes, with a cleared name and no links, is written
   * at the old break.
   */
  function NewBlock(h: State, n: int): State
    requires n >= 0
  {
    var b := h.brk;
    h.(brk := b + n, size := h.size[b := n], isFree := h.isFree[b := false], name := h.name[b := ZeroName()],
       nextBlock := h.nextBlock[b := NULL], prevBlock := h.prevBlock[b := NULL])
  }

  /** `free_list_add`: clear b's free links and append it after the last node. */
  ghost function AddFree(h: State, b: int): State
  {
    var s := h.frees;
    h.(nextFree := InsertNext(s, h.nextFree, |s|, b), prevFree := InsertPrev(s, h.prevFree, |s|, b),
       freeHead := if s == [] then b else h.freeHead, frees := s + [b])
  }

  /** `free_list_remove`: unlink b through its own free links, which stay as they were. */
  ghost function RemoveFree(h: State, b: int): State
    requires b in h.nextFree && b in h.prevFree
  {
    var p := h.prevFree[b];
    var n := h.nextFree[b];
    h.(nextFree := if p != NULL then h.nextFree[p := n] else h.nextFree,
       prevFree := if n != NULL then h.prevFree[n := p] else h.prevFree,
       freeHead := if p != NULL then h.freeHead else n,
       frees := Without(h.frees, b))
  }

  /** `block_list_add`: link b in at the gap its address falls into. */
  ghost function AddBlock(h: State, b: int): State
  {
    var s := h.blocks;
    var k := Gap(s, b);
    h.(nextBlock := InsertNext(s, h.nextBlock, k, b), prevBlock := InsertPrev(s, h.prevBlock, k, b),
       head := if Before(s, k) != NULL then h.head else b,
       tail := if After(s, k) != NULL then h.tail else b,
       blocks := s[..k] + [b] + s[k..])
  }

  /** `block_list_remove`: unlink b through its own block links. */
  ghost function RemoveBlock(h: State, b: int): State
    requires b in h.nextBlock && b in h.prevBlock
  {
    var p := h.prevBlock[b];
    var n := h.nextBlock[b];
    h.(nextBlock := if p != NULL then h.nextBlock[p := n] else h.nextBlock,
       prevBlock := if n != NULL then h.prevBlock[n := p] else h.prevBlock,
       head := if p != NULL then h.head else n,
       tail := if n != NULL then h.tail else p,
       blocks := Without(h.blocks, b))
  }

  /**
   * `split` once the size check has passed: b keeps n bytes and its flag;
   * a free block with a cleared name and the remaining bytes is written at
   * b + n and linked in right after b.
   */
  ghost function SplitOf(h: State, b: int, n: int): State
    requires b in h.blocks && b in h.size && b in h.nextBlock && 0 <= n <= h.size[b]
  {
    var s := h.blocks;
    var i := IndexOf(s, b);
    var nb := b + n;
    var after := h.nextBlock[b];
    h.(size := h.size[b := n][nb := h.size[b] - n], isFree := h.isFree[nb := true], name := h.name[nb := ZeroName()],
       nextBlock := h.nextBlock[nb := after][b := nb],
       prevBlock := if after != NULL then h.prevBlock[nb := b][after := nb] else h.prevBlock[nb := b],
       tail := if after != NULL then h.tail else nb,
       blocks := s[..i + 1] + [nb] + s[i + 1..])
  }

  /**
   * What `merge_with_next` may be called on: a block of a well-formed heap
   * (e is NULL), or, as in `realloc`, one whose free successor e was
   * already unlinked from the free list.
   */
  ghost predicate MergeReady(h: State, b: int, e: int)
  {
    b in h.blocks && Wf(h, e) &&
    (e != NULL ==> e == Succ(h, b) && Flag(h.isFree, e) && Detached(h, e))
  }

  /** The header fields `merge_with_next` reads are in place. */
  ghost predicate Mergeable(h: State, b: int)
  {
    b in h.nextBlock && b in h.size &&
    var x := h.nextBlock[b];
    x != NULL ==> (x in h.nextBlock && x in h.isFree && (h.isFree[x] ==> x in h.size && x in h.nextFree && x in h.prevFree))
  }

  /**
   * `merge_with_next`: if the block after b is free, unlink it from the
   * free list, add its size to b and drop it from the block list.
   */
  ghost function MergeNextOf(h: State, b: int): State
    requires Mergeable(h, b)
  {
    var x := h.nextBlock[b];
    if x == NULL || !Flag(h.isFree, x) then h
    else
      var after := h.nextBlock[x];
      RemoveFree(h, x).(size := h.size[b := h.size[b] + h.size[x]],
                        nextBlock := h.nextBlock[b := after],
                        prevBlock := if after != NULL then h.prevBlock[after := b] else h.prevBlock,
                        tail := if after != NULL then h.tail else b,
                        blocks := Without(h.blocks, x))
  }

  /**
   * `merge_with_prev` on a free block b: if the block before it is free,
   * unlink b from the free list, add its size to that block and drop b from
   * the block list.
   */
  ghost function MergePrevOf(h: State, b: int): State
    requires Wf(h, NULL) && b in h.frees
  {
    MergePrevLookups(h, b);
    var p := h.prevBlock[b];
    if p == NULL || !Flag(h.isFree, p) then h
    else
      var after := h.nextBlock[b];
      RemoveFree(h, b).(size := h.size[p := h.size[p] + h.size[b]],
                        nextBlock := h.nextBlock[p := after],
                        prevBlock := if after != NULL then h.prevBlock[after := p] else h.prevBlock,
                        tail := if after != NULL then h.tail else p,
                        blocks := Without(h.blocks, b))
  }

  /** The test of the loop at the end of `free`: the last block is free and at least a page. */
  ghost predicate Releasable(h: State)
  {
    h.tail != NULL && Flag(h.isFree, h.tail) && h.tail in h.size && h.size[h.tail] >= 4096
  }

  /** One round of that loop: unlink the last block from both lists and give its bytes back. */
  ghost function Release(h: State): State
    requires Valid(h) && Releasable(h)
  {
    TailLookups(h);
    var t := h.tail;
    var sz: int := h.size[t];
    Moved(RemoveBlock(RemoveFree(h, t), t), -sz)
  }

  // ---------------------------------------------------------------------
  // Reading a well-formed state

  /** A block's two block-list links name its neighbours. */
  lemma LinksOf(h: State, b: int)
    requires BlockList(h) && b in h.blocks
    ensures b > NULL && b in h.nextBlock && h.nextBlock[b] == Succ(h, b) && b in h.prevBlock && h.prevBlock[b] == Pred(h, b)
    ensures NonNull(h.blocks)
  {
    assert LinkAt(h.blocks, h.nextBlock, h.prevBlock, IndexOf(h.blocks, b));
    LinkedNonNull(h.blocks, h.nextBlock, h.prevBlock);
  }

  /** Every block's header is in place and lies inside the heap. */
  lemma HeaderOf(h: State, e: int, b: int)
    requires Layout(h) && Flags(h, e) && b in h.blocks
    ensures b in h.size && b in h.isFree && b in h.name && |h.name[b]| == NAME_LEN
    ensures h.size[b] >= MIN_BLOCK && h.size[b] % 16 == 0 && h.base <= b && b + h.size[b] <= h.brk
    ensures b != e ==> (h.isFree[b] <==> b in h.frees)
  {
    TiledIn(h.blocks, h.size, h.base, h.brk, b);
  }

  /** Entry j of the free list is a block whose free links name its free-list neighbours. */
  lemma FreeAt(h: State, e: int, j: int)
    requires Wf(h, e) && 0 <= j < |h.frees|
    ensures LinkAt(h.frees, h.nextFree, h.prevFree, j)
    ensures h.frees[j] in h.blocks && h.frees[j] in h.size && FreeSizes(h)[j] == h.size[h.frees[j]]
    ensures 0 < h.size[h.frees[j]] <= HEAP_LIMIT
  {
    assert LinkAt(h.frees, h.nextFree, h.prevFree, j);
    HeaderOf(h, e, h.frees[j]);
  }

  /** A node of the free list, or one just unlinked from it, still has its free links. */
  lemma NodeOf(h: State, b: int)
    requires FreeList(h) && (b in h.frees || Detached(h, b))
    ensures b in h.nextFree && b in h.prevFree
  {
    if b in h.frees {
      assert LinkAt(h.frees, h.nextFree, h.prevFree, IndexOf(h.frees, b));
    }
  }

  lemma MergeLookups(h: State, b: int, e: int)
    requires MergeReady(h, b, e)
    ensures FreeList(h) && BlockList(h) && Layout(h) && Mergeable(h, b) && h.nextBlock[b] == Succ(h, b)
    ensures h.nextBlock[b] != NULL ==> h.nextBlock[b] in h.blocks
  {
    LinksOf(h, b);
    HeaderOf(h, e, b);
    var x := h.nextBlock[b];
    if x != NULL {
      var i := IndexOf(h.blocks, b);
      assert x == h.blocks[i + 1];
      LinksOf(h, x);
      HeaderOf(h, e, x);
      if Flag(h.isFree, x) {
        NodeOf(h, x);
      }
    }
  }

  lemma MergePrevLookups(h: State, b: int)
    requires Wf(h, NULL) && b in h.frees
    ensures b in h.blocks && b in h.prevBlock && b in h.nextBlock && b in h.size && b in h.nextFree && b in h.prevFree
    ensures h.prevBlock[b] == Pred(h, b)
    ensures var p := h.prevBlock[b]; p != NULL ==> p in h.blocks && p in h.size && p in h.isFree
  {
    LinksOf(h, b);
    HeaderOf(h, NULL, b);
    NodeOf(h, b);
    var p := h.prevBlock[b];
    if p != NULL {
      var i := IndexOf(h.blocks, b);
      assert p == h.blocks[i - 1];
      HeaderOf(h, NULL, p);
    }
  }

  /** The sum `merge_with_next` stores fits the heap, so the `uint` addition cannot wrap. */
  lemma MergeNextFits(h: State, b: int, e: int)
    requires MergeReady(h, b, e)
    ensures Mergeable(h, b)
    ensures var x := h.nextBlock[b]; x != NULL && Flag(h.isFree, x) ==> h.size[b] + h.size[x] <= HEAP_LIMIT
  {
    MergeLookups(h, b, e);
    var x := h.nextBlock[b];
    if x != NULL {
      var i := IndexOf(h.blocks, b);
      assert x == h.blocks[i + 1] && AdjacentAt(h.blocks, h.size, i);
      HeaderOf(h, e, b);
      HeaderOf(h, e, x);
    }
  }

  /** Likewise for the sum `merge_with_prev` stores. */
  lemma MergePrevFits(h: State, b: int)
    requires Wf(h, NULL) && b in h.frees
    ensures b in h.prevBlock && b in h.size
    ensures var p := h.prevBlock[b]; p != NULL && p in h.size ==> h.size[p] + h.size[b] <= HEAP_LIMIT
  {
    MergePrevLookups(h, b);
    var p := h.prevBlock[b];
    if p != NULL {
      var i := IndexOf(h.blocks, b);
      assert p == h.blocks[i - 1] && AdjacentAt(h.blocks, h.size, i - 1);
      HeaderOf(h, NULL, b);
      HeaderOf(h, NULL, p);
    }
  }

  lemma TailLookups(h: State)
    requires Valid(h) && Releasable(h)
    ensures h.tail in h.blocks && h.tail in h.frees && h.tail in h.size
    ensures h.tail in h.nextFree && h.tail in h.prevFree && h.tail in h.nextBlock && h.tail in h.prevBlock
    ensures h.base <= h.brk - h.size[h.tail]
  {
    var t := h.tail;
    assert t == h.blocks[|h.blocks| - 1];
    LinksOf(h, t);
    HeaderOf(h, NULL, t);
    NodeOf(h, t);
  }

  // ---------------------------------------------------------------------
  // The free list

  /**
   * Appending b links it after the last node; unlinking it again gives the
   * old free list back.
   */
  lemma AddFreeList(h: State, b: int)
    requires FreeList(h) && b > NULL && b !in h.frees
    ensures FreeList(AddFree(h, b)) && AddFree(h, b).frees == h.frees + [b]
    ensures b in AddFree(h, b).nextFree && b in AddFree(h, b).prevFree
    ensures RemoveFree(AddFree(h, b), b).frees == h.frees
  {
    var s := h.frees;
    var last := if s == [] then NULL else s[|s| - 1];
    LinkedNonNull(s, h.nextFree, h.prevFree);
    Insert(s, h.nextFree, h.prevFree, |s|, b);
    InsertAtDistinct(s, |s|, b);
    assert s + [b] == s[..|s|] + [b] + s[|s|..];
    InsertEnds(s, |s|, b, h.freeHead, last);
    InsertWithout(s, |s|, b);
  }

  /**
   * Unlinking a listed node removes it from the free list and leaves its
   * links stale; unlinking an already detached node changes nothing.
   */
  lemma RemoveFreeList(h: State, b: int)
    requires FreeList(h) && b > NULL && (b in h.frees || Detached(h, b))
    ensures b in h.nextFree && b in h.prevFree
    ensures FreeList(RemoveFree(h, b)) && RemoveFree(h, b).frees == Without(h.frees, b)
    ensures Detached(RemoveFree(h, b), b)
    ensures b !in h.frees ==> RemoveFree(h, b) == h
  {
    UnlinkNode(h.frees, h.nextFree, h.prevFree, h.freeHead, b);
  }

  // ---------------------------------------------------------------------
  // The block list

  /**
   * Linking b in keeps the block list linked and, if it was in address
   * order, in address order; a block above every other is appended; and
   * unlinking b again gives the old order back.
   */
  lemma AddBlockList(h: State, b: int)
    requires BlockList(h) && b > NULL && b !in h.blocks
    ensures BlockList(AddBlock(h, b))
    ensures b in AddBlock(h, b).blocks && Without(AddBlock(h, b).blocks, b) == h.blocks
    ensures Precedes(h.blocks, b) ==> AddBlock(h, b).blocks == h.blocks + [b]
    ensures Ascending(h.blocks) ==> Ascending(AddBlock(h, b).blocks)
  {
    var s := h.blocks;
    InsertDouble(s, h.nextBlock, h.prevBlock, h.head, h.tail, Gap(s, b), b);
    AddBlockOrder(s, b);
  }

  lemma AddBlockOrder(s: seq<int>, b: int)
    requires b !in s
    ensures Precedes(s, b) ==> s[..Gap(s, b)] + [b] + s[Gap(s, b)..] == s + [b]
    ensures Ascending(s) ==> Ascending(s[..Gap(s, b)] + [b] + s[Gap(s, b)..])
  {
    var k := Gap(s, b);
    if Precedes(s, b) {
      GapEnd(s, b);
      assert s[..|s|] + [b] + s[|s|..] == s + [b];
    }
    if Ascending(s) {
      InsertAscending(s, k, b);
    }
  }

  /** Unlinking a block keeps the rest of the block list linked in order. */
  lemma RemoveBlockList(h: State, b: int)
    requires BlockList(h) && b in h.blocks
    ensures b in h.nextBlock && b in h.prevBlock
    ensures BlockList(RemoveBlock(h, b)) && RemoveBlock(h, b).blocks == Without(h.blocks, b)
  {
    UnlinkDouble(h.blocks, h.nextBlock, h.prevBlock, h.head, h.tail, b);
  }

  // ---------------------------------------------------------------------
  // Split

  lemma SplitList(h: State, b: int, n: int)
    requires BlockList(h) && b in h.blocks && b in h.size && b in h.nextBlock && 0 < n <= h.size[b]
    requires b + n !in h.blocks && Distinct(h.blocks)
    ensures BlockList(SplitOf(h, b, n)) && b + n in SplitOf(h, b, n).blocks
    ensures Pred(SplitOf(h, b, n), b + n) == b && Succ(SplitOf(h, b, n), b + n) == Succ(h, b)
  {
    var s := h.blocks;
    var i := IndexOf(s, b);
    var nb := b + n;
    LinksOf(h, b);
    InsertDouble(s, h.nextBlock, h.prevBlock, h.head, h.tail, i + 1, nb);
    var t := SplitOf(h, b, n).blocks;
    InsertAtIndex(s, i + 1, nb);
    IndexOfDistinct(t, i + 1);
  }

  /** The new header lies strictly inside b, so no block starts there yet. */
  lemma SplitFreshAt(h: State, b: int, n: int)
    requires Layout(h) && b in h.blocks && b in h.size && 0 < n < h.size[b]
    ensures b + n !in h.blocks && Distinct(h.blocks)
  {
    var s := h.blocks;
    TiledAscending(s, h.size, h.base, h.brk);
    AscendingDistinct(s);
    SplitFresh(s, h.size, h.base, h.brk, IndexOf(s, b), n);
  }

  lemma SplitLayout(h: State, b: int, n: int)
    requires Layout(h) && b in h.blocks && b in h.nextBlock
    requires n >= MIN_BLOCK && n % 16 == 0 && b in h.size && h.size[b] >= n + MIN_BLOCK
    ensures Layout(SplitOf(h, b, n))
  {
    var s := h.blocks;
    var i := IndexOf(s, b);
    TiledAscending(s, h.size, h.base, h.brk);
    TiledSplit(s, h.size, h.base, h.brk, i, n);
    NamedInsert(s, h.name, i + 1, b + n, ZeroName());
  }

  lemma SplitFlags(h: State, b: int, n: int)
    requires Flags(h, NULL) && NonNull(h.blocks) && b in h.blocks && b in h.nextBlock && b in h.size && 0 <= n <= h.size[b]
    ensures Flags(SplitOf(h, b, n), b + n)
  {
    var s := h.blocks;
    FlagsInsert(s, h.frees, h.isFree, IndexOf(s, b) + 1, b + n, true);
  }

  lemma SplitCoalesced(h: State, b: int, n: int)
    requires Coalesced(h.blocks, h.isFree) && NonNull(h.blocks) && b in h.blocks && b in h.nextBlock && b in h.size
    requires 0 <= n <= h.size[b] && b + n !in h.blocks
    ensures CoalescedAround(SplitOf(h, b, n).blocks, SplitOf(h, b, n).isFree, b + n)
  {
    var s := h.blocks;
    CoalescedInsert(s, h.isFree, IndexOf(s, b) + 1, b + n, true);
  }

  lemma SplitAlloc(h: State, b: int, n: int)
    requires b in h.blocks && b in h.size && 0 <= n <= h.size[b] && b in h.nextBlock && b + n !in h.blocks
    ensures var A := Allocated(h);
      Allocated(SplitOf(h, b, n)) == if b in A then A[b := Alloc(n, h.name[b])] else A
  {
    AllocSplit(h.blocks, h.isFree, h.size, h.name, IndexOf(h.blocks, b), n, ZeroName());
  }

  /**
   * A split of a block with room for a header and a free node past n leaves
   * the heap well formed with the new block b + n free but not yet on the
   * free list, right after b and before b's old successor; b is n bytes
   * now, and nothing else in use changes.
   */
  lemma SplitKeeps(h: State, b: int, n: int)
    requires Wf(h, NULL) && b in h.blocks
    requires n >= MIN_BLOCK && n % 16 == 0 && b in h.size && h.size[b] >= n + MIN_BLOCK
    ensures b in h.nextBlock && b + n !in h.blocks
    ensures var h' := SplitOf(h, b, n);
      Wf(h', b + n) && Flag(h'.isFree, b + n) && h'.frees == h.frees && b + n in h'.blocks &&
      Pred(h', b + n) == b && Succ(h', b + n) == Succ(h, b) &&
      (Coalesced(h.blocks, h.isFree) ==> CoalescedAround(h'.blocks, h'.isFree, b + n))
    ensures var A := Allocated(h);
      Allocated(SplitOf(h, b, n)) == if b in A then A[b := Alloc(n, h.name[b])] else A
  {
    LinksOf(h, b);
    SplitFreshAt(h, b, n);
    SplitLayout(h, b, n);
    SplitFlags(h, b, n);
    if Coalesced(h.blocks, h.isFree) {
      SplitCoalesced(h, b, n);
    }
    SplitList(h, b, n);
    SplitAlloc(h, b, n);
  }

  /**
   * A block in use split at n, with the piece after it put on the free
   * list: the heap is well formed, the free piece is free-listed, b keeps n
   * bytes, and if b's old successor was not free the heap is coalesced.
   */
  lemma SplitThenFree(h: State, b: int, n: int)
    requires Wf(h, NULL) && Coalesced(h.blocks, h.isFree) && b in h.blocks && !Flag(h.isFree, b)
    requires n >= MIN_BLOCK && n % 16 == 0 && b in h.size && h.size[b] >= n + MIN_BLOCK
    ensures b in h.nextBlock && b + n !in h.blocks && b + n > NULL
    ensures var h1 := SplitOf(h, b, n);
      b + n !in h1.frees && var h2 := AddFree(h1, b + n);
      Wf(h2, NULL) && b + n in h2.frees && h2.blocks == h1.blocks && h2.isFree == h1.isFree && b + n in h2.blocks &&
      CoalescedAround(h2.blocks, h2.isFree, b + n) && Pred(h2, b + n) == b && !Flag(h2.isFree, b) &&
      Allocated(h2) == Allocated(h)[b := Alloc(n, h.name[b])] &&
      (NotFree(h.isFree, Succ(h, b)) ==> Valid(h2))
  {
    SplitKeeps(h, b, n);
    HeaderOf(h, NULL, b);
    LinksOf(h, b);
    var nb := b + n;
    var h1 := SplitOf(h, b, n);
    var h2 := AddFree(h1, nb);
    assert nb !in h1.frees;
    AddFreeList(h1, nb);
    FlagsJoin(h1.blocks, h1.frees, h1.isFree, nb);
    if NotFree(h.isFree, Succ(h, b)) {
      assert Succ(h2, nb) == Succ(h, b);
      assert Succ(h, b) != nb;
      CloseAround(h2, nb);
    }
  }

  // ---------------------------------------------------------------------
  // Merges

  /**
   * Block b at position i absorbs a free successor: the facts each part of
   * the proof below starts from.
   */
  ghost predicate AbsorbsAt(h: State, b: int, i: int)
  {
    Mergeable(h, b) && Distinct(h.blocks) && 0 <= i < |h.blocks| - 1 && h.blocks[i] == b &&
    h.nextBlock[b] == h.blocks[i + 1] && h.blocks[i + 1] != NULL && Flag(h.isFree, h.blocks[i + 1])
  }

  lemma MergeNextLists(h: State, b: int, i: int)
    requires AbsorbsAt(h, b, i) && BlockList(h) && FreeList(h)
    requires var x := h.blocks[i + 1]; x in h.frees || Detached(h, x)
    ensures var h' := MergeNextOf(h, b); var x := h.blocks[i + 1];
      BlockList(h') && FreeList(h') && h'.blocks == Without(h.blocks, x) && h'.frees == Without(h.frees, x) &&
      b in h'.blocks && Pred(h', b) == Pred(h, b)
  {
    var s := h.blocks;
    var x := s[i + 1];
    assert LinkAt(s, h.nextBlock, h.prevBlock, i + 1);
    LinkedNonNull(s, h.nextBlock, h.prevBlock);
    IndexOfDistinct(s, i + 1);
    RemoveFreeList(h, x);
    UnlinkDouble(s, h.nextBlock, h.prevBlock, h.head, h.tail, x);
    MergeNextPlace(h, b, i);
  }

  /** After the merge b is still at position i, and the block after it was two places on. */
  lemma MergeNextPlace(h: State, b: int, i: int)
    requires AbsorbsAt(h, b, i)
    ensures var t := MergeNextOf(h, b).blocks;
      t == h.blocks[..i + 1] + h.blocks[i + 2..] && b in t && IndexOf(t, b) == i && IndexOf(h.blocks, b) == i &&
      PrevOf(t, i) == PrevOf(h.blocks, i) && NextOf(t, i) == (if i + 2 < |h.blocks| then h.blocks[i + 2] else NULL)
  {
    var s := h.blocks;
    IndexOfDistinct(s, i);
    RemoveAtDistinct(s, i + 1);
    RemoveAtIndex(s, i + 1);
    IndexOfDistinct(s[..i + 1] + s[i + 2..], i);
  }

  lemma MergeNextLayout(h: State, b: int, i: int)
    requires AbsorbsAt(h, b, i) && Layout(h)
    ensures var h' := MergeNextOf(h, b); var x := h.blocks[i + 1];
      Layout(h') && x in h.size && h'.size == h.size[b := h.size[b] + h.size[x]]
  {
    var s := h.blocks;
    TiledMerge(s, h.size, h.base, h.brk, i);
    RemoveAtDistinct(s, i + 1);
    NamedWithout(s, h.name, s[i + 1]);
  }

  lemma MergeNextFlags(h: State, b: int, i: int, e: int)
    requires AbsorbsAt(h, b, i) && Flags(h, e) && (e == NULL || e == h.blocks[i + 1]) && Distinct(h.frees)
    ensures Flags(MergeNextOf(h, b), NULL)
  {
    FlagsRemove(h.blocks, h.frees, h.isFree, e, h.blocks[i + 1]);
  }

  lemma MergeNextCoalesced(h: State, b: int, i: int)
    requires AbsorbsAt(h, b, i) && CoalescedAround(h.blocks, h.isFree, b)
    ensures var h' := MergeNextOf(h, b);
      CoalescedAround(h'.blocks, h'.isFree, b) && NotFree(h'.isFree, Succ(h', b))
  {
    CoalescedMergeNext(h.blocks, h.isFree, i);
    MergeNextPlace(h, b, i);
  }

  lemma MergeNextAlloc(h: State, b: int, i: int)
    requires AbsorbsAt(h, b, i)
    ensures var A := Allocated(h); var h' := MergeNextOf(h, b);
      b in h'.size && Allocated(h') == if b in A then A[b := Alloc(h'.size[b], h.name[b])] else A
  {
    var s := h.blocks;
    var x := s[i + 1];
    AllocRemoveFree(s, h.isFree, h.size, h.name, x);
    AllocResize(Without(s, x), h.isFree, h.size, h.name, b, h.size[b] + h.size[x]);
  }

  /**
   * `merge_with_next` leaves a well-formed heap in which b has absorbed a
   * free successor, which is gone from both lists, or nothing changed.
   */
  lemma MergeNextKeeps(h: State, b: int, e: int)
    requires MergeReady(h, b, e)
    ensures Mergeable(h, b)
    ensures var h' := MergeNextOf(h, b);
      Wf(h', NULL) && b in h'.blocks && Pred(h', b) == Pred(h, b) && h'.isFree == h.isFree && h'.name == h.name
    ensures var h' := MergeNextOf(h, b); var x := Succ(h, b);
      x != NULL && Flag(h.isFree, x) ==>
        b in h.size && x in h.size && h'.size == h.size[b := h.size[b] + h.size[x]] &&
        h'.blocks == Without(h.blocks, x) && h'.frees == Without(h.frees, x)
    ensures var x := Succ(h, b); x == NULL || !Flag(h.isFree, x) ==> MergeNextOf(h, b) == h
  {
    MergeLookups(h, b, e);
    var x := Succ(h, b);
    if x != NULL && Flag(h.isFree, x) {
      MergeNextAbsorbs(h, b, e);
      var i := MergeSetup(h, b, e);
      MergeNextLists(h, b, i);
      MergeNextLayout(h, b, i);
    }
  }

  /** Around b the heap stays coalesced, and b's successor is now in use. */
  lemma MergeNextCoalesces(h: State, b: int, e: int)
    requires MergeReady(h, b, e)
    ensures Mergeable(h, b)
    ensures var h' := MergeNextOf(h, b);
      CoalescedAround(h.blocks, h.isFree, b) ==>
        b in h'.blocks && CoalescedAround(h'.blocks, h'.isFree, b) && NotFree(h'.isFree, Succ(h', b))
  {
    MergeLookups(h, b, e);
    var x := Succ(h, b);
    if x != NULL && Flag(h.isFree, x) {
      var i := MergeSetup(h, b, e);
      if CoalescedAround(h.blocks, h.isFree, b) {
        MergeNextCoalesced(h, b, i);
      }
    }
  }

  /** Only b's own entry among the blocks in use can change: it grows. */
  lemma MergeNextAllocated(h: State, b: int, e: int)
    requires MergeReady(h, b, e)
    ensures Mergeable(h, b)
    ensures var A := Allocated(h); var h' := MergeNextOf(h, b);
      b in h'.size && Allocated(h') == if b in A then A[b := Alloc(h'.size[b], h.name[b])] else A
  {
    MergeLookups(h, b, e);
    var x := Succ(h, b);
    if x != NULL && Flag(h.isFree, x) {
      var i := MergeSetup(h, b, e);
      MergeNextAlloc(h, b, i);
    } else {
      AllocResize(h.blocks, h.isFree, h.size, h.name, b, h.size[b]);
      assert h.size[b := h.size[b]] == h.size;
    }
  }

  lemma MergeNextAbsorbs(h: State, b: int, e: int)
    requires MergeReady(h, b, e) && Succ(h, b) != NULL && Flag(h.isFree, Succ(h, b))
    ensures Mergeable(h, b) && Wf(MergeNextOf(h, b), NULL)
  {
    var i := MergeSetup(h, b, e);
    MergeNextLists(h, b, i);
    MergeNextLayout(h, b, i);
    MergeNextFlags(h, b, i, e);
  }

  /** A free b stays on the free list while it absorbs its successor. */
  lemma MergeNextKeepsFree(h: State, b: int, e: int)
    requires MergeReady(h, b, e) && b in h.frees
    ensures Mergeable(h, b) && b in MergeNextOf(h, b).frees
  {
    MergeLookups(h, b, e);
    var x := Succ(h, b);
    if x != NULL && Flag(h.isFree, x) {
      var i := MergeSetup(h, b, e);
      assert Differ(h.blocks, i, i + 1);
      WithoutMembers(h.frees, x);
    }
  }

  /** Where b sits, and what is known of it and its successor. */
  lemma MergeSetup(h: State, b: int, e: int) returns (i: int)
    requires MergeReady(h, b, e) && Succ(h, b) != NULL && Flag(h.isFree, Succ(h, b))
    ensures AbsorbsAt(h, b, i) && BlockList(h) && FreeList(h) && Layout(h) && Distinct(h.frees)
    ensures Succ(h, b) == h.blocks[i + 1] && Flags(h, e) && (e == NULL || e == h.blocks[i + 1])
    ensures h.blocks[i + 1] in h.frees || Detached(h, h.blocks[i + 1])
  {
    MergeLookups(h, b, e);
    i := IndexOf(h.blocks, b);
  }

  /**
   * `merge_with_prev` on a free-listed block leaves a well-formed heap in
   * which b's free predecessor has absorbed b, which is gone from both lists,
   * or nothing changed.  If b was the only exception to coalescing and its
   * successor is in use, the heap is coalesced.  No block in use changes.
   */
  lemma MergePrevKeeps(h: State, b: int)
    requires Wf(h, NULL) && b in h.frees
    ensures Wf(MergePrevOf(h, b), NULL) && b in h.blocks
    ensures var h' := MergePrevOf(h, b); var p := Pred(h, b);
      if p != NULL && Flag(h.isFree, p) then
        b in h.size && p in h.size && h'.size == h.size[p := h.size[p] + h.size[b]] &&
        h'.blocks == Without(h.blocks, b) && h'.frees == Without(h.frees, b)
      else h' == h
    ensures CoalescedAround(h.blocks, h.isFree, b) && NotFree(h.isFree, Succ(h, b)) ==> Valid(MergePrevOf(h, b))
    ensures Allocated(MergePrevOf(h, b)) == Allocated(h)
  {
    MergePrevLookups(h, b);
    var p := Pred(h, b);
    var s := h.blocks;
    var i := IndexOf(s, b);
    HeaderOf(h, NULL, b);
    if p != NULL && Flag(h.isFree, p) {
      LinksOf(h, b);
      RemoveFreeList(h, b);
      UnlinkDouble(s, h.nextBlock, h.prevBlock, h.head, h.tail, b);
      TiledMerge(s, h.size, h.base, h.brk, i - 1);
      RemoveAtDistinct(s, i);
      NamedWithout(s, h.name, b);
      FlagsRemove(s, h.frees, h.isFree, NULL, b);
      if CoalescedAround(s, h.isFree, b) && NotFree(h.isFree, Succ(h, b)) {
        CoalescedMergePrev(s, h.isFree, i);
      }
      AllocRemoveFree(s, h.isFree, h.size, h.name, b);
      AllocResize(Without(s, b), h.isFree, h.size, h.name, p, h.size[p] + h.size[b]);
    } else if CoalescedAround(s, h.isFree, b) && NotFree(h.isFree, Succ(h, b)) {
      CloseAround(h, b);
    }
  }

  /** Around a block whose neighbours are both in use, the exemption can be dropped. */
  lemma CloseAround(h: State, x: int)
    requires BlockList(h) && x in h.blocks && CoalescedAround(h.blocks, h.isFree, x)
    requires NotFree(h.isFree, Pred(h, x)) && NotFree(h.isFree, Succ(h, x))
    ensures Coalesced(h.blocks, h.isFree)
  {
    LinksOf(h, x);
    CoalescedClose(h.blocks, h.isFree, IndexOf(h.blocks, x));
  }

  /** In a coalesced heap a free block's neighbours are in use. */
  lemma FreeNeighbours(h: State, x: int)
    requires BlockList(h) && x in h.blocks && Coalesced(h.blocks, h.isFree) && Flag(h.isFree, x)
    ensures NotFree(h.isFree, Pred(h, x)) && NotFree(h.isFree, Succ(h, x))
  {
    LinksOf(h, x);
    var i := IndexOf(h.blocks, x);
    if i > 0 {
      assert ApartAt(h.blocks, h.isFree, NULL, i - 1);
    }
    if i + 1 < |h.blocks| {
      assert ApartAt(h.blocks, h.isFree, NULL, i);
    }
  }

  // ---------------------------------------------------------------------
  // The public operations, step by step

  /**
   * `malloc` reusing the free block r: clearing its free bit and unlinking
   * it leaves a coalesced heap in which r is in use, with its old size and
   * name, and its successor is in use.
   */
  lemma ReuseKeeps(h: State, r: int)
    requires Valid(h) && r in h.frees
    ensures r in h.nextFree && r in h.prevFree && r in h.blocks && r in h.size && r in h.name
    ensures var h1 := RemoveFree(SetFlag(h, r, false), r);
      Wf(h1, NULL) && Coalesced(h1.blocks, h1.isFree) && h1.blocks == h.blocks && !Flag(h1.isFree, r) &&
      NotFree(h1.isFree, Succ(h1, r)) && h1.size == h.size && r !in Allocated(h) &&
      Allocated(h1) == Allocated(h)[r := Alloc(h.size[r], h.name[r])] &&
      h1.frees == Without(h.frees, r) && h1.name == h.name && h1.brk == h.brk
  {
    var s := h.blocks;
    var h0 := SetFlag(h, r, false);
    HeaderOf(h, NULL, r);
    LinksOf(h, r);
    NodeOf(h, r);
    FreeNeighbours(h, r);
    var i := IndexOf(s, r);
    assert Succ(h, r) != r by {
      DistinctPairs(s);
    }
    CoalescedSet(s, h.isFree, r, false);
    RemoveFreeList(h0, r);
    FlagsDrop(s, h.frees, h.isFree, r);
    FlagsExempt(s, Without(h.frees, r), h.isFree, r, r, false);
    FlagsSettle(s, Without(h.frees, r), h0.isFree, r);
    AllocFlip(s, h.isFree, h.size, h.name, r, false);
  }

  /**
   * `malloc` on fresh memory: the page-sized block in use at the old break
   * is appended to the block list, and the heap is coalesced and well formed.
   */
  lemma GrowKeeps(h: State, n: int)
    requires Valid(h) && n >= MIN_BLOCK && n % 16 == 0 && h.brk + n <= h.base + HEAP_LIMIT
    ensures h.brk !in h.blocks && h.brk > NULL && BlockList(NewBlock(h, n))
    ensures var g := AddBlock(NewBlock(h, n), h.brk);
      Valid(g) && g.blocks == h.blocks + [h.brk] && g.brk == h.brk + n && !Flag(g.isFree, h.brk) &&
      h.brk in g.size && g.size[h.brk] == n && Succ(g, h.brk) == NULL &&
      Allocated(g) == Allocated(h)[h.brk := Alloc(n, ZeroName())]
  {
    GrowList(h, n);
    GrowLayout(h, n);
    GrowFlags(h, n);
    GrowCoalesced(h, n);
    AllocAddUsed(h.blocks, h.isFree, h.size, h.name, h.brk, n, ZeroName());
  }

  /** The block at the old break is appended to the block list. */
  lemma GrowList(h: State, n: int)
    requires BlockList(h) && Layout(h) && n >= 0
    ensures h.brk !in h.blocks && h.brk > NULL && NonNull(h.blocks) && BlockList(NewBlock(h, n))
    ensures var g := AddBlock(NewBlock(h, n), h.brk);
      BlockList(g) && g.blocks == h.blocks + [h.brk] && Succ(g, h.brk) == NULL
  {
    var s := h.blocks;
    var b := h.brk;
    TiledPrecedes(s, h.size, h.base, h.brk);
    TiledAscending(s, h.size, h.base, h.brk);
    TiledAppend(s, h.size, h.base, h.brk, MIN_BLOCK);
    LinkedFrame(s, h.nextBlock, h.prevBlock, b, NULL, NULL);
    LinkedNonNull(s, h.nextBlock, h.prevBlock);
    var g0 := NewBlock(h, n);
    AddBlockList(g0, b);
    IndexOfDistinct(s + [b], |s|);
  }

  lemma GrowLayout(h: State, n: int)
    requires Layout(h) && n >= MIN_BLOCK && n % 16 == 0 && h.brk + n <= h.base + HEAP_LIMIT
    requires AddBlock(NewBlock(h, n), h.brk).blocks == h.blocks + [h.brk]
    ensures Layout(AddBlock(NewBlock(h, n), h.brk))
  {
    var s := h.blocks;
    TiledAscending(s, h.size, h.base, h.brk);
    TiledAppend(s, h.size, h.base, h.brk, n);
    NamedInsert(s, h.name, |s|, h.brk, ZeroName());
    assert s[..|s|] + [h.brk] + s[|s|..] == s + [h.brk];
  }

  lemma GrowFlags(h: State, n: int)
    requires Flags(h, NULL) && NonNull(h.blocks) && n >= 0 && h.brk !in h.blocks
    requires AddBlock(NewBlock(h, n), h.brk).blocks == h.blocks + [h.brk]
    ensures Flags(AddBlock(NewBlock(h, n), h.brk), NULL) && !Flag(AddBlock(NewBlock(h, n), h.brk).isFree, h.brk)
  {
    var s := h.blocks;
    FlagsInsert(s, h.frees, h.isFree, |s|, h.brk, false);
    assert s[..|s|] + [h.brk] + s[|s|..] == s + [h.brk];
  }

  lemma GrowCoalesced(h: State, n: int)
    requires Coalesced(h.blocks, h.isFree) && NonNull(h.blocks) && n >= 0 && h.brk !in h.blocks
    requires AddBlock(NewBlock(h, n), h.brk).blocks == h.blocks + [h.brk]
    ensures Coalesced(AddBlock(NewBlock(h, n), h.brk).blocks, AddBlock(NewBlock(h, n), h.brk).isFree)
  {
    var s := h.blocks;
    CoalescedInsert(s, h.isFree, |s|, h.brk, false);
    assert s[..|s|] + [h.brk] + s[|s|..] == s + [h.brk];
    CoalescedUsed(s + [h.brk], h.isFree[h.brk := false], h.brk);
  }

  /**
   * The start of `free`: setting b's free bit and appending it to the free
   * list leaves a well-formed heap, coalesced except around b, in which b
   * is no longer in use.
   */
  lemma FreedKeeps(h: State, b: int)
    requires Valid(h) && b in Allocated(h)
    ensures b > NULL && b !in h.frees
    ensures var h1 := AddFree(SetFlag(h, b, true), b);
      Wf(h1, NULL) && b in h1.frees && b in h1.blocks && Flag(h1.isFree, b) && h1.blocks == h.blocks &&
      CoalescedAround(h1.blocks, h1.isFree, b) && Allocated(h1) == Allocated(h) - {b}
  {
    var s := h.blocks;
    var h0 := SetFlag(h, b, true);
    LinksOf(h, b);
    HeaderOf(h, NULL, b);
    FlagsExempt(s, h.frees, h.isFree, NULL, b, true);
    AddFreeList(h0, b);
    FlagsJoin(s, h.frees, h0.isFree, b);
    CoalescedSet(s, h.isFree, b, true);
    AllocFlip(s, h.isFree, h.size, h.name, b, true);
  }

  /**
   * The start of `realloc` growing into its free successor x: unlinking x
   * from the free list leaves the state `merge_with_next` accepts.
   */
  lemma ExpandKeeps(h: State, b: int)
    requires Valid(h) && b in h.blocks && !Flag(h.isFree, b) && Succ(h, b) != NULL && Flag(h.isFree, Succ(h, b))
    ensures Succ(h, b) in h.nextFree && Succ(h, b) in h.prevFree
    ensures var h1 := RemoveFree(h, Succ(h, b));
      MergeReady(h1, b, Succ(h, b)) && Coalesced(h1.blocks, h1.isFree) && Allocated(h1) == Allocated(h) && h1.blocks == h.blocks
  {
    var x := Succ(h, b);
    var s := h.blocks;
    LinksOf(h, b);
    assert x == s[IndexOf(s, b) + 1];
    HeaderOf(h, NULL, x);
    LinksOf(h, x);
    RemoveFreeList(h, x);
    FlagsDrop(s, h.frees, h.isFree, x);
  }

  /**
   * One round of the release loop leaves a coalesced, well-formed heap one
   * block shorter, with the break moved down by that block's size and no
   * block in use changed.
   */
  lemma ReleaseKeeps(h: State)
    requires Valid(h) && Releasable(h)
    ensures Valid(Release(h)) && Allocated(Release(h)) == Allocated(h)
    ensures h.blocks != [] && Release(h).blocks == h.blocks[..|h.blocks| - 1]
    ensures Release(h).brk == h.brk - h.size[h.tail] && Release(h).base == h.base
  {
    TailLookups(h);
    var s := h.blocks;
    var t := h.tail;
    var h1 := RemoveFree(h, t);
    RemoveFreeList(h, t);
    RemoveBlockList(h1, t);
    RemoveAtDistinct(s, |s| - 1);
    assert s[..|s| - 1] + s[|s|..] == s[..|s| - 1];
    TiledPop(s, h.size, h.base, h.brk);
    FlagsRemove(s, h.frees, h.isFree, NULL, t);
    CoalescedPop(s, h.isFree);
    AllocRemoveFree(s, h.isFree, h.size, h.name, t);
  }

  /**
   * In a coalesced heap the release loop runs at most once: the block
   * before a free last block is in use.
   */
  lemma ReleaseOnce(h: State)
    requires Valid(h) && Releasable(h)
    ensures !Releasable(Release(h))
  {
    TailLookups(h);
    ReleaseKeeps(h);
    var s := h.blocks;
    FreeNeighbours(h, h.tail);
    IndexOfDistinct(s, |s| - 1);
    if |s| > 1 {
      assert Release(h).tail == s[|s| - 2];
    }
  }

  /** A block in use is a block with its header in place and its free bit clear. */
  lemma AllocatedLookups(h: State, b: int)
    requires Wf(h, NULL) && b in Allocated(h)
    ensures b in h.blocks && b in h.size && b in h.isFree && !h.isFree[b] && b in h.name
    ensures Allocated(h)[b] == Alloc(h.size[b], h.name[b])
  {
  }

  /**
   * `malloc_name`: writing a new eight-byte name into the header of a
   * block in use keeps the heap valid and changes only that block's name.
   */
  lemma RenameKeeps(h: State, b: int, nm: seq<char>)
    requires Valid(h) && b in Allocated(h) && |nm| == NAME_LEN
    ensures Valid(h.(name := h.name[b := nm]))
    ensures Allocated(h.(name := h.name[b := nm])) == Allocated(h)[b := Alloc(Allocated(h)[b].size, nm)]
  {
    AllocRename(h.blocks, h.isFree, h.size, h.name, b, nm);
  }

  /** The empty heap is valid and holds nothing in use. */
  lemma EmptyValid(base: int)
    requires base > NULL
    ensures Valid(Empty(base)) && Allocated(Empty(base)) == map[]
  {
  }

  /**
   * The blocks in use in a well-formed heap are disjoint byte ranges inside
   * [base, brk), each starting a multiple of 16 bytes past `base`.
   */
  lemma AllocatedDisjoint(h: State, a: int, c: int)
    requires Wf(h, NULL) && a in Allocated(h) && c in Allocated(h) && a < c
    ensures h.base <= a && a + Allocated(h)[a].size <= c && c + Allocated(h)[c].size <= h.brk
    ensures (a - h.base) % 16 == 0
  {
    var s := h.blocks;
    var i := IndexOf(s, a);
    var j := IndexOf(s, c);
    TiledAscending(s, h.size, h.base, h.brk);
    HeaderOf(h, NULL, a);
    HeaderOf(h, NULL, c);
    assert Allocated(h)[a] == Alloc(h.size[a], h.name[a]);
    assert Allocated(h)[c] == Alloc(h.size[c], h.name[c]);
    TiledAligned(s, h.size, h.base, h.brk, i);
    assert i < j by {
      if j < i {
        AscendingLess(s, j, i);
      }
    }
    TiledDisjoint(s, h.size, h.base, h.brk, i, j);
  }

  // ---------------------------------------------------------------------
  // The public operations as values

  /**
   * The split that ends `malloc` and `realloc` on a block b in use whose
   * successor is in use: b keeps n bytes when the rest is big enough for a
   * block, which is appended to the free list; otherwise b keeps all its
   * bytes.  The heap stays valid and no other block in use changes.
   */
  ghost function TrimOf(h: State, b: int, n: int): (h': State)
    requires Valid(h) && b in h.blocks && !Flag(h.isFree, b) && NotFree(h.isFree, Succ(h, b))
    requires b in h.size && MIN_BLOCK <= n <= h.size[b] && n % 16 == 0
    ensures Valid(h') && h'.brk == h.brk && b in Allocated(h) && b in h.name
    ensures var split := h.size[b] >= n + MIN_BLOCK;
      Allocated(h') == Allocated(h)[b := Alloc(if split then n else h.size[b], h.name[b])] &&
      h'.frees == h.frees + (if split then [b + n] else [])
  {
    LinksOf(h, b);
    HeaderOf(h, NULL, b);
    if h.size[b] >= n + MIN_BLOCK then
      SplitThenFree(h, b, n);
      AddFree(SplitOf(h, b, n), b + n)
    else
      AllocatedLookups(h, b);
      assert Allocated(h)[b := Alloc(h.size[b], h.name[b])] == Allocated(h);
      h
  }

  /**
   * `malloc` reusing the free block r for n bytes: r leaves the free list
   * and comes into use with its name, then is trimmed to n bytes.
   */
  ghost function ReusedOf(h: State, r: int, n: int): (h': State)
    requires Valid(h) && r in h.frees && r in h.size && MIN_BLOCK <= n <= h.size[r] && n % 16 == 0
    ensures Valid(h') && h'.brk == h.brk && r !in Allocated(h) && r in h.name
    ensures var split := h.size[r] >= n + MIN_BLOCK;
      Allocated(h') == Allocated(h)[r := Alloc(if split then n else h.size[r], h.name[r])] &&
      h'.frees == Without(h.frees, r) + (if split then [r + n] else [])
  {
    ReuseKeeps(h, r);
    var h1 := RemoveFree(SetFlag(h, r, false), r);
    UpdateTwice(Allocated(h), r, Alloc(h.size[r], h.name[r]), Alloc(if h.size[r] >= n + MIN_BLOCK then n else h.size[r], h.name[r]));
    TrimOf(h1, r, n)
  }

  /**
   * `malloc` on `page` fresh bytes at the old break: a block in use with a
   * cleared name is appended there, then trimmed to n bytes.
   */
  ghost function FreshOf(h: State, page: int, n: int): (h': State)
    requires Valid(h) && MIN_BLOCK <= n <= page && n % 16 == 0 && page % 16 == 0 && h.brk + page <= h.base + HEAP_LIMIT
    ensures Valid(h') && h'.brk == h.brk + page && h.brk !in Allocated(h)
    ensures var split := page >= n + MIN_BLOCK;
      h.brk in Allocated(h') && Allocated(h') == Allocated(h)[h.brk := Allocated(h')[h.brk]] &&
      Allocated(h')[h.brk].size == (if split then n else page) && Allocated(h')[h.brk].name == ZeroName() &&
      h'.frees == h.frees + (if split then [h.brk + n] else [])
  {
    GrowKeeps(h, page);
    var g := AddBlock(NewBlock(h, page), h.brk);
    UpdateTwice(Allocated(h), h.brk, Alloc(page, ZeroName()), Alloc(if page >= n + MIN_BLOCK then n else page, ZeroName()));
    TrimOf(g, h.brk, n)
  }

  /**
   * `free` before its release loop: b is marked free and appended to the
   * free list, absorbs a free successor, then merges into a free
   * predecessor.  The heap is valid again and b is no longer in use.
   */
  ghost function FreedOf(h: State, b: int): (h': State)
    requires Valid(h) && b in Allocated(h)
    ensures Valid(h') && Allocated(h') == Allocated(h) - {b} && h'.brk == h.brk
  {
    FreedKeeps(h, b);
    var h1 := AddFree(SetFlag(h, b, true), b);
    MergeNextKeeps(h1, b, NULL);
    MergeNextCoalesces(h1, b, NULL);
    MergeNextAllocated(h1, b, NULL);
    MergeNextKeepsFree(h1, b, NULL);
    var h2 := MergeNextOf(h1, b);
    MergePrevKeeps(h2, b);
    MergePrevOf(h2, b)
  }

  /**
   * Where `free` leaves b before its release loop.  A free successor x
   * leaves both lists and its bytes join b's.  Then a free predecessor p
   * absorbs b, keeping its own place on the free list; without one, b
   * stays the last entry of the free list with the joined bytes.
   */
  lemma FreedExact(h: State, b: int)
    requires Valid(h) && b in Allocated(h)
    ensures b in h.blocks && b in h.size && b !in h.frees
    ensures Succ(h, b) != NULL ==> Succ(h, b) in h.size
    ensures Pred(h, b) != NULL ==> Pred(h, b) in h.size
    ensures var x := Succ(h, b); var p := Pred(h, b); var h' := FreedOf(h, b);
      var nf := x != NULL && Flag(h.isFree, x);
      var pf := p != NULL && Flag(h.isFree, p);
      var joined := if nf then h.size[b] + h.size[x] else h.size[b];
      var fs := if nf then Without(h.frees, x) else h.frees;
      var bs := if nf then Without(h.blocks, x) else h.blocks;
      (pf ==> p in h'.size && h'.size[p] == h.size[p] + joined && h'.frees == fs && h'.blocks == Without(bs, b)) &&
      (!pf ==> b in h'.size && h'.size[b] == joined && h'.frees == fs + [b] && h'.blocks == bs)
  {
    FreedNext(h, b);
    FreedNextWf(h, b);
    FreedPrev(h, b);
    var h2 := MergeNextOf(AddFree(SetFlag(h, b, true), b), b);
    var x := Succ(h, b);
    var fs := if x != NULL && Flag(h.isFree, x) then Without(h.frees, x) else h.frees;
    assert FreedOf(h, b) == MergePrevOf(h2, b);
    PrevExact(h2, b, fs);
  }

  /** `merge_with_prev` on b, the last entry of the free list. */
  lemma PrevExact(h: State, b: int, fs: seq<int>)
    requires Wf(h, NULL) && b in h.frees && b !in fs && h.frees == fs + [b]
    ensures b in h.blocks && b in h.size && (Pred(h, b) != NULL ==> Pred(h, b) in h.size)
    ensures var p := Pred(h, b); var h' := MergePrevOf(h, b);
      if p != NULL && Flag(h.isFree, p) then
        p in h'.size && h'.size[p] == h.size[p] + h.size[b] && h'.frees == fs && h'.blocks == Without(h.blocks, b)
      else h' == h
  {
    MergePrevLookups(h, b);
    InsertWithout(fs, |fs|, b);
    assert fs[..|fs|] + [b] + fs[|fs|..] == fs + [b];
  }

  /** The first half of `free`: b is marked free, appended, and absorbs a free successor. */
  lemma FreedNext(h: State, b: int)
    requires Valid(h) && b in Allocated(h)
    ensures b in h.blocks && b in h.size && b !in h.frees
    ensures Succ(h, b) != NULL ==> Succ(h, b) in h.size
    ensures Pred(h, b) != NULL ==> Pred(h, b) in h.size && Pred(h, b) != b
    ensures Mergeable(AddFree(SetFlag(h, b, true), b), b)
    ensures var x := Succ(h, b); var h2 := MergeNextOf(AddFree(SetFlag(h, b, true), b), b);
      var nf := x != NULL && Flag(h.isFree, x);
      var fs := if nf then Without(h.frees, x) else h.frees;
      b !in fs && h2.frees == fs + [b] &&
      h2.blocks == (if nf then Without(h.blocks, x) else h.blocks) &&
      b in h2.size && h2.size[b] == (if nf then h.size[b] + h.size[x] else h.size[b])
  {
    FreedAround(h, b);
    LinksOf(h, b);
    var x := Succ(h, b);
    var h1 := AddFree(SetFlag(h, b, true), b);
    assert Mergeable(h1, b) by {
      FreedNextWf(h, b);
    }
    if x != NULL && Flag(h.isFree, x) {
      WithoutAppend(h.frees, x, b);
    }
  }

  /** After the first two steps of `free`, the heap is well formed with b on the free list after the same block. */
  lemma FreedNextWf(h: State, b: int)
    requires Valid(h) && b in Allocated(h)
    ensures b in h.blocks && Mergeable(AddFree(SetFlag(h, b, true), b), b)
    ensures var h2 := MergeNextOf(AddFree(SetFlag(h, b, true), b), b);
      Wf(h2, NULL) && b in h2.frees && b in h2.blocks && Pred(h2, b) == Pred(h, b)
  {
    var h1 := AddFree(SetFlag(h, b, true), b);
    FreedKeeps(h, b);
    AllocatedLookups(h, b);
    MergeNextKeeps(h1, b, NULL);
    MergeNextKeepsFree(h1, b, NULL);
  }

  /** The block before b keeps its size and its flag through the first two steps of `free`. */
  lemma FreedPrev(h: State, b: int)
    requires Valid(h) && b in Allocated(h)
    ensures b in h.blocks && Mergeable(AddFree(SetFlag(h, b, true), b), b)
    ensures var p := Pred(h, b); var h2 := MergeNextOf(AddFree(SetFlag(h, b, true), b), b);
      p != NULL ==> p in h2.size && h2.size[p] == h.size[p] && (Flag(h2.isFree, p) <==> Flag(h.isFree, p))
  {
    FreedAround(h, b);
    FreedKeeps(h, b);
    MergeNextKeeps(AddFree(SetFlag(h, b, true), b), b, NULL);
  }

  /** The neighbours of a block in use have headers, and neither is the block itself. */
  lemma FreedAround(h: State, b: int)
    requires Valid(h) && b in Allocated(h)
    ensures b in h.blocks && b in h.size && b !in h.frees
    ensures Succ(h, b) != NULL ==> Succ(h, b) in h.size && Succ(h, b) != b
    ensures Pred(h, b) != NULL ==> Pred(h, b) in h.size && Pred(h, b) != b
  {
    FreedKeeps(h, b);
    AllocatedLookups(h, b);
    LinksOf(h, b);
    var x := Succ(h, b);
    var p := Pred(h, b);
    var i := IndexOf(h.blocks, b);
    if x != NULL {
      assert x == h.blocks[i + 1];
      assert Differ(h.blocks, i, i + 1);
      HeaderOf(h, NULL, x);
    }
    if p != NULL {
      assert p == h.blocks[i - 1];
      assert Differ(h.blocks, i - 1, i);
      HeaderOf(h, NULL, p);
    }
  }

  /**
   * The release loop at the end of `free` on a valid heap: it gives back a
   * free last block of a page or more, whose bytes the break drops by, and
   * then stops, since the block before it is in use.
   */
  ghost function Released(h: State): (h': State)
    requires Valid(h)
    ensures Valid(h') && Allocated(h') == Allocated(h) && !Releasable(h')
    ensures Releasable(h) ==> h.tail in h.size && h'.brk == h.brk - h.size[h.tail] <= h.brk - 4096
    ensures Releasable(h) ==>
      h.blocks != [] && h.tail == h.blocks[|h.blocks| - 1] &&
      h'.blocks == h.blocks[..|h.blocks| - 1] && h'.frees == Without(h.frees, h.tail)
    ensures !Releasable(h) ==> h' == h
  {
    if Releasable(h) then
      ReleaseKeeps(h);
      ReleaseOnce(h);
      Release(h)
    else
      h
  }

  /** `free` of the block b in use: b is freed and merged, then the tail released. */
  ghost function FreeOf(h: State, b: int): (h': State)
    requires Valid(h) && b in Allocated(h)
    ensures Valid(h') && Allocated(h') == Allocated(h) - {b} && !Releasable(h')
    ensures h'.brk == h.brk || h'.brk <= h.brk - 4096
    ensures var f := FreedOf(h, b);
      (Releasable(f) ==>
        f.tail in f.size && h'.brk == h.brk - f.size[f.tail] && f.blocks != [] &&
        h'.blocks == f.blocks[..|f.blocks| - 1] && h'.frees == Without(f.frees, f.tail)) &&
      (!Releasable(f) ==> h' == f)
  {
    Released(FreedOf(h, b))
  }

  /**
   * Case 1 of `realloc`, b in use holding at least n bytes: b keeps n bytes
   * when the rest is big enough for a block, which is appended to the free
   * list and absorbs a free successor; otherwise nothing changes.
   */
  ghost function ShrunkOf(h: State, b: int, n: int): (h': State)
    requires Valid(h) && b in Allocated(h) && b in h.size && MIN_BLOCK <= n <= h.size[b] && n % 16 == 0
    ensures Valid(h') && h'.brk == h.brk && b in h.blocks && b in h.name
    ensures var split := h.size[b] >= n + MIN_BLOCK;
      Allocated(h') == Allocated(h)[b := Alloc(if split then n else h.size[b], h.name[b])]
  {
    AllocatedLookups(h, b);
    if h.size[b] >= n + MIN_BLOCK then
      SplitThenFree(h, b, n);
      var nb := b + n;
      var h1 := AddFree(SplitOf(h, b, n), nb);
      HeaderOf(h1, NULL, nb);
      MergeNextKeeps(h1, nb, NULL);
      MergeNextCoalesces(h1, nb, NULL);
      MergeNextAllocated(h1, nb, NULL);
      var h2 := MergeNextOf(h1, nb);
      assert Pred(h2, nb) == b && h2.isFree == h1.isFree;
      CloseAround(h2, nb);
      h2
    else
      assert Allocated(h)[b := Alloc(h.size[b], h.name[b])] == Allocated(h);
      h
  }

  /**
   * After case 1 of `realloc` with room to split: b holds n bytes, and the
   * piece cut off at b + n, having absorbed a free successor x (which leaves
   * the free list), is the last entry of the free list.
   */
  lemma ShrunkExact(h: State, b: int, n: int)
    requires Valid(h) && b in Allocated(h) && b in h.size && MIN_BLOCK <= n && n % 16 == 0 && h.size[b] >= n + MIN_BLOCK
    ensures b in h.blocks && (Succ(h, b) != NULL ==> Succ(h, b) in h.size)
    ensures var x := Succ(h, b); var h' := ShrunkOf(h, b, n);
      var nf := x != NULL && Flag(h.isFree, x);
      b in h'.size && h'.size[b] == n && b + n in h'.size &&
      h'.size[b + n] == (if nf then h.size[b] - n + h.size[x] else h.size[b] - n) &&
      h'.frees == (if nf then Without(h.frees, x) else h.frees) + [b + n]
  {
    ShrunkMerged(h, b, n);
    ShrunkKept(h, b, n);
    ShrunkFrees(h, b, n);
    assert ShrunkOf(h, b, n) == MergeNextOf(AddFree(SplitOf(h, b, n), b + n), b + n);
  }

  /** The split, free-list append and merge of case 1 of `realloc`, step by step. */
  lemma ShrunkMerged(h: State, b: int, n: int)
    requires Valid(h) && b in Allocated(h) && b in h.size && MIN_BLOCK <= n && n % 16 == 0 && h.size[b] >= n + MIN_BLOCK
    ensures b in h.blocks && b in h.nextBlock && (Succ(h, b) != NULL ==> Succ(h, b) in h.size)
    ensures var h1 := AddFree(SplitOf(h, b, n), b + n);
      Mergeable(h1, b + n) &&
      var x := Succ(h, b); var h' := MergeNextOf(h1, b + n);
      b + n in h'.size &&
      h'.size[b + n] == (if x != NULL && Flag(h.isFree, x) then h.size[b] - n + h.size[x] else h.size[b] - n)
  {
    ShrunkSplit(h, b, n);
    var h1 := AddFree(SplitOf(h, b, n), b + n);
    NextExact(h1, b + n, h.frees);
  }

  /** Block b keeps n bytes through the merge of case 1 of `realloc`. */
  lemma ShrunkKept(h: State, b: int, n: int)
    requires Valid(h) && b in Allocated(h) && b in h.size && MIN_BLOCK <= n && n % 16 == 0 && h.size[b] >= n + MIN_BLOCK
    ensures b in h.blocks && b in h.nextBlock
    ensures var h1 := AddFree(SplitOf(h, b, n), b + n);
      Mergeable(h1, b + n) && b in MergeNextOf(h1, b + n).size && MergeNextOf(h1, b + n).size[b] == n
  {
    ShrunkSplit(h, b, n);
    var h1 := AddFree(SplitOf(h, b, n), b + n);
    NextExact(h1, b + n, h.frees);
  }

  /** The free list after case 1 of `realloc` with room to split. */
  lemma ShrunkFrees(h: State, b: int, n: int)
    requires Valid(h) && b in Allocated(h) && b in h.size && MIN_BLOCK <= n && n % 16 == 0 && h.size[b] >= n + MIN_BLOCK
    ensures b in h.blocks && b in h.nextBlock
    ensures var h1 := AddFree(SplitOf(h, b, n), b + n);
      Mergeable(h1, b + n) &&
      var x := Succ(h, b); var h' := MergeNextOf(h1, b + n);
      h'.frees == (if x != NULL && Flag(h.isFree, x) then Without(h.frees, x) else h.frees) + [b + n]
  {
    ShrunkSplit(h, b, n);
    var h1 := AddFree(SplitOf(h, b, n), b + n);
    NextExact(h1, b + n, h.frees);
  }


  /** Case 1 of `realloc` up to its merge: the piece at b + n is split off and appended to the free list. */
  lemma ShrunkSplit(h: State, b: int, n: int)
    requires Valid(h) && b in Allocated(h) && b in h.size && MIN_BLOCK <= n && n % 16 == 0 && h.size[b] >= n + MIN_BLOCK
    ensures b in h.blocks && b in h.nextBlock && (Succ(h, b) != NULL ==> Succ(h, b) in h.size)
    ensures var h1 := AddFree(SplitOf(h, b, n), b + n); var x := Succ(h, b);
      Wf(h1, NULL) && b + n in h1.blocks && b + n !in h.frees && h1.frees == h.frees + [b + n] && Succ(h1, b + n) == x &&
      h1.size == h.size[b := n][b + n := h.size[b] - n] && h1.isFree == h.isFree[b + n := true] &&
      x != b && x != b + n
  {
    AllocatedLookups(h, b);
    LinksOf(h, b);
    SplitThenFree(h, b, n);
    ShrunkSucc(h, b, n);
  }

  /** The block after the piece split off b is b's old successor, neither b nor the piece. */
  lemma ShrunkSucc(h: State, b: int, n: int)
    requires Wf(h, NULL) && b in h.blocks && b in h.size && MIN_BLOCK <= n && n % 16 == 0 && h.size[b] >= n + MIN_BLOCK
    ensures b in h.nextBlock && (Succ(h, b) != NULL ==> Succ(h, b) in h.size)
    ensures var x := Succ(h, b); Succ(SplitOf(h, b, n), b + n) == x && x != b && x != b + n
  {
    LinksOf(h, b);
    var x := Succ(h, b);
    SplitFreshAt(h, b, n);
    SplitList(h, b, n);
    if x != NULL {
      var i := IndexOf(h.blocks, b);
      assert x == h.blocks[i + 1];
      assert Differ(h.blocks, i, i + 1);
      HeaderOf(h, NULL, x);
    }
  }

  /** `merge_with_next` on b, the last entry of the free list. */
  lemma NextExact(h: State, b: int, fs: seq<int>)
    requires Wf(h, NULL) && b in h.blocks && b in h.frees && h.frees == fs + [b]
    ensures b in h.size && Mergeable(h, b) && (Succ(h, b) != NULL ==> Succ(h, b) in h.size)
    ensures var x := Succ(h, b); var h' := MergeNextOf(h, b);
      if x != NULL && Flag(h.isFree, x) then
        h'.size == h.size[b := h.size[b] + h.size[x]] && h'.frees == Without(fs, x) + [b]
      else h' == h
  {
    MergeNextKeeps(h, b, NULL);
    HeaderOf(h, NULL, b);
    LinksOf(h, b);
    DistinctPairs(h.blocks);
    var x := Succ(h, b);
    if x != NULL {
      assert x == h.blocks[IndexOf(h.blocks, b) + 1];
      HeaderOf(h, NULL, x);
      WithoutAppend(fs, x, b);
    }
  }

  /**
   * Case 2 of `realloc`: b's free successor leaves the free list, b
   * absorbs it and is trimmed to n bytes.
   */
  ghost function ExpandedOf(h: State, b: int, n: int): (h': State)
    requires Valid(h) && b in Allocated(h) && MIN_BLOCK <= n && n % 16 == 0
    requires b in h.blocks && Succ(h, b) != NULL && Flag(h.isFree, Succ(h, b))
    requires b in h.size && Succ(h, b) in h.size && n <= h.size[b] + h.size[Succ(h, b)]
    ensures Valid(h') && h'.brk == h.brk
  {
    ExpandMerged(h, b);
    TrimOf(MergeNextOf(RemoveFree(h, Succ(h, b)), b), b, n)
  }

  /**
   * After case 2 of `realloc`, b holds n bytes if the two blocks together
   * leave room for a block after that, else all their bytes; the
   * successor is off the free list and any piece cut off is on its end.
   */
  lemma ExpandedExact(h: State, b: int, n: int)
    requires Valid(h) && b in Allocated(h) && MIN_BLOCK <= n && n % 16 == 0
    requires b in h.blocks && Succ(h, b) != NULL && Flag(h.isFree, Succ(h, b))
    requires b in h.size && Succ(h, b) in h.size && n <= h.size[b] + h.size[Succ(h, b)]
    ensures b in h.name
    ensures var c := h.size[b] + h.size[Succ(h, b)];
      b in Allocated(ExpandedOf(h, b, n)) && Allocated(ExpandedOf(h, b, n))[b].size == if c >= n + MIN_BLOCK then n else c
    ensures b in Allocated(ExpandedOf(h, b, n)) && Allocated(ExpandedOf(h, b, n))[b].name == h.name[b]
    ensures Allocated(ExpandedOf(h, b, n)) == Allocated(h)[b := Allocated(ExpandedOf(h, b, n))[b]]
    ensures var c := h.size[b] + h.size[Succ(h, b)];
      ExpandedOf(h, b, n).frees == Without(h.frees, Succ(h, b)) + (if c >= n + MIN_BLOCK then [b + n] else [])
  {
    ExpandMerged(h, b);
    var h2 := MergeNextOf(RemoveFree(h, Succ(h, b)), b);
    TrimAfter(h, h2, ExpandedOf(h, b, n), b, n, h.size[b] + h.size[Succ(h, b)], Without(h.frees, Succ(h, b)));
  }

  /**
   * `realloc` growing b into its free successor x: once x is unlinked from
   * the free list and b has absorbed it, the heap is valid again, b is in
   * use with both blocks' bytes and its new successor is in use.
   */
  lemma ExpandMerged(h: State, b: int)
    requires Valid(h) && b in Allocated(h) && b in h.blocks && Succ(h, b) != NULL && Flag(h.isFree, Succ(h, b))
    ensures Succ(h, b) in h.nextFree && Succ(h, b) in h.prevFree && Mergeable(RemoveFree(h, Succ(h, b)), b)
    ensures var x := Succ(h, b); var h2 := MergeNextOf(RemoveFree(h, x), b);
      Valid(h2) && b in h2.blocks && !Flag(h2.isFree, b) && NotFree(h2.isFree, Succ(h2, b)) &&
      b in h.size && x in h.size && b in h2.size && h2.size[b] == h.size[b] + h.size[x] && h2.name == h.name &&
      Allocated(h2) == Allocated(h)[b := Alloc(h2.size[b], h.name[b])] && h2.frees == Without(h.frees, x)
  {
    AllocatedLookups(h, b);
    ExpandKeeps(h, b);
    LinksOf(h, b);
    var x := Succ(h, b);
    var h1 := RemoveFree(h, x);
    MergeNextKeeps(h1, b, x);
    MergeNextCoalesces(h1, b, x);
    MergeNextAllocated(h1, b, x);
    LinkedNonNull(h1.blocks, h1.nextBlock, h1.prevBlock);
    CoalescedWiden(h1.blocks, h1.isFree, b);
    var h2 := MergeNextOf(h1, b);
    CoalescedUsed(h2.blocks, h2.isFree, b);
    assert Succ(h1, b) == x;
    assert x !in h1.frees;
  }

  /** A second update of the same key overrides the first. */
  lemma UpdateTwice(m: map<int, Alloc>, k: int, v: Alloc, w: Alloc)
    ensures m[k := v][k := w] == m[k := w]
  {
  }

  /**
   * Trimming b in a state h2 reached from h by changing only b's entry
   * among the blocks in use: the trim's effect read against h.
   */
  lemma TrimAfter(h: State, h2: State, h3: State, b: int, n: int, c: int, fs: seq<int>)
    requires Valid(h2) && b in h2.blocks && !Flag(h2.isFree, b) && NotFree(h2.isFree, Succ(h2, b))
    requires b in h2.size && h2.size[b] == c && MIN_BLOCK <= n <= c && n % 16 == 0 && h2.frees == fs
    requires b in h.name && h2.name == h.name && Allocated(h2) == Allocated(h)[b := Alloc(c, h.name[b])]
    requires h3 == TrimOf(h2, b, n)
    ensures Allocated(h3) == Allocated(h)[b := Alloc(if c >= n + MIN_BLOCK then n else c, h.name[b])]
    ensures h3.frees == fs + (if c >= n + MIN_BLOCK then [b + n] else [])
  {
    var m := if c >= n + MIN_BLOCK then n else c;
    UpdateTwice(Allocated(h), b, Alloc(c, h.name[b]), Alloc(m, h.name[b]));
  }

}
