/**
 * The heap allocator of user/umalloc.c.  A `Heap` holds the globals of the
 * C file (`head`, `tail`, `free_head`, `current_fsm`) and the header fields
 * of every block, one map per field keyed by header address; the size word
 * is kept decoded, as its size and its free bit (size_word.dfy shows the
 * packing).  The program break is `brk`; the blocks tile [base, brk).  Two
 * ghost sequences give the order of the block list and of the free list.
 *
 * Every method is proved to move `St()`, the fields read as one value,
 * exactly as the step of the same name in heap_state.dfy does; the lemmas
 * there say which invariants those steps keep.
 */
module Umalloc {
  import opened ListOrder
  import opened HeapLayout
  import opened HeapState
  import opened Align
  import opened Placement
  import opened Wrappers
  import opened CStrings

  class Heap {
    var size: map<int, nat>
    var isFree: map<int, bool>
    var name: map<int, seq<char>>
    var nextBlock: Links
    var prevBlock: Links
    var nextFree: Links
    var prevFree: Links
    var head: int
    var tail: int
    var freeHead: int
    var fsm: int
    var brk: int
    const base: int
    ghost var blocks: seq<int>
    ghost var frees: seq<int>

    /** The allocator's state as a value. */
    ghost function St(): State
      reads this
    {
      State(size, isFree, name, nextBlock, prevBlock, nextFree, prevFree, head, tail, freeHead, base, brk, blocks, frees)
    }

    /** An empty heap whose break starts at `base`; the policy starts as first fit. */
    constructor(base: int)
      requires base > NULL
      ensures St() == Empty(base) && fsm == FIRST_FIT
      ensures Valid(St()) && Allocated(St()) == map[]
    {
      this.base := base;
      brk := base;
      head, tail, freeHead := NULL, NULL, NULL;
      fsm := FIRST_FIT;
      size, isFree, name := map[], map[], map[];
      nextBlock, prevBlock, nextFree, prevFree := map[], map[], map[], map[];
      blocks, frees := [], [];
      EmptyValid(base);
    }

    // -------------------------------------------------------------------
    // The two lists

    /** The walk of `free_list_add` to the last node of a non-empty free list. */
    method LastFree() returns (current: int)
      requires FreeList(St()) && freeHead != NULL
      ensures frees != [] && current == frees[|frees| - 1]
    {
      ghost var s := frees;
      LinkedNonNull(s, nextFree, prevFree);
      current := freeHead;
      ghost var k := 0;
      while nextFree[current] != NULL
        invariant 0 <= k < |s| && current == s[k] && LinkAt(s, nextFree, prevFree, k)
        decreases |s| - k
      {
        current := nextFree[current];
        k := k + 1;
        assert LinkAt(s, nextFree, prevFree, k);
      }
    }

    /** `free_list_add`: clear b's free links and append it after the last free node. */
    method FreeListAdd(b: int)
      requires FreeList(St()) && b > NULL && b !in frees
      modifies this`nextFree, this`prevFree, this`freeHead, this`frees
      ensures St() == AddFree(old(St()), b)
    {
      ghost var s := frees;
      ghost var pf := prevFree;
      LinkedNonNull(s, nextFree, prevFree);
      var current := NULL;
      if freeHead != NULL {
        current := LastFree();
      }
      nextFree := nextFree[b := NULL];
      prevFree := prevFree[b := NULL];
      if freeHead == NULL {
        freeHead := b;
        frees := s + [b];
        return;
      }
      nextFree := nextFree[current := b];
      prevFree := prevFree[b := current];
      assert prevFree == pf[b := current];
      frees := s + [b];
    }

    /** `free_list_remove`: unlink b through its own free links, which it keeps. */
    method FreeListRemove(b: int)
      requires b in nextFree && b in prevFree
      modifies this`nextFree, this`prevFree, this`freeHead, this`frees
      ensures St() == RemoveFree(old(St()), b)
    {
      var p := prevFree[b];
      var n := nextFree[b];
      if p != NULL {
        nextFree := nextFree[p := n];
      } else {
        freeHead := n;
      }
      if n != NULL {
        prevFree := prevFree[n := p];
      }
      frees := Without(frees, b);
    }

    /**
     * The walk of `block_list_add` for a block not below `head`: the block
     * after which b goes is the last one below it.
     */
    method FindGap(b: int) returns (current: int)
      requires BlockList(St()) && head != NULL && head <= b && b !in blocks
      ensures 0 < Gap(blocks, b) && current == blocks[Gap(blocks, b) - 1]
    {
      ghost var s := blocks;
      LinkedNonNull(s, nextBlock, prevBlock);
      current := head;
      ghost var k := 0;
      while nextBlock[current] != NULL && nextBlock[current] < b
        invariant 0 <= k < |s| && current == s[k] && s[k] <= b && LinkAt(s, nextBlock, prevBlock, k)
        invariant Gap(s, b) == GapFrom(s, b, k + 1)
        decreases |s| - k
      {
        current := nextBlock[current];
        k := k + 1;
        assert LinkAt(s, nextBlock, prevBlock, k);
      }
    }

    /** `block_list_add`: link b in between the last block below it and the first above it. */
    method BlockListAdd(b: int)
      requires BlockList(St()) && b > NULL && b !in blocks
      modifies this`nextBlock, this`prevBlock, this`head, this`tail, this`blocks
      ensures St() == AddBlock(old(St()), b)
    {
      ghost var s := blocks;
      LinkedNonNull(s, nextBlock, prevBlock);
      if head == NULL {
        head := b;
        tail := b;
        nextBlock := nextBlock[b := NULL];
        prevBlock := prevBlock[b := NULL];
        blocks := s[..0] + [b] + s[0..];
        return;
      }
      if b < head {
        nextBlock := nextBlock[b := head];
        prevBlock := prevBlock[b := NULL][head := b];
        head := b;
        blocks := s[..0] + [b] + s[0..];
        return;
      }
      var current := FindGap(b);
      ghost var k := Gap(s, b);
      assert LinkAt(s, nextBlock, prevBlock, k - 1);
      var after := nextBlock[current];
      nextBlock := nextBlock[b := after];
      prevBlock := prevBlock[b := current];
      if after != NULL {
        prevBlock := prevBlock[after := b];
      } else {
        tail := b;
      }
      nextBlock := nextBlock[current := b];
      blocks := s[..k] + [b] + s[k..];
    }

    /** `block_list_remove`: unlink b through its own block links. */
    method BlockListRemove(b: int)
      requires b in nextBlock && b in prevBlock
      modifies this`nextBlock, this`prevBlock, this`head, this`tail, this`blocks
      ensures St() == RemoveBlock(old(St()), b)
    {
      var p := prevBlock[b];
      var n := nextBlock[b];
      if p != NULL {
        nextBlock := nextBlock[p := n];
      } else {
        head := n;
      }
      if n != NULL {
        prevBlock := prevBlock[n := p];
      } else {
        tail := p;
      }
      blocks := Without(blocks, b);
    }

    // -------------------------------------------------------------------
    // Splitting and merging

    /** The header `split` writes: b shrinks to n bytes, a free block with a cleared name follows. */
    method CarveHeader(b: int, n: nat, remaining: nat)
      modifies this`size, this`isFree, this`name
      ensures size == old(size)[b := n][b + n := remaining] && name == old(name)[b + n := ZeroName()]
      ensures isFree == old(isFree)[b + n := true]
    {
      size := size[b := n];
      var nb := b + n;
      name := name[nb := ZeroName()];
      size := size[nb := remaining];
      isFree := isFree[nb := true];
    }

    /** The block-list splice of `split`: nb goes in right after b. */
    method LinkAfter(b: int, nb: int)
      requires b in nextBlock && b in blocks
      modifies this`nextBlock, this`prevBlock, this`tail, this`blocks
      ensures var after := old(nextBlock[b]); var i := IndexOf(old(blocks), b);
        nextBlock == old(nextBlock)[nb := after][b := nb] &&
        prevBlock == (if after != NULL then old(prevBlock)[nb := b][after := nb] else old(prevBlock)[nb := b]) &&
        tail == (if after != NULL then old(tail) else nb) && blocks == old(blocks)[..i + 1] + [nb] + old(blocks)[i + 1..]
    {
      var after := nextBlock[b];
      prevBlock := prevBlock[nb := b];
      nextBlock := nextBlock[nb := after];
      if after != NULL {
        prevBlock := prevBlock[after := nb];
      } else {
        tail := nb;
      }
      nextBlock := nextBlock[b := nb];
      var i := IndexOf(blocks, b);
      blocks := blocks[..i + 1] + [nb] + blocks[i + 1..];
    }

    /** The split itself, once the size check has passed. */
    method SplitAt(b: int, n: nat)
      requires b in blocks && b in size && b in nextBlock && n <= size[b]
      modifies this`size, this`isFree, this`name, this`nextBlock, this`prevBlock, this`tail, this`blocks
      ensures St() == SplitOf(old(St()), b, n)
    {
      CarveHeader(b, n, size[b] - n);
      LinkAfter(b, b + n);
    }

    /**
     * `split(b, n)`: NULL, with nothing changed, for a NULL block or one
     * without room for n bytes plus a header and a free node; otherwise the
     * new free block at b + n.
     */
    method Split(b: int, n: nat) returns (nb: int)
      requires b != NULL ==> b in blocks && b in size && b in nextBlock
      requires n + MIN_BLOCK < UINT_MOD
      modifies this`size, this`isFree, this`name, this`nextBlock, this`prevBlock, this`tail, this`blocks
      ensures b == NULL || old(size[b]) < n + MIN_BLOCK ==> nb == NULL && St() == old(St())
      ensures b != NULL && old(size[b]) >= n + MIN_BLOCK ==> nb == b + n && St() == SplitOf(old(St()), b, n)
    {
      if b == NULL {
        return NULL;
      }
      var blockSize := size[b];
      var minSplit := n + HEADER_SIZE + FREE_NODE_SIZE;
      if blockSize < minSplit {
        return NULL;
      }
      SplitAt(b, n);
      nb := b + n;
    }

    /**
     * The common tail of both merges: block p takes x's bytes and x leaves
     * the block list, p's successor becoming x's.
     */
    method Absorb(p: int, x: int, newSize: nat)
      requires x in nextBlock
      modifies this`size, this`nextBlock, this`prevBlock, this`tail, this`blocks
      ensures var after := old(nextBlock[x]);
        size == old(size)[p := newSize] && nextBlock == old(nextBlock)[p := after] &&
        prevBlock == (if after != NULL then old(prevBlock)[after := p] else old(prevBlock)) &&
        tail == (if after != NULL then old(tail) else p) && blocks == Without(old(blocks), x)
    {
      size := size[p := newSize];
      var after := nextBlock[x];
      nextBlock := nextBlock[p := after];
      if after != NULL {
        prevBlock := prevBlock[after := p];
      } else {
        tail := p;
      }
      blocks := Without(blocks, x);
    }

    /**
     * `merge_with_next`: a no-op unless the block after b is free; then that
     * block leaves the free list and the block list and b takes its bytes.
     * As in `realloc`, the successor e may already be off the free list.
     */
    method MergeWithNext(b: int, ghost e: int)
      requires MergeReady(St(), b, e)
      modifies this`size, this`nextBlock, this`prevBlock, this`tail, this`blocks,
               this`nextFree, this`prevFree, this`freeHead, this`frees
      ensures Mergeable(old(St()), b) && St() == MergeNextOf(old(St()), b)
    {
      MergeNextFits(St(), b, e);
      var next := nextBlock[b];
      if next == NULL || !isFree[next] {
        return;
      }
      FreeListRemove(next);
      var newSize := size[b] + size[next];
      assert newSize < UINT_MOD;
      Absorb(b, next, newSize);
    }

    /**
     * `merge_with_prev` on a free block b: a no-op unless the block before it
     * is free; then b leaves both lists and that block takes its bytes.
     */
    method MergeWithPrev(b: int)
      requires Wf(St(), NULL) && b in frees
      modifies this`size, this`nextBlock, this`prevBlock, this`tail, this`blocks,
               this`nextFree, this`prevFree, this`freeHead, this`frees
      ensures St() == MergePrevOf(old(St()), b)
    {
      MergePrevFits(St(), b);
      MergePrevLookups(St(), b);
      var prev := prevBlock[b];
      if prev == NULL || !isFree[prev] {
        return;
      }
      FreeListRemove(b);
      var newSize := size[prev] + size[b];
      assert newSize < UINT_MOD;
      Absorb(prev, b, newSize);
    }

    // -------------------------------------------------------------------
    // Placement

    /** `find_free_block_first_fit`: the first free-list entry of at least `target` bytes. */
    method FindFirstFit(target: nat) returns (r: int)
      requires Wf(St(), NULL)
      ensures r == NULL <==> NoneAdequate(FreeSizes(St()), target)
      ensures r != NULL ==> r in frees && IsFirstFit(FreeSizes(St()), target, IndexOf(frees, r))
    {
      ghost var h := St();
      ghost var s := frees;
      ghost var sizes := FreeSizes(h);
      LinkedNonNull(s, nextFree, prevFree);
      var current := freeHead;
      ghost var k := 0;
      while current != NULL
        invariant 0 <= k <= |s| && current == After(s, k) && NoneUpTo(sizes, target, k)
        decreases |s| - k
      {
        FreeAt(h, NULL, k);
        NoneStep(sizes, target, k);
        if size[current] >= target {
          IndexOfDistinct(s, k);
          return current;
        }
        current := nextFree[current];
        k := k + 1;
      }
      return NULL;
    }

    /**
     * `find_free_block_best_fit`: the smallest adequate entry, the first of
     * equal ones, since only a strictly smaller size replaces the pick.
     */
    method FindBestFit(target: nat) returns (r: int)
      requires Wf(St(), NULL)
      ensures r == NULL <==> NoneAdequate(FreeSizes(St()), target)
      ensures r != NULL ==> r in frees && IsBestFit(FreeSizes(St()), target, IndexOf(frees, r))
    {
      ghost var h := St();
      ghost var s := frees;
      ghost var sizes := FreeSizes(h);
      LinkedNonNull(s, nextFree, prevFree);
      var current := freeHead;
      var best := NULL;
      var bestSize := 0xFFFF_FFFF;
      ghost var k, bi := 0, -1;
      while current != NULL
        invariant 0 <= k <= |s| && current == After(s, k) && BestSoFar(sizes, target, k, bi, bestSize)
        invariant bi == -1 <==> best == NULL
        invariant bi != -1 ==> 0 <= bi < |s| && best == s[bi]
        decreases |s| - k
      {
        FreeAt(h, NULL, k);
        BestStep(sizes, target, k, bi, bestSize);
        var currentSize := size[current];
        if currentSize >= target && currentSize < bestSize {
          best := current;
          bestSize := currentSize;
          bi := k;
        }
        current := nextFree[current];
        k := k + 1;
      }
      BestDone(sizes, target, bi, bestSize);
      if best != NULL {
        IndexOfDistinct(s, bi);
      }
      return best;
    }

    /**
     * `find_free_block_worst_fit`: the largest adequate entry, the first of
     * equal ones, since only a strictly larger size replaces the pick.
     */
    method FindWorstFit(target: nat) returns (r: int)
      requires Wf(St(), NULL)
      ensures r == NULL <==> NoneAdequate(FreeSizes(St()), target)
      ensures r != NULL ==> r in frees && IsWorstFit(FreeSizes(St()), target, IndexOf(frees, r))
    {
      ghost var h := St();
      ghost var s := frees;
      ghost var sizes := FreeSizes(h);
      LinkedNonNull(s, nextFree, prevFree);
      var current := freeHead;
      var worst := NULL;
      var worstSize := 0;
      ghost var k, wi := 0, -1;
      while current != NULL
        invariant 0 <= k <= |s| && current == After(s, k) && WorstSoFar(sizes, target, k, wi, worstSize)
        invariant wi == -1 <==> worst == NULL
        invariant wi != -1 ==> 0 <= wi < |s| && worst == s[wi]
        decreases |s| - k
      {
        FreeAt(h, NULL, k);
        WorstStep(sizes, target, k, wi, worstSize);
        var currentSize := size[current];
        if currentSize >= target && currentSize > worstSize {
          worst := current;
          worstSize := currentSize;
          wi := k;
        }
        current := nextFree[current];
        k := k + 1;
      }
      WorstDone(sizes, target, wi, worstSize);
      if worst != NULL {
        IndexOfDistinct(s, wi);
      }
      return worst;
    }

    /**
     * `reuse_block`: the free block the current policy picks for `target`
     * bytes; NULL when none is big enough or the policy number is unknown.
     */
    method ReuseBlock(target: nat) returns (r: int)
      requires Wf(St(), NULL)
      ensures r == NULL <==> NoFit(St(), fsm, target)
      ensures r != NULL ==> Reuses(St(), fsm, target, r)
    {
      r := NULL;
      if fsm == FIRST_FIT {
        r := FindFirstFit(target);
      } else if fsm == BEST_FIT {
        r := FindBestFit(target);
      } else if fsm == WORST_FIT {
        r := FindWorstFit(target);
      }
    }

    // -------------------------------------------------------------------
    // malloc

    /**
     * The host's `sbrk(n)`: the old break, or -1 when a request to grow is
     * refused, because the host declines (`granted` false) or the heap
     * would pass its limit.  Giving memory back is never refused.
     */
    method Sbrk(n: int, granted: bool) returns (r: int)
      requires n < 0 ==> base <= brk + n
      modifies this`brk
      ensures n < 0 || GrowthGranted(old(St()), n, granted) ==> r == old(brk) && St() == Moved(old(St()), n)
      ensures !(n < 0 || GrowthGranted(old(St()), n, granted)) ==> r == -1 && St() == old(St())
    {
      if n < 0 || (granted && brk + n <= base + HEAP_LIMIT) {
        r := brk;
        brk := brk + n;
      } else {
        r := -1;
      }
    }

    /** The header `malloc` writes on fresh memory: n bytes, in use, a cleared name, no links. */
    method WriteHeader(b: int, n: nat)
      modifies this`size, this`isFree, this`name, this`nextBlock, this`prevBlock
      ensures size == old(size)[b := n] && isFree == old(isFree)[b := false] && name == old(name)[b := ZeroName()]
      ensures nextBlock == old(nextBlock)[b := NULL] && prevBlock == old(prevBlock)[b := NULL]
    {
      name := name[b := ZeroName()];
      size := size[b := n];
      isFree := isFree[b := false];
      nextBlock := nextBlock[b := NULL];
      prevBlock := prevBlock[b := NULL];
    }

    /**
     * The split that ends `malloc` and `realloc`: b, in use and followed by
     * a block in use, keeps `total` bytes and the rest becomes a free
     * block when it is big enough.
     */
    method Trim(b: int, total: nat)
      requires Valid(St()) && b in blocks && !Flag(isFree, b) && NotFree(isFree, Succ(St(), b))
      requires b in size && total <= size[b] && MIN_BLOCK <= total && total % ALIGNMENT == 0
      modifies this`size, this`isFree, this`name, this`nextBlock, this`prevBlock, this`nextFree, this`prevFree,
               this`tail, this`freeHead, this`blocks, this`frees
      ensures St() == TrimOf(old(St()), b, total)
    {
      ghost var h0 := St();
      HeaderOf(h0, NULL, b);
      var nb := SplitFree(b, total);
      TrimmedBy(h0, St(), b, total, nb);
    }

    /**
     * `split(b, total)` followed by `free_list_add` of the piece it cuts
     * off, as `malloc` and `realloc` do: when b has room for a free block
     * after `total` bytes, b keeps `total` bytes and the rest is a free,
     * free-listed block after it; otherwise nothing changes.
     */
    method SplitFree(b: int, total: nat) returns (nb: int)
      requires Valid(St()) && b in blocks && !Flag(isFree, b)
      requires b in size && total <= size[b] && MIN_BLOCK <= total && total % ALIGNMENT == 0
      modifies this`size, this`isFree, this`name, this`nextBlock, this`prevBlock, this`nextFree, this`prevFree,
               this`tail, this`freeHead, this`blocks, this`frees
      ensures brk == old(brk)
      ensures nb == NULL ==> St() == old(St()) && old(size[b]) < total + MIN_BLOCK
      ensures nb != NULL ==>
        nb == b + total && Wf(St(), NULL) && nb in frees && nb in blocks && CoalescedAround(blocks, isFree, nb) &&
        Pred(St(), nb) == b && !Flag(isFree, b) && Allocated(St()) == old(Allocated(St()))[b := Alloc(total, old(name[b]))]
      ensures nb != NULL && NotFree(old(isFree), Succ(old(St()), b)) ==> Valid(St())
      ensures nb != NULL ==>
        b in old(nextBlock) && old(size[b]) >= total + MIN_BLOCK && St() == AddFree(SplitOf(old(St()), b, total), nb)
    {
      ghost var h1 := St();
      LinksOf(h1, b);
      HeaderOf(h1, NULL, b);
      if size[b] >= total + MIN_BLOCK {
        SplitThenFree(h1, b, total);
      }
      nb := Split(b, total);
      if nb != NULL {
        FreeListAdd(nb);
      }
    }

    /** The start of the reuse path of `malloc`: `set_used` and `free_list_remove` on r. */
    method Claim(r: int)
      requires r in nextFree && r in prevFree
      modifies this`isFree, this`nextFree, this`prevFree, this`freeHead, this`frees
      ensures St() == RemoveFree(SetFlag(old(St()), r, false), r)
    {
      isFree := isFree[r := false];
      FreeListRemove(r);
    }

    /**
     * The reuse path of `malloc`: r comes off the free list into use, and
     * gives back what it does not need as a free block when that is big
     * enough.
     */
    method TakeFree(r: int, total: nat)
      requires Valid(St()) && r in frees && r in size && size[r] >= total
      requires MIN_BLOCK <= total && total % ALIGNMENT == 0
      modifies this`size, this`isFree, this`name, this`nextBlock, this`prevBlock, this`nextFree, this`prevFree,
               this`tail, this`freeHead, this`blocks, this`frees
      ensures Valid(St()) && Grants(old(St()), St(), r, total) && Allocated(St())[r].name == old(name[r])
      ensures St() == ReusedOf(old(St()), r, total)
    {
      ghost var h0 := St();
      ReuseKeeps(h0, r);
      Claim(r);
      ghost var h1 := St();
      Trim(r, total);
      GrantsAfter(h0, h1, St(), r, total);
    }

    /**
     * The growth path of `malloc` once `sbrk` has moved the break from
     * h0's up by `page`: write a header at the old break, append the block
     * to the block list and trim it.
     */
    method TakeFresh(b: int, page: nat, total: nat, ghost h0: State)
      requires Valid(h0) && St() == Moved(h0, page) && b == h0.brk && h0.brk + page <= h0.base + HEAP_LIMIT
      requires MIN_BLOCK <= total <= page && page % ALIGNMENT == 0 && total % ALIGNMENT == 0
      modifies this`size, this`isFree, this`name, this`nextBlock, this`prevBlock, this`nextFree, this`prevFree,
               this`head, this`tail, this`freeHead, this`blocks, this`frees
      ensures Valid(St()) && brk == h0.brk + page
      ensures Grants(h0, St(), b, total) && Allocated(St())[b].name == ZeroName()
      ensures St() == FreshOf(h0, page, total)
    {
      GrowKeeps(h0, page);
      AppendFresh(b, page, h0);
      ghost var h1 := St();
      Trim(b, total);
      GrantsAfter(h0, h1, St(), b, total);
    }

    /** After `sbrk` moved the break from h0's by n: the header at the old break, linked in. */
    method AppendFresh(b: int, n: nat, ghost h0: State)
      requires St() == Moved(h0, n) && b == h0.brk && b > NULL && b !in h0.blocks && BlockList(NewBlock(h0, n))
      modifies this`size, this`isFree, this`name, this`nextBlock, this`prevBlock, this`head, this`tail, this`blocks
      ensures St() == AddBlock(NewBlock(h0, n), b)
    {
      WriteHeader(b, n);
      assert St() == NewBlock(h0, n);
      BlockListAdd(b);
    }

    /**
     * `malloc(size)`: NULL for 0 and for a size whose block would not fit
     * the heap; otherwise the pick of the current policy if there is one,
     * else a fresh block from `sbrk`, NULL if that is refused.
     */
    method Malloc(request: nat, granted: bool) returns (p: int)
      requires Valid(St()) && request < UINT_MOD
      modifies this`size, this`isFree, this`name, this`nextBlock, this`prevBlock, this`nextFree, this`prevFree,
               this`head, this`tail, this`freeHead, this`brk, this`blocks, this`frees
      ensures Valid(St())
      ensures request == 0 || request > MAX_REQUEST ==> p == NULL && St() == old(St())
      ensures 0 < request <= MAX_REQUEST ==> Mallocs(old(St()), St(), fsm, TotalSize(request), granted, p)
    {
      if request == 0 || request > MAX_REQUEST {
        return NULL;
      }
      var alignedSize := AlignSize(request);
      var totalSize := HEADER_SIZE + alignedSize;
      assert totalSize == TotalSize(request);
      p := Place(totalSize, granted);
    }

    /** The body of `malloc` once the block size is known: reuse, else grow. */
    method Place(total: nat, granted: bool) returns (p: int)
      requires Valid(St()) && MIN_BLOCK <= total <= HEAP_LIMIT && total % ALIGNMENT == 0
      modifies this`size, this`isFree, this`name, this`nextBlock, this`prevBlock, this`nextFree, this`prevFree,
               this`head, this`tail, this`freeHead, this`brk, this`blocks, this`frees
      ensures Valid(St()) && Mallocs(old(St()), St(), fsm, total, granted, p)
    {
      var block := ReuseBlock(total);
      if block != NULL {
        p := PlaceReused(block, total, granted);
      } else {
        p := PlaceFresh(total, granted);
      }
    }

    /** `malloc` when the policy picked the free block r. */
    method PlaceReused(r: int, total: nat, granted: bool) returns (p: int)
      requires Valid(St()) && MIN_BLOCK <= total <= HEAP_LIMIT && total % ALIGNMENT == 0 && Reuses(St(), fsm, total, r)
      modifies this`size, this`isFree, this`name, this`nextBlock, this`prevBlock, this`nextFree, this`prevFree,
               this`tail, this`freeHead, this`blocks, this`frees
      ensures Valid(St()) && Mallocs(old(St()), St(), fsm, total, granted, p)
    {
      ghost var h0 := St();
      FreeAt(h0, NULL, IndexOf(frees, r));
      HeaderOf(h0, NULL, r);
      LinksOf(h0, r);
      TakeFree(r, total);
      p := r + HEADER_SIZE;
      MallocsReused(h0, St(), fsm, total, granted, p);
    }

    /** `malloc` when the policy picked nothing: grow the heap, if `sbrk` agrees. */
    method PlaceFresh(total: nat, granted: bool) returns (p: int)
      requires Valid(St()) && MIN_BLOCK <= total <= HEAP_LIMIT && total % ALIGNMENT == 0 && NoFit(St(), fsm, total)
      modifies this`size, this`isFree, this`name, this`nextBlock, this`prevBlock, this`nextFree, this`prevFree,
               this`head, this`tail, this`freeHead, this`brk, this`blocks, this`frees
      ensures Valid(St()) && Mallocs(old(St()), St(), fsm, total, granted, p)
    {
      ghost var h0 := St();
      var pageSize := AlignToPage(total);
      AlignToPageIsLeast(total, HEAP_LIMIT);
      var block := Sbrk(pageSize, granted);
      if block == -1 {
        MallocsRefused(h0, fsm, total, granted);
        return NULL;
      }
      TakeFresh(block, pageSize, total, h0);
      p := block + HEADER_SIZE;
      MallocsGrown(h0, St(), fsm, total, granted, p);
    }

    // -------------------------------------------------------------------
    // free

    /**
     * `free(ptr)`: nothing for NULL; otherwise the block goes on the free
     * list and merges with free neighbours, and a free last block of a
     * page or more goes back to the host.
     */
    method Free(p: int)
      requires Valid(St()) && (p == NULL || p - HEADER_SIZE in Allocated(St()))
      modifies this`size, this`isFree, this`nextBlock, this`prevBlock, this`nextFree, this`prevFree,
               this`head, this`tail, this`freeHead, this`brk, this`blocks, this`frees
      ensures Valid(St())
      ensures p == NULL ==> St() == old(St())
      ensures p != NULL ==> Allocated(St()) == old(Allocated(St())) - {p - HEADER_SIZE} && !Releasable(St())
      ensures brk <= old(brk) && (brk == old(brk) || brk <= old(brk) - PAGE_SIZE)
      ensures p != NULL ==> St() == FreeOf(old(St()), p - HEADER_SIZE)
    {
      if p == NULL {
        return;
      }
      var block := p - HEADER_SIZE;
      FreeBlock(block);
      ReleaseTail();
    }

    /** `set_free` and `free_list_add` on b. */
    method MarkFree(b: int)
      requires FreeList(St()) && b > NULL && b !in frees
      modifies this`isFree, this`nextFree, this`prevFree, this`freeHead, this`frees
      ensures St() == AddFree(SetFlag(old(St()), b, true), b)
    {
      isFree := isFree[b := true];
      FreeListAdd(b);
    }

    /** The first half of `free`: b becomes free and merges with free neighbours. */
    method FreeBlock(b: int)
      requires Valid(St()) && b in Allocated(St())
      modifies this`size, this`isFree, this`nextBlock, this`prevBlock, this`nextFree, this`prevFree,
               this`tail, this`freeHead, this`blocks, this`frees
      ensures Valid(St()) && Allocated(St()) == old(Allocated(St())) - {b} && brk == old(brk)
      ensures St() == FreedOf(old(St()), b)
    {
      ghost var h0 := St();
      FreedKeeps(h0, b);
      MarkFree(b);
      ghost var h1 := St();
      MergeNextKeeps(h1, b, NULL);
      MergeNextCoalesces(h1, b, NULL);
      MergeNextAllocated(h1, b, NULL);
      MergeNextKeepsFree(h1, b, NULL);
      MergeWithNext(b, NULL);
      MergePrevKeeps(St(), b);
      MergeWithPrev(b);
    }

    /** The loop test at the end of `free`. */
    method CanRelease() returns (r: bool)
      requires Valid(St())
      ensures r == Releasable(St())
    {
      if tail == NULL {
        return false;
      }
      assert tail == blocks[|blocks| - 1];
      HeaderOf(St(), NULL, tail);
      r := isFree[tail] && size[tail] >= PAGE_SIZE;
    }

    /** One round of that loop: the last block leaves both lists and its bytes go back. */
    method ReleaseOne()
      requires Valid(St()) && Releasable(St())
      modifies this`nextBlock, this`prevBlock, this`nextFree, this`prevFree,
               this`head, this`tail, this`freeHead, this`brk, this`blocks, this`frees
      ensures St() == Release(old(St()))
    {
      TailLookups(St());
      var toRelease := tail;
      var releaseSize: int := size[toRelease];
      FreeListRemove(toRelease);
      BlockListRemove(toRelease);
      var _ := Sbrk(-releaseSize, true);
    }

    /**
     * The loop at the end of `free`: while the last block is free and at
     * least a page, give it back.  No block in use changes.
     */
    method ReleaseTail()
      requires Valid(St())
      modifies this`nextBlock, this`prevBlock, this`nextFree, this`prevFree,
               this`head, this`tail, this`freeHead, this`brk, this`blocks, this`frees
      ensures Valid(St()) && Allocated(St()) == old(Allocated(St())) && !Releasable(St())
      ensures brk <= old(brk) && (brk == old(brk) || brk <= old(brk) - PAGE_SIZE)
      ensures St() == Released(old(St()))
    {
      var more := CanRelease();
      while more
        invariant Valid(St()) && Allocated(St()) == old(Allocated(St())) && more == Releasable(St())
        invariant brk <= old(brk) && (brk == old(brk) || brk <= old(brk) - PAGE_SIZE)
        invariant more ==> St() == old(St())
        invariant !more ==> St() == Released(old(St()))
        decreases |blocks|
      {
        ReleaseKeeps(St());
        ReleaseOnce(St());
        ReleaseOne();
        more := CanRelease();
      }
    }

    // -------------------------------------------------------------------
    // calloc, realloc and the extras

    /**
     * `calloc(nmemb, size)` with the product checked: NULL, with nothing
     * changed, when it does not fit a `uint`; otherwise `malloc` of the
     * product, whose bytes the caller receives zeroed.
     */
    method Calloc(nmemb: nat, elemSize: nat, granted: bool) returns (p: int)
      requires Valid(St()) && nmemb < UINT_MOD && elemSize < UINT_MOD
      modifies this`size, this`isFree, this`name, this`nextBlock, this`prevBlock, this`nextFree, this`prevFree,
               this`head, this`tail, this`freeHead, this`brk, this`blocks, this`frees
      ensures Valid(St())
      ensures Callocs(old(St()), St(), fsm, nmemb, elemSize, granted, p)
    {
      ProductNat(nmemb, elemSize);
      var n := nmemb * elemSize;
      if n >= UINT_MOD {
        CallocGrants(St(), St(), fsm, nmemb, elemSize, granted, NULL);
        return NULL;
      }
      p := Malloc(n, granted);
      CallocGrants(old(St()), St(), fsm, nmemb, elemSize, granted, p);
    }

    /**
     * `realloc(ptr, size)`: `malloc` for NULL, `free` for size 0, NULL with
     * nothing changed for a size whose block would not fit the heap, and
     * otherwise a resize in place or a move.
     */
    method Realloc(p: int, request: nat, granted: bool) returns (q: int, copied: nat)
      requires Valid(St()) && request < UINT_MOD && (p == NULL || p - HEADER_SIZE in Allocated(St()))
      modifies this`size, this`isFree, this`name, this`nextBlock, this`prevBlock, this`nextFree, this`prevFree,
               this`head, this`tail, this`freeHead, this`brk, this`blocks, this`frees
      ensures Valid(St())
      ensures p == NULL ==> copied == 0
      ensures p == NULL ==>
        if 0 < request <= MAX_REQUEST then Mallocs(old(St()), St(), fsm, TotalSize(request), granted, q)
        else q == NULL && St() == old(St())
      ensures p != NULL && request == 0 ==>
        q == NULL && copied == 0 && Allocated(St()) == old(Allocated(St())) - {p - HEADER_SIZE} &&
        St() == FreeOf(old(St()), p - HEADER_SIZE)
      ensures p != NULL && request > MAX_REQUEST ==> q == NULL && copied == 0 && St() == old(St())
      ensures p != NULL && 0 < request <= MAX_REQUEST ==>
        Reallocs(old(St()), St(), p - HEADER_SIZE, fsm, TotalSize(request), granted, request, q, copied)
    {
      if p == NULL {
        q := Malloc(request, granted);
        return q, 0;
      }
      if request == 0 {
        Free(p);
        return NULL, 0;
      }
      if request > MAX_REQUEST {
        return NULL, 0;
      }
      q, copied := Resize(p - HEADER_SIZE, request, granted);
    }

    /** The three cases of `realloc` for a block b in use and a request it can serve. */
    method Resize(b: int, request: nat, granted: bool) returns (q: int, copied: nat)
      requires Valid(St()) && b in Allocated(St()) && 0 < request <= MAX_REQUEST
      modifies this`size, this`isFree, this`name, this`nextBlock, this`prevBlock, this`nextFree, this`prevFree,
               this`head, this`tail, this`freeHead, this`brk, this`blocks, this`frees
      ensures Valid(St()) && Reallocs(old(St()), St(), b, fsm, TotalSize(request), granted, request, q, copied)
    {
      ghost var h0 := St();
      AllocatedLookups(h0, b);
      MergeNextFits(h0, b, NULL);
      MergeLookups(h0, b, NULL);
      var oldSize := size[b];
      var totalSize := HEADER_SIZE + AlignSize(request);
      assert totalSize == TotalSize(request);
      if totalSize <= oldSize {
        Shrink(b, totalSize);
        return b + HEADER_SIZE, 0;
      }
      var next := nextBlock[b];
      if next != NULL && isFree[next] {
        var combined := oldSize + size[next];
        if combined >= totalSize {
          Expand(b, totalSize);
          return b + HEADER_SIZE, 0;
        }
      }
      q, copied := Relocate(b, request, granted);
    }

    /**
     * Case 1 of `realloc`: b already holds `total` bytes.  The excess, if
     * big enough, becomes a free block, which merges with a free successor.
     */
    method Shrink(b: int, total: nat)
      requires Valid(St()) && b in Allocated(St()) && b in size && total <= size[b]
      requires MIN_BLOCK <= total && total % ALIGNMENT == 0
      modifies this`size, this`isFree, this`name, this`nextBlock, this`prevBlock, this`nextFree, this`prevFree,
               this`tail, this`freeHead, this`blocks, this`frees
      ensures Valid(St()) && Resized(old(St()), St(), b, total) && brk == old(brk)
      ensures St() == ShrunkOf(old(St()), b, total)
    {
      ghost var h0 := St();
      AllocatedLookups(h0, b);
      var nb := SplitFree(b, total);
      if nb != NULL {
        ghost var h1 := St();
        SettleFreed(nb, b);
        ResizedAfter(h0, h1, St(), b, total);
      }
    }

    /**
     * The end of case 1: the new free block nb, whose predecessor b is in
     * use, merges with a free successor, after which the heap is coalesced.
     */
    method SettleFreed(nb: int, ghost b: int)
      requires Wf(St(), NULL) && nb in frees && nb in blocks && CoalescedAround(blocks, isFree, nb)
      requires Pred(St(), nb) == b && !Flag(isFree, b)
      modifies this`size, this`nextBlock, this`prevBlock, this`tail, this`blocks,
               this`nextFree, this`prevFree, this`freeHead, this`frees
      ensures Valid(St()) && Allocated(St()) == old(Allocated(St())) && brk == old(brk) && isFree == old(isFree)
      ensures Mergeable(old(St()), nb) && St() == MergeNextOf(old(St()), nb)
    {
      ghost var h1 := St();
      HeaderOf(h1, NULL, nb);
      MergeNextKeeps(h1, nb, NULL);
      MergeNextCoalesces(h1, nb, NULL);
      MergeNextAllocated(h1, nb, NULL);
      MergeWithNext(nb, NULL);
      ghost var h2 := St();
      assert Pred(h2, nb) == b && h2.isFree == h1.isFree;
      CloseAround(h2, nb);
    }

    /**
     * Case 2 of `realloc`: b's free successor makes up the difference.  It
     * leaves the free list, b absorbs it, and the excess is trimmed off.
     */
    method Expand(b: int, total: nat)
      requires Valid(St()) && b in Allocated(St()) && MIN_BLOCK <= total && total % ALIGNMENT == 0
      requires b in blocks && Succ(St(), b) != NULL && Flag(isFree, Succ(St(), b))
      requires b in size && Succ(St(), b) in size && total <= size[b] + size[Succ(St(), b)]
      modifies this`size, this`isFree, this`name, this`nextBlock, this`prevBlock, this`nextFree, this`prevFree,
               this`tail, this`freeHead, this`blocks, this`frees
      ensures Valid(St()) && Resized(old(St()), St(), b, total) && brk == old(brk)
      ensures St() == ExpandedOf(old(St()), b, total)
    {
      ghost var h0 := St();
      AllocatedLookups(h0, b);
      ExpandKeeps(h0, b);
      LinksOf(h0, b);
      var next := nextBlock[b];
      FreeListRemove(next);
      ghost var h1 := St();
      MergeNextKeeps(h1, b, next);
      MergeNextCoalesces(h1, b, next);
      MergeNextAllocated(h1, b, next);
      LinkedNonNull(h1.blocks, h1.nextBlock, h1.prevBlock);
      CoalescedWiden(h1.blocks, h1.isFree, b);
      MergeWithNext(b, next);
      ghost var h2 := St();
      CoalescedUsed(h2.blocks, h2.isFree, b);
      Trim(b, total);
      ResizedAfter(h0, h2, St(), b, total);
    }

    /**
     * Case 3 of `realloc`: `malloc` a new block, copy the old payload or
     * as much of it as the request wants, and free the old block.  NULL,
     * with nothing changed, if `malloc` fails.
     */
    method Relocate(b: int, request: nat, granted: bool) returns (q: int, copied: nat)
      requires Valid(St()) && b in Allocated(St()) && 0 < request <= MAX_REQUEST
      requires !FitsInPlace(St(), b, TotalSize(request))
      modifies this`size, this`isFree, this`name, this`nextBlock, this`prevBlock, this`nextFree, this`prevFree,
               this`head, this`tail, this`freeHead, this`brk, this`blocks, this`frees
      ensures Valid(St()) && Reallocs(old(St()), St(), b, fsm, TotalSize(request), granted, request, q, copied)
    {
      ghost var h0 := St();
      AllocatedLookups(h0, b);
      HeaderOf(h0, NULL, b);
      var oldSize := size[b];
      q := Malloc(request, granted);
      if q == NULL {
        ReallocsRefused(h0, St(), b, fsm, TotalSize(request), granted, request);
        return NULL, 0;
      }
      ghost var h1 := St();
      assert b in Allocated(h1) by {
        MallocsGrants(h0, h1, fsm, TotalSize(request), granted, q);
        GrantsKeeps(h0, h1, q - HEADER_SIZE, TotalSize(request), b);
      }
      copied := oldSize - HEADER_SIZE;
      if request < copied {
        copied := request;
      }
      Free(b + HEADER_SIZE);
      ReallocsMoved(h0, h1, St(), b, fsm, TotalSize(request), granted, request, q, copied);
    }

    /** `malloc_setfsm`: select the placement policy; any number is stored. */
    method SetFsm(algorithm: int)
      modifies this`fsm
      ensures fsm == algorithm && St() == old(St())
    {
      fsm := algorithm;
    }

    /**
     * `malloc_name(ptr, name)`: nothing for a NULL pointer or name;
     * otherwise up to seven characters of the name, up to its terminator,
     * are copied into the block's header and a terminator written after
     * them.  The bytes after that keep their old values.
     */
    method MallocName(p: int, newName: Option<seq<char>>)
      requires Valid(St()) && (p == NULL || p - HEADER_SIZE in Allocated(St()))
      modifies this`name
      ensures Valid(St())
      ensures p == NULL || newName == None ==> St() == old(St())
      ensures p != NULL && newName.Some? ==>
        var b := p - HEADER_SIZE;
        b in old(name) && name == old(name)[b := Labelled(old(name[b]), newName.value)] &&
        Allocated(St()) == old(Allocated(St()))[b := Alloc(old(Allocated(St()))[b].size, name[b])]
    {
      if p == NULL || newName == None {
        return;
      }
      var b := p - HEADER_SIZE;
      ghost var h0 := St();
      AllocatedLookups(h0, b);
      HeaderOf(h0, NULL, b);
      var written := CopyName(name[b], newName.value);
      name := name[b := written];
      RenameKeeps(h0, b, written);
    }

    /** The copy loop of `malloc_name` on the eight name bytes `prior` of a header. */
    method CopyName(prior: seq<char>, s: seq<char>) returns (nm: seq<char>)
      requires |prior| == NAME_LEN
      ensures nm == Labelled(prior, s)
    {
      nm := prior;
      var i := 0;
      while i < 7 && i < |s| && s[i] != '\0'
        invariant 0 <= i <= 7 && i <= |s| && '\0' !in s[..i]
        invariant |nm| == NAME_LEN && nm[..i] == s[..i] && nm[i..] == prior[i..]
      {
        nm := nm[i := s[i]];
        i := i + 1;
      }
      CStringPrefix(s, i);
      nm := nm[i := '\0'];
    }
  }

  // ---------------------------------------------------------------------
  // What the public operations promise

  /** The largest request the corrected `malloc` serves: header and payload still fit the heap. */
  const MAX_REQUEST: int := HEAP_LIMIT - HEADER_SIZE

  /** Growing the heap by n bytes: the host agrees and the heap stays within its limit. */
  predicate GrowthGranted(h: State, n: int, granted: bool)
  {
    granted && h.brk + n <= h.base + HEAP_LIMIT
  }

  /** The free block b is the one `policy` picks for `total` bytes. */
  ghost predicate Reuses(h: State, policy: int, total: nat, b: int)
  {
    b in h.frees && Chosen(policy, FreeSizes(h), total, IndexOf(h.frees, b))
  }

  /** `policy` picks no free block for `total` bytes. */
  ghost predicate NoFit(h: State, policy: int, total: nat)
  {
    !KnownPolicy(policy) || NoneAdequate(FreeSizes(h), total)
  }

  /**
   * From h to h' block b, not in use before, came into use with at least
   * `total` bytes and less than a header and a free node more; no other
   * block in use changed.
   */
  /** A product of naturals is a natural (kept apart from the heap facts in `calloc`). */
  lemma ProductNat(a: nat, b: nat)
    ensures a * b >= 0
  {
  }

  /** The two outcomes of `split` and `free_list_add` are those of `TrimOf`. */
  lemma TrimmedBy(h: State, h': State, b: int, total: nat, nb: int)
    requires Valid(h) && b in h.blocks && !Flag(h.isFree, b) && NotFree(h.isFree, Succ(h, b))
    requires b in h.size && MIN_BLOCK <= total <= h.size[b] && total % ALIGNMENT == 0
    requires nb == NULL ==> h' == h && h.size[b] < total + MIN_BLOCK
    requires nb != NULL ==>
      nb == b + total && b in h.nextBlock && h.size[b] >= total + MIN_BLOCK && h' == AddFree(SplitOf(h, b, total), nb)
    ensures h' == TrimOf(h, b, total)
  {
  }

  /**
   * What `calloc(nmemb, size)` does: NULL with nothing changed when the
   * product does not fit 32 bits, otherwise `malloc` of the product; a block
   * it grants has room for a header and nmemb * size bytes.
   */
  ghost predicate Callocs(h: State, h': State, policy: int, nmemb: nat, elemSize: nat, granted: bool, p: int)
    requires Valid(h)
  {
    var n := nmemb * elemSize;
    (n >= UINT_MOD ==> p == NULL && h' == h) &&
    (n < UINT_MOD ==> if 0 < n <= MAX_REQUEST then Mallocs(h, h', policy, TotalSize(n), granted, p) else p == NULL && h' == h) &&
    (p != NULL ==> p - HEADER_SIZE in Allocated(h') && Allocated(h')[p - HEADER_SIZE].size >= HEADER_SIZE + n)
  }

  /** The outcome of the body of `calloc` is `Callocs`. */
  lemma CallocGrants(h: State, h': State, policy: int, nmemb: nat, elemSize: nat, granted: bool, p: int)
    requires Valid(h) && (nmemb * elemSize >= UINT_MOD || nmemb * elemSize == 0 || nmemb * elemSize > MAX_REQUEST ==> p == NULL && h' == h)
    requires 0 < nmemb * elemSize <= MAX_REQUEST ==> Mallocs(h, h', policy, TotalSize(nmemb * elemSize), granted, p)
    ensures Callocs(h, h', policy, nmemb, elemSize, granted, p)
  {
    var n := nmemb * elemSize;
    if p != NULL {
      MallocsGrants(h, h', policy, TotalSize(n), granted, p);
    }
  }

  ghost predicate Grants(h: State, h': State, b: int, total: int)
  {
    var A := Allocated(h);
    var A' := Allocated(h');
    b !in A && b in A' && A' == A[b := A'[b]] && total <= A'[b].size < total + MIN_BLOCK
  }

  /**
   * What `malloc` does with a block of `total` bytes to place: reuse the
   * policy's pick, keeping its name, if there is one; else take a fresh
   * block at the old break with a cleared name if `sbrk` agrees; else
   * return NULL and change nothing.
   */
  ghost predicate Mallocs(h: State, h': State, policy: int, total: nat, granted: bool, p: int)
    requires Valid(h) && MIN_BLOCK <= total <= HEAP_LIMIT && total % ALIGNMENT == 0
  {
    var b := p - HEADER_SIZE;
    if !NoFit(h, policy, total) then
      p != NULL && Reuses(h, policy, total, b) && Grants(h, h', b, total) && b in h.name && Allocated(h')[b].name == h.name[b] &&
      h'.brk == h.brk && b in h.size && total <= h.size[b] && h' == ReusedOf(h, b, total)
    else if GrowthGranted(h, AlignToPage(total), granted) then
      p != NULL && b == h.brk && Grants(h, h', b, total) && Allocated(h')[b].name == ZeroName() &&
      h'.brk == h.brk + AlignToPage(total) && h' == FreshOf(h, AlignToPage(total), total)
    else
      p == NULL && h' == h
  }

  /** b came into use in h1 and was then trimmed: from h0 to h2 it was granted. */
  lemma GrantsAfter(h0: State, h1: State, h2: State, b: int, total: int)
    requires b !in Allocated(h0) && b in Allocated(h1) && Allocated(h1) == Allocated(h0)[b := Allocated(h1)[b]]
    requires b in Allocated(h2) && Allocated(h2) == Allocated(h1)[b := Allocated(h2)[b]]
    requires total <= Allocated(h2)[b].size < total + MIN_BLOCK
    ensures Grants(h0, h2, b, total)
  {
    var A0, A1, A2 := Allocated(h0), Allocated(h1), Allocated(h2);
    assert A1[b := A2[b]] == A0[b := A2[b]];
  }

  /** The reuse case of `Mallocs`. */
  lemma MallocsReused(h: State, h': State, policy: int, total: nat, granted: bool, p: int)
    requires Valid(h) && MIN_BLOCK <= total <= HEAP_LIMIT && total % ALIGNMENT == 0 && p != NULL && Reuses(h, policy, total, p - HEADER_SIZE) && Grants(h, h', p - HEADER_SIZE, total)
    requires p - HEADER_SIZE in h.name && Allocated(h')[p - HEADER_SIZE].name == h.name[p - HEADER_SIZE] && h'.brk == h.brk
    requires p - HEADER_SIZE in h.size && total <= h.size[p - HEADER_SIZE] && h' == ReusedOf(h, p - HEADER_SIZE, total)
    ensures Mallocs(h, h', policy, total, granted, p)
  {
    ChosenExactly(policy, FreeSizes(h), total, IndexOf(h.frees, p - HEADER_SIZE));
  }

  /** The growth case of `Mallocs`. */
  lemma MallocsGrown(h: State, h': State, policy: int, total: nat, granted: bool, p: int)
    requires Valid(h) && MIN_BLOCK <= total <= HEAP_LIMIT && total % ALIGNMENT == 0 && NoFit(h, policy, total) && GrowthGranted(h, AlignToPage(total), granted)
    requires p != NULL && p == h.brk + HEADER_SIZE && Grants(h, h', h.brk, total) && Allocated(h')[h.brk].name == ZeroName()
    requires h'.brk == h.brk + AlignToPage(total) && h' == FreshOf(h, AlignToPage(total), total)
    ensures Mallocs(h, h', policy, total, granted, p)
  {
  }

  /** The refusal case of `Mallocs`. */
  lemma MallocsRefused(h: State, policy: int, total: nat, granted: bool)
    requires Valid(h) && MIN_BLOCK <= total <= HEAP_LIMIT && total % ALIGNMENT == 0 && NoFit(h, policy, total) && !GrowthGranted(h, AlignToPage(total), granted)
    ensures Mallocs(h, h, policy, total, granted, NULL)
  {
  }

  /** A non-NULL result of `malloc` is a block granted to the caller. */
  lemma MallocsGrants(h: State, h': State, policy: int, total: nat, granted: bool, p: int)
    requires Valid(h) && MIN_BLOCK <= total <= HEAP_LIMIT && total % ALIGNMENT == 0 && Mallocs(h, h', policy, total, granted, p) && p != NULL
    ensures Grants(h, h', p - HEADER_SIZE, total)
    ensures p - HEADER_SIZE in Allocated(h') && Allocated(h')[p - HEADER_SIZE].size >= total
  {
  }

  /** A block in use stays in use, and is not the one granted. */
  lemma GrantsKeeps(h: State, h': State, c: int, total: int, b: int)
    requires Grants(h, h', c, total) && b in Allocated(h)
    ensures b != c && b in Allocated(h') && Allocated(h')[b] == Allocated(h)[b]
  {
  }

  /** `malloc` returns NULL only when no block fits and `sbrk` refuses, and then changes nothing. */
  lemma MallocsNull(h: State, h': State, policy: int, total: nat, granted: bool)
    requires Valid(h) && MIN_BLOCK <= total <= HEAP_LIMIT && total % ALIGNMENT == 0 && Mallocs(h, h', policy, total, granted, NULL)
    ensures NoFit(h, policy, total) && !GrowthGranted(h, AlignToPage(total), granted) && h' == h
  {
  }

  /** When `malloc` succeeds, a block fitted or `sbrk` agreed. */
  lemma MallocsFound(h: State, h': State, policy: int, total: nat, granted: bool, p: int)
    requires Valid(h) && MIN_BLOCK <= total <= HEAP_LIMIT && total % ALIGNMENT == 0 && Mallocs(h, h', policy, total, granted, p) && p != NULL
    ensures !(NoFit(h, policy, total) && !GrowthGranted(h, AlignToPage(total), granted))
  {
  }

  /**
   * `realloc`'s test for staying in place: b already holds `total` bytes,
   * or together with its free successor it does.
   */
  ghost predicate FitsInPlace(h: State, b: int, total: nat)
  {
    b in h.blocks && b in h.size &&
    (total <= h.size[b] ||
     var x := Succ(h, b); x != NULL && Flag(h.isFree, x) && x in h.size && total <= h.size[b] + h.size[x])
  }

  /**
   * From h to h' the block b in use kept its name and now has at least
   * `total` bytes and less than a minimum block more; no other block in
   * use changed.
   */
  ghost predicate Resized(h: State, h': State, b: int, total: int)
  {
    var A := Allocated(h);
    var A' := Allocated(h');
    b in A && b in A' && A' == A[b := A'[b]] && A'[b].name == A[b].name && total <= A'[b].size < total + MIN_BLOCK
  }

  /**
   * From h to h' the block b in use was given up for c, not in use before,
   * which now has at least `total` bytes and less than a minimum block
   * more; no other block in use changed.
   */
  ghost predicate Relocated(h: State, h': State, b: int, c: int, total: int)
  {
    var A := Allocated(h);
    var A' := Allocated(h');
    b in A && c !in A && b !in A' && c in A' && A' == (A - {b})[c := A'[c]] && total <= A'[c].size < total + MIN_BLOCK
  }

  /**
   * What `realloc` does with block b in use and a request of `total`
   * bytes: stay in place when that fits; else NULL with nothing changed
   * when `malloc` would fail; else move to a new block, having copied the
   * smaller of the old payload and the request.
   */
  ghost predicate Reallocs(h: State, h': State, b: int, policy: int, total: nat, granted: bool, request: nat, q: int, copied: nat)
    requires Valid(h) && b in Allocated(h) && MIN_BLOCK <= total <= HEAP_LIMIT && total % ALIGNMENT == 0
  {
    if FitsInPlace(h, b, total) then
      q == b + HEADER_SIZE && copied == 0 && Resized(h, h', b, total) &&
      h' == if total <= h.size[b] then ShrunkOf(h, b, total) else ExpandedOf(h, b, total)
    else if NoFit(h, policy, total) && !GrowthGranted(h, AlignToPage(total), granted) then
      q == NULL && copied == 0 && h' == h
    else
      q != NULL && Relocated(h, h', b, q - HEADER_SIZE, total) && b in h.size &&
      copied == (if request < h.size[b] - HEADER_SIZE then request else h.size[b] - HEADER_SIZE) &&
      exists h1 :: Mallocs(h, h1, policy, total, granted, q) && Valid(h1) && b in Allocated(h1) && h' == FreeOf(h1, b)
  }

  /** b stayed in use through two steps, each keeping its name and others: it was resized. */
  lemma ResizedAfter(h0: State, h1: State, h2: State, b: int, total: int)
    requires b in Allocated(h0) && b in Allocated(h1) && Allocated(h1) == Allocated(h0)[b := Allocated(h1)[b]]
    requires Allocated(h1)[b].name == Allocated(h0)[b].name
    requires b in Allocated(h2) && Allocated(h2) == Allocated(h1)[b := Allocated(h2)[b]]
    requires Allocated(h2)[b].name == Allocated(h1)[b].name && total <= Allocated(h2)[b].size < total + MIN_BLOCK
    ensures Resized(h0, h2, b, total)
  {
    var A0, A1, A2 := Allocated(h0), Allocated(h1), Allocated(h2);
    assert A1[b := A2[b]] == A0[b := A2[b]];
  }

  /** c was granted, then b freed: b was relocated to c. */
  lemma RelocatedAfter(h0: State, h1: State, h2: State, b: int, c: int, total: int)
    requires b in Allocated(h0) && Grants(h0, h1, c, total) && Allocated(h2) == Allocated(h1) - {b}
    ensures Relocated(h0, h2, b, c, total)
  {
    var A0, A1, A2 := Allocated(h0), Allocated(h1), Allocated(h2);
    assert b != c;
    assert A2 == (A0 - {b})[c := A2[c]];
  }

  /** Case 3 of `realloc` when `malloc` fails. */
  lemma ReallocsRefused(h: State, h': State, b: int, policy: int, total: nat, granted: bool, request: nat)
    requires Valid(h) && b in Allocated(h) && MIN_BLOCK <= total <= HEAP_LIMIT && total % ALIGNMENT == 0
    requires !FitsInPlace(h, b, total) && Mallocs(h, h', policy, total, granted, NULL)
    ensures Reallocs(h, h', b, policy, total, granted, request, NULL, 0)
  {
    MallocsNull(h, h', policy, total, granted);
  }

  /** Case 3 of `realloc` when `malloc` succeeds and the old block is freed. */
  lemma ReallocsMoved(h0: State, h1: State, h2: State, b: int, policy: int, total: nat, granted: bool,
                      request: nat, q: int, copied: nat)
    requires Valid(h0) && b in Allocated(h0) && MIN_BLOCK <= total <= HEAP_LIMIT && total % ALIGNMENT == 0
    requires !FitsInPlace(h0, b, total) && Mallocs(h0, h1, policy, total, granted, q) && q != NULL
    requires Valid(h1) && b in Allocated(h1) && h2 == FreeOf(h1, b) && b in h0.size
    requires copied == if request < h0.size[b] - HEADER_SIZE then request else h0.size[b] - HEADER_SIZE
    ensures Reallocs(h0, h2, b, policy, total, granted, request, q, copied)
  {
    MallocsGrants(h0, h1, policy, total, granted, q);
    RelocatedAfter(h0, h1, h2, b, q - HEADER_SIZE, total);
    MallocsFound(h0, h1, policy, total, granted, q);
  }

  /**
   * The eight name bytes after `malloc_name` wrote `newName` over `prior`:
   * at most seven characters of it, then a NUL, then the rest of the
   * prior bytes.  Read back as a C string, the stored name is the new
   * name cut to seven characters.
   */
  function Labelled(prior: seq<char>, newName: seq<char>): (r: seq<char>)
    requires |prior| == NAME_LEN
    ensures |r| == NAME_LEN
    ensures var c := CString(newName); CString(r) == if |c| <= 7 then c else c[..7]
  {
    var c := CString(newName);
    var k := if |c| < 7 then |c| else 7;
    CStringStops(c[..k], prior[k + 1..]);
    c[..k] + ['\0'] + prior[k + 1..]
  }

  /** `sizeof(struct mem_block) + align_size(size)` as written: a `uint` sum, which wraps. */
  function TotalSizeAsWritten(request: nat): (t: nat)
    requires request < UINT_MOD
    ensures t < UINT_MOD && t % ALIGNMENT == 0
  {
    (HEADER_SIZE + AlignSize(request)) % UINT_MOD
  }

  /** A request near 2^32 yields a block smaller than its own header. */
  lemma TotalSizeWraps()
    ensures TotalSizeAsWritten(0xFFFF_FFF0) == 16 < HEADER_SIZE
  {
  }

  /**
   * The block size a request needs once the wrap is ruled out: the header
   * plus the payload rounded up to 16, no less than a minimum block and
   * within the heap; for these requests it agrees with the sum as written.
   */
  function TotalSize(request: nat): (t: nat)
    requires 0 < request <= MAX_REQUEST
    ensures t % ALIGNMENT == 0 && HEADER_SIZE + request <= t < HEADER_SIZE + request + ALIGNMENT
    ensures MIN_BLOCK <= t <= HEAP_LIMIT && t == TotalSizeAsWritten(request)
  {
    AlignSizeIsLeast(request, MAX_REQUEST);
    HEADER_SIZE + AlignSize(request)
  }
  /** The byte count `calloc` hands to `malloc` as written: a `uint` product, which wraps. */
  function CallocRequestAsWritten(nmemb: nat, elemSize: nat): (n: nat)
    requires nmemb < UINT_MOD && elemSize < UINT_MOD
    ensures n < UINT_MOD
    ensures nmemb * elemSize < UINT_MOD ==> n == nmemb * elemSize
  {
    (nmemb * elemSize) % UINT_MOD
  }

  /**
   * 65536 elements of 65537 bytes each wrap to a request of 65536 bytes,
   * and a block that size is far smaller than the array asked for.
   */
  lemma CallocWraps()
    ensures CallocRequestAsWritten(65536, 65537) == 65536
    ensures CallocRequestAsWritten(65536, 65537) < 65536 * 65537
  {
    assert 65536 * 65537 == UINT_MOD + 65536;
  }
}
