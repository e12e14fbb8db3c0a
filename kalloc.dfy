/**
 * The kernel's physical page allocator (kernel/kalloc.c).  Free pages form
 * a list threaded through the pages themselves, newest first; it is the
 * sequence of their addresses here.  Every page between KERNBASE and
 * PHYSTOP has a reference count; `kfree` returns a page to the list only
 * when its count drops to zero or below, `kalloc` takes the head and sets
 * its count to 1.  The junk bytes `memset` writes are kept per page.
 * The layout constants are those of xv6 on RISC-V: kernel/memlayout.h and
 * kernel/riscv.h are not part of this model.
 */
module Kalloc {
  const PGSIZE := 4096
  const KERNBASE := 0x8000_0000
  const PHYSTOP := KERNBASE + 128 * 1024 * 1024
  /** The entries of `ref_count`: (PHYSTOP - KERNBASE) / PGSIZE. */
  const NPAGES := 32768
  const UINT64_MOD := 0x1_0000_0000_0000_0000
  const INT32_MOD := 0x1_0000_0000
  /** The byte `kfree` fills a freed page with. */
  const JUNK_FREE := 1
  /** The byte `kalloc` fills an allocated page with. */
  const JUNK_ALLOC := 5

  /** A `uint64` converted to a 32-bit `int` the way the compiler does: its low 32 bits, as a signed value. */
  function ToInt32(x: nat): (i: int)
    ensures -INT32_MOD / 2 <= i < INT32_MOD / 2 && (i - x) % INT32_MOD == 0
  {
    var y := x % INT32_MOD;
    if y >= INT32_MOD / 2 then y - INT32_MOD else y
  }

  /**
   * `pa2idx(pa)`: `(pa - KERNBASE) / PGSIZE` in unsigned 64-bit arithmetic,
   * returned as an `int`.
   */
  function Pa2Idx(pa: nat): (i: int)
    requires pa < UINT64_MOD
    ensures KERNBASE <= pa < PHYSTOP ==> i == (pa - KERNBASE) / PGSIZE && 0 <= i < NPAGES
  {
    ToInt32(((pa - KERNBASE) % UINT64_MOD) / PGSIZE)
  }

  /** A page address `ref_count` has an entry for. */
  predicate Counted(pa: nat)
  {
    pa < UINT64_MOD && 0 <= Pa2Idx(pa) < NPAGES
  }

  /** Every page of ps is counted. */
  predicate AllCounted(ps: seq<nat>)
  {
    forall k {:trigger ps[k]} :: 0 <= k < |ps| ==> Counted(ps[k])
  }

  /** `PGROUNDUP(a)`: a rounded up to a multiple of PGSIZE. */
  function PgRoundUp(a: nat): (r: nat)
    ensures a <= r < a + PGSIZE && r % PGSIZE == 0
  {
    (a + PGSIZE - 1) / PGSIZE * PGSIZE
  }

  /** The pages `freerange` frees: from lo on, each PGSIZE after the one before, while the page fits below hi. */
  function PageRange(lo: int, hi: int): (ps: seq<nat>)
    requires 0 <= lo
    ensures forall k :: 0 <= k < |ps| ==> ps[k] == lo + k * PGSIZE && ps[k] + PGSIZE <= hi
    ensures lo + (|ps| + 1) * PGSIZE > hi
    decreases hi - lo
  {
    if lo + PGSIZE <= hi then [lo] + PageRange(lo + PGSIZE, hi) else []
  }

  function Reversed(ps: seq<nat>): (r: seq<nat>)
    ensures |r| == |ps| && forall k :: 0 <= k < |ps| ==> r[k] == ps[|ps| - 1 - k]
  {
    if ps == [] then [] else Reversed(ps[1..]) + [ps[0]]
  }

  /**
   * The allocator's state: the free list (head first), `ref_count`, and
   * the byte each page was last filled with.
   */
  datatype KState = KState(freelist: seq<nat>, refs: seq<int>, fill: map<nat, int>)

  /** A state the functions below apply to: the count array has its size, the list holds 64-bit addresses. */
  predicate Wf(s: KState)
  {
    |s.refs| == NPAGES && forall k :: 0 <= k < |s.freelist| ==> s.freelist[k] < UINT64_MOD
  }

  /**
   * `kfree(pa)`: decrement the count; a page still referenced stays where
   * it is, else it is filled with junk and pushed on the list.
   */
  function KfreeOf(s: KState, pa: nat): (r: KState)
    requires Wf(s) && Counted(pa)
    ensures Wf(r)
  {
    KfreeAt(s, pa, Pa2Idx(pa))
  }

  /** `kfree(pa)` once its index i is known. */
  function KfreeAt(s: KState, pa: nat, i: int): (r: KState)
    requires Wf(s) && pa < UINT64_MOD && 0 <= i < NPAGES
    ensures Wf(r)
  {
    var refs := s.refs[i := s.refs[i] - 1];
    if refs[i] > 0 then s.(refs := refs)
    else KState([pa] + s.freelist, refs, s.fill[pa := JUNK_FREE])
  }

  /**
   * `kalloc()`: the head of the list, filled with junk and with count 1
   * when its index is in range, or 0 and no change when the list is empty.
   */
  function KallocOf(s: KState): (r: (KState, nat))
    requires Wf(s)
    ensures Wf(r.0)
  {
    if s.freelist == [] then (s, 0)
    else
      var p := s.freelist[0];
      var i := Pa2Idx(p);
      var refs := if 0 <= i < NPAGES then s.refs[i := 1] else s.refs;
      (KState(s.freelist[1..], refs, s.fill[p := JUNK_ALLOC]), p)
  }

  /** `krefpage(pa)`: one more reference to the page. */
  function KrefOf(s: KState, pa: nat): (r: KState)
    requires Wf(s) && Counted(pa)
    ensures Wf(r)
  {
    var i := Pa2Idx(pa);
    s.(refs := s.refs[i := s.refs[i] + 1])
  }

  /** `kfree` of each of the pages in turn. */
  function FreeAllOf(s: KState, ps: seq<nat>): (r: KState)
    requires Wf(s) && AllCounted(ps)
    ensures Wf(r)
    decreases |ps|
  {
    if ps == [] then s else KfreeOf(FreeAllOf(s, ps[..|ps| - 1]), ps[|ps| - 1])
  }

  /** `kfree` of each of the pages in turn, their indices counting up from base. */
  function FreeRunOf(s: KState, ps: seq<nat>, base: int): (r: KState)
    requires Wf(s) && (forall k :: 0 <= k < |ps| ==> ps[k] < UINT64_MOD)
    requires ps == [] || (0 <= base && base + |ps| <= NPAGES)
    ensures Wf(r)
    decreases |ps|
  {
    if ps == [] then s
    else
      var n := |ps| - 1;
      KfreeAt(FreeRunOf(s, ps[..n], base), ps[n], base + n)
  }

  /** Freeing one more page after a run of frees. */
  lemma {:induction false} FreeAllSnoc(s: KState, done: seq<nat>, p: nat)
    requires Wf(s) && AllCounted(done) && Counted(p)
    ensures AllCounted(done + [p]) && FreeAllOf(s, done + [p]) == KfreeOf(FreeAllOf(s, done), p)
  {
    assert (done + [p])[..|done|] == done;
  }

  /** The page range, split after the pages done, gains the next page. */
  lemma {:induction false} PageRangeStep(lo: int, p: int, hi: int, done: seq<nat>)
    requires 0 <= lo && 0 <= p && p + PGSIZE <= hi && PageRange(lo, hi) == done + PageRange(p, hi)
    ensures PageRange(lo, hi) == (done + [p]) + PageRange(p + PGSIZE, hi)
  {
    assert PageRange(p, hi) == [p] + PageRange(p + PGSIZE, hi);
  }

  /** `kinit()`: every count zeroed, then `freerange(end, PHYSTOP)`. */
  function KinitOf(s: KState, kernelEnd: nat): KState
    requires Wf(s) && KERNBASE <= kernelEnd <= PHYSTOP
  {
    var lo := PgRoundUp(kernelEnd);
    PageRangeCounted(lo, PHYSTOP);
    FreeAllOf(s.(refs := seq(NPAGES, _ => 0)), PageRange(lo, PHYSTOP))
  }

  /** `freemem()`: the free pages times PGSIZE, in unsigned 64-bit arithmetic, in KiB. */
  function FreememOf(pages: nat): (kb: nat)
    ensures pages * PGSIZE < UINT64_MOD ==> kb == 4 * pages
  {
    (pages * PGSIZE) % UINT64_MOD / 1024
  }

  /** The allocator invariant: every page on the list is counted, unreferenced, and on it once. */
  predicate FreeInv(s: KState)
  {
    && Wf(s)
    && AllCounted(s.freelist) && (forall k :: 0 <= k < |s.freelist| ==> s.refs[Pa2Idx(s.freelist[k])] <= 0)
    && (forall k, l :: 0 <= k < l < |s.freelist| ==> Pa2Idx(s.freelist[k]) != Pa2Idx(s.freelist[l]))
  }

  class Kmem {
    /** `kmem.freelist`: the free pages, head first. */
    var freelist: seq<nat>
    /** `ref_count`. */
    const refCount: array<int>
    /** The byte each page was last filled with by `memset`. */
    var fill: map<nat, int>

    ghost predicate Valid()
      reads this
    {
      refCount.Length == NPAGES && forall k :: 0 <= k < |freelist| ==> freelist[k] < UINT64_MOD
    }

    function State(): KState
      reads this, refCount
    {
      KState(freelist, refCount[..], fill)
    }

    /** The allocator's static storage before `kinit`: an empty list and zero counts. */
    constructor ()
      ensures Valid() && freelist == [] && fill == map[] && fresh(refCount)
    {
      freelist := [];
      refCount := new int[NPAGES](_ => 0);
      fill := map[];
    }

    /** `kinit()`, with the end of the kernel (`end`, a symbol of the linker script) passed in. */
    method Kinit(kernelEnd: nat)
      requires Valid() && KERNBASE <= kernelEnd <= PHYSTOP
      modifies this, refCount
      ensures Valid() && State() == KinitOf(old(State()), kernelEnd)
    {
      for i := 0 to NPAGES
        modifies refCount
        invariant forall j :: 0 <= j < i ==> refCount[j] == 0
      {
        refCount[i] := 0;
      }
      assert refCount[..] == seq(NPAGES, _ => 0);
      Freerange(kernelEnd, PHYSTOP);
    }

    /** `freerange(pa_start, pa_end)`: `kfree` of every whole page from PGROUNDUP(pa_start) up to pa_end. */
    method Freerange(paStart: nat, paEnd: nat)
      requires Valid() && KERNBASE <= paStart && paEnd <= PHYSTOP
      modifies this, refCount
      ensures Valid() && State() == FreeAllOf(old(State()), PageRange(PgRoundUp(paStart), paEnd))
    {
      var p := PgRoundUp(paStart);
      ghost var lo := p;
      ghost var s0 := State();
      ghost var done: seq<nat> := [];
      while p + PGSIZE <= paEnd
        invariant Valid() && KERNBASE <= p && AllCounted(done)
        invariant PageRange(lo, paEnd) == done + PageRange(p, paEnd)
        invariant State() == FreeAllOf(s0, done)
        decreases paEnd - p
      {
        PageRangeStep(lo, p, paEnd, done);
        FreeAllSnoc(s0, done, p);
        Kfree(p);
        done := done + [p];
        p := p + PGSIZE;
      }
      assert PageRange(lo, paEnd) == done;
    }

    /** `kfree(pa)`; the C code indexes `ref_count` with pa2idx(pa) unchecked. */
    method Kfree(pa: nat)
      requires Valid() && Counted(pa)
      modifies this, refCount
      ensures Valid() && State() == KfreeOf(old(State()), pa)
    {
      var idx := Pa2Idx(pa);
      refCount[idx] := refCount[idx] - 1;
      if refCount[idx] > 0 {
        return;
      }
      fill := fill[pa := JUNK_FREE];
      freelist := [pa] + freelist;
    }

    /** `kalloc()`: a page, or 0 when none is free. */
    method Kalloc() returns (r: nat)
      requires Valid()
      modifies this, refCount
      ensures Valid() && (State(), r) == KallocOf(old(State()))
    {
      if freelist == [] {
        return 0;
      }
      r := freelist[0];
      freelist := freelist[1..];
      fill := fill[r := JUNK_ALLOC];
      var idx := Pa2Idx(r);
      if idx >= 0 && idx < NPAGES {
        refCount[idx] := 1;
      }
    }

    /** `krefpage(pa)`. */
    method Krefpage(pa: nat)
      requires Valid() && Counted(pa)
      modifies refCount
      ensures State() == KrefOf(old(State()), pa)
    {
      var idx := Pa2Idx(pa);
      refCount[idx] := refCount[idx] + 1;
    }

    /** `Kfreepages()`: the length of the free list, walked node by node. */
    method Kfreepages() returns (n: nat)
      ensures n == |freelist|
    {
      n := 0;
      var r := freelist;
      while r != []
        invariant n + |r| == |freelist|
      {
        n := n + 1;
        r := r[1..];
      }
    }

    /** `freemem()`: the free memory in KiB. */
    method Freemem() returns (kb: nat)
      ensures kb == FreememOf(|freelist|)
    {
      var pages := Kfreepages();
      kb := (pages * PGSIZE) % UINT64_MOD / 1024;
    }
  }

  // ---------------------------------------------------------------------
  // Addresses and indices

  /** Below KERNBASE the unsigned subtraction wraps and the index comes out negative, so `kalloc`'s range check rejects it. */
  lemma {:induction false} Pa2IdxBelow(pa: nat)
    requires pa < KERNBASE
    ensures Pa2Idx(pa) < 0
  {
    var d := (pa - KERNBASE) % UINT64_MOD;
    assert d == UINT64_MOD - (KERNBASE - pa);
  }

  /** The 32-bit truncation makes a far address alias the first page: the range check in `kalloc` is no full check. */
  lemma {:induction false} Pa2IdxAliases()
    ensures Pa2Idx(KERNBASE + 0x1000_0000_0000) == 0
  {
  }

  /** Consecutive pages from KERNBASE on have consecutive indices. */
  lemma {:induction false} PageIdx(lo: nat, k: nat)
    requires KERNBASE <= lo && lo + k * PGSIZE < PHYSTOP
    ensures Pa2Idx(lo + k * PGSIZE) == Pa2Idx(lo) + k
  {
    assert (lo - KERNBASE + k * PGSIZE) / PGSIZE == (lo - KERNBASE) / PGSIZE + k;
  }

  /** The pages `freerange` frees below PHYSTOP are counted, with indices one apart. */
  lemma {:induction false} PageRangeCounted(lo: nat, hi: int)
    requires KERNBASE <= lo && hi <= PHYSTOP
    ensures var ps := PageRange(lo, hi);
      && (AllCounted(ps))
      && (forall k :: 0 <= k < |ps| ==> Pa2Idx(ps[k]) == Pa2Idx(lo) + k)
      && (ps != [] ==> 0 <= Pa2Idx(lo) && Pa2Idx(lo) + |ps| <= NPAGES)
  {
    var ps := PageRange(lo, hi);
    forall k | 0 <= k < |ps|
      ensures Counted(ps[k]) && Pa2Idx(ps[k]) == Pa2Idx(lo) + k
    {
      PageIdx(lo, k);
    }
    if ps != [] {
      assert Counted(ps[0]) && Counted(ps[|ps| - 1]);
    }
  }

  // ---------------------------------------------------------------------
  // What the operations promise

  /** `kalloc` on an empty list returns 0 and changes nothing. */
  lemma {:induction false} KallocEmpty(s: KState)
    requires Wf(s) && s.freelist == []
    ensures KallocOf(s) == (s, 0)
  {
  }

  /** A page freed for the last time is the next one `kalloc` returns, with count 1; the list is as before. */
  lemma {:induction false} KfreeThenKalloc(s: KState, pa: nat)
    requires Wf(s) && Counted(pa) && s.refs[Pa2Idx(pa)] <= 1
    ensures var i := Pa2Idx(pa);
      KallocOf(KfreeOf(s, pa)) == (KState(s.freelist, s.refs[i := 1], s.fill[pa := JUNK_ALLOC]), pa)
  {
    var i := Pa2Idx(pa);
    assert s.refs[i := s.refs[i] - 1][i := 1] == s.refs[i := 1];
    assert ([pa] + s.freelist)[1..] == s.freelist;
    assert s.fill[pa := JUNK_FREE][pa := JUNK_ALLOC] == s.fill[pa := JUNK_ALLOC];
  }

  /** Freeing a page still referenced only drops its count. */
  lemma {:induction false} KfreeShared(s: KState, pa: nat)
    requires Wf(s) && Counted(pa) && s.refs[Pa2Idx(pa)] > 1
    ensures var i := Pa2Idx(pa);
      KfreeOf(s, pa) == s.(refs := s.refs[i := s.refs[i] - 1])
  {
  }

  /** `krefpage` then `kfree` of a page in use leaves the allocator as it was. */
  lemma {:induction false} KrefThenKfree(s: KState, pa: nat)
    requires Wf(s) && Counted(pa) && s.refs[Pa2Idx(pa)] >= 1
    ensures KfreeOf(KrefOf(s, pa), pa) == s
  {
    var i := Pa2Idx(pa);
    assert s.refs[i := s.refs[i] + 1][i := s.refs[i]] == s.refs;
  }

  /** `krefpage` changes exactly the count of its page, by one. */
  lemma {:induction false} KrefCounts(s: KState, pa: nat)
    requires Wf(s) && Counted(pa)
    ensures var r := KrefOf(s, pa);
      && r.freelist == s.freelist && r.fill == s.fill
      && forall j :: 0 <= j < NPAGES ==> r.refs[j] == s.refs[j] + (if j == Pa2Idx(pa) then 1 else 0)
  {
  }

  /** One `kfree` or `kalloc` changes the number of free pages by at most one. */
  lemma {:induction false} FreeCount(s: KState, pa: nat)
    requires Wf(s) && Counted(pa)
    ensures |KfreeOf(s, pa).freelist| == |s.freelist| + (if s.refs[Pa2Idx(pa)] <= 1 then 1 else 0)
    ensures |KallocOf(s).0.freelist| == if s.freelist == [] then 0 else |s.freelist| - 1
  {
  }

  /** A page given out by `kalloc` is no longer on the list and has count 1; the invariant holds after. */
  lemma {:induction false} KallocKeeps(s: KState)
    requires FreeInv(s)
    ensures var (r, p) := KallocOf(s);
      && FreeInv(r)
      && (p != 0 ==> p == s.freelist[0] && Counted(p) && r.refs[Pa2Idx(p)] == 1
                      && forall k :: 0 <= k < |r.freelist| ==> Pa2Idx(r.freelist[k]) != Pa2Idx(p))
  {
    if s.freelist != [] {
      var p := s.freelist[0];
      assert forall k :: 0 <= k < |s.freelist| - 1 ==> s.freelist[1..][k] == s.freelist[k + 1];
      assert p != 0 by {
        Pa2IdxBelow(0);
      }
    }
  }

  /** Freeing a page in use keeps the invariant. */
  lemma {:induction false} KfreeKeeps(s: KState, pa: nat)
    requires FreeInv(s) && Counted(pa) && s.refs[Pa2Idx(pa)] >= 1
    ensures FreeInv(KfreeOf(s, pa))
  {
    var r := KfreeOf(s, pa);
    var i := Pa2Idx(pa);
    if r.freelist != s.freelist {
      assert forall k :: 0 < k < |r.freelist| ==> r.freelist[k] == s.freelist[k - 1];
      assert forall k :: 0 <= k < |s.freelist| ==> Pa2Idx(s.freelist[k]) != i;
    }
  }

  /** A new reference to a page in use keeps the invariant. */
  lemma {:induction false} KrefKeeps(s: KState, pa: nat)
    requires FreeInv(s) && Counted(pa) && s.refs[Pa2Idx(pa)] >= 1
    ensures FreeInv(KrefOf(s, pa))
  {
  }

  /** Freeing pages whose indices count up from base is freeing them one by one. */
  lemma {:induction false} FreeRunIs(s: KState, ps: seq<nat>, base: int)
    requires Wf(s) && AllCounted(ps) && (ps == [] || (0 <= base && base + |ps| <= NPAGES))
    requires forall k :: 0 <= k < |ps| ==> Pa2Idx(ps[k]) == base + k
    ensures FreeRunOf(s, ps, base) == FreeAllOf(s, ps)
    decreases |ps|
  {
    if ps != [] {
      var n := |ps| - 1;
      var front := ps[..n];
      assert forall k :: 0 <= k < n ==> front[k] == ps[k];
      FreeRunIs(s, front, base);
    }
  }

  /** A run of frees of pages whose counts are at most 1 pushes them all, in order, so the list then has them last first. */
  lemma {:induction false} FreeRunList(s: KState, ps: seq<nat>, base: int)
    requires Wf(s) && (forall k :: 0 <= k < |ps| ==> ps[k] < UINT64_MOD)
    requires ps == [] || (0 <= base && base + |ps| <= NPAGES)
    requires forall j :: base <= j < base + |ps| ==> s.refs[j] <= 1
    ensures FreeRunOf(s, ps, base).freelist == Reversed(ps) + s.freelist
    decreases |ps|
  {
    if ps != [] {
      var n := |ps| - 1;
      var front := ps[..n];
      assert forall k :: 0 <= k < n ==> front[k] == ps[k];
      FreeRunList(s, front, base);
      FreeRunRefs(s, front, base);
      ReversedLast(ps);
    }
  }

  /** A run of frees drops the counts of its indices by one and no other. */
  lemma {:induction false} FreeRunRefs(s: KState, ps: seq<nat>, base: int)
    requires Wf(s) && (forall k :: 0 <= k < |ps| ==> ps[k] < UINT64_MOD)
    requires ps == [] || (0 <= base && base + |ps| <= NPAGES)
    ensures forall j :: 0 <= j < NPAGES ==>
      FreeRunOf(s, ps, base).refs[j] == if base <= j < base + |ps| then s.refs[j] - 1 else s.refs[j]
    decreases |ps|
  {
    if ps != [] {
      var n := |ps| - 1;
      var front := ps[..n];
      assert forall k :: 0 <= k < n ==> front[k] == ps[k];
      FreeRunRefs(s, front, base);
    }
  }

  /** A run of frees of pages whose counts are at most 1 leaves each of them filled with the junk byte. */
  lemma {:induction false} FreeRunFill(s: KState, ps: seq<nat>, base: int)
    requires Wf(s) && (forall k :: 0 <= k < |ps| ==> ps[k] < UINT64_MOD)
    requires ps == [] || (0 <= base && base + |ps| <= NPAGES)
    requires forall j :: base <= j < base + |ps| ==> s.refs[j] <= 1
    ensures forall k :: 0 <= k < |ps| ==> ps[k] in FreeRunOf(s, ps, base).fill && FreeRunOf(s, ps, base).fill[ps[k]] == JUNK_FREE
    decreases |ps|
  {
    if ps != [] {
      var n := |ps| - 1;
      var front := ps[..n];
      assert forall k :: 0 <= k < n ==> front[k] == ps[k];
      FreeRunFill(s, front, base);
      FreeRunRefs(s, front, base);
    }
  }

  /** Reversing puts the last element first. */
  lemma {:induction false} ReversedLast(ps: seq<nat>)
    requires ps != []
    ensures Reversed(ps) == [ps[|ps| - 1]] + Reversed(ps[..|ps| - 1])
  {
    var n := |ps| - 1;
    var r := [ps[n]] + Reversed(ps[..n]);
    assert forall k :: 0 < k <= n ==> r[k] == Reversed(ps[..n])[k - 1] == ps[n - k];
  }

  /**
   * What `kinit` leaves: the pages from the end of the kernel to PHYSTOP on
   * the list, the highest first, in front of what was there; count -1 for
   * each of them and 0 for every other page; each filled with the junk byte.
   */
  lemma {:induction false} KinitIs(s: KState, kernelEnd: nat)
    requires Wf(s) && KERNBASE <= kernelEnd <= PHYSTOP
    ensures var r := KinitOf(s, kernelEnd); var lo := PgRoundUp(kernelEnd); var ps := PageRange(lo, PHYSTOP);
      && r.freelist == Reversed(ps) + s.freelist
      && (forall j :: 0 <= j < NPAGES ==> r.refs[j] == if Pa2Idx(lo) <= j < Pa2Idx(lo) + |ps| then -1 else 0)
      && (forall k :: 0 <= k < |ps| ==> ps[k] in r.fill && r.fill[ps[k]] == JUNK_FREE)
  {
    var lo := PgRoundUp(kernelEnd);
    var ps := PageRange(lo, PHYSTOP);
    var zero := s.(refs := seq(NPAGES, _ => 0));
    PageRangeCounted(lo, PHYSTOP);
    var base := if ps == [] then 0 else Pa2Idx(lo);
    FreeRunIs(zero, ps, base);
    FreeRunList(zero, ps, base);
    FreeRunRefs(zero, ps, base);
    FreeRunFill(zero, ps, base);
  }

  /** `kinit` on an empty list establishes the allocator invariant. */
  lemma {:induction false} KinitInv(s: KState, kernelEnd: nat)
    requires Wf(s) && s.freelist == [] && KERNBASE <= kernelEnd <= PHYSTOP
    ensures FreeInv(KinitOf(s, kernelEnd))
  {
    var lo := PgRoundUp(kernelEnd);
    var ps := PageRange(lo, PHYSTOP);
    KinitIs(s, kernelEnd);
    PageRangeCounted(lo, PHYSTOP);
    var r := KinitOf(s, kernelEnd);
    assert r.freelist == Reversed(ps);
    ReversedIdx(r.freelist, ps, Pa2Idx(lo));
    forall k | 0 <= k < |r.freelist|
      ensures r.refs[Pa2Idx(r.freelist[k])] <= 0
    {
      assert Pa2Idx(lo) <= Pa2Idx(r.freelist[k]) < Pa2Idx(lo) + |ps|;
    }
  }

  /** The reversed pages have indices counting down from base + |ps| - 1. */
  lemma {:induction false} ReversedIdx(freelist: seq<nat>, ps: seq<nat>, base: int)
    requires freelist == Reversed(ps) && AllCounted(ps)
    requires forall k :: 0 <= k < |ps| ==> Pa2Idx(ps[k]) == base + k
    ensures |freelist| == |ps| && AllCounted(freelist)
    ensures forall k :: 0 <= k < |freelist| ==> Pa2Idx(freelist[k]) == base + |ps| - 1 - k
  {
    var n := |ps|;
    forall k | 0 <= k < n
      ensures Counted(freelist[k]) && Pa2Idx(freelist[k]) == base + n - 1 - k
    {
      assert freelist[k] == ps[n - 1 - k];
    }
  }
}
