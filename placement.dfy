/**
 * The three placement policies of user/umalloc.c (`find_free_block_*`),
 * stated on the sequence of block sizes met walking the free list from
 * its head.  Each predicate says which index the policy picks.
 */
module Placement {

  const FIRST_FIT: int := 0
  const BEST_FIT: int := 1
  const WORST_FIT: int := 2

  /** Entry `k` is big enough for `target`. */
  ghost predicate Adequate(sizes: seq<nat>, target: nat, k: int)
  {
    0 <= k < |sizes| && sizes[k] >= target
  }

  /** No entry is big enough. */
  ghost predicate NoneAdequate(sizes: seq<nat>, target: nat)
  {
    forall j :: 0 <= j < |sizes| ==> sizes[j] < target
  }

  /** First fit: the first adequate entry. */
  ghost predicate IsFirstFit(sizes: seq<nat>, target: nat, k: int)
  {
    Adequate(sizes, target, k) && forall j :: 0 <= j < k ==> sizes[j] < target
  }

  /** Best fit: the smallest adequate entry; among equal sizes the earliest. */
  ghost predicate IsBestFit(sizes: seq<nat>, target: nat, k: int)
  {
    Adequate(sizes, target, k) &&
    forall j :: 0 <= j < |sizes| && sizes[j] >= target ==>
      sizes[k] <= sizes[j] && (j < k ==> sizes[k] < sizes[j])
  }

  /** Worst fit: the largest adequate entry; among equal sizes the earliest. */
  ghost predicate IsWorstFit(sizes: seq<nat>, target: nat, k: int)
  {
    Adequate(sizes, target, k) &&
    forall j :: 0 <= j < |sizes| && sizes[j] >= target ==>
      sizes[j] <= sizes[k] && (j < k ==> sizes[j] < sizes[k])
  }

  /** Entries before `n` are all too small. */
  ghost predicate NoneUpTo(sizes: seq<nat>, target: nat, n: int)
  {
    forall j :: 0 <= j < n && j < |sizes| ==> sizes[j] < target
  }

  /** Among the first `n` entries, `k` is the best fit. */
  ghost predicate BestUpTo(sizes: seq<nat>, target: nat, n: int, k: int)
  {
    0 <= k < n <= |sizes| && sizes[k] >= target &&
    forall j :: 0 <= j < n && sizes[j] >= target ==> sizes[k] <= sizes[j] && (j < k ==> sizes[k] < sizes[j])
  }

  /** Among the first `n` entries, `k` is the worst fit. */
  ghost predicate WorstUpTo(sizes: seq<nat>, target: nat, n: int, k: int)
  {
    0 <= k < n <= |sizes| && sizes[k] >= target &&
    forall j :: 0 <= j < n && sizes[j] >= target ==> sizes[j] <= sizes[k] && (j < k ==> sizes[j] < sizes[k])
  }

  /** One more entry seen by the first-fit walk, none adequate so far. */
  lemma NoneStep(sizes: seq<nat>, target: nat, n: int)
    requires NoneUpTo(sizes, target, n) && 0 <= n < |sizes|
    ensures sizes[n] >= target ==> IsFirstFit(sizes, target, n)
    ensures sizes[n] < target ==> NoneUpTo(sizes, target, n + 1)
  {
  }

  /**
   * Where the best-fit walk stands after n entries: no pick yet (k is -1,
   * the running size the `uint` maximum) and nothing adequate seen, or the
   * pick k so far with its size.
   */
  ghost predicate BestSoFar(sizes: seq<nat>, target: nat, n: int, k: int, bestSize: int)
  {
    if k == -1 then NoneUpTo(sizes, target, n) && bestSize == 0xFFFF_FFFF
    else BestUpTo(sizes, target, n, k) && bestSize == sizes[k]
  }

  /** One more entry seen by the best-fit walk: a strictly smaller adequate size takes over. */
  lemma BestStep(sizes: seq<nat>, target: nat, n: int, k: int, bestSize: int)
    requires BestSoFar(sizes, target, n, k, bestSize) && 0 <= n < |sizes| && sizes[n] < 0xFFFF_FFFF
    ensures sizes[n] >= target && sizes[n] < bestSize ==> BestSoFar(sizes, target, n + 1, n, sizes[n])
    ensures !(sizes[n] >= target && sizes[n] < bestSize) ==> BestSoFar(sizes, target, n + 1, k, bestSize)
  {
  }

  /** At the end of the walk: no pick means nothing is adequate, a pick is the best fit. */
  lemma BestDone(sizes: seq<nat>, target: nat, k: int, bestSize: int)
    requires BestSoFar(sizes, target, |sizes|, k, bestSize)
    ensures k == -1 ==> NoneAdequate(sizes, target)
    ensures k != -1 ==> IsBestFit(sizes, target, k)
  {
  }

  /**
   * Where the worst-fit walk stands after n entries: no pick yet (k is -1,
   * the running size 0) and nothing adequate seen, or the pick k so far
   * with its size.
   */
  ghost predicate WorstSoFar(sizes: seq<nat>, target: nat, n: int, k: int, worstSize: int)
  {
    if k == -1 then NoneUpTo(sizes, target, n) && worstSize == 0
    else WorstUpTo(sizes, target, n, k) && worstSize == sizes[k]
  }

  /** One more entry seen by the worst-fit walk: a strictly larger adequate size takes over. */
  lemma WorstStep(sizes: seq<nat>, target: nat, n: int, k: int, worstSize: int)
    requires WorstSoFar(sizes, target, n, k, worstSize) && 0 <= n < |sizes| && sizes[n] > 0
    ensures sizes[n] >= target && sizes[n] > worstSize ==> WorstSoFar(sizes, target, n + 1, n, sizes[n])
    ensures !(sizes[n] >= target && sizes[n] > worstSize) ==> WorstSoFar(sizes, target, n + 1, k, worstSize)
  {
  }

  /** At the end of the walk: no pick means nothing is adequate, a pick is the worst fit. */
  lemma WorstDone(sizes: seq<nat>, target: nat, k: int, worstSize: int)
    requires WorstSoFar(sizes, target, |sizes|, k, worstSize)
    ensures k == -1 ==> NoneAdequate(sizes, target)
    ensures k != -1 ==> IsWorstFit(sizes, target, k)
  {
  }

  /** The policy numbers `reuse_block` knows. */
  predicate KnownPolicy(policy: int)
  {
    policy == FIRST_FIT || policy == BEST_FIT || policy == WORST_FIT
  }

  /**
   * `reuse_block`: the index the selected policy picks.  A policy number
   * other than 0, 1 and 2 picks nothing.
   */
  ghost predicate Chosen(policy: int, sizes: seq<nat>, target: nat, k: int)
  {
    if policy == FIRST_FIT then IsFirstFit(sizes, target, k)
    else if policy == BEST_FIT then IsBestFit(sizes, target, k)
    else if policy == WORST_FIT then IsWorstFit(sizes, target, k)
    else false
  }

  /** Each policy picks at most one entry. */
  lemma ChosenUnique(policy: int, sizes: seq<nat>, target: nat, k1: int, k2: int)
    requires Chosen(policy, sizes, target, k1) && Chosen(policy, sizes, target, k2)
    ensures k1 == k2
  {
    if policy == BEST_FIT || policy == WORST_FIT {
      assert sizes[k1] == sizes[k2];
    }
  }

  /**
   * The three policies agree on whether anything is found, and order their
   * picks by size: best <= first <= worst.
   */
  lemma PoliciesCompared(sizes: seq<nat>, target: nat, f: int, b: int, w: int)
    requires IsFirstFit(sizes, target, f)
    requires IsBestFit(sizes, target, b) && IsWorstFit(sizes, target, w)
    ensures sizes[b] <= sizes[f] <= sizes[w]
    ensures f <= b && f <= w
  {
  }

  /**
   * A known policy picks something exactly when some entry is adequate; an
   * unknown one never does.
   */
  lemma ChosenExactly(policy: int, sizes: seq<nat>, target: nat, k: int)
    requires Chosen(policy, sizes, target, k)
    ensures KnownPolicy(policy) && !NoneAdequate(sizes, target)
  {
  }

  /**
   * When some entry is adequate, all three policies pick one: the walks of
   * `find_free_block_*`, run as a proof, each end on their pick.
   */
  lemma {:induction false} FitsExist(sizes: seq<nat>, target: nat) returns (f: int, b: int, w: int)
    requires !NoneAdequate(sizes, target)
    ensures IsFirstFit(sizes, target, f) && IsBestFit(sizes, target, b) && IsWorstFit(sizes, target, w)
  {
    var a :| 0 <= a < |sizes| && sizes[a] >= target;
    f := 0;
    while sizes[f] < target
      invariant 0 <= f <= a && NoneUpTo(sizes, target, f)
      decreases a - f
    {
      f := f + 1;
    }
    b, w := -1, -1;
    var n := 0;
    while n < |sizes|
      invariant 0 <= n <= |sizes|
      invariant b == -1 ==> NoneUpTo(sizes, target, n)
      invariant b != -1 ==> BestUpTo(sizes, target, n, b)
      invariant w == -1 ==> NoneUpTo(sizes, target, n)
      invariant w != -1 ==> WorstUpTo(sizes, target, n, w)
    {
      if sizes[n] >= target && (b == -1 || sizes[n] < sizes[b]) {
        b := n;
      }
      if sizes[n] >= target && (w == -1 || sizes[n] > sizes[w]) {
        w := n;
      }
      n := n + 1;
    }
    assert sizes[a] >= target;
  }

  /** A policy 0, 1 or 2 picks an entry whenever one is adequate. */
  lemma PolicyPicks(policy: int, sizes: seq<nat>, target: nat) returns (k: int)
    requires KnownPolicy(policy) && !NoneAdequate(sizes, target)
    ensures Chosen(policy, sizes, target, k)
  {
    var f, b, w := FitsExist(sizes, target);
    k := if policy == FIRST_FIT then f else if policy == BEST_FIT then b else w;
  }

  /** Free blocks of sizes 50, 200 and 80, a request of 60. */
  lemma PolicyExample()
    ensures IsFirstFit([50, 200, 80], 60, 1)
    ensures IsBestFit([50, 200, 80], 60, 2)
    ensures IsWorstFit([50, 200, 80], 60, 1)
  {
  }
}
