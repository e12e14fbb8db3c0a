/**
 * `align_size` and `align_to_page` of user/umalloc.c, on 32-bit `uint`
 * arithmetic: the sum that rounds up wraps modulo 2^32.
 */
module Align {

  const UINT_MOD: int := 0x1_0000_0000
  const ALIGNMENT: int := 16
  const PAGE_SIZE: int := 4096

  /** Round `size` up to the next multiple of 16 (`align_size`). */
  function AlignSize(size: nat): (r: nat)
    requires size < UINT_MOD
    ensures r < UINT_MOD
    ensures size % ALIGNMENT == 0 ==> r == size
    ensures size <= UINT_MOD - ALIGNMENT ==>
      r % ALIGNMENT == 0 && size <= r < size + ALIGNMENT
    ensures size > UINT_MOD - ALIGNMENT && size % ALIGNMENT != 0 ==> r == 0
  {
    if size % ALIGNMENT == 0 then size
    else (size + (ALIGNMENT - size % ALIGNMENT)) % UINT_MOD
  }

  /** Round `size` up to the next multiple of the 4096-byte page (`align_to_page`). */
  function AlignToPage(size: nat): (r: nat)
    requires size < UINT_MOD
    ensures r < UINT_MOD
    ensures size % PAGE_SIZE == 0 ==> r == size
    ensures size <= UINT_MOD - PAGE_SIZE ==>
      r % PAGE_SIZE == 0 && r % ALIGNMENT == 0 && size <= r < size + PAGE_SIZE
    ensures size > UINT_MOD - PAGE_SIZE && size % PAGE_SIZE != 0 ==> r == 0
  {
    var r := if size % PAGE_SIZE == 0 then size else (size + (PAGE_SIZE - size % PAGE_SIZE)) % UINT_MOD;
    PageRoundUp(size);
    PageAligned(r);
    r
  }

  /** The sum that rounds a non-multiple up is the next page multiple, 2^32 at most. */
  lemma PageRoundUp(size: nat)
    requires size < UINT_MOD
    ensures var t := size + (PAGE_SIZE - size % PAGE_SIZE);
      size % PAGE_SIZE != 0 ==>
      t % PAGE_SIZE == 0 && size < t < size + PAGE_SIZE &&
      (size <= UINT_MOD - PAGE_SIZE ==> t < UINT_MOD && t % UINT_MOD == t) &&
      (size > UINT_MOD - PAGE_SIZE ==> t % UINT_MOD == 0)
  {
    var q := size / PAGE_SIZE;
    var t := size + (PAGE_SIZE - size % PAGE_SIZE);
    if size % PAGE_SIZE == 0 {
      return;
    }
    assert t == PAGE_SIZE * (q + 1);
    assert q < UINT_MOD / PAGE_SIZE;
    if size > UINT_MOD - PAGE_SIZE {
      assert q == UINT_MOD / PAGE_SIZE - 1;
      assert t == UINT_MOD;
    }
  }

  /** A page multiple is a multiple of 16. */
  lemma PageAligned(n: int)
    ensures n % PAGE_SIZE == 0 ==> n % ALIGNMENT == 0
  {
    if n % PAGE_SIZE == 0 {
      assert n == ALIGNMENT * (256 * (n / PAGE_SIZE));
    }
  }

  /** A multiple of 16 is the smallest one at least `size`: no smaller multiple fits. */
  lemma AlignSizeIsLeast(size: nat, m: nat)
    requires size <= UINT_MOD - ALIGNMENT
    requires m % ALIGNMENT == 0 && size <= m
    ensures AlignSize(size) <= m
  {
  }

  /** The page rounding is the least page multiple at least `size`. */
  lemma AlignToPageIsLeast(size: nat, m: nat)
    requires size <= UINT_MOD - PAGE_SIZE
    requires m % PAGE_SIZE == 0 && size <= m
    ensures AlignToPage(size) <= m
  {
  }
}
