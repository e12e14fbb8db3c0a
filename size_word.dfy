/**
 * The 8-byte size word of an allocator block header (user/umalloc.c).
 * The block size is always a multiple of 16, so bit 0 is free to carry
 * the "this block is free" flag.  The word is a `uint64`; `get_size` and
 * `set_size` traffic in 32-bit `uint`s, so sizes are `bv32` here.
 */
module SizeWord {

  /** `set_used`: clear bit 0, keep every other bit. */
  function SetUsed(w: bv64): (r: bv64)
    ensures r & !1 == w & !1
    ensures !IsFree(r)
  {
    w & !1
  }

  /** `set_free`: set bit 0, keep every other bit. */
  function SetFree(w: bv64): (r: bv64)
    ensures r & !1 == w & !1
    ensures IsFree(r)
  {
    w | 1
  }

  /** `is_free`: the flag is bit 0. */
  predicate IsFree(w: bv64)
  {
    w & 1 == 1
  }

  /** `get_size`: the word without its flag, truncated to a 32-bit `uint`. */
  function GetSize(w: bv64): (r: bv32)
    ensures r & 1 == 0
    ensures w >> 32 == 0 ==> (r as bv64) | (w & 1) == w
  {
    ((w & !1) & 0xFFFF_FFFF) as bv32
  }

  /**
   * `set_size`: store the 32-bit size (zero-extended), then put back the
   * free flag the word had before.
   */
  function SetSize(w: bv64, n: bv32): (r: bv64)
    ensures IsFree(r) == (IsFree(w) || n & 1 == 1)
    ensures r >> 32 == 0
    ensures n & 1 == 0 ==> GetSize(r) == n
  {
    var wasFree := IsFree(w);
    var r := n as bv64;
    if wasFree then SetFree(r) else r
  }

  /** The word a header holds for an (even) size and a free flag. */
  function Pack(size: bv32, free: bool): bv64
  {
    (size as bv64) | (if free then 1 else 0)
  }

  /** Unpacking a packed word gives back the size and the flag. */
  lemma PackRoundTrip(size: bv32, free: bool)
    requires size & 1 == 0
    ensures GetSize(Pack(size, free)) == size
    ensures IsFree(Pack(size, free)) == free
  {
  }

  /**
   * On a packed word the four setters act on the (size, flag) pair exactly
   * as field updates do: this is why the allocator model keeps the size and
   * the flag as two fields of its header record.
   */
  lemma PackedSetters(size: bv32, free: bool, n: bv32)
    requires size & 1 == 0 && n & 1 == 0
    ensures SetUsed(Pack(size, free)) == Pack(size, false)
    ensures SetFree(Pack(size, free)) == Pack(size, true)
    ensures SetSize(Pack(size, free), n) == Pack(n, free)
  {
  }
}
