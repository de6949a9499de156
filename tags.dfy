/**
 * Boundary-tag codec of the allocator: the word size constants, the 32-bit
 * word type, PACK / GET_SIZE / GET_ALLOC, and the adjusted block size that
 * mm_malloc and mm_realloc compute from a requested payload size.
 */
module Tags {

  /** Bytes in a word (W_SIZE), a double word (D_SIZE), and one growth chunk (E_SIZE). */
  const W_SIZE: nat := 4
  const D_SIZE: nat := 8
  const E_SIZE: nat := 4096

  /** An unsigned 32-bit machine word. */
  type Word = w: nat | w < 0x1_0000_0000

  /** Bitwise OR of two naturals, bit by bit from the least significant end. */
  function Or(a: nat, b: nat): (r: nat)
    decreases a + b
  {
    if a == 0 then b
    else if b == 0 then a
    else 2 * Or(a / 2, b / 2) + (if a % 2 == 1 || b % 2 == 1 then 1 else 0)
  }

  /**
   * PACK(size, alloc): the tag word for a block of `size` bytes. Every size
   * the allocator packs is a multiple of 8 and every flag a single bit, so
   * the bitwise OR of the two is their sum (PackIsOr).
   */
  function Pack(size: nat, alloc: nat): (w: nat)
    requires size % 8 == 0 && alloc <= 1
    ensures w % 8 == alloc && w - w % 8 == size
  {
    size + alloc
  }

  /** The tag is the bitwise OR of size and flag, as the macro computes it. */
  lemma PackIsOr(size: nat, alloc: nat)
    requires size % 8 == 0 && alloc <= 1
    ensures Pack(size, alloc) == Or(size, alloc)
  {
    if alloc == 1 && size > 0 {
      assert Or(size / 2, 0) == size / 2;
    }
  }

  /** GET_SIZE: the word with its three low bits cleared (w & ~0x7). */
  function GetSize(w: nat): (s: nat)
    ensures s % 8 == 0 && s <= w < s + 8
  {
    w - w % D_SIZE
  }

  /** GET_ALLOC: the lowest bit of the word (w & 0x1). */
  function GetAlloc(w: nat): (b: nat)
    ensures b <= 1
  {
    w % 2
  }

  /** A multiple of 8 is even. */
  lemma EvenOfMultipleOf8(x: nat)
    requires x % 8 == 0
    ensures x % 2 == 0
  {
    assert x == 2 * (4 * (x / 8));
  }

  /** Adding one bit to an even number sets the lowest bit to that bit. */
  lemma LowBit(x: nat, bit: nat)
    requires x % 2 == 0 && bit <= 1
    ensures (x + bit) % 2 == bit
  {
  }

  /** Decoding a packed tag gives back its size and its flag. */
  lemma TagRoundTrip(size: nat, alloc: nat)
    requires size % 8 == 0 && alloc <= 1
    ensures GetSize(Pack(size, alloc)) == size
    ensures GetAlloc(Pack(size, alloc)) == alloc
  {
    EvenOfMultipleOf8(size);
    LowBit(size, alloc);
  }

  /**
   * The adjusted block size for a payload of `size` bytes: 16 bytes for at
   * most one double word of payload, otherwise the payload plus one double
   * word of tags rounded up to a multiple of 8.
   */
  function AdjustedSize(size: nat): (a: nat)
    ensures a % 8 == 0 && a >= size + 8 && a >= 16
    ensures size > 0 ==> a == 16 || a < size + 16
  {
    if size <= D_SIZE then 2 * D_SIZE
    else D_SIZE * ((size + D_SIZE + (D_SIZE - 1)) / D_SIZE)
  }

  /** The adjusted size is the least multiple of 8 that holds the payload, the tags and the 16-byte minimum. */
  lemma AdjustedSizeIsLeast(size: nat, c: nat)
    requires size > 0 && c % 8 == 0 && c >= size + 8 && c >= 16
    ensures AdjustedSize(size) <= c
  {
  }

  /** extend_heap's byte count for a word count: odd counts are rounded up by one word. */
  function ExtendBytes(words: nat): (n: nat)
    ensures n % 8 == 0 && 4 * words <= n <= 4 * words + 4
  {
    if words % 2 == 1 then (words + 1) * W_SIZE else words * W_SIZE
  }

  function Max(x: nat, y: nat): nat
  {
    if x > y then x else y
  }

  function Min(x: nat, y: nat): nat
  {
    if x < y then x else y
  }

  /** Bytes obtained from sbrk when no fitting block exists for adjusted size a. */
  function GrowBytes(a: nat): (n: nat)
    requires a % 8 == 0
    ensures n == Max(a, E_SIZE) && n % 8 == 0
  {
    ExtendBytes(Max(a, E_SIZE) / W_SIZE)
  }
}
