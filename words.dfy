/**
 * Memory as the allocator's macros see it: a sequence of 32-bit words
 * indexed by byte address / 4. GET, HD, FT, NEXT_PLACE and PREV_PLACE are
 * functions of the memory; a heap is well formed when its block chain is
 * laid out in it between the prologue and the epilogue.
 */
module Words {
  import opened Tags
  import opened Layout
  import opened Policy

  /** Highest break the model admits, so that no size or address overflows a uint. */
  const MAX_BREAK: nat := 0x8000_0000

  /** Largest request the model admits: size + 15 stays far from 32-bit wrap-around. */
  const MAX_REQUEST: nat := 0x7FFF_0000

  // ---------------------------------------------------------------------
  // The tag macros

  /** GET: the word at byte address a. */
  function Get(m: seq<Word>, a: nat): Word
    requires a % 4 == 0 && WordAt(a) < |m|
  {
    m[WordAt(a)]
  }

  /** HD: address of the header word of the block at bp. */
  function Hd(bp: nat): (h: nat)
    requires bp >= W_SIZE
    ensures h < bp && WordAt(h) + 1 == WordAt(bp)
  {
    bp - W_SIZE
  }

  /** The header word of the block at bp lies in m. */
  predicate HasHeader(m: seq<Word>, bp: nat)
  {
    bp >= W_SIZE && bp % 4 == 0 && WordAt(bp) - 1 < |m|
  }

  /** GET_SIZE(HD(bp)). */
  function SizeAt(m: seq<Word>, bp: nat): (s: nat)
    requires HasHeader(m, bp)
    ensures s % 8 == 0 && s <= Get(m, Hd(bp))
  {
    GetSize(Get(m, Hd(bp)))
  }

  /** GET_ALLOC(HD(bp)). */
  function AllocAt(m: seq<Word>, bp: nat): (f: nat)
    requires HasHeader(m, bp)
    ensures f <= 1
  {
    GetAlloc(Get(m, Hd(bp)))
  }

  /** FT: address of the footer word, found from the size in the header. */
  function Ft(m: seq<Word>, bp: nat): (f: int)
    requires HasHeader(m, bp)
    ensures f + D_SIZE == NextPlace(m, bp)
  {
    bp + SizeAt(m, bp) - D_SIZE
  }

  /** NEXT_PLACE: the block that follows, found from the size in the header. */
  function NextPlace(m: seq<Word>, bp: nat): (n: nat)
    requires HasHeader(m, bp)
    ensures bp <= n && (n - bp) % 8 == 0
  {
    bp + SizeAt(m, bp)
  }

  /** The footer word of the block before bp lies in m. */
  predicate HasPrevFooter(m: seq<Word>, bp: nat)
  {
    bp >= D_SIZE && bp % 4 == 0 && WordAt(bp) - 2 < |m|
  }

  /** PREV_PLACE: the block that precedes, found from the size in the previous footer. */
  function PrevPlace(m: seq<Word>, bp: nat): (p: int)
    requires HasPrevFooter(m, bp)
    ensures p <= bp && (bp - p) % 8 == 0
  {
    bp - GetSize(Get(m, bp - D_SIZE))
  }

  // ---------------------------------------------------------------------
  // The heap invariant on values

  /** The epilogue word at the end of m and a word-aligned heap pointer above the first two words. */
  ghost predicate Sentinels(m: seq<Word>, hh: int)
  {
    |m| > 0 && m[|m| - 1] == Pack(0, 1) && 8 <= hh && hh % 4 == 0
  }

  /** The list bs starts with the prologue at hh and lies end to end from hh to the end of m. */
  ghost predicate Chain(m: seq<Word>, hh: int, bs: seq<Block>)
  {
    hh >= 0 && |bs| >= 1 && bs[0] == Block(hh, D_SIZE, true) && Contiguous(bs, hh, 4 * |m|)
  }

  /** A heap in m: sentinels in place and the chain bs laid out, below the highest break. */
  ghost predicate WellFormed(m: seq<Word>, hh: int, bs: seq<Block>)
  {
    Sentinels(m, hh) && Chain(m, hh, bs) && AllStored(m, bs) && 4 * |m| <= MAX_BREAK
  }

  /** HD and FT of a word-aligned block, as word indices. */
  lemma TagWords(bp: nat, s: nat)
    requires bp >= 4 && bp % 4 == 0 && s >= 8 && s % 8 == 0
    ensures WordAt(bp - 4) == WordAt(bp) - 1
    ensures WordAt(bp + s - 8) == WordAt(bp + s) - 2
    ensures (bp + s) % 4 == 0
  {
    var q, t := bp / 4, s / 8;
    assert bp == 4 * q && s == 8 * t;
    WordOf(q - 1);
    WordOf(q);
    WordOf(q + 2 * t - 2);
    WordOf(q + 2 * t);
  }

  /** A block that fits in n words and whose tag fits in a word. */
  predicate Layable(blk: Block, n: nat)
  {
    && 4 <= blk.addr && blk.addr % 4 == 0 && 8 <= blk.size && blk.size % 8 == 0
    && blk.addr + blk.size <= 4 * n <= MAX_BREAK
  }

  /** Memory m with blk's tag written into its header and its footer. */
  function PutTags(m: seq<Word>, blk: Block): (m': seq<Word>)
    requires Layable(blk, |m|)
    ensures |m'| == |m|
  {
    m[HdrAt(blk) := Tag(blk)][FtrAt(blk) := Tag(blk)]
  }

  /** n zero words, the contents of memory fresh from sbrk. */
  function Zeros(n: nat): (z: seq<Word>)
    ensures |z| == n && forall k :: 0 <= k < n ==> z[k] == 0
  {
    seq(n, _ => 0)
  }

  /** PutTags lays out blk and changes no other word. */
  lemma PutTagsStores(m: seq<Word>, blk: Block)
    requires Layable(blk, |m|)
    ensures Stored(PutTags(m, blk), blk)
    ensures forall w :: 0 <= w < |m| && w != HdrAt(blk) && w != FtrAt(blk) ==> PutTags(m, blk)[w] == m[w]
  {
  }

  /** Right after PutTags, the header of blk reads back its size. */
  lemma PutTagsHeader(m: seq<Word>, blk: Block)
    requires Layable(blk, |m|)
    ensures 0 <= HdrAt(blk) < |m| && GetSize(PutTags(m, blk)[HdrAt(blk)]) == blk.size
  {
    TagRoundTrip(blk.size, Bit(blk.alloc));
  }

  /** The blocks place makes are word-aligned, fit where the block was, and keep their tag words apart. */
  lemma SplitLayable(blk: Block, a: nat, n: nat)
    requires Layable(blk, n) && 8 <= a <= blk.size && a % 8 == 0
    ensures var sp := Split(blk.addr, blk.size, a);
      && Layable(sp[0], n) && HdrAt(sp[0]) == HdrAt(blk) && HdrAt(sp[0]) < FtrAt(sp[0])
      && (|sp| == 1 ==> FtrAt(sp[0]) == FtrAt(blk))
      && (|sp| == 2 ==> Layable(sp[1], n) && FtrAt(sp[0]) < HdrAt(sp[1]) < FtrAt(sp[1]) == FtrAt(blk))
  {
    FourOfEight(a);
    FourOfEight(blk.size);
    Quarter(blk.addr, a);
    Quarter(blk.addr, blk.size);
    if blk.size - a >= 8 {
      DiffOfMultiples(blk.size, a);
    }
  }

  /** Every block of a chain past the prologue can have its tags written. */
  lemma ChainLayable(m: seq<Word>, hh: int, bs: seq<Block>, i: nat)
    requires Sentinels(m, hh) && Chain(m, hh, bs) && 4 * |m| <= MAX_BREAK && i < |bs|
    ensures Layable(bs[i], |m|)
  {
    Aligned(bs, hh, 4 * |m|, i);
    Aligned(bs, hh, 4 * |m|, i + 1);
    StepAt(bs, hh, 4 * |m|, i);
    Congruent(bs[i].addr, hh);
  }

  /** A write to any word but bp's header leaves what HD(bp) reads unchanged. */
  lemma WriteKeepsHeader(m: seq<Word>, a: int, w: Word, bp: nat)
    requires HasHeader(m, bp) && 0 <= a < |m| && a != WordAt(bp) - 1
    ensures HasHeader(m[a := w], bp) && SizeAt(m[a := w], bp) == SizeAt(m, bp)
    ensures AllocAt(m[a := w], bp) == AllocAt(m, bp)
  {
  }

  /** A write to any word but the footer below bp leaves what PREV_PLACE(bp) reads unchanged. */
  lemma WriteKeepsPrevFooter(m: seq<Word>, a: int, w: Word, bp: nat)
    requires HasPrevFooter(m, bp) && 0 <= a < |m| && a != WordAt(bp) - 2
    ensures HasPrevFooter(m[a := w], bp) && PrevPlace(m[a := w], bp) == PrevPlace(m, bp)
  {
  }

  /** Two laid-out blocks, y directly after x. */
  ghost predicate Abuts(m: seq<Word>, x: Block, y: Block)
  {
    Stored(m, x) && Stored(m, y) && x.addr + x.size == y.addr
  }

  /** Consecutive blocks of a heap abut. */
  lemma Neighbours(m: seq<Word>, hh: int, bs: seq<Block>, k: nat)
    requires WellFormed(m, hh, bs) && k + 1 < |bs|
    ensures Abuts(m, bs[k], bs[k + 1])
  {
    StepAt(bs, hh, 4 * |m|, k);
  }

  /** One laid-out block read through the macros: HD, FT and NEXT_PLACE give back what it stores. */
  lemma ReadStored(m: seq<Word>, blk: Block)
    requires Stored(m, blk)
    ensures var bp := blk.addr;
      && HasHeader(m, bp) && WordAt(Hd(bp)) == HdrAt(blk) && HdrAt(blk) < FtrAt(blk)
      && SizeAt(m, bp) == blk.size && (AllocAt(m, bp) == 1) == blk.alloc
      && Ft(m, bp) == bp + blk.size - 8 && Ft(m, bp) % 4 == 0 && WordAt(Ft(m, bp)) == FtrAt(blk)
      && GetSize(Get(m, Ft(m, bp))) == blk.size && (GetAlloc(Get(m, Ft(m, bp))) == 1) == blk.alloc
      && NextPlace(m, bp) == bp + blk.size
  {
    ReadHeader(m, blk);
    TagWords(blk.addr, blk.size);
  }

  /** PREV_PLACE of y finds x through x's footer, the word just below y's header. */
  lemma ReadAbutting(m: seq<Word>, x: Block, y: Block)
    requires Abuts(m, x, y)
    ensures HasPrevFooter(m, y.addr) && WordAt(y.addr - D_SIZE) == FtrAt(x) && FtrAt(x) + 1 == HdrAt(y)
    ensures PrevPlace(m, y.addr) == x.addr
  {
    ReadHeader(m, x);
    TagWords(x.addr, x.size);
  }

  // ---------------------------------------------------------------------
  // What the macros read on a well-formed heap

  /**
   * Block k read through the macros: its size and flag from the header,
   * the same from the footer FT finds, and NEXT_PLACE leading to the start
   * of block k + 1 (or to the break after the last block).
   */
  lemma ReadBlock(m: seq<Word>, hh: int, bs: seq<Block>, k: nat)
    requires WellFormed(m, hh, bs) && k < |bs|
    ensures Stored(m, bs[k]) && Layable(bs[k], |m|)
    ensures var bp := bs[k].addr;
      && bp >= 8 && HasHeader(m, bp) && WordAt(Hd(bp)) == HdrAt(bs[k])
      && SizeAt(m, bp) == bs[k].size && (AllocAt(m, bp) == 1) == bs[k].alloc
      && Ft(m, bp) == bp + bs[k].size - 8 && Ft(m, bp) % 4 == 0 && WordAt(Ft(m, bp)) == FtrAt(bs[k])
      && GetSize(Get(m, Ft(m, bp))) == bs[k].size && (GetAlloc(Get(m, Ft(m, bp))) == 1) == bs[k].alloc
      && NextPlace(m, bp) == StartOf(bs, k + 1, 4 * |m|) && HasHeader(m, NextPlace(m, bp))
  {
    ChainLayable(m, hh, bs, k);
    ReadHeader(m, bs[k]);
    TagWords(bs[k].addr, bs[k].size);
    StepAt(bs, hh, 4 * |m|, k);
    if k > 0 {
      StepAt(bs, hh, 4 * |m|, 0);
      Ordered(bs, hh, 4 * |m|, 0, k);
    }
  }

  /** The header NEXT_PLACE reaches after block k: the next block's, or the epilogue (size 0, allocated). */
  lemma ReadNext(m: seq<Word>, hh: int, bs: seq<Block>, k: nat)
    requires WellFormed(m, hh, bs) && k < |bs|
    ensures var bp := bs[k].addr;
      && HasHeader(m, bp) && HasHeader(m, NextPlace(m, bp))
      && NextPlace(m, bp) == StartOf(bs, k + 1, 4 * |m|)
      && SizeAt(m, NextPlace(m, bp)) == NextSize(bs, k)
      && (AllocAt(m, NextPlace(m, bp)) == 1) == !NextFree(bs, k)
  {
    ReadBlock(m, hh, bs, k);
    if k + 1 < |bs| {
      ReadBlock(m, hh, bs, k + 1);
    } else {
      TagRoundTrip(0, 1);
    }
  }
}
