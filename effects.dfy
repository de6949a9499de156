/**
 * What place and coalesce leave in memory, as functions of the memory
 * before, and the proofs that the result is again a well-formed heap
 * whose chain is the one the policy functions describe.
 */
module Effects {
  import opened Tags
  import opened Layout
  import opened Policy
  import opened Words

  // ---------------------------------------------------------------------
  // place

  /** The words place leaves in memory m when it allocates a bytes of block blk. */
  function Placed(m: seq<Word>, blk: Block, a: nat): (m': seq<Word>)
    requires Layable(blk, |m|) && 8 <= a <= blk.size && a % 8 == 0
    ensures |m'| == |m|
  {
    SplitLayable(blk, a, |m|);
    var sp := Split(blk.addr, blk.size, a);
    if |sp| == 2 then PutTags(PutTags(m, sp[0]), sp[1]) else PutTags(m, sp[0])
  }

  /** place lays out the blocks Split describes. */
  lemma PlacedLaysSplit(m: seq<Word>, blk: Block, a: nat)
    requires Layable(blk, |m|) && 8 <= a <= blk.size && a % 8 == 0
    ensures AllStored(Placed(m, blk, a), Split(blk.addr, blk.size, a))
  {
    SplitLayable(blk, a, |m|);
    var sp := Split(blk.addr, blk.size, a);
    var m' := Placed(m, blk, a);
    if |sp| == 2 {
      var m1 := PutTags(m, sp[0]);
      PutTagsStores(m, sp[0]);
      PutTagsStores(m1, sp[1]);
      assert Stored(m', sp[0]);
    } else {
      PutTagsStores(m, sp[0]);
    }
  }

  /** place touches no word outside the block, and none of its first a - 8 payload bytes. */
  lemma PlacedFrame(m: seq<Word>, blk: Block, a: nat)
    requires Layable(blk, |m|) && 8 <= a <= blk.size && a % 8 == 0
    ensures forall w :: 0 <= w < |m| && !(HdrAt(blk) <= w < WordAt(blk.addr + blk.size) - 1) ==> Placed(m, blk, a)[w] == m[w]
    ensures forall w :: WordAt(blk.addr) <= w < WordAt(blk.addr + a) - 2 && w < |m| ==> Placed(m, blk, a)[w] == m[w]
  {
    SplitLayable(blk, a, |m|);
    var sp := Split(blk.addr, blk.size, a);
    PutTagsStores(m, sp[0]);
    if |sp| == 2 {
      PutTagsStores(PutTags(m, sp[0]), sp[1]);
    }
  }

  /**
   * What place writes: the blocks Split describes, laid out over block i's
   * bytes, with every other block of the chain left as it was.
   */
  lemma PlacedStored(m: seq<Word>, bs: seq<Block>, hh: nat, i: nat, a: nat)
    requires Contiguous(bs, hh, 4 * |m|) && hh % 4 == 0 && 4 * |m| <= MAX_BREAK
    requires 1 <= i < |bs| && StoredExcept(m, bs, i) && Layable(bs[i], |m|)
    requires 8 <= a <= bs[i].size && a % 8 == 0
    ensures AllStored(Placed(m, bs[i], a), PlaceAt(bs, i, a))
  {
    PlacedLaysSplit(m, bs[i], a);
    PlacedFrame(m, bs[i], a);
    StoredParts(m, bs, i);
    StepAt(bs, hh, 4 * |m|, i);
    Rewrite(m, Placed(m, bs[i], a), bs, hh, 4 * |m|, i, i + 1, Split(bs[i].addr, bs[i].size, a));
  }


  /**
   * place on block i of a chain whose other blocks are laid out leaves a
   * heap: the sentinels stay, and the placed list is a chain laid out in
   * the new memory.
   */
  lemma PlaceShape(m: seq<Word>, hh: int, bs: seq<Block>, i: nat, a: nat)
    requires Sentinels(m, hh) && Chain(m, hh, bs) && 4 * |m| <= MAX_BREAK
    requires 1 <= i < |bs| && StoredExcept(m, bs, i) && 8 <= a <= bs[i].size && a % 8 == 0
    ensures Layable(bs[i], |m|)
    ensures WellFormed(Placed(m, bs[i], a), hh, PlaceAt(bs, i, a))
  {
    ChainLayable(m, hh, bs, i);
    StepAt(bs, hh, 4 * |m|, i);
    PlacedStored(m, bs, hh, i, a);
    PlacedFrame(m, bs[i], a);
    PlaceTiles(bs, hh, 4 * |m|, i, a);
    assert PlaceAt(bs, i, a)[0] == bs[0];
  }

  // ---------------------------------------------------------------------
  // mm_init

  /**
   * The four words mm_init writes after the break it obtains: a padding
   * word, the prologue's header and footer (an allocated block of 8 bytes)
   * and the epilogue header.
   */
  function Prologue(m: seq<Word>): (m': seq<Word>)
    ensures |m'| == |m| + 4
  {
    TagRoundTrip(8, 1);
    m + [0, Pack(D_SIZE, 1), Pack(D_SIZE, 1), Pack(0, 1)]
  }

  /** Those words make a heap whose chain is the prologue alone, with heap_head just past its header. */
  lemma InitShape(m: seq<Word>)
    requires 4 * |m| + 16 <= MAX_BREAK
    ensures WellFormed(Prologue(m), 4 * |m| + 8, [Block(4 * |m| + 8, D_SIZE, true)])
  {
    var pro := Block(4 * |m| + 8, D_SIZE, true);
    Single(pro, 4 * |m| + 8, 4 * |m| + 16);
    assert Stored(Prologue(m), pro);
  }

  /** mm_init's extend_heap merges nothing: the new block follows the allocated prologue and precedes the epilogue. */
  lemma InitGrow(m: seq<Word>, m1: seq<Word>, v: seq<Block>, n: nat)
    requires 4 * |m| + 16 + n <= MAX_BREAK && n >= 8 && n % 8 == 0
    requires m1 == Prologue(m) && v == [Block(4 * |m| + 8, D_SIZE, true)]
    ensures Grow(v, 4 * |m1|, n) == v + [Block(4 * |m1|, n, false)]
    ensures Merged(v + [Block(4 * |m1|, n, false)], |v|) == Block(4 * |m1|, n, false)
    ensures PutTags(Extended(m1, n), Block(4 * |m1|, n, false)) == Extended(m1, n)
  {
    var nb := Block(4 * |m1|, n, false);
    var bs := v + [nb];
    assert bs == [v[0], nb];
    MergeAllocatedNeighbours(bs, 1);
    ExtendedWords(m1, n);
    PutTagsSame(Extended(m1, n), nb);
  }

  // ---------------------------------------------------------------------
  // extend_heap

  /**
   * The words extend_heap leaves before it coalesces: n fresh bytes
   * appended, the old epilogue word turned into the header of a free block
   * of n bytes, its footer, and a new epilogue in the last word.
   */
  function Extended(m: seq<Word>, n: nat): (m': seq<Word>)
    requires |m| >= 1 && n >= 8 && n % 8 == 0 && 4 * |m| + n <= MAX_BREAK
    ensures |m'| == |m| + n / 4
  {
    TagWords(4 * |m|, n);
    PutTags(m + Zeros(n / 4), Block(4 * |m|, n, false))[|m| + n / 4 - 1 := Pack(0, 1)]
  }

  /** Those writes keep every word below the old epilogue, lay out the new block and end in an epilogue. */
  lemma ExtendedWords(m: seq<Word>, n: nat)
    requires |m| >= 1 && n >= 8 && n % 8 == 0 && 4 * |m| + n <= MAX_BREAK
    ensures Layable(Block(4 * |m|, n, false), |m| + n / 4)
    ensures Stored(Extended(m, n), Block(4 * |m|, n, false))
    ensures Extended(m, n)[|m| + n / 4 - 1] == Pack(0, 1)
    ensures forall w :: 0 <= w < |m| - 1 ==> Extended(m, n)[w] == m[w]
  {
    TagWords(4 * |m|, n);
    PutTagsStores(m + Zeros(n / 4), Block(4 * |m|, n, false));
  }

  /** After those writes the heap is well formed with the new free block appended to its chain. */
  lemma ExtendShape(m: seq<Word>, hh: int, bs: seq<Block>, n: nat)
    requires WellFormed(m, hh, bs) && n >= 8 && n % 8 == 0 && 4 * |m| + n <= MAX_BREAK
    ensures Layable(Block(4 * |m|, n, false), |m| + n / 4)
    ensures WellFormed(Extended(m, n), hh, bs + [Block(4 * |m|, n, false)])
  {
    var nb := Block(4 * |m|, n, false);
    ExtendedWords(m, n);
    StoredBelow(m, Extended(m, n), bs, hh);
    assert AllStored(Extended(m, n), bs + [nb]) by {
      var r := bs + [nb];
      forall k | 0 <= k < |r| ensures Stored(Extended(m, n), r[k]) {
        if k < |bs| {
          assert r[k] == bs[k];
        }
      }
    }
    Single(nb, 4 * |m|, 4 * |m| + n);
    ContiguousAppend(bs, [nb], hh, 4 * |m|, 4 * |m| + n);
  }

  // ---------------------------------------------------------------------
  // free

  /** Rewriting block i's tags as free leaves a heap whose chain has block i marked free. */
  lemma FreeShape(m: seq<Word>, hh: int, bs: seq<Block>, i: nat)
    requires WellFormed(m, hh, bs) && 1 <= i < |bs|
    ensures var f := bs[i].(alloc := false);
      Layable(f, |m|) && WellFormed(PutTags(m, f), hh, bs[i := f])
  {
    var f := bs[i].(alloc := false);
    ChainLayable(m, hh, bs, i);
    StepAt(bs, hh, 4 * |m|, i);
    PutTagsStores(m, f);
    StoredSlices(m, bs, i, i + 1);
    assert AllStored(PutTags(m, f), [f]);
    Rewrite(m, PutTags(m, f), bs, hh, 4 * |m|, i, i + 1, [f]);
    Single(f, bs[i].addr, StartOf(bs, i + 1, 4 * |m|));
    Replace(bs, hh, 4 * |m|, i, i + 1, [f]);
    assert bs[..i] + [f] + bs[i + 1..] == bs[i := f];
  }

  // ---------------------------------------------------------------------
  // coalesce

  /** Writing the tags a block already has changes nothing. */
  lemma PutTagsSame(m: seq<Word>, blk: Block)
    requires Layable(blk, |m|) && Stored(m, blk)
    ensures PutTags(m, blk) == m
  {
  }

  /** The two tag words of a block may be written in either order. */
  lemma PutTagsSwapped(m: seq<Word>, blk: Block)
    requires Layable(blk, |m|)
    ensures 0 <= HdrAt(blk) < FtrAt(blk) < |m|
    ensures PutTags(m, blk) == m[FtrAt(blk) := Tag(blk)][HdrAt(blk) := Tag(blk)]
  {
    SplitLayable(blk, blk.size, |m|);
  }

  /** The block coalesce makes of blocks MergeLo .. MergeHi - 1 can have its tags written in their place. */
  lemma MergedLayable(m: seq<Word>, hh: int, bs: seq<Block>, i: nat)
    requires Sentinels(m, hh) && Chain(m, hh, bs) && 4 * |m| <= MAX_BREAK && 1 <= i < |bs|
    ensures Layable(Merged(bs, i), |m|)
    ensures HdrAt(Merged(bs, i)) == WordAt(StartOf(bs, MergeLo(bs, i), 4 * |m|)) - 1
    ensures FtrAt(Merged(bs, i)) == WordAt(StartOf(bs, MergeHi(bs, i), 4 * |m|)) - 2
  {
    MergedEnds(bs, hh, 4 * |m|, i);
    MergedSize(bs, hh, 4 * |m|, i);
    ChainLayable(m, hh, bs, MergeLo(bs, i));
    Aligned(bs, hh, 4 * |m|, MergeHi(bs, i));
  }

  /** The merged block's tags lay it out and keep the blocks outside MergeLo .. MergeHi - 1 laid out. */
  lemma MergeStored(m: seq<Word>, hh: int, bs: seq<Block>, i: nat)
    requires WellFormed(m, hh, bs) && 1 <= i < |bs|
    ensures Layable(Merged(bs, i), |m|)
    ensures AllStored(PutTags(m, Merged(bs, i)), Merge(bs, i))
  {
    MergedLayable(m, hh, bs, i);
    var mb := Merged(bs, i);
    var m' := PutTags(m, mb);
    var lo, hi := MergeLo(bs, i), MergeHi(bs, i);
    PutTagsStores(m, mb);
    StoredSlices(m, bs, lo, hi);
    assert AllStored(m', [mb]);
    Rewrite(m, m', bs, hh, 4 * |m|, lo, hi, [mb]);
  }

  /** The merged block's footer lies below the epilogue word, which therefore stays. */
  lemma MergeSentinels(m: seq<Word>, hh: int, bs: seq<Block>, i: nat)
    requires WellFormed(m, hh, bs) && 1 <= i < |bs|
    ensures Layable(Merged(bs, i), |m|)
    ensures Sentinels(PutTags(m, Merged(bs, i)), hh)
  {
    MergedLayable(m, hh, bs, i);
    Aligned(bs, hh, 4 * |m|, MergeHi(bs, i));
    PutTagsStores(m, Merged(bs, i));
  }

  /**
   * coalesce on block i of a heap: writing the merged block's tags leaves
   * a heap whose chain is Merge(bs, i).
   */
  lemma MergeShape(m: seq<Word>, hh: int, bs: seq<Block>, i: nat)
    requires WellFormed(m, hh, bs) && 1 <= i < |bs|
    ensures Layable(Merged(bs, i), |m|)
    ensures WellFormed(PutTags(m, Merged(bs, i)), hh, Merge(bs, i))
  {
    MergeStored(m, hh, bs, i);
    MergeSentinels(m, hh, bs, i);
    MergeTiles(bs, hh, 4 * |m|, i);
    assert Merge(bs, i)[0] == bs[0];
  }

  /**
   * The part of a heap coalesce on block i looks at: block i - 1 abutting
   * block i, and after it either block i + 1 or the epilogue at the break.
   */
  ghost predicate Around(m: seq<Word>, bs: seq<Block>, i: nat)
  {
    && 1 <= i < |bs| && 4 * |m| <= MAX_BREAK
    && Abuts(m, bs[i - 1], bs[i])
    && if i + 1 < |bs| then Abuts(m, bs[i], bs[i + 1])
       else bs[i].addr + bs[i].size == 4 * |m| && m[|m| - 1] == Pack(0, 1)
  }

  /** Every block past the prologue of a heap has such surroundings. */
  lemma AroundOf(m: seq<Word>, hh: int, bs: seq<Block>, i: nat)
    requires WellFormed(m, hh, bs) && 1 <= i < |bs|
    ensures Around(m, bs, i)
  {
    Neighbours(m, hh, bs, i - 1);
    if i + 1 < |bs| {
      Neighbours(m, hh, bs, i);
    } else {
      StepAt(bs, hh, 4 * |m|, i);
    }
  }

  /**
   * What coalesce reads first on block i: the allocation bit in the footer
   * of PREV_PLACE, the one in the header of NEXT_PLACE, and the block's
   * own size.
   */
  lemma CoalesceReads(m: seq<Word>, bs: seq<Block>, i: nat)
    requires Around(m, bs, i)
    ensures var bp := bs[i].addr;
      && HasPrevFooter(m, bp) && PrevPlace(m, bp) == bs[i - 1].addr
      && HasHeader(m, bs[i - 1].addr) && Ft(m, bs[i - 1].addr) >= 0
      && Ft(m, bs[i - 1].addr) % 4 == 0 && WordAt(Ft(m, bs[i - 1].addr)) < |m|
      && (GetAlloc(Get(m, Ft(m, bs[i - 1].addr))) == 1) == bs[i - 1].alloc
      && HasHeader(m, bp) && SizeAt(m, bp) == bs[i].size
      && HasHeader(m, NextPlace(m, bp)) && (AllocAt(m, NextPlace(m, bp)) == 1) == !NextFree(bs, i)
  {
    ReadStored(m, bs[i - 1]);
    ReadStored(m, bs[i]);
    ReadAbutting(m, bs[i - 1], bs[i]);
    if i + 1 < |bs| {
      ReadStored(m, bs[i + 1]);
    } else {
      TagRoundTrip(0, 1);
    }
  }

  /** Case 2, only the successor n free: block b grows over n. */
  lemma MergeNextReads(m: seq<Word>, b: Block, n: Block)
    requires Abuts(m, b, n) && 4 * |m| <= MAX_BREAK
    ensures var mb := Block(b.addr, b.size + n.size, false);
      && Layable(mb, |m|) && HasHeader(m, b.addr) && HasHeader(m, NextPlace(m, b.addr))
      && SizeAt(m, b.addr) + SizeAt(m, NextPlace(m, b.addr)) == mb.size
  {
    ReadStored(m, b);
    ReadStored(m, n);
    SumOfMultiples(b.size, n.size, 0);
  }

  /** Case 3, only the predecessor p free: p grows over b, its size read from p's footer, its footer FT(b.addr). */
  lemma MergePrevReads(m: seq<Word>, p: Block, b: Block)
    requires Abuts(m, p, b) && 4 * |m| <= MAX_BREAK
    ensures var bp, mb := b.addr, Block(p.addr, p.size + b.size, false);
      && Layable(mb, |m|) && 0 <= HdrAt(mb) < FtrAt(mb) < |m| && Tag(mb) == Pack(mb.size, 0)
      && HasHeader(m, bp) && HasPrevFooter(m, bp) && PrevPlace(m, bp) == p.addr && HasHeader(m, p.addr)
      && Ft(m, p.addr) >= 0 && Ft(m, p.addr) % 4 == 0 && WordAt(Ft(m, p.addr)) < |m|
      && SizeAt(m, bp) + GetSize(Get(m, Ft(m, p.addr))) == mb.size
      && Ft(m, bp) >= 0 && Ft(m, bp) % 4 == 0 && WordAt(Ft(m, bp)) == FtrAt(mb)
  {
    ReadStored(m, p);
    ReadStored(m, b);
    ReadAbutting(m, p, b);
    SumOfMultiples(p.size, b.size, 0);
  }

  /** Case 3 after b's footer is rewritten: PREV_PLACE(b.addr) still finds p, and keeps finding it after p's header is rewritten. */
  lemma MergePrevFooterWritten(m: seq<Word>, m1: seq<Word>, p: Block, b: Block, t: Word)
    requires Abuts(m, p, b) && m1 == m[FtrAt(b) := t]
    ensures HasPrevFooter(m1, b.addr) && PrevPlace(m1, b.addr) == p.addr && p.addr >= W_SIZE
    ensures WordAt(Hd(p.addr)) == HdrAt(p) && 0 <= HdrAt(p) < |m|
    ensures HasPrevFooter(m1[HdrAt(p) := t], b.addr) && PrevPlace(m1[HdrAt(p) := t], b.addr) == p.addr
  {
    ReadStored(m, p);
    ReadStored(m, b);
    ReadAbutting(m, p, b);
    WriteKeepsPrevFooter(m, FtrAt(b), t, b.addr);
    WriteKeepsPrevFooter(m1, HdrAt(p), t, b.addr);
  }

  /** Case 4, the merged block: its tags fit in memory and it starts at p's header. */
  lemma MergeBothBlock(m: seq<Word>, p: Block, b: Block, n: Block)
    requires Abuts(m, p, b) && Abuts(m, b, n) && 4 * |m| <= MAX_BREAK
    ensures var mb := Block(p.addr, p.size + b.size + n.size, false);
      && Layable(mb, |m|) && 0 <= HdrAt(mb) < FtrAt(mb) < |m| && Tag(mb) == Pack(mb.size, 0)
      && p.addr >= W_SIZE && WordAt(Hd(p.addr)) == HdrAt(mb)
  {
    ReadStored(m, p);
    ReadStored(m, n);
    SumOfMultiples(p.size, b.size, n.size);
    TagWords(p.addr, p.size + b.size + n.size);
  }

  /** Case 4, both neighbours free: p grows over b and n; the three sizes are read from b's header, p's header and n's footer. */
  lemma MergeBothReads(m: seq<Word>, p: Block, b: Block, n: Block)
    requires Abuts(m, p, b) && Abuts(m, b, n) && 4 * |m| <= MAX_BREAK
    ensures var mb := Block(p.addr, p.size + b.size + n.size, false);
      && Layable(mb, |m|) && 0 <= HdrAt(mb) < FtrAt(mb) < |m| && Tag(mb) == Pack(mb.size, 0)
    ensures var bp, mb := b.addr, Block(p.addr, p.size + b.size + n.size, false);
      && HasHeader(m, bp) && HasPrevFooter(m, bp) && PrevPlace(m, bp) == p.addr && HasHeader(m, p.addr)
      && HasHeader(m, NextPlace(m, bp)) && Ft(m, NextPlace(m, bp)) >= 0
      && Ft(m, NextPlace(m, bp)) % 4 == 0 && WordAt(Ft(m, NextPlace(m, bp))) < |m|
      && SizeAt(m, bp) + (SizeAt(m, p.addr) + GetSize(Get(m, Ft(m, NextPlace(m, bp))))) == mb.size
      && WordAt(Hd(p.addr)) == HdrAt(mb)
  {
    MergeBothBlock(m, p, b, n);
    ReadStored(m, p);
    ReadStored(m, b);
    ReadStored(m, n);
    ReadAbutting(m, p, b);
  }

  /**
   * Case 4 after p's header is rewritten: NEXT_PLACE(b.addr) and FT of it
   * still find n's footer, and PREV_PLACE(b.addr) finds p, also after that
   * footer is rewritten.
   */
  lemma MergeBothHeaderWritten(m: seq<Word>, m1: seq<Word>, p: Block, b: Block, n: Block, t: Word)
    requires Abuts(m, p, b) && Abuts(m, b, n) && m1 == m[HdrAt(p) := t]
    ensures HasHeader(m1, b.addr) && HasHeader(m1, NextPlace(m1, b.addr)) && Ft(m1, NextPlace(m1, b.addr)) >= 0
    ensures Ft(m1, NextPlace(m1, b.addr)) % 4 == 0 && WordAt(Ft(m1, NextPlace(m1, b.addr))) == FtrAt(n)
    ensures 0 <= FtrAt(n) < |m|
    ensures HasPrevFooter(m1[FtrAt(n) := t], b.addr) && PrevPlace(m1[FtrAt(n) := t], b.addr) == p.addr
  {
    ReadStored(m, p);
    ReadStored(m, b);
    ReadStored(m, n);
    ReadAbutting(m, p, b);
    ReadAbutting(m, b, n);
    WriteKeepsHeader(m, HdrAt(p), t, b.addr);
    WriteKeepsHeader(m, HdrAt(p), t, n.addr);
    WriteKeepsPrevFooter(m, HdrAt(p), t, b.addr);
    WriteKeepsPrevFooter(m1, FtrAt(n), t, b.addr);
  }

  // ---------------------------------------------------------------------
  // Payloads: what the operations leave alone

  /** Rewriting the tags of a block whose tags are tags of chain blocks p and q keeps every payload. */
  lemma PutTagsKeeps(m: seq<Word>, mb: Block, bs: seq<Block>, a: nat, b: nat, p: nat, q: nat, x: nat)
    requires Layable(mb, |m|) && Contiguous(bs, a, b) && a % 4 == 0 && p < |bs| && q < |bs| && x < |bs|
    requires HdrAt(mb) == HdrAt(bs[p]) && FtrAt(mb) == FtrAt(bs[q])
    requires 0 <= HdrAt(bs[x]) && FtrAt(bs[x]) < |m|
    ensures PayloadKept(m, PutTags(m, mb), bs[x])
  {
    PutTagsStores(m, mb);
    TagsOutside(bs, a, b, p, x);
    TagsOutside(bs, a, b, q, x);
  }

  /** The merged block's header is the header of its first block and its footer the footer of its last. */
  lemma MergedTags(m: seq<Word>, hh: int, bs: seq<Block>, i: nat)
    requires Sentinels(m, hh) && Chain(m, hh, bs) && 4 * |m| <= MAX_BREAK && 1 <= i < |bs|
    ensures Layable(Merged(bs, i), |m|)
    ensures HdrAt(Merged(bs, i)) == HdrAt(bs[MergeLo(bs, i)])
    ensures FtrAt(Merged(bs, i)) == FtrAt(bs[MergeHi(bs, i) - 1])
  {
    MergedLayable(m, hh, bs, i);
    StepAt(bs, hh, 4 * |m|, MergeHi(bs, i) - 1);
  }

  /** coalesce writes no payload of the chain. */
  lemma MergeKeeps(m: seq<Word>, hh: int, bs: seq<Block>, i: nat, x: nat)
    requires WellFormed(m, hh, bs) && 1 <= i < |bs| && x < |bs|
    ensures Layable(Merged(bs, i), |m|)
    ensures PayloadKept(m, PutTags(m, Merged(bs, i)), bs[x])
  {
    MergedTags(m, hh, bs, i);
    ReadHeader(m, bs[x]);
    PutTagsKeeps(m, Merged(bs, i), bs, hh, 4 * |m|, MergeLo(bs, i), MergeHi(bs, i) - 1, x);
  }

  /** mm_free writes no payload of the chain: it only rewrites tags. */
  lemma FreeKeeps(m: seq<Word>, hh: int, bs: seq<Block>, i: nat, x: nat)
    requires WellFormed(m, hh, bs) && 1 <= i < |bs| && x < |bs|
    ensures var f := bs[i].(alloc := false);
      && Layable(f, |m|) && Layable(Merged(bs[i := f], i), |m|)
      && PayloadKept(m, PutTags(PutTags(m, f), Merged(bs[i := f], i)), bs[x])
  {
    var f := bs[i].(alloc := false);
    FreeShape(m, hh, bs, i);
    ReadHeader(m, bs[x]);
    PutTagsKeeps(m, f, bs, hh, 4 * |m|, i, i, x);
    MergeKeeps(PutTags(m, f), hh, bs[i := f], i, x);
  }

  /** extend_heap writes no payload of the blocks that were there before it. */
  lemma ExtendKeeps(m: seq<Word>, hh: int, bs: seq<Block>, n: nat, x: nat)
    requires WellFormed(m, hh, bs) && n >= 8 && n % 8 == 0 && 4 * |m| + n <= MAX_BREAK && x < |bs|
    ensures var bs' := bs + [Block(4 * |m|, n, false)];
      && Layable(Merged(bs', |bs|), |m| + n / 4)
      && PayloadKept(m, PutTags(Extended(m, n), Merged(bs', |bs|)), bs[x])
  {
    var bs' := bs + [Block(4 * |m|, n, false)];
    ExtendedWords(m, n);
    ExtendShape(m, hh, bs, n);
    ReadHeader(m, bs[x]);
    TagsOrdered(bs, hh, 4 * |m|, x, |bs|);
    assert bs'[x] == bs[x];
    MergeKeeps(Extended(m, n), hh, bs', |bs|, x);
  }

  /** place on block j writes no payload of any other block. */
  lemma PlacedKeeps(m: seq<Word>, bs: seq<Block>, a: nat, b: nat, j: nat, sz: nat, x: nat)
    requires Contiguous(bs, a, b) && a % 4 == 0 && j < |bs| && x < |bs| && x != j
    requires Layable(bs[j], |m|) && 8 <= sz <= bs[j].size && sz % 8 == 0
    requires 0 <= HdrAt(bs[x]) && FtrAt(bs[x]) < |m|
    ensures PayloadKept(m, Placed(m, bs[j], sz), bs[x])
  {
    PlacedFrame(m, bs[j], sz);
    TagWords(bs[j].addr, bs[j].size);
    Apart(bs, a, b, x, j);
  }

  /**
   * The payload of block k fits in the payload of a block j at least as
   * large, and the two do not overlap: what memcpy asks of mm_realloc.
   */
  lemma MoveFits(m: seq<Word>, hh: int, bs: seq<Block>, j: nat, k: nat)
    requires WellFormed(m, hh, bs) && j < |bs| && k < |bs| && j != k && bs[k].size <= bs[j].size
    ensures bs[k].addr % 4 == 0 && bs[j].addr % 4 == 0 && bs[k].size >= D_SIZE && (bs[k].size - D_SIZE) % 4 == 0
    ensures var c := (bs[k].size - D_SIZE) / 4;
      && WordAt(bs[k].addr) + c == FtrAt(bs[k]) < |m|
      && WordAt(bs[j].addr) + c <= FtrAt(bs[j]) < |m|
      && (WordAt(bs[k].addr) + c <= WordAt(bs[j].addr) || WordAt(bs[j].addr) + c <= WordAt(bs[k].addr))
  {
    ReadHeader(m, bs[k]);
    ReadHeader(m, bs[j]);
    StepAt(bs, hh, 4 * |m|, k);
    StepAt(bs, hh, 4 * |m|, j);
    TagsOrdered(bs, hh, 4 * |m|, k, k + 1);
    TagsOrdered(bs, hh, 4 * |m|, j, j + 1);
    PayloadSpan(bs[k]);
    PayloadSpan(bs[j]);
    Apart(bs, hh, 4 * |m|, j, k);
    DiffOfMultiples(bs[k].size, D_SIZE);
    FourOfEight(bs[k].size - D_SIZE);
  }

  /**
   * place on a block j other than block i: block i moves to index Moved
   * and keeps its payload, and block j becomes an allocated block at the
   * same address with room for a bytes.
   */
  lemma PlaceElsewhere(m: seq<Word>, hh: int, bs: seq<Block>, j: nat, a: nat, i: nat)
    requires WellFormed(m, hh, bs) && i < |bs| && j < |bs| && i != j
    requires 8 <= a <= bs[j].size && a % 8 == 0
    ensures Layable(bs[j], |m|)
    ensures var k, v := Moved(bs, j, a, i), PlaceAt(bs, j, a);
      && i <= k < |v| && v[k] == bs[i] && j < |v| && j != k
      && v[j].addr == bs[j].addr && v[j].alloc && a <= v[j].size
    ensures PayloadKept(m, Placed(m, bs[j], a), bs[i])
    ensures WordAt(bs[i].addr) + (bs[i].size - D_SIZE) / W_SIZE == FtrAt(bs[i])
  {
    ChainLayable(m, hh, bs, j);
    ReadHeader(m, bs[i]);
    StepAt(bs, hh, 4 * |m|, i);
    ChainLayable(m, hh, bs, i);
    PayloadSpan(bs[i]);
    PlacedKeeps(m, bs, hh, 4 * |m|, j, a, i);
    PlacedFirst(bs, j, a);
  }

  /** Writes confined to the payload of block x keep the heap well formed. */
  lemma PayloadWriteKeeps(m: seq<Word>, m': seq<Word>, hh: int, bs: seq<Block>, x: nat)
    requires WellFormed(m, hh, bs) && x < |bs| && |m'| == |m|
    requires forall w :: 0 <= w < |m| && !(HdrAt(bs[x]) < w < FtrAt(bs[x])) ==> m'[w] == m[w]
    ensures WellFormed(m', hh, bs)
  {
    ReadHeader(m, bs[x]);
    forall k | 0 <= k < |bs| ensures Stored(m', bs[k]) {
      ReadHeader(m, bs[k]);
      TagsOutside(bs, hh, 4 * |m|, k, x);
    }
  }

  // ---------------------------------------------------------------------
  // mm_realloc growing in place

  /**
   * After mm_realloc rewrites only the header of block i, to the summed
   * size of block i and its successor, the chain with the two merged is
   * laid out everywhere except at the merged block, whose header reads back
   * that size.
   */
  lemma AbsorbShape(m: seq<Word>, hh: int, bs: seq<Block>, i: nat, m1: seq<Word>)
    requires WellFormed(m, hh, bs) && 1 <= i && i + 1 < |bs| && 0 <= HdrAt(bs[i]) < |m|
    requires |m1| == |m| && forall w :: 0 <= w < |m| && w != HdrAt(bs[i]) ==> m1[w] == m[w]
    requires GetSize(m1[HdrAt(bs[i])]) == bs[i].size + bs[i + 1].size
    ensures Sentinels(m1, hh) && Chain(m1, hh, Absorb(bs, i)) && StoredExcept(m1, Absorb(bs, i), i)
    ensures HasHeader(m1, bs[i].addr) && SizeAt(m1, bs[i].addr) == bs[i].size + bs[i + 1].size
  {
    AbsorbTiles(bs, hh, 4 * |m|, i);
    TagsOrdered(bs, hh, 4 * |m|, i, |bs|);
    AbsorbStored(m, hh, bs, i, m1);
  }

  /** That header write leaves every other block of the merged chain laid out. */
  lemma AbsorbStored(m: seq<Word>, hh: int, bs: seq<Block>, i: nat, m1: seq<Word>)
    requires WellFormed(m, hh, bs) && 1 <= i && i + 1 < |bs|
    requires |m1| == |m| && forall w :: 0 <= w < |m| && w != HdrAt(bs[i]) ==> m1[w] == m[w]
    ensures StoredExcept(m1, Absorb(bs, i), i)
  {
    var ab := Absorb(bs, i);
    forall k | 0 <= k < |ab| && k != i ensures Stored(m1, ab[k]) {
      var k' := if k < i then k else k + 1;
      assert ab[k] == bs[k'];
      ReadHeader(m, bs[k']);
      TagsOutside(bs, hh, 4 * |m|, i, k');
      Apart(bs, hh, 4 * |m|, k', i);
    }
  }

  /**
   * mm_realloc growing in place writes no payload of another allocated
   * block x: the header write is a tag of block i and place writes only
   * the tags of the merged block. Block x keeps its place in the merged
   * chain, one index lower when it follows the absorbed successor.
   */
  lemma AbsorbKeeps(m: seq<Word>, hh: int, bs: seq<Block>, i: nat, m1: seq<Word>, a: nat, x: nat)
    requires WellFormed(m, hh, bs) && 1 <= i && i + 1 < |bs| && !bs[i + 1].alloc
    requires x < |bs| && x != i && bs[x].alloc
    requires |m1| == |m| && forall w :: 0 <= w < |m| && w != HdrAt(bs[i]) ==> m1[w] == m[w]
    requires Layable(Absorb(bs, i)[i], |m1|) && 8 <= a <= Absorb(bs, i)[i].size && a % 8 == 0
    ensures var xa := if x < i then x else x - 1;
      && xa < |Absorb(bs, i)| && xa != i && Absorb(bs, i)[xa] == bs[x]
      && PayloadKept(m, Placed(m1, Absorb(bs, i)[i], a), bs[x])
  {
    var ab := Absorb(bs, i);
    var xa := if x < i then x else x - 1;
    assert ab[xa] == bs[x];
    ReadHeader(m, bs[x]);
    TagsOutside(bs, hh, 4 * |m|, i, x);
    AbsorbTiles(bs, hh, 4 * |m|, i);
    PlacedKeeps(m1, ab, hh, 4 * |m|, i, a, xa);
  }

  /**
   * A copy into the first c payload words of block j writes no payload of
   * another block x.
   */
  lemma CopyKeeps(m: seq<Word>, m': seq<Word>, hh: int, bs: seq<Block>, j: nat, x: nat, c: nat)
    requires WellFormed(m, hh, bs) && j < |bs| && x < |bs| && x != j && |m'| == |m|
    requires WordAt(bs[j].addr) + c <= FtrAt(bs[j])
    requires forall w :: 0 <= w < |m| && !(WordAt(bs[j].addr) <= w < WordAt(bs[j].addr) + c) ==> m'[w] == m[w]
    ensures PayloadKept(m, m', bs[x])
  {
    ReadHeader(m, bs[x]);
    Apart(bs, hh, 4 * |m|, x, j);
  }
}
