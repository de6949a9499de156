/**
 * The allocator itself: one region of process memory that only grows,
 * boundary-tagged blocks inside it, and the operations of user/ummalloc.c
 * as methods that rewrite those tags in place. The ghost field `view` is
 * the block list the tags describe; Valid() ties the two together, and
 * Layout.Determined shows the memory fixes the view.
 */
module Allocator {
  import opened Tags
  import opened Layout
  import opened Policy
  import opened Words
  import opened Effects

  class Heap {
    /** Process memory from address 0 up to the break, one 32-bit word per entry. */
    var mem: seq<Word>
    /** heap_head: the payload address of the prologue once mm_init has succeeded. */
    var heapHead: int
    /** The blocks from the prologue to the epilogue, in address order. */
    ghost var view: seq<Block>
    /** The highest break the environment grants; sbrk fails beyond it. */
    const limit: nat

    /** A process whose memory is `image` and whose heap pointer is still NULL. */
    constructor (image: seq<Word>, limit: nat)
      requires 4 * |image| <= limit <= MAX_BREAK
      ensures mem == image && heapHead == NULL && this.limit == limit && Region()
    {
      mem := image;
      heapHead := NULL;
      view := [];
      this.limit := limit;
    }

    /** The current break: one past the last byte of the region. */
    function Brk(): nat
      reads this
    {
      4 * |mem|
    }

    /** The environment's bound on the break is respected. */
    ghost predicate Region()
      reads this
    {
      Brk() <= limit <= MAX_BREAK
    }

    /** The heap invariant: the view is a chain laid out in memory between the sentinels. */
    ghost predicate Valid()
      reads this
    {
      Region() && WellFormed(mem, heapHead, view)
    }

    /**
     * Every block address, which is also the address of its payload, has
     * the prologue's alignment modulo 8.
     */
    lemma AlignedBlocks(k: nat)
      requires Valid() && k < |view|
      ensures view[k].addr % 8 == heapHead % 8
    {
      Aligned(view, heapHead, Brk(), k);
    }

    /** Any chain laid out in the same memory is the view: the memory determines it. */
    lemma ViewDetermined(bs: seq<Block>)
      requires Valid() && Chain(mem, heapHead, bs) && AllStored(mem, bs)
      ensures bs == view
    {
      Determined(mem, bs, view, heapHead, Brk());
    }

    /** PUT: overwrite the word at byte address a. */
    method Put(a: nat, w: Word)
      requires a % 4 == 0 && WordAt(a) < |mem|
      modifies this
      ensures mem == old(mem)[WordAt(a) := w]
      ensures heapHead == old(heapHead) && view == old(view)
    {
      mem := mem[WordAt(a) := w];
    }

    /**
     * sbrk: move the break up by n bytes and return the old break, or
     * return -1 and change nothing when the environment refuses.
     */
    method Sbrk(n: nat) returns (p: int)
      requires n % 4 == 0
      modifies this
      ensures heapHead == old(heapHead) && view == old(view)
      ensures old(Brk()) + n <= limit ==> p == old(Brk()) && mem == old(mem) + Zeros(n / 4)
      ensures old(Brk()) + n > limit ==> p == -1 && mem == old(mem)
    {
      if Brk() + n <= limit {
        p := Brk();
        mem := mem + Zeros(n / 4);
      } else {
        p := -1;
      }
    }

    /** PUT(HD(bp), PACK(size, alloc)) then PUT(FT(bp), PACK(size, alloc)): write both tags of a block. */
    method PutBlock(bp: nat, size: nat, alloc: nat)
      requires alloc <= 1 && Layable(Block(bp, size, alloc == 1), |mem|)
      modifies this
      ensures mem == PutTags(old(mem), Block(bp, size, alloc == 1))
      ensures heapHead == old(heapHead) && view == old(view)
    {
      TagWords(bp, size);
      TagRoundTrip(size, alloc);
      Put(Hd(bp), Pack(size, alloc));
      Put(Ft(mem, bp), Pack(size, alloc));
    }

    // -------------------------------------------------------------------
    // place

    /**
     * place(bp, a): make the block at bp allocated with size a and a free
     * remainder after it when at least 8 bytes remain; otherwise allocate
     * the whole block. Only the header of blk, the block at bp, need be
     * written: its footer may be stale. The memory becomes Placed(old
     * memory), so only that block's words change and its first a - 8
     * payload bytes are kept.
     */
    method Place(bp: nat, aSize: nat, ghost blk: Block)
      requires Layable(blk, |mem|) && blk.addr == bp && HasHeader(mem, bp) && SizeAt(mem, bp) == blk.size
      requires 8 <= aSize <= blk.size && aSize % 8 == 0
      modifies this
      ensures mem == Placed(old(mem), blk, aSize)
      ensures heapHead == old(heapHead) && view == old(view)
    {
      ghost var m0 := mem;
      ghost var sp := Split(bp, blk.size, aSize);
      var size := SizeAt(mem, bp);
      if size - aSize >= 2 * W_SIZE {
        assert Layable(Block(bp, aSize, 1 == 1), |mem|) && Block(bp, aSize, 1 == 1) == sp[0] by {
          SplitLayable(blk, aSize, |mem|);
        }
        PutBlock(bp, aSize, 1);
        var next := NextPlace(mem, bp);
        assert Layable(Block(next, size - aSize, 0 == 1), |mem|) && Block(next, size - aSize, 0 == 1) == sp[1] by {
          SplitLayable(blk, aSize, |mem|);
          PutTagsHeader(m0, sp[0]);
          TagWords(bp, aSize);
        }
        PutBlock(next, size - aSize, 0);
        assert mem == Placed(m0, blk, aSize);
      } else {
        assert Layable(Block(bp, size, 1 == 1), |mem|) && Block(bp, size, 1 == 1) == sp[0] by {
          SplitLayable(blk, aSize, |mem|);
        }
        PutBlock(bp, size, 1);
        assert mem == Placed(m0, blk, aSize);
      }
    }

    /**
     * place on block i of the chain bs, whose other blocks are laid out and
     * whose own header gives its size: the heap becomes well formed again
     * with the chain PlaceAt(bs, i, a).
     */
    method PlaceInView(bp: nat, aSize: nat, ghost bs: seq<Block>, ghost i: nat)
      requires Region() && Sentinels(mem, heapHead) && Chain(mem, heapHead, bs)
      requires 1 <= i < |bs| && StoredExcept(mem, bs, i)
      requires bs[i].addr == bp && HasHeader(mem, bp) && SizeAt(mem, bp) == bs[i].size
      requires 8 <= aSize <= bs[i].size && aSize % 8 == 0
      modifies this
      ensures Valid() && view == PlaceAt(bs, i, aSize) && heapHead == old(heapHead)
      ensures Layable(bs[i], |old(mem)|) && mem == Placed(old(mem), bs[i], aSize)
    {
      ghost var m0 := mem;
      ChainLayable(mem, heapHead, bs, i);
      Place(bp, aSize, bs[i]);
      PlaceShape(m0, heapHead, bs, i, aSize);
      view := PlaceAt(bs, i, aSize);
    }

    /** place on block i of a valid heap, as mm_malloc and mm_realloc's shrink path call it. */
    method PlaceBlock(bp: nat, aSize: nat, ghost i: nat)
      requires Valid() && 1 <= i < |view| && view[i].addr == bp
      requires 8 <= aSize <= view[i].size && aSize % 8 == 0
      modifies this
      ensures Valid() && view == PlaceAt(old(view), i, aSize) && heapHead == old(heapHead)
      ensures Layable(old(view)[i], |old(mem)|) && mem == Placed(old(mem), old(view)[i], aSize)
    {
      ReadBlock(mem, heapHead, view, i);
      PlaceInView(bp, aSize, view, i);
    }

    // -------------------------------------------------------------------
    // find_first

    /**
     * find_first(a): walk the blocks from heap_head by their header sizes
     * until the epilogue's size 0, returning the first free block of at
     * least a bytes, or NULL when there is none.
     */
    method FindFirst(aSize: nat) returns (p: nat)
      requires Valid()
      ensures FirstFit(view, aSize).None? ==> p == NULL
      ensures FirstFit(view, aSize).Some? ==> p != NULL && p == view[FirstFit(view, aSize).value].addr
    {
      p := heapHead;
      ghost var k := 0;
      ReadBlock(mem, heapHead, view, 0);
      while SizeAt(mem, p) > 0
        invariant k <= |view| && HasHeader(mem, p) && p == StartOf(view, k, Brk())
        invariant SizeAt(mem, p) > 0 <==> k < |view|
        invariant FirstFitFrom(view, aSize, k) == FirstFit(view, aSize)
        decreases |view| - k
      {
        ReadBlock(mem, heapHead, view, k);
        if AllocAt(mem, p) == 0 && aSize <= SizeAt(mem, p) {
          return;
        }
        ReadNext(mem, heapHead, view, k);
        if k + 1 < |view| {
          ReadBlock(mem, heapHead, view, k + 1);
        }
        p := NextPlace(mem, p);
        k := k + 1;
      }
      return NULL;
    }

    // -------------------------------------------------------------------
    // mm_malloc

    /**
     * mm_malloc(size): NULL for size 0; otherwise the first fitting block
     * for the adjusted size, or else a block at the end of a region grown
     * by at least E_SIZE bytes, placed; NULL with nothing changed when the
     * region may not grow. The effect on the view is MallocOutcome.
     */
    method Malloc(size: nat, ghost x: nat) returns (bp: nat, ghost k: nat)
      requires Valid() && size <= MAX_REQUEST && x < |view| && view[x].alloc
      modifies this
      ensures k < |view| && view[k] == old(view)[x] && PayloadKept(old(mem), mem, old(view)[x])
      ensures Valid() && heapHead == old(heapHead)
      ensures view == MallocOutcome(old(view), old(Brk()), limit, size).view
      ensures Brk() == MallocOutcome(old(view), old(Brk()), limit, size).brk
      ensures bp == MallocOutcome(old(view), old(Brk()), limit, size).ptr
      ensures bp == NULL ==> mem == old(mem)
    {
      if size == 0 {
        k := x;
        ReadBlock(mem, heapHead, view, x);
        return NULL, k;
      }
      var aSize := AdjustedSize(size);
      ghost var j, kp;
      bp, j, kp, k := ObtainPlaced(aSize, x, x);
    }

    // -------------------------------------------------------------------
    // coalesce

    /** Case 2 of coalesce: only the successor n is free; block b, at bp, grows over it. */
    method MergeNext(bp: nat, ghost b: Block, ghost n: Block)
      requires Abuts(mem, b, n) && 4 * |mem| <= MAX_BREAK && b.addr == bp
      modifies this
      ensures Layable(Block(bp, b.size + n.size, false), |old(mem)|)
      ensures mem == PutTags(old(mem), Block(bp, b.size + n.size, false))
      ensures heapHead == old(heapHead) && view == old(view)
    {
      MergeNextReads(mem, b, n);
      var size := SizeAt(mem, bp) + SizeAt(mem, NextPlace(mem, bp));
      PutBlock(bp, size, 0);
    }

    /** Case 3 of coalesce: only the predecessor p is free; it grows over block b, at bp, and is returned. */
    method MergePrev(bp: nat, ghost p: Block, ghost b: Block) returns (r: nat)
      requires Abuts(mem, p, b) && 4 * |mem| <= MAX_BREAK && b.addr == bp
      modifies this
      ensures Layable(Block(p.addr, p.size + b.size, false), |old(mem)|)
      ensures mem == PutTags(old(mem), Block(p.addr, p.size + b.size, false)) && r == p.addr
      ensures heapHead == old(heapHead) && view == old(view)
    {
      ghost var m0, mb := mem, Block(p.addr, p.size + b.size, false);
      MergePrevReads(mem, p, b);
      var size := SizeAt(mem, bp) + GetSize(Get(mem, Ft(mem, PrevPlace(mem, bp))));
      assert Pack(size, 0) == Tag(mb) && FtrAt(mb) == FtrAt(b) && HdrAt(mb) == HdrAt(p);
      Put(Ft(mem, bp), Pack(size, 0));
      MergePrevFooterWritten(m0, mem, p, b, Tag(mb));
      Put(Hd(PrevPlace(mem, bp)), Pack(size, 0));
      PutTagsSwapped(m0, mb);
      r := PrevPlace(mem, bp);
    }

    /** Case 4 of coalesce: both neighbours are free; p grows over block b, at bp, and n, and is returned. */
    method MergeBoth(bp: nat, ghost p: Block, ghost b: Block, ghost n: Block) returns (r: nat)
      requires Abuts(mem, p, b) && Abuts(mem, b, n) && 4 * |mem| <= MAX_BREAK && b.addr == bp
      modifies this
      ensures Layable(Block(p.addr, p.size + b.size + n.size, false), |old(mem)|)
      ensures mem == PutTags(old(mem), Block(p.addr, p.size + b.size + n.size, false)) && r == p.addr
      ensures heapHead == old(heapHead) && view == old(view)
    {
      ghost var m0, mb := mem, Block(p.addr, p.size + b.size + n.size, false);
      MergeBothReads(mem, p, b, n);
      var size := SizeAt(mem, bp) + (SizeAt(mem, PrevPlace(mem, bp)) + GetSize(Get(mem, Ft(mem, NextPlace(mem, bp)))));
      assert Pack(size, 0) == Tag(mb) && FtrAt(mb) == FtrAt(n) && HdrAt(mb) == HdrAt(p);
      Put(Hd(PrevPlace(mem, bp)), Pack(size, 0));
      MergeBothHeaderWritten(m0, mem, p, b, n, Tag(mb));
      Put(Ft(mem, NextPlace(mem, bp)), Pack(size, 0));
      r := PrevPlace(mem, bp);
    }

    /**
     * The tag writes of coalesce(bp) on block i of the heap bs, which is
     * free: read the neighbours' allocation bits and write the header and
     * footer of the merged block, returning its address.
     */
    method MergeTags(bp: nat, ghost bs: seq<Block>, ghost i: nat) returns (r: nat)
      requires Around(mem, bs, i) && bs[i].addr == bp && !bs[i].alloc && Layable(Merged(bs, i), |mem|)
      modifies this
      ensures mem == PutTags(old(mem), Merged(bs, i)) && r == Merged(bs, i).addr
      ensures heapHead == old(heapHead) && view == old(view)
    {
      CoalesceReads(mem, bs, i);
      MergedCases(bs, i);
      var prevAlloc := GetAlloc(Get(mem, Ft(mem, PrevPlace(mem, bp))));
      var nextAlloc := AllocAt(mem, NextPlace(mem, bp));
      if prevAlloc == 1 && nextAlloc == 1 {
        PutTagsSame(mem, bs[i]);
        r := bp;
      } else if prevAlloc == 1 && nextAlloc == 0 {
        MergeNext(bp, bs[i], bs[i + 1]);
        r := bp;
      } else if prevAlloc == 0 && nextAlloc == 1 {
        r := MergePrev(bp, bs[i - 1], bs[i]);
      } else {
        r := MergeBoth(bp, bs[i - 1], bs[i], bs[i + 1]);
      }
    }

    /**
     * coalesce(bp) on block i, which is free: merge it with a free
     * predecessor and a free successor, whichever exist, writing only the
     * merged block's header and footer, and return the merged block.
     */
    method Coalesce(bp: nat, ghost i: nat) returns (r: nat)
      requires Valid() && 1 <= i < |view| && view[i].addr == bp && !view[i].alloc
      modifies this
      ensures Valid() && view == Merge(old(view), i) && heapHead == old(heapHead)
      ensures Layable(Merged(old(view), i), |old(mem)|) && mem == PutTags(old(mem), Merged(old(view), i))
      ensures r == Merged(old(view), i).addr
    {
      ghost var bs, m0 := view, mem;
      MergedLayable(mem, heapHead, bs, i);
      AroundOf(mem, heapHead, bs, i);
      r := MergeTags(bp, bs, i);
      MergeShape(m0, heapHead, bs, i);
      view := Merge(bs, i);
    }

    // -------------------------------------------------------------------
    // mm_free

    /**
     * mm_free(bp) on block i: rewrite its tags as free, then coalesce. The
     * view becomes FreeAt(view, i) and only the freed block's tags and then
     * the merged block's tags are written.
     */
    method Free(bp: nat, ghost i: nat)
      requires Valid() && 1 <= i < |view| && view[i].addr == bp
      modifies this
      ensures Valid() && view == FreeAt(old(view), i) && heapHead == old(heapHead)
      ensures var f := old(view)[i].(alloc := false);
        && Layable(f, |old(mem)|) && Layable(Merged(old(view)[i := f], i), |old(mem)|)
        && mem == PutTags(PutTags(old(mem), f), Merged(old(view)[i := f], i))
    {
      ghost var bs, m0 := view, mem;
      ghost var f := bs[i].(alloc := false);
      ReadBlock(mem, heapHead, bs, i);
      FreeShape(mem, heapHead, bs, i);
      var size := SizeAt(mem, bp);
      PutBlock(bp, size, 0);
      assert Block(bp, size, 0 == 1) == f;
      view := bs[i := f];
      var merged := Coalesce(bp, i);
    }

    // -------------------------------------------------------------------
    // extend_heap

    /**
     * The three writes of extend_heap once sbrk has granted the size bytes
     * at bp: the header (in the old epilogue word) and footer of a free
     * block over them, then a new epilogue in the header of NEXT_PLACE(bp).
     */
    method PutFresh(bp: nat, size: nat)
      requires Layable(Block(bp, size, false), |mem|) && bp + size == Brk()
      modifies this
      ensures mem == PutTags(old(mem), Block(bp, size, false))[|old(mem)| - 1 := Pack(0, 1)]
      ensures heapHead == old(heapHead) && view == old(view)
    {
      ghost var m0 := mem;
      assert Block(bp, size, 0 == 1) == Block(bp, size, false);
      PutBlock(bp, size, 0);
      PutTagsHeader(m0, Block(bp, size, false));
      TagWords(bp, size);
      Put(Hd(NextPlace(mem, bp)), Pack(0, 1));
    }

    /**
     * extend_heap(words): ask sbrk for ExtendBytes(words) bytes. On success
     * the old epilogue word becomes the header of a new free block filling
     * those bytes, a new epilogue follows it, and the block is coalesced
     * with a free last block; the merged block is returned. When sbrk
     * refuses, NULL is returned and nothing changes.
     */
    method ExtendHeap(words: nat) returns (bp: nat)
      requires Valid() && words >= 1 && ExtendBytes(words) < MAX_BREAK
      modifies this
      ensures bp == NULL <==> old(Brk()) + ExtendBytes(words) > limit
      ensures bp == NULL ==> mem == old(mem) && view == old(view)
      ensures bp != NULL ==> Brk() == old(Brk()) + ExtendBytes(words)
      ensures bp != NULL ==> view == Grow(old(view), old(Brk()), ExtendBytes(words))
      ensures bp != NULL ==> bp == view[GrowIndex(old(view), old(Brk()), ExtendBytes(words))].addr
      ensures bp != NULL ==>
        var n, nb := ExtendBytes(words), Block(old(Brk()), ExtendBytes(words), false);
        && Layable(Merged(old(view) + [nb], |old(view)|), |old(mem)| + n / 4)
        && mem == PutTags(Extended(old(mem), n), Merged(old(view) + [nb], |old(view)|))
      ensures Valid() && heapHead == old(heapHead)
    {
      ghost var bs, m0 := view, mem;
      var size := if words % 2 == 1 then (words + 1) * W_SIZE else words * W_SIZE;
      assert size == ExtendBytes(words);
      FourOfEight(size);
      var p := Sbrk(size);
      if p == -1 {
        return NULL;
      }
      bp := p;
      ghost var nb := Block(bp, size, false);
      ExtendShape(m0, heapHead, bs, size);
      PutFresh(bp, size);
      assert mem == Extended(m0, size);
      view := bs + [nb];
      GrowBlock(bs, 4 * |m0|, size);
      bp := Coalesce(bp, |bs|);
    }

    // -------------------------------------------------------------------
    // mm_init

    /** The four writes of mm_init into the 16 bytes sbrk granted at p, which end the region. */
    method PutPrologue(p: nat)
      requires |mem| >= 4 && p == 4 * (|mem| - 4)
      modifies this
      ensures mem == Prologue(old(mem)[..|old(mem)| - 4])
      ensures heapHead == old(heapHead) && view == old(view)
    {
      ghost var m0 := mem[..|mem| - 4];
      Put(p, 0);
      Put(p + 1 * W_SIZE, Pack(D_SIZE, 1));
      Put(p + 2 * W_SIZE, Pack(D_SIZE, 1));
      Put(p + 3 * W_SIZE, Pack(0, 1));
      assert mem == Prologue(m0);
    }

    /**
     * mm_init: obtain 16 bytes from sbrk for the padding word, the prologue
     * and the epilogue, point heap_head at the prologue, then extend the
     * heap by one chunk. Returns 0 on success and -1 when either sbrk call
     * fails; heap_head is -1 when the first one does. After a successful
     * first call the heap is valid whatever the second call does.
     */
    method Init() returns (r: int)
      requires Region()
      modifies this
      ensures r == 0 || r == -1
      ensures old(Brk()) + 16 > limit ==> r == -1 && heapHead == -1 && mem == old(mem)
      ensures old(Brk()) + 16 <= limit ==> Valid() && heapHead == old(Brk()) + 8 && NoAdjacentFree(view)
      ensures r == 0 <==> old(Brk()) + 16 + E_SIZE <= limit
      ensures r == 0 ==> view == [Block(old(Brk()) + 8, D_SIZE, true), Block(old(Brk()) + 16, E_SIZE, false)]
      ensures r == 0 ==> mem == Extended(Prologue(old(mem)), E_SIZE)
      ensures r == -1 && old(Brk()) + 16 <= limit ==> view == [Block(old(Brk()) + 8, D_SIZE, true)]
      ensures r == -1 && old(Brk()) + 16 <= limit ==> mem == Prologue(old(mem))
    {
      ghost var m0 := mem;
      var p := Sbrk(4 * W_SIZE);
      assert p != -1 ==> mem[..|mem| - 4] == m0;
      heapHead := p;
      if heapHead == -1 {
        return -1;
      }
      PutPrologue(heapHead);
      heapHead := heapHead + 2 * W_SIZE;
      InitShape(m0);
      view := [Block(heapHead, D_SIZE, true)];
      r := InitExtend(m0);
    }

    /**
     * The last step of mm_init: extend the heap holding only the prologue by
     * one chunk of E_SIZE bytes, returning 0, or -1 with nothing changed
     * when sbrk refuses.
     */
    method InitExtend(ghost m: seq<Word>) returns (r: int)
      requires Valid() && mem == Prologue(m) && view == [Block(4 * |m| + 8, D_SIZE, true)]
      modifies this
      ensures Valid() && heapHead == old(heapHead) && NoAdjacentFree(view)
      ensures r == 0 || r == -1
      ensures r == 0 <==> old(Brk()) + E_SIZE <= limit
      ensures r == 0 ==> view == old(view) + [Block(old(Brk()), E_SIZE, false)] && mem == Extended(old(mem), E_SIZE)
      ensures r == -1 ==> view == old(view) && mem == old(mem)
    {
      ghost var m1, v := mem, view;
      assert ExtendBytes(E_SIZE / W_SIZE) == E_SIZE;
      var bp := ExtendHeap(E_SIZE / W_SIZE);
      if bp == NULL {
        return -1;
      }
      InitGrow(m, m1, v, E_SIZE);
      return 0;
    }

    // -------------------------------------------------------------------
    // mm_realloc

    /**
     * memcpy(dst, src, n) for word-aligned, non-overlapping ranges of n
     * bytes, a multiple of 4: copy word by word, changing nothing else.
     */
    method Memcpy(dst: nat, src: nat, n: nat)
      requires dst % 4 == 0 && src % 4 == 0 && n % 4 == 0
      requires WordAt(dst) + n / 4 <= |mem| && WordAt(src) + n / 4 <= |mem|
      requires WordAt(src) + n / 4 <= WordAt(dst) || WordAt(dst) + n / 4 <= WordAt(src)
      modifies this
      ensures |mem| == |old(mem)| && heapHead == old(heapHead) && view == old(view)
      ensures Copied(old(mem), mem, WordAt(src), WordAt(dst), n / 4)
      ensures forall w :: 0 <= w < |mem| && !(WordAt(dst) <= w < WordAt(dst) + n / 4) ==> mem[w] == old(mem)[w]
    {
      var d, s := WordAt(dst), WordAt(src);
      var t := 0;
      while t < n / 4
        invariant t <= n / 4 && |mem| == |old(mem)| && heapHead == old(heapHead) && view == old(view)
        invariant forall w :: d <= w < d + t ==> mem[w] == old(mem)[w - d + s]
        invariant forall w :: 0 <= w < |mem| && !(d <= w < d + t) ==> mem[w] == old(mem)[w]
      {
        mem := mem[d + t := mem[s + t]];
        t := t + 1;
      }
    }

    /**
     * mm_realloc with the successor free and large enough: write the summed
     * size into the header of block i alone, then place. The payload of
     * block i stays where it is.
     */
    method GrowInPlace(ptr: nat, aSize: nat, sizeSum: nat, ghost i: nat, ghost x: nat) returns (ghost kx: nat)
      requires Valid() && 1 <= i && i + 1 < |view| && view[i].addr == ptr && !view[i + 1].alloc
      requires x < |view| && x != i && view[x].alloc
      requires sizeSum == view[i].size + view[i + 1].size && view[i].size < aSize <= sizeSum && aSize % 8 == 0
      modifies this
      ensures Valid() && view == PlaceAt(Absorb(old(view), i), i, aSize) && heapHead == old(heapHead)
      ensures |mem| == |old(mem)|
      ensures Copied(old(mem), mem, WordAt(ptr), WordAt(ptr), (old(view)[i].size - D_SIZE) / W_SIZE)
      ensures kx < |view| && view[kx] == old(view)[x] && PayloadKept(old(mem), mem, old(view)[x])
    {
      ghost var m0, bs := mem, view;
      PutAbsorbed(ptr, sizeSum, i);
      ghost var m1, ab := mem, Absorb(bs, i);
      PlaceInView(ptr, aSize, ab, i);
      PlacedFrame(m1, ab[i], aSize);
      PayloadSpan(ab[i]);
      PayloadSpan(bs[i]);
      AbsorbKeeps(m0, heapHead, bs, i, m1, aSize, x);
      kx := Moved(ab, i, aSize, if x < i then x else x - 1);
    }

    /**
     * The header write of mm_realloc growing in place: block i's header
     * gets the summed size of block i and its free successor, which lays
     * out the merged chain everywhere except at the merged block's footer.
     */
    method PutAbsorbed(ptr: nat, sizeSum: nat, ghost i: nat)
      requires Valid() && 1 <= i && i + 1 < |view| && view[i].addr == ptr && !view[i + 1].alloc
      requires sizeSum == view[i].size + view[i + 1].size
      modifies this
      ensures view == old(view) && heapHead == old(heapHead) && |mem| == |old(mem)| && Region()
      ensures 0 <= HdrAt(view[i]) < |mem| && forall w :: 0 <= w < |mem| && w != HdrAt(view[i]) ==> mem[w] == old(mem)[w]
      ensures Sentinels(mem, heapHead) && Chain(mem, heapHead, Absorb(view, i)) && StoredExcept(mem, Absorb(view, i), i)
      ensures HasHeader(mem, ptr) && SizeAt(mem, ptr) == sizeSum
    {
      ghost var m0, bs := mem, view;
      ReadBlock(mem, heapHead, bs, i);
      ReadBlock(mem, heapHead, bs, i + 1);
      StepAt(bs, heapHead, Brk(), i);
      SumOfMultiples(bs[i].size, bs[i + 1].size, 0);
      TagRoundTrip(sizeSum, 0);
      Put(Hd(ptr), Pack(sizeSum, 0));
      AbsorbShape(m0, heapHead, bs, i, mem);
    }

    /**
     * The end of mm_realloc's moving path: copy the payload of block k to
     * the block j just placed, then free block k.
     */
    method MoveAndFree(dst: nat, src: nat, count: nat, ghost j: nat, ghost k: nat, ghost x: nat) returns (ghost kx: nat)
      requires Valid() && 1 <= k < |view| && j < |view| && j != k
      requires x < |view| && x != j && x != k && view[x].alloc
      requires view[k].addr == src && view[j].addr == dst && view[k].size <= view[j].size
      requires count == view[k].size - D_SIZE
      modifies this
      ensures Valid() && view == FreeAt(old(view), k) && heapHead == old(heapHead) && |mem| == |old(mem)|
      ensures Copied(old(mem), mem, WordAt(src), WordAt(dst), count / W_SIZE)
      ensures kx < |view| && view[kx] == old(view)[x] && PayloadKept(old(mem), mem, old(view)[x])
    {
      ghost var v := view;
      CopyPayload(dst, src, count, j, k, x);
      ghost var m1 := mem;
      FreeKeeps(m1, heapHead, v, k, j);
      FreeKeeps(m1, heapHead, v, k, x);
      Free(src, k);
      kx := Freed(v, k, x);
    }

    /**
     * The memcpy of mm_realloc's moving path: the payload of block k
     * reaches the start of the payload of block j, and nothing outside
     * that payload changes.
     */
    method CopyPayload(dst: nat, src: nat, count: nat, ghost j: nat, ghost k: nat, ghost x: nat)
      requires Valid() && 1 <= k < |view| && j < |view| && j != k && x < |view| && x != j
      requires view[k].addr == src && view[j].addr == dst && view[k].size <= view[j].size
      requires count == view[k].size - D_SIZE
      modifies this
      ensures Valid() && view == old(view) && heapHead == old(heapHead) && |mem| == |old(mem)|
      ensures Copied(old(mem), mem, WordAt(src), WordAt(dst), count / W_SIZE)
      ensures WordAt(dst) + count / W_SIZE <= FtrAt(view[j])
      ensures PayloadKept(old(mem), mem, view[x])
    {
      ghost var m0, v := mem, view;
      MoveFits(mem, heapHead, v, j, k);
      Memcpy(dst, src, count);
      PayloadWriteKeeps(m0, mem, heapHead, v, j);
      CopyKeeps(m0, mem, heapHead, v, j, x, count / W_SIZE);
    }

    /**
     * The search and growth of mm_malloc and of mm_realloc's moving path,
     * for adjusted size aSize: find the first fit or grow the region,
     * keeping every allocated block and its payload. Block j is the free
     * block to place into.
     */
    method FindOrGrow(aSize: nat) returns (r: nat, ghost j: nat)
      requires Valid() && 8 <= aSize <= MAX_REQUEST + 16 && aSize % 8 == 0
      modifies this
      ensures Valid() && heapHead == old(heapHead)
      ensures r == NULL <==> Obtain(old(view), old(Brk()), limit, aSize).ptr == NULL
      ensures r == NULL ==> mem == old(mem) && view == old(view)
      ensures r != NULL ==> j < |view| && view[j].addr == r && !view[j].alloc && aSize <= view[j].size
      ensures r != NULL ==> forall y :: 0 <= y < |old(view)| && old(view)[y].alloc ==>
        y < |view| && view[y] == old(view)[y] && PayloadKept(old(mem), mem, old(view)[y])
      ensures r != NULL ==> r == Obtain(old(view), old(Brk()), limit, aSize).ptr
      ensures r != NULL ==> Brk() == Obtain(old(view), old(Brk()), limit, aSize).brk
      ensures r != NULL ==> PlaceAt(view, j, aSize) == Obtain(old(view), old(Brk()), limit, aSize).view
    {
      ghost var bs := view;
      FirstFitIsFirst(bs, aSize, 0);
      r := FindFirst(aSize);
      if r != NULL {
        j := FirstFit(bs, aSize).value;
        forall y | 0 <= y < |bs| && bs[y].alloc ensures PayloadKept(mem, mem, bs[y]) {
          ReadBlock(mem, heapHead, bs, y);
        }
        return;
      }
      r, j := GrowFor(aSize);
    }

    /**
     * The growing half of the search: no block fits, so extend the heap
     * by max(aSize, CHUNKSIZE) bytes; the coalesced last block is the one
     * found.
     */
    method GrowFor(aSize: nat) returns (r: nat, ghost j: nat)
      requires Valid() && FirstFit(view, aSize).None?
      requires 8 <= aSize <= MAX_REQUEST + 16 && aSize % 8 == 0
      modifies this
      ensures Valid() && heapHead == old(heapHead)
      ensures r == NULL <==> Obtain(old(view), old(Brk()), limit, aSize).ptr == NULL
      ensures r == NULL ==> mem == old(mem) && view == old(view)
      ensures r != NULL ==> j < |view| && view[j].addr == r && !view[j].alloc && aSize <= view[j].size
      ensures r != NULL ==> forall y :: 0 <= y < |old(view)| && old(view)[y].alloc ==>
        y < |view| && view[y] == old(view)[y] && PayloadKept(old(mem), mem, old(view)[y])
      ensures r != NULL ==> r == Obtain(old(view), old(Brk()), limit, aSize).ptr
      ensures r != NULL ==> Brk() == Obtain(old(view), old(Brk()), limit, aSize).brk
      ensures r != NULL ==> PlaceAt(view, j, aSize) == Obtain(old(view), old(Brk()), limit, aSize).view
    {
      ghost var m0, bs, brk := mem, view, Brk();
      j := 0;
      var extendSize := Max(aSize, E_SIZE);
      r := ExtendHeap(extendSize / W_SIZE);
      if r == NULL {
        return;
      }
      ghost var n := GrowBytes(aSize);
      GrowBlock(bs, brk, n);
      forall y | 0 <= y < |bs| && bs[y].alloc
        ensures y < |view| && view[y] == bs[y] && PayloadKept(m0, mem, bs[y])
      {
        GrowKeeps(bs, brk, n, y);
        ExtendKeeps(m0, heapHead, bs, n, y);
      }
      j := GrowIndex(bs, brk, n);
    }

    /**
     * Search then grow, then place, for adjusted size aSize: the body of
     * mm_malloc after the size is adjusted, and the first half of
     * mm_realloc's moving path. The allocated blocks i and x keep their
     * payloads and end up at indices k and kx; the placed block is at
     * index j.
     */
    method ObtainPlaced(aSize: nat, ghost i: nat, ghost x: nat) returns (r: nat, ghost j: nat, ghost k: nat, ghost kx: nat)
      requires Valid() && i < |view| && view[i].alloc && x < |view| && view[x].alloc
      requires 8 <= aSize <= MAX_REQUEST + 16 && aSize % 8 == 0
      modifies this
      ensures Valid() && heapHead == old(heapHead)
      ensures view == Obtain(old(view), old(Brk()), limit, aSize).view
      ensures Brk() == Obtain(old(view), old(Brk()), limit, aSize).brk
      ensures r == Obtain(old(view), old(Brk()), limit, aSize).ptr
      ensures r == NULL ==> mem == old(mem) && view == old(view)
      ensures r != NULL ==> j < |view| && k < |view| && j != k && i <= k && view[k] == old(view)[i]
      ensures r != NULL ==> view[j].addr == r && view[j].alloc && aSize <= view[j].size
      ensures r != NULL ==> PayloadKept(old(mem), mem, old(view)[i])
      ensures r != NULL ==> kx != j && (i != x ==> kx != k)
      ensures kx < |view| && view[kx] == old(view)[x] && PayloadKept(old(mem), mem, old(view)[x])
    {
      ghost var m0, bs := mem, view;
      r, j := FindOrGrow(aSize);
      if r == NULL {
        k, kx := i, x;
        ReadBlock(mem, heapHead, bs, x);
        return;
      }
      assert view[i] == bs[i] && view[x] == bs[x];
      k, kx := PlaceFound(r, aSize, j, i, x);
    }

    /**
     * place on the free block j that the search found, keeping the
     * allocated blocks i and x and their payloads, now at indices k and kx.
     */
    method PlaceFound(bp: nat, aSize: nat, ghost j: nat, ghost i: nat, ghost x: nat) returns (ghost k: nat, ghost kx: nat)
      requires Valid() && j < |view| && view[j].addr == bp && !view[j].alloc
      requires 8 <= aSize <= view[j].size && aSize % 8 == 0
      requires i < |view| && view[i].alloc && x < |view| && view[x].alloc
      modifies this
      ensures Valid() && heapHead == old(heapHead) && Brk() == old(Brk())
      ensures view == PlaceAt(old(view), j, aSize)
      ensures j < |view| && k < |view| && j != k && i <= k && view[k] == old(view)[i]
      ensures view[j].addr == bp && view[j].alloc && aSize <= view[j].size
      ensures PayloadKept(old(mem), mem, old(view)[i])
      ensures kx != j && (i != x ==> kx != k)
      ensures kx < |view| && view[kx] == old(view)[x] && PayloadKept(old(mem), mem, old(view)[x])
    {
      ghost var m1, v1 := mem, view;
      PlaceElsewhere(m1, heapHead, v1, j, aSize, i);
      PlaceElsewhere(m1, heapHead, v1, j, aSize, x);
      PlaceBlock(bp, aSize, j);
      k := Moved(v1, j, aSize, i);
      kx := Moved(v1, j, aSize, x);
    }

    /**
     * mm_realloc's moving path: find or make a block for aSize bytes, place
     * it, copy the payload of block i there and free block i. When neither
     * a fit nor growth is possible, return NULL with nothing changed.
     */
    method Relocate(ptr: nat, aSize: nat, blockSize: nat, ghost i: nat, ghost x: nat) returns (r: nat, ghost kx: nat)
      requires Valid() && 1 <= i < |view| && view[i].addr == ptr && view[i].alloc && blockSize == view[i].size
      requires x < |view| && x != i && view[x].alloc
      requires blockSize < aSize <= MAX_REQUEST + 16 && aSize % 8 == 0
      modifies this
      ensures Valid() && heapHead == old(heapHead)
      ensures r == Obtain(old(view), old(Brk()), limit, aSize).ptr
      ensures Brk() == Obtain(old(view), old(Brk()), limit, aSize).brk
      ensures r == NULL ==> mem == old(mem) && view == old(view)
      ensures r != NULL ==> view == FreeAddr(Obtain(old(view), old(Brk()), limit, aSize).view, ptr)
      ensures r != NULL ==> Copied(old(mem), mem, WordAt(ptr), WordAt(r), (blockSize - D_SIZE) / W_SIZE)
      ensures r != NULL ==> r != ptr && AllocatedAt(view, r, aSize) && ReleasedAt(view, ptr)
      ensures kx < |view| && view[kx] == old(view)[x] && PayloadKept(old(mem), mem, old(view)[x])
    {
      ghost var m0, bs := mem, view;
      ghost var o := Obtain(bs, Brk(), limit, aSize);
      assert o.ptr != NULL ==>
        o.ptr != ptr && AllocatedAt(FreeAddr(o.view, ptr), o.ptr, aSize) && ReleasedAt(FreeAddr(o.view, ptr), ptr) by {
        RelocateGives(bs, heapHead, Brk(), limit, i, aSize);
      }
      ghost var j, k, k1;
      r, j, k, k1 := ObtainPlaced(aSize, i, x);
      if r == NULL {
        kx := k1;
        return;
      }
      kx := MoveFrom(r, ptr, blockSize, j, k, k1, m0);
    }

    /**
     * The copy and free of mm_realloc's moving path, after the search: the
     * payload block k had in m0, the memory before the search, reaches
     * block j, block k is freed, and block x keeps the payload it had in m0.
     */
    method MoveFrom(dst: nat, src: nat, blockSize: nat, ghost j: nat, ghost k: nat, ghost x: nat, ghost m0: seq<Word>)
      returns (ghost kx: nat)
      requires Valid() && 1 <= k < |view| && j < |view| && j != k
      requires x < |view| && x != j && x != k && view[x].alloc
      requires view[k].addr == src && view[k].size == blockSize && view[j].addr == dst && blockSize <= view[j].size
      requires PayloadKept(m0, mem, view[k]) && PayloadKept(m0, mem, view[x])
      modifies this
      ensures Valid() && heapHead == old(heapHead) && Brk() == old(Brk())
      ensures view == FreeAddr(old(view), src)
      ensures Copied(m0, mem, WordAt(src), WordAt(dst), (blockSize - D_SIZE) / W_SIZE)
      ensures kx < |view| && view[kx] == old(view)[x] && PayloadKept(m0, mem, old(view)[x])
    {
      ghost var m1, v1 := mem, view;
      ReadBlock(mem, heapHead, v1, k);
      PayloadSpan(v1[k]);
      IndexOfUnique(v1, heapHead, Brk(), k);
      kx := MoveAndFree(dst, src, blockSize - D_SIZE, j, k, x);
      CopiedFrom(m0, m1, m1, mem, v1[k], WordAt(dst), (blockSize - D_SIZE) / W_SIZE);
    }

    /**
     * mm_realloc(ptr, size) with ptr NULL or the address of allocated block
     * i: malloc for NULL, free for size 0, and otherwise Resize. The effect
     * on the view is ReallocOutcome; a failure changes nothing, and the
     * first min(adjusted size, old block size) - 8 payload bytes reach the
     * returned block.
     */
    method Realloc(ptr: nat, size: nat, ghost i: nat, ghost x: nat) returns (r: nat, ghost k: nat)
      requires Valid() && size <= MAX_REQUEST
      requires ptr != NULL ==> 1 <= i < |view| && view[i].addr == ptr && view[i].alloc
      requires x < |view| && view[x].alloc && (ptr != NULL ==> x != i)
      modifies this
      ensures Valid() && heapHead == old(heapHead)
      ensures view == ReallocOutcome(old(view), old(Brk()), limit, ptr, i, size).view
      ensures Brk() == ReallocOutcome(old(view), old(Brk()), limit, ptr, i, size).brk
      ensures r == ReallocOutcome(old(view), old(Brk()), limit, ptr, i, size).ptr
      ensures r == NULL && (ptr == NULL || size > 0) ==> mem == old(mem)
      ensures ptr != NULL && size > 0 && r != NULL ==>
        Copied(old(mem), mem, WordAt(ptr), WordAt(r), (Min(AdjustedSize(size), old(view)[i].size) - D_SIZE) / W_SIZE)
      ensures r != NULL ==> AllocatedAt(view, r, size + 8)
      ensures ptr != NULL && r != NULL && r != ptr ==> ReleasedAt(view, ptr)
      ensures k < |view| && view[k] == old(view)[x] && PayloadKept(old(mem), mem, old(view)[x])
    {
      ghost var m0, bs, brk := mem, view, Brk();
      ghost var o := ReallocOutcome(bs, brk, limit, ptr, i, size);
      assert (o.ptr != NULL ==> AllocatedAt(o.view, o.ptr, size + 8))
        && (ptr != NULL && o.ptr != NULL && o.ptr != ptr ==> ReleasedAt(o.view, ptr)) by {
        ReallocGives(bs, heapHead, brk, limit, ptr, i, size);
      }
      if ptr == NULL {
        r, k := Malloc(size, x);
        return;
      }
      if size == 0 {
        FreeKeeps(m0, heapHead, bs, i, x);
        Free(ptr, i);
        return NULL, Freed(bs, i, x);
      }
      var aSize := AdjustedSize(size);
      r, k := Resize(ptr, aSize, i, x);
    }

    /**
     * mm_realloc on allocated block i at ptr for adjusted size aSize:
     * nothing when the size is unchanged, place to shrink, absorb a free
     * successor that makes enough room, and otherwise move.
     */
    method Resize(ptr: nat, aSize: nat, ghost i: nat, ghost x: nat) returns (r: nat, ghost k: nat)
      requires Valid() && 1 <= i < |view| && view[i].addr == ptr && view[i].alloc
      requires x < |view| && x != i && view[x].alloc
      requires 16 <= aSize <= MAX_REQUEST + 16 && aSize % 8 == 0
      modifies this
      ensures Valid() && heapHead == old(heapHead)
      ensures view == ResizeOutcome(old(view), old(Brk()), limit, i, aSize).view
      ensures Brk() == ResizeOutcome(old(view), old(Brk()), limit, i, aSize).brk
      ensures r == ResizeOutcome(old(view), old(Brk()), limit, i, aSize).ptr
      ensures r == NULL ==> mem == old(mem)
      ensures r != NULL ==> Copied(old(mem), mem, WordAt(ptr), WordAt(r), (Min(aSize, old(view)[i].size) - D_SIZE) / W_SIZE)
      ensures r != NULL ==> AllocatedAt(view, r, aSize)
      ensures r != NULL && r != ptr ==> ReleasedAt(view, ptr)
      ensures k < |view| && view[k] == old(view)[x] && PayloadKept(old(mem), mem, old(view)[x])
    {
      ghost var bs := view;
      ghost var o := ResizeOutcome(bs, Brk(), limit, i, aSize);
      assert (o.ptr != NULL ==> AllocatedAt(o.view, o.ptr, aSize))
        && (o.ptr != NULL && o.ptr != ptr ==> ReleasedAt(o.view, ptr)) by {
        ResizeGives(bs, heapHead, Brk(), limit, i, aSize);
      }
      ReadBlock(mem, heapHead, bs, i);
      var blockSize := SizeAt(mem, ptr);
      if aSize == blockSize {
        ReadBlock(mem, heapHead, bs, x);
        PayloadSpan(bs[i]);
        return ptr, x;
      }
      if aSize < blockSize {
        k := Shrink(ptr, aSize, i, x);
        return ptr, k;
      }
      r, k := Enlarge(ptr, aSize, blockSize, i, x);
    }

    /** The shrinking path of mm_realloc: place block i for the smaller adjusted size aSize. */
    method Shrink(ptr: nat, aSize: nat, ghost i: nat, ghost x: nat) returns (ghost k: nat)
      requires Valid() && 1 <= i < |view| && view[i].addr == ptr && view[i].alloc
      requires x < |view| && x != i && view[x].alloc
      requires 16 <= aSize < view[i].size && aSize % 8 == 0
      modifies this
      ensures Valid() && heapHead == old(heapHead) && Brk() == old(Brk())
      ensures view == PlaceAt(old(view), i, aSize)
      ensures Copied(old(mem), mem, WordAt(ptr), WordAt(ptr), (aSize - D_SIZE) / W_SIZE)
      ensures k < |view| && view[k] == old(view)[x] && PayloadKept(old(mem), mem, old(view)[x])
    {
      ghost var m0, bs := mem, view;
      PlaceElsewhere(m0, heapHead, bs, i, aSize, x);
      PlaceBlock(ptr, aSize, i);
      PlacedFrame(m0, bs[i], aSize);
      PayloadSpan(Block(ptr, aSize, true));
      k := Moved(bs, i, aSize, x);
    }

    /**
     * The growing part of mm_realloc: absorb the successor when it is free
     * and the pair is large enough, and otherwise move the block.
     */
    method Enlarge(ptr: nat, aSize: nat, blockSize: nat, ghost i: nat, ghost x: nat) returns (r: nat, ghost k: nat)
      requires Valid() && 1 <= i < |view| && view[i].addr == ptr && view[i].alloc
      requires x < |view| && x != i && view[x].alloc
      requires blockSize == view[i].size && blockSize < aSize <= MAX_REQUEST + 16 && aSize % 8 == 0
      modifies this
      ensures Valid() && heapHead == old(heapHead)
      ensures view == EnlargeOutcome(old(view), old(Brk()), limit, i, aSize).view
      ensures Brk() == EnlargeOutcome(old(view), old(Brk()), limit, i, aSize).brk
      ensures r == EnlargeOutcome(old(view), old(Brk()), limit, i, aSize).ptr
      ensures r == NULL ==> mem == old(mem)
      ensures r != NULL ==> Copied(old(mem), mem, WordAt(ptr), WordAt(r), (blockSize - D_SIZE) / W_SIZE)
      ensures r != NULL ==> AllocatedAt(view, r, aSize)
      ensures r != NULL && r != ptr ==> ReleasedAt(view, ptr)
      ensures k < |view| && view[k] == old(view)[x] && PayloadKept(old(mem), mem, old(view)[x])
    {
      ghost var bs := view;
      ghost var o := EnlargeOutcome(bs, Brk(), limit, i, aSize);
      assert (o.ptr != NULL ==> AllocatedAt(o.view, o.ptr, aSize))
        && (o.ptr != NULL && o.ptr != ptr ==> ReleasedAt(o.view, ptr)) by {
        EnlargeGives(bs, heapHead, Brk(), limit, i, aSize);
      }
      ReadBlock(mem, heapHead, bs, i);
      ReadNext(mem, heapHead, bs, i);
      var next := NextPlace(mem, ptr);
      var sizeSum := SizeAt(mem, next) + blockSize;
      if AllocAt(mem, next) == 0 && sizeSum >= aSize {
        k := GrowInPlace(ptr, aSize, sizeSum, i, x);
        return ptr, k;
      }
      r, k := Relocate(ptr, aSize, blockSize, i, x);
    }
  }
}
