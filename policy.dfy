/**
 * The allocator's policy on the abstract block view: first fit, splitting
 * on placement, coalescing with free neighbours, growth at the end of the
 * region, and the effect of mm_malloc and mm_realloc as functions of the
 * view. The class in module Allocator is proved to change its memory
 * exactly as these functions say; the lemmas here say what they mean.
 */
module Policy {
  import opened Tags
  import opened Layout

  /** The null pointer. No block has address 0: the prologue alone starts at 8 or above. */
  const NULL: nat := 0

  datatype Option<T> = None | Some(value: T)

  /** What a public operation leaves behind: the block view, the break and the returned pointer. */
  datatype Outcome = Outcome(view: seq<Block>, brk: nat, ptr: nat)

  /** True when no two address-adjacent blocks are both free. */
  ghost predicate NoAdjacentFree(bs: seq<Block>)
  {
    forall j, k :: 0 <= j && k == j + 1 && k < |bs| ==> bs[j].alloc || bs[k].alloc
  }

  /** Some allocated block past the prologue starts at address p and is at least n bytes long. */
  ghost predicate AllocatedAt(bs: seq<Block>, p: nat, n: nat)
  {
    exists k :: 1 <= k < |bs| && bs[k].addr == p && bs[k].alloc && n <= bs[k].size
  }

  /** No allocated block starts at address p. */
  ghost predicate ReleasedAt(bs: seq<Block>, p: nat)
  {
    forall z :: 0 <= z < |bs| && bs[z].addr == p ==> !bs[z].alloc
  }

  // ---------------------------------------------------------------------
  // First fit

  /** find_first accepts a block that is free and at least a bytes long. */
  predicate Fits(b: Block, a: nat)
  {
    !b.alloc && a <= b.size
  }

  /** Index of the first block at or after k that fits, scanning in address order. */
  function FirstFitFrom(bs: seq<Block>, a: nat, k: nat): (r: Option<nat>)
    requires k <= |bs|
    ensures r.Some? ==> k <= r.value < |bs|
    decreases |bs| - k
  {
    if k == |bs| then None
    else if Fits(bs[k], a) then Some(k)
    else FirstFitFrom(bs, a, k + 1)
  }

  function FirstFit(bs: seq<Block>, a: nat): (r: Option<nat>)
    ensures r.Some? ==> r.value < |bs|
  {
    FirstFitFrom(bs, a, 0)
  }

  /** First fit finds the lowest fitting index, and reports none exactly when no block fits. */
  lemma {:induction false} FirstFitIsFirst(bs: seq<Block>, a: nat, k: nat)
    requires k <= |bs|
    ensures FirstFitFrom(bs, a, k).None? <==> forall j :: k <= j < |bs| ==> !Fits(bs[j], a)
    ensures FirstFitFrom(bs, a, k).Some? ==>
      var i := FirstFitFrom(bs, a, k).value;
      k <= i < |bs| && Fits(bs[i], a) && forall j :: k <= j < i ==> !Fits(bs[j], a)
    decreases |bs| - k
  {
    if k < |bs| && !Fits(bs[k], a) {
      FirstFitIsFirst(bs, a, k + 1);
    }
  }

  // ---------------------------------------------------------------------
  // Placement

  /** The blocks place makes of a block of s bytes at addr for adjusted size a. */
  function Split(addr: nat, s: nat, a: nat): seq<Block>
    requires a <= s
  {
    if s - a >= 8 then [Block(addr, a, true), Block(addr + a, s - a, false)]
    else [Block(addr, s, true)]
  }

  /** The view after place on block i. */
  function PlaceAt(bs: seq<Block>, i: nat, a: nat): seq<Block>
    requires i < |bs| && a <= bs[i].size
  {
    bs[..i] + Split(bs[i].addr, bs[i].size, a) + bs[i + 1..]
  }

  /** Lists that tile adjacent regions tile their union. */
  lemma {:induction false} ContiguousAppend(xs: seq<Block>, ys: seq<Block>, a: nat, c: nat, b: nat)
    requires Contiguous(xs, a, c) && Contiguous(ys, c, b)
    ensures Contiguous(xs + ys, a, b)
    decreases |xs|
  {
    if |xs| == 0 {
      assert xs + ys == ys;
    } else {
      ContiguousAppend(xs[1..], ys, a + xs[0].size, c, b);
      assert (xs + ys)[1..] == xs[1..] + ys;
    }
  }

  /** A tiling list cut at block k tiles the two sides of StartOf(bs, k, b). */
  lemma {:induction false} ContiguousCut(bs: seq<Block>, a: nat, b: nat, k: nat)
    requires Contiguous(bs, a, b) && k <= |bs|
    ensures Contiguous(bs[..k], a, StartOf(bs, k, b))
    ensures Contiguous(bs[k..], StartOf(bs, k, b), b)
    decreases k
  {
    if k > 0 {
      ContiguousCut(bs[1..], a + bs[0].size, b, k - 1);
      assert bs[1..][..k - 1] == bs[..k][1..];
      assert bs[1..][k - 1..] == bs[k..];
      assert StartOf(bs[1..], k - 1, b) == StartOf(bs, k, b);
    }
  }

  /** Replacing blocks lo .. hi - 1 by a list tiling the same bytes keeps the whole list tiling. */
  lemma Replace(bs: seq<Block>, a: nat, b: nat, lo: nat, hi: nat, xs: seq<Block>)
    requires Contiguous(bs, a, b) && lo <= hi <= |bs|
    requires Contiguous(xs, StartOf(bs, lo, b), StartOf(bs, hi, b))
    ensures Contiguous(bs[..lo] + xs + bs[hi..], a, b)
  {
    ContiguousCut(bs, a, b, lo);
    ContiguousCut(bs, a, b, hi);
    ContiguousAppend(bs[..lo], xs, a, StartOf(bs, lo, b), StartOf(bs, hi, b));
    ContiguousAppend(bs[..lo] + xs, bs[hi..], a, StartOf(bs, hi, b), b);
  }

  /**
   * Splitting covers exactly the original block with its allocated part
   * first. It splits exactly when at least 8 bytes remain; since both sizes
   * are multiples of 8, the allocated part is then exactly a bytes, and
   * without a split the block was already exactly a bytes.
   */
  lemma SplitTiles(addr: nat, s: nat, a: nat)
    requires s >= 8 && s % 8 == 0 && a >= 8 && a % 8 == 0 && a <= s
    ensures Contiguous(Split(addr, s, a), addr, addr + s)
    ensures |Split(addr, s, a)| == 2 <==> s - a >= 8
    ensures Split(addr, s, a)[0] == Block(addr, a, true)
    ensures |Split(addr, s, a)| == 2 ==> Split(addr, s, a)[1] == Block(addr + a, s - a, false)
    ensures |Split(addr, s, a)| == 1 ==> s == a
  {
    var r := Split(addr, s, a);
    if s - a >= 8 {
      assert r[1..][1..] == [];
    }
    assert r[1..] == if s - a >= 8 then [Block(addr + a, s - a, false)] else [];
  }

  /**
   * place keeps the list tiling the region; block i becomes allocated with
   * exactly a bytes, and any remainder becomes the free block right after it.
   */
  lemma PlaceTiles(bs: seq<Block>, x: nat, y: nat, i: nat, a: nat)
    requires Contiguous(bs, x, y) && i < |bs| && a >= 8 && a % 8 == 0 && a <= bs[i].size
    ensures Contiguous(PlaceAt(bs, i, a), x, y)
    ensures PlaceAt(bs, i, a)[i].addr == bs[i].addr && PlaceAt(bs, i, a)[i].alloc
    ensures PlaceAt(bs, i, a)[i].size == a
    ensures a < bs[i].size ==> i + 1 < |PlaceAt(bs, i, a)| && PlaceAt(bs, i, a)[i + 1] == Block(bs[i].addr + a, bs[i].size - a, false)
  {
    StepAt(bs, x, y, i);
    SplitTiles(bs[i].addr, bs[i].size, a);
    Replace(bs, x, y, i, i + 1, Split(bs[i].addr, bs[i].size, a));
  }

  /** place on a free block between allocated neighbours leaves no two free blocks adjacent. */
  lemma PlaceKeepsNoAdjacentFree(bs: seq<Block>, i: nat, a: nat)
    requires i < |bs| && a <= bs[i].size && !bs[i].alloc && NoAdjacentFree(bs)
    ensures NoAdjacentFree(PlaceAt(bs, i, a))
  {
    var r := PlaceAt(bs, i, a);
    var sp := Split(bs[i].addr, bs[i].size, a);
    forall j, k | 0 <= j && k == j + 1 && k < |r|
      ensures r[j].alloc || r[k].alloc
    {
      if k < i {
        assert r[j] == bs[j] && r[k] == bs[k];
      } else if j >= i + |sp| {
        assert r[j] == bs[j - |sp| + 1] && r[k] == bs[k - |sp| + 1];
      } else if j < i {
        assert r[k] == sp[0];
      } else if k < i + |sp| {
        assert r[j] == sp[0];
      } else {
        assert r[j] == sp[|sp| - 1] && r[k] == bs[i + 1];
        if |sp| == 2 {
          assert bs[i].alloc || bs[i + 1].alloc;
        }
      }
    }
  }

  // ---------------------------------------------------------------------
  // Coalescing

  /** Index of the first block coalesce absorbs: the predecessor when it is free. */
  function MergeLo(bs: seq<Block>, i: nat): nat
    requires 1 <= i < |bs|
  {
    if bs[i - 1].alloc then i else i - 1
  }

  /** One past the last block coalesce absorbs: after the successor when it is free. */
  function MergeHi(bs: seq<Block>, i: nat): nat
    requires 1 <= i < |bs|
  {
    if i + 1 < |bs| && !bs[i + 1].alloc then i + 2 else i + 1
  }

  /** The free block coalesce leaves in place of blocks MergeLo .. MergeHi - 1. */
  function Merged(bs: seq<Block>, i: nat): Block
    requires 1 <= i < |bs|
  {
    var before := if bs[i - 1].alloc then 0 else bs[i - 1].size;
    var after := if MergeHi(bs, i) == i + 2 then bs[i + 1].size else 0;
    Block(bs[MergeLo(bs, i)].addr, before + bs[i].size + after, false)
  }

  /** The view after coalesce on block i. */
  function Merge(bs: seq<Block>, i: nat): seq<Block>
    requires 1 <= i < |bs|
  {
    bs[..MergeLo(bs, i)] + [Merged(bs, i)] + bs[MergeHi(bs, i)..]
  }
  /** The four cases of coalesce on a free block i, by the flags of its neighbours. */
  lemma MergedCases(bs: seq<Block>, i: nat)
    requires 1 <= i < |bs| && !bs[i].alloc
    ensures bs[i - 1].alloc && !NextFree(bs, i) ==> Merged(bs, i) == bs[i]
    ensures bs[i - 1].alloc && NextFree(bs, i) ==>
      Merged(bs, i) == Block(bs[i].addr, bs[i].size + bs[i + 1].size, false)
    ensures !bs[i - 1].alloc && !NextFree(bs, i) ==>
      Merged(bs, i) == Block(bs[i - 1].addr, bs[i - 1].size + bs[i].size, false)
    ensures !bs[i - 1].alloc && NextFree(bs, i) ==>
      Merged(bs, i) == Block(bs[i - 1].addr, bs[i - 1].size + bs[i].size + bs[i + 1].size, false)
  {
  }


  /** The merged block ends where the first block after the absorbed ones starts. */
  lemma MergedEnds(bs: seq<Block>, x: nat, y: nat, i: nat)
    requires Contiguous(bs, x, y) && 1 <= i < |bs|
    ensures Merged(bs, i).addr + Merged(bs, i).size == StartOf(bs, MergeHi(bs, i), y)
    ensures Merged(bs, i).addr == StartOf(bs, MergeLo(bs, i), y)
  {
    StepAt(bs, x, y, i - 1);
    StepAt(bs, x, y, i);
    if MergeHi(bs, i) == i + 2 {
      StepAt(bs, x, y, i + 1);
    }
  }

  /** A single block tiles exactly its own bytes. */
  lemma Single(blk: Block, x: nat, y: nat)
    requires blk.addr == x && blk.size >= 8 && blk.size % 8 == 0 && x + blk.size == y
    ensures Contiguous([blk], x, y)
  {
    assert [blk][1..] == [];
  }

  /** A sum of multiples of 8 is a multiple of 8. */
  lemma SumOfMultiples(p: nat, q: nat, r: nat)
    requires p % 8 == 0 && q % 8 == 0 && r % 8 == 0
    ensures (p + q + r) % 8 == 0
  {
  }

  /** The merged block's size is a positive multiple of 8. */
  lemma MergedSize(bs: seq<Block>, x: nat, y: nat, i: nat)
    requires Contiguous(bs, x, y) && 1 <= i < |bs|
    ensures Merged(bs, i).size >= 8 && Merged(bs, i).size % 8 == 0
  {
    StepAt(bs, x, y, i);
    StepAt(bs, x, y, i - 1);
    var before := if bs[i - 1].alloc then 0 else bs[i - 1].size;
    var after := if MergeHi(bs, i) == i + 2 then bs[i + 1].size else 0;
    if MergeHi(bs, i) == i + 2 {
      StepAt(bs, x, y, i + 1);
    }
    SumOfMultiples(before, bs[i].size, after);
  }

  /** The merged block covers exactly the bytes of the blocks it replaces. */
  lemma MergeTiles(bs: seq<Block>, x: nat, y: nat, i: nat)
    requires Contiguous(bs, x, y) && 1 <= i < |bs|
    ensures Contiguous(Merge(bs, i), x, y)
  {
    var lo, hi := MergeLo(bs, i), MergeHi(bs, i);
    MergedEnds(bs, x, y, i);
    MergedSize(bs, x, y, i);
    Single(Merged(bs, i), StartOf(bs, lo, y), StartOf(bs, hi, y));
    Replace(bs, x, y, lo, hi, [Merged(bs, i)]);
  }

  /** With both neighbours allocated, coalescing a free block changes nothing. */
  lemma MergeAllocatedNeighbours(bs: seq<Block>, i: nat)
    requires 1 <= i < |bs| && !bs[i].alloc && bs[i - 1].alloc
    requires i + 1 < |bs| ==> bs[i + 1].alloc
    ensures Merge(bs, i) == bs
  {
    assert bs[..i] + [bs[i]] + bs[i + 1..] == bs;
  }

  /**
   * If the list had no adjacent free blocks apart from ones involving block
   * i, coalescing block i leaves none at all.
   */
  lemma MergeKeepsNoAdjacentFree(bs: seq<Block>, i: nat)
    requires 1 <= i < |bs| && NoAdjacentFree(bs[i := bs[i].(alloc := true)])
    ensures NoAdjacentFree(Merge(bs, i))
  {
    var bs' := bs[i := bs[i].(alloc := true)];
    var lo, hi := MergeLo(bs, i), MergeHi(bs, i);
    var r := Merge(bs, i);
    forall j, k | 0 <= j && k == j + 1 && k < |r|
      ensures r[j].alloc || r[k].alloc
    {
      if k < lo {
        assert r[j] == bs'[j] && r[k] == bs'[k];
      } else if k == lo {
        assert r[j] == bs'[j] && r[j] == bs[lo - 1];
        var before, here := bs'[j], bs'[k];
        assert before.alloc;
      } else if j == lo {
        assert r[k] == bs[hi];
        if hi == i + 2 {
          assert bs'[hi - 1].alloc || bs'[hi].alloc;
        }
      } else {
        assert r[j] == bs'[j + hi - lo - 1] && r[k] == bs'[k + hi - lo - 1];
      }
    }
  }

  /** The view after mm_free of block i: marked free, then coalesced. */
  function FreeAt(bs: seq<Block>, i: nat): seq<Block>
    requires 1 <= i < |bs|
  {
    Merge(bs[i := bs[i].(alloc := false)], i)
  }

  /** Freeing in a list without adjacent free blocks keeps it so. */
  lemma FreeKeepsNoAdjacentFree(bs: seq<Block>, i: nat)
    requires 1 <= i < |bs| && bs[i].alloc && NoAdjacentFree(bs)
    ensures NoAdjacentFree(FreeAt(bs, i))
  {
    var f := bs[i := bs[i].(alloc := false)];
    assert f[i := f[i].(alloc := true)] == bs;
    MergeKeepsNoAdjacentFree(f, i);
  }

  /** Position of the block with address addr, if any. */
  function IndexOf(bs: seq<Block>, addr: nat): Option<nat>
    decreases |bs|
  {
    if |bs| == 0 then None
    else if bs[|bs| - 1].addr == addr then Some(|bs| - 1)
    else IndexOf(bs[..|bs| - 1], addr)
  }

  /** IndexOf finds a block carrying the address, and finds one whenever some block carries it. */
  lemma {:induction false} IndexOfFinds(bs: seq<Block>, addr: nat)
    ensures IndexOf(bs, addr).Some? ==>
      IndexOf(bs, addr).value < |bs| && bs[IndexOf(bs, addr).value].addr == addr
    ensures IndexOf(bs, addr).None? ==> forall k :: 0 <= k < |bs| ==> bs[k].addr != addr
    decreases |bs|
  {
    if |bs| > 0 && bs[|bs| - 1].addr != addr {
      IndexOfFinds(bs[..|bs| - 1], addr);
    }
  }

  /** In a contiguous list addresses are distinct, so IndexOf finds each block at its own position. */
  lemma {:induction false} IndexOfUnique(bs: seq<Block>, a: nat, b: nat, k: nat)
    requires Contiguous(bs, a, b) && k < |bs|
    ensures IndexOf(bs, bs[k].addr) == Some(k)
    decreases |bs|
  {
    if k < |bs| - 1 {
      StepAt(bs, a, b, k);
      Ordered(bs, a, b, k, |bs| - 1);
      ContiguousCut(bs, a, b, |bs| - 1);
      IndexOfUnique(bs[..|bs| - 1], a, StartOf(bs, |bs| - 1, b), k);
    }
  }

  /** mm_free by address: frees the block at addr when there is one past the prologue. */
  function FreeAddr(bs: seq<Block>, addr: nat): seq<Block>
  {
    match IndexOf(bs, addr)
    case Some(k) => if 1 <= k < |bs| then FreeAt(bs, k) else bs
    case None => bs
  }

  // ---------------------------------------------------------------------
  // Growth and the public operations

  /** The view after extend_heap appends n free bytes at the old break brk and coalesces. */
  function Grow(bs: seq<Block>, brk: nat, n: nat): seq<Block>
    requires |bs| >= 1
  {
    Merge(bs + [Block(brk, n, false)], |bs|)
  }

  /** Index of the block extend_heap returns within Grow(bs, brk, n). */
  function GrowIndex(bs: seq<Block>, brk: nat, n: nat): (j: nat)
    requires |bs| >= 1
    ensures j < |Grow(bs, brk, n)|
  {
    MergeLo(bs + [Block(brk, n, false)], |bs|)
  }

  /** The grown block is free and at least n bytes long. */
  lemma GrowBlock(bs: seq<Block>, brk: nat, n: nat)
    requires |bs| >= 1
    ensures GrowIndex(bs, brk, n) < |Grow(bs, brk, n)|
    ensures Grow(bs, brk, n)[GrowIndex(bs, brk, n)] == Merged(bs + [Block(brk, n, false)], |bs|)
    ensures !Grow(bs, brk, n)[GrowIndex(bs, brk, n)].alloc
    ensures n <= Grow(bs, brk, n)[GrowIndex(bs, brk, n)].size
  {
  }

  /**
   * Search then grow for adjusted size a: place into the first fit, or
   * extend the region by GrowBytes(a) and place into the new block, or
   * return NULL with nothing changed when the break may not move that far.
   */
  function Obtain(bs: seq<Block>, brk: nat, limit: nat, a: nat): Outcome
    requires |bs| >= 1 && a % 8 == 0
  {
    match FirstFit(bs, a)
    case Some(i) =>
      FirstFitIsFirst(bs, a, 0);
      Outcome(PlaceAt(bs, i, a), brk, bs[i].addr)
    case None =>
      var n := GrowBytes(a);
      if brk + n > limit then Outcome(bs, brk, NULL)
      else
        var g := Grow(bs, brk, n);
        var j := GrowIndex(bs, brk, n);
        GrowBlock(bs, brk, n);
        Outcome(PlaceAt(g, j, a), brk + n, g[j].addr)
  }

  /** The effect of mm_malloc(size) on the view. */
  function MallocOutcome(bs: seq<Block>, brk: nat, limit: nat, size: nat): Outcome
    requires |bs| >= 1
  {
    if size == 0 then Outcome(bs, brk, NULL)
    else Obtain(bs, brk, limit, AdjustedSize(size))
  }

  /** Size of the block after block i, the epilogue counting as 0. */
  function NextSize(bs: seq<Block>, i: nat): nat
    requires i < |bs|
  {
    if i + 1 < |bs| then bs[i + 1].size else 0
  }

  /** The block after block i is free (the epilogue counts as allocated). */
  predicate NextFree(bs: seq<Block>, i: nat)
    requires i < |bs|
  {
    i + 1 < |bs| && !bs[i + 1].alloc
  }

  /** The view before place on the grow-by-merge path: block i absorbs its free successor. */
  function Absorb(bs: seq<Block>, i: nat): seq<Block>
    requires i + 1 < |bs|
  {
    bs[..i] + [Block(bs[i].addr, bs[i].size + bs[i + 1].size, false)] + bs[i + 2..]
  }

  /** Merging block i with its successor keeps the list tiling the region. */
  lemma AbsorbTiles(bs: seq<Block>, x: nat, y: nat, i: nat)
    requires Contiguous(bs, x, y) && i + 1 < |bs|
    ensures Contiguous(Absorb(bs, i), x, y)
  {
    var ab := Absorb(bs, i);
    StepAt(bs, x, y, i);
    StepAt(bs, x, y, i + 1);
    Single(ab[i], bs[i].addr, StartOf(bs, i + 2, y));
    Replace(bs, x, y, i, i + 2, [ab[i]]);
    assert ab == bs[..i] + [ab[i]] + bs[i + 2..];
  }

  /** The effect of mm_realloc(ptr, size) on the view, where ptr is NULL or block i. */
  function ReallocOutcome(bs: seq<Block>, brk: nat, limit: nat, ptr: nat, i: nat, size: nat): Outcome
    requires |bs| >= 1
    requires ptr != NULL ==> 1 <= i < |bs| && bs[i].addr == ptr
  {
    if ptr == NULL then MallocOutcome(bs, brk, limit, size)
    else if size == 0 then Outcome(FreeAt(bs, i), brk, NULL)
    else ResizeOutcome(bs, brk, limit, i, AdjustedSize(size))
  }

  /** mm_realloc on block i for a nonzero size with adjusted size a. */
  function ResizeOutcome(bs: seq<Block>, brk: nat, limit: nat, i: nat, a: nat): Outcome
    requires 1 <= i < |bs| && a % 8 == 0
  {
    var s := bs[i].size;
    if a == s then Outcome(bs, brk, bs[i].addr)
    else if a < s then Outcome(PlaceAt(bs, i, a), brk, bs[i].addr)
    else EnlargeOutcome(bs, brk, limit, i, a)
  }

  /** mm_realloc on block i for an adjusted size a larger than the block. */
  function EnlargeOutcome(bs: seq<Block>, brk: nat, limit: nat, i: nat, a: nat): Outcome
    requires 1 <= i < |bs| && a % 8 == 0
  {
    if NextFree(bs, i) && bs[i].size + NextSize(bs, i) >= a then
      Outcome(PlaceAt(Absorb(bs, i), i, a), brk, bs[i].addr)
    else
      var o := Obtain(bs, brk, limit, a);
      if o.ptr == NULL then o
      else Outcome(FreeAddr(o.view, bs[i].addr), o.brk, o.ptr)
  }

  // ---------------------------------------------------------------------
  // What the public operations keep

  /** Where block i of bs sits after place on another block f. */
  function Moved(bs: seq<Block>, f: nat, a: nat, i: nat): (k: nat)
    requires f < |bs| && i < |bs| && i != f && a <= bs[f].size
    ensures k < |PlaceAt(bs, f, a)| && PlaceAt(bs, f, a)[k] == bs[i]
    ensures k != f && i <= k && (i < f ==> k == i)
  {
    if i < f then i else i + |Split(bs[f].addr, bs[f].size, a)| - 1
  }

  /** Growing keeps every allocated block in place, before the grown block. */
  lemma GrowKeeps(bs: seq<Block>, brk: nat, n: nat, i: nat)
    requires i < |bs| && bs[i].alloc
    ensures i < GrowIndex(bs, brk, n) < |Grow(bs, brk, n)| && Grow(bs, brk, n)[i] == bs[i]
  {
  }

  /** Growing keeps no two free blocks adjacent: the appended block is merged with a free last block. */
  lemma GrowKeepsNoAdjacentFree(bs: seq<Block>, brk: nat, n: nat)
    requires |bs| >= 1 && NoAdjacentFree(bs)
    ensures NoAdjacentFree(Grow(bs, brk, n))
  {
    var ext := bs + [Block(brk, n, false)];
    var marked := ext[|bs| := ext[|bs|].(alloc := true)];
    assert marked == bs + [Block(brk, n, true)];
    assert NoAdjacentFree(marked) by {
      forall j, k | 0 <= j && k == j + 1 && k < |marked|
        ensures marked[j].alloc || marked[k].alloc
      {
        if k < |bs| {
          assert marked[j] == bs[j] && marked[k] == bs[k];
        }
      }
    }
    MergeKeepsNoAdjacentFree(ext, |bs|);
  }

  /** Search then grow places into a free block, so it keeps no two free blocks adjacent. */
  lemma ObtainKeepsNoAdjacentFree(bs: seq<Block>, brk: nat, limit: nat, a: nat)
    requires |bs| >= 1 && a % 8 == 0 && NoAdjacentFree(bs)
    ensures NoAdjacentFree(Obtain(bs, brk, limit, a).view)
  {
    FirstFitIsFirst(bs, a, 0);
    match FirstFit(bs, a)
    case Some(i) =>
      PlaceKeepsNoAdjacentFree(bs, i, a);
    case None =>
      var n := GrowBytes(a);
      if brk + n <= limit {
        GrowBlock(bs, brk, n);
        GrowKeepsNoAdjacentFree(bs, brk, n);
        PlaceKeepsNoAdjacentFree(Grow(bs, brk, n), GrowIndex(bs, brk, n), a);
      }
  }

  /** mm_malloc keeps no two free blocks adjacent. */
  lemma MallocKeepsNoAdjacentFree(bs: seq<Block>, brk: nat, limit: nat, size: nat)
    requires |bs| >= 1 && NoAdjacentFree(bs)
    ensures NoAdjacentFree(MallocOutcome(bs, brk, limit, size).view)
  {
    if size > 0 {
      ObtainKeepsNoAdjacentFree(bs, brk, limit, AdjustedSize(size));
    }
  }

  /**
   * Search then grow fails exactly when nothing fits and the break may not
   * move by GrowBytes, and a failure changes nothing.
   */
  lemma ObtainFails(bs: seq<Block>, brk: nat, limit: nat, a: nat)
    requires |bs| >= 1 && a % 8 == 0 && brk != NULL
    requires forall k :: 0 <= k < |bs| ==> bs[k].addr != NULL
    ensures var o := Obtain(bs, brk, limit, a);
      && (o.ptr == NULL ==> o.view == bs && o.brk == brk)
      && (o.ptr == NULL <==> FirstFit(bs, a).None? && brk + GrowBytes(a) > limit)
  {
    FirstFitIsFirst(bs, a, 0);
    if FirstFit(bs, a).None? && brk + GrowBytes(a) <= limit {
      GrowBlock(bs, brk, GrowBytes(a));
    }
  }

  /**
   * A successful mm_malloc returns the address of an allocated block past
   * the prologue with room for size bytes of payload, and a failed one
   * changes nothing; it fails exactly for size 0 or when no block fits and
   * the break may not move by GrowBytes.
   */
  lemma MallocGives(bs: seq<Block>, brk: nat, limit: nat, size: nat)
    requires |bs| >= 1 && bs[0].alloc && brk != NULL
    requires forall k :: 0 <= k < |bs| ==> bs[k].addr != NULL
    ensures var o := MallocOutcome(bs, brk, limit, size);
      && (o.ptr == NULL ==> o.view == bs && o.brk == brk)
      && (o.ptr == NULL <==>
           size == 0 || (FirstFit(bs, AdjustedSize(size)).None? && brk + GrowBytes(AdjustedSize(size)) > limit))
    ensures var o := MallocOutcome(bs, brk, limit, size);
      o.ptr != NULL ==> AllocatedAt(o.view, o.ptr, size + 8)
  {
    if size > 0 {
      var a := AdjustedSize(size);
      FirstFitIsFirst(bs, a, 0);
      match FirstFit(bs, a)
      case Some(i) =>
        PlacedFirst(bs, i, a);
      case None =>
        var n := GrowBytes(a);
        if brk + n <= limit {
          GrowBlock(bs, brk, n);
          PlacedFirst(Grow(bs, brk, n), GrowIndex(bs, brk, n), a);
        }
    }
  }

  /** After place on block i, block i is allocated at the same address with at least a bytes. */
  lemma PlacedFirst(bs: seq<Block>, i: nat, a: nat)
    requires i < |bs| && a <= bs[i].size
    ensures i < |PlaceAt(bs, i, a)| && PlaceAt(bs, i, a)[i].addr == bs[i].addr
    ensures PlaceAt(bs, i, a)[i].alloc && a <= PlaceAt(bs, i, a)[i].size
  {
    assert PlaceAt(bs, i, a)[i] == Split(bs[i].addr, bs[i].size, a)[0];
  }

  /**
   * mm_realloc growing in place keeps no two free blocks adjacent: the
   * absorbed successor was free, so the block after it is allocated, and
   * the placed block itself is allocated.
   */
  lemma AbsorbKeepsNoAdjacentFree(bs: seq<Block>, i: nat, a: nat)
    requires i + 1 < |bs| && !bs[i + 1].alloc && NoAdjacentFree(bs)
    requires a <= bs[i].size + bs[i + 1].size
    ensures NoAdjacentFree(PlaceAt(Absorb(bs, i), i, a))
  {
    var ab := Absorb(bs, i);
    var r := PlaceAt(ab, i, a);
    var sp := Split(ab[i].addr, ab[i].size, a);
    assert r == bs[..i] + sp + bs[i + 2..];
    forall j, k | 0 <= j && k == j + 1 && k < |r|
      ensures r[j].alloc || r[k].alloc
    {
      if k < i {
        assert r[j] == bs[j] && r[k] == bs[k];
      } else if j >= i + |sp| {
        assert r[j] == bs[j - |sp| + 2] && r[k] == bs[k - |sp| + 2];
      } else if j < i {
        assert r[k] == sp[0];
      } else if k < i + |sp| {
        assert r[j] == sp[0];
      } else {
        assert r[k] == bs[i + 2];
        assert bs[i + 1].alloc || bs[i + 2].alloc;
      }
    }
  }

  /** Search then grow keeps every allocated block past the prologue, at an index past the prologue. */
  lemma ObtainKeepsBlock(bs: seq<Block>, brk: nat, limit: nat, a: nat, i: nat)
    requires |bs| >= 1 && a % 8 == 0 && 1 <= i < |bs| && bs[i].alloc
    ensures var o := Obtain(bs, brk, limit, a);
      o.ptr != NULL ==> exists k :: 1 <= k < |o.view| && o.view[k] == bs[i]
  {
    FirstFitIsFirst(bs, a, 0);
    match FirstFit(bs, a)
    case Some(f) =>
      var k := Moved(bs, f, a, i);
    case None =>
      var n := GrowBytes(a);
      if brk + n <= limit {
        GrowBlock(bs, brk, n);
        GrowKeeps(bs, brk, n, i);
        var k := Moved(Grow(bs, brk, n), GrowIndex(bs, brk, n), a, i);
      }
  }

  /** Search then grow keeps the list tiling the region, up to the new break. */
  lemma ObtainTiles(bs: seq<Block>, x: nat, brk: nat, limit: nat, a: nat)
    requires |bs| >= 1 && Contiguous(bs, x, brk) && a >= 8 && a % 8 == 0
    ensures Contiguous(Obtain(bs, brk, limit, a).view, x, Obtain(bs, brk, limit, a).brk)
  {
    FirstFitIsFirst(bs, a, 0);
    match FirstFit(bs, a)
    case Some(i) =>
      PlaceTiles(bs, x, brk, i, a);
    case None =>
      var n := GrowBytes(a);
      if brk + n <= limit {
        var nb := Block(brk, n, false);
        Single(nb, brk, brk + n);
        ContiguousAppend(bs, [nb], x, brk, brk + n);
        MergeTiles(bs + [nb], x, brk + n, |bs|);
        GrowBlock(bs, brk, n);
        PlaceTiles(Grow(bs, brk, n), x, brk + n, GrowIndex(bs, brk, n), a);
      }
  }

  /**
   * mm_realloc keeps no two free blocks adjacent, except on the shrinking
   * path (a smaller adjusted size than the block's), whose free remainder
   * may abut a free successor; ShrinkMayLeaveAdjacentFree shows one.
   */
  lemma ReallocKeepsNoAdjacentFree(bs: seq<Block>, x: nat, brk: nat, limit: nat, ptr: nat, i: nat, size: nat)
    requires |bs| >= 1 && Contiguous(bs, x, brk) && NoAdjacentFree(bs)
    requires ptr != NULL ==> 1 <= i < |bs| && bs[i].addr == ptr && bs[i].alloc
    requires ptr != NULL && size > 0 ==> AdjustedSize(size) >= bs[i].size
    ensures NoAdjacentFree(ReallocOutcome(bs, brk, limit, ptr, i, size).view)
  {
    if ptr == NULL {
      MallocKeepsNoAdjacentFree(bs, brk, limit, size);
    } else if size == 0 {
      FreeKeepsNoAdjacentFree(bs, i);
    } else {
      var a := AdjustedSize(size);
      if a > bs[i].size {
        if NextFree(bs, i) && bs[i].size + NextSize(bs, i) >= a {
          AbsorbKeepsNoAdjacentFree(bs, i, a);
        } else {
          ObtainKeepsNoAdjacentFree(bs, brk, limit, a);
          RelocateKeepsNoAdjacentFree(bs, x, brk, limit, a, i);
        }
      }
    }
  }

  /** Moving block i elsewhere and freeing it keeps no two free blocks adjacent. */
  lemma RelocateKeepsNoAdjacentFree(bs: seq<Block>, x: nat, brk: nat, limit: nat, a: nat, i: nat)
    requires |bs| >= 1 && Contiguous(bs, x, brk) && NoAdjacentFree(bs)
    requires a >= 8 && a % 8 == 0 && 1 <= i < |bs| && bs[i].alloc
    ensures var o := Obtain(bs, brk, limit, a);
      o.ptr != NULL ==> NoAdjacentFree(FreeAddr(o.view, bs[i].addr))
  {
    var o := Obtain(bs, brk, limit, a);
    if o.ptr != NULL {
      ObtainKeepsNoAdjacentFree(bs, brk, limit, a);
      ObtainTiles(bs, x, brk, limit, a);
      ObtainKeepsBlock(bs, brk, limit, a, i);
      var k :| 1 <= k < |o.view| && o.view[k] == bs[i];
      IndexOfUnique(o.view, x, o.brk, k);
      FreeKeepsNoAdjacentFree(o.view, k);
    }
  }

  /** Shrinking a block whose successor is free leaves two free blocks side by side. */
  lemma ShrinkMayLeaveAdjacentFree()
    ensures var bs := [Block(8, 8, true), Block(16, 32, true), Block(48, 16, false)];
      && NoAdjacentFree(bs) && Contiguous(bs, 8, 64)
      && !NoAdjacentFree(ReallocOutcome(bs, 64, 64, 16, 1, 8).view)
  {
    var bs := [Block(8, 8, true), Block(16, 32, true), Block(48, 16, false)];
    assert bs[1..][1..][1..] == [];
    var r := ReallocOutcome(bs, 64, 64, 16, 1, 8).view;
    assert r == [Block(8, 8, true), Block(16, 16, true), Block(32, 16, false), Block(48, 16, false)];
    assert !r[2].alloc && !r[3].alloc;
  }
  // ---------------------------------------------------------------------
  // What mm_realloc returns

  /** Where an allocated block x other than block i sits after mm_free of block i. */
  function Freed(bs: seq<Block>, i: nat, x: nat): (k: nat)
    requires 1 <= i < |bs| && x < |bs| && x != i && bs[x].alloc
    ensures k < |FreeAt(bs, i)| && FreeAt(bs, i)[k] == bs[x]
    ensures x >= 1 ==> k >= 1
  {
    var f := bs[i := bs[i].(alloc := false)];
    if x < MergeLo(f, i) then x else MergeLo(f, i) + 1 + (x - MergeHi(f, i))
  }

  /** After mm_free of block i no allocated block starts at its address. */
  lemma FreedIsFree(bs: seq<Block>, x: nat, y: nat, i: nat)
    requires Contiguous(bs, x, y) && 1 <= i < |bs|
    ensures forall z :: 0 <= z < |FreeAt(bs, i)| && FreeAt(bs, i)[z].addr == bs[i].addr ==> !FreeAt(bs, i)[z].alloc
  {
    var f := bs[i := bs[i].(alloc := false)];
    var lo, hi := MergeLo(f, i), MergeHi(f, i);
    var r := FreeAt(bs, i);
    forall z | 0 <= z < |r| ensures r[z].addr == bs[i].addr ==> !r[z].alloc {
      if z < lo {
        assert r[z] == bs[z];
        StepAt(bs, x, y, z);
        Ordered(bs, x, y, z, i);
      } else if z > lo {
        var w := z - lo - 1 + hi;
        assert r[z] == bs[w];
        StepAt(bs, x, y, i);
        Ordered(bs, x, y, i, w);
      }
    }
  }

  /** A contiguous list starting past NULL has no block at NULL, and its end is past NULL. */
  lemma PastNull(bs: seq<Block>, x: nat, y: nat)
    requires Contiguous(bs, x, y) && x != NULL
    ensures y != NULL && forall k :: 0 <= k < |bs| ==> bs[k].addr != NULL
  {
    Aligned(bs, x, y, |bs|);
    forall k | 0 <= k < |bs| ensures bs[k].addr != NULL {
      Aligned(bs, x, y, k);
    }
  }

  /**
   * A successful search then grow places an allocated block j at the
   * returned address, with room for a bytes, and keeps the allocated block
   * i as another block k; j is past the prologue.
   */
  lemma ObtainPlaces(bs: seq<Block>, brk: nat, limit: nat, a: nat, i: nat) returns (j: nat, k: nat)
    requires |bs| >= 1 && bs[0].alloc && a % 8 == 0 && i < |bs| && bs[i].alloc
    ensures var o := Obtain(bs, brk, limit, a);
      o.ptr != NULL ==>
        && 1 <= j < |o.view| && i <= k < |o.view| && j != k && o.view[k] == bs[i]
        && o.view[j].addr == o.ptr && o.view[j].alloc && a <= o.view[j].size
  {
    FirstFitIsFirst(bs, a, 0);
    j, k := 0, i;
    match FirstFit(bs, a)
    case Some(f) =>
      PlacedFirst(bs, f, a);
      j, k := f, Moved(bs, f, a, i);
    case None =>
      var n := GrowBytes(a);
      if brk + n <= limit {
        GrowBlock(bs, brk, n);
        GrowKeeps(bs, brk, n, i);
        var g := Grow(bs, brk, n);
        j := GrowIndex(bs, brk, n);
        PlacedFirst(g, j, a);
        k := Moved(g, j, a, i);
      }
  }

  /**
   * mm_realloc growing allocated block i to adjusted size a: it fails
   * exactly when the successor cannot make the room, nothing fits and the
   * break may not grow, and then changes nothing. Otherwise it returns an
   * allocated block with room for a bytes, at the old address exactly when
   * it grew in place; after a move no allocated block is left at the old
   * address.
   */
  lemma EnlargeGives(bs: seq<Block>, x: nat, brk: nat, limit: nat, i: nat, a: nat)
    requires Contiguous(bs, x, brk) && x != NULL && 1 <= i < |bs| && bs[0].alloc && bs[i].alloc
    requires bs[i].size < a && a % 8 == 0
    ensures var o := EnlargeOutcome(bs, brk, limit, i, a);
      && (o.ptr == NULL ==> o.view == bs && o.brk == brk)
      && (o.ptr == NULL <==>
           && !(NextFree(bs, i) && bs[i].size + NextSize(bs, i) >= a)
           && FirstFit(bs, a).None? && brk + GrowBytes(a) > limit)
    ensures var o := EnlargeOutcome(bs, brk, limit, i, a);
      o.ptr != NULL ==> AllocatedAt(o.view, o.ptr, a)
    ensures var o := EnlargeOutcome(bs, brk, limit, i, a);
      o.ptr != NULL ==> (o.ptr == bs[i].addr <==> NextFree(bs, i) && bs[i].size + NextSize(bs, i) >= a)
    ensures var o := EnlargeOutcome(bs, brk, limit, i, a);
      o.ptr != NULL && o.ptr != bs[i].addr ==>
        ReleasedAt(o.view, bs[i].addr)
  {
    PastNull(bs, x, brk);
    if NextFree(bs, i) && bs[i].size + NextSize(bs, i) >= a {
      PlacedFirst(Absorb(bs, i), i, a);
    } else {
      ObtainFails(bs, brk, limit, a);
      RelocateGives(bs, x, brk, limit, i, a);
    }
  }

  /**
   * mm_realloc's moving path for allocated block i and adjusted size a:
   * when search or growth succeeds, the returned block is allocated with
   * room for a bytes, lies elsewhere, and no allocated block is left at
   * the old address once it is freed.
   */
  lemma RelocateGives(bs: seq<Block>, x: nat, brk: nat, limit: nat, i: nat, a: nat)
    requires Contiguous(bs, x, brk) && x != NULL && 1 <= i < |bs| && bs[0].alloc && bs[i].alloc
    requires bs[i].size < a && a % 8 == 0
    ensures var o := Obtain(bs, brk, limit, a);
      o.ptr != NULL ==>
        && o.ptr != bs[i].addr
        && AllocatedAt(FreeAddr(o.view, bs[i].addr), o.ptr, a)
        && ReleasedAt(FreeAddr(o.view, bs[i].addr), bs[i].addr)
  {
    var ob := Obtain(bs, brk, limit, a);
    StepAt(bs, x, brk, i);
    if ob.ptr != NULL {
      var j, k := ObtainPlaces(bs, brk, limit, a, i);
      var ov := ob.view;
      ObtainTiles(bs, x, brk, limit, a);
      IndexOfUnique(ov, x, ob.brk, k);
      IndexOfUnique(ov, x, ob.brk, j);
      FreedIsFree(ov, x, ob.brk, k);
      var kj := Freed(ov, k, j);
      assert FreeAt(ov, k)[kj].addr == ob.ptr;
    }
  }

  /**
   * mm_realloc on allocated block i for adjusted size a: as EnlargeGives,
   * with the unchanged and the shrunk block returned in place.
   */
  lemma ResizeGives(bs: seq<Block>, x: nat, brk: nat, limit: nat, i: nat, a: nat)
    requires Contiguous(bs, x, brk) && x != NULL && 1 <= i < |bs| && bs[0].alloc && bs[i].alloc
    requires a % 8 == 0
    ensures var o := ResizeOutcome(bs, brk, limit, i, a);
      && (o.ptr == NULL ==> o.view == bs && o.brk == brk)
      && (o.ptr == NULL <==>
           && a > bs[i].size && !(NextFree(bs, i) && bs[i].size + NextSize(bs, i) >= a)
           && FirstFit(bs, a).None? && brk + GrowBytes(a) > limit)
    ensures var o := ResizeOutcome(bs, brk, limit, i, a);
      o.ptr != NULL ==> AllocatedAt(o.view, o.ptr, a)
    ensures var o := ResizeOutcome(bs, brk, limit, i, a);
      o.ptr != NULL ==> (o.ptr == bs[i].addr <==> a <= bs[i].size || (NextFree(bs, i) && bs[i].size + NextSize(bs, i) >= a))
    ensures var o := ResizeOutcome(bs, brk, limit, i, a);
      o.ptr != NULL && o.ptr != bs[i].addr ==>
        ReleasedAt(o.view, bs[i].addr)
  {
    PastNull(bs, x, brk);
    if a < bs[i].size {
      PlacedFirst(bs, i, a);
    } else if a > bs[i].size {
      EnlargeGives(bs, x, brk, limit, i, a);
    }
  }

  /**
   * mm_realloc(ptr, size) with ptr NULL or the address of allocated block
   * i returns NULL exactly for size 0 or when no path finds room, and a
   * NULL for a nonzero size changes nothing. Otherwise it returns an
   * allocated block with room for size payload bytes, at ptr exactly when
   * the block shrank, stayed or grew in place; after a move no allocated
   * block is left at ptr.
   */
  lemma ReallocGives(bs: seq<Block>, x: nat, brk: nat, limit: nat, ptr: nat, i: nat, size: nat)
    requires Contiguous(bs, x, brk) && x != NULL && |bs| >= 1 && bs[0].alloc
    requires ptr != NULL ==> 1 <= i < |bs| && bs[i].addr == ptr && bs[i].alloc
    ensures var o, a := ReallocOutcome(bs, brk, limit, ptr, i, size), AdjustedSize(size);
      && (o.ptr == NULL && size > 0 ==> o.view == bs && o.brk == brk)
      && (o.ptr == NULL <==>
           || size == 0
           || (&& FirstFit(bs, a).None? && brk + GrowBytes(a) > limit
               && (ptr != NULL ==> a > bs[i].size && !(NextFree(bs, i) && bs[i].size + NextSize(bs, i) >= a))))
    ensures var o := ReallocOutcome(bs, brk, limit, ptr, i, size);
      o.ptr != NULL ==> AllocatedAt(o.view, o.ptr, size + 8)
    ensures var o, a := ReallocOutcome(bs, brk, limit, ptr, i, size), AdjustedSize(size);
      ptr != NULL && o.ptr != NULL ==>
        (o.ptr == ptr <==> a <= bs[i].size || (NextFree(bs, i) && bs[i].size + NextSize(bs, i) >= a))
    ensures var o := ReallocOutcome(bs, brk, limit, ptr, i, size);
      ptr != NULL && o.ptr != NULL && o.ptr != ptr ==>
        ReleasedAt(o.view, ptr)
  {
    PastNull(bs, x, brk);
    if ptr == NULL {
      MallocGives(bs, brk, limit, size);
    } else if size > 0 {
      ResizeGives(bs, x, brk, limit, i, AdjustedSize(size));
    }
  }
}
