/**
 * The implicit block list. Memory is a sequence of words indexed from byte
 * address 0; a block is named by its payload address bp, its header word is
 * at bp - 4 and its footer word at bp + size - 8, both holding the packed
 * size and allocation bit. Blocks lie end to end: the next block's payload
 * address is bp + size.
 */
module Layout {
  import opened Tags

  /** A multiple of 8 is a multiple of 4. */
  lemma FourOfEight(a: nat)
    requires a % 8 == 0
    ensures a % 4 == 0
  {
    assert a == 4 * (2 * (a / 8));
  }

  /** Word indices add up for word-aligned addresses. */
  lemma Quarter(x: nat, y: nat)
    requires x % 4 == 0 && y % 4 == 0
    ensures (x + y) % 4 == 0 && WordAt(x + y) == WordAt(x) + WordAt(y)
  {
    var p, q := x / 4, y / 4;
    assert x == 4 * p && y == 4 * q && x + y == 4 * (p + q);
    WordOf(p);
    WordOf(q);
    WordOf(p + q);
  }

  /** The word index of byte address 4 * k is k. */
  lemma WordOf(k: nat)
    ensures WordAt(4 * k) == k && (4 * k) % 4 == 0
  {
  }

  /** The difference of two multiples of 8 is one. */
  lemma DiffOfMultiples(s: nat, a: nat)
    requires s % 8 == 0 && a % 8 == 0 && a <= s
    ensures (s - a) % 8 == 0
  {
    assert s - a == 8 * (s / 8 - a / 8);
  }

  /** An address congruent modulo 8 to a word-aligned one is word-aligned. */
  lemma Congruent(x: nat, a: nat)
    requires x % 8 == a % 8 && a % 4 == 0
    ensures x % 4 == 0
  {
    var z := a / 4 - 2 * (a / 8);
    assert a % 8 == 4 * z;
    assert x == 4 * (2 * (x / 8) + z);
  }

  /** One block of the chain as the abstract view sees it. */
  datatype Block = Block(addr: nat, size: nat, alloc: bool)

  /** Index of the word holding byte address a. */
  function WordAt(a: nat): nat
  {
    a / 4
  }

  /** bs lies end to end from a to b, each size a positive multiple of 8. */
  ghost predicate Contiguous(bs: seq<Block>, a: nat, b: nat)
    decreases |bs|
  {
    if |bs| == 0 then a == b
    else
      && bs[0].addr == a
      && bs[0].size >= 8 && bs[0].size % 8 == 0
      && Contiguous(bs[1..], a + bs[0].size, b)
  }

  /** Address where block k of bs starts, or b when k is one past the last block. */
  function StartOf(bs: seq<Block>, k: nat, b: nat): nat
    requires k <= |bs|
  {
    if k < |bs| then bs[k].addr else b
  }

  /** The allocation bit for a flag. */
  function Bit(alloc: bool): (b: nat)
    ensures b <= 1
  {
    if alloc then 1 else 0
  }

  /** The tag word a block carries in its header and in its footer. */
  function Tag(blk: Block): nat
    requires blk.size % 8 == 0
  {
    Pack(blk.size, Bit(blk.alloc))
  }

  /** Word index of a block's header. */
  function HdrAt(blk: Block): int
  {
    WordAt(blk.addr) - 1
  }

  /** Word index of a block's footer. */
  function FtrAt(blk: Block): int
  {
    WordAt(blk.addr + blk.size) - 2
  }

  /** Block blk is laid out in m: word-aligned, inside m, with its tag in its header and its footer. */
  ghost predicate Stored(m: seq<Word>, blk: Block)
  {
    && 4 <= blk.addr && blk.addr % 4 == 0
    && 8 <= blk.size && blk.size % 8 == 0
    && blk.addr + blk.size <= 4 * |m|
    && m[HdrAt(blk)] == Tag(blk)
    && m[FtrAt(blk)] == Tag(blk)
  }

  /** Every block of bs is laid out in m. */
  ghost predicate AllStored(m: seq<Word>, bs: seq<Block>)
  {
    forall k :: 0 <= k < |bs| ==> Stored(m, bs[k])
  }

  /** Every block of bs except block i is laid out in m. */
  ghost predicate StoredExcept(m: seq<Word>, bs: seq<Block>, i: nat)
  {
    forall k :: 0 <= k < |bs| && k != i ==> Stored(m, bs[k])
  }

  /** A list laid out except at block i has its two sides laid out. */
  lemma StoredParts(m: seq<Word>, bs: seq<Block>, i: nat)
    requires StoredExcept(m, bs, i) && i < |bs|
    ensures AllStored(m, bs[..i]) && AllStored(m, bs[i + 1..])
  {
    var rest := bs[i + 1..];
    forall k | 0 <= k < |rest| ensures Stored(m, rest[k]) {
      assert rest[k] == bs[k + i + 1];
    }
  }

  /** A list laid out in m has its prefix before lo and its suffix from hi laid out. */
  lemma StoredSlices(m: seq<Word>, bs: seq<Block>, lo: nat, hi: nat)
    requires AllStored(m, bs) && lo <= hi <= |bs|
    ensures AllStored(m, bs[..lo]) && AllStored(m, bs[hi..])
  {
    var rest := bs[hi..];
    forall k | 0 <= k < |rest| ensures Stored(m, rest[k]) {
      assert rest[k] == bs[k + hi];
    }
  }

  /** Reading a stored block's header (GET_SIZE, GET_ALLOC of HD(bp)) gives back its size and flag. */
  lemma ReadHeader(m: seq<Word>, blk: Block)
    requires Stored(m, blk)
    ensures 0 <= HdrAt(blk) < FtrAt(blk) < |m|
    ensures GetSize(m[HdrAt(blk)]) == blk.size && (GetAlloc(m[HdrAt(blk)]) == 1) == blk.alloc
    ensures GetSize(m[FtrAt(blk)]) == blk.size && (GetAlloc(m[FtrAt(blk)]) == 1) == blk.alloc
  {
    TagRoundTrip(blk.size, Bit(blk.alloc));
  }

  /**
   * The tag words of the blocks of a contiguous list sit in address order:
   * everything block j stores lies below the header of any later block k.
   */
  lemma TagsOrdered(bs: seq<Block>, a: nat, b: nat, j: nat, k: nat)
    requires Contiguous(bs, a, b) && j < k <= |bs| && a % 4 == 0
    ensures bs[j].addr % 4 == 0 && StartOf(bs, k, b) % 4 == 0
    ensures FtrAt(bs[j]) < WordAt(StartOf(bs, k, b)) - 1
    ensures HdrAt(bs[j]) < FtrAt(bs[j])
  {
    Ordered(bs, a, b, j, k);
    Aligned(bs, a, b, j);
    Aligned(bs, a, b, k);
    StepAt(bs, a, b, j);
    Congruent(bs[j].addr, a);
    Congruent(StartOf(bs, k, b), a);
    FourOfEight(bs[j].size);
    Quarter(bs[j].addr, bs[j].size);
  }

  /**
   * A contiguous list that is laid out in memory is determined by the
   * memory: walking from a by header sizes finds exactly these blocks.
   */
  lemma {:induction false} Determined(m: seq<Word>, xs: seq<Block>, ys: seq<Block>, a: nat, b: nat)
    requires Contiguous(xs, a, b) && AllStored(m, xs)
    requires Contiguous(ys, a, b) && AllStored(m, ys)
    ensures xs == ys
    decreases |xs|
  {
    if |xs| > 0 && |ys| > 0 {
      ReadHeader(m, xs[0]);
      ReadHeader(m, ys[0]);
      assert xs[0] == ys[0];
      assert AllStored(m, xs[1..]) by {
        forall k | 0 <= k < |xs[1..]| ensures Stored(m, xs[1..][k]) {
          assert xs[1..][k] == xs[k + 1];
        }
      }
      assert AllStored(m, ys[1..]) by {
        forall k | 0 <= k < |ys[1..]| ensures Stored(m, ys[1..][k]) {
          assert ys[1..][k] == ys[k + 1];
        }
      }
      Determined(m, xs[1..], ys[1..], a + xs[0].size, b);
      assert xs == [xs[0]] + xs[1..] && ys == [ys[0]] + ys[1..];
    } else if |xs| > 0 {
      StepAt(xs, a, b, 0);
      Ordered(xs, a, b, 0, |xs|);
    } else if |ys| > 0 {
      StepAt(ys, a, b, 0);
      Ordered(ys, a, b, 0, |ys|);
    }
  }

  /**
   * Rewriting only the words from the header of block lo up to the header of
   * block hi, so that they lay out xs, keeps the other blocks laid out.
   */
  lemma Rewrite(m: seq<Word>, m': seq<Word>, bs: seq<Block>, a: nat, b: nat, lo: nat, hi: nat, xs: seq<Block>)
    requires Contiguous(bs, a, b) && a % 4 == 0 && lo <= hi <= |bs| && |m'| == |m|
    requires AllStored(m, bs[..lo]) && AllStored(m, bs[hi..]) && AllStored(m', xs)
    requires forall w :: 0 <= w < |m| && !(WordAt(StartOf(bs, lo, b)) - 1 <= w < WordAt(StartOf(bs, hi, b)) - 1) ==> m'[w] == m[w]
    ensures AllStored(m', bs[..lo] + xs + bs[hi..])
  {
    var r := bs[..lo] + xs + bs[hi..];
    forall k | 0 <= k < |r| ensures Stored(m', r[k]) {
      if k < lo {
        assert r[k] == bs[..lo][k] == bs[k];
        TagsOrdered(bs, a, b, k, lo);
      } else if k >= lo + |xs| {
        var j := k - |xs| + hi - lo;
        assert r[k] == bs[hi..][j - hi] == bs[j];
        Aligned(bs, a, b, j);
        if hi < j {
          Ordered(bs, a, b, hi, j);
          StepAt(bs, a, b, hi);
        }
        StepAt(bs, a, b, j);
      } else {
        assert r[k] == xs[k - lo];
      }
    }
  }

  /** A list laid out below the last word of m stays laid out in any memory that agrees with m there. */
  lemma StoredBelow(m: seq<Word>, m': seq<Word>, bs: seq<Block>, a: nat)
    requires Contiguous(bs, a, 4 * |m|) && a % 4 == 0 && AllStored(m, bs) && |m| <= |m'|
    requires forall w :: 0 <= w < |m| - 1 ==> m'[w] == m[w]
    ensures AllStored(m', bs)
  {
    forall k | 0 <= k < |bs| ensures Stored(m', bs[k]) {
      TagsOrdered(bs, a, 4 * |m|, k, |bs|);
    }
  }

  /** Block k of a contiguous list ends where block k + 1 (or the region) starts. */
  lemma {:induction false} StepAt(bs: seq<Block>, a: nat, b: nat, k: nat)
    requires Contiguous(bs, a, b) && k < |bs|
    ensures bs[k].addr + bs[k].size == StartOf(bs, k + 1, b)
    ensures bs[k].size >= 8 && bs[k].size % 8 == 0
    decreases k
  {
    if k > 0 {
      StepAt(bs[1..], a + bs[0].size, b, k - 1);
      assert StartOf(bs[1..], k, b) == StartOf(bs, k + 1, b);
    }
  }

  /** Blocks are ordered by address and never overlap. */
  lemma {:induction false} Ordered(bs: seq<Block>, a: nat, b: nat, j: nat, k: nat)
    requires Contiguous(bs, a, b) && j < k <= |bs|
    ensures bs[j].addr + bs[j].size <= StartOf(bs, k, b)
    decreases k - j
  {
    StepAt(bs, a, b, j);
    if j + 1 < k {
      Ordered(bs, a, b, j + 1, k);
      StepAt(bs, a, b, j + 1);
    }
  }

  /** Every block starts within [a, b] at an address congruent to a modulo 8. */
  lemma {:induction false} Aligned(bs: seq<Block>, a: nat, b: nat, k: nat)
    requires Contiguous(bs, a, b) && k <= |bs|
    ensures a <= StartOf(bs, k, b) <= b
    ensures StartOf(bs, k, b) % 8 == a % 8
    decreases k
  {
    if k == 0 {
      if |bs| > 0 {
        Ordered(bs, a, b, 0, |bs|);
      }
    } else {
      Aligned(bs[1..], a + bs[0].size, b, k - 1);
      assert StartOf(bs[1..], k - 1, b) == StartOf(bs, k, b);
    }
  }

  /** The tag spans of two different blocks of a contiguous list do not overlap. */
  lemma Apart(bs: seq<Block>, a: nat, b: nat, x: nat, j: nat)
    requires Contiguous(bs, a, b) && a % 4 == 0 && x < |bs| && j < |bs| && x != j
    ensures FtrAt(bs[x]) < HdrAt(bs[j]) || FtrAt(bs[j]) < HdrAt(bs[x])
  {
    if x < j {
      TagsOrdered(bs, a, b, x, j);
    } else {
      TagsOrdered(bs, a, b, j, x);
    }
  }

  /** The payload of blk, the words strictly between its header and its footer, is the same in m and m'. */
  ghost predicate PayloadKept(m: seq<Word>, m': seq<Word>, blk: Block)
  {
    && 0 <= HdrAt(blk) && FtrAt(blk) < |m| && FtrAt(blk) < |m'|
    && forall w :: HdrAt(blk) < w < FtrAt(blk) ==> m'[w] == m[w]
  }

  /** No tag word of a contiguous list lies inside the payload of one of its blocks. */
  lemma TagsOutside(bs: seq<Block>, a: nat, b: nat, k: nat, x: nat)
    requires Contiguous(bs, a, b) && a % 4 == 0 && k < |bs| && x < |bs|
    ensures HdrAt(bs[x]) < FtrAt(bs[x])
    ensures !(HdrAt(bs[x]) < HdrAt(bs[k]) < FtrAt(bs[x]))
    ensures !(HdrAt(bs[x]) < FtrAt(bs[k]) < FtrAt(bs[x]))
  {
    TagsOrdered(bs, a, b, x, x + 1);
    TagsOrdered(bs, a, b, k, k + 1);
    if k != x {
      Apart(bs, a, b, x, k);
    }
  }

  /** The payload of a block spans (size - 8) / 4 words, from the word after its header up to its footer. */
  lemma PayloadSpan(blk: Block)
    requires blk.addr % 4 == 0 && blk.size >= 8 && blk.size % 8 == 0
    ensures FtrAt(blk) == WordAt(blk.addr) + (blk.size - D_SIZE) / W_SIZE
  {
    FourOfEight(blk.size);
    Quarter(blk.addr, blk.size);
  }

  /** The c words of m' from word d on are the c words of m from word s on. */
  ghost predicate Copied(m: seq<Word>, m': seq<Word>, s: nat, d: nat, c: nat)
  {
    s + c <= |m| && d + c <= |m'| && forall w :: d <= w < d + c ==> m'[w] == m[w - d + s]
  }

  /** Copying a payload that two earlier steps kept copies the original payload. */
  lemma CopiedFrom(m0: seq<Word>, m1: seq<Word>, m2: seq<Word>, m3: seq<Word>, blk: Block, d: nat, c: nat)
    requires PayloadKept(m0, m1, blk) && PayloadKept(m1, m2, blk)
    requires Copied(m2, m3, WordAt(blk.addr), d, c) && WordAt(blk.addr) + c <= FtrAt(blk)
    ensures Copied(m0, m3, WordAt(blk.addr), d, c)
  {
  }
}
