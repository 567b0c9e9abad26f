/** The allocator's heap seen as a row of blocks (mm.c), apart from the words that encode it.

    A block is named by the byte address of its header.  The row starts at the header `lo` and
    ends at the zero-sized, always allocated tail block `hi`.  Every block also records the
    header address of the block before it, which is what the PFREE bit and the footers let the
    allocator recover. */
module MmBlocks {
  import opened DivMod

  datatype Block = Block(size: int, free: bool, prev: int)

  type Blocks = map<int, Block>

  /** What holds at one block: its shape, its successor and its predecessor. */
  ghost predicate BlockOk(bs: Blocks, lo: int, hi: int, a: int)
    requires a in bs
  {
    && lo <= a <= hi && a % 8 == 4
    && (a == hi ==> bs[a].size == 0 && !bs[a].free)
    && (a != hi ==>
          && 8 <= bs[a].size && bs[a].size % 8 == 0
          && a + bs[a].size in bs && bs[a + bs[a].size].prev == a)
    && (a != lo ==>
          && bs[a].prev in bs && bs[a].prev != hi
          && bs[a].prev + bs[bs[a].prev].size == a
          && !(bs[a].free && bs[bs[a].prev].free))
  }

  /** Two blocks do not overlap. */
  ghost predicate InOrder(bs: Blocks, a: int, b: int)
    requires a in bs && b in bs
  {
    a < b ==> a + bs[a].size <= b
  }

  /** The blocks tile [lo, hi), and no two neighbours are both free. */
  ghost predicate Tiles(bs: Blocks, lo: int, hi: int) {
    && lo in bs && hi in bs
    && (forall a {:trigger BlockOk(bs, lo, hi, a)} :: a in bs ==> BlockOk(bs, lo, hi, a))
    && (forall a, b {:trigger InOrder(bs, a, b)} :: a in bs && b in bs ==> InOrder(bs, a, b))
  }

  ghost function Next(bs: Blocks, a: int): int
    requires a in bs
  {
    a + bs[a].size
  }

  /** Whether the block before `a` is free: the meaning of the PFREE bit. */
  ghost predicate PrevFree(bs: Blocks, lo: int, a: int)
    requires a in bs
  {
    a != lo && bs[a].prev in bs && bs[bs[a].prev].free
  }

  // ---------- The block-level effect of each operation ----------

  /** One free block from `s` up to `e`, in place of every block in between. */
  ghost function Merge(bs: Blocks, s: int, e: int): Blocks
    requires s in bs && e in bs && s < e
  {
    map a | a in bs && !(s < a < e) ::
      if a == s then Block(e - s, true, bs[s].prev)
      else if a == e then Block(bs[e].size, bs[e].free, s)
      else bs[a]
  }

  /** The whole free block `p` becomes allocated. */
  ghost function Take(bs: Blocks, p: int): Blocks
    requires p in bs
  {
    bs[p := Block(bs[p].size, false, bs[p].prev)]
  }

  /** The first `k` bytes of the free block `p` become allocated, the rest stays free. */
  ghost function Split(bs: Blocks, p: int, k: int): Blocks
    requires p in bs && Next(bs, p) in bs
  {
    var e := Next(bs, p);
    bs[e := Block(bs[e].size, bs[e].free, p + k)]
      [p := Block(k, false, bs[p].prev)]
      [p + k := Block(bs[p].size - k, true, p)]
  }

  ghost predicate Carvable(bs: Blocks, p: int) {
    p in bs && Next(bs, p) in bs
  }

  /** `k` bytes of the free block `p` become allocated: all of it, or its front part. */
  ghost function Carve(bs: Blocks, p: int, k: int): Blocks
    requires Carvable(bs, p)
  {
    if bs[p].size == k then Take(bs, p) else Split(bs, p, k)
  }

  /** The row grows: the trailing block `p` (the tail itself or the free block before it)
      becomes an allocated block of `k` bytes, followed by a new tail. */
  ghost function Grow(bs: Blocks, hi: int, p: int, k: int): Blocks
    requires p in bs
  {
    (bs - {hi})[p := Block(k, false, bs[p].prev)][p + k := Block(0, false, p)]
  }

  // ---------- Each effect keeps the tiling ----------

  lemma {:induction false} OrderAt(bs: Blocks, lo: int, hi: int, a: int, b: int)
    requires Tiles(bs, lo, hi) && a in bs && b in bs
    ensures a < b ==> Next(bs, a) <= b
    ensures b < a ==> Next(bs, b) <= a
  {
    assert InOrder(bs, a, b) && InOrder(bs, b, a);
  }

  lemma {:induction false} PrevBefore(bs: Blocks, lo: int, hi: int, a: int)
    requires Tiles(bs, lo, hi) && a in bs && a != lo
    ensures bs[a].prev in bs && bs[a].prev < a && Next(bs, bs[a].prev) == a
  {
    assert BlockOk(bs, lo, hi, a);
    assert BlockOk(bs, lo, hi, bs[a].prev);
  }

  lemma {:induction false} MergeBlockOk(bs: Blocks, lo: int, hi: int, s: int, e: int, a: int)
    requires Tiles(bs, lo, hi) && s in bs && e in bs && s < e
    requires !PrevFree(bs, lo, s) && !bs[e].free
    requires a in Merge(bs, s, e)
    ensures BlockOk(Merge(bs, s, e), lo, hi, a)
  {
    var bs' := Merge(bs, s, e);
    assert BlockOk(bs, lo, hi, a) && BlockOk(bs, lo, hi, e);
    if a != lo { PrevBefore(bs, lo, hi, a); }
    if a == s {
      OrderAt(bs, lo, hi, s, e);
      OrderAt(bs, lo, hi, hi, e);
    } else if a < s {
      OrderAt(bs, lo, hi, a, s);
    } else if e < a {
      OrderAt(bs, lo, hi, bs[a].prev, e);
    }
  }

  lemma {:induction false} MergeInOrder(bs: Blocks, lo: int, hi: int, s: int, e: int, a: int, b: int)
    requires Tiles(bs, lo, hi) && s in bs && e in bs && s < e
    requires a in Merge(bs, s, e) && b in Merge(bs, s, e)
    ensures InOrder(Merge(bs, s, e), a, b)
  {
    hide BlockOk;
    OrderAt(bs, lo, hi, a, b);
    OrderAt(bs, lo, hi, e, b);
  }

  lemma {:induction false} MergeEnds(bs: Blocks, lo: int, hi: int, s: int, e: int)
    requires Tiles(bs, lo, hi) && s in bs && e in bs && s < e
    ensures lo in Merge(bs, s, e) && hi in Merge(bs, s, e)
  {
    assert BlockOk(bs, lo, hi, s) && BlockOk(bs, lo, hi, e);
  }

  lemma {:induction false} MergeTiles(bs: Blocks, lo: int, hi: int, s: int, e: int)
    requires Tiles(bs, lo, hi) && s in bs && e in bs && s < e
    requires !PrevFree(bs, lo, s) && !bs[e].free
    ensures Tiles(Merge(bs, s, e), lo, hi)
  {
    hide BlockOk, InOrder, Merge;
    var bs' := Merge(bs, s, e);
    MergeEnds(bs, lo, hi, s, e);
    forall a | a in bs' ensures BlockOk(bs', lo, hi, a) {
      MergeBlockOk(bs, lo, hi, s, e, a);
    }
    forall a, b | a in bs' && b in bs' ensures InOrder(bs', a, b) {
      MergeInOrder(bs, lo, hi, s, e, a, b);
    }
  }

  lemma {:induction false} TakeTiles(bs: Blocks, lo: int, hi: int, p: int)
    requires Tiles(bs, lo, hi) && p in bs && bs[p].free
    ensures Tiles(Take(bs, p), lo, hi)
  {
    var bs' := Take(bs, p);
    assert BlockOk(bs, lo, hi, hi);
    forall a | a in bs' ensures BlockOk(bs', lo, hi, a) {
      assert BlockOk(bs, lo, hi, a);
    }
    forall a, b | a in bs' && b in bs' ensures InOrder(bs', a, b) {
      assert InOrder(bs, a, b);
    }
  }

  /** A proper part of a block is not itself a block. */
  lemma {:induction false} InsideIsFresh(bs: Blocks, lo: int, hi: int, p: int, q: int)
    requires Tiles(bs, lo, hi) && p in bs && p < q < Next(bs, p)
    ensures q !in bs
  {
    if q in bs { OrderAt(bs, lo, hi, p, q); }
  }

  lemma {:induction false} SplitBlockOk(bs: Blocks, lo: int, hi: int, p: int, k: int, a: int)
    requires Tiles(bs, lo, hi) && p in bs && bs[p].free
    requires 8 <= k < bs[p].size && k % 8 == 0
    requires Next(bs, p) in bs && a in Split(bs, p, k)
    ensures BlockOk(Split(bs, p, k), lo, hi, a)
  {
    var bs', e := Split(bs, p, k), Next(bs, p);
    assert BlockOk(bs, lo, hi, p) && BlockOk(bs, lo, hi, e) && BlockOk(bs, lo, hi, hi);
    InsideIsFresh(bs, lo, hi, p, p + k);
    if a == p + k {
      DivMod8(a, p / 8 + k / 8, 4);
      DivMod8(bs[p].size - k, bs[p].size / 8 - k / 8, 0);
    } else if a != p && a != e {
      assert BlockOk(bs, lo, hi, a);
      if a != lo { PrevBefore(bs, lo, hi, a); }
    }
  }

  lemma {:induction false} SplitInOrder(bs: Blocks, lo: int, hi: int, p: int, k: int, a: int, b: int)
    requires Tiles(bs, lo, hi) && p in bs && bs[p].free && 8 <= k < bs[p].size
    requires Next(bs, p) in bs && a in Split(bs, p, k) && b in Split(bs, p, k)
    ensures InOrder(Split(bs, p, k), a, b)
  {
    var a0, b0 := if a == p + k then p else a, if b == p + k then p else b;
    InsideIsFresh(bs, lo, hi, p, p + k);
    OrderAt(bs, lo, hi, a0, b0);
  }

  lemma {:induction false} SplitBlocksOk(bs: Blocks, lo: int, hi: int, p: int, k: int)
    requires Tiles(bs, lo, hi) && p in bs && bs[p].free && Next(bs, p) in bs
    requires 8 <= k < bs[p].size && k % 8 == 0
    ensures var bs' := Split(bs, p, k);
            forall a {:trigger BlockOk(bs', lo, hi, a)} :: a in bs' ==> BlockOk(bs', lo, hi, a)
  {
    hide Tiles, BlockOk, Split;
    var bs' := Split(bs, p, k);
    forall a | a in bs' ensures BlockOk(bs', lo, hi, a) {
      SplitBlockOk(bs, lo, hi, p, k, a);
    }
  }

  lemma {:induction false} SplitAllInOrder(bs: Blocks, lo: int, hi: int, p: int, k: int)
    requires Tiles(bs, lo, hi) && p in bs && bs[p].free && Next(bs, p) in bs && 8 <= k < bs[p].size
    ensures var bs' := Split(bs, p, k);
            forall a, b {:trigger InOrder(bs', a, b)} :: a in bs' && b in bs' ==> InOrder(bs', a, b)
  {
    hide Tiles, InOrder, Split;
    var bs' := Split(bs, p, k);
    forall a, b | a in bs' && b in bs' ensures InOrder(bs', a, b) {
      SplitInOrder(bs, lo, hi, p, k, a, b);
    }
  }

  lemma {:induction false} SplitTiles(bs: Blocks, lo: int, hi: int, p: int, k: int)
    requires Tiles(bs, lo, hi) && p in bs && bs[p].free
    requires 8 <= k < bs[p].size && k % 8 == 0
    ensures Next(bs, p) in bs && p + k !in bs && Tiles(Split(bs, p, k), lo, hi)
  {
    assert BlockOk(bs, lo, hi, p);
    InsideIsFresh(bs, lo, hi, p, p + k);
    hide BlockOk, InOrder;
    SplitBlocksOk(bs, lo, hi, p, k);
    SplitAllInOrder(bs, lo, hi, p, k);
  }

  lemma {:induction false} GrowBlockOk(bs: Blocks, lo: int, hi: int, p: int, k: int, a: int)
    requires Tiles(bs, lo, hi) && p in bs
    requires p == hi || (bs[p].free && Next(bs, p) == hi)
    requires !PrevFree(bs, lo, p)
    requires bs[p].size < k && 8 <= k && k % 8 == 0
    requires a in Grow(bs, hi, p, k)
    ensures BlockOk(Grow(bs, hi, p, k), lo, p + k, a)
    ensures a == p + k || (a <= p && a in bs)
  {
    var bs' := Grow(bs, hi, p, k);
    assert BlockOk(bs, lo, hi, p) && BlockOk(bs, lo, hi, lo);
    if a == p + k {
      DivMod8(a, p / 8 + k / 8, 4);
    } else {
      assert BlockOk(bs, lo, hi, a);
      OrderAt(bs, lo, hi, a, p);
      if a != lo { PrevBefore(bs, lo, hi, a); }
    }
  }

  lemma {:induction false} GrowInOrder(bs: Blocks, lo: int, hi: int, p: int, k: int, a: int, b: int)
    requires Tiles(bs, lo, hi) && p in bs && (p == hi || Next(bs, p) == hi) && bs[p].size < k && 8 <= k
    requires a in Grow(bs, hi, p, k) && b in Grow(bs, hi, p, k)
    requires (a == p + k || (a <= p && a in bs)) && (b == p + k || (b <= p && b in bs))
    ensures InOrder(Grow(bs, hi, p, k), a, b)
  {
    hide BlockOk;
    if a in bs { OrderAt(bs, lo, hi, a, p); }
    if a in bs && b in bs { OrderAt(bs, lo, hi, a, b); }
  }

  lemma {:induction false} GrowEnds(bs: Blocks, lo: int, hi: int, p: int, k: int)
    requires Tiles(bs, lo, hi) && p in bs && (p == hi || Next(bs, p) == hi)
    ensures lo in Grow(bs, hi, p, k) && p + k in Grow(bs, hi, p, k)
  {
    assert BlockOk(bs, lo, hi, p) && BlockOk(bs, lo, hi, hi);
  }

  lemma {:induction false} GrowTiles(bs: Blocks, lo: int, hi: int, p: int, k: int)
    requires Tiles(bs, lo, hi) && p in bs
    requires p == hi || (bs[p].free && Next(bs, p) == hi)
    requires !PrevFree(bs, lo, p)
    requires bs[p].size < k && 8 <= k && k % 8 == 0
    ensures Tiles(Grow(bs, hi, p, k), lo, p + k)
  {
    hide BlockOk, InOrder, Grow;
    var bs' := Grow(bs, hi, p, k);
    GrowEnds(bs, lo, hi, p, k);
    forall a | a in bs' ensures BlockOk(bs', lo, p + k, a) && (a == p + k || (a <= p && a in bs)) {
      GrowBlockOk(bs, lo, hi, p, k, a);
    }
    forall a, b | a in bs' && b in bs' ensures InOrder(bs', a, b) {
      GrowBlockOk(bs, lo, hi, p, k, a);
      GrowBlockOk(bs, lo, hi, p, k, b);
      GrowInOrder(bs, lo, hi, p, k, a, b);
    }
  }
}
