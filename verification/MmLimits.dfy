/** Where mm.c stops keeping its invariant, and exactly when; and what the invariant says about
    the heap as a whole. */
module MmLimits {
  import opened DivMod
  import opened MmBlocks
  import opened MmWords
  import opened MmOps
  import opened MmPlans
  import opened MmClient

  // ---------- What the invariant says ----------

  /** The headers met by stepping from block to block, starting at `a`. */
  ghost function Walk(bs: Blocks, lo: int, hi: int, a: int): (hs: seq<int>)
    requires Tiles(bs, lo, hi) && a in bs
    ensures forall i :: 0 <= i < |hs| ==> hs[i] in bs
    decreases hi - a
  {
    assert BlockOk(bs, lo, hi, a);
    if a == hi then [] else [a] + Walk(bs, lo, hi, Next(bs, a))
  }

  ghost function TotalSize(bs: Blocks, hs: seq<int>): int
    requires forall i :: 0 <= i < |hs| ==> hs[i] in bs
  {
    if hs == [] then 0 else bs[hs[0]].size + TotalSize(bs, hs[1..])
  }

  ghost predicate Rising(hs: seq<int>) { forall i, j :: 0 <= i < j < |hs| ==> hs[i] < hs[j] }

  /** Stepping over the heap meets every block once, in order, and the sizes add up to the heap
      size less the 8 bytes of padding and tail. */
  lemma {:induction false} WalkMeetsAll(bs: Blocks, lo: int, hi: int, a: int)
    requires Tiles(bs, lo, hi) && a in bs
    ensures forall b :: b in Walk(bs, lo, hi, a) <==> b in bs && a <= b && b != hi
    ensures Rising(Walk(bs, lo, hi, a))
    ensures TotalSize(bs, Walk(bs, lo, hi, a)) == hi - a
    decreases hi - a
  {
    assert BlockOk(bs, lo, hi, a);
    if a != hi {
      var n, w := Next(bs, a), Walk(bs, lo, hi, Next(bs, a));
      WalkMeetsAll(bs, lo, hi, n);
      assert ([a] + w)[1..] == w;
      forall i | 0 <= i < |w| ensures a < w[i] { assert w[i] in w; }
      forall b ensures b in [a] + w <==> b in bs && a <= b && b != hi {
        if b in bs { OrderAt(bs, lo, hi, a, b); }
      }
    } else {
      forall b | b in bs && a <= b ensures b == hi {
        assert BlockOk(bs, lo, hi, b);
      }
    }
  }

  /** The list holds each free block exactly once and nothing else but marked tombstones, and no
      tombstone touches a word that any block uses. */
  lemma {:induction false} ListIsFreeBlocks(m: Memory, bs: Blocks, lo: int, hi: int, ns: seq<int>)
    requires Inv(m, bs, lo, hi, ns)
    ensures forall a :: a in bs ==> (bs[a].free <==> a + 4 in ns[1..])
    ensures forall i, j :: 0 <= i < j < |ns| ==> ns[i] != ns[j]
    ensures forall n :: n in ns[1..] && n - 4 !in bs ==>
              Rd(m, n - 4) == ALL_ONES && forall a :: a in bs ==> Apart(n, a, bs[a])
  {
    forall a | a in bs ensures bs[a].free <==> a + 4 in ns[1..] {
      if a + 4 in ns[1..] { assert NodeOk(m, bs, lo, hi, a + 4); }
    }
    forall n | n in ns[1..] && n - 4 !in bs ensures Tombstone(m, bs, n) {
      assert NodeOk(m, bs, lo, hi, n);
    }
  }

  /** A memory encodes at most one list walk. */
  lemma {:induction false} ChainAgrees(m: Memory, ns: seq<int>, ns': seq<int>, i: nat)
    requires Chain(m, ns) && Chain(m, ns') && (forall n :: n in ns[1..] ==> n != 0) && (forall n :: n in ns'[1..] ==> n != 0)
    requires i < |ns|
    ensures i < |ns'| && ns'[i] == ns[i]
  {
    if i > 0 {
      ChainAgrees(m, ns, ns', i - 1);
      assert Rd(m, ns[i - 1]) == After(ns, i - 1) && Rd(m, ns'[i - 1]) == After(ns', i - 1);
      assert ns[1..][i - 1] == ns[i] && ns[i] in ns[1..];
    }
  }

  /** Two readings of a heap have the same blocks; only the predecessor recorded for the first
      block, which has none, is not in the words. */
  ghost predicate SameRow(bs: Blocks, bs': Blocks) {
    forall a {:trigger bs[a]} {:trigger bs'[a]} {:trigger a in bs} {:trigger a in bs'} ::
      (a in bs <==> a in bs') && (a in bs ==> bs[a].size == bs'[a].size && bs[a].free == bs'[a].free)
  }

  /** Headers that agree with a row up to `a` lead any reading to `a`. */
  lemma {:induction false} RowLeadsTo(m: Memory, bs: Blocks, lo: int, hi: int, m': Memory, bs': Blocks, hi': int, a: int)
    requires Tiles(bs, lo, hi) && Headers(m, bs, lo) && Tiles(bs', lo, hi') && Headers(m', bs', lo)
    requires a in bs && forall c :: c in bs && c < a ==> Rd(m', c) == Rd(m, c)
    ensures a in bs'
    decreases a - lo
  {
    assert BlockOk(bs, lo, hi, a);
    if a != lo {
      var p := bs[a].prev;
      assert BlockOk(bs, lo, hi, p) && p < a;
      RowLeadsTo(m, bs, lo, hi, m', bs', hi', p);
      HeaderBits(m, bs, lo, hi, p);
      HeaderBits(m', bs', lo, hi', p);
      assert BlockOk(bs', lo, hi', p);
    }
  }

  /** Headers that agree with a row everywhere are read as that row. */
  lemma {:induction false} RowUnique(m: Memory, bs: Blocks, lo: int, hi: int, m': Memory, bs': Blocks, hi': int)
    requires Tiles(bs, lo, hi) && Headers(m, bs, lo) && Tiles(bs', lo, hi') && Headers(m', bs', lo)
    requires forall c :: c in bs ==> Rd(m', c) == Rd(m, c)
    ensures SameRow(bs, bs') && hi == hi'
  {
    hide Headers;
    forall a | a in bs ensures a in bs' && bs[a].size == bs'[a].size && bs[a].free == bs'[a].free {
      RowLeadsTo(m, bs, lo, hi, m', bs', hi', a);
      HeaderBits(m, bs, lo, hi, a);
      HeaderBits(m', bs', lo, hi', a);
    }
    assert BlockOk(bs, lo, hi, hi) && BlockOk(bs', lo, hi', hi);
    forall a | a in bs' ensures a in bs { RowHasNoMore(bs, lo, hi, bs', a); }
  }

  lemma {:induction false} RowHasNoMore(bs: Blocks, lo: int, hi: int, bs': Blocks, a: int)
    requires Tiles(bs, lo, hi) && Tiles(bs', lo, hi) && a in bs'
    requires forall c :: c in bs ==> c in bs' && bs[c].size == bs'[c].size
    ensures a in bs
    decreases a - lo
  {
    assert BlockOk(bs', lo, hi, a);
    if a != lo {
      var p := bs'[a].prev;
      assert BlockOk(bs', lo, hi, p) && p < a;
      RowHasNoMore(bs, lo, hi, bs', p);
      assert BlockOk(bs, lo, hi, p);
    }
  }

  /** One memory encodes one heap: the same end, the same blocks and the same list. */
  lemma {:induction false} ChainUnique(m: Memory, bs: Blocks, lo: int, hi: int, ns: seq<int>, bs': Blocks, hi': int, ns': seq<int>)
    requires Inv(m, bs, lo, hi, ns) && Inv(m, bs', lo, hi', ns')
    ensures hi == hi' && SameRow(bs, bs') && ns == ns'
  {
    RowUnique(m, bs, lo, hi, m, bs', hi');
    forall n | n in ns[1..] ensures n != 0 { assert NodeOk(m, bs, lo, hi, n); }
    forall n | n in ns'[1..] ensures n != 0 { assert NodeOk(m, bs', lo, hi', n); }
    ChainAgrees(m, ns, ns', |ns| - 1);
    ChainAgrees(m, ns', ns, |ns'| - 1);
    forall i | 0 <= i < |ns| ensures i < |ns'| && ns'[i] == ns[i] { ChainAgrees(m, ns, ns', i); }
  }

  // ---------- malloc_new_block: the trailing free block ----------

  /** The node that line 342 looks for: it trusts the word before the tail to be a footer. */
  function TrailingNode(m: Memory, hi: int): int {
    hi - MmSize(Rd(m, hi - 4)) + 4
  }

  /** The search of line 342 finds its node exactly when the trailing free block has
      more than 8 bytes.  (The heap is taken to start above its own size.) */
  lemma {:induction false} TrailingSearchEnds(m: Memory, bs: Blocks, lo: int, hi: int, ns: seq<int>)
    requires Inv(m, bs, lo, hi, ns) && PrevFree(bs, lo, hi) && hi - lo <= lo
    ensures TrailingNode(m, hi) in ns[1..] <==> bs[bs[hi].prev].size > 8
  {
    var p := bs[hi].prev;
    assert BlockOk(bs, lo, hi, hi);
    FooterBits(m, bs, lo, hi, ns, hi);
    if bs[p].size > 8 {
      assert bs[p].free;
    } else {
      assert BlockOk(bs, lo, hi, p);
      var i := FindNode(m, bs, lo, hi, ns, p);
      NodeRange(m, bs, lo, hi, ns, i);
      if i + 1 < |ns| { NodeRange(m, bs, lo, hi, ns, i + 1); }
      FlagBits(Rd(m, hi - 4), false, false, false);
      forall n | n in ns[1..] ensures n != TrailingNode(m, hi) { assert NodeOk(m, bs, lo, hi, n); }
    }
  }

  /** When mem_sbrk fails after line 342, the trailing free block is on no list any more: no heap
      whatsoever is encoded by the words left behind. */
  lemma {:induction false} FailedGrowthLosesBlock(m: Memory, bs: Blocks, lo: int, hi: int, ns: seq<int>,
                                                  bs': Blocks, hi': int, ns': seq<int>)
    requires Inv(m, bs, lo, hi, ns) && hi in bs && PrevFree(bs, lo, hi)
    requires |ns| >= 1 && bs[hi].prev + 4 in ns[1..] && ns[0] != bs[hi].prev + 4
    ensures !Inv(Unhooked(m, bs, lo, hi, ns), bs', lo, hi', ns')
  {
    var p := bs[hi].prev;
    var i, m' := IndexOf(ns, p + 4), Unhooked(m, bs, lo, hi, ns);
    NodeRange(m, bs, lo, hi, ns, i);
    if Inv(m', bs', lo, hi', ns') {
      UnhookedRow(m, bs, lo, hi, ns, bs', hi', ns');
      ChainDrop(m, ns, i);
      var ds := Drop(ns, i);
      forall n | n in ds[1..] ensures n != 0 { DropMembers(ns, i, n); assert NodeOk(m, bs, lo, hi, n); }
      forall n | n in ns'[1..] ensures n != 0 { assert NodeOk(m', bs', lo, hi', n); }
      assert bs'[p].free && p + 4 in ns'[1..];
      var k :| 1 <= k < |ns'| && ns'[k] == p + 4;
      ChainAgrees(m', ns', ds, k);
      DropMembers(ns, i, p + 4);
    }
  }

  /** Taking the node off the list has touched no header. */
  lemma {:induction false} UnhookedRow(m: Memory, bs: Blocks, lo: int, hi: int, ns: seq<int>,
                                       bs': Blocks, hi': int, ns': seq<int>)
    requires Inv(m, bs, lo, hi, ns) && hi in bs && PrevFree(bs, lo, hi)
    requires |ns| >= 1 && bs[hi].prev + 4 in ns[1..] && ns[0] != bs[hi].prev + 4
    requires Inv(Unhooked(m, bs, lo, hi, ns), bs', lo, hi', ns')
    ensures bs[hi].prev in bs' && bs'[bs[hi].prev].free
  {
    var p, m' := bs[hi].prev, Unhooked(m, bs, lo, hi, ns);
    forall c | c in bs ensures Rd(m', c) == Rd(m, c) {
      assert BlockOk(bs, lo, hi, c);
      HeaderNotNode(m, bs, lo, hi, ns, c);
    }
    RowUnique(m, bs, lo, hi, m', bs', hi');
    assert bs[p].free == bs'[p].free;
  }

  // ---------- mm_realloc: shrinking in place (lines 275-283) ----------

  /** The stores of the shrink branch, for a block `b` of `oldsize` bytes cut to `blksize`. */
  function ShrinkStores(m: Memory, b: int, blksize: int, oldsize: int): Memory {
    m[b := Rd(m, b) - blksize + oldsize]
     [b + blksize := oldsize - blksize]
     [b + oldsize - 4 := oldsize - blksize + 4]
  }

  /** What the branch reads and stores. */
  lemma {:induction false} ShrinkPlan(m: Memory, bs: Blocks, lo: int, hi: int, ns: seq<int>, b: int, blksize: int)
    requires Inv(m, bs, lo, hi, ns) && Live(bs, hi, b + 4) && 8 <= blksize < bs[b].size && blksize % 8 == 0
    requires hi - lo < 0x8000_0000
    ensures InRange(lo, hi, b) && InRange(lo, hi, b + blksize) && InRange(lo, hi, b + bs[b].size - 4)
    ensures 0 <= Rd(m, b) - blksize + bs[b].size < TWO_32
    ensures (bs[b].size - blksize) % 8 == 0 && 8 <= bs[b].size - blksize < ALL_ONES - 8
  {
    hide Chain, NoDup, Nodes, Covers;
    assert BlockOk(bs, lo, hi, b) && HeaderOk(m, bs, lo, b);
    HeaderRange(bs, lo, hi, b);
    OrderAt(bs, lo, hi, b, hi);
    DivMod8(bs[b].size - blksize, bs[b].size / 8 - blksize / 8, 0);
    DivMod8(b + blksize, b / 8 + blksize / 8, 4);
    DivMod8(b + bs[b].size, b / 8 + bs[b].size / 8, 4);
    AlignedBy4(b + blksize);
    AlignedBy4(b + bs[b].size);
  }

  /** `a` has the header and the footer of a free block of `k` bytes. */
  ghost predicate LooksFree(m: Memory, a: int, k: int) {
    && MmSize(Rd(m, a)) == k && !IsAlloc(Rd(m, a)) && !IsPfree(Rd(m, a))
    && MmSize(Rd(m, a + k - 4)) == k && IsValid(Rd(m, a + k - 4))
  }

  /** The payload that is kept and that of every other live block stay as they are; the bytes cut
      off look like a free block. */
  lemma {:induction false} ShrinkKeeps(m: Memory, bs: Blocks, lo: int, hi: int, ns: seq<int>, b: int, blksize: int)
    requires Inv(m, bs, lo, hi, ns) && Live(bs, hi, b + 4) && 8 <= blksize < bs[b].size && blksize % 8 == 0
    ensures var m' := ShrinkStores(m, b, blksize, bs[b].size);
            && SamePayload(m, m', b, blksize) && OthersSame(m, m', bs, hi, b + 4)
            && LooksFree(m', b + blksize, bs[b].size - blksize)
  {
    hide Headers, Chain, NoDup, Nodes, Covers, MmSize, IsAlloc, IsPfree, IsValid;
    assert BlockOk(bs, lo, hi, b);
    var k := bs[b].size - blksize;
    DivMod8(k, bs[b].size / 8 - blksize / 8, 0);
    FlagBits(k, false, false, false);
    FlagBits(k, true, false, false);
    var m' := ShrinkStores(m, b, blksize, bs[b].size);
    forall q | Live(bs, hi, q) && q != b + 4 ensures SamePayload(m, m', q - 4, bs[q - 4].size) {
      OrderAt(bs, lo, hi, b, q - 4);
    }
  }

  /** However the heap is read afterwards, the block at `b` claims more bytes than it ever had: it
      covers the header of the block that followed it, which is no block any more. */
  lemma {:induction false} ShrinkOverruns(m: Memory, bs: Blocks, lo: int, hi: int, ns: seq<int>, b: int, blksize: int,
                                          bs': Blocks, hi': int, ns': seq<int>)
    requires Inv(m, bs, lo, hi, ns) && b in bs && b != hi && !bs[b].free
    requires 8 <= blksize < bs[b].size && blksize % 8 == 0
    requires Inv(ShrinkStores(m, b, blksize, bs[b].size), bs', lo, hi', ns')
    ensures b in bs' && bs'[b].size == 2 * bs[b].size - blksize
    ensures b < Next(bs, b) < b + bs'[b].size && Next(bs, b) !in bs'
  {
    hide Chain, NoDup, Nodes, Covers;
    var m' := ShrinkStores(m, b, blksize, bs[b].size);
    assert BlockOk(bs, lo, hi, b);
    RowLeadsTo(m, bs, lo, hi, m', bs', hi', b);
    assert HeaderOk(m, bs, lo, b) && HeaderOk(m', bs', lo, b);
    assert BlockOk(bs', lo, hi', b);
    HeaderBits(m', bs', lo, hi', b);
    ShrunkHeader(bs, lo, b, blksize);
    if Next(bs, b) in bs' {
      OrderAt(bs', lo, hi', b, Next(bs, b));
    }
  }

  lemma {:induction false} ShrunkHeader(bs: Blocks, lo: int, b: int, blksize: int)
    requires b in bs && bs[b].size % 8 == 0 && blksize % 8 == 0 && !bs[b].free
    ensures MmSize(Hdr(bs, lo, b) - blksize + bs[b].size) == 2 * bs[b].size - blksize
  {
    var x := 2 * bs[b].size - blksize;
    DivMod8(x, 2 * (bs[b].size / 8) - blksize / 8, 0);
    FlagBits(x, false, PrevFree(bs, lo, b), true);
  }
}
