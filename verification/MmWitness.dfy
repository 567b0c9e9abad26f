/** Runs of the allocator, from its constructor on, that end where it stops keeping its promises. */
module MmWitness {
  import opened MmBlocks
  import opened MmWords
  import opened MmPlans
  import opened MmClient
  import opened MmLimits
  import Mm

  /** The row of a heap that holds one block. */
  function One(lo: int, k: int, free: bool): Blocks {
    map[lo := Block(k, free, 0), lo + k := Block(0, false, lo)]
  }

  lemma Sizes()
    ensures AlignRequest(4) == 8 && AlignRequest(12) == 16 && AlignRequest(20) == 24
  {
  }

  /** The first request of a fresh heap goes to its start. */
  lemma FirstBlock(lo: int, k: int, p: int, bs: Blocks, hi: int)
    requires k > 0 && Placed(map[lo := Block(0, false, 0)], lo, lo, k, p, bs, hi)
    ensures p == lo && hi == lo + k && bs == One(lo, k, false)
  {
    assert bs == (map[lo := Block(0, false, 0)] - {lo})[lo := Block(k, false, 0)][lo + k := Block(0, false, lo)];
  }

  /** Freeing the only block leaves one free block. */
  lemma FreedOne(lo: int, k: int)
    requires k > 0
    ensures Freeable(One(lo, k, false), lo, lo) && Freed(One(lo, k, false), lo, lo) == One(lo, k, true)
    ensures PrevFree(One(lo, k, true), lo, lo + k)
    ensures forall n :: FitsFree(One(lo, k, true), n) <==> n <= k
  {
    var bs := One(lo, k, true);
    assert bs[lo].free && bs[lo].size == k;
    assert Freed(One(lo, k, false), lo, lo) == bs;
  }

  /** A heap after one malloc and its free. */
  method MallocAndFree(base: int, maxHeap: int, size: int, k: int) returns (a: Mm.Allocator)
    requires base % 8 == 0 && TOP < base && base + maxHeap < ALL_ONES
    requires 8 + k <= maxHeap < 0x8000_0000 && maxHeap % 4 == 0
    requires 0 <= size && size + 11 < TWO_32 && k == AlignRequest(size) && k > 0
    ensures fresh(a) && fresh(a.words) && a.Valid() && a.base == base && a.maxHeap == maxHeap
    ensures a.hi == a.Lo() + k && a.bs == One(a.Lo(), k, true)
  {
    hide AlignRequest, Inv, Freed, Freeable;
    a := new Mm.Allocator(base, maxHeap);
    var lo := base + 4;
    EmptyRow(lo);
    var p := a.Malloc(size);
    FirstBlock(lo, k, p - 4, a.bs, a.hi);
    a.Free(p);
    FreedOne(lo, k);
  }

  lemma EmptyRow(lo: int)
    ensures var bs := map[lo := Block(0, false, 0)];
            !PrevFree(bs, lo, lo) && forall k :: !FitsFree(bs, k)
  {
  }

  /** malloc(4) and its free leave a trailing free block of 8 bytes; the next request that does not
      fit it starts a search for a node that is not on the list. */
  method ShortTail() returns (a: Mm.Allocator)
    ensures fresh(a) && a.Valid() && PrevFree(a.bs, a.Lo(), a.hi) && a.bs[a.bs[a.hi].prev].size == 8
    ensures !FitsFree(a.bs, AlignRequest(12)) && !a.Growable(AlignRequest(12))
    ensures TrailingNode(a.Mem(), a.hi) !in a.ns[1..]
  {
    Sizes();
    a := MallocAndFree(1024, 64, 4, 8);
    FreedOne(a.Lo(), 8);
    TrailingSearchEnds(a.Mem(), a.bs, a.Lo(), a.hi, a.ns);
  }

  /** With room for one block of 16 bytes: malloc(12), its free, and malloc(20), which fails.  After
      that the words are those of no heap. */
  method LostBlock() returns (a: Mm.Allocator, ptr: int)
    ensures fresh(a) && a.MemValid() && ptr == 0
    ensures forall bs: Blocks, hi: int, ns: seq<int> :: !Inv(a.Mem(), bs, a.Lo(), hi, ns)
  {
    hide Inv;
    Sizes();
    a := MallocAndFree(1024, 24, 12, 16);
    FreedOne(a.Lo(), 16);
    ptr := a.Malloc(20);
  }

  /** A heap of 20 megabytes near the end of the address space: for malloc(0x2000_0000), mem_sbrk
      accepts the increment and leaves the break below the heap. */
  method WrappedBreak() returns (a: Mm.Allocator, ok: bool)
    ensures fresh(a) && a.base == 0xF000_0000 && a.maxHeap == 0x140_0000 && ok
    ensures a.brk == a.base + 8 + AlignRequest(0x2000_0000) - TWO_32 < a.base
  {
    a := new Mm.Allocator(0xF000_0000, 0x140_0000);
    LargeRequest();
    assert a.brk == a.base + 8;
    ok := a.Sbrk(AlignRequest(0x2000_0000));
  }

  lemma LargeRequest()
    ensures AlignRequest(0x2000_0000) == 0x2000_0008
  {
  }

  /** malloc(12) and malloc(4) in a fresh heap: two neighbours. */
  method TwoBlocks() returns (a: Mm.Allocator, p: int, q: int)
    ensures fresh(a) && fresh(a.words) && a.Valid() && p != 0 && q != 0
    ensures Live(a.bs, a.hi, p) && a.bs[p - 4].size == 16 && Next(a.bs, p - 4) == q - 4
  {
    hide Inv;
    Sizes();
    a := new Mm.Allocator(1024, 64);
    var lo := a.Lo();
    EmptyRow(lo);
    p := a.Malloc(12);
    FirstBlock(lo, 16, p - 4, a.bs, a.hi);
    SecondBlock(lo);
    q := a.Malloc(4);
  }

  /** malloc(12), malloc(4), and realloc of the first block to 4 bytes: however the heap is read
      then, the second block is gone although its owner still holds it. */
  method SwallowedBlock() returns (a: Mm.Allocator, held: int)
    ensures fresh(a) && a.MemValid() && held != 0
    ensures forall bs: Blocks, hi: int, ns: seq<int> :: Inv(a.Mem(), bs, a.Lo(), hi, ns) ==> !Live(bs, hi, held)
  {
    hide Inv;
    Sizes();
    var p;
    a, p, held := TwoBlocks();
    var r := a.Realloc(p, 4);
  }

  lemma SecondBlock(lo: int)
    ensures var bs := One(lo, 16, false);
            !PrevFree(bs, lo, lo + 16) && forall k :: !FitsFree(bs, k)
  {
  }
}
