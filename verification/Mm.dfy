/** The explicit-free-list allocator (mm.c) over the simulated memory system (memlib.c).

    The heap is an array of 32-bit words; `Mem()` is the same memory indexed by byte address, and
    every load and store is checked to stay inside the heap (or to hit the global TOP).  The
    ghost fields hold the block row and the list walk that the words encode. */
module Mm {
  import opened DivMod
  import opened MmBlocks
  import opened MmWords
  import opened MmOps
  import opened MmPlans
  import opened MmClient
  import opened MmLimits

  type Word = w: int | 0 <= w < TWO_32

  class Allocator {
    // memlib.c: the simulated heap
    const base: int          // mem_start_brk
    const maxHeap: int       // MAX_HEAP
    const words: array<Word> // the memory behind it
    var brk: int             // mem_brk

    // mm.c: the globals
    var top: Word            // TOP, the head of the free list
    var prevNode: int        // prev_node
    var blockSize: int       // block_size

    // what the words encode
    ghost var bs: Blocks
    ghost var hi: int
    ghost var ns: seq<int>

    ghost predicate MemValid()
      reads `brk
    {
      && base % 8 == 0 && TOP < base
      && base + maxHeap < ALL_ONES
      && maxHeap == 4 * words.Length && maxHeap < 0x8000_0000
      && base <= brk <= base + maxHeap
    }

    /** The memory by byte address: TOP and every word the heap may ever reach. */
    ghost function Mem(): Memory
      requires MemValid()
      reads `brk, `top, words
    {
      map a | TOP <= a < base + maxHeap && (a == TOP || (base <= a && a % 4 == 0)) ::
        if a == TOP then top else words[(a - base) / 4]
    }

    ghost function Lo(): int { base + 4 }

    ghost predicate Valid()
      reads this, words
    {
      && MemValid()
      && brk == hi + 4
      && Inv(Mem(), bs, Lo(), hi, ns)
    }

    /** The observable state, as runs are stated over it. */
    ghost function State(): Heap
      requires MemValid()
      reads this, words
    {
      Heap(Mem(), bs, Lo(), hi, ns)
    }

    /** An address the allocator may load from or store to. */
    ghost predicate InMem(a: int)
      reads `brk
    {
      a == TOP || (base <= a < brk && a % 4 == 0)
    }

    method Load(a: int) returns (v: int)
      requires MemValid() && InMem(a)
      ensures v == Rd(Mem(), a)
      ensures 0 <= v < TWO_32
    {
      v := if a == TOP then top else words[(a - base) / 4];
    }

    method Store(a: int, v: Word)
      requires MemValid() && InMem(a)
      modifies `top, words
      ensures MemValid() && Mem() == old(Mem())[a := v]
    {
      ghost var before := Mem();
      if a == TOP {
        top := v;
      } else {
        WordIndex(base, a);
        words[(a - base) / 4] := v;
      }
      forall x | x in Mem() ensures Mem()[x] == before[a := v][x] {
        if x != TOP { WordIndex(base, x); }
      }
      assert Mem().Keys == before[a := v].Keys;
    }

    /** mem_sbrk: extends the heap, or fails and leaves it alone.  The sum in its test is one of
        32-bit addresses: when it wraps, the increment is accepted and the break ends up below the
        heap. */
    method Sbrk(incr: int) returns (ok: bool)
      requires MemValid() && -0x8000_0000 <= incr < 0x8000_0000
      modifies `brk
      ensures ok <==> incr >= 0 && (old(brk) + incr <= base + maxHeap || old(brk) + incr >= TWO_32)
      ensures !ok ==> brk == old(brk)
      ensures ok && old(brk) + incr < TWO_32 ==> brk == old(brk) + incr
      ensures old(brk) + incr < TWO_32 ==> MemValid() && Mem() == old(Mem())
      ensures old(brk) + incr >= TWO_32 ==> brk == old(brk) + incr - TWO_32 < base
    {
      var end := brk + incr;
      if end >= TWO_32 {
        end := end - TWO_32;
      }
      if incr < 0 || end > base + maxHeap {
        return false;
      }
      brk := end;
      ok := true;
    }

    /** mem_init and mm_init: an empty heap that holds only the tail block. */
    constructor (base: int, maxHeap: int)
      requires base % 8 == 0 && TOP < base && base + maxHeap < ALL_ONES
      requires 8 <= maxHeap < 0x8000_0000 && maxHeap % 4 == 0
      ensures Valid() && fresh(words)
      ensures this.base == base && this.maxHeap == maxHeap
      ensures bs == map[base + 4 := Block(0, false, 0)] && hi == base + 4 && ns == [TOP]
      ensures Run([State()], [])
    {
      this.base := base;
      this.maxHeap := maxHeap;
      words := new Word[maxHeap / 4];
      brk := base;
      blockSize := 0;
      prevNode := 0;
      bs := map[base + 4 := Block(0, false, 0)];
      hi := base + 4;
      ns := [TOP];
      new;
      hide Inv, Mem;
      var ok := Sbrk(8);
      assert base % 4 == 0 && (base + 4) % 4 == 0 && (base + 4) % 8 == 4 by { HeapStart(base); }
      Store(TOP, 0);
      Store(base + 4, HDR_ALLOC);
      EmptyHeap(Mem(), Lo());
    }

    // ---------- List helpers (lines 497-567) ----------

    /** node_find_prev: walks to the predecessor of `curr`, which is on the list. */
    method NodeFindPrev(curr: int, ghost j: nat) returns (prev: int)
      requires Valid() && 1 <= j < |ns| && ns[j] == curr
      ensures prev == ns[j - 1]
    {
      prev := TOP;
      NodesInMem(0);
      NodesInMem(1);
      var p := Load(TOP);
      ghost var k := 0;
      while p != curr
        invariant 0 <= k < j && prev == ns[k] && p == ns[k + 1] && InMem(p)
        decreases j - k
      {
        NodesInMem(k + 1);
        NodesInMem(k + 2);
        prev := p;
        p := Load(p);
        k := k + 1;
      }
    }

    /** node_delete: `*prev = *curr`. */
    method NodeDelete(prev: int, curr: int)
      requires MemValid() && InMem(prev) && InMem(curr)
      modifies `top, words
      ensures MemValid() && Mem() == old(Mem())[prev := Rd(old(Mem()), curr)]
    {
      var link := Load(curr);
      Store(prev, link);
    }

    /** node_insert, and node_top with `prev` being the address of TOP. */
    method NodeInsert(prev: int, node: int)
      requires MemValid() && InMem(prev) && InMem(node) && 0 <= node
      modifies `top, words
      ensures MemValid() && Mem() == old(Mem())[node := Rd(old(Mem()), prev)][prev := node]
    {
      var link := Load(prev);
      Store(node, link);
      Store(prev, node);
    }

    /** node_replace: `dst` takes the place of `src`. */
    method NodeReplace(prev: int, src: int, dst: int)
      requires MemValid() && InMem(prev) && InMem(src) && InMem(dst) && 0 <= dst
      modifies `top, words
      ensures MemValid()
      ensures Mem() == old(Mem())[prev := dst][dst := Rd(old(Mem())[prev := dst], src)]
    {
      Store(prev, dst);
      var link := Load(src);
      Store(dst, link);
    }

    /** The addresses of list nodes and of their headers are inside the heap. */
    lemma {:induction false} NodesInMem(i: int)
      requires Valid() && 0 <= i < |ns|
      ensures InMem(ns[i]) && Rd(Mem(), ns[i]) == After(ns, i)
      ensures i > 0 ==> InMem(ns[i] - 4) && ns[i] != 0
    {
      NodeRange(Mem(), bs, Lo(), hi, ns, i);
      assert base == Lo() - 4;
    }

    // ---------- get_target_block (lines 429-467) ----------

    /** Lines 446-447: `node_delete(prev, curr)` and the step to the next node. */
    method Unlink(ghost ns0: seq<int>, ghost blocksize: int, prev: int, curr: int, ghost c: Cursor) returns (next: int)
      requires Valid() && Walked(Mem(), bs, Lo(), hi, ns, ns0, blocksize, c)
      requires prev == c.prev && curr == c.curr && curr != 0 && Rd(Mem(), curr - 4) == ALL_ONES
      modifies `top, words, `ns
      ensures Valid() && Walked(Mem(), bs, Lo(), hi, ns, ns0, blocksize, c.(curr := next))
      ensures |ns| == |old(ns)| - 1
      ensures KeepsPayloads(old(Mem()), Mem(), bs, bs)
    {
      hide Inv, Walked, LiveNodes, KeepsPayloads, Mem;
      WalkNext(Mem(), bs, Lo(), hi, ns, ns0, blocksize, c);
      WalkUnlink(Mem(), bs, Lo(), hi, ns, ns0, blocksize, c);
      NodeDelete(prev, curr);
      next := Load(curr);
      ns := Drop(ns, c.k + 1);
    }

    /** Removes every tombstone and picks the best fit; 0 stands for NULL. */
    method GetTargetBlock(blocksize: int) returns (dest: int, ghost d: int)
      requires Valid()
      modifies `top, words, `ns, `prevNode, `blockSize
      ensures Valid() && KeepsPayloads(old(Mem()), Mem(), bs, bs)
      ensures NoTombstones(bs, ns) && ns == LiveNodes(bs, old(ns))
      ensures BestFit(bs, blocksize, dest) && BestSoFar(bs, ns, |ns| - 1, blocksize, dest, d)
      ensures dest != 0 ==> 1 <= d < |ns| && ns[d] == dest + 4 && prevNode == ns[d - 1] && blockSize == bs[dest].size
    {
      hide Inv, Walked, LiveNodes, KeepsPayloads, Mem, BestSoFar, BestFit, NoTombstones;
      ghost var ns0, m0 := ns, Mem();
      KeepsPayloadsRefl(m0, bs);
      var min := ALL_ONES;
      dest, d := 0, 0;
      var prev := TOP;
      var curr := Load(TOP);
      ghost var c := Cursor(0, prev, curr, 0, 0, min, prevNode, blockSize);
      WalkStart(m0, bs, Lo(), hi, ns, blocksize, c);
      while curr != 0
        invariant Valid() && Walked(Mem(), bs, Lo(), hi, ns, ns0, blocksize, c)
        invariant prev == c.prev && curr == c.curr && dest == c.dest && d == c.d && min == c.min
        invariant prevNode == c.prevNode && blockSize == c.blockSize
        invariant KeepsPayloads(m0, Mem(), bs, bs)
        invariant c.k < |ns|
        decreases |ns| - c.k
      {
        WalkNext(Mem(), bs, Lo(), hi, ns, ns0, blocksize, c);
        var hele := Load(curr - 4);
        ghost var k, len := c.k, |ns|;
        while hele == ALL_ONES
          invariant Valid() && Walked(Mem(), bs, Lo(), hi, ns, ns0, blocksize, c)
          invariant prev == c.prev && curr == c.curr && dest == c.dest && d == c.d && min == c.min
          invariant prevNode == c.prevNode && blockSize == c.blockSize
          invariant KeepsPayloads(m0, Mem(), bs, bs)
          invariant curr != 0 && InMem(curr - 4) && hele == Rd(Mem(), curr - 4)
          invariant |ns| <= len && c.k == k
          decreases |ns|
        {
          ghost var m := Mem();
          curr := Unlink(ns0, blocksize, prev, curr, c);
          c := c.(curr := curr);
          KeepsPayloadsTrans(m0, m, Mem(), bs, hi, bs);
          if curr == 0 {
            WalkEnd(Mem(), bs, Lo(), hi, ns, ns0, blocksize, c);
            return;
          }
          WalkNext(Mem(), bs, Lo(), hi, ns, ns0, blocksize, c);
          hele := Load(curr - 4);
        }
        WalkNext(Mem(), bs, Lo(), hi, ns, ns0, blocksize, c);
        WalkAdvance(Mem(), bs, Lo(), hi, ns, ns0, blocksize, c);
        var size := MmSize(hele);
        if size >= blocksize && size < min {
          dest := curr - 4;
          d := c.k + 1;
          min := size;
          prevNode := prev;
          blockSize := size;
        }
        prev := curr;
        curr := Load(curr);
        c := Cursor(c.k + 1, prev, curr, dest, d, min, prevNode, blockSize);
      }
      WalkEnd(Mem(), bs, Lo(), hi, ns, ns0, blocksize, c);
    }

    // ---------- Headers, footers and list searches ----------

    /** set_header: the size and the flag share the word without overlap. */
    method SetHeader(header: int, size: int, flag: int)
      requires MemValid() && InMem(header) && size % 8 == 0 && 0 <= size < ALL_ONES - 8 && 0 <= flag < 8
      modifies `top, words
      ensures MemValid() && Mem() == old(Mem())[header := size + flag]
    {
      Store(header, size + flag);
    }

    /** set_footer: repeats the header of a free block, which has no flag set, at its end. */
    method SetFooter(header: int, size: int)
      requires MemValid() && InMem(header) && InMem(header + size - 4)
      requires Rd(Mem(), header) == size && 0 <= size < ALL_ONES - 8
      modifies `top, words
      ensures MemValid() && Mem() == old(Mem())[header + size - 4 := size + FTR_VALID]
    {
      var hele := Load(header);
      Store(header + size - 4, hele + FTR_VALID);
    }

    // ---------- free_coalesce and mm_free (lines 245-251 and 360-420) ----------

    /** Lines 388-405: the list when the next block `nh` is free. */
    method Relink(ptr: int, nh: int, nsize: int, isnotmerged: bool)
      requires Valid() && ptr - 4 in bs && ptr - 4 != hi && !bs[ptr - 4].free
      requires FreeListable(bs, ptr - 4, ns) && nh == Next(bs, ptr - 4)
      requires bs[nh].free && nsize == bs[nh].size && (isnotmerged <==> !PrevFree(bs, Lo(), ptr - 4))
      requires InMem(ptr) && InMem(nh) && InMem(nh + 4) && 0 <= ptr
      modifies `top, words
      ensures MemValid() && Mem() == Relinked(old(Mem()), bs, Lo(), ptr - 4, ns)
    {
      hide Inv, Mem;
      var next := nh + 4;
      ghost var j := IndexOf(ns, next);
      NodeRange(Mem(), bs, Lo(), hi, ns, j - 1);
      if isnotmerged {
        if nsize > 8 {
          NodeInsert(next, ptr);
          Store(nh, ALL_ONES);
        } else {
          var prev := NodeFindPrev(next, j);
          NodeReplace(prev, next, ptr);
        }
      } else {
        var prev := NodeFindPrev(next, j);
        NodeDelete(prev, next);
      }
    }

    /** Lines 371-375: the size of the free block before the header `p`, from its footer or,
        when the list node has overwritten that, from its header 8 bytes back. */
    method PrevSize(p: int) returns (size: int)
      requires Valid() && p in bs && PrevFree(bs, Lo(), p) && InMem(p - 4) && InMem(p - 8)
      ensures size == bs[bs[p].prev].size
    {
      hide Mem, MmSize, IsValid;
      FooterBits(Mem(), bs, Lo(), hi, ns, p);
      var ftr := Load(p - 4);
      if !IsValid(ftr) {
        ftr := Load(p - 8);
      }
      size := MmSize(ftr);
    }

    /** Coalesces and reports whether the block still has to go to the top of the list. */
    method FreeCoalesce(ptr: int) returns (isnotmerged: bool)
      requires Valid() && ptr - 4 in bs && ptr - 4 != hi && !bs[ptr - 4].free
      modifies `top, words, `bs, `ns
      ensures Freeable(old(bs), Lo(), ptr - 4) && FreeListable(old(bs), ptr - 4, old(ns))
      ensures isnotmerged <==> !PrevFree(old(bs), Lo(), ptr - 4) && !old(bs)[Next(old(bs), ptr - 4)].free
      ensures isnotmerged ==>
        && MemValid() && bs == old(bs) && ns == old(ns)
        && Mem() == Sealed(old(Mem()), bs, ptr - 4, Next(bs, ptr - 4))
      ensures !isnotmerged ==>
        && Valid() && bs == Freed(old(bs), Lo(), ptr - 4)
        && ns == FreedList(old(bs), Lo(), ptr - 4, old(ns))
        && KeepsPayloads(old(Mem()), Mem(), old(bs), bs)
    {
      hide Inv, Mem, KeepsPayloads, MmSize, IsAlloc, IsPfree, IsValid, Freed, FreedList, NodeOk, IndexOf;
      ghost var b, m, s := ptr - 4, Mem(), FreedStart(bs, Lo(), ptr - 4);
      FreePlanBack(m, bs, Lo(), hi, ns, b);
      FreePlanAhead(m, bs, Lo(), hi, ns, b);
      var p := ptr - 4;
      var hele := Load(p);
      var blksize := MmSize(hele);
      isnotmerged := true;
      if IsPfree(hele) {
        var prevSize := PrevSize(p);
        blksize := blksize + prevSize;
        p := p - prevSize;
        isnotmerged := false;
      }
      assert p == s && p + blksize == Next(bs, b);
      var nh := p + blksize;
      var nhele := Load(nh);
      if !IsAlloc(nhele) {
        Relink(ptr, nh, MmSize(nhele), isnotmerged);
        blksize := blksize + MmSize(nhele);
        isnotmerged := false;
      }
      assert Mem() == Relinked(m, bs, Lo(), b, ns) && p + blksize == FreedEnd(bs, b);
      if isnotmerged {
        FreeAlone(m, bs, Lo(), hi, ns, b);
      } else {
        FreeMerged(m, bs, Lo(), hi, ns, b);
      }
      Seal(p, blksize, m, b);
      if !isnotmerged {
        ns := FreedList(bs, Lo(), b, ns);
        bs := Freed(bs, Lo(), b);
      }
    }

    /** Lines 412-417: header and footer of the merged block, and the PFREE bit of the next. */
    method Seal(p: int, blksize: int, ghost m: Memory, ghost b: int)
      requires MemValid() && brk == hi + 4 && Inv(m, bs, Lo(), hi, ns)
      requires b in bs && b != hi && !bs[b].free && Freeable(bs, Lo(), b)
      requires p == FreedStart(bs, Lo(), b) && p + blksize == FreedEnd(bs, b)
      requires SealReads(m, Mem(), bs, p, p + blksize)
      modifies `top, words
      ensures MemValid() && Mem() == Sealed(old(Mem()), bs, p, p + blksize)
    {
      hide Mem, MmSize;
      FreePlanSeal(m, bs, Lo(), hi, b);
      SetHeader(p, blksize, 0);
      SetFooter(p, blksize);
      var np := p + blksize;
      var nphele := Load(np);
      SetHeader(np, MmSize(nphele), HDR_PFREE + HDR_ALLOC);
    }

    /** mm_free of a live pointer. */
    method Free(ptr: int)
      requires Valid() && ptr - 4 in bs && ptr - 4 != hi && !bs[ptr - 4].free
      modifies `top, words, `bs, `ns
      ensures Valid() && hi == old(hi)
      ensures Freeable(old(bs), Lo(), ptr - 4) && bs == Freed(old(bs), Lo(), ptr - 4)
      ensures FreeListable(old(bs), ptr - 4, old(ns)) && ns == FreedList(old(bs), Lo(), ptr - 4, old(ns))
      ensures Step(old(State()), Op.Free(ptr), State())
    {
      hide Inv, Mem, KeepsPayloads, Released, FreedList;
      ghost var m, bs0, ns0 := Mem(), bs, ns;
      FreePlanBack(m, bs, Lo(), hi, ns, ptr - 4);
      FreePlanAhead(m, bs, Lo(), hi, ns, ptr - 4);
      var isnotmerged := FreeCoalesce(ptr);
      if isnotmerged {
        FreeAloneList(m, bs, Lo(), hi, ns, ptr - 4);
        NodeInsert(TOP, ptr);
        ns := FreedList(bs, Lo(), ptr - 4, ns);
        bs := Freed(bs, Lo(), ptr - 4);
      }
      FreedReleases(m, Mem(), bs0, Lo(), hi, ns0, ptr - 4);
    }

    // ---------- mm_malloc (lines 232-240 and 299-353) ----------

    /** Lines 312-314: header and footer of the remainder, which takes the block's place in the list. */
    method KeepRemainder(p: int, nh: int, surplus: int)
      requires MemValid() && InMem(nh) && InMem(nh + surplus - 4) && InMem(prevNode) && InMem(p + 4) && InMem(nh + 4)
      requires 0 <= nh && surplus % 8 == 0 && 0 <= surplus < ALL_ONES - 8
      modifies `top, words
      ensures MemValid()
      ensures var m := old(Mem())[nh := surplus][nh + surplus - 4 := surplus + FTR_VALID][prevNode := nh + 4];
              Mem() == m[nh + 4 := Rd(m, p + 4)]
    {
      hide Mem;
      SetHeader(nh, surplus, 0);
      SetFooter(nh, surplus);
      NodeReplace(prevNode, p + 4, nh + 4);
    }

    /** Lines 304-319: the block that get_target_block found gives up its first part, or all. */
    method CarveTarget(p: int, blocksize: int, ghost d: int)
      requires Valid() && 8 <= blocksize && blocksize % 8 == 0 && NoTombstones(bs, ns)
      requires p != 0 && BestFit(bs, blocksize, p)
      requires 1 <= d < |ns| && ns[d] == p + 4 && prevNode == ns[d - 1] && p in bs && blockSize == bs[p].size
      modifies `top, words, `bs, `ns
      ensures Valid() && NoTombstones(bs, ns)
      ensures 0 < p && Carvable(old(bs), p) && bs == Carve(old(bs), p, blocksize)
      ensures KeepsPayloads(old(Mem()), Mem(), old(bs), bs)
    {
      hide Inv, Mem, KeepsPayloads, NoTombstones, BestFit, Carve, CarvedList, ClearPfree;
      ghost var m := Mem();
      CarvePlan(m, bs, Lo(), hi, ns, blocksize, p, d);
      CarvedInv(m, bs, Lo(), hi, ns, blocksize, p, d);
      var surplus := blockSize - blocksize;
      SetHeader(p, blocksize, HDR_ALLOC);
      var nh := p + blocksize;
      if surplus != 0 {
        KeepRemainder(p, nh, surplus);
      } else {
        var nhele := Load(nh);
        Store(nh, ClearPfree(nhele));
        NodeDelete(prevNode, p + 4);
      }
      assert Mem() == Carved(m, bs, ns, blocksize, p, d);
      ns := CarvedList(bs, ns, blocksize, p, d);
      bs := Carve(bs, p, blocksize);
    }

    /** Carves a best-fitting free block, or returns 0 when none is big enough. */
    method MallocExisting(blocksize: int) returns (ptr: int)
      requires Valid() && 8 <= blocksize && blocksize % 8 == 0
      modifies `top, words, `bs, `ns, `prevNode, `blockSize
      ensures Valid() && NoTombstones(bs, ns)
      ensures ptr == 0 ==> bs == old(bs) && BestFit(bs, blocksize, 0)
      ensures ptr != 0 ==>
        && 0 < ptr - 4 && BestFit(old(bs), blocksize, ptr - 4)
        && Carvable(old(bs), ptr - 4) && bs == Carve(old(bs), ptr - 4, blocksize)
      ensures KeepsPayloads(old(Mem()), Mem(), old(bs), bs)
    {
      hide Inv, Mem, KeepsPayloads, LiveNodes, NoTombstones, BestSoFar, Carve, Carvable;
      ghost var m0 := Mem();
      ghost var d;
      var p;
      p, d := GetTargetBlock(blocksize);
      if p == 0 {
        return 0;
      }
      ghost var m := Mem();
      CarveTarget(p, blocksize, d);
      KeepsPayloadsTrans(m0, m, Mem(), old(bs), hi, bs);
      ptr := p + 4;
    }

    /** For a block of `k` bytes at the end of the heap, the sum in mem_sbrk wraps around; an
        increment of 2^31 or more is negative as an int and refused before that. */
    ghost predicate Wraps(k: int)
      reads this
    {
      hi in bs && GrowthNeed(bs, Lo(), hi, k) < 0x8000_0000 && brk + GrowthNeed(bs, Lo(), hi, k) >= TWO_32
    }

    /** It never does in a heap that ends 2^31 bytes or more below the end of the address space. */
    lemma NeverWraps(k: int)
      requires MemValid() && base + maxHeap + 0x8000_0000 <= TWO_32
      ensures !Wraps(k)
    {
    }

    /** What malloc_new_block needs from its caller: it reads the footer of a trailing free block
        with no fallback, so such a block must have more than 8 bytes; and it trusts mem_sbrk. */
    ghost predicate Growable(k: int)
      reads this
    {
      hi in bs && (PrevFree(bs, Lo(), hi) ==> bs[bs[hi].prev].size > 8) && !Wraps(k)
    }

    /** mem_sbrk refuses what a block of `k` bytes at the end of the heap needs. */
    ghost predicate Refused(k: int)
      reads this
    {
      hi in bs && brk + GrowthNeed(bs, Lo(), hi, k) > base + maxHeap
    }

    /** malloc_new_block takes a trailing free block off the list before it asks for memory; when
        the memory is refused, that block is lost. */
    ghost predicate Loses(k: int)
      reads this
    {
      Refused(k) && PrevFree(bs, Lo(), hi)
    }

    /** Lines 339-342: the size of the trailing free block, which leaves the list. */
    method ReclaimTrailing(p: int) returns (pbsize: int)
      requires Valid() && p == hi && hi in bs && PrevFree(bs, Lo(), hi) && bs[bs[hi].prev].size > 8
      requires |ns| >= 1 && bs[hi].prev + 4 in ns[1..] && ns[0] != bs[hi].prev + 4
      requires InMem(hi - 4) && InMem(bs[hi].prev + 4) && Next(bs, bs[hi].prev) == hi
      modifies `top, words
      ensures MemValid() && pbsize == bs[bs[hi].prev].size
      ensures Mem() == Unhooked(old(Mem()), bs, Lo(), hi, ns)
    {
      hide Inv, Mem, MmSize, IsValid;
      FooterBits(Mem(), bs, Lo(), hi, ns, hi);
      var ftr := Load(p - 4);
      pbsize := MmSize(ftr);
      ghost var j := IndexOf(ns, p - pbsize + 4);
      NodeRange(Mem(), bs, Lo(), hi, ns, j - 1);
      var prev := NodeFindPrev(p - pbsize + 4, j);
      NodeDelete(prev, p - pbsize + 4);
    }

    /** Lines 349-350: the new block and the new tail behind it. */
    method PlaceAtEnd(p: int, blocksize: int, ghost m: Memory)
      requires MemValid() && Inv(m, bs, Lo(), hi, ns) && NoTombstones(bs, ns)
      requires 8 <= blocksize && blocksize % 8 == 0 && blocksize < TWO_32 && BestFit(bs, blocksize, 0)
      requires hi in bs && p == GrowthStart(bs, Lo(), hi) && brk == p + blocksize + 4
      requires |ns| >= 1 && (PrevFree(bs, Lo(), hi) ==> bs[hi].prev + 4 in ns[1..] && ns[0] != bs[hi].prev + 4)
      requires Mem() == Unhooked(m, bs, Lo(), hi, ns)
      modifies `top, words, `bs, `ns, `hi
      ensures Valid() && NoTombstones(bs, ns)
      ensures p in old(bs) && hi == p + blocksize && bs == Grow(old(bs), old(hi), p, blocksize)
      ensures KeepsPayloads(m, Mem(), old(bs - {hi}), bs)
    {
      hide Inv, Mem, KeepsPayloads, NoTombstones, BestFit, Grow, GrownList, Unhooked;
      GrowPlan(m, bs, Lo(), hi, ns, blocksize);
      GrownInv(m, bs, Lo(), hi, ns, blocksize);
      SetHeader(p, blocksize, HDR_ALLOC);
      SetHeader(p + blocksize, 0, HDR_ALLOC);
      ns := GrownList(bs, Lo(), hi, ns);
      bs := Grow(bs, hi, p, blocksize);
      hi := p + blocksize;
    }

    /** Extends the heap by a block, starting at the trailing free block if there is one; returns
        0 when mem_sbrk fails. */
    method MallocNew(blocksize: int) returns (ptr: int)
      requires Valid() && NoTombstones(bs, ns) && 8 <= blocksize && blocksize % 8 == 0 && blocksize < TWO_32
      requires BestFit(bs, blocksize, 0) && Growable(blocksize)
      modifies `top, words, `brk, `bs, `ns, `hi
      ensures MemValid() && (ptr == 0 <==> old(Refused(blocksize)))
      ensures ptr == 0 ==> bs == old(bs) && hi == old(hi) && ns == old(ns) && brk == old(brk)
      ensures ptr == 0 ==>
        Mem() == if PrevFree(bs, Lo(), hi) then Unhooked(old(Mem()), bs, Lo(), hi, ns) else old(Mem())
      ensures ptr != 0 ==>
        && Valid() && NoTombstones(bs, ns)
        && ptr - 4 == GrowthStart(old(bs), Lo(), old(hi)) && ptr - 4 in old(bs)
        && hi == ptr - 4 + blocksize && bs == Grow(old(bs), old(hi), ptr - 4, blocksize)
        && brk - old(brk) == blocksize - (if PrevFree(old(bs), Lo(), old(hi)) then old(bs)[old(bs)[old(hi)].prev].size else 0)
        && KeepsPayloads(old(Mem()), Mem(), old(bs - {hi}), bs)
    {
      hide Inv, Mem, KeepsPayloads, NoTombstones, BestFit, IsPfree, MmSize, Grow;
      ghost var m := Mem();
      GrowPlan(m, bs, Lo(), hi, ns, blocksize);
      var p := brk - 4;
      var require := blocksize;
      var last := Load(p);
      if IsPfree(last) {
        var pbsize := ReclaimTrailing(p);
        require := require - pbsize;
        p := p - pbsize;
      }
      var ok := Sbrk(if require < 0x8000_0000 then require else require - TWO_32);
      ptr := 0;
      if ok {
        PlaceAtEnd(p, blocksize, m);
        ptr := p + 4;
      }
    }

    /** mm_malloc: exactly one new live block, with room for the request, and every other live
        block untouched; 0 exactly when no free block fits and the heap cannot grow.  The heap
        stays valid unless a trailing free block is lost in that last case, and then no reading
        of it is valid. */
    method Malloc(size: int) returns (ptr: int)
      requires Valid() && 0 <= size && size + 11 < TWO_32
      requires FitsFree(bs, AlignRequest(size)) || Growable(AlignRequest(size))
      modifies `top, words, `brk, `bs, `ns, `hi, `prevNode, `blockSize
      ensures ptr == 0 <==> !FitsFree(old(bs), AlignRequest(size)) && old(Refused(AlignRequest(size)))
      ensures MemValid() && (Valid() <==> ptr != 0 || !old(Loses(AlignRequest(size))))
      ensures Valid() ==>
        && NoTombstones(bs, ns)
        && Step(old(State()), if ptr != 0 then Op.Malloc(size, ptr) else MallocFails(size), State())
      ensures !Valid() ==> forall bs': Blocks, hi': int, ns': seq<int> :: !Inv(Mem(), bs', Lo(), hi', ns')
      ensures ptr != 0 ==> Placed(old(bs), Lo(), old(hi), AlignRequest(size), ptr - 4, bs, hi)
      ensures ptr == 0 ==> bs == old(bs) && hi == old(hi) && brk == old(brk)
    {
      hide Inv, Mem, KeepsPayloads, Allocated, Grow, Carve, NoTombstones, AlignRequest, FitsFree, Unhooked;
      AlignRequestFits(size);
      ghost var m0, bs0, hi0, ns0 := Mem(), bs, hi, ns;
      var blksize := AlignRequest(size);
      ptr := MallocExisting(blksize);
      if ptr != 0 {
        BestFitFits(bs0, blksize, ptr - 4);
        CarveAllocates(m0, Mem(), bs0, Lo(), hi0, ns0, ptr - 4, blksize, size);
        return;
      }
      BestFitFits(bs0, blksize, 0);
      ghost var m1, ns1 := Mem(), ns;
      GrowPlan(m1, bs, Lo(), hi, ns, blksize);
      ptr := MallocNew(blksize);
      if ptr != 0 {
        KeepsPayloadsTrans(m0, m1, Mem(), bs0, hi0, bs);
        GrowAllocates(m0, Mem(), bs0, Lo(), hi0, ns0, ptr - 4, blksize, size);
      } else if PrevFree(bs, Lo(), hi) {
        forall bs': Blocks, hi': int, ns': seq<int> ensures !Inv(Mem(), bs', Lo(), hi', ns') {
          FailedGrowthLosesBlock(m1, bs0, Lo(), hi0, ns1, bs', hi', ns');
        }
      }
    }

    /** The owner of a live block stores a word of its payload. */
    method WritePayload(ptr: int, at: int, v: Word)
      requires Valid() && Live(bs, hi, ptr) && ptr <= at < ptr + Room(bs, ptr) && at % 4 == 0
      modifies `top, words
      ensures Valid() && Mem() == old(Mem())[at := v]
      ensures Step(old(State()), Write(ptr, at, v), State())
    {
      hide Mem;
      HeaderRange(bs, Lo(), hi, ptr - 4);
      PayloadWrite(Mem(), bs, Lo(), hi, ns, ptr - 4, at, v);
      Store(at, v);
    }

    // ---------- mm_realloc (lines 259-288) ----------

    /** memcpy of whole words from one live block into another. */
    method CopyWords(dst: int, src: int, n: int)
      requires Valid() && Live(bs, hi, dst) && Live(bs, hi, src) && dst != src
      requires 0 <= n && n % 4 == 0 && n <= Room(bs, dst) && n <= Room(bs, src)
      modifies `top, words
      ensures Valid()
      ensures Copied(old(Mem()), Mem(), dst, src, n) && OthersSame(old(Mem()), Mem(), bs, hi, dst)
    {
      hide Mem, Inv, Copied, OthersSame, Tiles;
      ghost var m := Mem();
      CopyStart(m, bs, hi, dst, src);
      var i := 0;
      while i < n
        invariant 0 <= i <= n && i % 4 == 0 && Valid()
        invariant Copied(m, Mem(), dst, src, i) && OthersSame(m, Mem(), bs, hi, dst)
      {
        StepOf4(i, n);
        PayloadAddress(Mem(), bs, Lo(), hi, ns, src, i);
        PayloadAddress(Mem(), bs, Lo(), hi, ns, dst, i);
        CopyStep(m, Mem(), bs, Lo(), hi, ns, dst, src, i);
        var v := Load(src + i);
        WritePayload(dst, dst + i, v);
        i := i + 4;
      }
    }

    /** The shrink branch, lines 276-282. */
    method ShrinkInPlace(hp: int, blksize: int, hele: int, oldsize: int)
      requires Valid() && Live(bs, hi, hp + 4) && oldsize == bs[hp].size && hele == Rd(Mem(), hp)
      requires 8 <= blksize < oldsize && blksize % 8 == 0
      modifies `top, words
      ensures MemValid() && Mem() == ShrinkStores(old(Mem()), hp, blksize, oldsize)
      ensures forall bs': Blocks, hi': int, ns': seq<int> :: Inv(Mem(), bs', Lo(), hi', ns') ==>
                hp in bs' && bs'[hp].size == 2 * bs[hp].size - blksize && Next(bs, hp) !in bs'
      ensures SamePayload(old(Mem()), Mem(), hp, blksize) && OthersSame(old(Mem()), Mem(), bs, hi, hp + 4)
      ensures LooksFree(Mem(), hp + blksize, oldsize - blksize)
    {
      hide Inv, Mem, SamePayload, OthersSame, LooksFree;
      ghost var m := Mem();
      ShrinkPlan(m, bs, Lo(), hi, ns, hp, blksize);
      ShrinkKeeps(m, bs, Lo(), hi, ns, hp, blksize);
      Store(hp, hele - blksize + oldsize);
      SetHeader(hp + blksize, oldsize - blksize, 0);
      SetFooter(hp + blksize, oldsize - blksize);
      forall bs': Blocks, hi': int, ns': seq<int> | Inv(Mem(), bs', Lo(), hi', ns')
        ensures hp in bs' && bs'[hp].size == 2 * bs[hp].size - blksize && Next(bs, hp) !in bs'
      {
        ShrinkOverruns(m, bs, Lo(), hi, ns, hp, blksize, bs', hi', ns');
      }
    }

    /** The growth branch, lines 284-287. */
    method MoveTo(ptr: int, size: int, oldsize: int) returns (nptr: int)
      requires Valid() && 0 <= size && size + 11 < TWO_32 && Live(bs, hi, ptr)
      requires oldsize == bs[ptr - 4].size < AlignRequest(size)
      requires FitsFree(bs, AlignRequest(size)) || (Growable(AlignRequest(size)) && !Refused(AlignRequest(size)))
      modifies `top, words, `brk, `bs, `ns, `hi, `prevNode, `blockSize
      ensures Valid() && Moved(old(Mem()), old(bs), old(hi), Mem(), bs, hi, size, ptr, nptr)
    {
      hide Mem, Inv, Allocated, Released, Moved, Copied, OthersSame, AlignRequest, FitsFree, KeepsPayloads, Growable;
      hide Refused, Placed, NoTombstones;
      ghost var m0, bs0, hi0 := Mem(), bs, hi;
      LiveHeader(m0, bs, Lo(), hi, ns, ptr);
      BiggerRequest(size, oldsize);
      nptr := Malloc(size);
      ghost var m1, bs1, hi1 := Mem(), bs, hi;
      StillLive(m0, bs0, hi0, m1, bs1, hi1, size, ptr, nptr);
      CopyWords(nptr, ptr, oldsize - 4);
      ghost var m2 := Mem();
      Free(ptr);
      MovedBy(m0, bs0, hi0, m1, bs1, hi1, m2, Mem(), bs, hi, size, ptr, nptr);
    }

    /** mm_realloc: a larger request moves to a new block that starts with the old bytes, and the
        old block is freed; an equal block size keeps the pointer; a smaller one keeps the pointer,
        the bytes asked for and every other payload, but leaves a heap that can only be read as one
        whose block has grown over the next. */
    method Realloc(ptr: int, size: int) returns (nptr: int)
      requires Valid() && 0 <= size && size + 11 < TWO_32
      requires ptr != 0 ==> Live(bs, hi, ptr)
      requires ptr == 0 ==> FitsFree(bs, AlignRequest(size)) || Growable(AlignRequest(size))
      requires ptr != 0 && size != 0 && bs[ptr - 4].size < AlignRequest(size) ==>
        FitsFree(bs, AlignRequest(size)) || (Growable(AlignRequest(size)) && !Refused(AlignRequest(size)))
      modifies `top, words, `brk, `bs, `ns, `hi, `prevNode, `blockSize
      ensures MemValid()
      ensures ptr == 0 && Valid() ==>
        Step(old(State()), if nptr != 0 then Op.Malloc(size, nptr) else MallocFails(size), State())
      ensures ptr == 0 && !Valid() ==> nptr == 0 && old(Loses(AlignRequest(size)))
      ensures ptr != 0 && size == 0 ==> nptr == 0 && Step(old(State()), Op.Free(ptr), State())
      ensures ptr != 0 && size != 0 && old(bs)[ptr - 4].size <= AlignRequest(size) ==>
        && Valid() && Step(old(State()), Op.Realloc(ptr, size, nptr), State())
        && (nptr == ptr <==> old(bs)[ptr - 4].size == AlignRequest(size))
      ensures ptr != 0 && size != 0 && AlignRequest(size) < old(bs)[ptr - 4].size ==>
        && nptr == ptr && bs == old(bs) && hi == old(hi) && !Valid()
        && SamePayload(old(Mem()), Mem(), ptr - 4, AlignRequest(size))
        && OthersSame(old(Mem()), Mem(), bs, hi, ptr)
        && LooksFree(Mem(), ptr - 4 + AlignRequest(size), bs[ptr - 4].size - AlignRequest(size))
        && forall bs': Blocks, hi': int, ns': seq<int> :: Inv(Mem(), bs', Lo(), hi', ns') ==>
             && ptr - 4 in bs' && bs'[ptr - 4].size == 2 * bs[ptr - 4].size - AlignRequest(size)
             && Next(bs, ptr - 4) !in bs'
    {
      hide SamePayload, LooksFree;
      hide Mem, Inv, Allocated, Released, Moved, Copied, OthersSame, AlignRequest, MmSize, FitsFree, KeepsPayloads;
      if ptr == 0 {
        nptr := Malloc(size);
        return;
      }
      if size == 0 {
        Free(ptr);
        return 0;
      }
      var blksize := AlignRequest(size);
      ghost var m0, bs0, hi0 := Mem(), bs, hi;
      LiveHeader(m0, bs, Lo(), hi, ns, ptr);
      AlignRequestFits(size);
      var hele := Load(ptr - 4);
      var oldsize := MmSize(hele);
      if blksize == oldsize {
        return ptr;
      }
      if blksize < oldsize {
        ShrinkInPlace(ptr - 4, blksize, hele, oldsize);
        return ptr;
      }
      nptr := MoveTo(ptr, size, oldsize);
      MovedElsewhere(m0, bs0, hi0, Mem(), bs, hi, size, ptr, nptr);
    }
  }
}
