/** The arithmetic and the reasoning behind mm.c's routines, apart from the stores: flag bits, the
    best-fit traversal, and what each routine may rely on before it touches the heap. */
module MmPlans {
  import opened DivMod
  import opened MmBlocks
  import opened MmWords
  import opened MmOps
  import opened MmClient

  // ---------- Header and footer bits (lines 149-184) ----------

  const HDR_ALLOC: int := 1
  const HDR_PFREE: int := 2
  const FTR_VALID: int := 4

  function MmSize(h: int): int { h - h % 8 }
  predicate IsAlloc(h: int) { h % 2 == 1 }
  predicate IsPfree(h: int) { h / 2 % 2 == 1 }
  predicate IsValid(h: int) { h / 4 % 2 == 1 }
  function ClearPfree(h: int): int { if IsPfree(h) then h - HDR_PFREE else h }

  /** ALIGN(size + WORD) in 32-bit unsigned arithmetic. */
  function AlignRequest(size: int): int { MmSize((size + 4 + 7) % TWO_32) }

  /** The block is big enough for the request, unless the sum wraps around. */
  lemma {:induction false} AlignRequestFits(size: int)
    requires 0 <= size < TWO_32
    ensures AlignRequest(size) - 4 >= size <==> size + 11 < TWO_32
    ensures size + 11 < TWO_32 ==> AlignRequest(size) % 8 == 0 && 8 <= AlignRequest(size) < size + 12
  {
    if size + 11 >= TWO_32 {
      assert (size + 11) % TWO_32 == size + 11 - TWO_32;
    }
  }

  /** Reading back a word made of a size and three flag bits. */
  lemma {:induction false} FlagBits(size: int, v: bool, p: bool, a: bool)
    requires size % 8 == 0
    ensures var h := size + (if v then 4 else 0) + (if p then 2 else 0) + (if a then 1 else 0);
            MmSize(h) == size && IsAlloc(h) == a && IsPfree(h) == p && IsValid(h) == v
  {
    var q, v', p', a' := size / 8, if v then 1 else 0, if p then 1 else 0, if a then 1 else 0;
    var h := 8 * q + 4 * v' + 2 * p' + a';
    DivMod8(h, q, 4 * v' + 2 * p' + a');
    DivMod4(h, 2 * q + v', 2 * p' + a');
    DivMod2(h, 4 * q + 2 * v' + p', a');
    DivMod2(4 * q + 2 * v' + p', 2 * q + v', p');
    DivMod2(2 * q + v', q, v');
  }

  /** The bits of a header word are the fields of its block. */
  lemma {:induction false} HeaderBits(m: Memory, bs: Blocks, lo: int, hi: int, a: int)
    requires Tiles(bs, lo, hi) && Headers(m, bs, lo) && a in bs
    ensures MmSize(Rd(m, a)) == bs[a].size
    ensures IsAlloc(Rd(m, a)) <==> !bs[a].free
    ensures IsPfree(Rd(m, a)) <==> PrevFree(bs, lo, a)
  {
    assert HeaderOk(m, bs, lo, a) && BlockOk(bs, lo, hi, a);
    assert bs[a].size % 8 == 0;
    FlagBits(bs[a].size, false, PrevFree(bs, lo, a), !bs[a].free);
  }

  /** How free_coalesce and malloc_new_block look back: the word before the header of `b` is a
      valid footer exactly when the free block before `b` has more than 8 bytes. */
  lemma {:induction false} FooterBits(m: Memory, bs: Blocks, lo: int, hi: int, ns: seq<int>, b: int)
    requires Inv(m, bs, lo, hi, ns) && b in bs && PrevFree(bs, lo, b)
    ensures IsValid(Rd(m, b - 4)) <==> bs[bs[b].prev].size > 8
    ensures IsValid(Rd(m, b - 4)) ==> MmSize(Rd(m, b - 4)) == bs[bs[b].prev].size
    ensures !IsValid(Rd(m, b - 4)) ==> MmSize(Rd(m, b - 8)) == bs[bs[b].prev].size
  {
    var p := bs[b].prev;
    assert BlockOk(bs, lo, hi, b) && BlockOk(bs, lo, hi, p) && HeaderOk(m, bs, lo, p);
    if bs[p].size == 8 {
      var i := FindNode(m, bs, lo, hi, ns, p);
      NodeRange(m, bs, lo, hi, ns, i);
      if i + 1 < |ns| { NodeAt(m, bs, lo, hi, ns, i + 1); }
      assert Rd(m, b - 4) % 8 == 0;
      FlagBits(Rd(m, b - 4), false, false, false);
      HeaderBits(m, bs, lo, hi, p);
    } else {
      FlagBits(bs[p].size, true, false, false);
    }
  }

  // ---------- What a traversal keeps ----------

  /** The list without its tombstones, in the same order. */
  ghost function LiveNodes(bs: Blocks, ns: seq<int>): seq<int> {
    if ns == [] then []
    else
      var l := ns[|ns| - 1];
      LiveNodes(bs, ns[..|ns| - 1]) + (if l == TOP || l - 4 in bs then [l] else [])
  }

  lemma {:induction false} LiveNodesDrop(bs: Blocks, ns: seq<int>, i: int)
    requires 0 <= i < |ns| && ns[i] != TOP && ns[i] - 4 !in bs
    ensures LiveNodes(bs, Drop(ns, i)) == LiveNodes(bs, ns)
    decreases |ns|
  {
    if i == |ns| - 1 {
      assert Drop(ns, i) == ns[..i];
    } else {
      var ds := Drop(ns, i);
      assert ds[|ds| - 1] == ns[|ns| - 1];
      assert ds[..|ds| - 1] == Drop(ns[..|ns| - 1], i);
      LiveNodesDrop(bs, ns[..|ns| - 1], i);
    }
  }

  lemma {:induction false} LiveNodesAll(bs: Blocks, ns: seq<int>)
    requires forall i :: 0 <= i < |ns| ==> ns[i] == TOP || ns[i] - 4 in bs
    ensures LiveNodes(bs, ns) == ns
    decreases |ns|
  {
    if ns != [] {
      LiveNodesAll(bs, ns[..|ns| - 1]);
    }
  }

  /** The best fit among the first `k` nodes: the earliest of the smallest blocks that are big
      enough, or none. */
  ghost predicate BestSoFar(bs: Blocks, ns: seq<int>, k: int, blocksize: int, dest: int, d: int)
    requires 0 <= k < |ns|
  {
    && (forall i {:trigger ns[i]} :: 1 <= i <= k ==> ns[i] - 4 in bs)
    && if dest == 0 then
         forall i {:trigger ns[i]} :: 1 <= i <= k ==> bs[ns[i] - 4].size < blocksize
       else
         && 1 <= d <= k && ns[d] == dest + 4 && blocksize <= bs[dest].size
         && forall i {:trigger ns[i]} :: 1 <= i <= k && blocksize <= bs[ns[i] - 4].size ==>
              bs[dest].size <= bs[ns[i] - 4].size && (i < d ==> bs[dest].size < bs[ns[i] - 4].size)
  }

  lemma {:induction false} BestOfAll(bs: Blocks, ns: seq<int>, blocksize: int, dest: int, d: int)
    requires |ns| >= 1 && Covers(bs, ns) && BestSoFar(bs, ns, |ns| - 1, blocksize, dest, d)
    requires dest != 0 ==> dest in bs && bs[dest].free
    ensures BestFit(bs, blocksize, dest)
  {
    forall a | a in bs && bs[a].free
      ensures if dest == 0 then bs[a].size < blocksize
              else blocksize <= bs[a].size ==> bs[dest].size <= bs[a].size
    {
      assert a + 4 in ns[1..];
      var i :| 1 <= i < |ns| && ns[i] == a + 4;
    }
  }

  /** The header of a list node is all ones exactly when the node is a tombstone. */
  lemma {:induction false} TombstoneHeader(m: Memory, bs: Blocks, lo: int, hi: int, ns: seq<int>, i: int)
    requires Inv(m, bs, lo, hi, ns) && 1 <= i < |ns|
    ensures Rd(m, ns[i] - 4) == ALL_ONES <==> ns[i] - 4 !in bs
    ensures ns[i] - 4 in bs ==> bs[ns[i] - 4].free && MmSize(Rd(m, ns[i] - 4)) == bs[ns[i] - 4].size < ALL_ONES
  {
    NodeAt(m, bs, lo, hi, ns, i);
    var a := ns[i] - 4;
    if a in bs {
      HeaderBits(m, bs, lo, hi, a);
      assert HeaderOk(m, bs, lo, a) && BlockOk(bs, lo, hi, a) && BlockOk(bs, lo, hi, lo);
      OrderAt(bs, lo, hi, a, hi);
    }
  }

  lemma {:induction false} DropKeepsPrefix(bs: Blocks, ns: seq<int>, k: int, blocksize: int, dest: int, d: int)
    requires 0 <= k && k + 1 < |ns| && BestSoFar(bs, ns, k, blocksize, dest, d)
    ensures var ns' := Drop(ns, k + 1);
            && After(ns', k) == After(ns, k + 1) && ns'[k] == ns[k]
            && BestSoFar(bs, ns', k, blocksize, dest, d)
            && (dest != 0 ==> ns'[d - 1] == ns[d - 1])
  {
    var ns' := Drop(ns, k + 1);
    assert forall i :: 0 <= i <= k ==> ns'[i] == ns[i];
  }

  /** One more live node: the strict comparison keeps the earliest of equal candidates. */
  lemma {:induction false} BestStep(bs: Blocks, ns: seq<int>, k: int, blocksize: int, dest: int, d: int)
    requires 0 <= k && k + 1 < |ns| && BestSoFar(bs, ns, k, blocksize, dest, d) && ns[k + 1] - 4 in bs
    requires dest != 0 ==> dest in bs
    ensures var a := ns[k + 1] - 4;
            if blocksize <= bs[a].size && (dest == 0 || bs[a].size < bs[dest].size)
            then a != 0 ==> BestSoFar(bs, ns, k + 1, blocksize, a, k + 1)
            else BestSoFar(bs, ns, k + 1, blocksize, dest, d)
  {
  }

  lemma {:induction false} KeepsPayloadsRefl(m: Memory, bs: Blocks)
    ensures KeepsPayloads(m, m, bs, bs)
  {
  }

  lemma {:induction false} AllLive(m: Memory, bs: Blocks, ns: seq<int>)
    requires Chain(m, ns) && forall i {:trigger ns[i]} :: 1 <= i < |ns| ==> ns[i] - 4 in bs
    ensures NoTombstones(bs, ns) && LiveNodes(bs, ns) == ns
  {
    LiveNodesAll(bs, ns);
    forall n | n in ns[1..] ensures n - 4 in bs {
      var i :| 1 <= i < |ns| && ns[i] == n;
    }
  }

  /** `dest` is a smallest free block of at least `blocksize` bytes, or 0 when there is none. */
  ghost predicate BestFit(bs: Blocks, blocksize: int, dest: int) {
    if dest == 0 then
      forall a {:trigger bs[a].free} :: a in bs && bs[a].free ==> bs[a].size < blocksize
    else
      && dest in bs && bs[dest].free && blocksize <= bs[dest].size
      && forall a {:trigger bs[a].free} :: a in bs && bs[a].free && blocksize <= bs[a].size ==> bs[dest].size <= bs[a].size
  }

  // ---------- The traversal of get_target_block, apart from the stores ----------

  /** The local and global variables of the traversal; `k` and `d` are list positions. */
  datatype Cursor = Cursor(k: int, prev: int, curr: int, dest: int, d: int, min: int, prevNode: int, blockSize: int)

  /** What the traversal has established when `prev` is node `k`: the list is intact, its first
      `k` nodes are live, the live nodes are those it started with, and `dest` is the best fit
      so far. */
  ghost predicate Walked(m: Memory, bs: Blocks, lo: int, hi: int, ns: seq<int>, ns0: seq<int>, blocksize: int, c: Cursor) {
    && Inv(m, bs, lo, hi, ns)
    && 0 <= c.k < |ns| && c.prev == ns[c.k] && c.curr == After(ns, c.k)
    && BestSoFar(bs, ns, c.k, blocksize, c.dest, c.d)
    && LiveNodes(bs, ns) == LiveNodes(bs, ns0)
    && (if c.dest == 0 then c.min == ALL_ONES
        else && c.dest in bs && bs[c.dest].free && c.min == bs[c.dest].size
             && c.prevNode == ns[c.d - 1] && c.blockSize == c.min)
  }

  /** An address of the heap or of TOP. */
  ghost predicate InRange(lo: int, hi: int, a: int) {
    a == TOP || (lo - 4 <= a < hi + 4 && a % 4 == 0)
  }

  lemma {:induction false} WalkStart(m: Memory, bs: Blocks, lo: int, hi: int, ns: seq<int>, blocksize: int, c: Cursor)
    requires Inv(m, bs, lo, hi, ns)
    requires c.k == 0 && c.prev == TOP && c.curr == Rd(m, TOP) && c.dest == 0 && c.min == ALL_ONES
    ensures |ns| >= 1 && Walked(m, bs, lo, hi, ns, ns, blocksize, c)
  {
    hide LiveNodes;
    assert Rd(m, ns[0]) == After(ns, 0);
  }

  /** The node after `prev` and its header can be read, and the header tells what it is. */
  lemma {:induction false} WalkNext(m: Memory, bs: Blocks, lo: int, hi: int, ns: seq<int>, ns0: seq<int>, blocksize: int, c: Cursor)
    requires Walked(m, bs, lo, hi, ns, ns0, blocksize, c) && c.curr != 0
    ensures InRange(lo, hi, c.prev) && InRange(lo, hi, c.curr) && InRange(lo, hi, c.curr - 4) && c.prev != c.curr
    ensures 0 <= c.k && c.k + 1 < |ns| && c.curr > 8
  {
    hide LiveNodes, BestSoFar;
    NodeRange(m, bs, lo, hi, ns, c.k);
    NodeRange(m, bs, lo, hi, ns, c.k + 1);
  }

  /** Removing the tombstone after `prev`. */
  lemma {:induction false} WalkUnlink(m: Memory, bs: Blocks, lo: int, hi: int, ns: seq<int>, ns0: seq<int>, blocksize: int, c: Cursor)
    requires Walked(m, bs, lo, hi, ns, ns0, blocksize, c) && c.curr != 0 && Rd(m, c.curr - 4) == ALL_ONES
    ensures 0 <= c.k && c.k + 1 < |ns|
    ensures var m' := m[c.prev := Rd(m, c.curr)];
            && Inv(m', bs, lo, hi, Drop(ns, c.k + 1)) && Rd(m', c.curr) == Rd(m, c.curr)
            && Walked(m', bs, lo, hi, Drop(ns, c.k + 1), ns0, blocksize, c.(curr := Rd(m', c.curr)))
            && KeepsPayloads(m, m', bs, bs)
  {
    hide LiveNodes, BestSoFar;
    TombstoneHeader(m, bs, lo, hi, ns, c.k + 1);
    NodeRange(m, bs, lo, hi, ns, c.k + 1);
    WalkNext(m, bs, lo, hi, ns, ns0, blocksize, c);
    RemoveTombstone(m, bs, lo, hi, ns, c.k + 1);
    DropKeepsPrefix(bs, ns, c.k, blocksize, c.dest, c.d);
    LiveNodesDrop(bs, ns, c.k + 1);
  }

  /** Moving past a live node. */
  lemma {:induction false} WalkAdvance(m: Memory, bs: Blocks, lo: int, hi: int, ns: seq<int>, ns0: seq<int>, blocksize: int, c: Cursor)
    requires Walked(m, bs, lo, hi, ns, ns0, blocksize, c) && c.curr != 0 && Rd(m, c.curr - 4) != ALL_ONES
    ensures c.k + 1 < |ns|
    ensures var size := MmSize(Rd(m, c.curr - 4));
            Walked(m, bs, lo, hi, ns, ns0, blocksize,
                   if size >= blocksize && size < c.min
                   then Cursor(c.k + 1, c.curr, Rd(m, c.curr), c.curr - 4, c.k + 1, size, c.prev, size)
                   else Cursor(c.k + 1, c.curr, Rd(m, c.curr), c.dest, c.d, c.min, c.prevNode, c.blockSize))
  {
    hide LiveNodes, BestSoFar;
    TombstoneHeader(m, bs, lo, hi, ns, c.k + 1);
    NodeRange(m, bs, lo, hi, ns, c.k + 1);
    BestStep(bs, ns, c.k, blocksize, c.dest, c.d);
  }

  /** A traversal that has run off the end has seen the whole list. */
  lemma {:induction false} WalkEnd(m: Memory, bs: Blocks, lo: int, hi: int, ns: seq<int>, ns0: seq<int>, blocksize: int, c: Cursor)
    requires Walked(m, bs, lo, hi, ns, ns0, blocksize, c) && c.curr == 0
    ensures NoTombstones(bs, ns) && ns == LiveNodes(bs, ns0) && |ns| >= 1
    ensures BestFit(bs, blocksize, c.dest) && BestSoFar(bs, ns, |ns| - 1, blocksize, c.dest, c.d)
    ensures c.dest != 0 ==> 1 <= c.d < |ns| && ns[c.d] == c.dest + 4 && c.dest in bs && c.prevNode == ns[c.d - 1] && c.blockSize == bs[c.dest].size
  {
    hide LiveNodes;
    if c.k + 1 < |ns| { NodeRange(m, bs, lo, hi, ns, c.k + 1); }
    BestOfAll(bs, ns, blocksize, c.dest, c.d);
    AllLive(m, bs, ns);
  }

  // ---------- What each operation does to the block row and to the list ----------

  /** The start and the end of the free block that freeing `b` leaves. */
  ghost function FreedStart(bs: Blocks, lo: int, b: int): int
    requires b in bs
  {
    if PrevFree(bs, lo, b) then bs[b].prev else b
  }

  ghost function FreedEnd(bs: Blocks, b: int): int
    requires b in bs && Next(bs, b) in bs
  {
    var c := Next(bs, b);
    if bs[c].free then Next(bs, c) else c
  }

  lemma {:induction false} FreedSpan(bs: Blocks, lo: int, hi: int, b: int)
    requires Tiles(bs, lo, hi) && b in bs && b != hi && !bs[b].free
    ensures Next(bs, b) in bs
    ensures FreedStart(bs, lo, b) in bs && FreedEnd(bs, b) in bs
    ensures FreedStart(bs, lo, b) < FreedEnd(bs, b) && !bs[FreedEnd(bs, b)].free
    ensures !PrevFree(bs, lo, FreedStart(bs, lo, b))
    ensures FreedStart(bs, lo, b) <= b < Next(bs, b) <= FreedEnd(bs, b)
  {
    assert BlockOk(bs, lo, hi, b) && BlockOk(bs, lo, hi, Next(bs, b));
    if PrevFree(bs, lo, b) { assert BlockOk(bs, lo, hi, bs[b].prev); }
    if bs[Next(bs, b)].free { TwoNeighbours(bs, lo, hi, b, Next(bs, b)); }
  }

  ghost predicate Freeable(bs: Blocks, lo: int, b: int) {
    && b in bs && Next(bs, b) in bs
    && FreedStart(bs, lo, b) in bs && FreedEnd(bs, b) in bs && FreedStart(bs, lo, b) < FreedEnd(bs, b)
  }

  /** Freeing `b`: one free block in place of `b` and its free neighbours. */
  ghost function Freed(bs: Blocks, lo: int, b: int): Blocks
    requires Freeable(bs, lo, b)
  {
    Merge(bs, FreedStart(bs, lo, b), FreedEnd(bs, b))
  }

  ghost function IndexOf(ns: seq<int>, x: int): (i: int)
    requires x in ns
    ensures 0 <= i < |ns| && ns[i] == x
  {
    if ns[0] == x then 0 else 1 + IndexOf(ns[1..], x)
  }

  /** The list after freeing `b`: the four cases of the header comment (lines 57-80). */
  ghost function FreedList(bs: Blocks, lo: int, b: int, ns: seq<int>): seq<int>
    requires FreeListable(bs, b, ns)
  {
    var c := Next(bs, b);
    if !bs[c].free then
      if PrevFree(bs, lo, b) then ns else Put(ns, 1, b + 4)
    else
      var j := IndexOf(ns, c + 4);
      if PrevFree(bs, lo, b) then Drop(ns, j)
      else if bs[c].size > 8 then Put(ns, j + 1, b + 4)
      else ns[j := b + 4]
  }

  ghost predicate FreeListable(bs: Blocks, b: int, ns: seq<int>) {
    b in bs && Next(bs, b) in bs && |ns| >= 1 && (bs[Next(bs, b)].free ==> Next(bs, b) + 4 in ns[1..] && ns[0] != Next(bs, b) + 4)
  }

  /** The memory after the list stores of free_coalesce (lines 387-405). */
  ghost function Relinked(m: Memory, bs: Blocks, lo: int, b: int, ns: seq<int>): Memory
    requires FreeListable(bs, b, ns)
  {
    var c := Next(bs, b);
    if !bs[c].free then m
    else
      var j := IndexOf(ns, c + 4);
      if PrevFree(bs, lo, b) then m[ns[j - 1] := Rd(m, c + 4)]
      else if bs[c].size > 8 then m[b + 4 := Rd(m, c + 4)][c + 4 := b + 4][c := ALL_ONES]
      else var m1 := m[ns[j - 1] := b + 4]; m1[b + 4 := Rd(m1, c + 4)]
  }

  /** All three merging cases of free_coalesce. */
  lemma {:induction false} FreeMerged(m: Memory, bs: Blocks, lo: int, hi: int, ns: seq<int>, b: int)
    requires Inv(m, bs, lo, hi, ns) && b in bs && b != hi && !bs[b].free
    requires Freeable(bs, lo, b) && FreeListable(bs, b, ns)
    requires PrevFree(bs, lo, b) || bs[Next(bs, b)].free
    ensures var s, e, m1 := FreedStart(bs, lo, b), FreedEnd(bs, b), Relinked(m, bs, lo, b, ns);
            && Inv(Sealed(m1, bs, s, e), Freed(bs, lo, b), lo, hi, FreedList(bs, lo, b, ns))
            && KeepsPayloads(m, Sealed(m1, bs, s, e), bs, Freed(bs, lo, b))
            && SealReads(m, m1, bs, s, e)
  {
    hide Inv, KeepsPayloads, Sealed, SealReads;
    var c := Next(bs, b);
    NextIsProper(m, bs, lo, hi, ns, b);
    if PrevFree(bs, lo, b) {
      if bs[c].free {
        FreeBetween(m, bs, lo, hi, ns, IndexOf(ns, c + 4), bs[b].prev, b, c);
      } else {
        FreeIntoPrev(m, bs, lo, hi, ns, bs[b].prev, b);
      }
    } else if bs[c].size > 8 {
      FreeDeferring(m, bs, lo, hi, ns, IndexOf(ns, c + 4), b, c);
    } else {
      FreeReplacing(m, bs, lo, hi, ns, IndexOf(ns, c + 4), b, c);
    }
  }

  /** What freeing does to the list: the block's node comes in, on top if nothing is merged, unless
      the block before takes it over; the next block's node goes out unless it is left for later;
      nothing else comes or goes. */
  lemma {:induction false} FreedListMeans(m: Memory, bs: Blocks, lo: int, hi: int, ns: seq<int>, b: int, n: int)
    requires Inv(m, bs, lo, hi, ns) && b in bs && b != hi && !bs[b].free && FreeListable(bs, b, ns)
    ensures var c, back := Next(bs, b), PrevFree(bs, lo, b);
            n in FreedList(bs, lo, b, ns)[1..] <==>
              || (n == b + 4 && !back)
              || (n in ns[1..] && (n == c + 4 && bs[c].free ==> !back && bs[c].size > 8))
    ensures !PrevFree(bs, lo, b) && !bs[Next(bs, b)].free ==>
              |FreedList(bs, lo, b, ns)| > 1 && FreedList(bs, lo, b, ns)[1] == b + 4
  {
    hide Tiles, Headers, Chain, Covers, NoDup;
    var c := Next(bs, b);
    NotOnList(m, bs, lo, hi, ns, b);
    if bs[c].free {
      var j := IndexOf(ns, c + 4);
      DropMembers(ns, j, n);
      PutMembers(ns, j + 1, b + 4, n);
      ReplaceMembers(ns, j, b + 4, n);
    } else {
      PutMembers(ns, 1, b + 4, n);
    }
  }

  lemma {:induction false} NotOnList(m: Memory, bs: Blocks, lo: int, hi: int, ns: seq<int>, b: int)
    requires Inv(m, bs, lo, hi, ns) && b in bs && !bs[b].free
    ensures b + 4 !in ns
  {
    assert BlockOk(bs, lo, hi, b);
    forall i | 1 <= i < |ns| ensures ns[i] != b + 4 {
      assert ns[i] in ns[1..] && NodeOk(m, bs, lo, hi, ns[i]);
    }
  }

  lemma {:induction false} NextIsProper(m: Memory, bs: Blocks, lo: int, hi: int, ns: seq<int>, b: int)
    requires Inv(m, bs, lo, hi, ns) && b in bs && b != hi && Next(bs, b) in bs
    ensures bs[Next(bs, b)].free ==> bs[Next(bs, b)].size >= 8
    ensures PrevFree(bs, lo, b) ==> Next(bs, bs[b].prev) == b
  {
    assert BlockOk(bs, lo, hi, b) && BlockOk(bs, lo, hi, Next(bs, b));
  }

  /** What free_coalesce reads to look back (lines 370-382). */
  lemma {:induction false} FreePlanBack(m: Memory, bs: Blocks, lo: int, hi: int, ns: seq<int>, b: int)
    requires Inv(m, bs, lo, hi, ns) && b in bs && b != hi && !bs[b].free
    ensures Freeable(bs, lo, b) && lo <= FreedStart(bs, lo, b) && b + 4 < ALL_ONES
    ensures InRange(lo, hi, b) && InRange(lo, hi, b + 4)
    ensures MmSize(Rd(m, b)) == bs[b].size && (IsPfree(Rd(m, b)) <==> PrevFree(bs, lo, b))
    ensures PrevFree(bs, lo, b) ==> InRange(lo, hi, b - 4) && InRange(lo, hi, b - 8)
    ensures PrevFree(bs, lo, b) ==> FreedStart(bs, lo, b) + bs[bs[b].prev].size == b
  {
    FreedSpan(bs, lo, hi, b);
    HeaderBits(m, bs, lo, hi, b);
    HeaderRange(bs, lo, hi, b);
    HeaderRange(bs, lo, hi, FreedStart(bs, lo, b));
    if PrevFree(bs, lo, b) { PrevBefore(bs, lo, hi, b); }
  }

  /** What free_coalesce reads to look ahead (lines 385-390). */
  lemma {:induction false} FreePlanAhead(m: Memory, bs: Blocks, lo: int, hi: int, ns: seq<int>, b: int)
    requires Inv(m, bs, lo, hi, ns) && b in bs && b != hi && !bs[b].free && Freeable(bs, lo, b)
    ensures var c := Next(bs, b);
            && InRange(lo, hi, c) && (IsAlloc(Rd(m, c)) <==> !bs[c].free)
            && (bs[c].free ==> InRange(lo, hi, c + 4) && MmSize(Rd(m, c)) == bs[c].size && bs[c].size >= 8)
    ensures FreeListable(bs, b, ns)
  {
    var c := Next(bs, b);
    HeaderBits(m, bs, lo, hi, c);
    HeaderRange(bs, lo, hi, c);
    assert BlockOk(bs, lo, hi, c);
    if bs[c].free {
      var i := FindNode(m, bs, lo, hi, ns, c);
    }
  }

  /** What free_coalesce reads and stores to seal the merged block (lines 412-417). */
  lemma {:induction false} FreePlanSeal(m: Memory, bs: Blocks, lo: int, hi: int, b: int)
    requires TOP < lo && hi + 4 < ALL_ONES && Tiles(bs, lo, hi) && Headers(m, bs, lo)
    requires b in bs && b != hi && !bs[b].free && Freeable(bs, lo, b)
    ensures var s, e := FreedStart(bs, lo, b), FreedEnd(bs, b);
            && InRange(lo, hi, s) && InRange(lo, hi, e) && InRange(lo, hi, e - 4)
            && MmSize(Rd(m, e)) == bs[e].size && (e - s) % 8 == 0 && 8 <= e - s < ALL_ONES - 8
            && bs[e].size % 8 == 0 && 0 <= bs[e].size < ALL_ONES - 8
  {
    var s, e := FreedStart(bs, lo, b), FreedEnd(bs, b);
    HeaderBits(m, bs, lo, hi, e);
    HeaderRange(bs, lo, hi, s);
    HeaderRange(bs, lo, hi, e);
    Gap8(s, e);
    OrderAt(bs, lo, hi, lo, s);
    assert BlockOk(bs, lo, hi, e);
  }

  /** The words at the two ends of a block are inside the heap. */
  lemma {:induction false} HeaderRange(bs: Blocks, lo: int, hi: int, a: int)
    requires Tiles(bs, lo, hi) && TOP < lo && a in bs
    ensures InRange(lo, hi, a) && lo <= a <= hi && lo % 8 == 4 && a % 8 == 4
    ensures a != hi ==> a + 8 <= hi && InRange(lo, hi, a + 4)
    ensures a != lo ==> lo + 8 <= a && InRange(lo, hi, a - 4) && InRange(lo, hi, a - 8)
    ensures 0 <= bs[a].size && a + bs[a].size <= hi
  {
    assert BlockOk(bs, lo, hi, a) && BlockOk(bs, lo, hi, lo) && BlockOk(bs, lo, hi, hi);
    OrderAt(bs, lo, hi, a, hi);
    AlignedBy4(a);
    Multiple8(a);
    Gap8(a, hi);
    Gap8(lo, a);
  }

  /** What malloc_existing_block reads and stores in the best-fitting block `p`. */
  lemma {:induction false} CarvePlan(m: Memory, bs: Blocks, lo: int, hi: int, ns: seq<int>, k: int, p: int, d: int)
    requires Inv(m, bs, lo, hi, ns) && 8 <= k && k % 8 == 0 && p != 0
    requires BestFit(bs, k, p) && 1 <= d < |ns| && ns[d] == p + 4
    ensures Carvable(bs, p) && bs[p].free && k <= bs[p].size < ALL_ONES - 8 && 0 < p < ALL_ONES - 8
    ensures InRange(lo, hi, p) && InRange(lo, hi, p + 4) && InRange(lo, hi, ns[d - 1])
    ensures (bs[p].size - k) % 8 == 0 && InRange(lo, hi, Next(bs, p))
    ensures Rd(m, Next(bs, p)) >= 2 && ClearPfree(Rd(m, Next(bs, p))) == Rd(m, Next(bs, p)) - 2
    ensures k < bs[p].size ==> InRange(lo, hi, p + k) && InRange(lo, hi, p + k + 4) && InRange(lo, hi, Next(bs, p) - 4)
    ensures p + k + 4 < ALL_ONES
  {
    hide Chain, Nodes, NoDup, Covers;
    var e := Next(bs, p);
    assert BlockOk(bs, lo, hi, p);
    HeaderRange(bs, lo, hi, p);
    HeaderRange(bs, lo, hi, e);
    HeaderBits(m, bs, lo, hi, e);
    assert HeaderOk(m, bs, lo, e) && BlockOk(bs, lo, hi, e);
    DivMod8(bs[p].size - k, bs[p].size / 8 - k / 8, 0);
    DivMod8(p + k, p / 8 + k / 8, 4);
    AlignedBy4(p + k);
    NodeRange(m, bs, lo, hi, ns, d - 1);
  }

  /** The words after lines 304-319. */
  ghost function Carved(m: Memory, bs: Blocks, ns: seq<int>, k: int, p: int, d: int): Memory
    requires p in bs && 1 <= d < |ns|
  {
    var r, e, prev := bs[p].size - k, Next(bs, p), ns[d - 1];
    if r != 0 then
      var m1 := m[p := k + 1][p + k := r][p + bs[p].size - 4 := r + 4];
      var m2 := m1[prev := p + k + 4];
      m2[p + k + 4 := Rd(m2, p + 4)]
    else
      var m2 := m[p := k + 1][e := Rd(m, e) - 2];
      m2[prev := Rd(m2, p + 4)]
  }

  ghost function CarvedList(bs: Blocks, ns: seq<int>, k: int, p: int, d: int): seq<int>
    requires p in bs && 1 <= d < |ns|
  {
    if bs[p].size != k then ns[d := p + k + 4] else Drop(ns, d)
  }

  lemma {:induction false} CarvedInv(m: Memory, bs: Blocks, lo: int, hi: int, ns: seq<int>, k: int, p: int, d: int)
    requires Inv(m, bs, lo, hi, ns) && NoTombstones(bs, ns) && 8 <= k && k % 8 == 0 && p != 0
    requires BestFit(bs, k, p) && 1 <= d < |ns| && ns[d] == p + 4
    ensures Carvable(bs, p) && Inv(Carved(m, bs, ns, k, p, d), Carve(bs, p, k), lo, hi, CarvedList(bs, ns, k, p, d))
    ensures NoTombstones(Carve(bs, p, k), CarvedList(bs, ns, k, p, d))
    ensures KeepsPayloads(m, Carved(m, bs, ns, k, p, d), bs, Carve(bs, p, k))
  {
    hide Inv, NoTombstones, KeepsPayloads, Take, Split, Drop;
    if bs[p].size != k {
      TakeSplit(m, bs, lo, hi, ns, d, p, k);
    } else {
      TakeExact(m, bs, lo, hi, ns, d, p);
    }
  }

  /** The payloads that the traversal keeps, and then the carving or the growth. */
  lemma {:induction false} KeepsPayloadsTrans(m0: Memory, m1: Memory, m2: Memory, bs: Blocks, hi: int, bs': Blocks)
    requires KeepsPayloads(m0, m1, bs, bs)
    ensures KeepsPayloads(m1, m2, bs, bs') ==> KeepsPayloads(m0, m2, bs, bs')
    ensures KeepsPayloads(m1, m2, bs - {hi}, bs') ==> KeepsPayloads(m0, m2, bs - {hi}, bs')
  {
    forall a | a in bs && a in bs' && !bs[a].free && !bs'[a].free && SamePayload(m1, m2, a, bs[a].size)
      ensures SamePayload(m0, m2, a, bs[a].size)
    {
      assert SamePayload(m0, m1, a, bs[a].size);
      forall w | a + 4 <= w < a + bs[a].size ensures Rd(m2, w) == Rd(m0, w) {
        assert Rd(m1, w) == Rd(m0, w);
      }
    }
  }

  lemma {:induction false} ChainHead(m: Memory, ns: seq<int>)
    requires Chain(m, ns)
    ensures |ns| >= 1 && ns[0] == TOP
  {
  }

  /** Where malloc_new_block starts: at the trailing free block, or at the tail. */
  ghost function GrowthStart(bs: Blocks, lo: int, hi: int): int
    requires hi in bs
  {
    if PrevFree(bs, lo, hi) then bs[hi].prev else hi
  }

  /** How many bytes the heap must grow by. */
  ghost function GrowthNeed(bs: Blocks, lo: int, hi: int, k: int): int
    requires hi in bs
  {
    if PrevFree(bs, lo, hi) then k - bs[bs[hi].prev].size else k
  }

  /** What malloc_new_block reads and stores around the end of the heap. */
  lemma {:induction false} GrowPlan(m: Memory, bs: Blocks, lo: int, hi: int, ns: seq<int>, k: int)
    requires Inv(m, bs, lo, hi, ns) && 8 <= k && k % 8 == 0 && BestFit(bs, k, 0)
    ensures |ns| >= 1 && hi in bs && GrowthStart(bs, lo, hi) in bs && lo <= GrowthStart(bs, lo, hi)
    ensures InRange(lo, hi, hi) && (IsPfree(Rd(m, hi)) <==> PrevFree(bs, lo, hi))
    ensures GrowthNeed(bs, lo, hi, k) > 0 && GrowthNeed(bs, lo, hi, k) % 4 == 0
    ensures hi + GrowthNeed(bs, lo, hi, k) == GrowthStart(bs, lo, hi) + k
    ensures (GrowthStart(bs, lo, hi) + k) % 4 == 0 && InRange(lo, hi, GrowthStart(bs, lo, hi))
    ensures bs[GrowthStart(bs, lo, hi)].size < k
    ensures PrevFree(bs, lo, hi) ==>
      && InRange(lo, hi, hi - 4) && InRange(lo, hi, GrowthStart(bs, lo, hi) + 4)
      && bs[GrowthStart(bs, lo, hi)].free && Next(bs, GrowthStart(bs, lo, hi)) == hi
      && GrowthStart(bs, lo, hi) + 4 in ns[1..] && ns[0] == TOP
  {
    hide Chain, Nodes, NoDup;
    ChainHead(m, ns);
    var p := GrowthStart(bs, lo, hi);
    HeaderBits(m, bs, lo, hi, hi);
    HeaderRange(bs, lo, hi, hi);
    assert BlockOk(bs, lo, hi, hi);
    DivMod4(k, 2 * (k / 8), 0);
    if PrevFree(bs, lo, hi) {
      PrevBefore(bs, lo, hi, hi);
      HeaderRange(bs, lo, hi, p);
      var x := bs[p].size;
      assert BlockOk(bs, lo, hi, p) && bs[p].free;
      DivMod4(k - x, 2 * (k / 8) - 2 * (x / 8), 0);
    }
    DivMod8(p + k, p / 8 + k / 8, 4);
    AlignedBy4(p + k);
  }

  /** The list, and the memory with the trailing free block's node unlinked. */
  ghost function GrownList(bs: Blocks, lo: int, hi: int, ns: seq<int>): seq<int>
    requires hi in bs && (PrevFree(bs, lo, hi) ==> bs[hi].prev + 4 in ns)
  {
    if PrevFree(bs, lo, hi) then Drop(ns, IndexOf(ns, bs[hi].prev + 4)) else ns
  }

  ghost function Unhooked(m: Memory, bs: Blocks, lo: int, hi: int, ns: seq<int>): Memory
    requires hi in bs && |ns| >= 1 && (PrevFree(bs, lo, hi) ==> bs[hi].prev + 4 in ns[1..] && ns[0] != bs[hi].prev + 4)
  {
    if PrevFree(bs, lo, hi) then
      var n := bs[hi].prev + 4;
      m[ns[IndexOf(ns, n) - 1] := Rd(m, n)]
    else m
  }

  lemma {:induction false} GrownInv(m: Memory, bs: Blocks, lo: int, hi: int, ns: seq<int>, k: int)
    requires Inv(m, bs, lo, hi, ns) && NoTombstones(bs, ns) && 8 <= k && k % 8 == 0 && BestFit(bs, k, 0)
    requires hi in bs && |ns| >= 1 && (PrevFree(bs, lo, hi) ==> bs[hi].prev + 4 in ns[1..] && ns[0] != bs[hi].prev + 4)
    requires GrowthStart(bs, lo, hi) + k + 4 < ALL_ONES
    ensures var p := GrowthStart(bs, lo, hi);
            var m' := Unhooked(m, bs, lo, hi, ns)[p := k + 1][p + k := 1];
            && p in bs && Inv(m', Grow(bs, hi, p, k), lo, p + k, GrownList(bs, lo, hi, ns))
            && NoTombstones(Grow(bs, hi, p, k), GrownList(bs, lo, hi, ns))
            && KeepsPayloads(m, m', bs - {hi}, Grow(bs, hi, p, k))
  {
    hide Inv, KeepsPayloads, NoTombstones, Grow;
    GrowPlan(m, bs, lo, hi, ns, k);
    if PrevFree(bs, lo, hi) {
      GrowTrailing(m, bs, lo, hi, ns, IndexOf(ns, bs[hi].prev + 4), bs[hi].prev, k);
    } else {
      GrowTail(m, bs, lo, hi, ns, k);
    }
  }

  /** Some free block has at least `k` bytes. */
  ghost predicate FitsFree(bs: Blocks, k: int) {
    exists a {:trigger bs[a].free} :: a in bs && bs[a].free && k <= bs[a].size
  }

  /** Where a request of `k` bytes goes: into a best-fitting free block, or else to the end of the
      heap; and the row of blocks after that. */
  ghost predicate Placed(bs: Blocks, lo: int, hi: int, k: int, p: int, bs': Blocks, hi': int) {
    if FitsFree(bs, k) then
      p != 0 && BestFit(bs, k, p) && Carvable(bs, p) && bs' == Carve(bs, p, k) && hi' == hi
    else
      hi in bs && p == GrowthStart(bs, lo, hi) && p in bs && bs' == Grow(bs, hi, p, k) && hi' == p + k
  }

  /** Either way the new block has exactly the size asked for. */
  lemma PlacedSize(bs: Blocks, lo: int, hi: int, k: int, p: int, bs': Blocks, hi': int)
    requires Placed(bs, lo, hi, k, p, bs', hi') && k > 0
    ensures p in bs' && bs'[p].size == k && !bs'[p].free
  {
  }

  lemma {:induction false} BestFitFits(bs: Blocks, k: int, dest: int)
    requires BestFit(bs, k, dest)
    ensures FitsFree(bs, k) <==> dest != 0
    ensures dest != 0 ==> dest in bs && bs[dest].free && k <= bs[dest].size
  {
  }

  /** Aligned addresses are whole words away from the start of the heap. */
  lemma {:induction false} WordIndex(base: int, a: int)
    requires base % 8 == 0 && a % 4 == 0
    ensures 4 * ((a - base) / 4) == a - base
  {
    DivMod4(a - base, a / 4 - 2 * (base / 8), 0);
  }

  /** The block goes to the top of the list when neither neighbour is free (line 248). */
  lemma {:induction false} FreeAloneList(m: Memory, bs: Blocks, lo: int, hi: int, ns: seq<int>, b: int)
    requires Inv(m, bs, lo, hi, ns) && b in bs && b != hi && !bs[b].free
    requires Freeable(bs, lo, b) && FreeListable(bs, b, ns)
    requires !PrevFree(bs, lo, b) && !bs[Next(bs, b)].free
    ensures var m1 := Sealed(m, bs, b, Next(bs, b));
            var m' := m1[b + 4 := Rd(m1, TOP)][TOP := b + 4];
            && Inv(m', Freed(bs, lo, b), lo, hi, FreedList(bs, lo, b, ns))
            && KeepsPayloads(m, m', bs, Freed(bs, lo, b))
  {
    hide Inv, KeepsPayloads;
    FreeAlone(m, bs, lo, hi, ns, b);
  }

  lemma {:induction false} FreedReleases(m: Memory, m': Memory, bs: Blocks, lo: int, hi: int, ns: seq<int>, b: int)
    requires Inv(m, bs, lo, hi, ns) && b in bs && b != hi && !bs[b].free && Freeable(bs, lo, b)
    requires KeepsPayloads(m, m', bs, Freed(bs, lo, b))
    ensures Released(m, bs, hi, m', Freed(bs, lo, b), hi, b + 4)
  {
    hide Chain, NoDup, Nodes, Covers, Headers, KeepsPayloads, Released;
    var s, e := FreedStart(bs, lo, b), FreedEnd(bs, b);
    FreedSpan(bs, lo, hi, b);
    assert BlockOk(bs, lo, hi, b);
    forall a | a in bs && s <= a < e && a != b ensures bs[a].free {
      OrderAt(bs, lo, hi, a, b);
      OrderAt(bs, lo, hi, a, s);
      OrderAt(bs, lo, hi, a, Next(bs, b));
    }
    MergeReleases(m, m', bs, lo, hi, s, e, b);
  }

  /** Every word of a live block's payload is an aligned word of the heap. */
  lemma {:induction false} PayloadWord(bs: Blocks, lo: int, hi: int, p: int, i: int)
    requires Tiles(bs, lo, hi) && Live(bs, hi, p) && 0 <= i < Room(bs, p) && i % 4 == 0
    ensures (p + i) % 4 == 0 && InRange(lo, hi, p + i)
  {
    assert BlockOk(bs, lo, hi, p - 4);
    OrderAt(bs, lo, hi, p - 4, hi);
    DivMod4(p + i, 2 * ((p - 4) / 8) + 2 + i / 4, 0);
  }

  /** Every live block but `dst` has the same payload in both memories. */
  ghost predicate OthersSame(m: Memory, m': Memory, bs: Blocks, hi: int, dst: int) {
    forall q {:trigger Live(bs, hi, q)} :: Live(bs, hi, q) && q != dst ==> SamePayload(m, m', q - 4, bs[q - 4].size)
  }

  /** One word of the copy. */
  lemma {:induction false} CopyStep(m: Memory, m1: Memory, bs: Blocks, lo: int, hi: int, ns: seq<int>, dst: int, src: int, i: int)
    requires Inv(m1, bs, lo, hi, ns) && Live(bs, hi, dst) && Live(bs, hi, src) && dst != src
    requires 0 <= i && i % 4 == 0 && i + 4 <= Room(bs, dst) && i + 4 <= Room(bs, src)
    requires Copied(m, m1, dst, src, i) && OthersSame(m, m1, bs, hi, dst)
    ensures var m2 := m1[dst + i := Rd(m1, src + i)];
            Copied(m, m2, dst, src, i + 4) && OthersSame(m, m2, bs, hi, dst)
  {
    var m2 := m1[dst + i := Rd(m1, src + i)];
    assert SamePayload(m, m1, src - 4, bs[src - 4].size);
    forall w | dst <= w < dst + i + 4 && (w - dst) % 4 == 0 ensures Rd(m2, w) == Rd(m, src + (w - dst)) {
      if w < dst + i {
        assert Rd(m1, w) == Rd(m, src + (w - dst));
      } else {
        DivMod4(w - dst - i, ((w - dst) / 4) - (i / 4), 0);
        assert Rd(m1, src + i) == Rd(m, src + i);
      }
    }
    forall q | Live(bs, hi, q) && q != dst ensures SamePayload(m, m2, q - 4, bs[q - 4].size) {
      LiveApart(m1, bs, lo, hi, ns, q, dst);
      SamePayloadWrite(m, m1, q - 4, bs[q - 4].size, dst + i, Rd(m1, src + i));
    }
  }

  lemma {:induction false} CopyStart(m: Memory, bs: Blocks, hi: int, dst: int, src: int)
    ensures Copied(m, m, dst, src, 0) && OthersSame(m, m, bs, hi, dst)
  {
  }

  lemma {:induction false} PayloadAddress(m: Memory, bs: Blocks, lo: int, hi: int, ns: seq<int>, p: int, i: int)
    requires Inv(m, bs, lo, hi, ns) && Live(bs, hi, p) && 0 <= i < Room(bs, p) && i % 4 == 0
    ensures (p + i) % 4 == 0 && InRange(lo, hi, p + i)
  {
    PayloadWord(bs, lo, hi, p, i);
  }

  lemma {:induction false} StepOf4(i: int, n: int)
    requires 0 <= i < n && i % 4 == 0 && n % 4 == 0
    ensures i + 4 <= n && (i + 4) % 4 == 0
  {
    DivMod4(i + 4, i / 4 + 1, 0);
  }

  // ---------- mm_init ----------

  lemma HeapStart(base: int)
    requires base % 8 == 0
    ensures base % 4 == 0 && (base + 4) % 4 == 0 && (base + 4) % 8 == 4
  {
    DivMod4(base, 2 * (base / 8), 0);
    DivMod4(base + 4, 2 * (base / 8) + 1, 0);
    DivMod8(base + 4, base / 8, 4);
  }

  /** A tail header and an empty list are a heap with nothing in it. */
  lemma EmptyHeap(m: Memory, lo: int)
    requires TOP < lo && lo + 4 < ALL_ONES && lo % 8 == 4 && Rd(m, lo) == 1 && Rd(m, TOP) == 0
    ensures var bs := map[lo := Block(0, false, 0)];
            Inv(m, bs, lo, lo, [TOP]) && Run([Heap(m, bs, lo, lo, [TOP])], [])
  {
    var bs := map[lo := Block(0, false, 0)];
    assert BlockOk(bs, lo, lo, lo) && HeaderOk(m, bs, lo, lo);
  }

  // ---------- mm_realloc ----------

  lemma {:induction false} LiveHeader(m: Memory, bs: Blocks, lo: int, hi: int, ns: seq<int>, p: int)
    requires Inv(m, bs, lo, hi, ns) && Live(bs, hi, p)
    ensures InRange(lo, hi, p - 4) && MmSize(Rd(m, p - 4)) == bs[p - 4].size
    ensures bs[p - 4].size % 8 == 0 && bs[p - 4].size >= 8 && (bs[p - 4].size - 4) % 4 == 0
  {
    HeaderRange(bs, lo, hi, p - 4);
    HeaderBits(m, bs, lo, hi, p - 4);
    assert BlockOk(bs, lo, hi, p - 4);
    AlignedBy4(bs[p - 4].size);
  }

  /** A bigger block size means a request of at least the old payload. */
  lemma {:induction false} BiggerRequest(size: int, oldsize: int)
    requires 0 <= size && size + 11 < TWO_32 && oldsize % 8 == 0 && oldsize < AlignRequest(size)
    ensures oldsize - 4 <= size
  {
    AlignRequestFits(size);
    var blksize := AlignRequest(size);
    DivMod8(blksize - oldsize, blksize / 8 - oldsize / 8, 0);
  }

  lemma MovedElsewhere(m: Memory, bs: Blocks, hi: int, m': Memory, bs': Blocks, hi': int, size: int, ptr: int, nptr: int)
    requires Moved(m, bs, hi, m', bs', hi', size, ptr, nptr)
    ensures nptr != ptr
  {
  }

  lemma {:induction false} StillLive(m: Memory, bs: Blocks, hi: int, m': Memory, bs': Blocks, hi': int, size: int, ptr: int, nptr: int)
    requires Live(bs, hi, ptr) && Allocated(m, bs, hi, m', bs', hi', size, nptr) && Room(bs, ptr) <= size
    ensures Live(bs', hi', ptr) && Live(bs', hi', nptr) && nptr != ptr
    ensures Room(bs', ptr) == Room(bs, ptr) <= Room(bs', nptr)
  {
    assert Live(bs', hi', ptr);
  }

  lemma {:induction false} MovedBy(m0: Memory, bs0: Blocks, hi0: int, m1: Memory, bs1: Blocks, hi1: int, m2: Memory,
                                   m3: Memory, bs3: Blocks, hi3: int, size: int, ptr: int, nptr: int)
    requires Live(bs0, hi0, ptr) && Allocated(m0, bs0, hi0, m1, bs1, hi1, size, nptr) && Room(bs0, ptr) <= size
    requires Copied(m1, m2, nptr, ptr, Room(bs0, ptr)) && OthersSame(m1, m2, bs1, hi1, nptr)
    requires Released(m2, bs1, hi1, m3, bs3, hi3, ptr)
    ensures Moved(m0, bs0, hi0, m3, bs3, hi3, size, ptr, nptr)
  {
    StillLive(m0, bs0, hi0, m1, bs1, hi1, size, ptr, nptr);
    assert Live(bs3, hi3, nptr) && Untouched(m2, m3, bs1, bs3, nptr);
    forall q ensures Live(bs3, hi3, q) <==> (Live(bs0, hi0, q) && q != ptr) || q == nptr {
      assert Live(bs3, hi3, q) <==> Live(bs1, hi1, q) && q != ptr;
      assert Live(bs1, hi1, q) <==> Live(bs0, hi0, q) || q == nptr;
    }
    forall q | Live(bs0, hi0, q) && q != ptr ensures q - 4 in bs3 && Untouched(m0, m3, bs0, bs3, q) {
      UntouchedTwice(m0, bs0, hi0, m1, bs1, hi1, m2, m3, bs3, hi3, size, ptr, nptr, q);
    }
    forall w | nptr <= w < nptr + Room(bs0, ptr) && (w - nptr) % 4 == 0 ensures Rd(m3, w) == Rd(m0, ptr + (w - nptr)) {
      assert Untouched(m0, m1, bs0, bs1, ptr);
      assert Rd(m2, w) == Rd(m1, ptr + (w - nptr));
      assert Rd(m1, ptr + (w - nptr)) == Rd(m0, ptr + (w - nptr));
    }
  }

  lemma {:induction false} UntouchedTwice(m0: Memory, bs0: Blocks, hi0: int, m1: Memory, bs1: Blocks, hi1: int, m2: Memory,
                                          m3: Memory, bs3: Blocks, hi3: int, size: int, ptr: int, nptr: int, q: int)
    requires Live(bs0, hi0, q) && q != ptr && Allocated(m0, bs0, hi0, m1, bs1, hi1, size, nptr)
    requires OthersSame(m1, m2, bs1, hi1, nptr) && Released(m2, bs1, hi1, m3, bs3, hi3, ptr)
    ensures q - 4 in bs3 && Untouched(m0, m3, bs0, bs3, q)
  {
    assert Live(bs1, hi1, q) && q != nptr;
    assert Untouched(m0, m1, bs0, bs1, q) && Untouched(m2, m3, bs1, bs3, q);
    forall w | q <= w < q - 4 + bs0[q - 4].size ensures Rd(m3, w) == Rd(m0, w) {
      assert Rd(m1, w) == Rd(m0, w);
      assert Rd(m2, w) == Rd(m1, w);
    }
  }
}
