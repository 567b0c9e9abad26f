/** Word-level effect of each allocator operation (mm.c), and the proof that it keeps the
    invariant.  Each lemma takes the exact stores the C code performs, in their order. */
module MmOps {
  import opened DivMod
  import opened MmBlocks
  import opened MmWords

  /** Every payload of a block allocated both before and after is the same. */
  ghost predicate KeepsPayloads(m: Memory, m': Memory, bs: Blocks, bs': Blocks) {
    forall a {:trigger SamePayload(m, m', a, bs[a].size)} ::
      a in bs && a in bs' && !bs[a].free && !bs'[a].free ==>
        bs'[a].size == bs[a].size && SamePayload(m, m', a, bs[a].size)
  }

  ghost predicate NoTombstones(bs: Blocks, ns: seq<int>) {
    |ns| >= 1 && forall n {:trigger n - 4 in bs} :: n in ns[1..] ==> n - 4 in bs
  }

  // ---------- Tombstone removal (get_target_block, lines 445-451) ----------

  lemma {:induction false} RemoveTombstone(m: Memory, bs: Blocks, lo: int, hi: int, ns: seq<int>, i: int)
    requires Inv(m, bs, lo, hi, ns) && 1 <= i < |ns| && ns[i] - 4 !in bs
    ensures var m' := m[ns[i - 1] := Rd(m, ns[i])];
            Inv(m', bs, lo, hi, Drop(ns, i)) && KeepsPayloads(m, m', bs, bs)
  {
    var ns', m' := Drop(ns, i), m[ns[i - 1] := Rd(m, ns[i])];
    if i > 1 { NodeAt(m, bs, lo, hi, ns, i - 1); }
    ChainDrop(m, ns, i);
    NodeWrite(m, bs, lo, hi, ns[i - 1], Rd(m, ns[i]));
    forall n | n in ns'[1..] ensures NodeOk(m', bs, lo, hi, n) {
      DropMembers(ns, i, n);
      assert NodeOk(m, bs, lo, hi, n);
    }
    forall a | a in bs && bs[a].free ensures a + 4 in ns'[1..] {
      DropMembers(ns, i, a + 4);
    }
    NodeWriteKeepsPayloads(m, bs, lo, hi, ns[i - 1], Rd(m, ns[i]));
  }

  lemma {:induction false} NodeWriteKeepsPayloads(m: Memory, bs: Blocks, lo: int, hi: int, n: int, v: int)
    requires TOP < lo && Tiles(bs, lo, hi)
    requires n == TOP || NodeOk(m, bs, lo, hi, n)
    ensures KeepsPayloads(m, m[n := v], bs, bs)
  {
    forall a | a in bs && !bs[a].free ensures SamePayload(m, m[n := v], a, bs[a].size) {
      NodeWordApart(m, bs, lo, hi, n, a);
    }
  }

  // ---------- Exact fit (malloc_existing_block, lines 307 and 315-318) ----------

  lemma {:induction false} TakeHeaders(m: Memory, bs: Blocks, lo: int, hi: int, p: int)
    requires TOP < lo && Tiles(bs, lo, hi) && Headers(m, bs, lo)
    requires p in bs && bs[p].free && Next(bs, p) in bs
    ensures var e := Next(bs, p);
            Headers(m[p := bs[p].size + 1][e := Hdr(bs, lo, e) - 2], Take(bs, p), lo)
    ensures Hdr(bs, lo, Next(bs, p)) == bs[Next(bs, p)].size + 3
  {
    var e, bs' := Next(bs, p), Take(bs, p);
    var m' := m[p := bs[p].size + 1][e := Hdr(bs, lo, e) - 2];
    assert BlockOk(bs, lo, hi, p) && BlockOk(bs, lo, hi, e);
    forall a | a in bs' ensures HeaderOk(m', bs', lo, a) {
      assert HeaderOk(m, bs, lo, a) && BlockOk(bs, lo, hi, a);
    }
  }

  /** With no tombstone on the list, dropping the node of `p` leaves exactly the free blocks. */
  lemma {:induction false} TakeNodes(m: Memory, m': Memory, bs: Blocks, lo: int, hi: int, ns: seq<int>, i: int, p: int)
    requires Inv(m, bs, lo, hi, ns) && NoTombstones(bs, ns)
    requires p in bs && bs[p].free && 1 <= i < |ns| && ns[i] == p + 4
    ensures Nodes(m', Take(bs, p), lo, hi, Drop(ns, i)) && Covers(Take(bs, p), Drop(ns, i))
    ensures NoTombstones(Take(bs, p), Drop(ns, i))
    ensures ns[i - 1] == TOP || NodeOk(m', Take(bs, p), lo, hi, ns[i - 1])
  {
    var bs', ns' := Take(bs, p), Drop(ns, i);
    forall n | n in ns'[1..] ensures NodeOk(m', bs', lo, hi, n) && n - 4 in bs' {
      DropMembers(ns, i, n);
      assert NodeOk(m, bs, lo, hi, n) && n - 4 in bs;
    }
    forall a | a in bs' && bs'[a].free ensures a + 4 in ns'[1..] {
      assert bs[a].free;
      DropMembers(ns, i, a + 4);
    }
    if i > 1 {
      assert ns'[i - 1] == ns[i - 1];
      NodeAt(m', bs', lo, hi, ns', i - 1);
    }
  }

  lemma {:induction false} TakeExact(m: Memory, bs: Blocks, lo: int, hi: int, ns: seq<int>, i: int, p: int)
    requires Inv(m, bs, lo, hi, ns) && NoTombstones(bs, ns)
    requires p in bs && bs[p].free && 1 <= i < |ns| && ns[i] == p + 4
    ensures Next(bs, p) in bs && Rd(m, Next(bs, p)) == bs[Next(bs, p)].size + 3
    ensures var e := Next(bs, p);
            var m2 := m[p := bs[p].size + 1][e := Rd(m, e) - 2];
            var m3 := m2[ns[i - 1] := Rd(m2, p + 4)];
            && Inv(m3, Take(bs, p), lo, hi, Drop(ns, i)) && NoTombstones(Take(bs, p), Drop(ns, i))
            && KeepsPayloads(m, m3, bs, Take(bs, p))
  {
    assert BlockOk(bs, lo, hi, p);
    var e := Next(bs, p);
    assert BlockOk(bs, lo, hi, e) && HeaderOk(m, bs, lo, e);
    var m1 := m[p := bs[p].size + 1];
    var m2 := m1[e := Rd(m, e) - 2];
    var m3 := m2[ns[i - 1] := Rd(m2, p + 4)];
    TakeTiles(bs, lo, hi, p);
    TakeHeaders(m, bs, lo, hi, p);
    HeaderNotNode(m, bs, lo, hi, ns, p);
    HeaderNotNode(m, bs, lo, hi, ns, e);
    ChainOther(m, ns, p, bs[p].size + 1);
    ChainOther(m1, ns, e, Rd(m, e) - 2);
    ChainDrop(m2, ns, i);
    TakeNodes(m, m2, bs, lo, hi, ns, i, p);
    TakeNodes(m, m3, bs, lo, hi, ns, i, p);
    NodeWrite(m2, Take(bs, p), lo, hi, ns[i - 1], Rd(m2, p + 4));
    TakeKeepsPayloads(m, bs, lo, hi, ns, i, p, Rd(m2, p + 4));
  }

  lemma {:induction false} TakeKeepsPayloads(m: Memory, bs: Blocks, lo: int, hi: int, ns: seq<int>, i: int, p: int, v: int)
    requires Inv(m, bs, lo, hi, ns) && 1 <= i < |ns|
    requires p in bs && bs[p].free && Next(bs, p) in bs
    ensures var e := Next(bs, p);
            KeepsPayloads(m, m[p := bs[p].size + 1][e := Rd(m, e) - 2][ns[i - 1] := v], bs, Take(bs, p))
  {
    var e, bs' := Next(bs, p), Take(bs, p);
    var m' := m[p := bs[p].size + 1][e := Rd(m, e) - 2][ns[i - 1] := v];
    if i > 1 { NodeAt(m, bs, lo, hi, ns, i - 1); }
    forall a | a in bs && a in bs' && !bs[a].free && !bs'[a].free
      ensures bs'[a].size == bs[a].size && SamePayload(m, m', a, bs[a].size)
    {
      NodeWordApart(m, bs, lo, hi, ns[i - 1], a);
      OrderAt(bs, lo, hi, a, p);
      OrderAt(bs, lo, hi, a, e);
    }
  }

  // ---------- Split (malloc_existing_block, lines 307-314) ----------

  lemma {:induction false} SplitHeaders(m: Memory, bs: Blocks, lo: int, hi: int, p: int, k: int)
    requires TOP < lo && Tiles(bs, lo, hi) && Headers(m, bs, lo)
    requires p in bs && bs[p].free && Next(bs, p) in bs
    requires 8 <= k < bs[p].size && k % 8 == 0
    ensures var r := bs[p].size - k;
            Headers(m[p := k + 1][p + k := r][p + bs[p].size - 4 := r + 4], Split(bs, p, k), lo)
  {
    var e, bs', r := Next(bs, p), Split(bs, p, k), bs[p].size - k;
    var m' := m[p := k + 1][p + k := r][p + bs[p].size - 4 := r + 4];
    assert BlockOk(bs, lo, hi, p) && BlockOk(bs, lo, hi, e);
    InsideIsFresh(bs, lo, hi, p, p + k);
    forall a | a in bs' ensures HeaderOk(m', bs', lo, a) {
      if a != p && a != p + k {
        assert HeaderOk(m, bs, lo, a) && BlockOk(bs, lo, hi, a);
        OrderAt(bs, lo, hi, a, p);
        if a != lo { OrderAt(bs, lo, hi, bs[a].prev, p); }
      }
    }
  }

  /** The node of the remainder is new to the list, and it is the node of a free block. */
  lemma {:induction false} RemainderNode(m: Memory, bs: Blocks, lo: int, hi: int, ns: seq<int>, p: int, k: int)
    requires Inv(m, bs, lo, hi, ns) && NoTombstones(bs, ns)
    requires p in bs && bs[p].free && Next(bs, p) in bs
    requires 8 <= k < bs[p].size && k % 8 == 0
    ensures p + k + 4 !in ns && p + k !in bs
    ensures (p + k + 4) % 8 == 0 && lo < p + k + 4 < hi
  {
    var n' := p + k + 4;
    assert BlockOk(bs, lo, hi, p) && BlockOk(bs, lo, hi, Next(bs, p));
    InsideIsFresh(bs, lo, hi, p, p + k);
    OrderAt(bs, lo, hi, p, hi);
    forall j | 0 <= j < |ns| ensures ns[j] != n' {
      if j > 0 { assert ns[j] in ns[1..] && ns[j] - 4 in bs; }
    }
  }

  lemma {:induction false} SplitNodes(m: Memory, m': Memory, bs: Blocks, lo: int, hi: int, ns: seq<int>, i: int, p: int, k: int)
    requires Inv(m, bs, lo, hi, ns) && NoTombstones(bs, ns)
    requires p in bs && bs[p].free && Next(bs, p) in bs
    requires 8 <= k < bs[p].size && k % 8 == 0
    requires 1 <= i < |ns| && ns[i] == p + 4
    ensures p + k + 4 !in ns
    ensures var bs', ns' := Split(bs, p, k), ns[i := p + k + 4];
            && Nodes(m', bs', lo, hi, ns') && Covers(bs', ns') && NoTombstones(bs', ns')
            && (ns[i - 1] == TOP || NodeOk(m', bs', lo, hi, ns[i - 1]))
            && NodeOk(m', bs', lo, hi, p + k + 4)
  {
    var bs', n' := Split(bs, p, k), p + k + 4;
    var ns' := ns[i := n'];
    RemainderNode(m, bs, lo, hi, ns, p, k);
    forall n | n in ns'[1..] ensures NodeOk(m', bs', lo, hi, n) && n - 4 in bs' {
      ReplaceMembers(ns, i, n', n);
      if n != n' {
        assert NodeOk(m, bs, lo, hi, n) && n - 4 in bs;
      }
    }
    forall a | a in bs' && bs'[a].free ensures a + 4 in ns'[1..] {
      ReplaceMembers(ns, i, n', a + 4);
      if a != p + k { assert bs[a].free; }
    }
    if i > 1 {
      assert ns'[i - 1] == ns[i - 1];
      NodeAt(m', bs', lo, hi, ns', i - 1);
    }
    NodeAt(m', bs', lo, hi, ns', i);
  }

  lemma {:induction false} TakeSplit(m: Memory, bs: Blocks, lo: int, hi: int, ns: seq<int>, i: int, p: int, k: int)
    requires Inv(m, bs, lo, hi, ns) && NoTombstones(bs, ns)
    requires p in bs && bs[p].free && 8 <= k < bs[p].size && k % 8 == 0
    requires 1 <= i < |ns| && ns[i] == p + 4
    ensures Next(bs, p) in bs
    ensures var r := bs[p].size - k;
            var m1 := m[p := k + 1][p + k := r][p + bs[p].size - 4 := r + 4];
            var m2 := m1[ns[i - 1] := p + k + 4];
            var m3 := m2[p + k + 4 := Rd(m2, p + 4)];
            && Inv(m3, Split(bs, p, k), lo, hi, ns[i := p + k + 4])
            && NoTombstones(Split(bs, p, k), ns[i := p + k + 4])
            && KeepsPayloads(m, m3, bs, Split(bs, p, k))
  {
    assert BlockOk(bs, lo, hi, p);
    SplitTiles(bs, lo, hi, p, k);
    var r, n', bs' := bs[p].size - k, p + k + 4, Split(bs, p, k);
    var ma := m[p := k + 1];
    var mb := ma[p + k := r];
    var m1 := mb[p + bs[p].size - 4 := r + 4];
    var m2 := m1[ns[i - 1] := n'];
    var m3 := m2[n' := Rd(m2, p + 4)];
    HeaderNotNode(m, bs, lo, hi, ns, p);
    HeaderNotNode(m, bs, lo, hi, ns, p + k);
    FooterNotNode(m, bs, lo, hi, ns, p);
    ChainOther(m, ns, p, k + 1);
    ChainOther(ma, ns, p + k, r);
    ChainOther(mb, ns, p + bs[p].size - 4, r + 4);
    SplitNodes(m, m1, bs, lo, hi, ns, i, p, k);
    SplitNodes(m, m2, bs, lo, hi, ns, i, p, k);
    SplitNodes(m, m3, bs, lo, hi, ns, i, p, k);
    assert ns[i - 1] != ns[i];
    ChainReplace(m1, ns, i, n');
    SplitHeaders(m, bs, lo, hi, p, k);
    NodeWrite(m1, bs', lo, hi, ns[i - 1], n');
    NodeWrite(m2, bs', lo, hi, n', Rd(m2, p + 4));
    SplitKeepsPayloads(m, bs, lo, hi, ns, i, p, k, Rd(m2, p + 4));
  }

  lemma {:induction false} SplitKeepsPayloads(m: Memory, bs: Blocks, lo: int, hi: int, ns: seq<int>, i: int, p: int, k: int, v: int)
    requires Inv(m, bs, lo, hi, ns) && 1 <= i < |ns|
    requires p in bs && bs[p].free && Next(bs, p) in bs && 8 <= k < bs[p].size
    ensures var m' := m[p := k + 1][p + k := bs[p].size - k][p + bs[p].size - 4 := bs[p].size - k + 4]
                       [ns[i - 1] := p + k + 4][p + k + 4 := v];
            KeepsPayloads(m, m', bs, Split(bs, p, k))
  {
    var bs' := Split(bs, p, k);
    var m' := m[p := k + 1][p + k := bs[p].size - k][p + bs[p].size - 4 := bs[p].size - k + 4]
               [ns[i - 1] := p + k + 4][p + k + 4 := v];
    InsideIsFresh(bs, lo, hi, p, p + k);
    if i > 1 { NodeAt(m, bs, lo, hi, ns, i - 1); }
    forall a | a in bs && a in bs' && !bs[a].free && !bs'[a].free
      ensures bs'[a].size == bs[a].size && SamePayload(m, m', a, bs[a].size)
    {
      NodeWordApart(m, bs, lo, hi, ns[i - 1], a);
      OrderAt(bs, lo, hi, a, p);
    }
  }

  // ---------- Heap growth (malloc_new_block, lines 334-352) ----------

  lemma {:induction false} GrowHeaders(m: Memory, bs: Blocks, lo: int, hi: int, p: int, k: int)
    requires TOP < lo && Tiles(bs, lo, hi) && Headers(m, bs, lo)
    requires p in bs && (p == hi || (bs[p].free && Next(bs, p) == hi)) && !PrevFree(bs, lo, p)
    requires bs[p].size < k && 8 <= k && k % 8 == 0
    ensures Headers(m[p := k + 1][p + k := 1], Grow(bs, hi, p, k), lo)
  {
    var bs', m' := Grow(bs, hi, p, k), m[p := k + 1][p + k := 1];
    assert BlockOk(bs, lo, hi, p);
    forall a | a in bs' ensures HeaderOk(m', bs', lo, a) {
      if a != p && a != p + k {
        assert HeaderOk(m, bs, lo, a) && BlockOk(bs, lo, hi, a);
        OrderAt(bs, lo, hi, a, p);
        OrderAt(bs, lo, hi, a, hi);
        if a != lo { PrevBefore(bs, lo, hi, a); }
      }
    }
  }

  /** Growing at `p`, once the list holds exactly the free blocks other than `p`. */
  lemma {:induction false} GrowInv(m: Memory, bs: Blocks, lo: int, hi: int, ns: seq<int>, p: int, k: int)
    requires TOP < lo && Tiles(bs, lo, hi) && Headers(m, bs, lo)
    requires p in bs && (p == hi || (bs[p].free && Next(bs, p) == hi)) && !PrevFree(bs, lo, p)
    requires bs[p].size < k && 8 <= k && k % 8 == 0 && p + k + 4 < ALL_ONES
    requires Chain(m, ns) && NoDup(ns)
    requires Nodes(m, Take(bs, p), lo, hi, ns) && Covers(Take(bs, p), ns) && NoTombstones(Take(bs, p), ns)
    ensures Inv(m[p := k + 1][p + k := 1], Grow(bs, hi, p, k), lo, p + k, ns)
    ensures NoTombstones(Grow(bs, hi, p, k), ns)
  {
    hide Chain, Headers, Tiles, Nodes, Covers, Grow, Take;
    GrowTiles(bs, lo, hi, p, k);
    GrowHeaders(m, bs, lo, hi, p, k);
    GrowChain(m, bs, lo, hi, ns, p, k);
    GrowNodes(m, bs, lo, hi, ns, p, k);
  }

  lemma {:induction false} GrowChain(m: Memory, bs: Blocks, lo: int, hi: int, ns: seq<int>, p: int, k: int)
    requires TOP < lo && Tiles(bs, lo, hi) && p in bs && k >= 8 && k % 8 == 0
    requires Chain(m, ns) && Nodes(m, Take(bs, p), lo, hi, ns)
    ensures Chain(m[p := k + 1][p + k := 1], ns)
  {
    hide Chain, Nodes, Take;
    var m1 := m[p := k + 1];
    assert BlockOk(bs, lo, hi, p);
    DivMod8(p + k, p / 8 + k / 8, 4);
    HeaderNotNode(m, Take(bs, p), lo, hi, ns, p);
    HeaderNotNode(m, Take(bs, p), lo, hi, ns, p + k);
    hide Tiles, BlockOk;
    ChainOther(m, ns, p, k + 1);
    ChainOther(m1, ns, p + k, 1);
  }

  lemma {:induction false} GrowNodes(m: Memory, bs: Blocks, lo: int, hi: int, ns: seq<int>, p: int, k: int)
    requires Tiles(bs, lo, hi) && p in bs && (p == hi || (bs[p].free && Next(bs, p) == hi)) && bs[p].size < k
    requires Nodes(m, Take(bs, p), lo, hi, ns) && Covers(Take(bs, p), ns) && NoTombstones(Take(bs, p), ns)
    ensures Nodes(m[p := k + 1][p + k := 1], Grow(bs, hi, p, k), lo, p + k, ns)
    ensures Covers(Grow(bs, hi, p, k), ns) && NoTombstones(Grow(bs, hi, p, k), ns)
  {
    var bs', m' := Grow(bs, hi, p, k), m[p := k + 1][p + k := 1];
    OrderAt(bs, lo, hi, p, hi);
    assert BlockOk(bs, lo, hi, p);
    hide Tiles, BlockOk;
    forall n | n in ns[1..] ensures NodeOk(m', bs', lo, p + k, n) && n - 4 in bs' {
      assert NodeOk(m, Take(bs, p), lo, hi, n) && n - 4 in Take(bs, p);
      GrowNode(bs, lo, hi, p, n);
    }
    forall a | a in bs' && bs'[a].free ensures a + 4 in ns[1..] {
      assert Take(bs, p)[a].free;
    }
  }

  lemma {:induction false} GrowNode(bs: Blocks, lo: int, hi: int, p: int, n: int)
    requires Tiles(bs, lo, hi) && p in bs && (p == hi || Next(bs, p) == hi)
    requires n - 4 in bs && bs[n - 4].free && n - 4 != p
    ensures n - 4 < p && n - 4 != hi && n - 4 in bs
  {
    assert BlockOk(bs, lo, hi, hi) && BlockOk(bs, lo, hi, p);
    assert BlockOk(bs, lo, hi, n - 4);
    OrderAt(bs, lo, hi, n - 4, p);
  }

  lemma {:induction false} GrowKeepsPayloads(m: Memory, m1: Memory, bs: Blocks, lo: int, hi: int, p: int, k: int)
    requires Tiles(bs, lo, hi) && KeepsPayloads(m, m1, bs, bs)
    requires p in bs && (p == hi || (bs[p].free && Next(bs, p) == hi)) && bs[p].size < k
    ensures KeepsPayloads(m, m1[p := k + 1][p + k := 1], bs - {hi}, Grow(bs, hi, p, k))
  {
    var bs', m' := Grow(bs, hi, p, k), m1[p := k + 1][p + k := 1];
    forall a | a in bs - {hi} && a in bs' && !bs[a].free && !bs'[a].free
      ensures bs'[a].size == bs[a].size && SamePayload(m, m', a, bs[a].size)
    {
      assert SamePayload(m, m1, a, bs[a].size) && BlockOk(bs, lo, hi, a);
      OrderAt(bs, lo, hi, a, p);
      OrderAt(bs, lo, hi, a, hi);
      assert BlockOk(bs, lo, hi, p);
      SamePayloadWrite(m, m1, a, bs[a].size, p, k + 1);
      SamePayloadWrite(m, m1[p := k + 1], a, bs[a].size, p + k, 1);
    }
  }

  /** Growth when the last block is allocated. */
  lemma {:induction false} GrowTail(m: Memory, bs: Blocks, lo: int, hi: int, ns: seq<int>, k: int)
    requires Inv(m, bs, lo, hi, ns) && NoTombstones(bs, ns) && !PrevFree(bs, lo, hi)
    requires 8 <= k && k % 8 == 0 && hi + k + 4 < ALL_ONES
    ensures var m' := m[hi := k + 1][hi + k := 1];
            && Inv(m', Grow(bs, hi, hi, k), lo, hi + k, ns) && NoTombstones(Grow(bs, hi, hi, k), ns)
            && KeepsPayloads(m, m', bs - {hi}, Grow(bs, hi, hi, k))
  {
    assert BlockOk(bs, lo, hi, hi);
    assert Take(bs, hi) == bs;
    GrowInv(m, bs, lo, hi, ns, hi, k);
    GrowKeepsPayloads(m, m, bs, lo, hi, hi, k);
  }

  /** Growth that starts inside the trailing free block `p`, which leaves the list first. */
  lemma {:induction false} GrowTrailing(m: Memory, bs: Blocks, lo: int, hi: int, ns: seq<int>, i: int, p: int, k: int)
    requires Inv(m, bs, lo, hi, ns) && NoTombstones(bs, ns)
    requires p in bs && bs[p].free && Next(bs, p) == hi && 1 <= i < |ns| && ns[i] == p + 4
    requires bs[p].size < k && k % 8 == 0 && p + k + 4 < ALL_ONES
    ensures var m1 := m[ns[i - 1] := Rd(m, p + 4)];
            var m' := m1[p := k + 1][p + k := 1];
            && Inv(m', Grow(bs, hi, p, k), lo, p + k, Drop(ns, i)) && NoTombstones(Grow(bs, hi, p, k), Drop(ns, i))
            && KeepsPayloads(m, m', bs - {hi}, Grow(bs, hi, p, k))
  {
    var v := Rd(m, p + 4);
    var m1 := m[ns[i - 1] := v];
    assert BlockOk(bs, lo, hi, p);
    if i > 1 { NodeAt(m, bs, lo, hi, ns, i - 1); }
    ChainDrop(m, ns, i);
    TakeNodes(m, m1, bs, lo, hi, ns, i, p);
    NodeWrite(m, bs, lo, hi, ns[i - 1], v);
    GrowInv(m1, bs, lo, hi, Drop(ns, i), p, k);
    NodeWriteKeepsPayloads(m, bs, lo, hi, ns[i - 1], v);
    GrowKeepsPayloads(m, m1, bs, lo, hi, p, k);
  }

  // ---------- Coalescing (free_coalesce, lines 360-420) ----------

  /** Only words of [s, e] and node words differ between the two memories. */
  ghost predicate WritesWithin(m: Memory, m': Memory, ns: seq<int>, s: int, e: int) {
    forall w {:trigger Rd(m', w)} :: w !in ns && !(s <= w <= e) ==> Rd(m', w) == Rd(m, w)
  }

  lemma {:induction false} WordNotNode(m: Memory, bs: Blocks, lo: int, hi: int, ns: seq<int>, a: int, w: int)
    requires Inv(m, bs, lo, hi, ns) && a in bs
    requires w == a || (!bs[a].free && a < w < a + bs[a].size)
             || (bs[a].free && bs[a].size > 8 && w == a + bs[a].size - 4)
    ensures w !in ns
  {
    forall k | 0 <= k < |ns| ensures ns[k] != w {
      if k > 0 { NodeAt(m, bs, lo, hi, ns, k); }
      NodeWordApart(m, bs, lo, hi, ns[k], a);
    }
  }

  lemma {:induction false} MergeHeaderOk(m: Memory, m': Memory, bs: Blocks, lo: int, hi: int, ns: seq<int>, s: int, e: int, a: int)
    requires Inv(m, bs, lo, hi, ns) && s in bs && e in bs && s < e && a in bs
    requires WritesWithin(m, m', ns, s, e) && (a < s || e < a)
    ensures HeaderOk(m', Merge(bs, s, e), lo, a)
  {
    assert HeaderOk(m, bs, lo, a) && BlockOk(bs, lo, hi, a);
    if a != lo { PrevBefore(bs, lo, hi, a); }
    if a < s {
      OrderAt(bs, lo, hi, a, s);
    } else {
      assert BlockOk(bs, lo, hi, e);
      OrderAt(bs, lo, hi, bs[a].prev, e);
    }
    WordNotNode(m, bs, lo, hi, ns, a, a);
    if bs[a].free && bs[a].size > 8 {
      WordNotNode(m, bs, lo, hi, ns, a, a + bs[a].size - 4);
    }
  }

  lemma {:induction false} MergeHeaders(m: Memory, m': Memory, bs: Blocks, lo: int, hi: int, ns: seq<int>, s: int, e: int)
    requires Inv(m, bs, lo, hi, ns) && s in bs && e in bs && s < e
    requires !PrevFree(bs, lo, s) && !bs[e].free && WritesWithin(m, m', ns, s, e)
    requires Rd(m', s) == e - s && (e - s > 8 ==> Rd(m', e - 4) == e - s + 4) && Rd(m', e) == bs[e].size + 3
    ensures Headers(m', Merge(bs, s, e), lo)
    ensures KeepsPayloads(m, m', bs, Merge(bs, s, e))
  {
    var bs' := Merge(bs, s, e);
    assert BlockOk(bs, lo, hi, s) && BlockOk(bs, lo, hi, e);
    forall a | a in bs' ensures HeaderOk(m', bs', lo, a) {
      if a != s && a != e {
        MergeHeaderOk(m, m', bs, lo, hi, ns, s, e, a);
      } else {
        OrderAt(bs, lo, hi, lo, s);
        assert BlockOk(bs, lo, hi, lo);
      }
    }
    forall a | a in bs && a in bs' && !bs[a].free && !bs'[a].free
      ensures bs'[a].size == bs[a].size && SamePayload(m, m', a, bs[a].size)
    {
      OrderAt(bs, lo, hi, a, s);
      forall w | a + 4 <= w < a + bs[a].size ensures Rd(m', w) == Rd(m, w) {
        WordNotNode(m, bs, lo, hi, ns, a, w);
      }
    }
  }

  /** Being apart from two neighbours is being apart from their union. */
  lemma {:induction false} ApartJoin(n: int, x: int, b0: Block, b1: Block)
    requires Apart(n, x, b0) && Apart(n, x + b0.size, b1) && 0 <= b0.size && 0 <= b1.size
    ensures Apart(n, x, Block(b0.size + b1.size, true, 0))
  {
  }

  /** Words that could be the mark of a tombstone are untouched. */
  ghost predicate KeepsMarks(m: Memory, m': Memory, bs: Blocks) {
    forall w {:trigger Rd(m', w)} :: w % 8 == 4 && w !in bs && w != TOP ==> Rd(m', w) == Rd(m, w)
  }

  /** A node that was on the list before is still a proper node after the merge. */
  lemma {:induction false} MergeOldNode(m: Memory, m': Memory, bs: Blocks, lo: int, hi: int, ns: seq<int>, s: int, e: int, n: int)
    requires Inv(m, bs, lo, hi, ns) && s in bs && e in bs && s < e && !bs[e].free
    requires n in ns[1..] && (n - 4 in bs ==> n - 4 <= s || e <= n - 4) && KeepsMarks(m, m', bs)
    requires n - 4 !in bs ==> Apart(n, s, Block(e - s, true, 0))
    ensures NodeOk(m', Merge(bs, s, e), lo, hi, n)
  {
    var bs' := Merge(bs, s, e);
    assert NodeOk(m, bs, lo, hi, n) && BlockOk(bs, lo, hi, lo);
    if n - 4 !in bs {
      forall a | a in bs' ensures Apart(n, a, bs'[a]) {
        assert Apart(n, a, bs[a]);
      }
    }
  }

  /** The three stores that end free_coalesce (lines 412-417). */
  ghost function Sealed(m: Memory, bs: Blocks, s: int, e: int): Memory
    requires e in bs
  {
    m[s := e - s][e - 4 := e - s + 4][e := bs[e].size + 3]
  }

  /** When line 417 reads the header of the block after the merge, it is still the old one. */
  ghost predicate SealReads(m: Memory, m1: Memory, bs: Blocks, s: int, e: int) {
    Rd(m1[s := e - s][e - 4 := e - s + 4], e) == Rd(m, e)
  }

  lemma {:induction false} SealedChain(m: Memory, bs: Blocks, ns: seq<int>, s: int, e: int)
    requires e in bs && Chain(m, ns) && s !in ns && e !in ns && e - 4 !in ns
    ensures Chain(Sealed(m, bs, s, e), ns)
  {
    ChainOther(m, ns, s, e - s);
    ChainOther(m[s := e - s], ns, e - 4, e - s + 4);
    ChainOther(m[s := e - s][e - 4 := e - s + 4], ns, e, bs[e].size + 3);
  }

  /** The new free block's node is a proper node. */
  lemma {:induction false} MergedNodeOk(m: Memory, bs: Blocks, lo: int, hi: int, s: int, e: int)
    requires Tiles(bs, lo, hi) && s in bs && e in bs && s < e
    ensures NodeOk(m, Merge(bs, s, e), lo, hi, s + 4)
  {
    assert BlockOk(bs, lo, hi, s) && BlockOk(bs, lo, hi, e);
    OrderAt(bs, lo, hi, s, e);
  }

  // Previous and next block allocated: the block goes to the top of the list.

  lemma {:induction false} FreeAlone(m: Memory, bs: Blocks, lo: int, hi: int, ns: seq<int>, b: int)
    requires Inv(m, bs, lo, hi, ns) && b in bs && b != hi && !bs[b].free && !PrevFree(bs, lo, b)
    requires Next(bs, b) in bs && !bs[Next(bs, b)].free
    ensures var e := Next(bs, b);
            var m1 := Sealed(m, bs, b, e);
            var m' := m1[b + 4 := Rd(m1, TOP)][TOP := b + 4];
            && b < e && Inv(m', Merge(bs, b, e), lo, hi, Put(ns, 1, b + 4))
            && SealReads(m, m, bs, b, e)
            && KeepsPayloads(m, m', bs, Merge(bs, b, e))
  {
    var e, n := Next(bs, b), b + 4;
    assert BlockOk(bs, lo, hi, b);
    var m1 := Sealed(m, bs, b, e);
    var m' := m1[n := Rd(m1, TOP)][TOP := n];
    var ns', bs' := Put(ns, 1, n), Merge(bs, b, e);
    WordNotNode(m, bs, lo, hi, ns, b, e - 4);
    WordNotNode(m, bs, lo, hi, ns, b, n);
    WordNotNode(m, bs, lo, hi, ns, b, b);
    WordNotNode(m, bs, lo, hi, ns, e, e);
    SealedChain(m, bs, ns, b, e);
    ChainPut(m1, ns, 1, n);
    MergeTiles(bs, lo, hi, b, e);
    MergeHeaders(m, m', bs, lo, hi, ns, b, e);
    FreeAloneNodes(m, m', bs, lo, hi, ns, b);
  }

  lemma {:induction false} FreeAloneNodes(m: Memory, m': Memory, bs: Blocks, lo: int, hi: int, ns: seq<int>, b: int)
    requires Inv(m, bs, lo, hi, ns) && b in bs && b != hi && !bs[b].free
    requires Next(bs, b) in bs && !bs[Next(bs, b)].free && b < Next(bs, b) && KeepsMarks(m, m', bs)
    ensures var bs', ns' := Merge(bs, b, Next(bs, b)), Put(ns, 1, b + 4);
            Nodes(m', bs', lo, hi, ns') && Covers(bs', ns')
  {
    var e := Next(bs, b);
    var ns', bs' := Put(ns, 1, b + 4), Merge(bs, b, e);
    MergedNodeOk(m', bs, lo, hi, b, e);
    forall n | n in ns'[1..] ensures NodeOk(m', bs', lo, hi, n) {
      PutMembers(ns, 1, b + 4, n);
      if n != b + 4 {
        assert NodeOk(m, bs, lo, hi, n);
        if n - 4 in bs {
          OrderAt(bs, lo, hi, b, n - 4);
        } else {
          assert Apart(n, b, bs[b]);
        }
        MergeOldNode(m, m', bs, lo, hi, ns, b, e, n);
      }
    }
    forall a | a in bs' && bs'[a].free ensures a + 4 in ns'[1..] {
      PutMembers(ns, 1, b + 4, a + 4);
      if a != b { assert bs[a].free; }
    }
  }

  /** Headers and payloads when the list surgery comes first and the seal last. */
  lemma {:induction false} SealedHeaders(m: Memory, m1: Memory, bs: Blocks, lo: int, hi: int, ns: seq<int>, s: int, e: int)
    requires Inv(m, bs, lo, hi, ns) && s in bs && e in bs && s < e
    requires !PrevFree(bs, lo, s) && !bs[e].free && WritesWithin(m, m1, ns, s, e)
    ensures Tiles(Merge(bs, s, e), lo, hi)
    ensures Headers(Sealed(m1, bs, s, e), Merge(bs, s, e), lo)
    ensures KeepsPayloads(m, Sealed(m1, bs, s, e), bs, Merge(bs, s, e))
  {
    var m' := Sealed(m1, bs, s, e);
    assert BlockOk(bs, lo, hi, s) && BlockOk(bs, lo, hi, e);
    OrderAt(bs, lo, hi, s, e);
    forall w | w !in ns && !(s <= w <= e) ensures Rd(m', w) == Rd(m, w) {
      assert Rd(m1, w) == Rd(m, w);
    }
    MergeTiles(bs, lo, hi, s, e);
    MergeHeaders(m, m', bs, lo, hi, ns, s, e);
  }

  lemma {:induction false} SealedMarks(m: Memory, m1: Memory, bs: Blocks, lo: int, hi: int, s: int, e: int)
    requires Tiles(bs, lo, hi) && s in bs && e in bs && KeepsMarks(m, m1, bs)
    ensures KeepsMarks(m, Sealed(m1, bs, s, e), bs)
  {
    assert BlockOk(bs, lo, hi, e);
    forall w | w % 8 == 4 && w !in bs && w != TOP ensures Rd(Sealed(m1, bs, s, e), w) == Rd(m, w) {
      assert Rd(m1, w) == Rd(m, w);
    }
  }

  /** Where an old node lies relative to the neighbours `x` and `y`, when it is not `y`'s own. */
  lemma {:induction false} NodeOverPair(m: Memory, bs: Blocks, lo: int, hi: int, ns: seq<int>, x: int, y: int, n: int)
    requires Inv(m, bs, lo, hi, ns) && n in ns[1..] && n != y + 4
    requires x in bs && y in bs && Next(bs, x) == y
    ensures n - 4 in bs ==> n - 4 <= x || Next(bs, y) <= n - 4
    ensures n - 4 !in bs ==> Apart(n, x, Block(bs[x].size + bs[y].size, true, 0))
  {
    assert NodeOk(m, bs, lo, hi, n) && BlockOk(bs, lo, hi, x) && BlockOk(bs, lo, hi, y);
    if n - 4 in bs {
      OrderAt(bs, lo, hi, x, n - 4);
      OrderAt(bs, lo, hi, y, n - 4);
    } else {
      assert Apart(n, x, bs[x]) && Apart(n, y, bs[y]);
      ApartJoin(n, x, bs[x], bs[y]);
    }
  }

  /** The merged row is covered once every free block outside the merge and `s` itself are. */
  lemma {:induction false} MergeCovers(bs: Blocks, ns': seq<int>, s: int, e: int)
    requires s in bs && e in bs && s < e && !bs[e].free && |ns'| >= 1
    requires forall a {:trigger bs[a].free} :: a in bs && bs[a].free && (a < s || e < a) ==> a + 4 in ns'[1..]
    requires s + 4 in ns'[1..]
    ensures Covers(Merge(bs, s, e), ns')
  {
    var bs' := Merge(bs, s, e);
    forall a | a in bs' && bs'[a].free ensures a + 4 in ns'[1..] {
      if a != s { assert bs[a].free; }
    }
  }

  // Previous block free, next allocated: the previous block grows and keeps its node.

  lemma {:induction false} FreeIntoPrevNodes(m: Memory, m': Memory, bs: Blocks, lo: int, hi: int, ns: seq<int>, p: int, b: int)
    requires Inv(m, bs, lo, hi, ns) && b in bs && b != hi && !bs[b].free
    requires p in bs && bs[p].free && Next(bs, p) == b && Next(bs, b) in bs && !bs[Next(bs, b)].free
    requires p < Next(bs, b) && KeepsMarks(m, m', bs)
    ensures Nodes(m', Merge(bs, p, Next(bs, b)), lo, hi, ns) && Covers(Merge(bs, p, Next(bs, b)), ns)
  {
    var e := Next(bs, b);
    var bs' := Merge(bs, p, e);
    forall n | n in ns[1..] ensures NodeOk(m', bs', lo, hi, n) {
      assert NodeOk(m, bs, lo, hi, n);
      NodeOverPair(m, bs, lo, hi, ns, p, b, n);
      MergeOldNode(m, m', bs, lo, hi, ns, p, e, n);
    }
    MergeCovers(bs, ns, p, e);
  }

  lemma {:induction false} FreeIntoPrev(m: Memory, bs: Blocks, lo: int, hi: int, ns: seq<int>, p: int, b: int)
    requires Inv(m, bs, lo, hi, ns) && b in bs && b != hi && !bs[b].free
    requires p in bs && bs[p].free && Next(bs, p) == b && Next(bs, b) in bs && !bs[Next(bs, b)].free
    ensures var e := Next(bs, b);
            var m' := Sealed(m, bs, p, e);
            && p < e && Inv(m', Merge(bs, p, e), lo, hi, ns)
            && SealReads(m, m, bs, p, e)
            && KeepsPayloads(m, m', bs, Merge(bs, p, e))
  {
    var e := Next(bs, b);
    assert BlockOk(bs, lo, hi, b) && BlockOk(bs, lo, hi, p);
    WordNotNode(m, bs, lo, hi, ns, b, e - 4);
    WordNotNode(m, bs, lo, hi, ns, p, p);
    WordNotNode(m, bs, lo, hi, ns, e, e);
    SealedChain(m, bs, ns, p, e);
    SealedHeaders(m, m, bs, lo, hi, ns, p, e);
    SealedMarks(m, m, bs, lo, hi, p, e);
    FreeIntoPrevNodes(m, Sealed(m, bs, p, e), bs, lo, hi, ns, p, b);
  }

  lemma {:induction false} ThreeNeighbours(bs: Blocks, lo: int, hi: int, p: int, b: int, c: int)
    requires Tiles(bs, lo, hi) && p in bs && b in bs && c in bs && Next(bs, p) == b && Next(bs, b) == c
    requires bs[p].free && !bs[b].free && b != hi && bs[c].free
    ensures Next(bs, c) in bs && p < b < c < Next(bs, c)
    ensures !PrevFree(bs, lo, p) && !bs[Next(bs, c)].free
  {
    assert BlockOk(bs, lo, hi, p) && BlockOk(bs, lo, hi, b) && BlockOk(bs, lo, hi, c);
    assert BlockOk(bs, lo, hi, Next(bs, c));
  }

  // Previous and next free: the next block leaves the list, the previous one swallows both.

  lemma {:induction false} FreeBetween(m: Memory, bs: Blocks, lo: int, hi: int, ns: seq<int>, j: int, p: int, b: int, c: int)
    requires Inv(m, bs, lo, hi, ns) && b in bs && b != hi && !bs[b].free
    requires p in bs && bs[p].free && Next(bs, p) == b
    requires c in bs && bs[c].free && Next(bs, b) == c && 1 <= j < |ns| && ns[j] == c + 4
    ensures Next(bs, c) in bs
    ensures var e := Next(bs, c);
            var m1 := m[ns[j - 1] := Rd(m, c + 4)];
            var m' := Sealed(m1, bs, p, e);
            && p < e && Inv(m', Merge(bs, p, e), lo, hi, Drop(ns, j))
            && SealReads(m, m1, bs, p, e)
            && KeepsPayloads(m, m', bs, Merge(bs, p, e))
  {
    ThreeNeighbours(bs, lo, hi, p, b, c);
    var e := Next(bs, c);
    var m1 := m[ns[j - 1] := Rd(m, c + 4)];
    DropSealedChain(m, bs, lo, hi, ns, j, p, c);
    SealedHeaders(m, m1, bs, lo, hi, ns, p, e);
    WordNotNode(m, bs, lo, hi, ns, e, e);
    ListWriteKeepsMarks(m, bs, lo, hi, ns, j - 1, Rd(m, c + 4));
    SealedMarks(m, m1, bs, lo, hi, p, e);
    FreeBetweenNodes(m, Sealed(m1, bs, p, e), bs, lo, hi, ns, j, p, b, c);
    DropCovers(bs, ns, j, p, c, e);
  }

  lemma {:induction false} DropSealedChain(m: Memory, bs: Blocks, lo: int, hi: int, ns: seq<int>, j: int, s: int, c: int)
    requires Inv(m, bs, lo, hi, ns) && s in bs && c in bs && bs[c].free && Next(bs, c) in bs
    requires 1 <= j < |ns| && ns[j] == c + 4
    ensures Chain(Sealed(m[ns[j - 1] := Rd(m, c + 4)], bs, s, Next(bs, c)), Drop(ns, j)) && NoDup(Drop(ns, j))
  {
    var ns' := Drop(ns, j);
    ChainDrop(m, ns, j);
    DropNotFooter(m, bs, lo, hi, ns, j, c);
    WordNotNode(m, bs, lo, hi, ns, s, s);
    WordNotNode(m, bs, lo, hi, ns, Next(bs, c), Next(bs, c));
    SealedChain(m[ns[j - 1] := Rd(m, c + 4)], bs, ns', s, Next(bs, c));
  }

  /** Writing a node word marks and unmarks nothing. */
  lemma {:induction false} ListWriteKeepsMarks(m: Memory, bs: Blocks, lo: int, hi: int, ns: seq<int>, k: int, v: int)
    requires Inv(m, bs, lo, hi, ns) && 0 <= k < |ns|
    ensures KeepsMarks(m, m[ns[k] := v], bs)
  {
    if k > 0 { NodeAt(m, bs, lo, hi, ns, k); }
  }

  /** Neither the footer nor the node of the free block `c` is left on a list without `c`. */
  lemma {:induction false} DropNotFooter(m: Memory, bs: Blocks, lo: int, hi: int, ns: seq<int>, j: int, c: int)
    requires Inv(m, bs, lo, hi, ns) && c in bs && bs[c].free && 1 <= j < |ns| && ns[j] == c + 4
    ensures Next(bs, c) - 4 !in Drop(ns, j)
  {
    assert BlockOk(bs, lo, hi, c);
    assert forall k :: 0 <= k < |Drop(ns, j)| ==> Drop(ns, j)[k] != ns[j];
    if bs[c].size > 8 {
      WordNotNode(m, bs, lo, hi, ns, c, Next(bs, c) - 4);
    }
  }

  lemma {:induction false} FreeBetweenNodes(m: Memory, m': Memory, bs: Blocks, lo: int, hi: int, ns: seq<int>, j: int, p: int, b: int, c: int)
    requires Inv(m, bs, lo, hi, ns) && !(b in bs && bs[b].free)
    requires p in bs && b in bs && c in bs && Next(bs, p) == b && Next(bs, b) == c
    requires 1 <= j < |ns| && ns[j] == c + 4
    requires Next(bs, c) in bs && !bs[Next(bs, c)].free && p < Next(bs, c) && KeepsMarks(m, m', bs)
    ensures Nodes(m', Merge(bs, p, Next(bs, c)), lo, hi, Drop(ns, j))
  {
    var e := Next(bs, c);
    var bs', ns' := Merge(bs, p, e), Drop(ns, j);
    forall n | n in ns'[1..] ensures NodeOk(m', bs', lo, hi, n) {
      DropMembers(ns, j, n);
      NodeOverTriple(m, bs, lo, hi, ns, p, b, c, n);
      MergeOldNode(m, m', bs, lo, hi, ns, p, e, n);
    }
  }

  lemma {:induction false} DropCovers(bs: Blocks, ns: seq<int>, j: int, s: int, c: int, e: int)
    requires NoDup(ns) && Covers(bs, ns) && 1 <= j < |ns| && ns[j] == c + 4
    requires s in bs && bs[s].free && e in bs && !bs[e].free && s < c < e
    ensures Covers(Merge(bs, s, e), Drop(ns, j))
  {
    forall a | a in bs && bs[a].free && (a <= s || e < a) ensures a + 4 in Drop(ns, j)[1..] {
      DropMembers(ns, j, a + 4);
    }
    MergeCovers(bs, Drop(ns, j), s, e);
  }

  lemma {:induction false} NodeOverTriple(m: Memory, bs: Blocks, lo: int, hi: int, ns: seq<int>, p: int, b: int, c: int, n: int)
    requires Inv(m, bs, lo, hi, ns) && n in ns[1..] && n != c + 4
    requires p in bs && b in bs && c in bs && !bs[b].free && Next(bs, p) == b && Next(bs, b) == c
    ensures n - 4 in bs ==> n - 4 <= p || Next(bs, c) <= n - 4
    ensures n - 4 !in bs ==> Apart(n, p, Block(Next(bs, c) - p, true, 0))
  {
    assert NodeOk(m, bs, lo, hi, n);
    assert BlockOk(bs, lo, hi, p) && BlockOk(bs, lo, hi, b) && BlockOk(bs, lo, hi, c) && BlockOk(bs, lo, hi, hi);
    NodeOverPair(m, bs, lo, hi, ns, p, b, n);
    NodeOverPair(m, bs, lo, hi, ns, b, c, n);
    if n - 4 !in bs {
      assert Apart(n, c, bs[c]);
      ApartJoin(n, p, Block(bs[p].size + bs[b].size, true, 0), bs[c]);
    }
  }

  lemma {:induction false} TwoNeighbours(bs: Blocks, lo: int, hi: int, b: int, c: int)
    requires Tiles(bs, lo, hi) && b in bs && c in bs && Next(bs, b) == c && b != hi && bs[c].free
    ensures Next(bs, c) in bs && b + 8 <= c && c + 8 <= Next(bs, c) && !bs[Next(bs, c)].free
    ensures b % 8 == 4 && c % 8 == 4 && lo <= b && Next(bs, c) <= hi && bs[c].size % 8 == 0
  {
    assert BlockOk(bs, lo, hi, b) && BlockOk(bs, lo, hi, c);
    assert BlockOk(bs, lo, hi, Next(bs, c));
  }

  /** The payload address of an allocated block is not on the list. */
  lemma {:induction false} PayloadNotNode(m: Memory, bs: Blocks, lo: int, hi: int, ns: seq<int>, b: int)
    requires Inv(m, bs, lo, hi, ns) && b in bs && !bs[b].free && b != hi
    ensures b + 4 !in ns
  {
    assert BlockOk(bs, lo, hi, b);
    WordNotNode(m, bs, lo, hi, ns, b, b + 4);
  }

  // Previous allocated, next free with 8 bytes: the node of the block replaces the next one's.

  lemma {:induction false} FreeReplacing(m: Memory, bs: Blocks, lo: int, hi: int, ns: seq<int>, j: int, b: int, c: int)
    requires Inv(m, bs, lo, hi, ns) && b in bs && b != hi && !bs[b].free && !PrevFree(bs, lo, b)
    requires c in bs && bs[c].free && bs[c].size == 8 && Next(bs, b) == c && 1 <= j < |ns| && ns[j] == c + 4
    ensures Next(bs, c) in bs && b < Next(bs, c)
    ensures var e := Next(bs, c);
            var m1 := m[ns[j - 1] := b + 4];
            var m' := Sealed(m1[b + 4 := Rd(m1, c + 4)], bs, b, e);
            && Inv(m', Merge(bs, b, e), lo, hi, ns[j := b + 4])
            && SealReads(m, m1[b + 4 := Rd(m1, c + 4)], bs, b, e)
            && KeepsPayloads(m, m', bs, Merge(bs, b, e))
  {
    TwoNeighbours(bs, lo, hi, b, c);
    var e := Next(bs, c);
    var m2 := m[ns[j - 1] := b + 4][b + 4 := Rd(m, c + 4)];
    assert Rd(m[ns[j - 1] := b + 4], c + 4) == Rd(m, c + 4) by { assert ns[j - 1] != ns[j]; }
    PayloadNotNode(m, bs, lo, hi, ns, b);
    ReplaceSealedChain(m, bs, lo, hi, ns, j, b, c);
    ReplaceWrites(m, bs, lo, hi, ns, j, b, e, Rd(m, c + 4));
    SealedHeaders(m, m2, bs, lo, hi, ns, b, e);
    WordNotNode(m, bs, lo, hi, ns, e, e);
    SealedMarks(m, m2, bs, lo, hi, b, e);
    FreeReplacingNodes(m, Sealed(m2, bs, b, e), bs, lo, hi, ns, j, b, c);
    ReplaceCovers(bs, ns, j, b, c, e);
  }

  lemma {:induction false} ReplaceWrites(m: Memory, bs: Blocks, lo: int, hi: int, ns: seq<int>, j: int, b: int, e: int, v: int)
    requires Inv(m, bs, lo, hi, ns) && b in bs && e in bs && b + 4 <= e && 1 <= j < |ns|
    ensures WritesWithin(m, m[ns[j - 1] := b + 4][b + 4 := v], ns, b, e)
    ensures KeepsMarks(m, m[ns[j - 1] := b + 4][b + 4 := v], bs)
  {
    assert BlockOk(bs, lo, hi, b);
    ListWriteKeepsMarks(m, bs, lo, hi, ns, j - 1, b + 4);
    forall w | w % 8 == 4 && w !in bs && w != TOP ensures Rd(m[ns[j - 1] := b + 4][b + 4 := v], w) == Rd(m, w) {
      assert Rd(m[ns[j - 1] := b + 4], w) == Rd(m, w);
    }
  }

  lemma {:induction false} ReplaceSealedChain(m: Memory, bs: Blocks, lo: int, hi: int, ns: seq<int>, j: int, b: int, c: int)
    requires Inv(m, bs, lo, hi, ns) && b in bs && c in bs && bs[c].size == 8 && Next(bs, c) in bs
    requires 1 <= j < |ns| && ns[j] == c + 4 && b + 4 !in ns && b + 8 <= c
    ensures var m2 := m[ns[j - 1] := b + 4][b + 4 := Rd(m, c + 4)];
            Chain(Sealed(m2, bs, b, Next(bs, c)), ns[j := b + 4]) && NoDup(ns[j := b + 4])
  {
    var n := b + 4;
    var ns' := ns[j := n];
    ChainReplace(m, ns, j, n);
    var m2 := m[ns[j - 1] := n][n := Rd(m, c + 4)];
    WordNotNode(m, bs, lo, hi, ns, b, b);
    WordNotNode(m, bs, lo, hi, ns, Next(bs, c), Next(bs, c));
    ReplaceMisses(ns, j, n, b);
    ReplaceMisses(ns, j, n, Next(bs, c));
    ReplaceMisses(ns, j, n, c + 4);
    SealedChain(m2, bs, ns', b, Next(bs, c));
  }

  /** What is not on a list, or is replaced in it, is not on the list after the replacement. */
  lemma {:induction false} ReplaceMisses(ns: seq<int>, j: int, n: int, x: int)
    requires 0 <= j < |ns| && NoDup(ns) && x != n && (x !in ns || x == ns[j])
    ensures x !in ns[j := n]
  {
    var ns' := ns[j := n];
    forall k | 0 <= k < |ns'| ensures ns'[k] != x {
      assert k != j ==> ns'[k] == ns[k];
    }
  }

  lemma {:induction false} FreeReplacingNodes(m: Memory, m': Memory, bs: Blocks, lo: int, hi: int, ns: seq<int>, j: int, b: int, c: int)
    requires Inv(m, bs, lo, hi, ns) && b + 4 !in ns
    requires b in bs && c in bs && Next(bs, b) == c && 1 <= j < |ns| && ns[j] == c + 4
    requires Next(bs, c) in bs && !bs[Next(bs, c)].free && b < Next(bs, c) && KeepsMarks(m, m', bs)
    ensures Nodes(m', Merge(bs, b, Next(bs, c)), lo, hi, ns[j := b + 4])
  {
    var e := Next(bs, c);
    var bs', ns' := Merge(bs, b, e), ns[j := b + 4];
    MergedNodeOk(m', bs, lo, hi, b, e);
    forall n | n in ns'[1..] ensures NodeOk(m', bs', lo, hi, n) {
      ReplaceMembers(ns, j, b + 4, n);
      if n != b + 4 {
        NodeOverPair(m, bs, lo, hi, ns, b, c, n);
        MergeOldNode(m, m', bs, lo, hi, ns, b, e, n);
      }
    }
  }

  lemma {:induction false} ReplaceCovers(bs: Blocks, ns: seq<int>, j: int, b: int, c: int, e: int)
    requires NoDup(ns) && Covers(bs, ns) && 1 <= j < |ns| && ns[j] == c + 4 && b + 4 !in ns
    requires b in bs && e in bs && !bs[e].free && b < c < e
    ensures Covers(Merge(bs, b, e), ns[j := b + 4])
  {
    var ns' := ns[j := b + 4];
    forall a | a in bs && bs[a].free && (a < b || e < a) ensures a + 4 in ns'[1..] {
      ReplaceMembers(ns, j, b + 4, a + 4);
    }
    ReplaceMembers(ns, j, b + 4, b + 4);
    MergeCovers(bs, ns', b, e);
  }

  // Previous allocated, next free with more than 8 bytes: the deferred case.  The next block's
  // node stays on the list as a tombstone, with the node of the freed block right after it.

  lemma {:induction false} FreeDeferring(m: Memory, bs: Blocks, lo: int, hi: int, ns: seq<int>, j: int, b: int, c: int)
    requires Inv(m, bs, lo, hi, ns) && b in bs && b != hi && !bs[b].free && !PrevFree(bs, lo, b)
    requires c in bs && bs[c].free && bs[c].size > 8 && Next(bs, b) == c && 1 <= j < |ns| && ns[j] == c + 4
    ensures Next(bs, c) in bs && b < Next(bs, c)
    ensures var e := Next(bs, c);
            var m1 := m[b + 4 := Rd(m, c + 4)][c + 4 := b + 4][c := ALL_ONES];
            var m' := Sealed(m1, bs, b, e);
            && Inv(m', Merge(bs, b, e), lo, hi, Put(ns, j + 1, b + 4))
            && SealReads(m, m1, bs, b, e)
            && KeepsPayloads(m, m', bs, Merge(bs, b, e))
  {
    TwoNeighbours(bs, lo, hi, b, c);
    var e := Next(bs, c);
    var m1 := m[b + 4 := Rd(m, c + 4)][c + 4 := b + 4][c := ALL_ONES];
    PayloadNotNode(m, bs, lo, hi, ns, b);
    PutSealedChain(m, bs, lo, hi, ns, j, b, c);
    DeferWrites(m, bs, lo, hi, ns, b, c, Rd(m, c + 4));
    SealedHeaders(m, m1, bs, lo, hi, ns, b, e);
    SealedMarks(m, m1, bs, lo, hi, b, e);
    FreeDeferringNodes(m, Sealed(m1, bs, b, e), bs, lo, hi, ns, j, b, c);
    PutCovers(bs, ns, j + 1, b, c, e);
  }

  lemma {:induction false} DeferWrites(m: Memory, bs: Blocks, lo: int, hi: int, ns: seq<int>, b: int, c: int, v: int)
    requires Tiles(bs, lo, hi) && b in bs && b != hi && c in bs && bs[c].free && Next(bs, b) == c && bs[c].size > 8
    ensures var m1 := m[b + 4 := v][c + 4 := b + 4][c := ALL_ONES];
            WritesWithin(m, m1, ns, b, Next(bs, c)) && KeepsMarks(m, m1, bs)
    ensures var m1 := m[b + 4 := v][c + 4 := b + 4][c := ALL_ONES];
            Next(bs, c) in bs && Rd(Sealed(m1, bs, b, Next(bs, c)), c) == ALL_ONES
  {
    TwoNeighbours(bs, lo, hi, b, c);
  }

  lemma {:induction false} PutSealedChain(m: Memory, bs: Blocks, lo: int, hi: int, ns: seq<int>, j: int, b: int, c: int)
    requires Inv(m, bs, lo, hi, ns) && b in bs && c in bs && bs[c].free && bs[c].size > 8 && Next(bs, c) in bs
    requires 1 <= j < |ns| && ns[j] == c + 4 && b + 4 !in ns && b + 8 <= c
    ensures var m1 := m[b + 4 := Rd(m, c + 4)][c + 4 := b + 4][c := ALL_ONES];
            Chain(Sealed(m1, bs, b, Next(bs, c)), Put(ns, j + 1, b + 4)) && NoDup(Put(ns, j + 1, b + 4))
  {
    var n := b + 4;
    var ns' := Put(ns, j + 1, n);
    var ma := m[n := Rd(m, c + 4)][c + 4 := n];
    ChainPut(m, ns, j + 1, n);
    WordNotNode(m, bs, lo, hi, ns, b, b);
    WordNotNode(m, bs, lo, hi, ns, c, c);
    WordNotNode(m, bs, lo, hi, ns, c, Next(bs, c) - 4);
    WordNotNode(m, bs, lo, hi, ns, Next(bs, c), Next(bs, c));
    assert forall x :: x in ns' ==> x in ns || x == n;
    ChainOther(ma, ns', c, ALL_ONES);
    SealedChain(ma[c := ALL_ONES], bs, ns', b, Next(bs, c));
  }

  /** The node left behind inside the merged block is a tombstone. */
  lemma {:induction false} NewTombstone(m: Memory, bs: Blocks, lo: int, hi: int, b: int, c: int)
    requires Tiles(bs, lo, hi) && b in bs && b != hi && c in bs && bs[c].free && bs[c].size > 8 && Next(bs, b) == c
    requires Rd(m, c) == ALL_ONES && Next(bs, c) in bs && b < Next(bs, c)
    ensures NodeOk(m, Merge(bs, b, Next(bs, c)), lo, hi, c + 4)
  {
    TwoNeighbours(bs, lo, hi, b, c);
    var bs' := Merge(bs, b, Next(bs, c));
    forall a | a in bs' ensures Apart(c + 4, a, bs'[a]) {
      OrderAt(bs, lo, hi, a, b);
      OrderAt(bs, lo, hi, a, c);
    }
  }

  lemma {:induction false} FreeDeferringNodes(m: Memory, m': Memory, bs: Blocks, lo: int, hi: int, ns: seq<int>, j: int, b: int, c: int)
    requires Inv(m, bs, lo, hi, ns) && b + 4 !in ns
    requires b in bs && b != hi && c in bs && bs[c].free && bs[c].size > 8 && Next(bs, b) == c
    requires 1 <= j < |ns| && ns[j] == c + 4 && Rd(m', c) == ALL_ONES
    requires Next(bs, c) in bs && !bs[Next(bs, c)].free && b < Next(bs, c) && KeepsMarks(m, m', bs)
    ensures Nodes(m', Merge(bs, b, Next(bs, c)), lo, hi, Put(ns, j + 1, b + 4))
  {
    var e := Next(bs, c);
    var bs', ns' := Merge(bs, b, e), Put(ns, j + 1, b + 4);
    MergedNodeOk(m', bs, lo, hi, b, e);
    NewTombstone(m', bs, lo, hi, b, c);
    forall n | n in ns'[1..] ensures NodeOk(m', bs', lo, hi, n) {
      PutMembers(ns, j + 1, b + 4, n);
      if n != b + 4 && n != c + 4 {
        NodeOverPair(m, bs, lo, hi, ns, b, c, n);
        MergeOldNode(m, m', bs, lo, hi, ns, b, e, n);
      }
    }
  }

  lemma {:induction false} PutCovers(bs: Blocks, ns: seq<int>, i: int, b: int, c: int, e: int)
    requires Covers(bs, ns) && 1 <= i <= |ns|
    requires b in bs && e in bs && !bs[e].free && b < c < e
    ensures Covers(Merge(bs, b, e), Put(ns, i, b + 4))
  {
    var ns' := Put(ns, i, b + 4);
    forall a | a in bs && bs[a].free && (a < b || e < a) ensures a + 4 in ns'[1..] {
      PutMembers(ns, i, b + 4, a + 4);
    }
    PutMembers(ns, i, b + 4, b + 4);
    MergeCovers(bs, ns', b, e);
  }

  // ---------- Writes by the owner of a block ----------

  /** The caller may store anything in the payload of an allocated block. */
  lemma {:induction false} PayloadWrite(m: Memory, bs: Blocks, lo: int, hi: int, ns: seq<int>, a: int, w: int, v: int)
    requires Inv(m, bs, lo, hi, ns) && a in bs && !bs[a].free && a + 4 <= w < a + bs[a].size
    ensures Inv(m[w := v], bs, lo, hi, ns)
    ensures forall b :: b in bs && b != a ==> SamePayload(m, m[w := v], b, bs[b].size)
  {
    var m' := m[w := v];
    WordNotNode(m, bs, lo, hi, ns, a, w);
    ChainOther(m, ns, w, v);
    forall b | b in bs ensures HeaderOk(m', bs, lo, b) && (b != a ==> SamePayload(m, m', b, bs[b].size)) {
      assert HeaderOk(m, bs, lo, b);
      OrderAt(bs, lo, hi, a, b);
    }
    forall n | n in ns[1..] ensures NodeOk(m', bs, lo, hi, n) {
      assert NodeOk(m, bs, lo, hi, n);
      if n - 4 !in bs { assert Apart(n, a, bs[a]); }
    }
  }
}
