/** The allocator as its callers see it: live pointers, what malloc and free do to them, and what
    that means for whole runs. */
module MmClient {
  import opened MmBlocks
  import opened MmWords
  import opened MmOps

  /** `p` is the payload address of an allocated block. */
  ghost predicate Live(bs: Blocks, hi: int, p: int) {
    p - 4 in bs && p - 4 != hi && !bs[p - 4].free
  }

  /** The number of payload bytes behind a live pointer. */
  ghost function Room(bs: Blocks, p: int): int
    requires p - 4 in bs
  {
    bs[p - 4].size - 4
  }

  /** A live pointer keeps its room and its bytes. */
  ghost predicate Untouched(m: Memory, m': Memory, bs: Blocks, bs': Blocks, p: int)
    requires p - 4 in bs && p - 4 in bs'
  {
    Room(bs', p) == Room(bs, p) && SamePayload(m, m', p - 4, bs[p - 4].size)
  }

  /** malloc(size) returned `ptr`: exactly `ptr` became live, with enough room. */
  ghost predicate Allocated(m: Memory, bs: Blocks, hi: int, m': Memory, bs': Blocks, hi': int, size: int, ptr: int) {
    && Live(bs', hi', ptr) && !Live(bs, hi, ptr) && size <= Room(bs', ptr)
    && (forall q {:trigger Live(bs', hi', q)} :: Live(bs', hi', q) <==> Live(bs, hi, q) || q == ptr)
    && (forall q {:trigger Live(bs, hi, q)} :: Live(bs, hi, q) ==> q - 4 in bs' && Untouched(m, m', bs, bs', q))
  }

  /** free(ptr) returned: exactly `ptr` stopped being live. */
  ghost predicate Released(m: Memory, bs: Blocks, hi: int, m': Memory, bs': Blocks, hi': int, ptr: int) {
    && Live(bs, hi, ptr)
    && (forall q {:trigger Live(bs', hi', q)} :: Live(bs', hi', q) <==> Live(bs, hi, q) && q != ptr)
    && (forall q {:trigger Live(bs, hi, q)} :: Live(bs, hi, q) && q != ptr ==> q - 4 in bs' && Untouched(m, m', bs, bs', q))
  }

  /** The first `n` bytes at `dst` now are the first `n` bytes at `src` before. */
  ghost predicate Copied(m: Memory, m': Memory, dst: int, src: int, n: int) {
    forall w {:trigger Rd(m', w)} :: dst <= w < dst + n && (w - dst) % 4 == 0 ==> Rd(m', w) == Rd(m, src + (w - dst))
  }

  /** The contents of `ptr` moved to the new block `nptr`, `ptr` is free, nothing else changed. */
  ghost predicate Moved(m: Memory, bs: Blocks, hi: int, m': Memory, bs': Blocks, hi': int, size: int, ptr: int, nptr: int) {
    && Live(bs, hi, ptr) && !Live(bs, hi, nptr) && Live(bs', hi', nptr) && size <= Room(bs', nptr)
    && Room(bs, ptr) <= Room(bs', nptr)
    && (forall q {:trigger Live(bs', hi', q)} :: Live(bs', hi', q) <==> (Live(bs, hi, q) && q != ptr) || q == nptr)
    && (forall q {:trigger Live(bs, hi, q)} :: Live(bs, hi, q) && q != ptr ==> q - 4 in bs' && Untouched(m, m', bs, bs', q))
    && Copied(m, m', nptr, ptr, Room(bs, ptr))
  }

  // ---------- The block-level effects, seen through live pointers ----------

  lemma {:induction false} CarveAllocates(m: Memory, m': Memory, bs: Blocks, lo: int, hi: int, ns: seq<int>, p: int, k: int, size: int)
    requires Inv(m, bs, lo, hi, ns) && p in bs && bs[p].free && Carvable(bs, p) && 8 <= k <= bs[p].size && k % 8 == 0
    requires size <= k - 4 && KeepsPayloads(m, m', bs, Carve(bs, p, k))
    ensures Allocated(m, bs, hi, m', Carve(bs, p, k), hi, size, p + 4)
  {
    var bs' := Carve(bs, p, k);
    hide Chain, NoDup, Nodes, Covers, Headers;
    assert BlockOk(bs, lo, hi, hi) && BlockOk(bs, lo, hi, p);
    if k < bs[p].size { InsideIsFresh(bs, lo, hi, p, p + k); }
    forall q | Live(bs, hi, q) ensures q - 4 in bs' && Untouched(m, m', bs, bs', q) {
      assert SamePayload(m, m', q - 4, bs[q - 4].size);
    }
  }

  lemma {:induction false} GrowAllocates(m: Memory, m': Memory, bs: Blocks, lo: int, hi: int, ns: seq<int>, p: int, k: int, size: int)
    requires Inv(m, bs, lo, hi, ns) && p in bs && (p == hi || (bs[p].free && Next(bs, p) == hi))
    requires bs[p].size < k && size <= k - 4 && KeepsPayloads(m, m', bs - {hi}, Grow(bs, hi, p, k))
    ensures Allocated(m, bs, hi, m', Grow(bs, hi, p, k), p + k, size, p + 4)
  {
    hide Chain, NoDup, Nodes, Covers, Headers;
    var bs' := Grow(bs, hi, p, k);
    assert BlockOk(bs, lo, hi, p);
    forall q | Live(bs, hi, q)
      ensures q - 4 in bs' && Untouched(m, m', bs, bs', q) && q - 4 != p && q - 4 != p + k
    {
      assert BlockOk(bs, lo, hi, q - 4);
      OrderAt(bs, lo, hi, q - 4, p);
      assert SamePayload(m, m', q - 4, (bs - {hi})[q - 4].size);
    }
  }

  lemma {:induction false} MergeReleases(m: Memory, m': Memory, bs: Blocks, lo: int, hi: int, s: int, e: int, b: int)
    requires Tiles(bs, lo, hi) && s in bs && e in bs && s <= b < e && b in bs && b != hi && !bs[b].free
    requires forall a :: a in bs && s <= a < e && a != b ==> bs[a].free
    requires KeepsPayloads(m, m', bs, Merge(bs, s, e))
    ensures Released(m, bs, hi, m', Merge(bs, s, e), hi, b + 4)
  {
    var bs' := Merge(bs, s, e);
    forall q | Live(bs, hi, q) && q != b + 4 ensures q - 4 in bs' && Untouched(m, m', bs, bs', q) {
      assert q - 4 in bs';
      assert SamePayload(m, m', q - 4, bs[q - 4].size);
    }
  }

  // ---------- Whole runs ----------

  /** One observable state: the words, and the blocks and list they encode. */
  datatype Heap = Heap(m: Memory, bs: Blocks, lo: int, hi: int, ns: seq<int>)

  /** One call, with its arguments and result, or one store by the owner of a block. */
  datatype Op =
    | Malloc(size: int, ptr: int)
    | MallocFails(size: int)
    | Free(ptr: int)
    | Realloc(ptr: int, size: int, nptr: int)
    | Write(ptr: int, at: int, value: int)

  ghost predicate Ok(h: Heap) { Inv(h.m, h.bs, h.lo, h.hi, h.ns) }

  ghost predicate Step(h: Heap, op: Op, h': Heap) {
    && Ok(h) && Ok(h') && h'.lo == h.lo
    && match op {
         case Malloc(size, ptr) => Allocated(h.m, h.bs, h.hi, h'.m, h'.bs, h'.hi, size, ptr)
         case MallocFails(_) => h'.bs == h.bs && h'.hi == h.hi && KeepsPayloads(h.m, h'.m, h.bs, h.bs)
         case Free(ptr) => Released(h.m, h.bs, h.hi, h'.m, h'.bs, h'.hi, ptr)
         case Realloc(ptr, size, nptr) =>
           if nptr == ptr then Live(h.bs, h.hi, ptr) && size <= Room(h.bs, ptr) && h' == h
           else Moved(h.m, h.bs, h.hi, h'.m, h'.bs, h'.hi, size, ptr, nptr)
         case Write(ptr, at, value) =>
           && Live(h.bs, h.hi, ptr) && ptr <= at < ptr + Room(h.bs, ptr) && at % 4 == 0
           && h' == h.(m := h.m[at := value])
       }
  }

  /** `hs` are the states of a run that performs `ops` from an empty heap. */
  ghost predicate Run(hs: seq<Heap>, ops: seq<Op>) {
    && |hs| == |ops| + 1
    && Ok(hs[0]) && (forall p :: !Live(hs[0].bs, hs[0].hi, p))
    && forall i {:trigger ops[i]} :: 0 <= i < |ops| ==> Step(hs[i], ops[i], hs[i + 1])
  }

  /** A run goes on with any further step. */
  lemma RunExtends(hs: seq<Heap>, ops: seq<Op>, op: Op, h': Heap)
    requires Run(hs, ops) && Step(hs[|ops|], op, h')
    ensures Run(hs + [h'], ops + [op])
  {
    var gs, os := hs + [h'], ops + [op];
    forall i | 0 <= i < |os| ensures Step(gs[i], os[i], gs[i + 1]) {
      if i < |ops| { assert Step(hs[i], ops[i], hs[i + 1]); }
    }
  }

  /** What a client may believe about a block it holds: the size it asked for, and the words it
      has stored since, by their distance from the pointer. */
  datatype Held = Held(size: int, data: map<int, int>)

  /** What one step makes of the holdings. */
  ghost function Hold(held: map<int, Held>, op: Op): map<int, Held> {
    match op
    case Malloc(size, ptr) => held[ptr := Held(size, map[])]
    case MallocFails(_) => held
    case Free(ptr) => held - {ptr}
    case Realloc(ptr, size, nptr) =>
      if ptr in held then (held - {ptr})[nptr := Held(size, held[ptr].data)] else held
    case Write(ptr, at, value) =>
      if ptr in held then held[ptr := Held(held[ptr].size, held[ptr].data[at - ptr := value])] else held
  }

  ghost function Holdings(ops: seq<Op>): map<int, Held> {
    if ops == [] then map[] else Hold(Holdings(ops[..|ops| - 1]), ops[|ops| - 1])
  }

  /** The heap agrees with everything its clients believe, and nothing else is allocated. */
  ghost predicate Honours(h: Heap, held: map<int, Held>) {
    && (forall p {:trigger Live(h.bs, h.hi, p)} :: Live(h.bs, h.hi, p) <==> p in held)
    && (forall p {:trigger held[p].size} :: p in held ==> p - 4 in h.bs && held[p].size <= Room(h.bs, p))
    && (forall p, i {:trigger held[p].data[i]} :: p in held && i in held[p].data ==>
          0 <= i < Room(h.bs, p) && i % 4 == 0 && Rd(h.m, p + i) == held[p].data[i])
  }

  /** Different live blocks share no byte. */
  lemma {:induction false} LiveApart(m: Memory, bs: Blocks, lo: int, hi: int, ns: seq<int>, p: int, q: int)
    requires Inv(m, bs, lo, hi, ns) && Live(bs, hi, p) && Live(bs, hi, q)
    ensures p != q ==> p + Room(bs, p) <= q - 4 || q + Room(bs, q) <= p - 4
    ensures p % 8 == 0 && lo < p && p + Room(bs, p) <= hi
  {
    assert BlockOk(bs, lo, hi, p - 4);
    OrderAt(bs, lo, hi, p - 4, q - 4);
    OrderAt(bs, lo, hi, p - 4, hi);
  }

  /** A pointer live before and after a malloc or free reads back the same data. */
  lemma {:induction false} UntouchedData(h: Heap, h': Heap, held: map<int, Held>, p: int, i: int)
    requires Honours(h, held) && p in held && i in held[p].data
    requires p - 4 in h.bs && p - 4 in h'.bs && Untouched(h.m, h'.m, h.bs, h'.bs, p)
    ensures 0 <= i < Room(h'.bs, p) && i % 4 == 0 && Rd(h'.m, p + i) == held[p].data[i]
  {
    assert Rd(h.m, p + i) == held[p].data[i];
    assert Rd(h'.m, p + i) == Rd(h.m, p + i);
  }

  lemma {:induction false} CallHonours(h: Heap, op: Op, h': Heap, held: map<int, Held>)
    requires Step(h, op, h') && Honours(h, held) && !op.Write? && !op.Realloc?
    ensures Honours(h', Hold(held, op))
  {
    var held' := Hold(held, op);
    hide Inv;
    forall p ensures Live(h'.bs, h'.hi, p) <==> p in held' {
      assert Live(h.bs, h.hi, p) <==> p in held;
      assert Live(h'.bs, h'.hi, p) == Live(h'.bs, h'.hi, p);
    }
    forall p | p in held' ensures p - 4 in h'.bs && held'[p].size <= Room(h'.bs, p) {
      assert Live(h'.bs, h'.hi, p);
      if p in held {
        assert Live(h.bs, h.hi, p) && held[p].size <= Room(h.bs, p);
        assert op.MallocFails? || Untouched(h.m, h'.m, h.bs, h'.bs, p);
      }
    }
    forall p, i | p in held' && i in held'[p].data
      ensures 0 <= i < Room(h'.bs, p) && i % 4 == 0 && Rd(h'.m, p + i) == held'[p].data[i]
    {
      assert Live(h.bs, h.hi, p) && p in held;
      if op.MallocFails? { assert SamePayload(h.m, h'.m, p - 4, h.bs[p - 4].size); }
      UntouchedData(h, h', held, p, i);
    }
  }

  /** The moved block reads back what its owner stored before. */
  lemma {:induction false} MovedData(h: Heap, op: Op, h': Heap, held: map<int, Held>, i: int)
    requires Step(h, op, h') && Honours(h, held) && op.Realloc? && op.ptr in held && i in held[op.ptr].data
    ensures op.nptr - 4 in h'.bs && 0 <= i < Room(h'.bs, op.nptr) && i % 4 == 0
    ensures Rd(h'.m, op.nptr + i) == held[op.ptr].data[i]
  {
    assert Rd(h.m, op.ptr + i) == held[op.ptr].data[i];
    assert Live(h'.bs, h'.hi, op.nptr) && Live(h.bs, h.hi, op.ptr);
    assert op.nptr + i - op.nptr == i;
  }

  lemma {:induction false} ReallocLive(h: Heap, op: Op, h': Heap, held: map<int, Held>, p: int)
    requires Step(h, op, h') && Honours(h, held) && op.Realloc?
    ensures op.ptr in held && (Live(h'.bs, h'.hi, p) <==> p in Hold(held, op))
    ensures p in Hold(held, op) ==> p - 4 in h'.bs && Hold(held, op)[p].size <= Room(h'.bs, p)
  {
    hide Inv;
    assert Live(h.bs, h.hi, op.ptr) && op.ptr in held;
    assert Live(h.bs, h.hi, p) <==> p in held;
    assert Live(h'.bs, h'.hi, p) == Live(h'.bs, h'.hi, p);
    if p in Hold(held, op) && p != op.nptr {
      assert held[p].size <= Room(h.bs, p);
      assert op.nptr == op.ptr || Untouched(h.m, h'.m, h.bs, h'.bs, p);
    }
  }

  lemma {:induction false} ReallocHonours(h: Heap, op: Op, h': Heap, held: map<int, Held>)
    requires Step(h, op, h') && Honours(h, held) && op.Realloc?
    ensures Honours(h', Hold(held, op))
  {
    var held' := Hold(held, op);
    hide Inv;
    forall p ensures Live(h'.bs, h'.hi, p) <==> p in held' { ReallocLive(h, op, h', held, p); }
    forall p | p in held' ensures p - 4 in h'.bs && held'[p].size <= Room(h'.bs, p) {
      ReallocLive(h, op, h', held, p);
    }
    forall p, i | p in held' && i in held'[p].data
      ensures 0 <= i < Room(h'.bs, p) && i % 4 == 0 && Rd(h'.m, p + i) == held'[p].data[i]
    {
      ReallocLive(h, op, h', held, p);
      if p == op.nptr {
        MovedData(h, op, h', held, i);
      } else {
        assert p in held && Live(h.bs, h.hi, p) && Rd(h.m, p + i) == held[p].data[i];
        if op.nptr != op.ptr { UntouchedData(h, h', held, p, i); }
      }
    }
  }

  lemma {:induction false} WriteHonours(h: Heap, op: Op, h': Heap, held: map<int, Held>)
    requires Step(h, op, h') && Honours(h, held) && op.Write?
    ensures Honours(h', Hold(held, op))
  {
    var held' := Hold(held, op);
    hide Inv;
    assert h'.m == h.m[op.at := op.value] && h'.bs == h.bs && h'.hi == h.hi;
    assert Live(h.bs, h.hi, op.ptr);
    assert op.ptr in held && held[op.ptr].size <= Room(h.bs, op.ptr);
    forall p ensures Live(h'.bs, h'.hi, p) <==> p in held' {
      assert Live(h.bs, h.hi, p) <==> p in held;
    }
    forall p | p in held' ensures p - 4 in h'.bs && held'[p].size <= Room(h'.bs, p) {
      assert p in held && held[p].size <= Room(h.bs, p) && held'[p].size == held[p].size;
      assert Room(h'.bs, p) == Room(h.bs, p);
    }
    forall p, i | p in held' && i in held'[p].data
      ensures 0 <= i < Room(h'.bs, p) && i % 4 == 0 && Rd(h'.m, p + i) == held'[p].data[i]
    {
      if p == op.ptr && p + i == op.at {
        LiveApart(h.m, h.bs, h.lo, h.hi, h.ns, p, p);
        MultipleOf4(p, i);
      } else {
        assert held[p].data[i] == held'[p].data[i];
        assert Live(h.bs, h.hi, p) && Rd(h.m, p + i) == held[p].data[i];
        if p != op.ptr { LiveApart(h.m, h.bs, h.lo, h.hi, h.ns, p, op.ptr); }
      }
    }
  }

  lemma MultipleOf4(p: int, i: int)
    requires p % 8 == 0 && (p + i) % 4 == 0
    ensures i % 4 == 0
  {
  }

  /** Over every run: exactly the pointers returned and not yet freed are live, each has the room
      that was asked for, and each reads back what its owner last stored. */
  lemma {:induction false} RunHonours(hs: seq<Heap>, ops: seq<Op>)
    requires Run(hs, ops)
    ensures Honours(hs[|ops|], Holdings(ops))
    decreases |ops|
  {
    if ops != [] {
      var n := |ops| - 1;
      var hs', ops' := hs[..|ops|], ops[..n];
      assert Run(hs', ops') by {
        forall i | 0 <= i < n ensures Step(hs'[i], ops'[i], hs'[i + 1]) {
          assert Step(hs[i], ops[i], hs[i + 1]);
        }
      }
      RunHonours(hs', ops');
      assert Step(hs[n], ops[n], hs[n + 1]);
      assert Holdings(ops) == Hold(Holdings(ops'), ops[n]);
      if ops[n].Realloc? {
        ReallocHonours(hs[n], ops[n], hs[n + 1], Holdings(ops'));
      } else if ops[n].Write? {
        WriteHonours(hs[n], ops[n], hs[n + 1], Holdings(ops'));
      } else {
        CallHonours(hs[n], ops[n], hs[n + 1], Holdings(ops'));
      }
    }
  }

  /** Over every run: held blocks are 8-byte aligned, inside the heap, large enough, and share no
      byte with each other. */
  lemma {:induction false} RunSeparates(hs: seq<Heap>, ops: seq<Op>, p: int, q: int)
    requires Run(hs, ops) && p in Holdings(ops) && q in Holdings(ops)
    ensures p % 8 == 0 && hs[|ops|].lo < p && p + Holdings(ops)[p].size <= hs[|ops|].hi
    ensures p != q ==> p + Holdings(ops)[p].size <= q - 4 || q + Holdings(ops)[q].size <= p - 4
  {
    RunHonours(hs, ops);
    var h, held := hs[|ops|], Holdings(ops);
    if ops != [] { assert Step(hs[|ops| - 1], ops[|ops| - 1], hs[|ops|]); }
    assert Live(h.bs, h.hi, p) && Live(h.bs, h.hi, q);
    assert held[p].size <= Room(h.bs, p) && held[q].size <= Room(h.bs, q);
    LiveApart(h.m, h.bs, h.lo, h.hi, h.ns, p, q);
  }
}
