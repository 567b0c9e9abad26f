/** How the words of the heap encode blocks and the free list (mm.c): headers, footers, list
    nodes and tombstones, and the invariant that ties the words to the block row. */
module MmWords {
  import opened DivMod
  import opened MmBlocks

  /** Word-sized memory: the value of the 32-bit word at each word-aligned byte address. */
  type Memory = map<int, int>

  /** The word at address `a`. */
  function Rd(m: Memory, a: int): int {
    if a in m then m[a] else 0
  }

  /** The address of the global TOP, which lies below the heap. */
  const TOP: int := 4

  /** The value -1U: the header of a deferred list node. */
  const ALL_ONES: int := 0xFFFF_FFFF

  const TWO_32: int := 0x1_0000_0000

  // ---------- Headers and footers ----------

  /** The header word of block `a`: its size, the PFREE bit and the ALLOC bit. */
  ghost function Hdr(bs: Blocks, lo: int, a: int): int
    requires a in bs
  {
    bs[a].size + (if PrevFree(bs, lo, a) then 2 else 0) + (if bs[a].free then 0 else 1)
  }

  ghost predicate HeaderOk(m: Memory, bs: Blocks, lo: int, a: int)
    requires a in bs
  {
    && Rd(m, a) == Hdr(bs, lo, a)
    && (bs[a].free && bs[a].size > 8 ==> Rd(m, a + bs[a].size - 4) == bs[a].size + 4)
  }

  /** Every block carries its header, every free block over 8 bytes a valid footer. */
  ghost predicate Headers(m: Memory, bs: Blocks, lo: int) {
    forall a {:trigger HeaderOk(m, bs, lo, a)} :: a in bs ==> HeaderOk(m, bs, lo, a)
  }

  // ---------- The free list ----------

  /** `ns` is what a walk of the list meets: the address of TOP, then each node, then NULL. */
  ghost predicate Chain(m: Memory, ns: seq<int>) {
    && 1 <= |ns| && ns[0] == TOP
    && forall i {:trigger After(ns, i)} :: 0 <= i < |ns| ==> Rd(m, ns[i]) == After(ns, i)
  }

  ghost function After(ns: seq<int>, i: int): int
    requires 0 <= i < |ns|
  {
    if i + 1 < |ns| then ns[i + 1] else 0
  }

  ghost predicate NoDup(ns: seq<int>) {
    forall i, j :: 0 <= i < j < |ns| ==> ns[i] != ns[j]
  }

  /** The header and node words of node `n` lie before, after or strictly inside block `a`. */
  ghost predicate Apart(n: int, a: int, b: Block) {
    n + 4 <= a || a + b.size <= n - 4 || (b.free && a + 8 <= n - 4 && n + 8 <= a + b.size)
  }

  /** A deferred node: marked by its header, and touching no word that any block uses. */
  ghost predicate Tombstone(m: Memory, bs: Blocks, n: int) {
    && Rd(m, n - 4) == ALL_ONES
    && forall a {:trigger Apart(n, a, bs[a])} :: a in bs ==> Apart(n, a, bs[a])
  }

  /** A list node is the node of a free block or a tombstone. */
  ghost predicate NodeOk(m: Memory, bs: Blocks, lo: int, hi: int, n: int) {
    && n % 8 == 0 && lo < n < hi
    && (if n - 4 in bs then bs[n - 4].free else Tombstone(m, bs, n))
  }

  ghost predicate Nodes(m: Memory, bs: Blocks, lo: int, hi: int, ns: seq<int>) {
    |ns| >= 1 && forall n {:trigger NodeOk(m, bs, lo, hi, n)} :: n in ns[1..] ==> NodeOk(m, bs, lo, hi, n)
  }

  /** Every free block is on the list. */
  ghost predicate Covers(bs: Blocks, ns: seq<int>) {
    |ns| >= 1 && forall a {:trigger bs[a].free} :: a in bs && bs[a].free ==> a + 4 in ns[1..]
  }

  /** The allocator's invariant. */
  ghost predicate Inv(m: Memory, bs: Blocks, lo: int, hi: int, ns: seq<int>) {
    && TOP < lo && hi + 4 < ALL_ONES
    && Tiles(bs, lo, hi)
    && Headers(m, bs, lo)
    && Chain(m, ns) && NoDup(ns)
    && Nodes(m, bs, lo, hi, ns)
    && Covers(bs, ns)
  }

  // ---------- List surgery ----------

  ghost function Drop(ns: seq<int>, i: int): seq<int>
    requires 0 <= i < |ns|
  {
    ns[..i] + ns[i + 1..]
  }

  ghost function Put(ns: seq<int>, i: int, n: int): seq<int>
    requires 0 <= i <= |ns|
  {
    ns[..i] + [n] + ns[i..]
  }

  /** node_delete: the predecessor takes over the link of node `i`. */
  lemma {:induction false} ChainDrop(m: Memory, ns: seq<int>, i: int)
    requires Chain(m, ns) && NoDup(ns) && 1 <= i < |ns|
    ensures Chain(m[ns[i - 1] := Rd(m, ns[i])], Drop(ns, i))
    ensures NoDup(Drop(ns, i))
  {
    var ns', m' := Drop(ns, i), m[ns[i - 1] := Rd(m, ns[i])];
    forall k | 0 <= k < |ns'| ensures Rd(m', ns'[k]) == After(ns', k) {
      var k0 := if k < i then k else k + 1;
      assert ns'[k] == ns[k0] && Rd(m, ns[k0]) == After(ns, k0) && Rd(m, ns[i]) == After(ns, i);
    }
  }

  /** node_insert and node_top: `n` becomes node `i`. */
  lemma {:induction false} ChainPut(m: Memory, ns: seq<int>, i: int, n: int)
    requires Chain(m, ns) && NoDup(ns) && 1 <= i <= |ns| && n !in ns
    ensures Chain(m[n := Rd(m, ns[i - 1])][ns[i - 1] := n], Put(ns, i, n))
    ensures NoDup(Put(ns, i, n))
  {
    var ns', m' := Put(ns, i, n), m[n := Rd(m, ns[i - 1])][ns[i - 1] := n];
    assert forall k :: 0 <= k < |ns| ==> ns[k] != n;
    assert Rd(m, ns[i - 1]) == After(ns, i - 1);
    forall k | 0 <= k < |ns'| ensures Rd(m', ns'[k]) == After(ns', k) {
      if k != i {
        var k0 := if k < i then k else k - 1;
        assert ns'[k] == ns[k0] && Rd(m, ns[k0]) == After(ns, k0);
      }
    }
  }

  /** node_replace: `n` takes the place of node `i`. */
  lemma {:induction false} ChainReplace(m: Memory, ns: seq<int>, i: int, n: int)
    requires Chain(m, ns) && NoDup(ns) && 1 <= i < |ns| && n !in ns
    ensures Chain(m[ns[i - 1] := n][n := Rd(m, ns[i])], ns[i := n])
    ensures NoDup(ns[i := n])
  {
    var ns', m' := ns[i := n], m[ns[i - 1] := n][n := Rd(m, ns[i])];
    assert forall k :: 0 <= k < |ns| ==> ns[k] != n;
    forall k | 0 <= k < |ns'| ensures Rd(m', ns'[k]) == After(ns', k) {
      assert k != i ==> ns'[k] == ns[k];
      assert Rd(m, ns[k]) == After(ns, k);
    }
  }

  lemma {:induction false} DropMembers(ns: seq<int>, i: int, x: int)
    requires 1 <= i < |ns| && NoDup(ns)
    ensures x in Drop(ns, i)[1..] <==> x in ns[1..] && x != ns[i]
  {
    var ns' := Drop(ns, i);
    if x in ns'[1..] {
      var k :| 1 <= k < |ns'| && ns'[k] == x;
      var k0 := if k < i then k else k + 1;
      assert ns[k0] == x;
    }
    if x in ns[1..] && x != ns[i] {
      var k :| 1 <= k < |ns| && ns[k] == x;
      var k1 := if k < i then k else k - 1;
      assert ns'[k1] == x;
    }
  }

  lemma {:induction false} PutMembers(ns: seq<int>, i: int, n: int, x: int)
    requires 1 <= i <= |ns|
    ensures x in Put(ns, i, n)[1..] <==> x in ns[1..] || x == n
  {
    assert Put(ns, i, n)[1..] == ns[1..][..i - 1] + [n] + ns[1..][i - 1..];
    assert ns[1..] == ns[1..][..i - 1] + ns[1..][i - 1..];
  }

  lemma {:induction false} ReplaceMembers(ns: seq<int>, i: int, n: int, x: int)
    requires 1 <= i < |ns| && NoDup(ns) && n !in ns
    ensures x in ns[i := n][1..] <==> (x in ns[1..] && x != ns[i]) || x == n
  {
    var ns' := ns[i := n];
    if x in ns'[1..] {
      var k :| 1 <= k < |ns'| && ns'[k] == x;
      if k != i { assert ns[k] == x; }
    }
    if x in ns[1..] && x != ns[i] {
      var k :| 1 <= k < |ns| && ns[k] == x;
      assert ns'[k] == x;
    }
    assert ns'[i] == n;
  }

  /** The list position of a free block's node. */
  lemma {:induction false} FindNode(m: Memory, bs: Blocks, lo: int, hi: int, ns: seq<int>, a: int) returns (i: int)
    requires Inv(m, bs, lo, hi, ns) && a in bs && bs[a].free
    ensures 1 <= i < |ns| && ns[i] == a + 4
  {
    i :| 1 <= i < |ns| && ns[i] == a + 4;
  }

  lemma {:induction false} NodeAt(m: Memory, bs: Blocks, lo: int, hi: int, ns: seq<int>, i: int)
    requires Nodes(m, bs, lo, hi, ns) && 1 <= i < |ns|
    ensures NodeOk(m, bs, lo, hi, ns[i])
  {
    assert ns[1..][i - 1] == ns[i];
  }

  lemma {:induction false} NodeRange(m: Memory, bs: Blocks, lo: int, hi: int, ns: seq<int>, i: int)
    requires Inv(m, bs, lo, hi, ns) && 0 <= i < |ns|
    ensures i == 0 ==> ns[i] == TOP
    ensures i > 0 ==> ns[i] % 8 == 0 && lo < ns[i] < hi && lo % 8 == 4 && hi % 8 == 4
    ensures i > 0 ==> ns[i] % 4 == 0 && (ns[i] - 4) % 4 == 0 && lo <= ns[i] - 4 && ns[i] <= hi - 4
    ensures Rd(m, ns[i]) == After(ns, i)
  {
    assert Rd(m, ns[i]) == After(ns, i);
    if i > 0 {
      NodeAt(m, bs, lo, hi, ns, i);
      AlignedBy4(ns[i]);
      assert BlockOk(bs, lo, hi, lo) && BlockOk(bs, lo, hi, hi);
    }
  }

  // ---------- Which words belong to what ----------

  /** A node word is not a header, nor the footer of a free block over 8 bytes. */
  lemma {:induction false} NodeWordApart(m: Memory, bs: Blocks, lo: int, hi: int, n: int, a: int)
    requires Tiles(bs, lo, hi) && TOP < lo && a in bs
    requires n == TOP || NodeOk(m, bs, lo, hi, n)
    ensures n != a
    ensures bs[a].free && bs[a].size > 8 ==> n != a + bs[a].size - 4
    ensures !bs[a].free ==> !(a < n < a + bs[a].size)
  {
    assert BlockOk(bs, lo, hi, a);
    if n != TOP {
      if n - 4 in bs {
        assert BlockOk(bs, lo, hi, n - 4);
        OrderAt(bs, lo, hi, a, n - 4);
      } else {
        assert Apart(n, a, bs[a]);
      }
    }
  }

  /** Header addresses are never list nodes. */
  lemma {:induction false} HeaderNotNode(m: Memory, bs: Blocks, lo: int, hi: int, ns: seq<int>, w: int)
    requires TOP < lo <= w && w % 8 == 4 && Chain(m, ns) && Nodes(m, bs, lo, hi, ns)
    ensures w !in ns
  {
    forall k | 0 <= k < |ns| ensures ns[k] != w {
      if k > 0 { NodeAt(m, bs, lo, hi, ns, k); }
    }
  }

  /** The footer word of a free block over 8 bytes is never a list node. */
  lemma {:induction false} FooterNotNode(m: Memory, bs: Blocks, lo: int, hi: int, ns: seq<int>, a: int)
    requires TOP < lo && Tiles(bs, lo, hi) && Chain(m, ns) && Nodes(m, bs, lo, hi, ns)
    requires a in bs && bs[a].free && bs[a].size > 8
    ensures a + bs[a].size - 4 !in ns
  {
    forall k | 0 <= k < |ns| ensures ns[k] != a + bs[a].size - 4 {
      if k > 0 { NodeAt(m, bs, lo, hi, ns, k); }
      NodeWordApart(m, bs, lo, hi, ns[k], a);
    }
  }

  lemma {:induction false} ChainOther(m: Memory, ns: seq<int>, w: int, v: int)
    requires Chain(m, ns) && w !in ns
    ensures Chain(m[w := v], ns)
  {
    forall i | 0 <= i < |ns| ensures Rd(m[w := v], ns[i]) == After(ns, i) {
      assert ns[i] in ns;
    }
  }

  /** Writing a node word disturbs no header, no footer and no tombstone mark. */
  lemma {:induction false} NodeWrite(m: Memory, bs: Blocks, lo: int, hi: int, n: int, v: int)
    requires TOP < lo && Tiles(bs, lo, hi) && Headers(m, bs, lo)
    requires n == TOP || NodeOk(m, bs, lo, hi, n)
    ensures Headers(m[n := v], bs, lo)
    ensures forall x :: NodeOk(m, bs, lo, hi, x) ==> NodeOk(m[n := v], bs, lo, hi, x)
  {
    forall a | a in bs ensures HeaderOk(m[n := v], bs, lo, a) {
      assert HeaderOk(m, bs, lo, a);
      NodeWordApart(m, bs, lo, hi, n, a);
    }
    assert BlockOk(bs, lo, hi, lo);
    forall x | NodeOk(m, bs, lo, hi, x) ensures NodeOk(m[n := v], bs, lo, hi, x) {
      assert x - 4 != n;
    }
  }

  // ---------- Payloads ----------

  /** The payload words of the block at `a` are the same in both memories. */
  ghost predicate SamePayload(m: Memory, m': Memory, a: int, size: int) {
    forall w {:trigger Rd(m', w)} :: a + 4 <= w < a + size ==> Rd(m', w) == Rd(m, w)
  }

  /** Writing the word `w` outside block `a` keeps the payload of `a`. */
  lemma {:induction false} SamePayloadWrite(m: Memory, m': Memory, a: int, size: int, w: int, v: int)
    requires SamePayload(m, m', a, size) && !(a + 4 <= w < a + size)
    ensures SamePayload(m, m'[w := v], a, size)
  {
    forall x | a + 4 <= x < a + size ensures Rd(m'[w := v], x) == Rd(m, x) {
      assert Rd(m', x) == Rd(m, x);
    }
  }
}
